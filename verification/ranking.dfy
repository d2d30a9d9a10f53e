/**
 * `most_watched_movies`: per-movie watch and rewatch counts from both
 * sources, ranked by rewatches, then watches (both descending), then title.
 */
module Ranking {
  import opened Records
  import opened Reconcile
  import opened Sorting
  import opened Text

  /** An entry of the `movie_counts` hash. */
  datatype Counts = Counts(watch: nat, rewatch: nat)

  datatype WatchedRow = WatchedRow(movieId: MovieId, movie: Movie, watchCount: nat, rewatchCount: nat)

  function RowMovie(r: WatchedRow): MovieId {
    r.movieId
  }

  function RowIds(rows: seq<WatchedRow>): set<MovieId> {
    set i | 0 <= i < |rows| :: rows[i].movieId
  }

  /** The order of `sort_by { |row| [-row[:rewatch_count], -row[:watch_count], row[:movie].title.to_s] }` */
  predicate RankLe(a: WatchedRow, b: WatchedRow) {
    a.rewatchCount > b.rewatchCount ||
    (a.rewatchCount == b.rewatchCount &&
      (a.watchCount > b.watchCount ||
        (a.watchCount == b.watchCount && StrLe(a.movie.title, b.movie.title))))
  }

  lemma RankLeIsTotalPreorder()
    ensures TotalPreorder(RankLe)
  {
    forall a: WatchedRow, b: WatchedRow
      ensures RankLe(a, b) || RankLe(b, a)
    {
      StrLeTotal(a.movie.title, b.movie.title);
    }
    forall a: WatchedRow, b: WatchedRow, c: WatchedRow | RankLe(a, b) && RankLe(b, c)
      ensures RankLe(a, c)
    {
      if a.rewatchCount == b.rewatchCount == c.rewatchCount && a.watchCount == b.watchCount == c.watchCount {
        StrLeTransitive(a.movie.title, b.movie.title, c.movie.title);
      }
    }
  }

  /** A movie that appears in the ranking: it still exists and was watched or flagged as rewatched. */
  predicate IsRanked(logs: seq<WatchLog>, legacy: seq<LegacyLog>, movies: map<MovieId, Movie>, id: MovieId) {
    id in movies && (WatchCount(logs, id) > 0 || FlaggedCount(legacy, id) > 0)
  }

  /** The row a ranked movie gets. */
  function RowFor(logs: seq<WatchLog>, legacy: seq<LegacyLog>, movies: map<MovieId, Movie>, id: MovieId): (r: WatchedRow)
    requires id in movies
    ensures r.movieId == id && r.movie == movies[id]
  {
    WatchedRow(id, movies[id], WatchCount(logs, id), RewatchFor(logs, legacy, id))
  }

  /** The first loop: `movie_counts[log.movie_id][:count] += 1` for each log whose movie exists. */
  method CountViewings(logs: seq<WatchLog>, movies: map<MovieId, Movie>) returns (counts: map<MovieId, Counts>, order: seq<MovieId>)
    ensures NoDuplicates(order)
    ensures forall id :: id in counts <==> id in order
    ensures forall id :: id in counts <==> id in movies && WatchCount(logs, id) > 0
    ensures forall id :: id in counts ==> counts[id] == Counts(WatchCount(logs, id), 0)
  {
    counts, order := map[], [];
    for i := 0 to |logs|
      invariant NoDuplicates(order)
      invariant forall id :: id in counts <==> id in order
      invariant forall id :: id in counts <==> id in movies && WatchCount(logs[..i], id) > 0
      invariant forall id :: id in counts ==> counts[id] == Counts(WatchCount(logs[..i], id), 0)
    {
      var log := logs[i];
      assert logs[..i + 1][..i] == logs[..i];
      if log.movieId in movies {
        if log.movieId in counts {
          counts := counts[log.movieId := Counts(counts[log.movieId].watch + 1, 0)];
        } else {
          counts := counts[log.movieId := Counts(1, 0)];
          order := order + [log.movieId];
        }
      }
    }
    assert logs[..|logs|] == logs;
  }

  /**
   * The second loop: for each movie with rewatch-flagged legacy logs,
   * `rewatch_count = [rewatch_count, flagged].max`, creating the entry
   * (count 0) when the movie has no watch log.
   */
  method FoldLegacyFlags(counts0: map<MovieId, Counts>, order0: seq<MovieId>, legacy: seq<LegacyLog>)
    returns (counts: map<MovieId, Counts>, order: seq<MovieId>)
    requires NoDuplicates(order0)
    requires forall id :: id in counts0 <==> id in order0
    ensures NoDuplicates(order)
    ensures forall id :: id in counts <==> id in order
    ensures forall id :: id in counts <==> id in counts0 || FlaggedCount(legacy, id) > 0
    ensures forall id :: id in counts ==>
      counts[id].watch == (if id in counts0 then counts0[id].watch else 0) &&
      counts[id].rewatch == Max(if id in counts0 then counts0[id].rewatch else 0, FlaggedCount(legacy, id))
  {
    var flagged := FlaggedMovies(legacy);
    counts, order := counts0, order0;
    for j := 0 to |flagged|
      invariant NoDuplicates(order)
      invariant forall id :: id in counts <==> id in order
      invariant forall id :: id in counts <==> id in counts0 || id in flagged[..j]
      invariant forall id :: id in counts ==>
        counts[id].watch == (if id in counts0 then counts0[id].watch else 0) &&
        counts[id].rewatch == (if id in flagged[..j]
                               then Max(if id in counts0 then counts0[id].rewatch else 0, FlaggedCount(legacy, id))
                               else counts0[id].rewatch)
    {
      var id := flagged[j];
      assert flagged[..j + 1] == flagged[..j] + [id];
      assert id !in flagged[..j];
      var entry := Counts(0, 0);
      if id in counts {
        entry := counts[id];
      } else {
        order := order + [id];
      }
      counts := counts[id := Counts(entry.watch, Max(entry.rewatch, FlaggedCount(legacy, id)))];
    }
    assert flagged[..|flagged|] == flagged;
    forall id | id in counts && id !in flagged
      ensures FlaggedCount(legacy, id) == 0
    {
    }
  }

  function Max(a: int, b: int): (m: int)
    ensures m >= a && m >= b && (m == a || m == b)
  {
    if a >= b then a else b
  }

  /** The third loop: `rewatch_count = [rewatch_count, count - 1].max` for every entry. */
  method ApplyRepeatRule(counts0: map<MovieId, Counts>, order: seq<MovieId>) returns (counts: map<MovieId, Counts>)
    requires NoDuplicates(order)
    requires forall id :: id in counts0 <==> id in order
    ensures forall id :: id in counts <==> id in counts0
    ensures forall id :: id in counts ==>
      counts[id] == Counts(counts0[id].watch, Max(counts0[id].rewatch, counts0[id].watch - 1))
  {
    counts := counts0;
    for k := 0 to |order|
      invariant forall id :: id in counts <==> id in counts0
      invariant forall id :: id in counts ==>
        counts[id] == if id in order[..k]
                      then Counts(counts0[id].watch, Max(counts0[id].rewatch, counts0[id].watch - 1))
                      else counts0[id]
    {
      var id := order[k];
      assert order[..k + 1] == order[..k] + [id];
      assert id !in order[..k];
      var entry := counts[id];
      counts := counts[id := Counts(entry.watch, Max(entry.rewatch, entry.watch - 1))];
    }
    assert order[..|order|] == order;
  }

  /** `movie_counts.map { ... }.compact`: one row per entry whose movie still exists. */
  method BuildRows(logs: seq<WatchLog>, legacy: seq<LegacyLog>, movies: map<MovieId, Movie>,
                   counts: map<MovieId, Counts>, order: seq<MovieId>)
    returns (rows: seq<WatchedRow>)
    requires NoDuplicates(order)
    requires forall id :: id in counts <==> id in order
    requires forall id :: id in counts && id in movies ==>
      counts[id] == Counts(WatchCount(logs, id), RewatchFor(logs, legacy, id))
    ensures DistinctBy(rows, RowMovie)
    ensures forall i :: 0 <= i < |rows| ==>
      rows[i].movieId in counts && rows[i].movieId in movies && rows[i] == RowFor(logs, legacy, movies, rows[i].movieId)
    ensures forall id :: id in counts && id in movies ==> id in RowIds(rows)
  {
    rows := [];
    for k := 0 to |order|
      invariant forall i :: 0 <= i < |rows| ==>
        rows[i].movieId in order[..k] && rows[i].movieId in movies && rows[i] == RowFor(logs, legacy, movies, rows[i].movieId)
      invariant DistinctBy(rows, RowMovie)
      invariant forall id :: id in order[..k] && id in movies ==> id in RowIds(rows)
    {
      var id := order[k];
      assert order[..k + 1] == order[..k] + [id];
      assert id !in order[..k];
      if id in movies {
        var entry := counts[id];
        var row := WatchedRow(id, movies[id], entry.watch, entry.rewatch);
        AppendRow(rows, row, order[..k]);
        rows := rows + [row];
      }
    }
    assert order[..|order|] == order;
  }

  /** A row for a movie not listed yet keeps the rows distinct and adds its movie to their ids. */
  lemma AppendRow(rows: seq<WatchedRow>, row: WatchedRow, seen: seq<MovieId>)
    requires DistinctBy(rows, RowMovie)
    requires forall i :: 0 <= i < |rows| ==> rows[i].movieId in seen
    requires row.movieId !in seen
    ensures DistinctBy(rows + [row], RowMovie)
    ensures RowIds(rows + [row]) == RowIds(rows) + {row.movieId}
  {
    var rows' := rows + [row];
    assert forall i :: 0 <= i < |rows| ==> rows'[i] == rows[i];
    assert rows'[|rows|] == row;
  }

  /** `sort_by { ... }.first(limit)` over the built rows. */
  method RankAndTake(all: seq<WatchedRow>, limit: nat) returns (rows: seq<WatchedRow>)
    requires DistinctBy(all, RowMovie)
    ensures |rows| <= limit
    ensures SortedBy(rows, RankLe)
    ensures DistinctBy(rows, RowMovie)
    ensures forall i :: 0 <= i < |rows| ==> rows[i] in all
    ensures forall x :: x in all && x !in rows ==> |rows| == limit && forall i :: 0 <= i < |rows| ==> RankLe(rows[i], x)
  {
    RankLeIsTotalPreorder();
    var sorted := SortBy(all, RankLe);
    PermutationKeepsDistinct(all, sorted, RowMovie);
    rows := Take(sorted, limit);
    TakeKeepsDistinct(sorted, limit, RowMovie);
    forall i | 0 <= i < |rows|
      ensures rows[i] in all
    {
      assert rows[i] in multiset(sorted);
    }
    forall x | x in all && x !in rows
      ensures |rows| == limit && forall i :: 0 <= i < |rows| ==> RankLe(rows[i], x)
    {
      assert x in multiset(sorted);
      TopOfSorted(sorted, limit, RankLe, x);
      forall i | 0 <= i < |rows|
        ensures RankLe(rows[i], x)
      {
        assert rows[i] in rows;
      }
    }
  }

  /**
   * `most_watched_movies(limit:)`. At most `limit` rows (none for a negative
   * limit, where `first` raises and the rescue returns `[]`), one per ranked
   * movie with its watch count and reconciled rewatch count, in rank order,
   * and no ranked movie left out that ranks before a row kept.
   */
  method MostWatchedMovies(logs: seq<WatchLog>, legacy: seq<LegacyLog>, movies: map<MovieId, Movie>, limit: int)
    returns (rows: seq<WatchedRow>)
    ensures limit < 0 ==> rows == []
    ensures |rows| <= (if limit < 0 then 0 else limit)
    ensures SortedBy(rows, RankLe)
    ensures DistinctBy(rows, RowMovie)
    ensures forall i :: 0 <= i < |rows| ==>
      IsRanked(logs, legacy, movies, rows[i].movieId) && rows[i] == RowFor(logs, legacy, movies, rows[i].movieId)
    ensures limit >= 0 ==> forall id :: IsRanked(logs, legacy, movies, id) && id !in RowIds(rows) ==>
      |rows| == limit && forall i :: 0 <= i < |rows| ==> RankLe(rows[i], RowFor(logs, legacy, movies, id))
  {
    var counts1, order1 := CountViewings(logs, movies);
    var counts2, order := FoldLegacyFlags(counts1, order1, legacy);
    var counts := ApplyRepeatRule(counts2, order);
    var all := BuildRows(logs, legacy, movies, counts, order);
    if limit < 0 {
      return [];
    }
    rows := RankAndTake(all, limit);
    forall id | IsRanked(logs, legacy, movies, id) && id !in RowIds(rows)
      ensures |rows| == limit && forall i :: 0 <= i < |rows| ==> RankLe(rows[i], RowFor(logs, legacy, movies, id))
    {
      assert id in RowIds(all);
      var k :| 0 <= k < |all| && all[k].movieId == id;
      assert all[k] !in rows;
    }
  }
}
