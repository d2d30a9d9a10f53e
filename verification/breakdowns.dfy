/**
 * The overview's genre and decade breakdowns and the top genres, directors
 * and actors: counters (`Hash.new(0)` with `counts[name] += 1`) sorted by
 * descending count, the top lists cut to ten.
 */
module Breakdowns {
  import opened Wrappers
  import opened Records
  import opened Reconcile
  import opened Sorting
  import opened IsoFormat

  datatype NameCount = NameCount(name: string, count: nat)

  function NameOf(r: NameCount): string {
    r.name
  }

  /** "sorts no later than" for `sort_by { |_name, count| -count }` */
  function ByCountDesc(a: NameCount, b: NameCount): bool {
    a.count >= b.count
  }

  lemma ByCountDescIsTotalPreorder()
    ensures TotalPreorder(ByCountDesc)
  {
  }

  const TopLimit := 10

  function Occurrences(items: seq<string>, x: string): nat {
    if items == [] then 0
    else Occurrences(items[..|items| - 1], x) + (if items[|items| - 1] == x then 1 else 0)
  }

  lemma {:induction false} OccurrencesPositive(items: seq<string>, x: string)
    ensures Occurrences(items, x) > 0 <==> x in items
  {
    if items != [] {
      var init := items[..|items| - 1];
      OccurrencesPositive(init, x);
      assert items == init + [items[|items| - 1]];
    }
  }

  /** Each counted name once, with how often it occurs, and nothing else. */
  ghost predicate IsTally(rows: seq<NameCount>, items: seq<string>) {
    && DistinctBy(rows, NameOf)
    && (forall i :: 0 <= i < |rows| ==> rows[i].count == Occurrences(items, rows[i].name) > 0)
    && (forall x :: x in items ==> exists i :: 0 <= i < |rows| && rows[i].name == x)
  }

  /** A breakdown: a tally ordered by non-increasing count. */
  ghost predicate IsBreakdown(rows: seq<NameCount>, items: seq<string>) {
    IsTally(rows, items) && SortedBy(rows, ByCountDesc)
  }

  /**
   * A top list: at most ten rows, each a correct count, ordered by
   * non-increasing count, and no name left out that occurs more often than a
   * name kept.
   */
  ghost predicate IsTopList(rows: seq<NameCount>, items: seq<string>) {
    && |rows| <= TopLimit
    && DistinctBy(rows, NameOf)
    && SortedBy(rows, ByCountDesc)
    && (forall i :: 0 <= i < |rows| ==> rows[i].count == Occurrences(items, rows[i].name) > 0)
    && (forall x :: x in items && (forall i :: 0 <= i < |rows| ==> rows[i].name != x) ==>
          |rows| == TopLimit && forall i :: 0 <= i < |rows| ==> Occurrences(items, x) <= rows[i].count)
  }

  /** The counter loop: one row per distinct item, in first-seen order. */
  method CountEach(items: seq<string>) returns (rows: seq<NameCount>)
    ensures IsTally(rows, items)
  {
    var counts: map<string, nat> := map[];
    var order: seq<string> := [];
    for i := 0 to |items|
      invariant NoDuplicates(order)
      invariant forall x :: x in counts <==> x in order
      invariant forall x :: x in order <==> x in items[..i]
      invariant forall x :: x in counts ==> counts[x] == Occurrences(items[..i], x) > 0
    {
      var x := items[i];
      assert items[..i + 1][..i] == items[..i];
      assert items[..i + 1] == items[..i] + [x];
      forall y
        ensures Occurrences(items[..i + 1], y) == Occurrences(items[..i], y) + (if x == y then 1 else 0)
      {
      }
      OccurrencesPositive(items[..i], x);
      if x in counts {
        counts := counts[x := counts[x] + 1];
      } else {
        counts := counts[x := 1];
        order := order + [x];
      }
    }
    assert items[..|items|] == items;
    rows := [];
    for j := 0 to |order|
      invariant |rows| == j
      invariant forall k :: 0 <= k < j ==> rows[k] == NameCount(order[k], counts[order[k]])
    {
      rows := rows + [NameCount(order[j], counts[order[j]])];
    }
    forall x | x in items
      ensures exists i :: 0 <= i < |rows| && rows[i].name == x
    {
      var k :| 0 <= k < |order| && order[k] == x;
      assert rows[k].name == x;
    }
  }

  /** `counts.sort_by { |_name, count| -count }.to_h` */
  method Breakdown(items: seq<string>) returns (rows: seq<NameCount>)
    ensures IsBreakdown(rows, items)
  {
    var tally := CountEach(items);
    ByCountDescIsTotalPreorder();
    rows := SortBy(tally, ByCountDesc);
    PermutationKeepsDistinct(tally, rows, NameOf);
    forall i | 0 <= i < |rows|
      ensures rows[i].count == Occurrences(items, rows[i].name) > 0
    {
      assert rows[i] in multiset(tally);
    }
    forall x | x in items
      ensures exists i :: 0 <= i < |rows| && rows[i].name == x
    {
      var k :| 0 <= k < |tally| && tally[k].name == x;
      assert tally[k] in multiset(rows);
      var i :| 0 <= i < |rows| && rows[i] == tally[k];
    }
  }

  /** `counts.sort_by { |_name, count| -count }.first(10)` */
  method TopTen(items: seq<string>) returns (rows: seq<NameCount>)
    ensures IsTopList(rows, items)
  {
    var sorted := Breakdown(items);
    rows := Take(sorted, TopLimit);
    TakeKeepsDistinct(sorted, TopLimit, NameOf);
    forall x | x in items && (forall i :: 0 <= i < |rows| ==> rows[i].name != x)
      ensures |rows| == TopLimit && forall i :: 0 <= i < |rows| ==> Occurrences(items, x) <= rows[i].count
    {
      var k :| 0 <= k < |sorted| && sorted[k].name == x;
      assert sorted[k] !in rows;
      TopOfSorted(sorted, TopLimit, ByCountDesc, sorted[k]);
      forall i | 0 <= i < |rows|
        ensures Occurrences(items, x) <= rows[i].count
      {
        assert rows[i] in rows;
      }
    }
  }

  // ------------------------------------------------------------ what is counted

  /** True when some watch log points at a movie that no longer exists (`log.movie` is nil). */
  predicate SomeMovieMissing(logs: seq<WatchLog>, movies: map<MovieId, Movie>) {
    exists i :: 0 <= i < |logs| && logs[i].movieId !in movies
  }

  /** Every genre name of every watch log's movie: a movie watched twice counts twice. */
  function GenreItems(logs: seq<WatchLog>, movies: map<MovieId, Movie>): seq<string> {
    if logs == [] then []
    else
      var l := logs[|logs| - 1];
      GenreItems(logs[..|logs| - 1], movies) + (if l.movieId in movies then movies[l.movieId].genres else [])
  }

  /** `(year / 10) * 10`: Ruby's integer division floors, as Dafny's does for a positive divisor. */
  function Decade(year: int): (d: int)
    ensures d <= year < d + 10 && d % 10 == 0
  {
    (year / 10) * 10
  }

  /** One decade label per watch log whose movie has a release year; the others are skipped. */
  function DecadeItems(logs: seq<WatchLog>, movies: map<MovieId, Movie>): seq<string> {
    if logs == [] then []
    else
      var l := logs[|logs| - 1];
      var rest := DecadeItems(logs[..|logs| - 1], movies);
      if l.movieId in movies && movies[l.movieId].releaseYear.Some?
      then rest + [DecadeLabel(Decade(movies[l.movieId].releaseYear.value))]
      else rest
  }

  /** The credited people with a role across the given movies, once per movie and credit. */
  function CreditItems(ids: seq<MovieId>, movies: map<MovieId, Movie>, role: Role): seq<string> {
    if ids == [] then []
    else
      var id := ids[|ids| - 1];
      CreditItems(ids[..|ids| - 1], movies, role) + (if id in movies then NamesWithRole(movies[id].credits, role) else [])
  }

  function NamesWithRole(credits: seq<Credit>, role: Role): seq<string> {
    if credits == [] then []
    else
      var c := credits[|credits| - 1];
      NamesWithRole(credits[..|credits| - 1], role) + (if c.role == role then [c.personName] else [])
  }

  /** Directors (or actors) of the distinct watched movies: `logs.map(&:movie_id).uniq`, then their credits. */
  function PeopleItems(logs: seq<WatchLog>, movies: map<MovieId, Movie>, role: Role): seq<string> {
    CreditItems(MovieIds(logs), movies, role)
  }

  /**
   * Directors and actors count once per distinct watched movie: watching a
   * movie again changes no person's count.
   */
  lemma RewatchLeavesPeopleUnchanged(logs: seq<WatchLog>, movies: map<MovieId, Movie>, role: Role, l: WatchLog)
    requires WatchCount(logs, l.movieId) > 0
    ensures PeopleItems(logs + [l], movies, role) == PeopleItems(logs, movies, role)
  {
    var logs' := logs + [l];
    assert logs'[..|logs'| - 1] == logs;
  }

  /** Genres count once per watch log: watching a movie again counts each of its genres again. */
  lemma {:induction false} RewatchCountsGenresAgain(logs: seq<WatchLog>, movies: map<MovieId, Movie>, l: WatchLog, g: string)
    requires l.movieId in movies && g in movies[l.movieId].genres
    ensures Occurrences(GenreItems(logs + [l], movies), g) > Occurrences(GenreItems(logs, movies), g)
  {
    var logs' := logs + [l];
    assert logs'[..|logs'| - 1] == logs;
    OccurrencesAppend(GenreItems(logs, movies), movies[l.movieId].genres, g);
    OccurrencesPositive(movies[l.movieId].genres, g);
  }

  lemma {:induction false} OccurrencesAppend(a: seq<string>, b: seq<string>, x: string)
    ensures Occurrences(a + b, x) == Occurrences(a, x) + Occurrences(b, x)
  {
    if b != [] {
      var b0 := b[..|b| - 1];
      assert (a + b)[..|a + b| - 1] == a + b0;
      OccurrencesAppend(a, b0, x);
    } else {
      assert a + b == a;
    }
  }

  // ------------------------------------------------------------ the operations

  /** `calculate_genre_breakdown`; None when a log's movie is gone (`nil.genres` raises). */
  method GenreBreakdown(logs: seq<WatchLog>, movies: map<MovieId, Movie>) returns (r: Option<seq<NameCount>>)
    ensures r.None? <==> SomeMovieMissing(logs, movies)
    ensures r.Some? ==> IsBreakdown(r.value, GenreItems(logs, movies))
  {
    if SomeMovieMissing(logs, movies) {
      return None;
    }
    var rows := Breakdown(GenreItems(logs, movies));
    r := Some(rows);
  }

  /** `calculate_decade_breakdown`: movies without a release year are skipped, never an error. */
  method DecadeBreakdown(logs: seq<WatchLog>, movies: map<MovieId, Movie>) returns (rows: seq<NameCount>)
    ensures IsBreakdown(rows, DecadeItems(logs, movies))
  {
    rows := Breakdown(DecadeItems(logs, movies));
  }

  datatype TopContributors = TopContributors(genres: seq<NameCount>, directors: seq<NameCount>, actors: seq<NameCount>)

  /**
   * `calculate_top_contributors`. It has no rescue: a log whose movie is gone
   * makes the genre count raise, and the whole call fails (None).
   */
  method CalculateTopContributors(logs: seq<WatchLog>, movies: map<MovieId, Movie>) returns (r: Option<TopContributors>)
    ensures r.None? <==> SomeMovieMissing(logs, movies)
    ensures r.Some? ==> IsTopList(r.value.genres, GenreItems(logs, movies))
    ensures r.Some? ==> IsTopList(r.value.directors, PeopleItems(logs, movies, Director))
    ensures r.Some? ==> IsTopList(r.value.actors, PeopleItems(logs, movies, Cast))
  {
    if SomeMovieMissing(logs, movies) {
      return None;
    }
    var genres := TopTen(GenreItems(logs, movies));
    var directors := TopTen(PeopleItems(logs, movies, Director));
    var actors := TopTen(PeopleItems(logs, movies, Cast));
    r := Some(TopContributors(genres, directors, actors));
  }
}
