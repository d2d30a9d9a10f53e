/**
 * Reconciling the two activity sources into per-movie watch counts and
 * rewatch counts: watch logs are the primary record of repetition, legacy
 * rewatch flags are folded in without counting the same rewatch twice.
 */
module Reconcile {
  import opened Records

  predicate NoDuplicates<T(==)>(s: seq<T>) {
    forall i, j :: 0 <= i < j < |s| ==> s[i] != s[j]
  }

  /** The number of watch logs of a movie (`group(:movie_id).count`). */
  function WatchCount(logs: seq<WatchLog>, id: MovieId): nat {
    if logs == [] then 0
    else WatchCount(logs[..|logs| - 1], id) + (if logs[|logs| - 1].movieId == id then 1 else 0)
  }

  /** `logs.map(&:movie_id).uniq`: each watched movie once, in first-seen order. */
  function MovieIds(logs: seq<WatchLog>): (ids: seq<MovieId>)
    ensures NoDuplicates(ids)
    ensures forall id :: id in ids <==> WatchCount(logs, id) > 0
  {
    if logs == [] then []
    else
      var prev := MovieIds(logs[..|logs| - 1]);
      var id := logs[|logs| - 1].movieId;
      if id in prev then prev else prev + [id]
  }

  /** The movies watched more than once: the keys of `group(:movie_id).having("COUNT(*) > 1")`. */
  function Repeated(logs: seq<WatchLog>, ids: seq<MovieId>): (r: seq<MovieId>)
    ensures forall id :: id in r <==> id in ids && WatchCount(logs, id) > 1
  {
    if ids == [] then []
    else
      var rest := Repeated(logs, ids[..|ids| - 1]);
      var id := ids[|ids| - 1];
      if WatchCount(logs, id) > 1 then rest + [id] else rest
  }

  function RepeatedMovies(logs: seq<WatchLog>): (r: seq<MovieId>)
    ensures forall id :: id in r <==> WatchCount(logs, id) > 1
  {
    Repeated(logs, MovieIds(logs))
  }

  /** Sum of `count - 1` over the given movies. */
  function ExtraViewings(logs: seq<WatchLog>, ids: seq<MovieId>): int {
    if ids == [] then 0
    else ExtraViewings(logs, ids[..|ids| - 1]) + (WatchCount(logs, ids[|ids| - 1]) - 1)
  }

  /** `rewatch_hash.values.sum { |count| count - 1 }` */
  function WatchRewatches(logs: seq<WatchLog>): int {
    ExtraViewings(logs, RepeatedMovies(logs))
  }

  /** Legacy logs flagged as rewatches whose movie is not in `excluded`. */
  function LegacyRewatches(legacy: seq<LegacyLog>, excluded: seq<MovieId>): (n: nat)
    ensures n <= |legacy|
  {
    if legacy == [] then 0
    else
      var l := legacy[|legacy| - 1];
      LegacyRewatches(legacy[..|legacy| - 1], excluded) + (if l.rewatch && l.movieId !in excluded then 1 else 0)
  }

  /**
   * The overview's `total_rewatches`: extra viewings from repeated watch logs,
   * plus legacy rewatch flags on movies that have no repeated watch logs.
   */
  function TotalRewatches(logs: seq<WatchLog>, legacy: seq<LegacyLog>): (n: int)
    ensures n == |logs| - |MovieIds(logs)| + LegacyRewatches(legacy, RepeatedMovies(logs))
    ensures 0 <= n <= |logs| + |legacy|
  {
    WatchRewatchesIsRepeatViewings(logs);
    WatchRewatches(logs) + LegacyRewatches(legacy, RepeatedMovies(logs))
  }

  /** The legacy logs of a movie flagged as rewatches (`where(rewatch: true).group(:movie_id).count`). */
  function FlaggedCount(legacy: seq<LegacyLog>, id: MovieId): nat {
    if legacy == [] then 0
    else
      var l := legacy[|legacy| - 1];
      FlaggedCount(legacy[..|legacy| - 1], id) + (if l.rewatch && l.movieId == id then 1 else 0)
  }

  /** The movies with at least one rewatch-flagged legacy log, each once. */
  function FlaggedMovies(legacy: seq<LegacyLog>): (ids: seq<MovieId>)
    ensures NoDuplicates(ids)
    ensures forall id :: id in ids <==> FlaggedCount(legacy, id) > 0
  {
    if legacy == [] then []
    else
      var prev := FlaggedMovies(legacy[..|legacy| - 1]);
      var l := legacy[|legacy| - 1];
      if !l.rewatch || l.movieId in prev then prev else prev + [l.movieId]
  }

  /**
   * A movie's rewatch count in the "most watched" ranking: the stronger of
   * the legacy flags and the repeated watch logs, never their sum.
   */
  function RewatchFor(logs: seq<WatchLog>, legacy: seq<LegacyLog>, id: MovieId): (r: nat)
    ensures r >= FlaggedCount(legacy, id) && r >= WatchCount(logs, id) - 1
    ensures r == FlaggedCount(legacy, id) || r == WatchCount(logs, id) - 1
  {
    var flagged := FlaggedCount(legacy, id);
    var extra := WatchCount(logs, id) - 1;
    if flagged >= extra then flagged else extra
  }

  // ---------------------------------------------------------------- lemmas

  lemma {:induction false} ExtraViewingsOfRepeated(logs: seq<WatchLog>, ids: seq<MovieId>)
    requires forall id :: id in ids ==> WatchCount(logs, id) > 0
    ensures ExtraViewings(logs, Repeated(logs, ids)) == ExtraViewings(logs, ids)
  {
    if ids != [] {
      var init := ids[..|ids| - 1];
      assert forall id :: id in init ==> id in ids;
      ExtraViewingsOfRepeated(logs, init);
      var id := ids[|ids| - 1];
      var rest := Repeated(logs, init);
      if WatchCount(logs, id) > 1 {
        assert (rest + [id])[..|rest + [id]| - 1] == rest;
      }
    }
  }

  function SumCounts(logs: seq<WatchLog>, ids: seq<MovieId>): int {
    if ids == [] then 0 else SumCounts(logs, ids[..|ids| - 1]) + WatchCount(logs, ids[|ids| - 1])
  }

  lemma {:induction false} ExtraViewingsIsSumMinusLength(logs: seq<WatchLog>, ids: seq<MovieId>)
    ensures ExtraViewings(logs, ids) == SumCounts(logs, ids) - |ids|
  {
    if ids != [] {
      ExtraViewingsIsSumMinusLength(logs, ids[..|ids| - 1]);
    }
  }

  /** One more log adds one to the count of its own movie and nothing to the others. */
  lemma {:induction false} SumCountsSnoc(logs: seq<WatchLog>, l: WatchLog, ids: seq<MovieId>)
    requires NoDuplicates(ids)
    ensures SumCounts(logs + [l], ids) == SumCounts(logs, ids) + (if l.movieId in ids then 1 else 0)
  {
    var logs' := logs + [l];
    assert logs'[..|logs'| - 1] == logs;
    if ids != [] {
      var init := ids[..|ids| - 1];
      SumCountsSnoc(logs, l, init);
      assert l.movieId in ids <==> l.movieId in init || l.movieId == ids[|ids| - 1];
      assert ids[|ids| - 1] !in init;
    }
  }

  /** Every log belongs to exactly one watched movie. */
  lemma {:induction false} SumCountsOfMovieIds(logs: seq<WatchLog>)
    ensures SumCounts(logs, MovieIds(logs)) == |logs|
  {
    if logs != [] {
      var init := logs[..|logs| - 1];
      var l := logs[|logs| - 1];
      assert logs == init + [l];
      var prev := MovieIds(init);
      SumCountsOfMovieIds(init);
      SumCountsSnoc(init, l, prev);
      if l.movieId !in prev {
        var ids := prev + [l.movieId];
        assert ids[..|ids| - 1] == prev;
        assert WatchCount(init, l.movieId) == 0;
      }
    }
  }

  /**
   * The watch-log part of `total_rewatches` is the number of viewings beyond
   * the first of each movie: all watch logs minus the distinct movies.
   */
  lemma WatchRewatchesIsRepeatViewings(logs: seq<WatchLog>)
    ensures WatchRewatches(logs) == |logs| - |MovieIds(logs)|
    ensures WatchRewatches(logs) >= 0
  {
    ExtraViewingsOfRepeated(logs, MovieIds(logs));
    ExtraViewingsIsSumMinusLength(logs, MovieIds(logs));
    SumCountsOfMovieIds(logs);
  }

  /**
   * Non-double-counting: a legacy rewatch flag on a movie that already has
   * repeated watch logs adds nothing to `total_rewatches`; on any other movie
   * it adds exactly one.
   */
  lemma LegacyFlagCountsOnce(logs: seq<WatchLog>, legacy: seq<LegacyLog>, l: LegacyLog)
    requires l.rewatch
    ensures WatchCount(logs, l.movieId) > 1 ==> TotalRewatches(logs, legacy + [l]) == TotalRewatches(logs, legacy)
    ensures WatchCount(logs, l.movieId) <= 1 ==> TotalRewatches(logs, legacy + [l]) == TotalRewatches(logs, legacy) + 1
  {
    var legacy' := legacy + [l];
    assert legacy'[..|legacy'| - 1] == legacy;
  }

  /** Legacy logs without the rewatch flag never change `total_rewatches`. */
  lemma UnflaggedLegacyIgnored(logs: seq<WatchLog>, legacy: seq<LegacyLog>, l: LegacyLog)
    requires !l.rewatch
    ensures TotalRewatches(logs, legacy + [l]) == TotalRewatches(logs, legacy)
  {
    var legacy' := legacy + [l];
    assert legacy'[..|legacy'| - 1] == legacy;
  }
}
