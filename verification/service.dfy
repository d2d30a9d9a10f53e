/**
 * The stateful part of the statistics service: resolving a movie's runtime,
 * backfilling a missing one from the external metadata provider through a
 * request-scoped cache, summing runtimes into the overview's total, and the
 * overview itself.
 */
module Service {
  import opened Wrappers
  import opened Calendar
  import opened Records
  import opened Reconcile
  import opened Breakdowns

  predicate HasPositiveRuntime(m: Movie) {
    m.runtime.Some? && m.runtime.value > 0
  }

  /**
   * What `resolved_runtime` returns for a movie, given what the provider
   * answers for each external id (`None` for a failed call or a missing
   * "runtime"; otherwise `runtime.to_i`): the stored runtime when positive;
   * otherwise 0 without an external id; otherwise the provider's runtime
   * when positive, else 0.
   */
  function ResolvedRuntimeOf(m: Movie, provider: TmdbId -> Option<int>): (minutes: nat)
    ensures HasPositiveRuntime(m) ==> minutes == m.runtime.value
    ensures !HasPositiveRuntime(m) && m.tmdbId.None? ==> minutes == 0
    ensures minutes > 0 && !HasPositiveRuntime(m) ==> m.tmdbId.Some? && provider(m.tmdbId.value) == Some(minutes)
    ensures minutes == 0 ==>
      (!HasPositiveRuntime(m) &&
       (m.tmdbId.None? || provider(m.tmdbId.value).None? || provider(m.tmdbId.value).value <= 0))
  {
    if HasPositiveRuntime(m) then m.runtime.value
    else if m.tmdbId.None? then 0
    else
      match provider(m.tmdbId.value)
      case Some(v) => if v > 0 then v else 0
      case None => 0
  }

  /** The runtime a watch log contributes: 0 when its movie is gone (`resolved_runtime(nil)`). */
  function RuntimeOfId(id: MovieId, movies: map<MovieId, Movie>, provider: TmdbId -> Option<int>): (minutes: nat)
    ensures minutes > 0 ==> id in movies
    ensures id in movies && HasPositiveRuntime(movies[id]) ==> minutes == movies[id].runtime.value
  {
    if id in movies then ResolvedRuntimeOf(movies[id], provider) else 0
  }

  /** `calculate_total_hours`: the resolved runtime of every watch log's movie, in minutes. */
  function SumResolved(logs: seq<WatchLog>, movies: map<MovieId, Movie>, provider: TmdbId -> Option<int>): (minutes: nat)
    ensures forall i :: 0 <= i < |logs| ==> RuntimeOfId(logs[i].movieId, movies, provider) <= minutes
    ensures minutes == 0 <==> forall i :: 0 <= i < |logs| ==> RuntimeOfId(logs[i].movieId, movies, provider) == 0
  {
    if logs == [] then 0
    else SumResolved(logs[..|logs| - 1], movies, provider) + RuntimeOfId(logs[|logs| - 1].movieId, movies, provider)
  }

  /** Each watched movie's runtime times the number of times it was watched. */
  function WeightedRuntime(logs: seq<WatchLog>, ids: seq<MovieId>, movies: map<MovieId, Movie>, provider: TmdbId -> Option<int>): int {
    if ids == [] then 0
    else
      var id := ids[|ids| - 1];
      WeightedRuntime(logs, ids[..|ids| - 1], movies, provider) + WatchCount(logs, id) * RuntimeOfId(id, movies, provider)
  }

  /** Two movie tables that resolve every movie to the same runtime. */
  ghost predicate SameResolution(a: map<MovieId, Movie>, b: map<MovieId, Movie>, provider: TmdbId -> Option<int>) {
    a.Keys == b.Keys && forall id :: id in a ==> ResolvedRuntimeOf(a[id], provider) == ResolvedRuntimeOf(b[id], provider)
  }

  /** Two movie tables that differ at most in the movies' runtimes (what the backfill writes). */
  ghost predicate OnlyRuntimesDiffer(a: map<MovieId, Movie>, b: map<MovieId, Movie>) {
    a.Keys == b.Keys && forall id :: id in a ==> a[id] == b[id].(runtime := a[id].runtime)
  }

  /** `calculate_overview`'s result. */
  datatype Overview = Overview(
    totalMovies: nat,
    totalHours: nat,
    totalReviews: nat,
    totalRewatches: int,
    genreBreakdown: seq<NameCount>,
    decadeBreakdown: seq<NameCount>)

  /** The overview the rescue returns: every number 0 and both breakdowns empty. */
  const ZeroOverview := Overview(0, 0, 0, 0, [], [])

  class StatsService {
    /** The movie rows, as the service reads and backfills them. */
    var movies: map<MovieId, Movie>
    /** `@runtime_cache`: external id to a runtime the provider returned during this request. */
    var runtimeCache: map<TmdbId, int>
    /** `@tmdb_service.movie_details(id)["runtime"].to_i`, or None when the call fails or has no runtime. */
    const provider: TmdbId -> Option<int>
    /** Every external id the provider was asked about, in order. */
    ghost var providerCalls: seq<TmdbId>
    /** Every movie written back (`movie.update`), in order. */
    ghost var movieWrites: seq<MovieId>

    /** The cache only holds positive runtimes, each what the provider answers for its id. */
    ghost predicate Valid()
      reads this
    {
      forall k :: k in runtimeCache ==> runtimeCache[k] > 0 && provider(k) == Some(runtimeCache[k])
    }

    constructor(movies0: map<MovieId, Movie>, provider0: TmdbId -> Option<int>)
      ensures Valid()
      ensures movies == movies0 && runtimeCache == map[] && provider == provider0
      ensures providerCalls == [] && movieWrites == []
    {
      movies := movies0;
      runtimeCache := map[];
      provider := provider0;
      providerCalls := [];
      movieWrites := [];
    }

    /**
     * `update_runtime_from_tmdb(movie)`. Without an external id nothing
     * happens. A cache hit writes the cached runtime to the movie only when
     * it differs, without a provider call. A miss asks the provider once; a
     * positive answer is cached and written to the movie, anything else
     * leaves the cache and the movie unchanged.
     */
    method UpdateRuntimeFromProvider(id: MovieId)
      requires Valid() && id in movies
      modifies this
      ensures Valid()
      ensures old(movies[id]).tmdbId.None? ==>
        movies == old(movies) && runtimeCache == old(runtimeCache) &&
        providerCalls == old(providerCalls) && movieWrites == old(movieWrites)
      ensures old(movies[id]).tmdbId.Some? && old(movies[id]).tmdbId.value in old(runtimeCache) ==>
        var k := old(movies[id]).tmdbId.value;
        var cached := old(runtimeCache)[k];
        runtimeCache == old(runtimeCache) && providerCalls == old(providerCalls) &&
        movies == old(movies)[id := old(movies[id]).(runtime := Some(cached))] &&
        movieWrites == old(movieWrites) + (if old(movies[id]).runtime != Some(cached) then [id] else [])
      ensures old(movies[id]).tmdbId.Some? && old(movies[id]).tmdbId.value !in old(runtimeCache) ==>
        var k := old(movies[id]).tmdbId.value;
        providerCalls == old(providerCalls) + [k] &&
        (if provider(k).Some? && provider(k).value > 0 then
           runtimeCache == old(runtimeCache)[k := provider(k).value] &&
           movies == old(movies)[id := old(movies[id]).(runtime := provider(k))] &&
           movieWrites == old(movieWrites) + [id]
         else
           runtimeCache == old(runtimeCache) && movies == old(movies) && movieWrites == old(movieWrites))
    {
      var m := movies[id];
      if m.tmdbId.None? {
        return;
      }
      var k := m.tmdbId.value;
      // The cache only holds positive runtimes (Valid), so a hit always passes
      // the positivity check and returns here.
      if k in runtimeCache {
        var cached := runtimeCache[k];
        if m.runtime != Some(cached) {
          movies := movies[id := m.(runtime := Some(cached))];
          movieWrites := movieWrites + [id];
        }
        return;
      }
      providerCalls := providerCalls + [k];
      var details := provider(k);
      if details.None? || details.value <= 0 {
        return;
      }
      runtimeCache := runtimeCache[k := details.value];
      movies := movies[id := m.(runtime := Some(details.value))];
      movieWrites := movieWrites + [id];
    }

    /**
     * `resolved_runtime(movie)`: the minutes `ResolvedRuntimeOf` gives for
     * the movie as it was before the call (0 when the movie is gone). A
     * positive stored runtime is returned with no provider call and no write.
     * A positive result is left stored on the movie, so asking again makes
     * no provider call. No movie's resolved runtime changes.
     */
    method ResolvedRuntime(id: MovieId) returns (minutes: nat)
      requires Valid()
      modifies this
      ensures Valid()
      ensures minutes == RuntimeOfId(id, old(movies), provider)
      ensures id !in old(movies) || HasPositiveRuntime(old(movies[id])) ==>
        movies == old(movies) && runtimeCache == old(runtimeCache) &&
        providerCalls == old(providerCalls) && movieWrites == old(movieWrites)
      ensures minutes > 0 ==> id in movies && movies[id].runtime == Some(minutes)
      ensures SameResolution(movies, old(movies), provider)
      ensures OnlyRuntimesDiffer(movies, old(movies))
      ensures old(runtimeCache).Keys <= runtimeCache.Keys
      ensures forall j :: j in old(movies) && j != id ==> movies[j] == old(movies)[j]
    {
      if id !in movies {
        return 0;
      }
      var m := movies[id];
      if HasPositiveRuntime(m) {
        return m.runtime.value;
      }
      UpdateRuntimeFromProvider(id);
      var m' := movies[id];
      minutes := if HasPositiveRuntime(m') then m'.runtime.value else 0;
      assert SameResolution(movies, old(movies), provider) by {
        forall j | j in movies
          ensures ResolvedRuntimeOf(movies[j], provider) == ResolvedRuntimeOf(old(movies)[j], provider)
        {
        }
      }
    }

    /**
     * `calculate_total_hours(logs)`: the sum of the resolved runtime of every
     * watch log, in minutes (despite the name), so a movie watched twice
     * counts twice. The backfill along the way changes no movie's resolved
     * runtime.
     */
    method TotalHours(logs: seq<WatchLog>) returns (minutes: nat)
      requires Valid()
      modifies this
      ensures Valid()
      ensures minutes == SumResolved(logs, old(movies), provider)
      ensures SameResolution(movies, old(movies), provider)
      ensures OnlyRuntimesDiffer(movies, old(movies))
    {
      minutes := 0;
      for i := 0 to |logs|
        invariant Valid()
        invariant SameResolution(movies, old(movies), provider)
        invariant OnlyRuntimesDiffer(movies, old(movies))
        invariant minutes == SumResolved(logs[..i], old(movies), provider)
      {
        assert logs[..i + 1][..i] == logs[..i];
        var r := ResolvedRuntime(logs[i].movieId);
        minutes := minutes + r;
      }
      assert logs[..|logs|] == logs;
    }

    /**
     * `calculate_overview`. The total is computed first, with its backfill;
     * when a watch log's movie is gone the genre count raises and the rescue
     * returns the zero overview. Otherwise: the distinct movies, the runtime
     * total, the user's reviews, the rewatch total and both breakdowns.
     */
    method CalculateOverview(logs: seq<WatchLog>, legacy: seq<LegacyLog>, reviews: seq<Review>) returns (r: Overview)
      requires Valid()
      modifies this
      ensures Valid()
      ensures SameResolution(movies, old(movies), provider)
      ensures OnlyRuntimesDiffer(movies, old(movies))
      ensures SomeMovieMissing(logs, old(movies)) ==> r == ZeroOverview
      ensures !SomeMovieMissing(logs, old(movies)) ==>
        r.totalMovies == |MovieIds(logs)| &&
        r.totalHours == SumResolved(logs, old(movies), provider) &&
        r.totalReviews == |reviews| &&
        r.totalRewatches == TotalRewatches(logs, legacy) &&
        IsBreakdown(r.genreBreakdown, GenreItems(logs, old(movies))) &&
        IsBreakdown(r.decadeBreakdown, DecadeItems(logs, old(movies)))
    {
      var hours := TotalHours(logs);
      var genres := GenreBreakdown(logs, movies);
      GenreItemsSameKeys(logs, movies, old(movies));
      DecadeItemsSameKeys(logs, movies, old(movies));
      if genres.None? {
        return ZeroOverview;
      }
      var decades := DecadeBreakdown(logs, movies);
      r := Overview(|MovieIds(logs)|, hours, |reviews|, TotalRewatches(logs, legacy), genres.value, decades);
    }
  }

  // ---------------------------------------------------------------- lemmas

  /**
   * The backfill only ever sets a runtime; genres and release years, and so
   * both breakdowns, read the same after it.
   */
  lemma {:induction false} GenreItemsSameKeys(logs: seq<WatchLog>, a: map<MovieId, Movie>, b: map<MovieId, Movie>)
    requires OnlyRuntimesDiffer(a, b)
    ensures GenreItems(logs, a) == GenreItems(logs, b)
    ensures SomeMovieMissing(logs, a) <==> SomeMovieMissing(logs, b)
  {
    if logs != [] {
      GenreItemsSameKeys(logs[..|logs| - 1], a, b);
    }
  }

  lemma {:induction false} DecadeItemsSameKeys(logs: seq<WatchLog>, a: map<MovieId, Movie>, b: map<MovieId, Movie>)
    requires OnlyRuntimesDiffer(a, b)
    ensures DecadeItems(logs, a) == DecadeItems(logs, b)
  {
    if logs != [] {
      DecadeItemsSameKeys(logs[..|logs| - 1], a, b);
    }
  }

  /**
   * The runtime total counts every viewing: it equals, over the distinct
   * watched movies, the movie's resolved runtime times its number of watch
   * logs.
   */
  lemma {:induction false} TotalIsRuntimeTimesViewings(logs: seq<WatchLog>, movies: map<MovieId, Movie>, provider: TmdbId -> Option<int>)
    ensures SumResolved(logs, movies, provider) == WeightedRuntime(logs, MovieIds(logs), movies, provider)
  {
    if logs != [] {
      var init := logs[..|logs| - 1];
      var l := logs[|logs| - 1];
      assert logs == init + [l];
      var prev := MovieIds(init);
      var r := RuntimeOfId(l.movieId, movies, provider);
      TotalIsRuntimeTimesViewings(init, movies, provider);
      WeightedRuntimeSnoc(init, l, prev, movies, provider);
      assert SumResolved(logs, movies, provider) == SumResolved(init, movies, provider) + r;
      if l.movieId !in prev {
        var ids := prev + [l.movieId];
        assert ids[..|ids| - 1] == prev;
        assert WatchCount(init, l.movieId) == 0;
        assert WatchCount(logs, l.movieId) == 1;
        assert WeightedRuntime(logs, ids, movies, provider) == WeightedRuntime(logs, prev, movies, provider) + 1 * r;
      }
    }
  }

  lemma {:induction false} WeightedRuntimeSnoc(logs: seq<WatchLog>, l: WatchLog, ids: seq<MovieId>, movies: map<MovieId, Movie>, provider: TmdbId -> Option<int>)
    requires NoDuplicates(ids)
    ensures WeightedRuntime(logs + [l], ids, movies, provider) ==
      WeightedRuntime(logs, ids, movies, provider) + (if l.movieId in ids then RuntimeOfId(l.movieId, movies, provider) else 0)
  {
    var logs' := logs + [l];
    assert logs'[..|logs'| - 1] == logs;
    if ids != [] {
      var init := ids[..|ids| - 1];
      WeightedRuntimeSnoc(logs, l, init, movies, provider);
      assert l.movieId in ids <==> l.movieId in init || l.movieId == ids[|ids| - 1];
      assert ids[|ids| - 1] !in init;
    }
  }

  /**
   * Two movies with stored runtimes 148 and 136, each watched once, one
   * review, and a rewatch-flagged legacy log on the second movie's viewing
   * day: two movies, 284 minutes, one rewatch.
   */
  lemma OverviewScenario(provider: TmdbId -> Option<int>)
    ensures var a := Movie(1, "Inception", Some(148), None, None, ["Action"], []);
            var b := Movie(2, "The Matrix", Some(136), None, None, ["Drama"], []);
            var movies := map[1 := a, 2 := b];
            var logs := [WatchLog(1, 1, Some(7), 1, Date(2024, 1, 1)), WatchLog(2, 1, Some(7), 2, Date(2024, 1, 2))];
            var legacy := [LegacyLog(7, 1, Date(2024, 1, 1), 8, false), LegacyLog(7, 2, Date(2024, 1, 2), 5, true)];
            |MovieIds(logs)| == 2 && SumResolved(logs, movies, provider) == 284 &&
            TotalRewatches(logs, legacy) == 1 && !SomeMovieMissing(logs, movies)
  {
    var a := Movie(1, "Inception", Some(148), None, None, ["Action"], []);
    var b := Movie(2, "The Matrix", Some(136), None, None, ["Drama"], []);
    var movies := map[1 := a, 2 := b];
    var logs := [WatchLog(1, 1, Some(7), 1, Date(2024, 1, 1)), WatchLog(2, 1, Some(7), 2, Date(2024, 1, 2))];
    var legacy := [LegacyLog(7, 1, Date(2024, 1, 1), 8, false), LegacyLog(7, 2, Date(2024, 1, 2), 5, true)];
    assert logs[..1] == [logs[0]];
    assert [logs[0]][..0] == [];
    assert legacy[..1] == [legacy[0]];
    assert [legacy[0]][..0] == [];
    assert RuntimeOfId(1, movies, provider) == 148;
    assert RuntimeOfId(2, movies, provider) == 136;
    assert SumResolved(logs[..1], movies, provider) == 148;
    WatchRewatchesIsRepeatViewings(logs);
  }
}
