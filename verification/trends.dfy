/**
 * `calculate_trend_data(year:)`: a month-by-month activity series with
 * explicit zero months, and a month-by-month rating series whose ratings
 * come from the legacy logs at the same movie and date.
 */
module Trends {
  import opened Wrappers
  import opened Calendar
  import opened Records

  predicate AnyInWindow(logs: seq<WatchLog>, year: int, today: Day) {
    exists i :: 0 <= i < |logs| && InYearWindow(logs[i].watchedOn, year, today)
  }

  /** Watch logs in the window that fall in the given month. */
  function MonthlyCount(logs: seq<WatchLog>, year: int, today: Day, ym: YearMonth): (n: nat)
    ensures n <= |logs|
    ensures n > 0 <==> exists i :: 0 <= i < |logs| && InYearWindow(logs[i].watchedOn, year, today) && MonthOf(logs[i].watchedOn) == ym
  {
    if logs == [] then 0
    else
      var d := logs[|logs| - 1].watchedOn;
      MonthlyCount(logs[..|logs| - 1], year, today, ym) + (if InYearWindow(d, year, today) && MonthOf(d) == ym then 1 else 0)
  }

  /** How many months the activity series covers: all twelve for a past year, up to this month for this year, none for a later year. */
  function MonthsShown(year: int, today: Day): (n: nat)
    ensures n <= 12
  {
    if year < today.year then 12
    else if year == today.year then today.month
    else 0
  }

  datatype MonthCount = MonthCount(month: YearMonth, count: nat)

  /**
   * `calculate_activity_trend`: one entry per month from January through
   * `[December 31, end of this month].min`, in order, each with the number of
   * watch logs of that month in the window and 0 for a month without any.
   */
  method ActivityTrend(logs: seq<WatchLog>, year: int, today: Day) returns (series: seq<MonthCount>)
    ensures |series| == MonthsShown(year, today)
    ensures forall k :: 0 <= k < |series| ==>
      series[k] == MonthCount(YearMonth(year, k + 1), MonthlyCount(logs, year, today, YearMonth(year, k + 1)))
  {
    var monthly: map<YearMonth, nat> := map[];
    for i := 0 to |logs|
      invariant forall ym :: ym in monthly ==> monthly[ym] == MonthlyCount(logs[..i], year, today, ym)
      invariant forall ym :: ym !in monthly ==> MonthlyCount(logs[..i], year, today, ym) == 0
    {
      var d := logs[i].watchedOn;
      assert logs[..i + 1][..i] == logs[..i];
      if InYearWindow(d, year, today) {
        var key := MonthOf(d);
        monthly := monthly[key := (if key in monthly then monthly[key] else 0) + 1];
      }
    }
    assert logs[..|logs|] == logs;

    var endWindow := MinDate(LastOfYear(year), EndOfMonth(today));
    var current := FirstOfYear(year);
    series := [];
    while Le(current, endWindow)
      invariant |series| <= MonthsShown(year, today)
      invariant current == if |series| < 12 then Date(year, |series| + 1, 1) else Date(year + 1, 1, 1)
      invariant forall k :: 0 <= k < |series| ==>
        series[k] == MonthCount(YearMonth(year, k + 1), MonthlyCount(logs, year, today, YearMonth(year, k + 1)))
      decreases 12 - |series|
    {
      var key := MonthOf(current);
      series := series + [MonthCount(key, if key in monthly then monthly[key] else 0)];
      current := NextMonth(current);
    }
  }

  /**
   * `ratings_index[[movie_id, watched_on]]`: the rating of the legacy log at
   * that movie and date; when several rows share the key the index keeps the
   * last one it reads.
   */
  function RatingAt(legacy: seq<LegacyLog>, movieId: MovieId, on: Date): (r: Option<int>)
    ensures r.None? <==> forall i :: 0 <= i < |legacy| ==> legacy[i].movieId != movieId || legacy[i].watchedOn != on
    ensures r.Some? ==> exists i :: 0 <= i < |legacy| && legacy[i].movieId == movieId && legacy[i].watchedOn == on && legacy[i].rating == r.value
  {
    if legacy == [] then None
    else
      var l := legacy[|legacy| - 1];
      if l.movieId == movieId && l.watchedOn == on then Some(l.rating)
      else
        var r := RatingAt(legacy[..|legacy| - 1], movieId, on);
        assert r.Some? ==> exists i :: 0 <= i < |legacy| - 1 && legacy[i].movieId == movieId && legacy[i].watchedOn == on && legacy[i].rating == r.value;
        r
  }

  /** A month of the rating series: the sum and number of ratings found; the average is their quotient. */
  datatype RatingPoint = RatingPoint(month: YearMonth, total: int, count: nat)

  /** Watch logs in the window and month that have a legacy rating. */
  function RatedCount(logs: seq<WatchLog>, legacy: seq<LegacyLog>, year: int, today: Day, ym: YearMonth): nat {
    if logs == [] then 0
    else
      var l := logs[|logs| - 1];
      RatedCount(logs[..|logs| - 1], legacy, year, today, ym) +
        (if InYearWindow(l.watchedOn, year, today) && MonthOf(l.watchedOn) == ym && RatingAt(legacy, l.movieId, l.watchedOn).Some? then 1 else 0)
  }

  /** The sum of those ratings. */
  function RatedTotal(logs: seq<WatchLog>, legacy: seq<LegacyLog>, year: int, today: Day, ym: YearMonth): int {
    if logs == [] then 0
    else
      var l := logs[|logs| - 1];
      var r := RatingAt(legacy, l.movieId, l.watchedOn);
      RatedTotal(logs[..|logs| - 1], legacy, year, today, ym) +
        (if InYearWindow(l.watchedOn, year, today) && MonthOf(l.watchedOn) == ym && r.Some? then r.value else 0)
  }

  /** `average_rating`, before rounding to two places: 0 for a month without ratings. */
  function AverageRating(p: RatingPoint): (a: real)
    ensures p.count == 0 ==> a == 0.0
    ensures p.count > 0 ==> a * (p.count as real) == p.total as real
  {
    if p.count > 0 then p.total as real / p.count as real else 0.0
  }

  /**
   * `calculate_rating_trend_from_watch_logs`: empty when no watch log is in
   * the window; otherwise all twelve months of the year in order (not cut at
   * this month), each with the ratings of its watch logs that have one.
   */
  method RatingTrend(logs: seq<WatchLog>, legacy: seq<LegacyLog>, year: int, today: Day) returns (series: seq<RatingPoint>)
    ensures !AnyInWindow(logs, year, today) ==> series == []
    ensures AnyInWindow(logs, year, today) ==> |series| == 12
    ensures forall k :: 0 <= k < |series| ==>
      series[k] == RatingPoint(YearMonth(year, k + 1),
                               RatedTotal(logs, legacy, year, today, YearMonth(year, k + 1)),
                               RatedCount(logs, legacy, year, today, YearMonth(year, k + 1)))
  {
    if !AnyInWindow(logs, year, today) {
      return [];
    }
    var monthly := CollectRatings(logs, legacy, year, today);
    // Fill every month of the year with a zero entry.
    for m := 1 to 13
      invariant forall ym :: ym in monthly ==> ym.year == year && 1 <= ym.month <= 12
      invariant forall k :: 1 <= k < m ==> YearMonth(year, k) in monthly
      invariant forall ym :: ym in monthly ==>
        monthly[ym] == (RatedTotal(logs, legacy, year, today, ym), RatedCount(logs, legacy, year, today, ym))
      invariant forall ym :: ym !in monthly ==>
        RatedTotal(logs, legacy, year, today, ym) == 0 && RatedCount(logs, legacy, year, today, ym) == 0
    {
      var key := YearMonth(year, m);
      if key !in monthly {
        monthly := monthly[key := (0, 0)];
      }
    }
    // The keys are now exactly the twelve months of the year, so sorting by
    // their "YYYY-MM" text lists them from January to December.
    series := [];
    for m := 1 to 13
      invariant |series| == m - 1
      invariant forall k :: 0 <= k < |series| ==>
        series[k] == RatingPoint(YearMonth(year, k + 1),
                                 RatedTotal(logs, legacy, year, today, YearMonth(year, k + 1)),
                                 RatedCount(logs, legacy, year, today, YearMonth(year, k + 1)))
    {
      var (total, count) := monthly[YearMonth(year, m)];
      series := series + [RatingPoint(YearMonth(year, m), total, count)];
    }
  }

  /** Every key is a month of the year holding its ratings' sum and number; a missing month has none. */
  ghost predicate RatingsAgree(monthly: map<YearMonth, (int, nat)>, logs: seq<WatchLog>, legacy: seq<LegacyLog>, year: int, today: Day) {
    (forall ym :: ym in monthly ==> ym.year == year && 1 <= ym.month <= 12) &&
    (forall ym :: ym in monthly ==>
      monthly[ym] == (RatedTotal(logs, legacy, year, today, ym), RatedCount(logs, legacy, year, today, ym))) &&
    (forall ym :: ym !in monthly ==>
      RatedTotal(logs, legacy, year, today, ym) == 0 && RatedCount(logs, legacy, year, today, ym) == 0)
  }

  /** The accumulation loop: `monthly_data[month_key][:total] += rating; [:count] += 1`. */
  method CollectRatings(logs: seq<WatchLog>, legacy: seq<LegacyLog>, year: int, today: Day)
    returns (monthly: map<YearMonth, (int, nat)>)
    ensures forall ym :: ym in monthly ==> ym.year == year && 1 <= ym.month <= 12
    ensures forall ym :: ym in monthly ==>
      monthly[ym] == (RatedTotal(logs, legacy, year, today, ym), RatedCount(logs, legacy, year, today, ym))
    ensures forall ym :: ym !in monthly ==>
      RatedTotal(logs, legacy, year, today, ym) == 0 && RatedCount(logs, legacy, year, today, ym) == 0
  {
    monthly := map[];
    for i := 0 to |logs|
      invariant RatingsAgree(monthly, logs[..i], legacy, year, today)
    {
      var l := logs[i];
      assert logs[..i + 1] == logs[..i] + [l];
      RatingStep(monthly, logs[..i], l, legacy, year, today);
      if InYearWindow(l.watchedOn, year, today) {
        var rating := RatingAt(legacy, l.movieId, l.watchedOn);
        if rating.Some? {
          var key := MonthOf(l.watchedOn);
          var (total, count) := if key in monthly then monthly[key] else (0, 0);
          monthly := monthly[key := (total + rating.value, count + 1)];
        }
      }
    }
    assert logs[..|logs|] == logs;
  }

  /** One more watch log adds its rating to its month, when it is in the window and has one. */
  lemma RatingStep(monthly: map<YearMonth, (int, nat)>, logs: seq<WatchLog>, l: WatchLog, legacy: seq<LegacyLog>, year: int, today: Day)
    requires RatingsAgree(monthly, logs, legacy, year, today)
    ensures var r := RatingAt(legacy, l.movieId, l.watchedOn);
      var key := MonthOf(l.watchedOn);
      var (total, count) := if key in monthly then monthly[key] else (0, 0);
      RatingsAgree(if InYearWindow(l.watchedOn, year, today) && r.Some?
                   then monthly[key := (total + r.value, count + 1)] else monthly,
                   logs + [l], legacy, year, today)
  {
    var all := logs + [l];
    assert all[..|all| - 1] == logs;
  }

  // ---------------------------------------------------------------- lemmas

  lemma {:induction false} RatedTotalBounds(logs: seq<WatchLog>, legacy: seq<LegacyLog>, year: int, today: Day, ym: YearMonth)
    requires forall i :: 0 <= i < |legacy| ==> ValidRating(legacy[i].rating)
    ensures RatedCount(logs, legacy, year, today, ym) <= RatedTotal(logs, legacy, year, today, ym)
    ensures RatedTotal(logs, legacy, year, today, ym) <= 10 * RatedCount(logs, legacy, year, today, ym)
  {
    if logs != [] {
      RatedTotalBounds(logs[..|logs| - 1], legacy, year, today, ym);
    }
  }

  /**
   * With legacy ratings within 1..10, as the Log model validates, every
   * month's average rating lies within 1..10, or is 0 for a month without
   * ratings.
   */
  lemma AverageWithinRatingScale(logs: seq<WatchLog>, legacy: seq<LegacyLog>, year: int, today: Day, p: RatingPoint)
    requires forall i :: 0 <= i < |legacy| ==> ValidRating(legacy[i].rating)
    requires p == RatingPoint(p.month, RatedTotal(logs, legacy, year, today, p.month), RatedCount(logs, legacy, year, today, p.month))
    ensures p.count == 0 ==> AverageRating(p) == 0.0
    ensures p.count > 0 ==> 1.0 <= AverageRating(p) <= 10.0
  {
    RatedTotalBounds(logs, legacy, year, today, p.month);
    if p.count > 0 {
      var c := p.count as real;
      var t := p.total as real;
      QuotientBounds(t, c, 1.0, 10.0);
    }
  }

  lemma QuotientBounds(t: real, c: real, lo: real, hi: real)
    requires c > 0.0 && lo * c <= t <= hi * c
    ensures lo <= t / c <= hi
  {
    assert t / c * c == t;
  }

  /** A watch log without a legacy rating at its movie and date counts for activity but not for ratings. */
  lemma UnratedLogAddsNoRating(logs: seq<WatchLog>, legacy: seq<LegacyLog>, year: int, today: Day, l: WatchLog, ym: YearMonth)
    requires RatingAt(legacy, l.movieId, l.watchedOn).None?
    ensures RatedCount(logs + [l], legacy, year, today, ym) == RatedCount(logs, legacy, year, today, ym)
    ensures RatedTotal(logs + [l], legacy, year, today, ym) == RatedTotal(logs, legacy, year, today, ym)
    ensures InYearWindow(l.watchedOn, year, today) && MonthOf(l.watchedOn) == ym ==>
      MonthlyCount(logs + [l], year, today, ym) == MonthlyCount(logs, year, today, ym) + 1
  {
    var logs' := logs + [l];
    assert logs'[..|logs'| - 1] == logs;
  }
}
