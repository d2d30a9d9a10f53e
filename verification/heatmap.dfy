/**
 * `calculate_heatmap_data(year:)`: a day-by-day count of watch logs for one
 * year, keyed by the day's "YYYY-MM-DD" text, with every day of the year up
 * to today present (0 when nothing was watched that day).
 */
module Heatmap {
  import opened Calendar
  import opened Records
  import opened IsoFormat

  /** The number of watch logs dated `d`. */
  function CountOn(logs: seq<WatchLog>, d: Date): (n: nat)
    ensures n <= |logs|
    ensures n > 0 <==> exists i :: 0 <= i < |logs| && logs[i].watchedOn == d
  {
    if logs == [] then 0
    else CountOn(logs[..|logs| - 1], d) + (if logs[|logs| - 1].watchedOn == d then 1 else 0)
  }

  /** A heatmap key: the text of a day inside the year's window. */
  predicate IsWindowKey(k: string, year: int, today: Day) {
    var d := ParseIsoDate(k);
    d.Some? && ValidDate(d.value) && InYearWindow(d.value, year, today) && FormatIsoDate(d.value) == k
  }

  /** The counts kept so far: keys of window days, each with that day's count, and 0 for a day with no key. */
  ghost predicate CountsAgree(heat: map<string, nat>, logs: seq<WatchLog>, year: int, today: Day) {
    (forall k :: k in heat ==> IsWindowKey(k, year, today)) &&
    (forall d: Day :: InYearWindow(d, year, today) && FormatIsoDate(d) in heat ==>
      heat[FormatIsoDate(d)] == CountOn(logs, d)) &&
    (forall d: Day :: InYearWindow(d, year, today) && FormatIsoDate(d) !in heat ==>
      CountOn(logs, d) == 0)
  }

  /**
   * Every day of the window has its text as a key, mapped to the number of
   * watch logs of that day, and every key is the text of such a day; for a
   * year after today's the heatmap is empty.
   */
  method HeatmapData(logs: seq<WatchLog>, year: int, today: Day) returns (heat: map<string, nat>)
    ensures forall d: Day :: InYearWindow(d, year, today) ==>
      FormatIsoDate(d) in heat && heat[FormatIsoDate(d)] == CountOn(logs, d)
    ensures forall k :: k in heat ==> IsWindowKey(k, year, today)
    ensures year > today.year ==> heat == map[]
  {
    heat := CountWindowDays(logs, year, today);
    heat := FillWindowDays(heat, logs, year, today);
    if year > today.year {
      assert heat.Keys == {};
    }
  }

  /** The counting loop: one key per window day that has watch logs. */
  method CountWindowDays(logs: seq<WatchLog>, year: int, today: Day) returns (heat: map<string, nat>)
    ensures CountsAgree(heat, logs, year, today)
  {
    heat := map[];
    for i := 0 to |logs|
      invariant CountsAgree(heat, logs[..i], year, today)
    {
      var e := logs[i].watchedOn;
      assert logs[..i + 1] == logs[..i] + [logs[i]];
      if InYearWindow(e, year, today) {
        CountInWindow(heat, logs[..i], logs[i], year, today);
        heat := Bump(heat, FormatIsoDate(e));
      } else {
        CountOutsideWindow(heat, logs[..i], logs[i], year, today);
      }
    }
    assert logs[..|logs|] == logs;
  }

  /** `heatmap_hash[key] ||= 0; heatmap_hash[key] += 1` */
  function Bump(heat: map<string, nat>, key: string): (r: map<string, nat>)
    ensures r.Keys == heat.Keys + {key}
    ensures r[key] == (if key in heat then heat[key] else 0) + 1
    ensures forall k :: k in heat && k != key ==> r[k] == heat[k]
  {
    heat[key := (if key in heat then heat[key] else 0) + 1]
  }

  lemma CountInWindow(heat: map<string, nat>, logs: seq<WatchLog>, l: WatchLog, year: int, today: Day)
    requires CountsAgree(heat, logs, year, today)
    requires InYearWindow(l.watchedOn, year, today)
    ensures CountsAgree(Bump(heat, FormatIsoDate(l.watchedOn)), logs + [l], year, today)
  {
    var heat' := Bump(heat, FormatIsoDate(l.watchedOn));
    var e := l.watchedOn;
    var key := FormatIsoDate(e);
    var all := logs + [l];
    assert all[..|all| - 1] == logs;
    ParseIsoDateOfFormat(e);
    assert IsWindowKey(key, year, today);
    forall d: Day | InYearWindow(d, year, today)
      ensures FormatIsoDate(d) in heat' ==> heat'[FormatIsoDate(d)] == CountOn(all, d)
      ensures FormatIsoDate(d) !in heat' ==> CountOn(all, d) == 0
    {
      FormatIsoDateInjective(d, e);
    }
  }

  lemma CountOutsideWindow(heat: map<string, nat>, logs: seq<WatchLog>, l: WatchLog, year: int, today: Day)
    requires CountsAgree(heat, logs, year, today)
    requires !InYearWindow(l.watchedOn, year, today)
    ensures CountsAgree(heat, logs + [l], year, today)
  {
    var all := logs + [l];
    assert all[..|all| - 1] == logs;
    forall d: Day | InYearWindow(d, year, today)
      ensures CountOn(all, d) == CountOn(logs, d)
    {
      assert l.watchedOn != d;
    }
  }

  /** The filling loop over `start_date..end_date`: a 0 for every window day without a key. */
  method FillWindowDays(counted: map<string, nat>, logs: seq<WatchLog>, year: int, today: Day) returns (heat: map<string, nat>)
    requires CountsAgree(counted, logs, year, today)
    ensures CountsAgree(heat, logs, year, today)
    ensures forall d: Day :: InYearWindow(d, year, today) ==> FormatIsoDate(d) in heat
  {
    heat := counted;
    var end := MinDate(LastOfYear(year), today);
    var cur := FirstOfYear(year);
    while Le(cur, end)
      invariant ValidDate(cur) && Le(FirstOfYear(year), cur)
      invariant CountsAgree(heat, logs, year, today)
      invariant forall d: Day :: InYearWindow(d, year, today) && Lt(d, cur) ==> FormatIsoDate(d) in heat
      decreases end.year - cur.year, 12 - cur.month, 31 - cur.day
    {
      var key := FormatIsoDate(cur);
      if key !in heat {
        AddZeroKeepsCounts(heat, logs, year, today, cur);
        heat := heat[key := 0];
      }
      StepCovers(heat, year, today, cur);
      cur := NextDay(cur);
    }
    PastEndCoversWindow(heat, year, today, cur);
  }

  /** A window day without a key has no watch logs, so adding it with 0 keeps the counts right. */
  lemma AddZeroKeepsCounts(heat: map<string, nat>, logs: seq<WatchLog>, year: int, today: Day, cur: Day)
    requires CountsAgree(heat, logs, year, today)
    requires InYearWindow(cur, year, today) && FormatIsoDate(cur) !in heat
    ensures CountsAgree(heat[FormatIsoDate(cur) := 0], logs, year, today)
  {
    var key := FormatIsoDate(cur);
    var grown := heat[key := 0];
    ParseIsoDateOfFormat(cur);
    assert IsWindowKey(key, year, today);
    forall d: Day | InYearWindow(d, year, today) && FormatIsoDate(d) in grown
      ensures grown[FormatIsoDate(d)] == CountOn(logs, d)
    {
      if FormatIsoDate(d) == key {
        FormatIsoDateInjective(d, cur);
      }
    }
  }

  /** Once `cur` has its key, every window day before the next day has one. */
  lemma StepCovers(heat: map<string, nat>, year: int, today: Day, cur: Day)
    requires FormatIsoDate(cur) in heat
    requires forall d: Day :: InYearWindow(d, year, today) && Lt(d, cur) ==> FormatIsoDate(d) in heat
    ensures forall d: Day :: InYearWindow(d, year, today) && Lt(d, NextDay(cur)) ==> FormatIsoDate(d) in heat
  {
    forall d: Day | InYearWindow(d, year, today) && Lt(d, NextDay(cur))
      ensures FormatIsoDate(d) in heat
    {
      NextDayIsSuccessor(cur, d);
      LeTotal(cur, d);
    }
  }

  /** When `cur` has passed the window's end, every window day lies before it. */
  lemma PastEndCoversWindow(heat: map<string, nat>, year: int, today: Day, cur: Date)
    requires !Le(cur, MinDate(LastOfYear(year), today))
    requires forall d: Day :: InYearWindow(d, year, today) && Lt(d, cur) ==> FormatIsoDate(d) in heat
    ensures forall d: Day :: InYearWindow(d, year, today) ==> FormatIsoDate(d) in heat
  {
    var end := MinDate(LastOfYear(year), today);
    forall d: Day | InYearWindow(d, year, today)
      ensures FormatIsoDate(d) in heat
    {
      LeTotal(end, cur);
      LeTransitive(d, end, cur);
    }
  }

  /** A day's count goes up by one for each watch log of that day and for nothing else. */
  lemma {:induction false} CountOnAppend(logs: seq<WatchLog>, more: seq<WatchLog>, d: Date)
    ensures CountOn(logs + more, d) == CountOn(logs, d) + CountOn(more, d)
    decreases |more|
  {
    if more == [] {
      assert logs + more == logs;
    } else {
      var all := logs + more;
      assert all[..|all| - 1] == logs + more[..|more| - 1];
      CountOnAppend(logs, more[..|more| - 1], d);
    }
  }
}
