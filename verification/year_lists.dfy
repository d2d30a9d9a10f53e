/**
 * The year pickers of the statistics page: `last_five_years`,
 * `trend_years` and `heatmap_years`.
 */
module YearLists {
  import opened Records
  import opened Sorting

  predicate StrictlyDescending(s: seq<int>) {
    forall i, j :: 0 <= i < j < |s| ==> s[i] > s[j]
  }

  /** `last_five_years`: this year and the four before it, newest first. */
  function LastFiveYears(current: int): (r: seq<int>)
    ensures |r| == 5 && r[0] == current && StrictlyDescending(r)
    ensures forall y :: y in r <==> current - 4 <= y <= current
  {
    var r := [current, current - 1, current - 2, current - 3, current - 4];
    forall y | current - 4 <= y <= current
      ensures y in r
    {
      assert r[current - y] == y;
    }
    r
  }

  /** `trend_years`: the same five years. */
  function TrendYears(current: int): (r: seq<int>)
    ensures r == LastFiveYears(current)
  {
    LastFiveYears(current)
  }

  /** The year of each watch log, in log order. */
  function YearsOf(logs: seq<WatchLog>): (r: seq<int>)
    ensures |r| == |logs| && forall i :: 0 <= i < |logs| ==> r[i] == logs[i].watchedOn.year
  {
    if logs == [] then [] else YearsOf(logs[..|logs| - 1]) + [logs[|logs| - 1].watchedOn.year]
  }

  /** `uniq`: the first occurrence of every element, in order. */
  function Uniq(s: seq<int>): (r: seq<int>)
    ensures forall y :: y in r <==> y in s
    ensures DistinctBy(r, Identity)
  {
    if s == [] then []
    else
      var rest := Uniq(s[..|s| - 1]);
      if s[|s| - 1] in rest then rest
      else
        var r := rest + [s[|s| - 1]];
        assert forall y :: y in s <==> y in s[..|s| - 1] || y == s[|s| - 1] by {
          assert s == s[..|s| - 1] + [s[|s| - 1]];
        }
        r
  }

  function Identity(y: int): int { y }

  function YearDesc(a: int, b: int): bool { a >= b }

  lemma YearDescIsTotalPreorder()
    ensures TotalPreorder(YearDesc)
  {
  }

  /** `select { |y| y >= floor }`, keeping the order. */
  function AtLeast(s: seq<int>, floor: int): (r: seq<int>)
    ensures forall y :: y in r <==> y in s && y >= floor
    ensures StrictlyDescending(s) ==> StrictlyDescending(r)
  {
    if s == [] then []
    else
      var r := AtLeast(s[1..], floor);
      assert forall y :: y in s <==> y == s[0] || y in s[1..] by {
        assert s == [s[0]] + s[1..];
      }
      assert StrictlyDescending(s) ==> StrictlyDescending([s[0]] + r) by {
        if StrictlyDescending(s) {
          HeadAboveTail(s);
          ConsDescending(s[0], r);
        }
      }
      if s[0] >= floor then [s[0]] + r else r
  }

  lemma ConsDescending(x: int, r: seq<int>)
    requires StrictlyDescending(r) && forall y :: y in r ==> y < x
    ensures StrictlyDescending([x] + r)
  {
    forall i, j | 0 <= i < j < |r| + 1
      ensures ([x] + r)[i] > ([x] + r)[j]
    {
      assert r[j - 1] in r;
    }
  }

  lemma HeadAboveTail(s: seq<int>)
    requires StrictlyDescending(s) && |s| > 0
    ensures forall y :: y in s[1..] ==> y < s[0]
    ensures StrictlyDescending(s[1..])
  {
    forall y | y in s[1..]
      ensures y < s[0]
    {
      var k :| 0 <= k < |s[1..]| && s[1..][k] == y;
      assert s[k + 1] == y;
    }
  }

  /**
   * `heatmap_years`: the distinct years of the watch logs, newest first,
   * that are no older than four years before this one, at most five of them;
   * when there is none, the last five years. Every year kept is a recent log
   * year, and a recent log year is left out only when five newer ones are
   * kept.
   */
  function HeatmapYears(logs: seq<WatchLog>, current: int): (r: seq<int>)
    ensures |r| <= 5 && StrictlyDescending(r)
    ensures (forall i :: 0 <= i < |logs| ==> logs[i].watchedOn.year < current - 4) ==> r == LastFiveYears(current)
    ensures (exists i :: 0 <= i < |logs| && logs[i].watchedOn.year >= current - 4) ==>
      (forall y :: y in r ==> y >= current - 4 && y in YearsOf(logs)) &&
      (forall y :: y in YearsOf(logs) && y >= current - 4 && y !in r ==> |r| == 5 && forall z :: z in r ==> z > y)
  {
    var filtered := AtLeast(DescendingYears(logs), current - 4);
    RecentYearsExist(logs, current);
    if filtered == [] then Take(LastFiveYears(current), 5)
    else
      FirstFiveRecent(filtered, logs, current);
      Take(filtered, 5)
  }

  /** `first(5)` of the recent years keeps recent log years, dropping one only below five kept ones. */
  lemma FirstFiveRecent(filtered: seq<int>, logs: seq<WatchLog>, current: int)
    requires filtered == AtLeast(DescendingYears(logs), current - 4)
    ensures var r := Take(filtered, 5);
      StrictlyDescending(r) &&
      (forall y :: y in r ==> y >= current - 4 && y in YearsOf(logs)) &&
      (forall y :: y in YearsOf(logs) && y >= current - 4 && y !in r ==> |r| == 5 && forall z :: z in r ==> z > y)
  {
    var r := Take(filtered, 5);
    assert forall y :: y in r ==> y in filtered;
    forall y | y in YearsOf(logs) && y >= current - 4 && y !in r
      ensures |r| == 5 && forall z :: z in r ==> z > y
    {
      KeptAreGreater(filtered, 5, y);
    }
  }

  /** `pluck(year).uniq.sort.reverse`: the distinct log years, newest first. */
  function DescendingYears(logs: seq<WatchLog>): (r: seq<int>)
    ensures StrictlyDescending(r)
    ensures forall y :: y in r <==> y in YearsOf(logs)
  {
    YearDescIsTotalPreorder();
    var u := Uniq(YearsOf(logs));
    var r := SortBy(u, YearDesc);
    DescendingOfSorted(u, r);
    assert forall y :: y in r <==> y in multiset(r);
    r
  }

  lemma RecentYearsExist(logs: seq<WatchLog>, current: int)
    ensures AtLeast(DescendingYears(logs), current - 4) != [] <==>
      exists i :: 0 <= i < |logs| && logs[i].watchedOn.year >= current - 4
  {
    var filtered := AtLeast(DescendingYears(logs), current - 4);
    if filtered != [] {
      var y := filtered[0];
      assert y in YearsOf(logs);
      var i :| 0 <= i < |logs| && YearsOf(logs)[i] == y;
    }
    if exists i :: 0 <= i < |logs| && logs[i].watchedOn.year >= current - 4 {
      var i :| 0 <= i < |logs| && logs[i].watchedOn.year >= current - 4;
      assert YearsOf(logs)[i] in YearsOf(logs);
    }
  }

  /**
   * When no watch log is dated after this year, every recent log year is
   * shown: there are at most five of them, so `first(5)` drops none.
   */
  lemma HeatmapYearsShowsEveryRecentYear(logs: seq<WatchLog>, current: int)
    requires forall i :: 0 <= i < |logs| ==> logs[i].watchedOn.year <= current
    requires exists i :: 0 <= i < |logs| && logs[i].watchedOn.year >= current - 4
    ensures forall i :: 0 <= i < |logs| && logs[i].watchedOn.year >= current - 4 ==>
      logs[i].watchedOn.year in HeatmapYears(logs, current)
  {
    var r := HeatmapYears(logs, current);
    forall i | 0 <= i < |logs| && logs[i].watchedOn.year >= current - 4
      ensures logs[i].watchedOn.year in r
    {
      var y := logs[i].watchedOn.year;
      assert YearsOf(logs)[i] == y;
      forall z | z in r
        ensures z <= current
      {
        var j :| 0 <= j < |logs| && YearsOf(logs)[j] == z;
      }
      NoRoomToDrop(r, y, current);
    }
  }

  /**
   * Five strictly descending years no newer than `current`, all newer than
   * `y`, cannot fit between `y >= current - 4` and `current`.
   */
  lemma NoRoomToDrop(r: seq<int>, y: int, current: int)
    requires StrictlyDescending(r) && y >= current - 4
    requires forall z :: z in r ==> z <= current
    requires y !in r ==> |r| == 5 && forall z :: z in r ==> z > y
    ensures y in r
  {
    if |r| > 0 {
      DescendingSpan(r);
      assert r[0] in r && r[|r| - 1] in r;
    }
  }

  lemma {:induction false} DescendingSpan(s: seq<int>)
    requires StrictlyDescending(s) && |s| > 0
    ensures s[0] - s[|s| - 1] >= |s| - 1
    decreases |s|
  {
    if |s| > 1 {
      DescendingSpan(s[..|s| - 1]);
    }
  }

  lemma DescendingOfSorted(u: seq<int>, s: seq<int>)
    requires DistinctBy(u, Identity)
    requires SortedBy(s, YearDesc) && multiset(s) == multiset(u)
    ensures StrictlyDescending(s)
  {
    PermutationKeepsDistinct(u, s, Identity);
  }

  lemma KeptAreGreater(s: seq<int>, n: nat, y: int)
    requires StrictlyDescending(s)
    requires y in s && y !in Take(s, n)
    ensures |Take(s, n)| == n
    ensures forall z :: z in Take(s, n) ==> z > y
  {
    var k :| 0 <= k < |s| && s[k] == y;
    assert k >= n;
  }
}
