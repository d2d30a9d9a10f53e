/**
 * Ruby's `sort_by { ... }` followed by `first(n)`. `sort_by` is not stable,
 * so the only promise is that the result is ordered by the key and is a
 * permutation of the input; rows with equal keys may come in any order.
 * An ordering is given as a total preorder `le` ("a sorts no later than b").
 */
module Sorting {

  ghost predicate TotalPreorder<T(!new)>(le: (T, T) -> bool) {
    && (forall a, b :: le(a, b) || le(b, a))
    && (forall a, b, c :: le(a, b) && le(b, c) ==> le(a, c))
  }

  predicate SortedBy<T>(s: seq<T>, le: (T, T) -> bool) {
    forall i, j :: 0 <= i < j < |s| ==> le(s[i], s[j])
  }

  /** No two elements share a key (the keys of a Ruby hash turned into rows). */
  predicate DistinctBy<T, K(==)>(s: seq<T>, key: T -> K) {
    forall i, j :: 0 <= i < j < |s| ==> key(s[i]) != key(s[j])
  }

  function InsertBy<T(!new)>(x: T, s: seq<T>, le: (T, T) -> bool): (r: seq<T>)
    requires TotalPreorder(le) && SortedBy(s, le)
    ensures SortedBy(r, le)
    ensures multiset(r) == multiset(s) + multiset{x}
  {
    if s == [] then [x]
    else if le(x, s[0]) then [x] + s
    else
      var rest := InsertBy(x, s[1..], le);
      assert s == [s[0]] + s[1..];
      assert forall k :: 0 <= k < |rest| ==> le(s[0], rest[k]) by {
        forall k | 0 <= k < |rest|
          ensures le(s[0], rest[k])
        {
          assert rest[k] in multiset(rest);
          assert rest[k] == x || rest[k] in multiset(s[1..]);
        }
      }
      [s[0]] + rest
  }

  /** Insertion sort: an ordered permutation of `s`. */
  function SortBy<T(!new)>(s: seq<T>, le: (T, T) -> bool): (r: seq<T>)
    requires TotalPreorder(le)
    ensures SortedBy(r, le)
    ensures multiset(r) == multiset(s)
  {
    if s == [] then []
    else
      assert s == [s[0]] + s[1..];
      InsertBy(s[0], SortBy(s[1..], le), le)
  }

  /** `first(n)` for n >= 0: the first n elements, or all of them when there are fewer. */
  function Take<T>(s: seq<T>, n: nat): (r: seq<T>)
    ensures |r| <= n && |r| <= |s|
    ensures |r| == n || r == s
    ensures r == s[..|r|]
  {
    if n <= |s| then s[..n] else s
  }

  /**
   * What `sort_by(...).first(n)` promises: the rows kept are ordered, and
   * every row left out sorts no earlier than every row kept.
   */
  lemma TopOfSorted<T>(s: seq<T>, n: nat, le: (T, T) -> bool, x: T)
    requires SortedBy(s, le)
    requires x in s && x !in Take(s, n)
    ensures |Take(s, n)| == n
    ensures forall y :: y in Take(s, n) ==> le(y, x)
  {
    var r := Take(s, n);
    var k :| 0 <= k < |s| && s[k] == x;
    assert k >= |r|;
    forall y | y in r
      ensures le(y, x)
    {
      var i :| 0 <= i < |r| && r[i] == y;
      assert s[i] == y;
    }
  }

  lemma {:induction false} DistinctByCountsOnce<T, K>(s: seq<T>, key: T -> K, x: T)
    requires DistinctBy(s, key)
    ensures multiset(s)[x] <= 1
  {
    if s != [] {
      assert s == [s[0]] + s[1..];
      DistinctByCountsOnce(s[1..], key, x);
      if x == s[0] {
        assert x !in s[1..] by {
          forall j | 0 < j < |s|
            ensures s[j] != x
          {
            assert key(s[0]) != key(s[j]);
          }
        }
      }
    }
  }

  /** Reordering rows keeps their keys distinct. */
  lemma PermutationKeepsDistinct<T, K>(a: seq<T>, b: seq<T>, key: T -> K)
    requires multiset(a) == multiset(b) && DistinctBy(a, key)
    ensures DistinctBy(b, key)
  {
    forall i, j | 0 <= i < j < |b|
      ensures key(b[i]) != key(b[j])
    {
      if b[i] == b[j] {
        assert b == b[..j] + b[j..];
        assert b[i] in b[..j] && b[j] in b[j..];
        assert multiset(b)[b[i]] == multiset(b[..j])[b[i]] + multiset(b[j..])[b[i]];
        DistinctByCountsOnce(a, key, b[i]);
      } else {
        assert b[i] in multiset(a) && b[j] in multiset(a);
        var p :| 0 <= p < |a| && a[p] == b[i];
        var q :| 0 <= q < |a| && a[q] == b[j];
        assert p != q;
        if p < q { assert key(a[p]) != key(a[q]); } else { assert key(a[q]) != key(a[p]); }
      }
    }
  }

  lemma TakeKeepsDistinct<T, K>(s: seq<T>, n: nat, key: T -> K)
    requires DistinctBy(s, key)
    ensures DistinctBy(Take(s, n), key)
  {
  }
}
