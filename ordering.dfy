/**
 * Orderings on sequences by an integer key: the descending sort that the
 * store's `sort({ field: -1 })` stands for, the prefix that `limit(n)`
 * keeps, and the in-order reversal of an array's contents.
 */
module Ordering {

  predicate SortedDesc<T>(s: seq<T>, key: T -> int)
  {
    forall i, j :: 0 <= i < j < |s| ==> key(s[i]) >= key(s[j])
  }

  predicate SortedAsc<T>(s: seq<T>, key: T -> int)
  {
    forall i, j :: 0 <= i < j < |s| ==> key(s[i]) <= key(s[j])
  }

  /** Places `x` before the first element whose key is not larger than its own. */
  function Insert<T>(x: T, s: seq<T>, key: T -> int): (r: seq<T>)
    requires SortedDesc(s, key)
    ensures |r| == |s| + 1
    ensures multiset(r) == multiset(s) + multiset{x}
    ensures SortedDesc(r, key)
    ensures r[0] == x || (s != [] && r[0] == s[0])
  {
    if s == [] then [x]
    else if key(x) >= key(s[0]) then
      ConsSorted(x, s, key);
      [x] + s
    else
      var rest := s[1..];
      var tail := Insert(x, rest, key);
      assert s == [s[0]] + rest;
      ConsSorted(s[0], tail, key);
      [s[0]] + tail
  }

  /** A head no smaller than the first element of a descending sequence keeps it descending. */
  lemma ConsSorted<T>(h: T, t: seq<T>, key: T -> int)
    requires SortedDesc(t, key)
    requires t != [] ==> key(h) >= key(t[0])
    ensures SortedDesc([h] + t, key)
  {
    var r := [h] + t;
    forall i, j | 0 <= i < j < |r| ensures key(r[i]) >= key(r[j]) {
      if i == 0 && j > 1 {
        assert key(t[0]) >= key(t[j - 1]);
      }
    }
  }

  /** Sorts by `key`, largest first. */
  function SortDesc<T(!new)>(s: seq<T>, key: T -> int): (r: seq<T>)
    ensures |r| == |s|
    ensures multiset(r) == multiset(s)
    ensures SortedDesc(r, key)
    ensures forall x :: x in r <==> x in s
  {
    if s == [] then []
    else
      assert s == [s[0]] + s[1..];
      var r := Insert(s[0], SortDesc(s[1..], key), key);
      assert forall x :: x in r <==> x in multiset(r);
      r
  }

  function Min(a: int, b: int): int { if a <= b then a else b }

  function Abs(n: int): nat { if n < 0 then -n else n }

  /**
   * How many documents `limit(n)` lets through out of `available`: a zero
   * limit means no limit, a negative one is taken by its absolute value.
   */
  function LimitCount(n: int, available: nat): (k: nat)
    ensures k <= available
    ensures n == 0 ==> k == available
    ensures n != 0 ==> k <= Abs(n) && (k < Abs(n) ==> k == available)
  {
    if n == 0 then available else Min(Abs(n), available)
  }

  function Reversed<T>(s: seq<T>): (r: seq<T>)
    ensures |r| == |s|
    ensures forall k :: 0 <= k < |s| ==> r[k] == s[|s| - 1 - k]
    ensures multiset(r) == multiset(s)
  {
    if s == [] then []
    else
      assert s == [s[0]] + s[1..];
      Reversed(s[1..]) + [s[0]]
  }

  /** A sequence whose k-th element is the input's k-th from the end is the input's reversal. */
  lemma ReversedPointwise<T>(s: seq<T>, r: seq<T>)
    requires |r| == |s|
    requires forall k :: 0 <= k < |s| ==> r[k] == s[|s| - 1 - k]
    ensures r == Reversed(s)
  {
  }

  /** Reading a newest-first sequence backwards gives it oldest-first. */
  lemma ReversedSortedDescIsSortedAsc<T>(s: seq<T>, key: T -> int)
    requires SortedDesc(s, key)
    ensures SortedAsc(Reversed(s), key)
  {
    var r := Reversed(s);
    forall i, j | 0 <= i < j < |r| ensures key(r[i]) <= key(r[j]) {
      assert r[i] == s[|s| - 1 - i] && r[j] == s[|s| - 1 - j];
    }
  }

  /** Every element left out of a prefix of a descending sequence is no larger than any kept one. */
  lemma {:induction false} PrefixHoldsLargest<T>(s: seq<T>, k: nat, key: T -> int, y: T, x: T)
    requires SortedDesc(s, key)
    requires k <= |s|
    requires y in s && y !in s[..k]
    requires x in s[..k]
    ensures key(y) <= key(x)
  {
    var j :| 0 <= j < |s| && s[j] == y;
    assert k <= j;
    var i :| 0 <= i < k && s[..k][i] == x;
    assert s[i] == x;
  }
}
