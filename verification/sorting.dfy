/**
 * Python's `list.sort(key=...)` on a real-valued key: a stable sort. It is
 * modelled as insertion sort; what the selector relies on is the result's
 * order, not the algorithm.
 */
module Sorting {

  /** Keys never decrease along `xs`. */
  ghost predicate SortedBy<T>(xs: seq<T>, key: T -> real) {
    forall i, j | 0 <= i < j < |xs| :: key(xs[i]) <= key(xs[j])
  }

  /** Places `x` in front of the first element whose key is at least key(x). */
  function Insert<T>(x: T, xs: seq<T>, key: T -> real): (r: seq<T>)
    requires SortedBy(xs, key)
    ensures SortedBy(r, key)
    ensures multiset(r) == multiset(xs) + multiset{x}
  {
    if xs == [] || key(x) <= key(xs[0]) then [x] + xs
    else
      var t := Insert(x, xs[1..], key);
      assert xs == [xs[0]] + xs[1..];
      forall j | 0 <= j < |t| ensures key(xs[0]) <= key(t[j]) {
        assert t[j] in multiset(t);
        if t[j] != x {
          assert t[j] in multiset(xs[1..]);
          var i :| 0 <= i < |xs[1..]| && xs[1..][i] == t[j];
          assert xs[i + 1] == t[j];
        }
      }
      [xs[0]] + t
  }

  /** Sorts ascending by `key`; elements with equal keys keep their relative order. */
  function SortBy<T>(xs: seq<T>, key: T -> real): (r: seq<T>)
    ensures SortedBy(r, key)
    ensures multiset(r) == multiset(xs)
    ensures |r| == |xs|
  {
    if xs == [] then []
    else
      assert xs == [xs[0]] + xs[1..];
      Insert(xs[0], SortBy(xs[1..], key), key)
  }

  /** The elements of `xs` whose key is `v`, in order. */
  function WithKey<T>(xs: seq<T>, key: T -> real, v: real): seq<T> {
    if xs == [] then [] else (if key(xs[0]) == v then [xs[0]] else []) + WithKey(xs[1..], key, v)
  }

  /** The position of the first element of `xs` with the least key: an independent account of "the best". */
  function FirstMinimum<T>(xs: seq<T>, key: T -> real): (i: nat)
    requires xs != []
    ensures i < |xs|
    ensures forall j | 0 <= j < |xs| :: key(xs[i]) <= key(xs[j])
    ensures forall j | 0 <= j < i :: key(xs[j]) > key(xs[i])
  {
    if |xs| == 1 then 0
    else
      var k := FirstMinimum(xs[1..], key);
      if key(xs[0]) <= key(xs[1..][k]) then 0 else k + 1
  }

  lemma {:induction false} InsertWithKey<T>(x: T, xs: seq<T>, key: T -> real, v: real)
    requires SortedBy(xs, key)
    ensures WithKey(Insert(x, xs, key), key, v) == (if key(x) == v then [x] else []) + WithKey(xs, key, v)
  {
    if xs == [] || key(x) <= key(xs[0]) {
      assert ([x] + xs)[1..] == xs;
    } else {
      var tail := xs[1..];
      assert SortedBy(tail, key) by {
        forall i, j | 0 <= i < j < |tail| ensures key(tail[i]) <= key(tail[j]) {
          assert tail[i] == xs[i + 1] && tail[j] == xs[j + 1];
        }
      }
      InsertWithKey(x, tail, key, v);
      var r := [xs[0]] + Insert(x, tail, key);
      assert Insert(x, xs, key) == r;
      assert r[0] == xs[0] && r[1..] == Insert(x, tail, key);
      assert WithKey(xs, key, v) == (if key(xs[0]) == v then [xs[0]] else []) + WithKey(tail, key, v);
    }
  }

  /** Stability: sorting keeps the relative order of the elements that share a key. */
  lemma {:induction false} SortStable<T>(xs: seq<T>, key: T -> real, v: real)
    ensures WithKey(SortBy(xs, key), key, v) == WithKey(xs, key, v)
  {
    if xs != [] {
      SortStable(xs[1..], key, v);
      InsertWithKey(xs[0], SortBy(xs[1..], key), key, v);
    }
  }

  /** The head of the sorted list is the first of the elements with the least key. */
  lemma {:induction false} SortHeadIsFirstMinimum<T>(xs: seq<T>, key: T -> real)
    requires xs != []
    ensures SortBy(xs, key)[0] == xs[FirstMinimum(xs, key)]
  {
    if |xs| > 1 {
      var rest := xs[1..];
      SortHeadIsFirstMinimum(rest, key);
      var s := SortBy(rest, key);
      assert s[0] == rest[FirstMinimum(rest, key)];
    }
  }

  /**
   * The first `n` elements of a sorted permutation of `xs` are the `n` best:
   * every element of `xs` is among them or has a key no smaller than the last.
   */
  lemma PrefixHoldsBest<T>(xs: seq<T>, key: T -> real, n: nat)
    requires 0 < n <= |xs|
    ensures var p := SortBy(xs, key)[..n];
      forall x | x in xs :: x in p || key(x) >= key(p[n - 1])
  {
    var r := SortBy(xs, key);
    forall x | x in xs ensures x in r[..n] || key(x) >= key(r[n - 1]) {
      assert x in multiset(xs);
      assert x in multiset(r);
      var j :| 0 <= j < |r| && r[j] == x;
      if j < n { assert r[..n][j] == x; }
    }
  }
}
