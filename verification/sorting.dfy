/** Python's `sorted()` on lists of integers, as an insertion sort with its specification. */
module Sorting {

  predicate Sorted(xs: seq<int>)
  {
    forall i, j :: 0 <= i < j < |xs| ==> xs[i] <= xs[j]
  }

  /** Places `x` in the sorted list `xs`. */
  function Insert(x: int, xs: seq<int>): (r: seq<int>)
    requires Sorted(xs)
    ensures Sorted(r)
    ensures multiset(r) == multiset(xs) + multiset{x}
  {
    if |xs| == 0 || x <= xs[0] then [x] + xs
    else
      var rest := Insert(x, xs[1..]);
      assert xs == [xs[0]] + xs[1..];
      BoundedPermutation(xs[0], xs[1..], x, rest);
      [xs[0]] + rest
  }

  /** A permutation of values that are all at least `lo` is itself bounded below by `lo`. */
  lemma BoundedPermutation(lo: int, ys: seq<int>, x: int, rest: seq<int>)
    requires lo <= x
    requires forall k :: 0 <= k < |ys| ==> lo <= ys[k]
    requires multiset(rest) == multiset(ys) + multiset{x}
    ensures forall k :: 0 <= k < |rest| ==> lo <= rest[k]
  {
    forall k | 0 <= k < |rest| ensures lo <= rest[k] {
      assert rest[k] in multiset(rest);
      if rest[k] != x {
        assert rest[k] in multiset(ys);
      }
    }
  }

  /** `sorted(xs)`: the ascending permutation of `xs`. */
  function Sort(xs: seq<int>): (r: seq<int>)
    ensures Sorted(r)
    ensures multiset(r) == multiset(xs)
  {
    if |xs| == 0 then []
    else
      assert xs == [xs[0]] + xs[1..];
      Insert(xs[0], Sort(xs[1..]))
  }

  /** The first element of a sorted non-empty list is its least. */
  lemma SortedHeadIsLeast(xs: seq<int>, y: int)
    requires Sorted(xs) && |xs| > 0 && y in multiset(xs)
    ensures xs[0] <= y
  {
    var k :| 0 <= k < |xs| && xs[k] == y;
  }

  /** There is only one ascending permutation of a list: whatever sorts it agrees with `Sort`. */
  lemma {:induction false} SortedPermutationUnique(a: seq<int>, b: seq<int>)
    requires Sorted(a) && Sorted(b) && multiset(a) == multiset(b)
    ensures a == b
  {
    if |a| == 0 {
      assert |b| == |multiset(b)| == 0;
    } else {
      assert |b| == |multiset(b)| == |a|;
      assert a[0] in multiset(b);
      assert b[0] in multiset(a);
      SortedHeadIsLeast(a, b[0]);
      SortedHeadIsLeast(b, a[0]);
      var a', b' := a[1..], b[1..];
      assert a == [a[0]] + a';
      assert b == [b[0]] + b';
      assert a[0] == b[0];
      assert multiset(a) == multiset{a[0]} + multiset(a');
      assert multiset(b) == multiset{b[0]} + multiset(b');
      assert forall v :: multiset(a')[v] == multiset(b')[v] by {
        forall v ensures multiset(a')[v] == multiset(b')[v] {
          assert multiset(a)[v] == multiset{a[0]}[v] + multiset(a')[v];
          assert multiset(b)[v] == multiset{b[0]}[v] + multiset(b')[v];
        }
      }
      assert multiset(a') == multiset(b');
      SortedTail(a);
      SortedTail(b);
      SortedPermutationUnique(a', b');
    }
  }

  lemma SortedTail(a: seq<int>)
    requires Sorted(a) && |a| > 0
    ensures Sorted(a[1..])
  {
  }

  /** Sorting a list of distinct values gives a strictly ascending list. */
  lemma {:induction false} SortDistinct(xs: seq<int>)
    requires forall i, j :: 0 <= i < j < |xs| ==> xs[i] != xs[j]
    ensures forall i :: 0 <= i < |Sort(xs)| - 1 ==> Sort(xs)[i] < Sort(xs)[i + 1]
  {
    var s := Sort(xs);
    forall i | 0 <= i < |s| - 1 ensures s[i] < s[i + 1] {
      if s[i] == s[i + 1] {
        TwoEqualCount(s, i);
        DistinctCount(xs, s[i]);
        assert false;
      }
    }
  }

  lemma TwoEqualCount(s: seq<int>, i: int)
    requires 0 <= i < |s| - 1 && s[i] == s[i + 1]
    ensures multiset(s)[s[i]] >= 2
  {
    assert s == s[..i] + [s[i], s[i + 1]] + s[i + 2..];
  }

  /** In a list of distinct values, each value occurs at most once. */
  lemma {:induction false} DistinctCount(xs: seq<int>, v: int)
    requires forall i, j :: 0 <= i < j < |xs| ==> xs[i] != xs[j]
    ensures multiset(xs)[v] <= 1
  {
    if |xs| > 0 {
      assert xs == [xs[0]] + xs[1..];
      DistinctCount(xs[1..], v);
      if xs[0] == v {
        assert v !in xs[1..];
      }
    }
  }
}
