/** Option, the nullable cell of a column. */
module Wrappers {
  datatype Option<+T> = None | Some(value: T)
}

/**
 The sequence primitives the dashboard's tables are built from: a boolean
 mask that keeps rows in order (`df[mask]`), the indices such a mask keeps,
 and `Series.unique()`, the distinct values in order of first occurrence.
 Sequences are grown and taken apart at their END, so that an index into a
 prefix is the same index into the whole sequence.
 */
module Selection {

  /** The indices are listed in strictly increasing order. */
  predicate StrictlyIncreasing(idx: seq<nat>)
  {
    forall a, b :: 0 <= a < b < |idx| ==> idx[a] < idx[b]
  }

  /** The conjunction of two masks. */
  function Both<T>(p: T -> bool, q: T -> bool): T -> bool
  {
    x => p(x) && q(x)
  }

  /** `s[mask]`: the elements of `s` for which `keep` holds, in their order in `s`. */
  function Filter<T>(keep: T -> bool, s: seq<T>): (r: seq<T>)
    ensures |r| <= |s|
    ensures forall k :: 0 <= k < |r| ==> keep(r[k])
  {
    if s == [] then []
    else
      var n := |s| - 1;
      Filter(keep, s[..n]) + (if keep(s[n]) then [s[n]] else [])
  }

  /** The positions of `s` the mask keeps, in increasing order: exactly those where `keep` holds. */
  function KeptIndices<T>(keep: T -> bool, s: seq<T>): (idx: seq<nat>)
    ensures StrictlyIncreasing(idx)
    ensures forall k :: 0 <= k < |idx| ==> idx[k] < |s| && keep(s[idx[k]])
    ensures forall i :: 0 <= i < |s| && keep(s[i]) ==> i in idx
  {
    if s == [] then []
    else
      var n := |s| - 1;
      var prefix := KeptIndices(keep, s[..n]);
      assert forall i :: 0 <= i < n ==> s[..n][i] == s[i];
      if keep(s[n]) then prefix + [n] else prefix
  }

  /** The number of elements of `s` for which `keep` holds. */
  function Count<T>(keep: T -> bool, s: seq<T>): nat
  {
    if s == [] then 0
    else
      var n := |s| - 1;
      Count(keep, s[..n]) + (if keep(s[n]) then 1 else 0)
  }

  /** The filtered sequence is `s` read at the kept indices: it is a subsequence of `s` in order. */
  lemma {:induction false} FilterAtKeptIndices<T>(keep: T -> bool, s: seq<T>)
    ensures |Filter(keep, s)| == |KeptIndices(keep, s)|
    ensures forall k :: 0 <= k < |Filter(keep, s)| ==> Filter(keep, s)[k] == s[KeptIndices(keep, s)[k]]
  {
    if s != [] {
      var n := |s| - 1;
      FilterAtKeptIndices(keep, s[..n]);
      var f, idx := Filter(keep, s[..n]), KeptIndices(keep, s[..n]);
      forall k | 0 <= k < |f|
        ensures Filter(keep, s)[k] == s[KeptIndices(keep, s)[k]]
      {
        assert Filter(keep, s)[k] == f[k];
        assert KeptIndices(keep, s)[k] == idx[k];
      }
    }
  }

  /** A mask keeps only elements of `s`, and every element of `s` it holds for. */
  lemma {:induction false} FilterMembers<T>(keep: T -> bool, s: seq<T>)
    ensures forall k :: 0 <= k < |Filter(keep, s)| ==> Filter(keep, s)[k] in s
    ensures forall i :: 0 <= i < |s| && keep(s[i]) ==> s[i] in Filter(keep, s)
  {
    FilterAtKeptIndices(keep, s);
    var r, idx := Filter(keep, s), KeptIndices(keep, s);
    forall i | 0 <= i < |s| && keep(s[i])
      ensures s[i] in r
    {
      var k :| 0 <= k < |idx| && idx[k] == i;
      assert r[k] == s[i];
    }
  }

  /** A mask keeps exactly as many elements as satisfy it. */
  lemma {:induction false} FilterLength<T>(keep: T -> bool, s: seq<T>)
    ensures |Filter(keep, s)| == Count(keep, s)
  {
    if s != [] {
      FilterLength(keep, s[..|s| - 1]);
    }
  }

  /** Masking a concatenation masks each part. */
  lemma {:induction false} FilterAppend<T>(keep: T -> bool, a: seq<T>, b: seq<T>)
    ensures Filter(keep, a + b) == Filter(keep, a) + Filter(keep, b)
  {
    if b != [] {
      var n := |b| - 1;
      assert (a + b)[..|a + b| - 1] == a + b[..n];
      assert (a + b)[|a + b| - 1] == b[n];
      FilterAppend(keep, a, b[..n]);
    } else {
      assert a + b == a;
    }
  }

  /** Applying one mask after another is applying their conjunction. */
  lemma {:induction false} FilterFilter<T>(p: T -> bool, q: T -> bool, s: seq<T>)
    ensures Filter(q, Filter(p, s)) == Filter(Both(p, q), s)
  {
    if s != [] {
      var n := |s| - 1;
      FilterFilter(p, q, s[..n]);
      var tail := if p(s[n]) then [s[n]] else [];
      FilterAppend(q, Filter(p, s[..n]), tail);
    }
  }

  /** A mask over one element keeps it exactly when it holds. */
  lemma FilterSingleton<T>(keep: T -> bool, x: T)
    ensures Filter(keep, [x]) == if keep(x) then [x] else []
  {
  }

  /** A mask that holds of no element keeps nothing. */
  lemma {:induction false} FilterNone<T>(keep: T -> bool, s: seq<T>)
    requires forall k :: 0 <= k < |s| ==> !keep(s[k])
    ensures Filter(keep, s) == []
  {
    if s != [] {
      var n := |s| - 1;
      assert forall k :: 0 <= k < n ==> s[..n][k] == s[k];
      FilterNone(keep, s[..n]);
    }
  }

  /** Two masks that agree on every element of `s` select the same rows. */
  lemma {:induction false} FilterAgree<T>(p: T -> bool, q: T -> bool, s: seq<T>)
    requires forall k :: 0 <= k < |s| ==> p(s[k]) == q(s[k])
    ensures Filter(p, s) == Filter(q, s)
  {
    if s != [] {
      var n := |s| - 1;
      assert forall k :: 0 <= k < n ==> s[..n][k] == s[k];
      FilterAgree(p, q, s[..n]);
    }
  }

  /** The position of the first occurrence of `x` in `xs`. */
  function FirstIndex<T(==)>(xs: seq<T>, x: T): (i: nat)
    requires x in xs
    ensures i < |xs| && xs[i] == x
    ensures forall j :: 0 <= j < i ==> xs[j] != x
  {
    if xs[0] == x then 0 else 1 + FirstIndex(xs[1..], x)
  }

  /** `Series.unique()`: each value of `xs` once, in order of first occurrence. */
  function Unique<T(==)>(xs: seq<T>): (u: seq<T>)
    ensures forall k :: 0 <= k < |u| ==> u[k] in xs
    ensures forall i :: 0 <= i < |xs| ==> xs[i] in u
    ensures forall i, j :: 0 <= i < j < |u| ==> u[i] != u[j]
  {
    if xs == [] then []
    else
      var n := |xs| - 1;
      var u := Unique(xs[..n]);
      assert forall i :: 0 <= i < n ==> xs[..n][i] == xs[i];
      if xs[n] in u then u else u + [xs[n]]
  }

  /** Extending a sequence does not move the first occurrence of a value already present. */
  lemma {:induction false} FirstIndexPrefix<T>(xs: seq<T>, n: nat, x: T)
    requires n <= |xs| && x in xs[..n]
    ensures FirstIndex(xs, x) == FirstIndex(xs[..n], x)
  {
  }

  /** The values `Unique` lists are ordered by where they first occur in the input. */
  lemma {:induction false} UniqueFirstOccurrenceOrder<T>(xs: seq<T>)
    ensures forall i, j :: 0 <= i < j < |Unique(xs)| ==>
      FirstIndex(xs, Unique(xs)[i]) < FirstIndex(xs, Unique(xs)[j])
  {
    if xs != [] {
      var n := |xs| - 1;
      var u := Unique(xs[..n]);
      UniqueFirstOccurrenceOrder(xs[..n]);
      forall k | 0 <= k < |u|
        ensures FirstIndex(xs, u[k]) == FirstIndex(xs[..n], u[k]) < n
      {
        FirstIndexPrefix(xs, n, u[k]);
      }
      if xs[n] !in u {
        assert FirstIndex(xs, xs[n]) == n;
      }
    }
  }
}
