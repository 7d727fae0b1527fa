/** Element-wise operations on sequences that the clustering code performs
    with numpy: position ranges, membership masks, negated masks, equality
    masks and selection of elements by a boolean mask. */
module Masks {

  /** No element occurs twice. */
  predicate NoDuplicates<T(==)>(s: seq<T>) {
    forall i, j :: 0 <= i < j < |s| ==> s[i] != s[j]
  }

  /** The positions 0, 1, ..., n-1 in increasing order. */
  function Range(n: nat): seq<int> {
    seq(n, i => i)
  }

  /** Element-wise "is xs[i] one of pool". */
  function MemberMask(xs: seq<int>, pool: seq<int>): seq<bool> {
    seq(|xs|, i requires 0 <= i < |xs| => xs[i] in pool)
  }

  /** Element-wise negation of a mask. */
  function Not(m: seq<bool>): seq<bool> {
    seq(|m|, i requires 0 <= i < |m| => !m[i])
  }

  /** Element-wise "is xs[i] equal to c". */
  function EqualMask(xs: seq<int>, c: int): seq<bool> {
    seq(|xs|, i requires 0 <= i < |xs| => xs[i] == c)
  }

  /** Number of true entries of a mask. */
  function CountTrue(m: seq<bool>): nat {
    if |m| == 0 then 0 else CountTrue(m[..|m| - 1]) + (if m[|m| - 1] then 1 else 0)
  }

  /** The elements of xs at the positions where m is true, in their order in
      xs. A mask of another length than xs is refused, as numpy refuses it. */
  function Compress<T>(xs: seq<T>, m: seq<bool>): (r: seq<T>)
    requires |m| == |xs|
    ensures |r| == CountTrue(m)
  {
    if |xs| == 0 then []
    else
      var n := |xs| - 1;
      Compress(xs[..n], m[..n]) + (if m[n] then [xs[n]] else [])
  }

  /** An element is selected exactly when it stands at some position where
      the mask is true. */
  lemma {:induction false} CompressMembership<T>(xs: seq<T>, m: seq<bool>, x: T)
    requires |m| == |xs|
    ensures x in Compress(xs, m) <==> exists i :: 0 <= i < |xs| && m[i] && xs[i] == x
  {
    if |xs| > 0 {
      var n := |xs| - 1;
      CompressMembership(xs[..n], m[..n], x);
      assert forall i :: 0 <= i < n ==> xs[..n][i] == xs[i] && m[..n][i] == m[i];
    }
  }

  /** The positions where m is true, in increasing order. */
  function TruePositions(m: seq<bool>): (r: seq<nat>)
    ensures |r| == CountTrue(m)
    ensures forall j :: 0 <= j < |r| ==> r[j] < |m| && m[r[j]]
    ensures forall j1, j2 :: 0 <= j1 < j2 < |r| ==> r[j1] < r[j2]
    ensures forall p :: 0 <= p < |m| && m[p] ==> p in r
  {
    if |m| == 0 then []
    else
      var n := |m| - 1;
      TruePositions(m[..n]) + (if m[n] then [n] else [])
  }

  lemma CountTrueSnoc(m: seq<bool>, b: bool)
    ensures CountTrue(m + [b]) == CountTrue(m) + (if b then 1 else 0)
  {
    assert (m + [b])[..|m|] == m;
  }

  lemma CompressSnoc<T>(xs: seq<T>, m: seq<bool>, x: T, b: bool)
    requires |m| == |xs|
    ensures Compress(xs + [x], m + [b]) == Compress(xs, m) + (if b then [x] else [])
  {
    assert (xs + [x])[..|xs|] == xs;
    assert (m + [b])[..|m|] == m;
  }

  /** Selecting by a mask keeps the order of xs: the j-th selected element is
      the element at the j-th true position. */
  lemma {:induction false} CompressAt<T>(xs: seq<T>, m: seq<bool>)
    requires |m| == |xs|
    ensures |Compress(xs, m)| == |TruePositions(m)|
    ensures forall j :: 0 <= j < |Compress(xs, m)| ==> Compress(xs, m)[j] == xs[TruePositions(m)[j]]
  {
    if |xs| > 0 {
      var n := |xs| - 1;
      CompressAt(xs[..n], m[..n]);
      assert forall j :: 0 <= j < |TruePositions(m[..n])| ==> TruePositions(m[..n])[j] < n;
    }
  }

  /** A mask and its negation together have one true entry per position. */
  lemma {:induction false} CountSplit(m: seq<bool>)
    ensures CountTrue(m) + CountTrue(Not(m)) == |m|
  {
    if |m| > 0 {
      var n := |m| - 1;
      CountSplit(m[..n]);
      NotPrefix(m, n);
    }
  }

  /** A mask and its negation together select every element exactly once. */
  lemma {:induction false} CompressSplit<T>(xs: seq<T>, m: seq<bool>)
    requires |m| == |xs|
    ensures multiset(Compress(xs, m)) + multiset(Compress(xs, Not(m))) == multiset(xs)
  {
    if |xs| > 0 {
      var n := |xs| - 1;
      CompressSplit(xs[..n], m[..n]);
      NotPrefix(m, n);
      MultisetLast(xs);
    }
  }

  lemma NotPrefix(m: seq<bool>, n: nat)
    requires n <= |m|
    ensures Not(m)[..n] == Not(m[..n])
  {
  }

  lemma MultisetLast<T>(xs: seq<T>)
    requires |xs| > 0
    ensures multiset(xs) == multiset(xs[..|xs| - 1]) + multiset{xs[|xs| - 1]}
  {
    assert xs == xs[..|xs| - 1] + [xs[|xs| - 1]];
  }

  /** When xs holds no duplicates, xs[i] is selected exactly when m[i] holds. */
  lemma CompressDistinct<T>(xs: seq<T>, m: seq<bool>, i: int)
    requires |m| == |xs| && NoDuplicates(xs) && 0 <= i < |xs|
    ensures xs[i] in Compress(xs, m) <==> m[i]
  {
    CompressMembership(xs, m, xs[i]);
  }

  /** A sequence without duplicates has as many distinct elements as entries. */
  lemma {:induction false} DistinctCardinality<T>(s: seq<T>)
    requires NoDuplicates(s)
    ensures |set x | x in s| == |s|
  {
    if |s| > 0 {
      var n := |s| - 1;
      DistinctCardinality(s[..n]);
      assert (set x | x in s) == (set x | x in s[..n]) + {s[n]};
      assert s[n] !in s[..n];
    }
  }
}
