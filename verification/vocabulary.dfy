/**
 The per-column vocabularies of the n-gram encoder.

 The operator receives all vocabularies concatenated into one flat sequence
 `vals`; vocabulary `k` is the slice of `vals` that starts after the first
 `k` vocabularies and is `limits[k]` entries long.  A cell value is looked
 up in its column's vocabulary by exact equality.
 */
module Vocabulary {

  datatype Option<T> = None | Some(value: T)

  /** Sum of all entries. */
  function Sum(s: seq<int>): int
  {
    if |s| == 0 then 0 else Sum(s[..|s| - 1]) + s[|s| - 1]
  }

  /** Every entry is non-negative. */
  predicate NonNegative(s: seq<int>)
  {
    forall k :: 0 <= k < |s| ==> s[k] >= 0
  }

  /** No value occurs twice. */
  predicate Distinct(s: seq<int>)
  {
    forall i, j :: 0 <= i < j < |s| ==> s[i] != s[j]
  }

  /** Where vocabulary `k` starts inside the flat `vals`. */
  function Offset(limits: seq<int>, k: nat): int
    requires k <= |limits|
  {
    Sum(limits[..k])
  }

  /** Vocabulary `k`: the `limits[k]` entries of `vals` that follow the first `k` vocabularies. */
  function VocabOf(vals: seq<int>, limits: seq<int>, k: nat): (v: seq<int>)
    requires k < |limits|
    requires NonNegative(limits)
    requires |vals| == Sum(limits)
    ensures |v| == limits[k]
  {
    OffsetBounds(limits, k);
    vals[Offset(limits, k)..Offset(limits, k) + limits[k]]
  }

  /** The concatenation of a list of vocabularies, in order. */
  function Flatten(vocabs: seq<seq<int>>): (vals: seq<int>)
  {
    if |vocabs| == 0 then [] else Flatten(vocabs[..|vocabs| - 1]) + vocabs[|vocabs| - 1]
  }

  /** The first position at which `x` occurs in `s`, if any. */
  function IndexOf(s: seq<int>, x: int): (r: Option<nat>)
    ensures r.None? <==> x !in s
    ensures r.Some? ==> r.value < |s| && s[r.value] == x
    ensures r.Some? ==> forall j :: 0 <= j < r.value ==> s[j] != x
  {
    if |s| == 0 then None
    else if s[0] == x then Some(0)
    else
      match IndexOf(s[1..], x)
      case None => None
      case Some(i) => Some(i + 1)
  }

  // ---------------------------------------------------------------------
  // Slices

  /** Each next vocabulary starts where the previous one ends. */
  lemma OffsetStep(limits: seq<int>, k: nat)
    requires k < |limits|
    ensures Offset(limits, k + 1) == Offset(limits, k) + limits[k]
  {
    assert limits[..k + 1][..k] == limits[..k];
  }

  /** A prefix sum of non-negative entries never exceeds the whole sum. */
  lemma {:induction false} PrefixSumBound(limits: seq<int>, k: nat)
    requires k <= |limits|
    requires NonNegative(limits)
    ensures 0 <= Offset(limits, k) <= Sum(limits)
    decreases |limits| - k
  {
    if k == |limits| {
      assert limits[..k] == limits;
      NonNegativeSum(limits);
    } else {
      PrefixSumBound(limits, k + 1);
      OffsetStep(limits, k);
      PrefixNonNegative(limits, k);
    }
  }

  /** Prefix sums of non-negative entries are non-negative. */
  lemma PrefixNonNegative(limits: seq<int>, k: nat)
    requires k <= |limits|
    requires NonNegative(limits)
    ensures Offset(limits, k) >= 0
  {
    var front := limits[..k];
    assert NonNegative(front) by {
      forall i | 0 <= i < |front| ensures front[i] >= 0 {
        assert front[i] == limits[i];
      }
    }
    NonNegativeSum(front);
  }

  lemma {:induction false} NonNegativeSum(s: seq<int>)
    requires NonNegative(s)
    ensures Sum(s) >= 0
  {
    if |s| > 0 {
      var front := s[..|s| - 1];
      assert NonNegative(front) by {
        forall k | 0 <= k < |front| ensures front[k] >= 0 {
          assert front[k] == s[k];
        }
      }
      NonNegativeSum(front);
    }
  }

  /** Vocabulary `k` lies inside `vals`. */
  lemma OffsetBounds(limits: seq<int>, k: nat)
    requires k < |limits|
    requires NonNegative(limits)
    ensures 0 <= Offset(limits, k)
    ensures Offset(limits, k) + limits[k] <= Sum(limits)
  {
    PrefixSumBound(limits, k + 1);
    PrefixSumBound(limits, k);
    OffsetStep(limits, k);
  }

  // ---------------------------------------------------------------------
  // Slicing undoes flattening

  /** The flattened length is the sum of the vocabulary sizes. */
  lemma {:induction false} FlattenLength(vocabs: seq<seq<int>>, limits: seq<int>)
    requires |vocabs| == |limits|
    requires forall k :: 0 <= k < |vocabs| ==> |vocabs[k]| == limits[k]
    ensures |Flatten(vocabs)| == Sum(limits)
  {
    if |vocabs| > 0 {
      var n := |vocabs| - 1;
      FlattenLength(vocabs[..n], limits[..n]);
    }
  }

  /** Vocabulary `k` sits in the flattening at the offset given by the sizes before it. */
  lemma {:induction false} FlattenSlice(vocabs: seq<seq<int>>, limits: seq<int>, k: nat)
    requires |vocabs| == |limits|
    requires forall i :: 0 <= i < |vocabs| ==> |vocabs[i]| == limits[i]
    requires k < |vocabs|
    ensures 0 <= Offset(limits, k) && Offset(limits, k) + limits[k] <= |Flatten(vocabs)|
    ensures Flatten(vocabs)[Offset(limits, k)..Offset(limits, k) + limits[k]] == vocabs[k]
  {
    assert NonNegative(limits);
    PrefixNonNegative(limits, k);
    var n := |vocabs| - 1;
    FlattenLength(vocabs[..n], limits[..n]);
    if k == n {
      assert limits[..n] == limits[..k];
    } else {
      FlattenSlice(vocabs[..n], limits[..n], k);
      assert limits[..n][..k] == limits[..k];
    }
  }

  /** Splitting the flattened vocabularies by their sizes gives each vocabulary back. */
  lemma VocabOfFlatten(vocabs: seq<seq<int>>, limits: seq<int>, k: nat)
    requires |vocabs| == |limits|
    requires forall i :: 0 <= i < |vocabs| ==> |vocabs[i]| == limits[i]
    requires NonNegative(limits)
    requires k < |vocabs|
    ensures |Flatten(vocabs)| == Sum(limits)
    ensures VocabOf(Flatten(vocabs), limits, k) == vocabs[k]
  {
    FlattenLength(vocabs, limits);
    FlattenSlice(vocabs, limits, k);
  }

  /** The vocabularies of the first `n` columns, cut out of `vals`. */
  function Split(vals: seq<int>, limits: seq<int>, n: nat): (vocabs: seq<seq<int>>)
    requires n <= |limits|
    requires NonNegative(limits)
    requires |vals| == Sum(limits)
    ensures |vocabs| == n
    ensures forall k :: 0 <= k < n ==> vocabs[k] == VocabOf(vals, limits, k)
  {
    if n == 0 then [] else Split(vals, limits, n - 1) + [VocabOf(vals, limits, n - 1)]
  }

  /** Re-concatenating the vocabularies cut out of `vals` gives `vals` back. */
  lemma {:induction false} FlattenSplit(vals: seq<int>, limits: seq<int>, n: nat)
    requires n <= |limits|
    requires NonNegative(limits)
    requires |vals| == Sum(limits)
    ensures 0 <= Offset(limits, n) <= |vals|
    ensures Flatten(Split(vals, limits, n)) == vals[..Offset(limits, n)]
  {
    PrefixSumBound(limits, n);
    if n > 0 {
      FlattenSplit(vals, limits, n - 1);
      SplitSnoc(vals, limits, n);
      VocabOfSlice(vals, limits, n - 1);
      SliceConcat(vals, Flatten(Split(vals, limits, n - 1)), VocabOf(vals, limits, n - 1),
                  Offset(limits, n - 1), Offset(limits, n));
    }
  }

  /** Vocabulary `k` is the stretch of `vals` between its offset and the next one. */
  lemma VocabOfSlice(vals: seq<int>, limits: seq<int>, k: nat)
    requires k < |limits|
    requires NonNegative(limits)
    requires |vals| == Sum(limits)
    ensures 0 <= Offset(limits, k) <= Offset(limits, k + 1) <= |vals|
    ensures VocabOf(vals, limits, k) == vals[Offset(limits, k)..Offset(limits, k + 1)]
  {
    OffsetStep(limits, k);
    OffsetBounds(limits, k);
  }

  /** Cutting one more vocabulary appends it to the flattening. */
  lemma SplitSnoc(vals: seq<int>, limits: seq<int>, n: nat)
    requires 0 < n <= |limits|
    requires NonNegative(limits)
    requires |vals| == Sum(limits)
    ensures Flatten(Split(vals, limits, n)) == Flatten(Split(vals, limits, n - 1)) + VocabOf(vals, limits, n - 1)
  {
    var prev := Split(vals, limits, n - 1);
    var vs := Split(vals, limits, n);
    assert vs == prev + [VocabOf(vals, limits, n - 1)];
    assert vs[..n - 1] == prev;
  }

  /** A prefix followed by the slice after it is the longer prefix. */
  lemma SliceConcat<T>(s: seq<T>, x: seq<T>, y: seq<T>, a: nat, b: nat)
    requires a <= b <= |s|
    requires x == s[..a] && y == s[a..b]
    ensures x + y == s[..b]
  {
  }

  // ---------------------------------------------------------------------
  // Lookup

  /** In a vocabulary without repeats, an entry is found exactly at its own position. */
  lemma IndexOfDistinct(s: seq<int>, p: nat)
    requires Distinct(s)
    requires p < |s|
    ensures IndexOf(s, s[p]) == Some(p)
  {
  }

  /** The first entry is always found at position 0. */
  lemma IndexOfFirst(s: seq<int>)
    requires |s| > 0
    ensures IndexOf(s, s[0]) == Some(0)
  {
  }

  /** A value below every entry is never found. */
  lemma IndexOfBelowAll(s: seq<int>, x: int)
    requires NonNegative(s)
    requires x < 0
    ensures IndexOf(s, x) == None
  {
  }
}
