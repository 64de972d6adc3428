/**
 Mixed-radix arithmetic behind the categorical n-gram index.

 A tuple of digits `d[0], ..., d[n-1]`, where digit `k` ranges over
 `[0, limits[k])`, is packed into one integer in which digit 0 is the least
 significant.  Two equivalent readings are given:

 - `WeightedSum`, the form used by the expected-output loop of the n-gram
   test: digit `k` is weighted by `Base(limits, k)`, the product of the
   limits before it;
 - `Compose`, the Horner form `d[0] + limits[0] * (d[1] + limits[1] * ...)`,
   whose inverse `Decode` peels digits off by repeated `%` and `/`.
 */
module Radix {

  /** Every radix is at least 1. */
  predicate Positive(limits: seq<int>)
  {
    forall k :: 0 <= k < |limits| ==> limits[k] > 0
  }

  /** Every digit lies in `[0, limits[k])`. */
  predicate InRange(digits: seq<int>, limits: seq<int>)
  {
    && |digits| == |limits|
    && forall k :: 0 <= k < |digits| ==> 0 <= digits[k] < limits[k]
  }

  /** Product of all radices: the number of distinct composite indices. */
  function Product(limits: seq<int>): (r: int)
    ensures Positive(limits) ==> r > 0
  {
    if |limits| == 0 then 1
    else
      var n := |limits| - 1;
      var p := Product(limits[..n]);
      assert Positive(limits) ==> p * limits[n] > 0 by {
        if Positive(limits) {
          assert Positive(limits[..n]) by {
            forall k | 0 <= k < n ensures limits[..n][k] > 0 {
              assert limits[..n][k] == limits[k];
            }
          }
          MulPositive(p, limits[n]);
        }
      }
      p * limits[n]
  }

  /** Weight of digit `k`: the product of the radices before it. */
  function Base(limits: seq<int>, k: nat): (b: int)
    requires k <= |limits|
    ensures Positive(limits) ==> b > 0
  {
    assert Positive(limits) ==> Positive(limits[..k]) by {
      if Positive(limits) {
        forall i | 0 <= i < k ensures limits[..k][i] > 0 {
          assert limits[..k][i] == limits[i];
        }
      }
    }
    Product(limits[..k])
  }

  /** Sum of `Base(limits, k) * digits[k]` over the first `n` digits. */
  function WeightedSum(digits: seq<int>, limits: seq<int>, n: nat): (r: int)
    requires |digits| == |limits|
    requires n <= |limits|
    ensures InRange(digits, limits) ==> 0 <= r < Base(limits, n)
  {
    if n == 0 then 0
    else
      var w := WeightedSum(digits, limits, n - 1);
      BaseStep(limits, n - 1);
      assert InRange(digits, limits) ==> 0 <= w + Base(limits, n - 1) * digits[n - 1] < Base(limits, n) by {
        if InRange(digits, limits) {
          TopDigitBound(w, Base(limits, n - 1), digits[n - 1], limits[n - 1]);
        }
      }
      w + Base(limits, n - 1) * digits[n - 1]
  }

  /** Horner form of the same packing, least significant digit first. */
  function Compose(digits: seq<int>, limits: seq<int>): int
    requires |digits| == |limits|
  {
    if |digits| == 0 then 0
    else digits[0] + limits[0] * Compose(digits[1..], limits[1..])
  }

  /** Repeated `%` and `/` by the radices, in order, recovering the digits. */
  function Decode(x: int, limits: seq<int>): (d: seq<int>)
    requires Positive(limits)
    ensures |d| == |limits|
    decreases |limits|
  {
    if |limits| == 0 then []
    else
      var l := limits[0];
      PositiveTail(limits);
      [x % l] + Decode(x / l, limits[1..])
  }

  // ---------------------------------------------------------------------
  // Arithmetic helpers

  lemma MulPositive(a: int, b: int)
    requires a > 0 && b > 0
    ensures a * b > 0
  {
  }

  /** `w + b * d < b * l` whenever `w < b` and `d < l`. */
  lemma TopDigitBound(w: int, b: int, d: int, l: int)
    requires 0 <= w < b
    requires 0 <= d < l
    ensures 0 <= w + b * d < b * l
  {
    assert b * d <= b * (l - 1) by {
      assert b * (l - 1) - b * d == b * (l - 1 - d);
    }
    assert b * (l - 1) + b == b * l;
  }

  /** Packing one digit in front of a number is undone by `%` and `/`. */
  lemma DigitDivMod(d: int, l: int, c: int)
    requires 0 <= d < l
    ensures (d + l * c) % l == d
    ensures (d + l * c) / l == c
  {
    var x := d + l * c;
    var q, r := x / l, x % l;
    assert x == l * q + r;
    DivModUnique(l, c, d, q, r);
  }

  /** Two quotient/remainder splits of the same number coincide. */
  lemma DivModUnique(l: int, q1: int, r1: int, q2: int, r2: int)
    requires 0 <= r1 < l && 0 <= r2 < l
    requires r1 + l * q1 == r2 + l * q2
    ensures q1 == q2 && r1 == r2
  {
    assert l * (q1 - q2) == r2 - r1 by {
      assert l * q1 - l * q2 == l * (q1 - q2);
    }
    if q1 > q2 {
      MulAtLeast(l, q1 - q2);
    } else if q1 < q2 {
      MulAtLeast(l, q2 - q1);
    }
  }

  lemma MulAtLeast(a: int, b: int)
    requires a > 0 && b >= 1
    ensures a * b >= a
  {
    assert a * b == a + a * (b - 1);
  }

  lemma PositiveTail(limits: seq<int>)
    requires |limits| > 0 && Positive(limits)
    ensures Positive(limits[1..])
  {
    forall k | 0 <= k < |limits| - 1 ensures limits[1..][k] > 0 {
      assert limits[1..][k] == limits[k + 1];
    }
  }

  /** Division and modulo split `x` into its low digit and the rest. */
  lemma SplitBound(x: int, l: int, rest: int)
    requires l > 0 && rest > 0
    requires 0 <= x < l * rest
    ensures 0 <= x / l < rest
    ensures x == x % l + l * (x / l)
  {
  }

  // ---------------------------------------------------------------------
  // Products and bases

  /** One more radix multiplies the weight. */
  lemma BaseStep(limits: seq<int>, k: nat)
    requires k < |limits|
    ensures Base(limits, k + 1) == Base(limits, k) * limits[k]
  {
    assert limits[..k + 1][..k] == limits[..k];
  }

  /** A running sum and multiplier advance to the next digit. */
  lemma WeightedSumStep(digits: seq<int>, limits: seq<int>, k: nat, sum: int, mult: int, d: int)
    requires |digits| == |limits|
    requires k < |limits|
    requires sum == WeightedSum(digits, limits, k)
    requires mult == Base(limits, k)
    requires d == digits[k]
    ensures sum + d * mult == WeightedSum(digits, limits, k + 1)
    ensures mult * limits[k] == Base(limits, k + 1)
  {
    BaseStep(limits, k);
  }

  /** The product peeled from the front instead of the back. */
  lemma {:induction false} ProductCons(limits: seq<int>)
    requires |limits| > 0
    ensures Product(limits) == limits[0] * Product(limits[1..])
  {
    var n := |limits| - 1;
    if n == 0 {
      assert limits[1..] == [];
    } else {
      var front, tail := limits[..n], limits[1..];
      ProductCons(front);
      assert front[1..] == tail[..n - 1];
      assert front[0] == limits[0];
      assert tail[n - 1] == limits[n];
      var p := Product(tail[..n - 1]);
      assert Product(limits) == Product(front) * limits[n];
      assert Product(tail) == p * limits[n];
      Associate(limits[0], p, limits[n]);
    }
  }

  lemma Associate(a: int, b: int, c: int)
    ensures (a * b) * c == a * (b * c)
  {
  }

  // ---------------------------------------------------------------------
  // The two readings agree, and Decode inverts them

  /** Appending a most-significant digit adds it at the full product weight. */
  lemma {:induction false} ComposeSnoc(digits: seq<int>, limits: seq<int>, d: int, l: int)
    requires |digits| == |limits|
    ensures Compose(digits + [d], limits + [l]) == Compose(digits, limits) + Product(limits) * d
  {
    if |digits| == 0 {
      assert (digits + [d])[1..] == [];
      assert (limits + [l])[1..] == [];
    } else {
      assert (digits + [d])[1..] == digits[1..] + [d];
      assert (limits + [l])[1..] == limits[1..] + [l];
      ComposeSnoc(digits[1..], limits[1..], d, l);
      ProductCons(limits);
      var c := Compose(digits[1..], limits[1..]);
      var p := Product(limits[1..]);
      assert Compose(digits + [d], limits + [l]) == digits[0] + limits[0] * (c + p * d);
      Distribute(limits[0], c, p, d);
    }
  }

  lemma Distribute(a: int, c: int, p: int, d: int)
    ensures a * (c + p * d) == a * c + (a * p) * d
  {
  }

  /** The weighted sum over the first `n` digits is the Horner form of those digits. */
  lemma {:induction false} WeightedSumIsCompose(digits: seq<int>, limits: seq<int>, n: nat)
    requires |digits| == |limits|
    requires n <= |limits|
    ensures WeightedSum(digits, limits, n) == Compose(digits[..n], limits[..n])
  {
    if n > 0 {
      WeightedSumIsCompose(digits, limits, n - 1);
      ComposeSnoc(digits[..n - 1], limits[..n - 1], digits[n - 1], limits[n - 1]);
      assert digits[..n - 1] + [digits[n - 1]] == digits[..n];
      assert limits[..n - 1] + [limits[n - 1]] == limits[..n];
    }
  }

  /** In-range digits pack into `[0, Product(limits))`. */
  lemma {:induction false} ComposeBound(digits: seq<int>, limits: seq<int>)
    requires InRange(digits, limits)
    ensures 0 <= Compose(digits, limits) < Product(limits)
  {
    if |digits| > 0 {
      ComposeBound(digits[1..], limits[1..]);
      ProductCons(limits);
      TopDigitBound(digits[0], limits[0], Compose(digits[1..], limits[1..]), Product(limits[1..]));
      assert limits[0] * Compose(digits[1..], limits[1..])
          == Compose(digits[1..], limits[1..]) * limits[0];
    }
  }

  /** Decoding a packed tuple of in-range digits gives the digits back. */
  lemma {:induction false} DecodeCompose(digits: seq<int>, limits: seq<int>)
    requires InRange(digits, limits)
    requires Positive(limits)
    ensures Decode(Compose(digits, limits), limits) == digits
  {
    if |digits| > 0 {
      var c := Compose(digits[1..], limits[1..]);
      DigitDivMod(digits[0], limits[0], c);
      DecodeCompose(digits[1..], limits[1..]);
      assert [digits[0]] + digits[1..] == digits;
    }
  }

  /** Every index below the product is the packing of its decoded digits. */
  lemma {:induction false} ComposeDecode(x: int, limits: seq<int>)
    requires Positive(limits)
    requires 0 <= x < Product(limits)
    ensures InRange(Decode(x, limits), limits)
    ensures Compose(Decode(x, limits), limits) == x
    decreases |limits|
  {
    if |limits| > 0 {
      ProductCons(limits);
      SplitBound(x, limits[0], Product(limits[1..]));
      ComposeDecode(x / limits[0], limits[1..]);
      var d := Decode(x, limits);
      assert d[1..] == Decode(x / limits[0], limits[1..]);
    }
  }

  /** Repeated `%` and `/` recover each digit of a weighted sum. */
  lemma DecodeWeightedSum(digits: seq<int>, limits: seq<int>)
    requires InRange(digits, limits)
    requires Positive(limits)
    ensures Decode(WeightedSum(digits, limits, |limits|), limits) == digits
  {
    WeightedSumIsCompose(digits, limits, |limits|);
    assert digits[..|limits|] == digits;
    assert limits[..|limits|] == limits;
    DecodeCompose(digits, limits);
  }

  /** Distinct in-range digit tuples pack to distinct indices, and conversely. */
  lemma WeightedSumInjective(d1: seq<int>, d2: seq<int>, limits: seq<int>)
    requires InRange(d1, limits) && InRange(d2, limits)
    requires Positive(limits)
    ensures WeightedSum(d1, limits, |limits|) == WeightedSum(d2, limits, |limits|) <==> d1 == d2
  {
    if WeightedSum(d1, limits, |limits|) == WeightedSum(d2, limits, |limits|) {
      DecodeWeightedSum(d1, limits);
      DecodeWeightedSum(d2, limits);
    }
  }

  /** Every index in `[0, Product(limits))` is the weighted sum of some in-range tuple. */
  lemma WeightedSumOnto(x: int, limits: seq<int>)
    requires Positive(limits)
    requires 0 <= x < Product(limits)
    ensures InRange(Decode(x, limits), limits)
    ensures WeightedSum(Decode(x, limits), limits, |limits|) == x
  {
    var d := Decode(x, limits);
    ComposeDecode(x, limits);
    WeightedSumIsCompose(d, limits, |limits|);
    assert d[..|limits|] == d;
    assert limits[..|limits|] == limits;
  }
}
