/** Mixed-radix arithmetic behind the Q-table indices: the running products
    of `Agent::Agent` and the weighted sum of `Agent::convertActionToIndex`.
    Digit 0 is the least significant. */
module Radix {

  /** Left-to-right product of the factors, 1 for no factors: the shape of
      the accumulators `numOfStates`, `numOfActions` and `factor`. */
  ghost function Product(xs: seq<int>): int
  {
    if xs == [] then 1 else Product(xs[..|xs| - 1]) * xs[|xs| - 1]
  }

  /** Extending a prefix by one factor multiplies the product by it. */
  lemma ProductStep(xs: seq<int>, k: nat)
    requires k < |xs|
    ensures Product(xs[..k + 1]) == Product(xs[..k]) * xs[k]
  {
    assert xs[..k + 1][..k] == xs[..k];
  }

  /** Factors that are all at least 1 give a product of at least 1. */
  lemma {:induction false} ProductPositive(xs: seq<int>)
    requires forall i :: 0 <= i < |xs| ==> xs[i] >= 1
    ensures Product(xs) >= 1
  {
    if xs != [] {
      var n := |xs|;
      ProductPositive(xs[..n - 1]);
      MulAtLeastOne(Product(xs[..n - 1]), xs[n - 1]);
    }
  }

  /** A single zero factor makes the product 0. */
  lemma {:induction false} ProductZero(xs: seq<int>, i: int)
    requires 0 <= i < |xs| && xs[i] == 0
    ensures Product(xs) == 0
  {
    if i < |xs| - 1 {
      ProductZero(xs[..|xs| - 1], i);
    }
  }

  lemma MulAtLeastOne(a: int, b: int)
    requires a >= 1 && b >= 1
    ensures a * b >= 1
  {
  }

  /** Every digit lies in [0, radix) for the radix at its position. */
  ghost predicate InRange(digits: seq<int>, radices: seq<int>)
  {
    |digits| <= |radices| &&
    forall i :: 0 <= i < |digits| ==> 0 <= digits[i] < radices[i]
  }

  /** The sum of digits[i] * Product(radices[..i]) over all positions i. */
  ghost function Encode(digits: seq<int>, radices: seq<int>): int
    requires |digits| <= |radices|
  {
    if digits == [] then 0
    else
      var n := |digits|;
      Encode(digits[..n - 1], radices) + digits[n - 1] * Product(radices[..n - 1])
  }

  /** Appending a digit adds it weighted by the product of the radices before it. */
  lemma EncodeStep(digits: seq<int>, radices: seq<int>, k: nat)
    requires k < |digits| <= |radices|
    ensures Encode(digits[..k + 1], radices) == Encode(digits[..k], radices) + digits[k] * Product(radices[..k])
  {
    assert digits[..k + 1][..k] == digits[..k];
  }

  /** All-zero digits encode to 0. */
  lemma {:induction false} EncodeZeros(digits: seq<int>, radices: seq<int>)
    requires |digits| <= |radices|
    requires forall i :: 0 <= i < |digits| ==> digits[i] == 0
    ensures Encode(digits, radices) == 0
  {
    if digits != [] {
      EncodeZeros(digits[..|digits| - 1], radices);
    }
  }

  /** Digits in range encode into [0, product of the radices they use). */
  lemma {:induction false} EncodeBounds(digits: seq<int>, radices: seq<int>)
    requires InRange(digits, radices)
    ensures 0 <= Encode(digits, radices) < Product(radices[..|digits|])
  {
    if digits != [] {
      var n := |digits|;
      var pre := digits[..n - 1];
      EncodeBounds(pre, radices);
      var p := Product(radices[..n - 1]);
      var low := Encode(pre, radices);
      var d := digits[n - 1];
      ProductStep(radices, n - 1);
      assert 0 <= low < p;
      DigitBound(low, d, p, radices[n - 1]);
    }
  }

  /** The carry step of a mixed-radix bound: low + d * p < r * p. */
  lemma DigitBound(low: int, d: int, p: int, r: int)
    requires 0 <= low < p && 0 <= d < r
    ensures 0 <= low + d * p < p * r
  {
    assert d * p <= (r - 1) * p;
  }

  /** The first n digits of x in the given radices; inverse of Encode. */
  ghost function Decode(x: int, radices: seq<int>, n: nat): (digits: seq<int>)
    requires n <= |radices|
    requires forall i :: 0 <= i < n ==> radices[i] >= 1
    ensures |digits| == n
    decreases n
  {
    if n == 0 then []
    else
      ProductPositive(radices[..n - 1]);
      var p := Product(radices[..n - 1]);
      Decode(x % p, radices, n - 1) + [x / p]
  }

  /** x = q * p + r with 0 <= r < p fixes the quotient and remainder. */
  lemma DivModUnique(x: int, p: int, q: int, r: int)
    requires p > 0 && 0 <= r < p && x == q * p + r
    ensures x / p == q && x % p == r
  {
    var q', r' := x / p, x % p;
    assert q' * p + r' == q * p + r;
    assert (q' - q) * p == r - r' by {
      assert (q' - q) * p == q' * p - q * p;
    }
    if q' - q >= 1 {
      MulAtLeast(q' - q, p);
    } else if q - q' >= 1 {
      MulAtLeast(q - q', p);
    }
  }

  lemma MulAtLeast(a: int, p: int)
    requires a >= 1 && p > 0
    ensures a * p >= p
  {
  }

  /** Decoding an encoding gives back the digits: the round trip. */
  lemma {:induction false} DecodeEncode(digits: seq<int>, radices: seq<int>)
    requires InRange(digits, radices)
    ensures Decode(Encode(digits, radices), radices, |digits|) == digits
  {
    if digits != [] {
      var n := |digits|;
      var pre := digits[..n - 1];
      var p := Product(radices[..n - 1]);
      var low := Encode(pre, radices);
      EncodeBounds(pre, radices);
      DivModUnique(Encode(digits, radices), p, digits[n - 1], low);
      DecodeEncode(pre, radices);
      assert digits == pre + [digits[n - 1]];
    }
  }

  /** Two digit vectors of the same length, both in range, with the same
      encoding are equal. */
  lemma EncodeInjective(a: seq<int>, b: seq<int>, radices: seq<int>)
    requires InRange(a, radices) && InRange(b, radices) && |a| == |b|
    requires Encode(a, radices) == Encode(b, radices)
    ensures a == b
  {
    DecodeEncode(a, radices);
    DecodeEncode(b, radices);
  }
}
