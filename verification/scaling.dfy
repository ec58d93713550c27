/** The last step of the recommender: scaling the total maximum by an activity
    ratio and a safety margin and truncating the product to an integer.

    The activity ratio and margin are floats in the original; here they are
    exact reals and the total is converted exactly. For a total of magnitude
    below 2^53 the conversion to float is exact. The two float products then
    round by less than one unit while the magnitude of the product stays below
    2^52, so the truncated float result differs from this model by at most
    one. Beyond that the difference is unbounded: from 2^53 on, the converted
    total itself is rounded and the float result can even exceed the integer
    total. A total beyond the float range makes the original raise
    `OverflowError`, which this model does not have. */
module Scaling {
  import opened Truncation

  /** `x` multiplied by each factor in turn, left to right, as Python evaluates
      `max_total * activity * margin`. The recommender only ever scales by the
      two factors `[activity, margin]` (see `ScaleTwoFactors`); the list form
      lets the bound and monotonicity lemmas below be proved by induction one
      factor at a time instead of on a product of three reals. */
  function Scale(x: real, factors: seq<real>): real
    decreases |factors|
  {
    if |factors| == 0 then x else Scale(x * factors[0], factors[1..])
  }

  /** `int(maxTotal * activity * margin)` over exact reals: the integer nearest
      the exact product on the side of zero. */
  function ScaledThreshold(maxTotal: int, activity: real, margin: real): (t: int)
    ensures var scaled := maxTotal as real * activity * margin;
            && (0.0 <= scaled ==> t as real <= scaled < t as real + 1.0)
            && (scaled < 0.0 ==> t as real - 1.0 < scaled <= t as real)
  {
    ScaleTwoFactors(maxTotal as real, activity, margin);
    TruncTowardZero(Scale(maxTotal as real, [activity, margin]))
  }

  /** Every factor lies in [0, 1]. */
  predicate UnitFactors(factors: seq<real>)
  {
    forall i :: 0 <= i < |factors| ==> 0.0 <= factors[i] <= 1.0
  }

  /** Every factor is non-negative. */
  predicate NonNegativeFactors(factors: seq<real>)
  {
    forall i :: 0 <= i < |factors| ==> 0.0 <= factors[i]
  }

  /** Scaling by the activity ratio and the margin multiplies by both. */
  lemma ScaleTwoFactors(x: real, a: real, b: real)
    ensures Scale(x, [a, b]) == x * a * b
  {
    assert [a, b][1..] == [b];
    assert [b][1..] == [];
    assert [a, b][0] == a;
    assert x * [a, b][0] == x * a;
    assert Scale(x, [a, b]) == Scale(x * [a, b][0], [a, b][1..]);
    calc {
      Scale(x, [a, b]);
      Scale(x * a, [b]);
      Scale(x * a * b, []);
      x * a * b;
    }
  }

  /** Multiplying by a factor in [0, 1] moves a real toward zero without
      crossing it. */
  lemma MulUnitInterval(x: real, a: real)
    requires 0.0 <= a <= 1.0
    ensures 0.0 <= x ==> 0.0 <= x * a <= x
    ensures x <= 0.0 ==> x <= x * a <= 0.0
  {
  }

  /** Multiplying by a non-negative factor preserves order. */
  lemma MulNonNegativeMonotone(x: real, y: real, a: real)
    requires x <= y && 0.0 <= a
    ensures x * a <= y * a
  {
  }

  /** Scaling by factors in [0, 1] moves a real toward zero without crossing it. */
  lemma {:induction false} ScaleWithin(x: real, factors: seq<real>)
    requires UnitFactors(factors)
    ensures 0.0 <= x ==> 0.0 <= Scale(x, factors) <= x
    ensures x <= 0.0 ==> x <= Scale(x, factors) <= 0.0
    decreases |factors|
  {
    if |factors| > 0 {
      var y := x * factors[0];
      assert Scale(x, factors) == Scale(y, factors[1..]);
      MulUnitInterval(x, factors[0]);
      assert UnitFactors(factors[1..]) by {
        forall i | 0 <= i < |factors| - 1
          ensures 0.0 <= factors[1..][i] <= 1.0
        {
          assert factors[1..][i] == factors[i + 1];
        }
      }
      ScaleWithin(y, factors[1..]);
    }
  }

  /** Scaling by non-negative factors preserves order. */
  lemma {:induction false} ScaleMonotone(x: real, y: real, factors: seq<real>)
    requires x <= y
    requires NonNegativeFactors(factors)
    ensures Scale(x, factors) <= Scale(y, factors)
    decreases |factors|
  {
    if |factors| > 0 {
      MulNonNegativeMonotone(x, y, factors[0]);
      assert NonNegativeFactors(factors[1..]) by {
        forall i | 0 <= i < |factors| - 1
          ensures 0.0 <= factors[1..][i]
        {
          assert factors[1..][i] == factors[i + 1];
        }
      }
      ScaleMonotone(x * factors[0], y * factors[0], factors[1..]);
    }
  }

  /** Truncation of a value between 0 and `m` lies between 0 and `m`. */
  lemma TruncWithinInteger(m: int, s: real)
    requires 0 <= m ==> 0.0 <= s <= m as real
    requires m <= 0 ==> m as real <= s <= 0.0
    ensures 0 <= m ==> 0 <= TruncTowardZero(s) <= m
    ensures m <= 0 ==> m <= TruncTowardZero(s) <= 0
  {
    TruncOfInteger(m);
    TruncOfInteger(0);
    if 0 <= m {
      TruncMonotone(0.0, s);
      TruncMonotone(s, m as real);
    } else {
      TruncMonotone(m as real, s);
      TruncMonotone(s, 0.0);
    }
  }

  /** With an activity ratio and a margin in [0, 1], the scaled threshold lies
      between 0 and the total maximum, whatever the sign of the total. */
  lemma ScaledThresholdWithin(maxTotal: int, activity: real, margin: real)
    requires 0.0 <= activity <= 1.0 && 0.0 <= margin <= 1.0
    ensures 0 <= maxTotal ==> 0 <= ScaledThreshold(maxTotal, activity, margin) <= maxTotal
    ensures maxTotal <= 0 ==> maxTotal <= ScaledThreshold(maxTotal, activity, margin) <= 0
  {
    var factors := [activity, margin];
    assert UnitFactors(factors);
    ScaleWithin(maxTotal as real, factors);
    TruncWithinInteger(maxTotal, Scale(maxTotal as real, factors));
  }

  /** For a non-negative activity ratio and margin, a larger total maximum never
      yields a smaller scaled threshold. */
  lemma ScaledThresholdMonotone(m1: int, m2: int, activity: real, margin: real)
    requires m1 <= m2
    requires 0.0 <= activity && 0.0 <= margin
    ensures ScaledThreshold(m1, activity, margin) <= ScaledThreshold(m2, activity, margin)
  {
    var factors := [activity, margin];
    assert NonNegativeFactors(factors);
    ScaleMonotone(m1 as real, m2 as real, factors);
    TruncMonotone(Scale(m1 as real, factors), Scale(m2 as real, factors));
  }

  /** A zero total maximum gives a zero threshold. */
  lemma ScaledThresholdOfZero(activity: real, margin: real)
    ensures ScaledThreshold(0, activity, margin) == 0
  {
    ScaleTwoFactors(0.0, activity, margin);
  }
}
