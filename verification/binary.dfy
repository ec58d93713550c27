/** Powers of two, left shifts and all-ones binary codes over unbounded integers. */
module Binary {

  /** 2 raised to the power `n`. */
  function Pow2(n: nat): (r: nat)
    ensures 1 <= r
  {
    if n == 0 then 1 else 2 * Pow2(n - 1)
  }

  /** `x << n` for a non-negative shift count: `x` followed by `n` zero bits.
      Shifting back right by `n` (floor division by 2^n) recovers `x`. */
  function ShiftLeft(x: int, n: nat): (r: int)
    ensures r % Pow2(n) == 0
    ensures r / Pow2(n) == x
  {
    var p := Pow2(n);
    MulDivExact(x, p);
    x * p
  }

  /** Dividing a multiple of a positive `p` by `p` is exact. */
  lemma MulDivExact(x: int, p: int)
    requires 0 < p
    ensures (x * p) % p == 0
    ensures (x * p) / p == x
  {
    var q := (x * p) / p;
    var m := (x * p) % p;
    assert p * (x - q) == m by {
      assert x * p == p * q + m;
    }
    NoMultipleBelow(p, x - q);
  }

  /** The only multiple of a positive `p` in the range [0, p) is zero. */
  lemma NoMultipleBelow(p: int, k: int)
    requires 0 < p
    requires 0 <= p * k < p
    ensures k == 0
  {
  }

  /** The `n`-bit code whose every bit is one, built bit by bit. */
  function AllOnes(n: nat): (r: nat)
    ensures r < Pow2(n)
  {
    if n == 0 then 0 else 2 * AllOnes(n - 1) + 1
  }

  /** The all-ones code is 2^n - 1, i.e. `(1 << n) - 1`. */
  lemma {:induction false} AllOnesIsPow2MinusOne(n: nat)
    ensures AllOnes(n) == Pow2(n) - 1
    ensures AllOnes(n) == ShiftLeft(1, n) - 1
  {
    if n > 0 {
      AllOnesIsPow2MinusOne(n - 1);
    }
  }

  /** The all-ones code is the largest code representable in `n` bits. */
  lemma AllOnesIsLargestCode(n: nat, c: int)
    requires 0 <= c < Pow2(n)
    ensures c <= AllOnes(n)
  {
    AllOnesIsPow2MinusOne(n);
  }

  /** Powers of two grow with the exponent. */
  lemma {:induction false} Pow2Monotone(a: nat, b: nat)
    requires a <= b
    ensures Pow2(a) <= Pow2(b)
  {
    if a < b {
      Pow2Monotone(a, b - 1);
    }
  }
}
