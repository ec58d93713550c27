/** Conversion of a real number to an integer by truncation toward zero,
    the behaviour of Python's `int()` applied to a float. */
module Truncation {

  /** The integer part of `x`: the integer closest to `x` on the side of zero. */
  function TruncTowardZero(x: real): (r: int)
    ensures 0.0 <= x ==> r as real <= x < r as real + 1.0
    ensures x < 0.0 ==> r as real - 1.0 < x <= r as real
  {
    if 0.0 <= x || x.Floor as real == x then x.Floor else x.Floor + 1
  }

  /** An integral real truncates to itself. */
  lemma TruncOfInteger(n: int)
    ensures TruncTowardZero(n as real) == n
  {
  }

  /** Truncation toward zero is monotone. */
  lemma TruncMonotone(x: real, y: real)
    requires x <= y
    ensures TruncTowardZero(x) <= TruncTowardZero(y)
  {
    var a, b := TruncTowardZero(x), TruncTowardZero(y);
    if 0.0 <= x {
      assert (b as real) + 1.0 > a as real;
    } else if y < 0.0 {
      assert (a as real) - 1.0 < b as real;
    } else {
      assert a <= 0 <= b;
    }
  }
}
