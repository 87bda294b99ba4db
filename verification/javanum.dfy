/** Java numeric conversions the transfer code depends on. */
module JavaNum {

  /** Java's `(long)` cast of a double: drops the fraction, rounding toward
      zero (NaN, infinities and overflow are outside the model). */
  function Trunc(x: real): (r: int)
    ensures 0.0 <= x ==> 0 <= r && r as real <= x < r as real + 1.0
    ensures x < 0.0 ==> r <= 0 && r as real - 1.0 < x <= r as real
  {
    if x >= 0.0 then x.Floor else -((-x).Floor)
  }

  /** Truncation never moves a value away from zero and never crosses it. */
  lemma TruncTowardZero(x: real)
    ensures 0.0 <= x ==> 0.0 <= Trunc(x) as real <= x
    ensures x <= 0.0 ==> x <= Trunc(x) as real <= 0.0
  {
  }

  /** A whole number survives the cast unchanged. */
  lemma TruncOfInt(n: int)
    ensures Trunc(n as real) == n
  {
  }

  /** Adding a non-negative amount to a whole number and truncating never
      yields less than the whole number, whatever its sign. */
  lemma TruncAddNonNegative(n: int, a: real)
    requires 0.0 <= a
    ensures n <= Trunc(n as real + a)
  {
  }

  /** Subtracting a non-negative amount from a whole number and truncating
      never yields more than the whole number. */
  lemma TruncSubNonNegative(n: int, a: real)
    requires 0.0 <= a
    ensures Trunc(n as real - a) <= n
  {
  }
}
