/**
 * Fixed-point decimals as Java's `BigDecimal.setScale(n, RoundingMode.HALF_UP)`
 * produces them: an integer count of units of 10^-n.
 */
module Decimals {

  function Pow10(n: nat): (r: nat)
    ensures r >= 1
  {
    if n == 0 then 1 else 10 * Pow10(n - 1)
  }

  /**
   * `x` rounded to `scale` decimals, ties away from zero (HALF_UP), as a
   * count of units of 10^-scale. A non-negative value rounds to a
   * non-negative count; `RoundHalfUpIsNearest` states how close it is.
   */
  function RoundHalfUp(x: real, scale: nat): (n: int)
    ensures x >= 0.0 ==> n >= 0
    ensures x < 0.0 ==> n <= 0
  {
    var y := x * (Pow10(scale) as real);
    if y >= 0.0 then (y + 0.5).Floor else -((-y + 0.5).Floor)
  }

  /**
   * The count is the integer nearest to `x * 10^scale`; a tie goes up for
   * non-negative `x` and down for negative `x`.
   */
  lemma RoundHalfUpIsNearest(x: real, scale: nat)
    ensures x >= 0.0 ==> -0.5 < (RoundHalfUp(x, scale) as real) - x * (Pow10(scale) as real) <= 0.5
    ensures x < 0.0 ==> -0.5 <= (RoundHalfUp(x, scale) as real) - x * (Pow10(scale) as real) < 0.5
  {
    var y := x * (Pow10(scale) as real);
    assert x >= 0.0 <==> y >= 0.0;
  }

  /** The real value of a count of units of 10^-scale. */
  function ValueOf(n: int, scale: nat): real
  {
    (n as real) / (Pow10(scale) as real)
  }

  /** Rounding a value that already has `scale` decimals gives it back. */
  lemma RoundHalfUpExact(n: int, scale: nat)
    ensures RoundHalfUp(ValueOf(n, scale), scale) == n
  {
    var p := Pow10(scale) as real;
    assert ValueOf(n, scale) * p == n as real;
    RoundHalfUpIsNearest(ValueOf(n, scale), scale);
  }
}
