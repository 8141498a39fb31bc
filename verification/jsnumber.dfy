/**
 * JavaScript's `%` operator, which truncates toward zero: the remainder takes
 * the sign of the dividend (Dafny's own `%` never returns a negative value).
 */
module JsNumber {

  /** The quotient JavaScript's `%` pairs with: `Math.trunc(a / b)`. */
  function QuotInt(a: int, b: int): int
    requires b > 0
  {
    if a >= 0 then a / b else -((-a) / b)
  }

  /** `a % b` on integral numbers, for a positive divisor. */
  function RemInt(a: int, b: int): (r: int)
    requires b > 0
    ensures a >= 0 ==> 0 <= r < b
    ensures a < 0 ==> -b < r <= 0
    ensures a == b * QuotInt(a, b) + r
  {
    if a >= 0 then a % b else -((-a) % b)
  }

  /** `Math.trunc(x)`: the integer part of `x`, rounding toward zero. */
  function Trunc(x: real): (k: int)
    ensures 0.0 <= x ==> 0 <= k && k as real <= x < k as real + 1.0
    ensures x < 0.0 ==> k <= 0 && k as real - 1.0 < x <= k as real
  {
    if x >= 0.0 then x.Floor else -((-x).Floor)
  }

  /**
   * `x % m` on numbers, for a positive divisor: `x - m * trunc(x / m)`, exact
   * as JavaScript's is. The remainder differs from the dividend by a whole
   * multiple of the divisor. Its range is stated where the divisor is known.
   */
  function RemReal(x: real, m: real): (r: real)
    requires m > 0.0
    ensures ((x - r) / m).Floor as real == (x - r) / m
  {
    var k := Trunc(x / m);
    var r := x - m * (k as real);
    assert x - r == m * (k as real);
    Multiple(m, k as real);
    assert (x - r) / m == k as real;
    assert (k as real).Floor == k;
    r
  }

  /** A number times `m`, divided by `m`, is that number back. */
  lemma Multiple(m: real, c: real)
    requires m > 0.0
    ensures (m * c) / m == c
  {
  }
}
