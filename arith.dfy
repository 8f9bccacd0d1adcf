/** Facts of real arithmetic used by the step-limit and interpolation
    proofs: signs of products, monotonicity of multiplication and bounds
    from a quotient. */
module Arith {

  /** The product of non-negative numbers is non-negative. */
  lemma MulNonNegative(a: real, b: real)
    requires a >= 0.0 && b >= 0.0
    ensures a * b >= 0.0
  {
  }

  /** Multiplying by a positive number preserves order. */
  lemma MulMonotone(a: real, b: real, c: real)
    requires c > 0.0
    ensures a <= b ==> a * c <= b * c
    ensures a < b ==> a * c < b * c
  {
    assert b * c - a * c == (b - a) * c;
    if a < b {
      MulStrict(b - a, c);
    }
  }

  /** Swapping the operands of a difference negates a product with it. */
  lemma MulNegate(a: real, x: real, y: real)
    ensures a * (x - y) == -(a * (y - x))
  {
  }

  /** The product of positive numbers is positive. */
  lemma MulStrict(a: real, b: real)
    requires a > 0.0 && b > 0.0
    ensures a * b > 0.0
  {
  }

  /** If lo < a / b <= hi for positive b then lo * b < a <= hi * b. */
  lemma DivBounds(a: real, b: real, hi: real, lo: real)
    requires b > 0.0 && lo < a / b <= hi
    ensures lo * b < a <= hi * b
  {
    var q := a / b;
    assert q * b == a;
    MulMonotone(q, hi, b);
    MulMonotone(lo, q, b);
  }

  /** 0 <= f * d <= d for a non-negative d, with f * d < d when d > 0. */
  lemma ShortOfEnd(f: real, d: real)
    requires 0.0 <= f < 1.0 && d >= 0.0
    ensures 0.0 <= f * d <= d
    ensures d > 0.0 ==> f * d < d
  {
    MulNonNegative(f, d);
    MulNonNegative(1.0 - f, d);
    assert (1.0 - f) * d == d - f * d;
    if d > 0.0 {
      MulStrict(1.0 - f, d);
    }
  }
}
