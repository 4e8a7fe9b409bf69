/** The few facts about products and floor division that the solver needs told. */
module Arithmetic {

  lemma MulLe(x: int, y: int, d: nat)
    ensures x <= y ==> x * d <= y * d
  {
  }

  /** `a / d` is the unique quotient. */
  lemma DivIs(a: nat, d: nat, q: nat)
    requires d > 0 && q * d <= a < q * d + d
    ensures a / d == q
  {
    var r := a / d;
    assert a == r * d + a % d;
    MulLe(r + 1, q, d);
    MulLe(q + 1, r, d);
  }

  /** The defining inequality of floor division. */
  lemma DivBounds(a: nat, d: nat)
    requires d > 0
    ensures 0 <= (a / d) * d <= a < (a / d) * d + d
  {
    assert a == (a / d) * d + a % d;
  }

  /** Floor division is monotone in the dividend. */
  lemma DivMonotone(a: nat, b: nat, d: nat)
    requires a <= b && d > 0
    ensures a / d <= b / d
  {
    DivBounds(a, d);
    DivBounds(b, d);
    MulLe(b / d + 1, a / d, d);
  }

  /** A quotient does not exceed its dividend. */
  lemma QuotientBelow(a: nat, d: nat)
    requires d > 0
    ensures 0 <= a / d <= a
  {
    DivBounds(a, d);
    MulLe(a + 1, a / d, d);
    assert (a + 1) * d == a * d + d;
    MulLe(1, d, a);
    DivNonNegative(a, d);
  }

  lemma DivNonNegative(a: nat, d: nat)
    requires d > 0
    ensures 0 <= a / d
  {
    DivBounds(a, d);
    MulLe(a / d, -1, d);
  }

  /** Halving a floored quotient floors the doubled divisor. */
  lemma HalveDiv(a: nat, d: nat)
    requires d > 0
    ensures a / d / 2 == a / (2 * d)
  {
    DivNonNegative(a, d);
    var q := a / d;
    var h, r := q / 2, q % 2;
    DivBounds(a, d);
    calc {
      q * d;
      (2 * h + r) * d;
      h * (2 * d) + r * d;
    }
    MulLe(r, 1, d);
    MulLe(0, r, d);
    DivIs(a, 2 * d, h);
  }

  lemma MulMonotone(a: nat, b: nat, c: nat, d: nat)
    requires a <= c && b <= d
    ensures a * b <= c * d
  {
    MulLe(a, c, b);
    MulLe(b, d, c);
  }

  function Pow2(k: nat): (r: nat)
    ensures r > 0
  {
    if k == 0 then 1 else 2 * Pow2(k - 1)
  }

  lemma {:induction false} Pow2Adds(j: nat, k: nat)
    ensures Pow2(j + k) == Pow2(j) * Pow2(k)
  {
    if j > 0 {
      Pow2Adds(j - 1, k);
      DoubleProduct(Pow2(j - 1), Pow2(k));
    }
  }

  lemma DoubleProduct(a: nat, b: nat)
    ensures 2 * (a * b) == (2 * a) * b
  {
  }
}
