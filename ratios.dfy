/** Facts about the ratios of counts that GLOD's scores are made of. */
module Ratios {

  /** a / b. Kept behind a function so that the solver meets the (nonlinear)
      division only where a proof unfolds it. */
  function Quotient(a: real, b: real): real
    requires b != 0.0
  {
    a / b
  }

  /** k / n for 0 <= k <= n and n > 0 lies in [0, 1], is 0 exactly for k = 0
      and 1 exactly for k = n. */
  lemma CountRatio(k: nat, n: nat)
    requires k <= n && n > 0
    ensures 0.0 <= k as real / n as real <= 1.0
    ensures k as real / n as real == 0.0 <==> k == 0
    ensures k as real / n as real == 1.0 <==> k == n
  {
    var r := k as real / n as real;
    assert r * n as real == k as real;
  }

  /** Dividing by a common positive denominator keeps the order. */
  lemma DivMonotone(a: real, b: real, d: real)
    requires a <= b && d > 0.0
    ensures a / d <= b / d
  {
    assert a / d * d == a && b / d * d == b;
  }

  lemma DivByAtLeastOne(m: real, d: real)
    requires m >= 0.0 && d >= 1.0
    ensures 0.0 <= m / d <= m
    ensures m > 0.0 ==> m / d > 0.0
  {
    assert m / d * d == m;
  }

  /** A positive quotient by a larger denominator lies in (0, 1]. */
  lemma DivAtMostOne(a: real, d: real)
    requires 0.0 < a <= d
    ensures 0.0 < a / d <= 1.0
  {
    assert a / d * d == a;
  }

  /** A quotient whose numerator lies in [0, d] lies in [0, 1]. */
  lemma QuotientFraction(a: real, d: real)
    requires d > 0.0 && 0.0 <= a <= d
    ensures 0.0 <= Quotient(a, d) <= 1.0
  {
    assert Quotient(a, d) * d == a;
  }

  /** A quotient whose numerator lies in [-d, d] lies in [-1, 1]. */
  lemma QuotientUnit(a: real, d: real)
    requires d > 0.0 && -d <= a <= d
    ensures -1.0 <= Quotient(a, d) <= 1.0
  {
    assert Quotient(a, d) * d == a;
  }

  /** A quotient of two positive values is positive. */
  lemma QuotientPositive(a: real, d: real)
    requires a > 0.0 && d > 0.0
    ensures Quotient(a, d) > 0.0
  {
    var q := Quotient(a, d);
    assert q * d == a;
    if q <= 0.0 {
      MulNonneg(-q, d);
    }
  }

  lemma MulNonneg(x: real, y: real)
    requires x >= 0.0 && y >= 0.0
    ensures x * y >= 0.0
  {
  }

  /** A value in [-1, 1] scaled by a factor in [0, 1] stays in [-1, 1]. */
  lemma ProductUnit(a: real, f: real)
    requires -1.0 <= a <= 1.0 && 0.0 <= f <= 1.0
    ensures -1.0 <= a * f <= 1.0
  {
    if a >= 0.0 {
      MulNonneg(a, f);
      MulNonneg(1.0 - a, f);
    } else {
      MulNonneg(-a, f);
      MulNonneg(1.0 + a, f);
    }
  }

  /** 1/(a*b) == (1/a)*(1/b). */
  lemma ReciprocalProduct(a: real, b: real)
    requires a != 0.0 && b != 0.0
    ensures Quotient(1.0, a * b) == Quotient(1.0, a) * Quotient(1.0, b)
  {
    var qa := Quotient(1.0, a);
    var qb := Quotient(1.0, b);
    assert qa * a == 1.0 && qb * b == 1.0;
    assert (qa * qb) * (a * b) == (qa * a) * (qb * b);
  }
}
