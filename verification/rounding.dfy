/**
 * Exact rounding. The calculator rounds with JavaScript's Math.round, which
 * returns the integer nearest to its argument and breaks ties toward positive
 * infinity. The model works on exact reals, so the result is floor(x + 1/2).
 */
module Rounding {

  /** Math.round on an exact value: the nearest integer, halves rounded up. */
  function Round(x: real): (r: int)
    ensures r as real - 0.5 <= x < r as real + 0.5
  {
    (x + 0.5).Floor
  }

  /** Round(n / d) computed with integers only: the nearest integer to n/d, halves rounded up. */
  function RoundDiv(n: int, d: int): (r: int)
    requires d > 0
    ensures 2 * d * r - d <= 2 * n < 2 * d * r + d
    ensures n >= 0 ==> r >= 0
  {
    var q := (2 * n + d) / (2 * d);
    DivBounds(2 * n + d, 2 * d);
    q
  }

  /** Euclidean division leaves a remainder in [0, d). */
  lemma DivBounds(a: int, d: int)
    requires d > 0
    ensures d * (a / d) <= a < d * (a / d) + d
  {
  }

  /** Two integers within half a unit of the same value (ties counted up) are equal. */
  lemma {:induction false} NearestIsUnique(x: real, r: int, s: int)
    requires r as real - 0.5 <= x < r as real + 0.5
    requires s as real - 0.5 <= x < s as real + 0.5
    ensures r == s
  {
  }

  /** The integer form agrees with rounding the exact quotient. */
  lemma {:induction false} RoundDivIsRound(n: int, d: int)
    requires d > 0
    ensures RoundDiv(n, d) == Round(n as real / d as real)
  {
    var r := RoundDiv(n, d);
    assert r * (2 * d) <= 2 * n + d < (r + 1) * (2 * d);
    QuotientBounds(2 * n + d, 2 * d, r, r + 1);
    HalfShift(n, d);
    NearestIsUnique(n as real / d as real, r, Round(n as real / d as real));
  }

  /** An integer range for m, scaled by d, bounds the exact quotient m / d. */
  lemma QuotientBounds(m: int, d: int, lo: int, hi: int)
    requires d > 0
    requires lo * d <= m < hi * d
    ensures lo as real <= m as real / d as real < hi as real
  {
    var q := m as real / d as real;
    assert q * d as real == m as real;
  }

  /** (2n + d) / 2d is n / d shifted by one half. */
  lemma HalfShift(n: int, d: int)
    requires d > 0
    ensures (2 * n + d) as real / (2 * d) as real == n as real / d as real + 0.5
  {
    var a, dr := n as real / d as real, d as real;
    var num, den := (2 * n + d) as real, (2 * d) as real;
    assert num == 2.0 * n as real + dr;
    assert den == 2.0 * dr;
    assert a * dr == n as real;
    assert (a + 0.5) * (2.0 * dr) == 2.0 * (a * dr) + dr;
    DivideOut(a + 0.5, num, den);
  }

  /** x * k == y with k positive means x is y / k. */
  lemma DivideOut(x: real, y: real, k: real)
    requires k > 0.0
    requires x * k == y
    ensures x == y / k
  {
  }

  /** Rounding a quotient is monotone in the numerator. */
  lemma {:induction false} RoundDivMonotone(a: int, b: int, d: int)
    requires d > 0
    requires a <= b
    ensures RoundDiv(a, d) <= RoundDiv(b, d)
  {
    var ra, rb := RoundDiv(a, d), RoundDiv(b, d);
    if ra > rb {
      assert 2 * d * ra - d < 2 * d * rb + d;
      assert 2 * d * (ra - rb) < 2 * d * 1;
      assert ra - rb >= 1;
      MulMonotone(2 * d, 1, ra - rb);
      assert false;
    }
  }

  /** Scaling numerator and denominator by the same positive factor does not change the rounded quotient. */
  lemma {:induction false} RoundDivScale(n: int, d: int, k: int)
    requires d > 0 && k > 0
    ensures RoundDiv(n * k, d * k) == RoundDiv(n, d)
  {
    var s := RoundDiv(n * k, d * k);
    var lo, mid, hi := 2 * d * s - d, 2 * n, 2 * d * s + d;
    assert lo * k <= mid * k < hi * k by {
      ScaleBounds(n, d, s, k);
    }
    CancelScale(lo, mid, k);
    CancelScaleStrict(mid, hi, k);
    NearestQuotientUnique(n, d, s, RoundDiv(n, d));
  }

  /** The rounding bounds of s for (n * k) / (d * k), with the factor k pulled out. */
  lemma ScaleBounds(n: int, d: int, s: int, k: int)
    requires d > 0 && k > 0
    requires 2 * (d * k) * s - d * k <= 2 * (n * k) < 2 * (d * k) * s + d * k
    ensures (2 * d * s - d) * k <= (2 * n) * k < (2 * d * s + d) * k
  {
    assert (2 * d * s - d) * k == 2 * (d * k) * s - d * k;
    assert (2 * n) * k == 2 * (n * k);
    assert (2 * d * s + d) * k == 2 * (d * k) * s + d * k;
  }

  /** A positive factor can be cancelled from an inequality. */
  lemma CancelScale(a: int, b: int, k: int)
    requires k > 0
    requires a * k <= b * k
    ensures a <= b
  {
    if a > b {
      MulMonotone(k, b + 1, a);
    }
  }

  /** A positive factor can be cancelled from a strict inequality. */
  lemma CancelScaleStrict(a: int, b: int, k: int)
    requires k > 0
    requires a * k < b * k
    ensures a < b
  {
    if a >= b {
      MulMonotone(k, b, a);
    }
  }

  /** At most one integer lies within half a unit of n / d, ties counted up. */
  lemma {:induction false} NearestQuotientUnique(n: int, d: int, r: int, s: int)
    requires d > 0
    requires 2 * d * r - d <= 2 * n < 2 * d * r + d
    requires 2 * d * s - d <= 2 * n < 2 * d * s + d
    ensures r == s
  {
    if r < s {
      MulMonotone(2 * d, r + 1, s);
    } else if s < r {
      MulMonotone(2 * d, s + 1, r);
    }
  }

  /** A quotient of at least one half rounds to a positive integer. */
  lemma {:induction false} RoundDivPositive(n: int, d: int)
    requires d > 0
    requires 2 * n >= d
    ensures RoundDiv(n, d) >= 1
  {
    var r := RoundDiv(n, d);
    if r <= 0 {
      MulMonotone(2 * d, r, 0);
      assert false;
    }
  }

  /** Multiplying by a positive factor preserves order. */
  lemma MulMonotone(k: int, x: int, y: int)
    requires k > 0
    requires x <= y
    ensures k * x <= k * y
  {
  }
}
