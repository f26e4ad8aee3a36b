/** Why a quotient read off a product with an approximate reciprocal is never too large, and
    too small by less than ten. */
module LargeDivMath {
  import opened Arith
  import opened RecipMath

  /** inv is a lower approximation of m / b with a bounded error. */
  ghost predicate LowerInverse(inv: int, b: int, m: int) {
    inv * b <= m < (inv + 8) * b
  }

  /** A divisor scaled up to the working precision, so that m * d = n2. */
  lemma {:induction false} InverseOfScaled(inv: int, b: int, d: int, m: int, n2: int)
    requires 0 < d && 0 < b && m * d == n2
    requires Reciprocal(b * d, inv, n2)
    ensures LowerInverse(inv, b, m)
  {
    Assoc(b, d, inv);
    CancelLt(inv * b, m, d);
    Assoc(b, d, inv + 2);
    CancelLt(m, (inv + 2) * b, d);
    Distrib(inv + 2, 6, b);
  }

  /** A truncated divisor, incremented so that its inverse stays below the exact one. */
  lemma {:induction false} InverseOfTruncated(inv: int, b: int, bh: int, bl: int, d: int, m: int, n: int)
    requires 0 < d && 0 <= bh && 0 <= bl < d && b == bh * d + bl
    requires m == n * n * d && 2 <= n && n * d <= 2 * b && 0 <= inv <= 2 * n
    requires inv * (bh + 1) <= n * n < (bh + 1) * (inv + 2)
    ensures LowerInverse(inv, b, m)
  {
    var t := bh + 1;
    Distrib(bh, 1, d);
    TruncatedLow(inv, b, t, d, m, n * n);
    TruncatedHigh(inv, b, t, d, m, n * n, n);
  }

  lemma {:induction false} TruncatedLow(inv: int, b: int, t: int, d: int, m: int, n2: int)
    requires b <= t * d && m == n2 * d && 0 <= inv && 0 < d && inv * t <= n2
    ensures inv * b <= m
  {
    MulLe(b, t * d, inv);
    Assoc(inv, t, d);
    MulLe(inv * t, n2, d);
  }

  lemma {:induction false} TruncatedHigh(inv: int, b: int, t: int, d: int, m: int, n2: int, n: int)
    requires t * d <= b + d && m == n2 * d && 0 <= inv <= 2 * n && 0 < d
    requires 2 <= n && n * d <= 2 * b && n2 < t * (inv + 2)
    ensures m < (inv + 8) * b
  {
    MulLt(n2, t * (inv + 2), d);
    Assoc(t, inv + 2, d);
    MulLe(t * d, b + d, inv + 2);
    Distrib(b, d, inv + 2);
    MulLe(inv + 2, 2 * n + 2, d);
    Distrib(2 * n, 2, d);
    Assoc(2, n, d);
    MulLe(2, n, d);
    Distrib(inv + 2, 6, b);
  }

  /** The quotient estimate. aTop is a without its low limbs of weight p, and q the product of
      aTop with the inverse without its low limbs of weight s. */
  lemma {:induction false} QuotientEstimate(a: int, aTop: int, aLow: int, inv: int, b: int, q: int, rem: int, p: int,
          s: int, m: int)
    requires 0 < b && 0 < p && 0 < s && m == p * s && 0 <= aTop && 0 <= inv
    requires LowerInverse(inv, b, m)
    requires a == aTop * p + aLow && 0 <= aLow < p
    requires inv * aTop == q * s + rem && 0 <= rem < s && 0 <= q
    requires p * inv <= m && a <= m
    ensures 0 <= a - q * b < 10 * b
  {
    MulNonneg(aTop, p);
    MulLe(1, p, s);
    EstimateLow(a, aTop, aLow, inv, b, q, rem, p, s, m);
    EstimateHigh(a, aTop, aLow, inv, b, q, rem, p, s, m);
  }

  lemma {:induction false} EstimateLow(a: int, aTop: int, aLow: int, inv: int, b: int, q: int, rem: int, p: int,
          s: int, m: int)
    requires 0 < b && 0 < p && 0 < m && m == p * s && 0 <= a
    requires inv * b <= m
    requires a == aTop * p + aLow && 0 <= aLow && 0 <= inv
    requires inv * aTop == q * s + rem && 0 <= rem
    ensures q * b <= a
  {
    assert q * m <= inv * a by {
      MulLe(q * s, inv * aTop, p);
      Assoc(q, s, p);
      Assoc(inv, aTop, p);
      MulLe(aTop * p, a, inv);
    }
    MulLe(q * m, inv * a, b);
    Assoc(q, m, b);
    Assoc(q, b, m);
    Assoc(inv, a, b);
    Assoc(a, inv, b);
    MulLe(inv * b, m, a);
    CancelLe(q * b, a, m);
  }

  lemma {:induction false} EstimateHigh(a: int, aTop: int, aLow: int, inv: int, b: int, q: int, rem: int, p: int,
          s: int, m: int)
    requires 0 < b && 0 < p && 0 < m && m == p * s && 0 <= a
    requires m < (inv + 8) * b
    requires a == aTop * p + aLow && aLow < p && 0 <= inv
    requires inv * aTop == q * s + rem && rem < s && 0 <= q
    requires p * inv <= m && a <= m
    ensures a < q * b + 10 * b
  {
    assert a * (inv + 8) < (q + 10) * m by {
      ScaledDividend(a, aTop, aLow, inv, q, rem, p, s, m);
      Distrib(inv, 8, a);
      Distrib(q, 10, m);
    }
    Distrib(q, 10, b);
    if a >= (q + 10) * b {
      MulLe(1, q + 10, b);
      MulLe((q + 10) * b, a, m);
      Assoc(q + 10, b, m);
      Assoc(q + 10, m, b);
      MulLe(m, (inv + 8) * b, a);
      Assoc(a, inv + 8, b);
      MulLt(a * (inv + 8), (q + 10) * m, b);
      assert false;
    }
  }

  lemma {:induction false} ScaledDividend(a: int, aTop: int, aLow: int, inv: int, q: int, rem: int, p: int, s: int,
          m: int)
    requires 0 < p && m == p * s && a == aTop * p + aLow && aLow < p && 0 <= inv
    requires inv * aTop == q * s + rem && rem < s
    requires p * inv <= m
    ensures a * inv < q * m + 2 * m
  {
    MulLe(a, aTop * p + p, inv);
    Distrib(aTop * p, p, inv);
    Assoc(inv, aTop, p);
    MulLe(inv * aTop + 1, q * s + s, p);
    Distrib(inv * aTop, 1, p);
    Distrib(q * s, s, p);
    Assoc(q, s, p);
  }
}
