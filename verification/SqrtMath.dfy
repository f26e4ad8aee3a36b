/** The "Karatsuba square root" recurrence on numbers: from the root of the high part of a
    number to the root of the whole. */
module SqrtMath {
  import opened Arith

  /** s is the integer square root of n, and r what is left of n. */
  predicate SqrtRem(n: int, s: int, r: int) {
    n == s * s + r && 0 <= s && 0 <= r <= 2 * s
  }

  /** The two conditions on s and r determine the largest s with s^2 <= n. */
  lemma {:induction false} SqrtRemIsFloor(n: int, s: int, r: int)
    requires SqrtRem(n, s, r)
    ensures s * s <= n < (s + 1) * (s + 1)
    ensures forall t: nat :: t * t <= n ==> t <= s
  {
    assert (s + 1) * (s + 1) == s * s + 2 * s + 1;
    forall t: nat | t * t <= n
      ensures t <= s
    {
      if t >= s + 1 {
        MulLe(s + 1, t, t);
        MulLe(s + 1, t, s + 1);
        assert false;
      }
    }
  }

  /** What one step produces before its final correction. */
  ghost predicate SqrtStepResult(n: int, s: int, r: int) {
    && n == s * s + r && r <= 2 * s
    && (r < 0 ==> SqrtRem(n, s - 1, r + 2 * (s - 1) + 1))
  }

  /** One step: s1, r1 is the root of the high part nh; l is the weight of half the low part,
      a1 and a0 its halves; q and u divide r1 with the next half by 2*s1. */
  lemma {:induction false} SqrtStep(nh: int, s1: int, r1: int, l: int, a1: int, a0: int, q: int, u: int)
    requires SqrtRem(nh, s1, r1)
    requires 0 < l <= 2 * s1 && 0 <= a1 < l && 0 <= a0 < l
    requires r1 * l + a1 == q * (2 * s1) + u && 0 <= u < 2 * s1
    ensures 0 <= q <= l
    ensures SqrtStepResult(nh * (l * l) + a1 * l + a0, s1 * l + q, u * l + a0 - q * q)
    ensures u * l + a0 < 2 * s1 * l
  {
    var s, r, n := s1 * l + q, u * l + a0 - q * q, nh * (l * l) + a1 * l + a0;
    QuotientRange(s1, r1, l, a1, q, u);
    StepIdentity(nh, s1, r1, l, a1, a0, q, u);
    MulLe(u + 1, 2 * s1, l);
    Distrib(u, 1, l);
    MulNonneg(q, q);
    Assoc(2, s1, l);
    if r < 0 {
      assert (s - 1) * (s - 1) == s * s - 2 * s + 1;
      MulNonneg(u, l);
      MulLe(l, 2 * s1, l);
      MulLe(q, l, q);
      MulLe(q, l, l);
      if q == 0 {
        TimesBit(q, q);
        assert false;
      }
    }
  }

  lemma {:induction false} QuotientRange(s1: int, r1: int, l: int, a1: int, q: int, u: int)
    requires 0 <= r1 <= 2 * s1 && 0 < l <= 2 * s1 && 0 <= a1 < l
    requires r1 * l + a1 == q * (2 * s1) + u && 0 <= u < 2 * s1
    ensures 0 <= q <= l
  {
    MulLe(r1, 2 * s1, l);
    MulNonneg(r1, l);
    if q >= l + 1 {
      MulLe(l + 1, q, 2 * s1);
      Distrib(l, 1, 2 * s1);
      assert false;
    }
    if q <= -1 {
      MulLe(q, -1, 2 * s1);
      assert false;
    }
  }

  lemma {:induction false} StepIdentity(nh: int, s1: int, r1: int, l: int, a1: int, a0: int, q: int, u: int)
    requires nh == s1 * s1 + r1
    requires r1 * l + a1 == q * (2 * s1) + u
    ensures nh * (l * l) + a1 * l + a0 == (s1 * l + q) * (s1 * l + q) + (u * l + a0 - q * q)
  {
    var x := s1 * l;
    assert (x + q) * (x + q) == x * x + 2 * (x * q) + q * q;
    assert x * x == s1 * s1 * (l * l);
    Distrib(s1 * s1, r1, l * l);
    Assoc(r1, l, l);
    Distrib(r1 * l, a1, l);
    Distrib(q * (2 * s1), u, l);
    assert q * (2 * s1) * l == 2 * (x * q);
  }
}
