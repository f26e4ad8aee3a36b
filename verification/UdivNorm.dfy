/** Two-limb by one-limb division through a precomputed reciprocal, and the one-limb
    divisor case of long division. */
module UdivNorm {
  import opened Arith
  import opened Limbs
  import opened LimbOps
  import opened LimbMul

  const UDIV1NORM_THRESHOLD := 3

  type Divisor = d: Limb | d >= HALF_B witness HALF_B

  /** The reciprocal word: floor((B^2 - 1) / d) - B, computed from the complement of d. */
  function UdivInit(d: Divisor): (m: Limb)
    ensures (m + B) * d < BB <= (m + B) * d + d
  {
    var a1: Limb := (-(d as int) - 1) % B;
    var a0: Limb := B - 1;
    var n: int := a1 * B + a0;
    InitBound(d, n);
    n / d
  }

  lemma {:induction false} InitBound(d: Divisor, n: int)
    requires n == BB - 1 - d * B
    ensures 0 <= n / d < B && (n / d + B) * d < BB <= (n / d + B) * d + d
  {
    DivMod(n, d);
    var q: int := n / d;
    Distrib(q, B, d);
    if q >= B {
      MulLe(B, q, d);
      assert false;
    }
  }

  /** Quotient and remainder of a1*B + a0 by d, with every intermediate word wrapping. */
  function Udiv(a1: Limb, a0: Limb, d: Divisor, m: Limb): (r: (Limb, Limb))
    requires a1 < d
    requires (m + B) * d < BB <= (m + B) * d + d
    ensures r.0 == (a1 * B + a0) / d && r.1 == (a1 * B + a0) % d
  {
    var q := UdivEstimate(a1, a0, d, m);
    var n: int := a1 * B + a0;
    var a: int := (n - q * d - d) % BB;
    var ah := a / B;
    Correction(n, d, q, q * d);
    ((q + 1 + ah) % B, (a % B + (if ah != 0 then d else 0)) % B)
  }

  /** The quotient or one less: the high word of a product with the reciprocal, where the
      sign bit of a0 selects between two roundings. */
  function UdivEstimate(a1: Limb, a0: Limb, d: Divisor, m: Limb): (q: Limb)
    requires a1 < d
    requires (m + B) * d < BB <= (m + B) * d + d
    ensures 0 <= a1 * B + a0 - q * d < 2 * d
  {
    var (a2, nAdj) := SignAdjust(a1, a0, d);
    ProductBound(m, a2);
    var p: int := m * a2;
    assert p + nAdj < BB;
    var x: int := (p + nAdj) % BB;
    assert x == p + nAdj;
    Estimate(a1, a0, d, m, a2, nAdj, x);
    (x / B + a1) % B
  }

  /** a1 - n1m and a0 + (n1m & d), where n1m is the sign mask of a0. */
  function SignAdjust(a1: Limb, a0: Limb, d: Divisor): (r: (Limb, Limb))
    requires a1 < d
    ensures r == if a0 >= HALF_B then (a1 + 1, a0 - (B - d)) else (a1, a0)
  {
    var n1m: Limb := if a0 >= HALF_B then B - 1 else 0;
    ((a1 - n1m) % B, (a0 + (if n1m != 0 then d else 0)) % B)
  }

  /** The first estimate is the quotient or one less. */
  lemma {:induction false} Estimate(a1: Limb, a0: Limb, d: Divisor, m: Limb, a2: Limb, nAdj: Limb, x: int)
    requires a1 < d
    requires (m + B) * d < BB <= (m + B) * d + d
    requires (a2, nAdj) == if a0 >= HALF_B then (a1 + 1, a0 - (B - d)) else (a1, a0)
    requires x == m * a2 + nAdj
    ensures var q := x / B + a1; 0 <= q < B && 0 <= a1 * B + a0 - q * d < 2 * d
  {
    var e := if a0 >= HALF_B then 1 else 0;
    var delta := BB - (m + B) * d;
    var q, rem := x / B + a1, x % B;
    EstimateIdentity(a1, a0, d, m, e, delta, nAdj, x, q, rem);
    EstimateBound(a1, a0, d, e, delta, nAdj, rem);
    MulNonneg(m, a2);
    var n := a1 * B + a0;
    assert 0 <= B * (n - q * d) < 2 * d * B;
    if q >= B {
      MulLe(B, q, d);
      assert false;
    }
  }

  /** B times the error of the estimate, written as a sum of non-negative terms. */
  lemma {:induction false} EstimateIdentity(a1: int, a0: int, d: int, m: int, e: int, delta: int, nAdj: int, x: int,
          q: int, rem: int)
    requires (m + B) * d == BB - delta
    requires e == 0 || e == 1
    requires nAdj == a0 - e * (B - d)
    requires x == m * (a1 + e) + nAdj
    requires (q - a1) * B + rem == x
    ensures B * (a1 * B + a0 - q * d) == (B - d) * nAdj + delta * (a1 + e) + d * rem
  {
    var a2 := a1 + e;
    assert m * d == BB - delta - B * d;
    var md := m * d;
    calc {
      B * (q * d);
      { Assoc(q, B, d); Assoc(B, q, d); }
      (q * B) * d;
      { assert q * B == a1 * B + x - rem; }
      (a1 * B + x - rem) * d;
      { Distrib(a1 * B + x, rem, d); Distrib(a1 * B, x, d); Assoc(a1, B, d); Assoc(B, a1, d); }
      B * (a1 * d) + x * d - rem * d;
    }
    calc {
      x * d;
      { Distrib(m * a2, nAdj, d); }
      m * a2 * d + nAdj * d;
      { Assoc(m, a2, d); Assoc(m, d, a2); }
      md * a2 + nAdj * d;
      { Distrib(BB - B * d, delta, a2); Distrib(BB, B * d, a2); Assoc(B, d, a2); }
      BB * a2 - B * (d * a2) - delta * a2 + nAdj * d;
    }
    Distrib(a1, e, d);
    Distrib(B, d, nAdj);
    if e == 1 { } else { }
  }

  lemma {:induction false} EstimateBound(a1: Limb, a0: Limb, d: Divisor, e: int, delta: int, nAdj: Limb, rem: int)
    requires a1 < d && 1 <= delta <= d
    requires e == (if a0 >= HALF_B then 1 else 0)
    requires nAdj == a0 - e * (B - d)
    requires 0 <= rem < B
    ensures 0 <= (B - d) * nAdj + delta * (a1 + e) + d * rem < 2 * d * B
  {
    var f: int := B - d;
    var a2 := a1 + e;
    MulNonneg(f, nAdj);
    MulNonneg(delta, a2);
    MulNonneg(d, rem);
    MulLe(delta, d, a2);
    MulLe(rem, B - 1, d);
    if e == 1 {
      MulLe(a2, d, d);
      MulLe(nAdj, d - 1, f);
      Distrib(B, d, d - 1);
      Distrib(d, 1, d);
    } else {
      MulLe(a2, d - 1, d);
      Distrib(d, 1, d);
      MulLe(nAdj, HALF_B - 1, f);
      var t: int := d - HALF_B;
      assert d * d == HALF_B * HALF_B + B * t + t * t;
      MulLe(t, HALF_B, t);
    }
  }

  /** The final adjustment turns the estimate into the exact quotient and remainder. */
  lemma {:induction false} Correction(n: int, d: Divisor, q: Limb, qd: int)
    requires qd == q * d && 0 <= n - qd < 2 * d && n < d * B
    ensures var a := (n - qd - d) % BB;
            var ah := a / B;
            && (q + 1 + ah) % B == n / d
            && (a % B + (if ah != 0 then d else 0)) % B == n % d
  {
    var a := (n - qd - d) % BB;
    if n - qd - d >= 0 {
      assert a == n - qd - d && a / B == 0;
      Distrib(q, 1, d);
      DivModUnique(n, d, q + 1, a);
      if q + 1 >= B { MulLe(B, q + 1, d); assert false; }
    } else {
      assert a == n - qd - d + BB;
      assert a / B == B - 1;
      DivModUnique(n, d, q, n - qd);
    }
  }

  /** q[] = (r0*B^n + a[]) / b, most significant limb first; returns the remainder. From
      UDIV1NORM_THRESHOLD limbs on, the reciprocal replaces the hardware division. */
  method MpDiv1norm(q: array<Limb>, qo: nat, a: array<Limb>, ao: nat, n: nat, b: Divisor, r0: Limb)
    returns (r: Limb)
    requires qo + n <= q.Length && ao + n <= a.Length
    requires q == a ==> qo >= ao || qo + n <= ao
    requires r0 < b
    modifies q
    ensures r < b
    ensures old(Val(a[ao..ao + n])) + r0 * Pow(n) == Val(q[qo..qo + n]) * b + r
    ensures SameOutside(old(q[..]), q[..], qo, qo + n)
  {
    hide Val;
    hide Pow;
    hide Udiv;
    hide UdivInit;
    ghost var s := a[ao..ao + n];
    r := r0;
    var i := n;
    NoLimbs(r);
    assert q[qo + n..qo + n] == [] && s[n..] == [];
    var large := n >= UDIV1NORM_THRESHOLD;
    var m: Limb := if large then UdivInit(b) else 0;
    while i > 0
      invariant 0 <= i <= n
      invariant r < b
      invariant forall j :: 0 <= j < i ==> a[ao + j] == s[j]
      invariant SameOutside(old(q[..]), q[..], qo + i, qo + n)
      invariant Val(s[i..]) + r0 * Pow(n - i) == Val(q[qo + i..qo + n]) * b + r
    {
      i := i - 1;
      ghost var done := q[qo + (i + 1)..qo + n];
      assert a[ao + i] == s[i];
      var y, r' := Div1Step(r, a[ao + i], b, m, large);
      QuotientStep(s, i, done, b, r0, r, y, r');
      q[qo + i] := y;
      r := r';
      assert q[qo + i..qo + n] == [y] + done;
    }
    assert s[0..] == s;
  }

  method Div1Step(r: Limb, x: Limb, b: Divisor, m: Limb, large: bool) returns (y: Limb, r': Limb)
    requires r < b
    requires large ==> (m + B) * b < BB <= (m + B) * b + b
    ensures r * B + x == y * b + r' && r' < b
  {
    hide Udiv;
    var n: int := r * B + x;
    DivMod(n, b);
    if n / b >= B { MulLe(B, n / b, b); assert false; }
    if large {
      var (y', r1) := Udiv(r, x, b, m);
      y, r' := y', r1;
    } else {
      y, r' := n / b, n % b;
    }
  }

  lemma {:induction false} QuotientStep(s: seq<Limb>, i: nat, done: seq<Limb>, b: int, r0: int, r: int, y: Limb,
          r': int)
    requires i < |s| && |done| == |s| - i - 1
    requires Val(s[i + 1..]) + r0 * Pow(|s| - i - 1) == Val(done) * b + r
    requires r * B + s[i] == y * b + r'
    ensures Val(s[i..]) + r0 * Pow(|s| - i) == Val([y] + done) * b + r'
  {
    hide *;
    assert s[i..] == [s[i]] + s[i + 1..];
    ConsVal(s[i], s[i + 1..]);
    ConsVal(y, done);
    PowStep(|s| - i - 1);
    Assoc(r0, B, Pow(|s| - i - 1));
    Distrib(y, B * Val(done), b);
    Assoc(B, Val(done), b);
  }
}
