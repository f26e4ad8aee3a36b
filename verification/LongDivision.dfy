/** Long division of limb arrays: schoolbook, and for large operands by a Newton reciprocal
    whose own base case is schoolbook division. */
module LongDivision {
  import opened Arith
  import opened Limbs
  import opened LimbOps
  import opened LimbMul
  import opened UdivNorm
  import opened DivStep
  import opened RecipMath
  import opened RecipSteps
  import opened LargeDivMath
  import opened LargeDivSteps

  const DIVNORM_LARGE_THRESHOLD := 50

  /** Are both the quotient and the divisor long enough for the reciprocal? */
  predicate IsLarge(na: nat, nb: nat) {
    na - nb >= DIVNORM_LARGE_THRESHOLD && nb >= DIVNORM_LARGE_THRESHOLD
  }

  /** A normalised divisor leaves at most a 1 in the top limb of the quotient. */
  lemma {:induction false} TopQuotientLimb(a: seq<Limb>, q: seq<Limb>, b: seq<Limb>, rem: int)
    requires Normalized(b) && |a| >= |b| && |q| == |a| - |b| + 1
    requires Val(a) == Val(q) * Val(b) + rem && 0 <= rem
    ensures q[|q| - 1] <= 1
  {
    hide *;
    assert |b| > 0 by { assert Normalized(b); TopOf(b); }
    var n := |q| - 1;
    var top := q[n];
    ValBound(a);
    NormalizedBound(b);
    TopLimb(q);
    PowAdd(n, |b|);
    var p := Pow(n);
    Assoc(2, Val(b), p);
    Assoc(2, p, Val(b));
    MulLe(Pow(|b|), 2 * Val(b), p);
    if top >= 2 {
      MulLe(2, top, p);
      MulLe(2 * p, Val(q), Val(b));
      assert false;
    }
  }

  lemma {:induction false} TopOf(b: seq<Limb>)
    requires Normalized(b)
    ensures |b| > 0
  {
  }

  // ----- schoolbook -----

  /** The quotient limbs below the first, from the top down. */
  method SchoolbookLimbs(q: array<Limb>, qo: nat, a: array<Limb>, ao: nat, n: nat, b: array<Limb>, bo: nat, nb: nat)
    requires q != a && q != b && a != b && nb >= 2
    requires qo + n + 1 <= q.Length && ao + n + nb <= a.Length && bo + nb <= b.Length
    requires Normalized(b[bo..bo + nb])
    requires Val(a[ao + n..ao + n + nb]) < Val(b[bo..bo + nb])
    modifies q, a
    ensures Val(a[ao..ao + nb]) < Val(b[bo..bo + nb])
    ensures old(Val(a[ao..ao + n + nb])) == Val(q[qo..qo + n]) * Val(b[bo..bo + nb]) + Val(a[ao..ao + nb])
    ensures SameOutside(old(q[..]), q[..], qo, qo + n)
    ensures SameOutside(old(a[..]), a[..], ao, ao + n + nb)
  {
    hide Val;
    hide Pow;
    hide Normalized;
    hide Udiv;
    hide UdivInit;
    ghost var bs := b[bo..bo + nb];
    ghost var s := a[ao..ao + n + nb];
    var b1 := TopDivisorLimb(b, bo, nb);
    var inverse := n >= UDIV1NORM_THRESHOLD;
    var b1Inv: Limb := if inverse then UdivInit(b1) else 0;
    var i := n;
    StartQuotient(s, bs, q[qo + n..qo + n], n);
    assert a[ao..ao + n + nb] == s;
    assert SameOutside(q[..], q[..], qo + n, qo + n) && SameOutside(a[..], a[..], ao + n, ao + n + nb);
    hide SameOutside;
    while i > 0
      invariant 0 <= i <= n
      invariant SameOutside(old(q[..]), q[..], qo + i, qo + n)
      invariant SameOutside(old(a[..]), a[..], ao + i, ao + n + nb)
      invariant Val(a[ao + i..ao + i + nb]) < Val(bs)
      invariant Val(s) == Pow(i) * (Val(q[qo + i..qo + n]) * Val(bs)) + Val(a[ao..ao + i + nb])
    {
      i := i - 1;
      ghost var was, wasQ := a[..], q[..];
      NextQuotient(q, qo, a, ao, n, i, b, bo, nb, b1, b1Inv, inverse, Val(s));
      SameChain(old(q[..]), wasQ, q[..], qo + i, qo + n, qo + i + 1, qo + n, qo + i, qo + i + 1);
      SameChain(old(a[..]), was, a[..], ao + i, ao + n + nb, ao + i + 1, ao + n + nb, ao + i, ao + i + nb + 1);
    }
    FinishQuotient(Val(q[qo..qo + n]) * Val(bs));
  }

  /** The next lower quotient limb i of a dividend v. */
  method NextQuotient(q: array<Limb>, qo: nat, a: array<Limb>, ao: nat, n: nat, i: nat, b: array<Limb>, bo: nat,
          nb: nat, b1: Divisor, b1Inv: Limb, inverse: bool, ghost v: int)
    requires q != a && q != b && a != b && nb >= 2 && i < n
    requires qo + n + 1 <= q.Length && ao + n + nb <= a.Length && bo + nb <= b.Length
    requires b1 == b[bo + nb - 1]
    requires inverse ==> (b1Inv + B) * b1 < BB <= (b1Inv + B) * b1 + b1
    requires Val(a[ao + i + 1..ao + i + 1 + nb]) < Val(b[bo..bo + nb])
    requires v == Pow(i + 1) * (Val(q[qo + i + 1..qo + n]) * Val(b[bo..bo + nb])) + Val(a[ao..ao + i + 1 + nb])
    modifies q, a
    ensures Val(a[ao + i..ao + i + nb]) < Val(b[bo..bo + nb])
    ensures v == Pow(i) * (Val(q[qo + i..qo + n]) * Val(b[bo..bo + nb])) + Val(a[ao..ao + i + nb])
    ensures SameOutside(old(q[..]), q[..], qo + i, qo + i + 1)
    ensures SameOutside(old(a[..]), a[..], ao + i, ao + i + nb + 1)
  {
    hide Val;
    hide Pow;
    hide SameOutside;
    ghost var bs, done := b[bo..bo + nb], q[qo + i + 1..qo + n];
    ghost var was, before := a[..], a[ao..ao + i + 1 + nb];
    assert before[i..] == a[ao + i..ao + i + nb + 1];
    var y := QuotientLimb(a, ao + i, b, bo, nb, b1, b1Inv, inverse);
    StoreOutside(q[..], qo + i, y);
    q[qo + i] := y;
    ghost var after := a[ao..ao + i + nb];
    SameSlice(was, a[..], ao + i, ao + i + nb + 1, ao, ao + i);
    assert before[..i] == was[ao..ao + i] && after[..i] == a[..][ao..ao + i];
    assert after[i..] == a[ao + i..ao + i + nb];
    NextQuotientLimb(before, after, i, done, y, bs);
    assert q[qo + i..qo + n] == [y] + done;
  }

  /** One quotient limb: the estimate, the multiply-and-subtract, and its correction. */
  method QuotientLimb(a: array<Limb>, wo: nat, b: array<Limb>, bo: nat, nb: nat, b1: Divisor, b1Inv: Limb,
          inverse: bool)
    returns (y: Limb)
    requires a != b && nb >= 2 && wo + nb + 1 <= a.Length && bo + nb <= b.Length
    requires b1 == b[bo + nb - 1]
    requires inverse ==> (b1Inv + B) * b1 < BB <= (b1Inv + B) * b1 + b1
    requires Val(a[wo + 1..wo + 1 + nb]) < Val(b[bo..bo + nb])
    modifies a
    ensures Val(a[wo..wo + nb]) < Val(b[bo..bo + nb])
    ensures old(Val(a[wo..wo + nb + 1])) == y * Val(b[bo..bo + nb]) + Val(a[wo..wo + nb])
    ensures SameOutside(old(a[..]), a[..], wo, wo + nb + 1)
  {
    hide Val;
    hide Pow;
    ghost var window, bs := a[wo..wo + nb + 1], b[bo..bo + nb];
    assert window[1..] == a[wo + 1..wo + 1 + nb];
    y := EstimateLimb(a[wo + nb], a[wo + nb - 1], b1, b1Inv, inverse);
    EstimateNotTooSmall(window, bs, y);
    y := ReduceWindow(a, wo, b, bo, nb, y);
  }

  method TopDivisorLimb(b: array<Limb>, bo: nat, nb: nat) returns (b1: Divisor)
    requires bo + nb <= b.Length && nb > 0
    requires Normalized(b[bo..bo + nb])
    ensures b1 == b[bo + nb - 1]
  {
    b1 := b[bo + nb - 1];
  }

  /** Quotient limb estimate from the two leading limbs of the window. */
  method EstimateLimb(t: Limb, u: Limb, b1: Divisor, b1Inv: Limb, inverse: bool) returns (q: Limb)
    requires inverse ==> (b1Inv + B) * b1 < BB <= (b1Inv + B) * b1 + b1
    ensures if t >= b1 then q == B - 1 else q == (t * B + u) / b1
  {
    hide Udiv;
    if t >= b1 {
      q := B - 1;
    } else if inverse {
      var (q', _) := Udiv(t, u, b1, b1Inv);
      q := q';
    } else {
      var al: int := t * B + u;
      DivMod(al, b1);
      if al / b1 >= B { MulLe(B, al / b1, b1); assert false; }
      q := al / b1;
    }
  }

  lemma {:induction false} StartQuotient(s: seq<Limb>, b: seq<Limb>, q: seq<Limb>, n: nat)
    requires q == []
    ensures Val(s) == Pow(n) * (Val(q) * Val(b)) + Val(s)
  {
    assert Val(q) * Val(b) == 0;
  }

  lemma {:induction false} FinishQuotient(x: int)
    ensures Pow(0) * x == x
  {
  }

  lemma {:induction false} NextQuotientLimb(before: seq<Limb>, after: seq<Limb>, i: nat, done: seq<Limb>, y: Limb,
          b: seq<Limb>)
    requires i <= |after| && |before| == |after| + 1 && after[..i] == before[..i]
    requires Val(before[i..]) == y * Val(b) + Val(after[i..])
    ensures Pow(i + 1) * (Val(done) * Val(b)) + Val(before)
         == Pow(i) * (Val([y] + done) * Val(b)) + Val(after)
  {
    hide *;
    ValSplit(before, i);
    ValSplit(after, i);
    ConsVal(y, done);
    PowStep(i);
    QuotientLimbArith(Pow(i), Pow(i + 1), Val(done), Val([y] + done), Val(b), y,
                      Val(before[..i]), Val(before[i..]), Val(after[i..]));
  }

  lemma {:induction false} QuotientLimbArith(p: int, p1: int, d: int, d1: int, b: int, y: int, low: int, w: int,
          w': int)
    requires w == y * b + w' && p1 == B * p && d1 == y + B * d
    ensures p1 * (d * b) + (low + p * w) == p * (d1 * b) + (low + p * w')
  {
    Distrib(y * b, w', p);
    Distrib(y, B * d, b);
    Assoc(B, d, b);
    Distrib(y * b, B * (d * b), p);
    Assoc(B, p, d * b);
  }

  /** One-limb divisors take the quotient limb by limb. */
  method DivnormOneLimb(q: array<Limb>, qo: nat, a: array<Limb>, ao: nat, na: nat, b: array<Limb>, bo: nat)
    requires q != a && q != b && a != b && na >= 1
    requires qo + na <= q.Length && ao + na <= a.Length && bo + 1 <= b.Length
    requires Normalized(b[bo..bo + 1])
    modifies q, a
    ensures Val(a[ao..ao + 1]) < Val(b[bo..bo + 1])
    ensures old(Val(a[ao..ao + na])) == Val(q[qo..qo + na]) * Val(b[bo..bo + 1]) + Val(a[ao..ao + 1])
    ensures SameOutside(old(q[..]), q[..], qo, qo + na)
    ensures SameOutside(old(a[..]), a[..], ao, ao + na)
  {
    hide Val;
    hide Pow;
    var b1 := TopDivisorLimb(b, bo, 1);
    var r := MpDiv1norm(q, qo, a, ao, na, b1, 0);
    a[ao] := r;
    assert b[bo..bo + 1] == [b1] && a[ao..ao + 1] == [r];
    ValOne(b1);
    ValOne(r);
    assert 0 * Pow(na) == 0;
  }

  /** Schoolbook division by two limbs or more. */
  method DivnormBasecase(q: array<Limb>, qo: nat, a: array<Limb>, ao: nat, na: nat, b: array<Limb>, bo: nat, nb: nat)
    requires q != a && q != b && a != b && na >= nb >= 2
    requires qo + (na - nb + 1) <= q.Length && ao + na <= a.Length && bo + nb <= b.Length
    requires Normalized(b[bo..bo + nb])
    modifies q, a
    ensures Val(a[ao..ao + nb]) < Val(b[bo..bo + nb])
    ensures old(Val(a[ao..ao + na])) == Val(q[qo..qo + (na - nb + 1)]) * Val(b[bo..bo + nb]) + Val(a[ao..ao + nb])
    ensures SameOutside(old(q[..]), q[..], qo, qo + (na - nb + 1))
    ensures SameOutside(old(a[..]), a[..], ao, ao + na)
  {
    hide Val;
    hide Pow;
    hide Normalized;
    var n := na - nb;
    ghost var s, bs := a[ao..ao + na], b[bo..bo + nb];
    assert s[n..] == a[ao + n..ao + n + nb];
    var c := FirstQuotient(a, ao + n, b, bo, nb);
    q[qo + n] := c;
    ghost var was := a[..];
    if c != 0 {
      var borrow := MpSub(a, ao + n, a, ao + n, b, bo, nb, 0);
      FirstBorrow(s[n..], a[ao + n..ao + n + nb], bs, borrow);
    }
    ghost var s' := a[ao..ao + n + nb];
    assert s'[n..] == a[ao + n..ao + n + nb];
    SameSlice(was, a[..], ao + n, ao + n + nb, ao, ao + n);
    assert s'[..n] == a[..][ao..ao + n] && s[..n] == was[ao..ao + n];
    FirstRemainder(s[n..], bs);
    SchoolbookLimbs(q, qo, a, ao, n, b, bo, nb);
    assert q[qo..qo + (n + 1)] == q[qo..qo + n] + [c];
    FirstLimb(s, s', n, c, q[qo..qo + n], bs, Val(a[ao..ao + nb]));
  }

  lemma {:induction false} FirstBorrow(s: seq<Limb>, t: seq<Limb>, b: seq<Limb>, borrow: int)
    requires |s| == |t| && |s| == |b| && 0 <= borrow <= 1
    requires Val(s) >= Val(b) && Val(t) == Val(s) - Val(b) - 0 + Pow(|s|) * borrow
    ensures Val(t) == Val(s) - Val(b)
  {
    hide *;
    ValBound(t);
    TimesBit(Pow(|s|), borrow);
  }

  lemma {:induction false} FirstRemainder(s: seq<Limb>, b: seq<Limb>)
    requires |s| == |b| && Normalized(b)
    ensures Val(s) < 2 * Val(b)
  {
    hide *;
    ValBound(s);
    NormalizedBound(b);
  }

  lemma {:induction false} FirstLimb(s: seq<Limb>, s': seq<Limb>, n: nat, c: Limb, qlow: seq<Limb>, b: seq<Limb>,
          rem: int)
    requires n <= |s| && |s'| == |s| && s'[..n] == s[..n] && |qlow| == n
    requires Val(s'[n..]) == Val(s[n..]) - c * Val(b)
    requires Val(s') == Val(qlow) * Val(b) + rem
    ensures Val(s) == Val(qlow + [c]) * Val(b) + rem
  {
    hide *;
    ValSplit(s, n);
    ValSplit(s', n);
    ValSnoc(qlow, c);
    FirstLimbArith(Pow(n), Val(s[..n]), Val(s[n..]), Val(s'[n..]), c, Val(b), Val(qlow), Val(qlow + [c]), rem);
  }

  lemma {:induction false} FirstLimbArith(p: int, low: int, high: int, high': int, c: int, b: int, q: int, q1: int,
          rem: int)
    requires high' == high - c * b && q1 == q + p * c
    requires low + p * high' == q * b + rem
    ensures low + p * high == q1 * b + rem
  {
    Distrib(high, c * b, p);
    Distrib(q, p * c, b);
    Assoc(p, c, b);
  }

  /** Divides the na limbs of a by the nb limbs of b. The quotient has na - nb + 1 limbs, the
      remainder replaces the low nb limbs of a. */
  method MpDivnorm(q: array<Limb>, qo: nat, a: array<Limb>, ao: nat, na: nat, b: array<Limb>, bo: nat, nb: nat)
    requires q != a && q != b && a != b && na >= nb >= 1
    requires qo + (na - nb + 1) <= q.Length && ao + na <= a.Length && bo + nb <= b.Length
    requires Normalized(b[bo..bo + nb])
    modifies q, a
    ensures Val(a[ao..ao + nb]) < Val(b[bo..bo + nb])
    ensures old(Val(a[ao..ao + na])) == Val(q[qo..qo + (na - nb + 1)]) * Val(b[bo..bo + nb]) + Val(a[ao..ao + nb])
    ensures q[qo + na - nb] <= 1
    ensures SameOutside(old(q[..]), q[..], qo, qo + (na - nb + 1))
    ensures SameOutside(old(a[..]), a[..], ao, ao + na)
    decreases if IsLarge(na, nb) then 3 else 0, 0
  {
    hide Val;
    hide Pow;
    hide Normalized;
    ghost var s := a[ao..ao + na];
    if nb == 1 {
      DivnormOneLimb(q, qo, a, ao, na, b, bo);
      assert na - nb + 1 == na;
    } else if IsLarge(na, nb) {
      MpDivnormLarge(q, qo, a, ao, na, b, bo, nb);
    } else {
      DivnormBasecase(q, qo, a, ao, na, b, bo, nb);
    }
    TopQuotientLimb(s, q[qo..qo + (na - nb + 1)], b[bo..bo + nb], Val(a[ao..ao + nb]));
  }

  // ----- Newton reciprocal -----

  /** r[] = about B^(2n) / a: an (n + 1)-limb reciprocal with top limb 1. */
  method MpRecip(r: array<Limb>, ro: nat, a: array<Limb>, ao: nat, n: nat)
    requires r != a && n >= 1
    requires ro + n + 1 <= r.Length && ao + n <= a.Length
    requires Normalized(a[ao..ao + n])
    modifies r
    ensures Reciprocal(Val(a[ao..ao + n]), Val(r[ro..ro + n + 1]), Pow(2 * n))
    ensures r[ro + n] == 1
    ensures SameOutside(old(r[..]), r[..], ro, ro + n + 1)
    decreases 1, n + 1
  {
    hide Val;
    hide Pow;
    hide Normalized;
    hide Reciprocal;
    if n <= 2 {
      RecipBase(r, ro, a, ao, n);
    } else {
      var l := (n - 1) / 2;
      var h := n - l;
      HighHalfNormalized(a[ao..ao + n], l);
      assert a[ao..ao + n][l..] == a[ao + l..ao + l + h];
      MpRecip(r, ro + l, a, ao + l, h);
      RecipExtend(r, ro, a, ao, n, l, h);
    }
  }

  /** For n <= 2: the quotient of B^(2n) by a, less one when the division is exact. */
  method RecipBase(r: array<Limb>, ro: nat, a: array<Limb>, ao: nat, n: nat)
    requires r != a && 1 <= n <= 2
    requires ro + n + 1 <= r.Length && ao + n <= a.Length
    requires Normalized(a[ao..ao + n])
    modifies r
    ensures Reciprocal(Val(a[ao..ao + n]), Val(r[ro..ro + n + 1]), Pow(2 * n))
    ensures r[ro + n] == 1
    ensures SameOutside(old(r[..]), r[..], ro, ro + n + 1)
    decreases 1, 1
  {
    hide Val;
    hide Pow;
    hide Normalized;
    hide Reciprocal;
    ghost var s := a[ao..ao + n];
    var t, exact := PowerQuotient(a, ao, n);
    ghost var q := t[..];
    CopyLimbs(r, ro, t, 0, n + 1);
    assert r[ro..ro + (n + 1)] == q[..n + 1];
    if exact {
      var k := MpSubUi(r, ro, 1, n + 1);
      NoBorrow(q[..n + 1], r[ro..ro + (n + 1)], 1, k);
    }
    BaseReciprocal(Val(s), Val(q), Pow(2 * n) - Val(q) * Val(s), Pow(2 * n), Val(r[ro..ro + (n + 1)]));
    TopIsOne(s, r[ro..ro + (n + 1)], n);
  }

  /** The quotient of B^(2n) by a one- or two-limb a, and whether the division is exact. */
  method PowerQuotient(a: array<Limb>, ao: nat, n: nat) returns (t: array<Limb>, exact: bool)
    requires 1 <= n <= 2 && ao + n <= a.Length
    requires Normalized(a[ao..ao + n])
    ensures fresh(t) && t.Length == n + 2
    ensures Val(t[..n + 1]) == Val(t[..]) && 1 <= Val(t[..])
    ensures 0 <= Pow(2 * n) - Val(t[..]) * Val(a[ao..ao + n]) < Val(a[ao..ao + n])
    ensures exact <==> Pow(2 * n) == Val(t[..]) * Val(a[ao..ao + n])
    decreases 1, 0
  {
    hide Val;
    hide Pow;
    hide Normalized;
    ghost var s := a[ao..ao + n];
    var u := new Limb[2 * n + 1];
    t := new Limb[n + 2];
    ZeroLimbs(u, 0, 2 * n);
    u[2 * n] := 1;
    PowerLimbs(u[..], 2 * n);
    assert u[..] == u[0..0 + (2 * n + 1)];
    MpDivnorm(t, 0, u, 0, 2 * n + 1, a, ao, n);
    assert t[..] == t[0..0 + (2 * n + 1 - n + 1)];
    BaseQuotient(s, t[..], Val(u[0..0 + n]), n);
    var nz := MpScanNz(u, 0, n);
    exact := !nz;
  }

  lemma {:induction false} PowerLimbs(u: seq<Limb>, m: nat)
    requires |u| == m + 1 && u[m] == 1 && forall j :: 0 <= j < m ==> u[j] == 0
    ensures Val(u) == Pow(m)
  {
    hide *;
    TopLimb(u);
    ValZeros(u[..m]);
    assert u[..|u| - 1] == u[..m];
  }

  lemma {:induction false} BaseQuotient(a: seq<Limb>, q: seq<Limb>, rem: int, n: nat)
    requires Normalized(a) && |a| == n >= 1 && |q| == n + 2
    requires Pow(2 * n) == Val(q) * Val(a) + rem && 0 <= rem < Val(a)
    ensures Val(q[..n + 1]) == Val(q) && 1 <= Val(q)
  {
    hide Val;
    hide Pow;
    hide Normalized;
    NormalizedBound(a);
    PowAdd(n, n);
    assert n + n == 2 * n;
    BaseQuotientBound(Val(a), Val(q), Pow(n));
    ReachesTop(q, n + 1);
    PowStep(n);
    TopLimb(q);
    var top: int := q[n + 1];
    assert top == 0;
    assert Pow(n + 1) * top == 0;
    assert q[..|q| - 1] == q[..n + 1];
    if Val(q) <= 0 {
      assert Val(q) * Val(a) == 0;
      MulLe(1, Pow(n), Pow(n));
      assert false;
    }
  }

  lemma {:induction false} TopIsOne(a: seq<Limb>, x: seq<Limb>, n: nat)
    requires Normalized(a) && |a| == n && |x| == n + 1
    requires Reciprocal(Val(a), Val(x), Pow(2 * n))
    ensures x[n] == 1 && Pow(n) <= Val(x) < 2 * Pow(n)
  {
    hide *;
    NormalizedBound(a);
    PowAdd(n, n);
    assert n + n == 2 * n;
    ReciprocalRange(Val(a), Val(x), Pow(n));
    ReachesTop(x, n);
  }

  lemma {:induction false} HighHalfNormalized(s: seq<Limb>, l: nat)
    requires Normalized(s) && l < |s|
    ensures Normalized(s[l..])
  {
  }

  // ----- division by reciprocal -----

  /** Subquadratic division: multiply by an approximate reciprocal of the divisor from below,
      then correct the quotient upwards. */
  method MpDivnormLarge(q: array<Limb>, qo: nat, a: array<Limb>, ao: nat, na: nat, b: array<Limb>, bo: nat, nb: nat)
    requires q != a && q != b && a != b && na > nb >= 1
    requires qo + (na - nb + 1) <= q.Length && ao + na <= a.Length && bo + nb <= b.Length
    requires Normalized(b[bo..bo + nb])
    modifies q, a
    ensures Val(a[ao..ao + nb]) < Val(b[bo..bo + nb])
    ensures old(Val(a[ao..ao + na])) == Val(q[qo..qo + (na - nb + 1)]) * Val(b[bo..bo + nb]) + Val(a[ao..ao + nb])
    ensures SameOutside(old(q[..]), q[..], qo, qo + (na - nb + 1))
    ensures SameOutside(old(a[..]), a[..], ao, ao + na)
    decreases 2, 0
  {
    hide Val;
    hide Pow;
    hide Normalized;
    hide LowerInverse;
    var nq := na - nb;
    var n := if nq < nb then nq + 1 else nq;
    ghost var s, bs := a[ao..ao + na], b[bo..bo + nb];
    var inv := LargeInverse(b, bo, nb, n);
    LargeQuotient(q, qo, a, ao, na, nb, inv, n, bs);
    var t := new Limb[na + 1];
    MpMul(t, 0, q, qo, nq + 1, b, bo, nb);
    assert t[..] == t[0..0 + (nq + 1) + nb];
    assert s[..nb + 1] == a[ao..ao + (nb + 1)] && t[..nb + 1] == t[0..0 + (nb + 1)];
    var k := MpSub(a, ao, a, ao, t, 0, nb + 1, 0);
    LargeRemainder(s, bs, t[..], a[ao..ao + (nb + 1)], k);
    LargeFixup(q, qo, nq, a, ao, b, bo, nb, Val(s));
  }

  lemma {:induction false} LargeRemainder(a: seq<Limb>, b: seq<Limb>, t: seq<Limb>, r: seq<Limb>, k: int)
    requires Normalized(b) && |a| > |b| && |t| == |a| + 1 && |r| == |b| + 1
    requires 0 <= Val(a) - Val(t) < 10 * Val(b)
    requires Val(r) == Val(a[..|b| + 1]) - Val(t[..|b| + 1]) - 0 + Pow(|b| + 1) * k
    ensures Val(a) == Val(t) + Val(r)
    ensures Val(a) < Pow(|a|)
  {
    hide Val;
    hide Pow;
    hide Normalized;
    ValBound(b);
    ValBound(a);
    PowStep(|b|);
    LowDifference(a, t, |b| + 1, r, k);
  }

  /** The quotient estimate: high limbs of the product of the inverse with the top of a. */
  method LargeQuotient(q: array<Limb>, qo: nat, a: array<Limb>, ao: nat, na: nat, nb: nat, inv: array<Limb>, n: nat,
          ghost bs: seq<Limb>)
    requires q != a && q != inv && |bs| == nb && na > nb >= 1 && n == (if na - nb < nb then na - nb + 1 else na - nb)
    requires qo + (na - nb + 1) <= q.Length && ao + na <= a.Length && inv.Length == n + 1
    requires 0 < Val(bs)
    requires LowerInverse(Val(inv[..]), Val(bs), Pow(n + nb)) && Val(inv[..]) <= 2 * Pow(n)
    modifies q
    ensures 0 <= Val(a[ao..ao + na]) - Val(q[qo..qo + (na - nb + 1)]) * Val(bs) < 10 * Val(bs)
    ensures SameOutside(old(q[..]), q[..], qo, qo + (na - nb + 1))
  {
    hide Val;
    hide Pow;
    hide LowerInverse;
    var nq := na - nb;
    var t := new Limb[2 * (n + 1)];
    MpMul(t, 0, inv, 0, n + 1, a, ao + na - (n + 1), n + 1);
    ghost var ts := t[..];
    assert ts == t[0..0 + (n + 1) + (n + 1)] && inv[..] == inv[0..0 + (n + 1)];
    assert a[ao + na - (n + 1)..ao + na - (n + 1) + (n + 1)] == a[ao..ao + na][na - (n + 1)..];
    var sh := 2 * (n + 1) - (nq + 1);
    CopyLimbs(q, qo, t, sh, nq + 1);
    assert q[qo..qo + (na - nb + 1)] == ts[sh..];
    LargeEstimate(a[ao..ao + na], bs, inv[..], ts, nq, n);
  }

  /** A reciprocal of the divisor at n limbs, never above the exact one: of the divisor padded
      with zero limbs, or of its top limbs plus one. */
  method LargeInverse(b: array<Limb>, bo: nat, nb: nat, n: nat) returns (inv: array<Limb>)
    requires nb >= 1 && n >= 1 && bo + nb <= b.Length
    requires Normalized(b[bo..bo + nb])
    ensures fresh(inv) && inv.Length == n + 1
    ensures LowerInverse(Val(inv[..]), Val(b[bo..bo + nb]), Pow(n + nb)) && Val(inv[..]) <= 2 * Pow(n)
    ensures 0 < Val(b[bo..bo + nb])
    decreases 1, n + 2
  {
    hide Val;
    hide Pow;
    hide Normalized;
    hide LowerInverse;
    hide Reciprocal;
    inv := new Limb[n + 1];
    var t := new Limb[n];
    if n >= nb {
      PadDivisor(t, b, bo, nb, n);
      MpRecip(inv, 0, t, 0, n);
      assert inv[..] == inv[0..0 + n + 1] && t[..] == t[0..0 + n];
      PaddedInverse(Val(inv[..]), t[..], b[bo..bo + nb], n);
    } else {
      var c := TruncateDivisor(t, b, bo, nb, n);
      if c != 0 {
        ZeroLimbs(inv, 0, n);
        inv[n] := 1;
        PowerLimbs(inv[..], n);
        OverflowInverse(Val(inv[..]), b[bo..bo + nb], n, t[..], c);
      } else {
        MpRecip(inv, 0, t, 0, n);
        assert inv[..] == inv[0..0 + n + 1] && t[..] == t[0..0 + n];
        TruncatedInverse(Val(inv[..]), b[bo..bo + nb], n, t[..]);
      }
    }
  }

  /** t[] = the divisor above n - nb zero limbs. */
  method PadDivisor(t: array<Limb>, b: array<Limb>, bo: nat, nb: nat, n: nat)
    requires t != b && n >= nb && t.Length == n && bo + nb <= b.Length
    requires Normalized(b[bo..bo + nb])
    modifies t
    ensures t[..][n - nb..] == b[bo..bo + nb]
    ensures forall j :: 0 <= j < n - nb ==> t[j] == 0
    ensures Normalized(t[0..n])
    decreases 0, 0
  {
    ZeroLimbs(t, 0, n - nb);
    CopyLimbs(t, n - nb, b, bo, nb);
    assert t[..][n - nb..] == t[n - nb..n - nb + nb];
    assert t[0..n] == t[..];
    PaddedNormalized(t[..], b[bo..bo + nb], n - nb);
  }

  /** t[] = the top n limbs of the divisor, plus one; returns the carry. */
  method TruncateDivisor(t: array<Limb>, b: array<Limb>, bo: nat, nb: nat, n: nat) returns (c: Limb)
    requires t != b && 1 <= n < nb && t.Length == n && bo + nb <= b.Length
    requires Normalized(b[bo..bo + nb])
    modifies t
    ensures Val(t[..]) + Pow(n) * c == Val(b[bo..bo + nb][nb - n..]) + 1
    ensures c == 0 ==> Normalized(t[0..n]) && Val(t[..]) == Val(b[bo..bo + nb][nb - n..]) + 1
    decreases 0, 0
  {
    hide Val;
    hide Pow;
    hide Normalized;
    ghost var bs := b[bo..bo + nb];
    CopyLimbs(t, 0, b, bo + (nb - n), n);
    ghost var top := t[..];
    assert top == bs[nb - n..] && top == t[0..0 + n];
    c := MpAddUi(t, 0, 1, n);
    assert t[..] == t[0..0 + n] && t[0..n] == t[..];
    if c == 0 {
      IncrementNormalized(bs, top, t[..], n, c);
    }
  }

  lemma {:induction false} PaddedNormalized(t: seq<Limb>, b: seq<Limb>, z: nat)
    requires Normalized(b) && |t| == z + |b| && t[z..] == b
    ensures Normalized(t)
  {
    assert t[|t| - 1] == b[|b| - 1];
  }

  lemma {:induction false} PaddedInverse(inv: int, t: seq<Limb>, b: seq<Limb>, n: nat)
    requires Normalized(b) && Normalized(t) && |t| == n && n >= |b|
    requires t[n - |b|..] == b && forall j :: 0 <= j < n - |b| ==> t[j] == 0
    requires Reciprocal(Val(t), inv, Pow(2 * n))
    ensures LowerInverse(inv, Val(b), Pow(n + |b|)) && inv <= 2 * Pow(n) && 0 < Val(b)
  {
    hide *;
    PaddedValue(t, b, n - |b|);
    NormalizedBound(b);
    NormalizedBound(t);
    PowAdd(n + |b|, n - |b|);
    PowAdd(n, n);
    assert n + |b| + (n - |b|) == 2 * n && n + n == 2 * n;
    ReciprocalRange(Val(t), inv, Pow(n));
    InverseOfScaled(inv, Val(b), Pow(n - |b|), Pow(n + |b|), Pow(2 * n));
  }

  lemma {:induction false} PaddedValue(t: seq<Limb>, b: seq<Limb>, z: nat)
    requires |t| == z + |b| && t[z..] == b && forall j :: 0 <= j < z ==> t[j] == 0
    ensures Val(t) == Val(b) * Pow(z)
  {
    hide *;
    ValSplit(t, z);
    ValZeros(t[..z]);
  }

  lemma {:induction false} TruncatedParts(b: seq<Limb>, n: nat)
    requires Normalized(b) && 1 <= n < |b|
    ensures Val(b) == Val(b[|b| - n..]) * Pow(|b| - n) + Val(b[..|b| - n])
    ensures Val(b[..|b| - n]) < Pow(|b| - n)
    ensures Pow(n + |b|) == Pow(n) * Pow(n) * Pow(|b| - n)
    ensures Pow(n) * Pow(|b| - n) <= 2 * Val(b) && 0 < Val(b) && 2 <= Pow(n)
  {
    hide Val;
    hide Pow;
    hide Normalized;
    ValSplit(b, |b| - n);
    ValBound(b[..|b| - n]);
    NormalizedBound(b);
    PowAdd(n, |b| - n);
    PowAdd(n, |b|);
    Assoc(Pow(n), Pow(n), Pow(|b| - n));
    PowStep(n - 1);
    assert Pow(n) == B * Pow(n - 1);
    MulLe(1, Pow(n - 1), B);
  }

  lemma {:induction false} OverflowInverse(inv: int, b: seq<Limb>, n: nat, up: seq<Limb>, c: Limb)
    requires Normalized(b) && 1 <= n < |b| && |up| == n && 1 <= c
    requires Val(up) + Pow(n) * c == Val(b[|b| - n..]) + 1
    requires inv == Pow(n)
    ensures LowerInverse(inv, Val(b), Pow(n + |b|)) && inv <= 2 * Pow(n) && 0 < Val(b)
  {
    hide *;
    TruncatedParts(b, n);
    ValBound(b[|b| - n..]);
    MulLe(1, c, Pow(n));
    assert Val(b[|b| - n..]) + 1 == Pow(n);
    MulLt(Pow(n), Pow(n) + 2, Pow(n));
    InverseOfTruncated(inv, Val(b), Val(b[|b| - n..]), Val(b[..|b| - n]), Pow(|b| - n), Pow(n + |b|), Pow(n));
  }

  lemma {:induction false} IncrementNormalized(b: seq<Limb>, top: seq<Limb>, up: seq<Limb>, n: nat, c: Limb)
    requires Normalized(b) && 1 <= n < |b| && top == b[|b| - n..] && |up| == n && c == 0
    requires Val(up) + Pow(n) * c == Val(top) + 1
    ensures Normalized(up) && Val(up) == Val(b[|b| - n..]) + 1
  {
    hide Val;
    hide Pow;
    var cc: int := c;
    assert Pow(n) * cc == 0;
    assert top[n - 1] == b[|b| - 1];
    TopLimb(top);
    TopLimb(up);
    if up[n - 1] < top[n - 1] {
      MulLe(up[n - 1] + 1, top[n - 1], Pow(n - 1));
      var x: int := up[n - 1];
      Distrib(x, 1, Pow(n - 1));
      assert false;
    }
  }

  lemma {:induction false} TruncatedInverse(inv: int, b: seq<Limb>, n: nat, up: seq<Limb>)
    requires Normalized(b) && 1 <= n < |b| && |up| == n && Normalized(up)
    requires Val(up) == Val(b[|b| - n..]) + 1
    requires Reciprocal(Val(up), inv, Pow(2 * n))
    ensures LowerInverse(inv, Val(b), Pow(n + |b|)) && inv <= 2 * Pow(n) && 0 < Val(b)
  {
    hide Val;
    hide Pow;
    hide Normalized;
    hide LowerInverse;
    TruncatedParts(b, n);
    NormalizedBound(up);
    PowAdd(n, n);
    assert n + n == 2 * n;
    ReciprocalRange(Val(up), inv, Pow(n));
    InverseOfTruncated(inv, Val(b), Val(b[|b| - n..]), Val(b[..|b| - n]), Pow(|b| - n), Pow(n + |b|), Pow(n));
  }
}
