/** The recursive square root of a limb array, in place: the radicand is replaced by the
    remainder, whose highest limb is returned. */
module SqrtRecursion {
  import opened Arith
  import opened Limbs
  import opened LimbOps
  import opened LimbMul
  import LargeDivSteps
  import opened LongDivision
  import opened SqrtMath
  import opened SqrtWord

  /** A radicand with one of its two top bits set. */
  ghost predicate QuarterNormalized(s: seq<Limb>) {
    |s| > 0 && s[|s| - 1] >= QUARTER_B
  }

  /** The root of such a radicand is normalised. */
  lemma {:induction false} RootNormalized(a: seq<Limb>, s: seq<Limb>, r: int)
    requires QuarterNormalized(a) && |a| == 2 * |s| && |s| > 0
    requires SqrtRem(Val(a), Val(s), r)
    ensures Normalized(s)
    ensures Pow(|s|) <= 2 * Val(s) && Val(s) < Pow(|s|)
  {
    hide Val;
    hide Pow;
    var n := |s|;
    TopLimb(a);
    TopLimb(s);
    ValBound(s);
    MulLe(QUARTER_B, a[2 * n - 1], Pow(2 * n - 1));
    PowAdd(n - 1, n);
    PowStep(n - 1);
    assert n - 1 + n == 2 * n - 1;
    if s[n - 1] < HALF_B {
      MulLe(s[n - 1] + 1, HALF_B, Pow(n - 1));
      var x: int := s[n - 1];
      Distrib(x, 1, Pow(n - 1));
      TooSmall(Val(a), Val(s), r, Pow(n - 1));
      assert false;
    }
    MulLe(HALF_B, s[n - 1], Pow(n - 1));
  }

  lemma {:induction false} TooSmall(a: int, s: int, r: int, p: int)
    requires SqrtRem(a, s, r) && s < HALF_B * p && 0 < p
    ensures a < QUARTER_B * (p * (B * p))
  {
    var h := HALF_B * p;
    SqrtRemIsFloor(a, s, r);
    MulLe(s + 1, h, s + 1);
    MulLe(s + 1, h, h);
    assert h * h == QUARTER_B * (p * (B * p));
  }

  // ----- the quotient of the remainder by twice the root -----

  /** Divides the high remainder r (h limbs and the carry qh0) followed by the next l limbs by
      twice the root of the high part. The quotient q is left in l limbs of tabs with carry qh,
      the remainder u in h limbs of taba with carry rh. */
  method SqrtQuotient(tabs: array<Limb>, so: nat, taba: array<Limb>, ao: nat, n: nat, l: nat, h: nat,
          tmp: array<Limb>, qh0: Limb, ghost r: int)
    returns (qh: Limb, rh: int, ghost q: int, ghost u: int)
    requires tabs != taba && tabs != tmp && taba != tmp
    requires 1 <= l <= h && n == l + h && l + 1 <= tmp.Length
    requires so + n <= tabs.Length && ao + l + n <= taba.Length
    requires Normalized(tabs[so + l..so + n]) && qh0 <= 1
    requires r == Val(taba[ao + 2 * l..ao + l + n]) + Pow(h) * qh0 && r <= 2 * Val(tabs[so + l..so + n])
    modifies tabs, taba, tmp
    ensures qh <= 1 && 0 <= rh <= 1
    ensures tabs[so + l..so + n] == old(tabs[so + l..so + n])
    ensures SameOutside(old(tabs[..]), tabs[..], so, so + l)
    ensures SameOutside(old(taba[..]), taba[..], ao + l, ao + l + n)
    ensures q == Val(tabs[so..so + l]) + Pow(l) * qh
    ensures u == Val(taba[ao + l..ao + n]) + Pow(h) * rh
    ensures r * Pow(l) + old(Val(taba[ao + l..ao + 2 * l])) == q * (2 * Val(tabs[so + l..so + n])) + u
    ensures 0 <= u < 2 * Val(tabs[so + l..so + n])
  {
    hide Val;
    hide Pow;
    hide Normalized;
    ghost var root, low := tabs[so + l..so + n], taba[ao + l..ao + 2 * l];
    ghost var u1, d := RootDivide(tabs, so, taba, ao, n, l, h, tmp, qh0, r);
    ghost var q1 := tmp[0..l + 1];
    var total := qh0 + tmp[l];
    CarryBits(total);
    ghost var before := tabs[..];
    var ql := HalveLimbs(tabs, so, tmp, l, total % 2);
    qh := total / 2;
    SameSlice(before, tabs[..], so, so + l, so + l, so + n);
    ghost var half := tabs[so..so + l];
    assert q1[0..l] == tmp[0..l];
    rh := AddRoot(taba, ao + l, tabs, so + l, h, ql);
    assert taba[ao + l..ao + l + h] == taba[ao + l..ao + n] && tabs[so + l..so + l + h] == root;
    q := Val(half) + Pow(l) * qh;
    u := Val(taba[ao + l..ao + n]) + Pow(h) * rh;
    HalfQuotient(q1, half, Val(root), Val(low), qh0, qh, total % 2, ql, r, d, u1, u, q, l);
    RemainderBound(u1, Val(root), ql, u);
  }

  lemma {:induction false} RemainderBound(u1: int, s: int, ql: int, u: int)
    requires 0 <= u1 < s && 0 <= ql <= 1 && u == u1 + ql * s
    ensures 0 <= u < 2 * s
  {
    TimesBit(s, ql);
  }

  /** Adds the root to the remainder when the halved quotient was odd. */
  method AddRoot(taba: array<Limb>, o: nat, tabs: array<Limb>, ro: nat, h: nat, ql: Limb) returns (rh: int)
    requires tabs != taba && o + h <= taba.Length && ro + h <= tabs.Length && ql <= 1
    modifies taba
    ensures 0 <= rh <= 1
    ensures Val(taba[o..o + h]) + Pow(h) * rh == old(Val(taba[o..o + h])) + ql * Val(tabs[ro..ro + h])
    ensures SameOutside(old(taba[..]), taba[..], o, o + h)
  {
    hide Val;
    hide Pow;
    rh := 0;
    if ql != 0 {
      rh := MpAdd(taba, o, taba, o, tabs, ro, h, 0);
    }
    TimesBit(Val(tabs[ro..ro + h]), ql);
    TimesBit(Pow(h), rh);
  }

  /** Divides by the root itself, which is normalised; the carry of the remainder counts as one
      more subtraction of the root. */
  method RootDivide(tabs: array<Limb>, so: nat, taba: array<Limb>, ao: nat, n: nat, l: nat, h: nat, tmp: array<Limb>,
          qh0: Limb, ghost r: int)
    returns (ghost u1: int, ghost d: int)
    requires tabs != taba && tabs != tmp && taba != tmp
    requires 1 <= l <= h && n == l + h && l + 1 <= tmp.Length
    requires so + n <= tabs.Length && ao + l + n <= taba.Length
    requires Normalized(tabs[so + l..so + n]) && qh0 <= 1
    requires r == Val(taba[ao + 2 * l..ao + l + n]) + Pow(h) * qh0 && r <= 2 * Val(tabs[so + l..so + n])
    modifies taba, tmp
    ensures tmp[l] <= 1
    ensures u1 == Val(taba[ao + l..ao + n]) && 0 <= u1 < Val(tabs[so + l..so + n])
    ensures SameOutside(old(taba[..]), taba[..], ao + l, ao + l + n)
    ensures d == r - qh0 * Val(tabs[so + l..so + n])
    ensures Pow(l) * d + old(Val(taba[ao + l..ao + 2 * l])) == Val(tmp[0..l + 1]) * Val(tabs[so + l..so + n]) + u1
  {
    hide Val;
    hide Pow;
    hide Normalized;
    ghost var low := taba[ao + l..ao + 2 * l];
    assert tabs[so + l..so + l + h] == tabs[so + l..so + n];
    assert taba[ao + 2 * l..ao + 2 * l + h] == taba[ao + 2 * l..ao + l + n];
    DropCarry(taba, ao + 2 * l, tabs, so + l, h, qh0);
    ghost var dropped := taba[ao + 2 * l..ao + 2 * l + h];
    d := Val(dropped);
    assert taba[ao + l..ao + l + n] == low + dropped;
    ValAppend(low, dropped);
    MpDivnorm(tmp, 0, taba, ao + l, n, tabs, so + l, h);
    assert tmp[0..l + 1] == tmp[0..0 + (n - h + 1)] && taba[ao + l..ao + l + h] == taba[ao + l..ao + n];
    u1 := Val(taba[ao + l..ao + n]);
  }

  /** tabs[] = tmp[] / 2 with an incoming high bit; returns the bit shifted out. */
  method HalveLimbs(tabs: array<Limb>, so: nat, tmp: array<Limb>, l: nat, high: Limb) returns (ql: Limb)
    requires tabs != tmp && so + l <= tabs.Length && l <= tmp.Length && high <= 1
    modifies tabs
    ensures ql <= 1
    ensures Val(tabs[so..so + l]) * 2 + ql == Val(tmp[0..l]) + high * Pow(l)
    ensures SameOutside(old(tabs[..]), tabs[..], so, so + l)
  {
    hide Val;
    hide Pow;
    CarryBits(high);
    CopyLimbs(tabs, so, tmp, 0, l);
    assert tmp[0..0 + l] == tmp[0..l];
    ql := MpShr(tabs, so, tabs, so, l, 1, high);
  }

  /** Takes a carry out of the high remainder by subtracting the root once. */
  method DropCarry(taba: array<Limb>, ho: nat, tabs: array<Limb>, ro: nat, h: nat, qh: Limb)
    requires tabs != taba && ro + h <= tabs.Length && ho + h <= taba.Length && qh <= 1
    requires Val(taba[ho..ho + h]) + Pow(h) * qh <= 2 * Val(tabs[ro..ro + h])
    modifies taba
    ensures Val(taba[ho..ho + h]) == old(Val(taba[ho..ho + h])) + Pow(h) * qh - qh * Val(tabs[ro..ro + h])
    ensures SameOutside(old(taba[..]), taba[..], ho, ho + h)
  {
    hide Val;
    hide Pow;
    if qh != 0 {
      ghost var was := taba[ho..ho + h];
      var k := MpSub(taba, ho, taba, ho, tabs, ro, h, 0);
      ValBound(taba[ho..ho + h]);
      ValBound(tabs[ro..ro + h]);
      ValBound(was);
      CarryDropped(Val(was), Val(tabs[ro..ro + h]), Val(taba[ho..ho + h]), Pow(h), k);
    }
    TimesBit(Pow(h), qh);
    TimesBit(Val(tabs[ro..ro + h]), qh);
  }

  lemma {:induction false} CarryDropped(v: int, s: int, r: int, p: int, k: int)
    requires 0 <= k <= 1 && r == v - s - 0 + p * k && 0 <= r < p
    requires v + p <= 2 * s && s < p && 0 <= v
    ensures r == v + p - s
  {
    TimesBit(p, k);
  }

  lemma {:induction false} CarryBits(total: nat)
    requires total <= 2
    ensures total == 2 * (total / 2) + total % 2
    ensures Pow2(1) == 2
    ensures total % 2 % 2 == total % 2
  {
    assert Pow2(1) == 2 * Pow2(0);
  }

  /** Halving the quotient by the root gives the quotient by twice the root. */
  lemma {:induction false} HalfQuotient(q1: seq<Limb>, half: seq<Limb>, root: int, low: int, qh0: int, t2: int,
          tb: int, ql: int, r: int, d: int, u1: int, u: int, q: int, l: nat)
    requires |q1| == l + 1 && |half| == l && qh0 + q1[l] == 2 * t2 + tb
    requires d == r - qh0 * root && Pow(l) * d + low == Val(q1) * root + u1
    requires Val(half) * 2 + ql == Val(q1[0..l]) + tb * Pow(l)
    requires u == u1 + ql * root && q == Val(half) + Pow(l) * t2
    ensures r * Pow(l) + low == q * (2 * root) + u
  {
    hide *;
    TopLimb(q1);
    assert q1[..|q1| - 1] == q1[0..l];
    HalfArith(Pow(l), root, Val(half), t2, tb, ql, Val(q1[0..l]), q1[l], Val(q1), qh0, r, d, low, u1, u, q);
  }

  lemma {:induction false} HalfArith(L: int, s: int, half: int, t2: int, tb: int, ql: int, qlow: int, qtop: int,
          q1: int, qh0: int, r: int, d: int, low: int, u1: int, u: int, q: int)
    requires q == half + L * t2
    requires q1 == qlow + L * qtop && qh0 + qtop == 2 * t2 + tb
    requires d == r - qh0 * s && L * d + low == q1 * s + u1
    requires half * 2 + ql == qlow + tb * L && u == u1 + ql * s
    ensures r * L + low == q * (2 * s) + u
  {
    Distrib(r, qh0 * s, L);
    assert q1 + L * qh0 == 2 * q + ql by {
      Distrib(qh0, qtop, L);
      Distrib(2 * t2, tb, L);
      Assoc(L, 2, t2);
    }
    Distrib(q1, L * qh0, s);
    Distrib(2 * q, ql, s);
    Assoc(L, qh0, s);
    Assoc(2, q, s);
    Assoc(q, 2, s);
  }

  // ----- the square of the quotient, and the correction -----

  /** taba[] -= q^2 over n limbs, where q is the l limbs of tabs plus qh*B^l; returns the borrow. */
  method SubtractSquare(tabs: array<Limb>, so: nat, taba: array<Limb>, ao: nat, n: nat, l: nat, qh: Limb,
          ghost q: int)
    returns (k: Limb)
    requires tabs != taba && 1 <= l && 2 * l <= n <= 2 * l + 1
    requires so + l <= tabs.Length && ao + 2 * n <= taba.Length && qh <= 1
    requires q == Val(tabs[so..so + l]) + Pow(l) * qh && q <= Pow(l)
    modifies taba
    ensures Val(taba[ao..ao + n]) == old(Val(taba[ao..ao + n])) - q * q + Pow(n) * k
    ensures k <= 1
    ensures SameOutside(old(taba[..]), taba[..], ao, ao + 2 * n)
  {
    hide Val;
    hide Pow;
    hide SameOutside;
    ghost var low, high, was := taba[ao..ao + 2 * l], taba[ao + 2 * l..ao + n], taba[..];
    assert taba[ao..ao + n] == low + high;
    var c := SquareBorrow(tabs, so, taba, ao, n, l, qh, q);
    ghost var low', mid := taba[ao..ao + 2 * l], taba[..];
    assert taba[ao + 2 * l..ao + 2 * l + (n - 2 * l)] == high;
    k := MpSubUi(taba, ao + 2 * l, c, n - 2 * l);
    ghost var high' := taba[ao + 2 * l..ao + 2 * l + (n - 2 * l)];
    SameSlice(mid, taba[..], ao + 2 * l, ao + 2 * l + (n - 2 * l), ao, ao + 2 * l);
    assert taba[ao..ao + n] == low' + high';
    if n == 2 * l {
      EmptyBorrow(high, high', c, k);
    }
    SquareSubtracted(low, high, low', high', q, c, k);
    SameChain(was, mid, taba[..], ao, ao + 2 * n, ao, ao + 2 * n, ao + 2 * l, ao + 2 * l + (n - 2 * l));
  }

  /** The borrow of subtracting q^2 from the low 2*l limbs: one when the quotient is B^l. */
  method SquareBorrow(tabs: array<Limb>, so: nat, taba: array<Limb>, ao: nat, n: nat, l: nat, qh: Limb, ghost q: int)
    returns (c: Limb)
    requires tabs != taba && 1 <= l && 2 * l <= n
    requires so + l <= tabs.Length && ao + 2 * n <= taba.Length && qh <= 1
    requires q == Val(tabs[so..so + l]) + Pow(l) * qh && q <= Pow(l)
    modifies taba
    ensures c <= 1
    ensures Val(taba[ao..ao + 2 * l]) == old(Val(taba[ao..ao + 2 * l])) - q * q + Pow(2 * l) * c
    ensures taba[ao + 2 * l..ao + n] == old(taba[ao + 2 * l..ao + n])
    ensures SameOutside(old(taba[..]), taba[..], ao, ao + 2 * n)
  {
    hide Val;
    hide Pow;
    ghost var was := taba[..];
    SquareOfQuotient(Val(tabs[so..so + l]), qh, q, l);
    c := qh;
    if qh == 0 {
      MpMul(taba, ao + n, tabs, so, l, tabs, so, l);
      SameSlice(was, taba[..], ao + n, ao + n + l + l, ao, ao + 2 * l);
      assert taba[ao + n..ao + n + 2 * l] == taba[ao + n..ao + n + l + l];
      var c' := MpSub(taba, ao, taba, ao, taba, ao + n, 2 * l, 0);
      c := c';
    }
  }

  lemma {:induction false} EmptyBorrow(s: seq<Limb>, t: seq<Limb>, c: Limb, k: Limb)
    requires s == [] && t == [] && Val(t) == Val(s) - c + Pow(0) * k
    ensures k == c
  {
  }

  /** A carry means the quotient is exactly B^l. */
  lemma {:induction false} SquareOfQuotient(v: nat, qh: Limb, q: int, l: nat)
    requires qh <= 1 && q == v + Pow(l) * qh && q <= Pow(l)
    ensures qh == 0 ==> q == v
    ensures qh == 1 ==> q * q == Pow(2 * l)
    ensures Pow(2 * l) * qh == (if qh == 1 then q * q else 0)
  {
    hide *;
    TimesBit(Pow(l), qh);
    TimesBit(Pow(2 * l), qh);
    PowAdd(l, l);
    assert l + l == 2 * l;
    if qh == 1 {
      assert q == Pow(l);
    }
  }

  lemma {:induction false} SquareSubtracted(low: seq<Limb>, high: seq<Limb>, low': seq<Limb>, high': seq<Limb>,
          q: int, c: int, k: int)
    requires |low'| == |low| && |high'| == |high|
    requires Val(low') == Val(low) - q * q + Pow(|low|) * c
    requires Val(high') == Val(high) - c + Pow(|high|) * k
    ensures Val(low' + high') == Val(low + high) - q * q + Pow(|low| + |high|) * k
  {
    hide *;
    ValAppend(low, high);
    ValAppend(low', high');
    PowAdd(|low|, |high|);
    BorrowArith(Pow(|low|), Pow(|high|), Val(high), Val(high'), c, k);
  }

  lemma {:induction false} BorrowArith(p: int, p': int, h: int, h': int, c: int, k: int)
    requires h' == h - c + p' * k
    ensures p * h' == p * h - p * c + (p * p') * k
  {
    Distrib(h, c, p);
    Distrib(h - c, p' * k, p);
    Assoc(p, p', k);
  }

  /** If the remainder is negative the root is one too large. The stored root may have lost a
      carry (root B^n), in which case the remainder is negative and the decrement restores it. */
  method SqrtCorrect(tabs: array<Limb>, so: nat, taba: array<Limb>, ao: nat, n: nat, rh0: int, ghost num: int,
          ghost s: int, ghost r: int, ghost k1: int)
    returns (rh: Limb)
    requires tabs != taba && n >= 1 && so + n <= tabs.Length && ao + n <= taba.Length
    requires -1 <= rh0 <= 1 && 0 <= k1
    requires SqrtStepResult(num, s, r) && 0 <= num < Pow(n) * Pow(n) && 0 <= s
    requires s == Val(tabs[so..so + n]) + Pow(n) * k1
    requires r == Val(taba[ao..ao + n]) + Pow(n) * rh0
    modifies tabs, taba
    ensures rh <= 1
    ensures SqrtRem(num, Val(tabs[so..so + n]), Val(taba[ao..ao + n]) + Pow(n) * rh)
    ensures SameOutside(old(tabs[..]), tabs[..], so, so + n)
    ensures SameOutside(old(taba[..]), taba[..], ao, ao + n)
  {
    hide Val;
    hide Pow;
    hide SqrtStepResult;
    hide SqrtRem;
    ghost var ts := tabs[so..so + n];
    ValBound(taba[ao..ao + n]);
    ValBound(ts);
    NegativeIff(num, s, r, Val(ts), k1, Val(taba[ao..ao + n]), rh0, Pow(n));
    if rh0 < 0 {
      var k := MpSubUi(tabs, so, 1, n);
      ghost var ts' := tabs[so..so + n];
      ValBound(ts');
      RootRestored(num, s, r, Val(ts), k1, Val(ts'), k, Pow(n));
      ghost var was := Val(taba[ao..ao + n]);
      var l1 := MpAddMul1(taba, ao, tabs, so, n, 2);
      ghost var mid := Val(taba[ao..ao + n]);
      var l2 := MpAddUi(taba, ao, 1, n);
      ValBound(taba[ao..ao + n]);
      RemainderRestored(num, s, r, was, rh0, mid, l1, Val(taba[ao..ao + n]), l2, Pow(n));
      rh := rh0 + l1 + l2;
    } else {
      rh := rh0;
    }
  }

  lemma {:induction false} NegativeIff(num: int, s: int, r: int, ts: int, k1: int, v: int, rh: int, p: int)
    requires SqrtStepResult(num, s, r) && num < p * p && 0 < p && 0 <= s
    requires s == ts + p * k1 && 0 <= k1 && 0 <= ts < p
    requires r == v + p * rh && 0 <= v < p && -1 <= rh <= 1
    ensures rh < 0 <==> r < 0
    ensures rh >= 0 ==> ts == s && SqrtRem(num, ts, r)
  {
    if rh < 0 {
      assert p * rh == -p;
    } else {
      MulNonneg(p, rh);
      if s >= p {
        MulLe(p, s, p);
        MulLe(p, s, s);
        assert false;
      }
      if k1 >= 1 {
        MulLe(1, k1, p);
        assert false;
      }
      assert p * k1 == 0 by { assert k1 == 0; }
    }
  }

  lemma {:induction false} RootRestored(num: int, s: int, r: int, ts: int, k1: int, ts': int, k: int, p: int)
    requires SqrtStepResult(num, s, r) && r < 0 && num < p * p && 0 < p
    requires s == ts + p * k1 && 0 <= ts < p
    requires ts' == ts - 1 + p * k && 0 <= ts' < p
    ensures ts' == s - 1
  {
    assert num >= (s - 1) * (s - 1) && s >= 1;
    if s - 1 >= p {
      MulLe(p, s - 1, p);
      MulLe(p, s - 1, s - 1);
      assert false;
    }
    Distrib(k, k1, p);
    LargeDivSteps.SameResidue(p, ts', s - 1, k - k1);
  }

  lemma {:induction false} RemainderRestored(num: int, s: int, r: int, was: int, rh: int, mid: int, l1: int, v: int,
          l2: int, p: int)
    requires SqrtStepResult(num, s, r) && r < 0 && rh == -1 && 0 < p
    requires r == was + p * rh
    requires mid + p * l1 == was + (s - 1) * 2 && v + p * l2 == mid + 1 && 0 <= v < p
    requires s - 1 < p
    ensures 0 <= rh + l1 + l2 <= 1
    ensures SqrtRem(num, s - 1, v + p * (rh + l1 + l2))
  {
    var t := rh + l1 + l2;
    Distrib(rh + l1, l2, p);
    Distrib(rh, l1, p);
    assert v + p * t == r + 2 * (s - 1) + 1;
    if t <= -1 {
      MulLe(t, -1, p);
      assert false;
    }
    if t >= 2 {
      MulLe(2, t, p);
      assert false;
    }
  }

  // ----- the recursion -----

  /** tabs = floor(sqrt(taba)), n limbs from 2n; taba = the remainder, whose limb n is returned. */
  method SqrtremRec(tabs: array<Limb>, so: nat, taba: array<Limb>, ao: nat, n: nat, tmp: array<Limb>)
    returns (rh: Limb)
    requires tabs != taba && tabs != tmp && taba != tmp && n >= 1
    requires so + n <= tabs.Length && ao + 2 * n <= taba.Length && n / 2 + 1 <= tmp.Length
    requires QuarterNormalized(taba[ao..ao + 2 * n])
    modifies tabs, taba, tmp
    ensures rh <= 1
    ensures SqrtRem(old(Val(taba[ao..ao + 2 * n])), Val(tabs[so..so + n]), Val(taba[ao..ao + n]) + Pow(n) * rh)
    ensures SameOutside(old(tabs[..]), tabs[..], so, so + n)
    ensures SameOutside(old(taba[..]), taba[..], ao, ao + 2 * n)
    decreases n, 2
  {
    hide Val;
    hide Pow;
    hide SqrtRem;
    if n == 1 {
      rh := SqrtremTwoLimbs(tabs, so, taba, ao);
    } else {
      rh := SqrtremHalves(tabs, so, taba, ao, n, n / 2, n - n / 2, tmp);
    }
  }

  method SqrtremHalves(tabs: array<Limb>, so: nat, taba: array<Limb>, ao: nat, n: nat, l: nat, h: nat,
          tmp: array<Limb>)
    returns (rh: Limb)
    requires tabs != taba && tabs != tmp && taba != tmp && n >= 2 && l == n / 2 && h == n - l
    requires so + n <= tabs.Length && ao + 2 * n <= taba.Length && l + 1 <= tmp.Length
    requires QuarterNormalized(taba[ao..ao + 2 * n])
    modifies tabs, taba, tmp
    ensures rh <= 1
    ensures SqrtRem(old(Val(taba[ao..ao + 2 * n])), Val(tabs[so..so + n]), Val(taba[ao..ao + n]) + Pow(n) * rh)
    ensures SameOutside(old(tabs[..]), tabs[..], so, so + n)
    ensures SameOutside(old(taba[..]), taba[..], ao, ao + 2 * n)
    decreases n, 1
  {
    hide Val;
    hide Pow;
    hide QuarterNormalized;
    hide SqrtRem;
    hide SameOutside;
    ghost var a, was, wasS := taba[ao..ao + 2 * n], taba[..], tabs[..];
    var qh := SqrtremHigh(tabs, so, taba, ao, n, l, h, tmp, a);
    ghost var mid, midS := taba[..], tabs[..];
    rh := SqrtCombine(tabs, so, taba, ao, n, l, h, tmp, qh, a);
    SameChain(was, mid, taba[..], ao, ao + 2 * n, ao + 2 * l, ao + 2 * l + 2 * h, ao, ao + 2 * n);
    SameChain(wasS, midS, tabs[..], so, so + n, so + l, so + l + h, so, so + n);
  }

  /** The root of the high 2h limbs, by recursion; the low 2l limbs stay. */
  method SqrtremHigh(tabs: array<Limb>, so: nat, taba: array<Limb>, ao: nat, n: nat, l: nat, h: nat,
          tmp: array<Limb>, ghost a: seq<Limb>)
    returns (qh: Limb)
    requires tabs != taba && tabs != tmp && taba != tmp && n >= 2 && l == n / 2 && h == n - l
    requires so + n <= tabs.Length && ao + 2 * n <= taba.Length && l + 1 <= tmp.Length
    requires a == taba[ao..ao + 2 * n] && QuarterNormalized(a)
    modifies tabs, taba, tmp
    ensures qh <= 1 && QuarterNormalized(a[2 * l..]) && taba[ao..ao + 2 * l] == a[..2 * l]
    ensures SqrtRem(Val(a[2 * l..]), Val(tabs[so + l..so + l + h]),
                    Val(taba[ao + 2 * l..ao + 2 * l + h]) + Pow(h) * qh)
    ensures SameOutside(old(tabs[..]), tabs[..], so + l, so + l + h)
    ensures SameOutside(old(taba[..]), taba[..], ao + 2 * l, ao + 2 * l + 2 * h)
    decreases n, 0
  {
    hide Val;
    hide Pow;
    hide QuarterNormalized;
    hide SqrtRem;
    hide SameOutside;
    ghost var was := taba[..];
    HighQuarter(a, 2 * l);
    assert a[2 * l..] == taba[ao + 2 * l..ao + 2 * l + 2 * h];
    qh := SqrtremRec(tabs, so + l, taba, ao + 2 * l, h, tmp);
    SameSlice(was, taba[..], ao + 2 * l, ao + 2 * l + 2 * h, ao, ao + 2 * l);
    assert was[ao..ao + 2 * l] == a[..2 * l];
  }

  lemma {:induction false} HighQuarter(a: seq<Limb>, k: nat)
    requires QuarterNormalized(a) && k < |a|
    ensures QuarterNormalized(a[k..])
  {
  }

  method SqrtremTwoLimbs(tabs: array<Limb>, so: nat, taba: array<Limb>, ao: nat) returns (rh: Limb)
    requires tabs != taba && so + 1 <= tabs.Length && ao + 2 <= taba.Length
    requires QuarterNormalized(taba[ao..ao + 2])
    modifies tabs, taba
    ensures rh <= 1
    ensures SqrtRem(old(Val(taba[ao..ao + 2])), Val(tabs[so..so + 1]), Val(taba[ao..ao + 1]) + Pow(1) * rh)
    ensures SameOutside(old(tabs[..]), tabs[..], so, so + 1)
    ensures SameOutside(old(taba[..]), taba[..], ao, ao + 2)
  {
    hide Sqrtrem2;
    hide SqrtRem;
    ghost var a := taba[ao..ao + 2];
    assert a[1] == taba[ao + 1] && a[0] == taba[ao];
    TwoLimbs(a);
    var (s, r0, r1) := Sqrtrem2(taba[ao], taba[ao + 1]);
    tabs[so] := s;
    taba[ao] := r0;
    rh := r1;
    assert tabs[so..so + 1] == [s] && taba[ao..ao + 1] == [r0];
    ValOne(s);
    ValOne(r0);
    assert Pow(1) == B * Pow(0) && Pow(0) == 1;
  }

  lemma {:induction false} TwoLimbs(a: seq<Limb>)
    requires |a| == 2
    ensures Val(a) == a[1] * B + a[0]
  {
    assert a == [a[0]] + [a[1]];
    ConsVal(a[0], [a[1]]);
    ValOne(a[1]);
  }

  /** From the root of the high 2h limbs to the root of all 2n. */
  method SqrtCombine(tabs: array<Limb>, so: nat, taba: array<Limb>, ao: nat, n: nat, l: nat, h: nat, tmp: array<Limb>,
          qh0: Limb, ghost a: seq<Limb>)
    returns (rh: Limb)
    requires tabs != taba && tabs != tmp && taba != tmp
    requires n >= 2 && l == n / 2 && h == n - l && l + 1 <= tmp.Length && |a| == 2 * n
    requires so + n <= tabs.Length && ao + 2 * n <= taba.Length && qh0 <= 1
    requires QuarterNormalized(a[2 * l..]) && taba[ao..ao + 2 * l] == a[..2 * l]
    requires SqrtRem(Val(a[2 * l..]), Val(tabs[so + l..so + l + h]),
        Val(taba[ao + 2 * l..ao + 2 * l + h]) + Pow(h) * qh0)
    modifies tabs, taba, tmp
    ensures rh <= 1
    ensures SqrtRem(Val(a), Val(tabs[so..so + n]), Val(taba[ao..ao + n]) + Pow(n) * rh)
    ensures SameOutside(old(tabs[..]), tabs[..], so, so + n)
    ensures SameOutside(old(taba[..]), taba[..], ao, ao + 2 * n)
  {
    hide Val;
    hide Pow;
    hide QuarterNormalized;
    hide SqrtRem;
    hide SqrtStepResult;
    hide Normalized;
    hide SameOutside;
    ghost var was, wasS := taba[..], tabs[..];
    var qh, rh0, q, u, s, r := SqrtDivide(tabs, so, taba, ao, n, l, h, tmp, qh0, a);
    ghost var mid, midS := taba[..], tabs[..];
    rh := SqrtFinish(tabs, so, taba, ao, n, l, h, qh, rh0, a, q, u, s, r);
    SameChain(was, mid, taba[..], ao, ao + 2 * n, ao + l, ao + l + n, ao, ao + 2 * n);
    SameChain(wasS, midS, tabs[..], so, so + n, so, so + l, so, so + n);
  }

  /** The quotient by the doubled root, and the candidate root s and remainder r it leads to. */
  method SqrtDivide(tabs: array<Limb>, so: nat, taba: array<Limb>, ao: nat, n: nat, l: nat, h: nat, tmp: array<Limb>,
          qh0: Limb, ghost a: seq<Limb>)
    returns (qh: Limb, rh0: int, ghost q: int, ghost u: int, ghost s: int, ghost r: int)
    requires tabs != taba && tabs != tmp && taba != tmp
    requires n >= 2 && l == n / 2 && h == n - l && l + 1 <= tmp.Length && |a| == 2 * n
    requires so + n <= tabs.Length && ao + 2 * n <= taba.Length && qh0 <= 1
    requires QuarterNormalized(a[2 * l..]) && taba[ao..ao + 2 * l] == a[..2 * l]
    requires SqrtRem(Val(a[2 * l..]), Val(tabs[so + l..so + l + h]),
        Val(taba[ao + 2 * l..ao + 2 * l + h]) + Pow(h) * qh0)
    modifies tabs, taba, tmp
    ensures qh <= 1 && 0 <= rh0 <= 1 && taba[ao..ao + l] == a[..l]
    ensures q == Val(tabs[so..so + l]) + Pow(l) * qh && 0 <= q <= Pow(l)
    ensures u == Val(taba[ao + l..ao + n]) + Pow(h) * rh0
    ensures s == Val(tabs[so + l..so + n]) * Pow(l) + q && r == u * Pow(l) + Val(a[..l]) - q * q && 0 <= s
    ensures SqrtStepResult(Val(a), s, r)
    ensures SameOutside(old(tabs[..]), tabs[..], so, so + l)
    ensures SameOutside(old(taba[..]), taba[..], ao + l, ao + l + n)
  {
    hide Val;
    hide Pow;
    hide QuarterNormalized;
    hide SqrtRem;
    hide SqrtStepResult;
    hide Normalized;
    ghost var root := tabs[so + l..so + n];
    assert tabs[so + l..so + l + h] == root;
    assert taba[ao + 2 * l..ao + 2 * l + h] == taba[ao + 2 * l..ao + l + n];
    ghost var r1 := Val(taba[ao + 2 * l..ao + l + n]) + Pow(h) * qh0;
    RootNormalized(a[2 * l..], root, r1);
    RemainderOf(Val(a[2 * l..]), Val(root), r1);
    hide SameOutside;
    ghost var was, wasS := taba[..], tabs[..];
    assert was[ao..ao + 2 * l] == a[..2 * l];
    SubSlice(was, ao, a, 2 * l, 0, l);
    SubSlice(was, ao, a, 2 * l, l, 2 * l);
    qh, rh0, q, u := SqrtQuotient(tabs, so, taba, ao, n, l, h, tmp, qh0, r1);
    ghost var mid := taba[..];
    SameSlice(was, mid, ao + l, ao + l + n, ao + 0, ao + l);
    s, r := StepOnArrays(a, root, r1, q, u, l, h);
    SameSlice(wasS, tabs[..], so, so + l, so + l, so + n);
  }

  /** Adds the quotient carry to the root, subtracts the square of the quotient, and corrects. */
  method SqrtFinish(tabs: array<Limb>, so: nat, taba: array<Limb>, ao: nat, n: nat, l: nat, h: nat, qh: Limb,
          rh0: int, ghost a: seq<Limb>, ghost q: int, ghost u: int, ghost s: int, ghost r: int)
    returns (rh: Limb)
    requires tabs != taba && n >= 2 && l == n / 2 && h == n - l && |a| == 2 * n
    requires so + n <= tabs.Length && ao + 2 * n <= taba.Length && qh <= 1 && 0 <= rh0 <= 1
    requires taba[ao..ao + l] == a[..l]
    requires q == Val(tabs[so..so + l]) + Pow(l) * qh && 0 <= q <= Pow(l)
    requires u == Val(taba[ao + l..ao + n]) + Pow(h) * rh0
    requires s == Val(tabs[so + l..so + n]) * Pow(l) + q && r == u * Pow(l) + Val(a[..l]) - q * q && 0 <= s
    requires SqrtStepResult(Val(a), s, r)
    modifies tabs, taba
    ensures rh <= 1
    ensures SqrtRem(Val(a), Val(tabs[so..so + n]), Val(taba[ao..ao + n]) + Pow(n) * rh)
    ensures SameOutside(old(tabs[..]), tabs[..], so, so + n)
    ensures SameOutside(old(taba[..]), taba[..], ao, ao + 2 * n)
  {
    hide Val;
    hide Pow;
    hide SqrtRem;
    hide SqrtStepResult;
    hide SameOutside;
    ghost var was, wasS := taba[..], tabs[..];
    ghost var rem := taba[ao + l..ao + n];
    var k1 := StoreRoot(tabs, so, n, l, h, qh, q, s);
    ghost var lateS := tabs[..];
    assert taba[ao..ao + n] == a[..l] + rem;
    var k := SubtractSquare(tabs, so, taba, ao, n, l, qh, q);
    ghost var late := taba[..];
    ValAppend(a[..l], rem);
    PowAdd(l, h);
    StoredRemainder(Val(a[..l]), Val(rem), u, Pow(l), Pow(h), rh0, q * q, r, Val(taba[ao..ao + n]), k);
    SquareRoom(a);
    rh := SqrtCorrect(tabs, so, taba, ao, n, rh0 - k, Val(a), s, r, k1);
    SameChain(was, late, taba[..], ao, ao + 2 * n, ao, ao + 2 * n, ao, ao + n);
    SameChain(wasS, lateS, tabs[..], so, so + n, so + l, so + l + h, so, so + n);
  }

  lemma {:induction false} Adjoining(t: seq<Limb>, i: nat, j: nat, k: nat)
    requires i <= j <= k <= |t|
    ensures t[i..k] == t[i..j] + t[j..k]
  {
  }

  /** Adds the carry of the quotient to the high half of the root. */
  method StoreRoot(tabs: array<Limb>, so: nat, n: nat, l: nat, h: nat, qh: Limb, ghost q: int, ghost s: int)
    returns (k1: Limb)
    requires n >= 2 && l == n / 2 && h == n - l && so + n <= tabs.Length
    requires q == Val(tabs[so..so + l]) + Pow(l) * qh && s == Val(tabs[so + l..so + n]) * Pow(l) + q
    modifies tabs
    ensures s == Val(tabs[so..so + n]) + Pow(n) * k1
    ensures tabs[so..so + l] == old(tabs[so..so + l])
    ensures SameOutside(old(tabs[..]), tabs[..], so + l, so + l + h)
  {
    hide Val;
    hide Pow;
    hide SameOutside;
    ghost var was := tabs[..];
    ghost var half, root := tabs[so..so + l], tabs[so + l..so + n];
    assert tabs[so + l..so + l + h] == root;
    k1 := MpAddUi(tabs, so + l, qh, h);
    SameSlice(was, tabs[..], so + l, so + l + h, so, so + l);
    ghost var top := tabs[so + l..so + l + h];
    Adjoining(tabs[..], so, so + l, so + n);
    assert tabs[..][so..so + l] == half && tabs[..][so + l..so + n] == top && tabs[..][so..so + n] == tabs[so..so + n];
    ValAppend(half, top);
    PowAdd(l, h);
    StoredRoot(Val(half), Val(root), Val(top), Pow(l), Pow(h), qh, k1, q, s);
  }

  lemma {:induction false} SquareRoom(a: seq<Limb>)
    requires |a| % 2 == 0
    ensures Val(a) < Pow(|a| / 2) * Pow(|a| / 2)
  {
    hide *;
    ValBound(a);
    PowAdd(|a| / 2, |a| / 2);
  }

  lemma {:induction false} RemainderOf(n: int, s: int, r: int)
    requires SqrtRem(n, s, r)
    ensures 0 <= r <= 2 * s
  {
  }

  /** The recurrence on the numbers that the array sections denote. */
  lemma {:induction false} StepOnArrays(a: seq<Limb>, root: seq<Limb>, r1: int, q: int, u: int, l: nat,
          h: nat) returns (s: int, r: int)
    requires |a| == 2 * (l + h) && |root| == h && 1 <= l <= h
    requires SqrtRem(Val(a[2 * l..]), Val(root), r1) && Pow(h) <= 2 * Val(root)
    requires r1 * Pow(l) + Val(a[l..2 * l]) == q * (2 * Val(root)) + u && 0 <= u < 2 * Val(root)
    ensures s == Val(root) * Pow(l) + q && r == u * Pow(l) + Val(a[..l]) - q * q
    ensures SqrtStepResult(Val(a), s, r) && 0 <= q <= Pow(l) && 0 <= s
  {
    hide *;
    s, r := Val(root) * Pow(l) + q, u * Pow(l) + Val(a[..l]) - q * q;
    ValBound(a[l..2 * l]);
    ValBound(a[..l]);
    PowMono(l, h);
    SqrtStep(Val(a[2 * l..]), Val(root), r1, Pow(l), Val(a[l..2 * l]), Val(a[..l]), q, u);
    SplitThree(a, l);
    MulNonneg(Val(root), Pow(l));
  }

  lemma {:induction false} SplitThree(a: seq<Limb>, l: nat)
    requires 2 * l <= |a|
    ensures Val(a) == Val(a[2 * l..]) * (Pow(l) * Pow(l)) + Val(a[l..2 * l]) * Pow(l) + Val(a[..l])
  {
    hide *;
    ValSplit(a, 2 * l);
    ValSplit(a[..2 * l], l);
    assert a[..2 * l][..l] == a[..l] && a[..2 * l][l..] == a[l..2 * l];
    PowAdd(l, l);
    assert l + l == 2 * l;
  }

  /** A root stored in two sections, the carry out of the upper one apart. */
  lemma {:induction false} StoredRoot(low: int, root: int, top: int, pl: int, ph: int, qh: int, k1: int, q: int, s: int)
    requires q == low + pl * qh && top + ph * k1 == root + qh && s == root * pl + q
    ensures s == low + pl * top + pl * ph * k1
  {
    Distrib(root, qh, pl);
    Distrib(top, ph * k1, pl);
    Assoc(pl, ph, k1);
  }

  /** A remainder stored in two sections, its carry and the borrow of the subtraction apart. */
  lemma {:induction false} StoredRemainder(low: int, rem: int, u: int, pl: int, ph: int, rh0: int, q2: int, r: int,
          v: int, k: int)
    requires u == rem + ph * rh0 && r == u * pl + low - q2 && v == low + pl * rem - q2 + pl * ph * k
    ensures r == v + pl * ph * (rh0 - k)
  {
    Distrib(rem, ph * rh0, pl);
    Assoc(pl, ph, rh0);
    Distrib(rh0, k, pl * ph);
  }

  /** mp_sqrtrem: the top limb of the remainder is stored above its n low limbs. */
  method MpSqrtrem(tabs: array<Limb>, so: nat, taba: array<Limb>, ao: nat, n: nat)
    requires tabs != taba && n >= 1
    requires so + n <= tabs.Length && ao + 2 * n <= taba.Length
    requires QuarterNormalized(taba[ao..ao + 2 * n])
    modifies tabs, taba
    ensures SqrtRem(old(Val(taba[ao..ao + 2 * n])), Val(tabs[so..so + n]), Val(taba[ao..ao + n + 1]))
    ensures Normalized(tabs[so..so + n])
    ensures SameOutside(old(tabs[..]), tabs[..], so, so + n)
    ensures SameOutside(old(taba[..]), taba[..], ao, ao + 2 * n)
  {
    hide Val;
    hide Pow;
    hide QuarterNormalized;
    hide SqrtRem;
    ghost var a := taba[ao..ao + 2 * n];
    var tmp := new Limb[n / 2 + 1];
    var rh := SqrtremRec(tabs, so, taba, ao, n, tmp);
    ghost var low := taba[ao..ao + n];
    taba[ao + n] := rh;
    assert taba[ao..ao + n + 1] == low + [rh];
    ValSnoc(low, rh);
    RootNormalized(a, tabs[so..so + n], Val(taba[ao..ao + n + 1]));
  }
}
