/** The loops of the Newton reciprocal: lowering an over-large high half, complementing the
    error, and adding the correction below it. */
module RecipSteps {
  import opened Arith
  import opened Limbs
  import opened LimbOps
  import opened LimbMul
  import opened RecipMath

  /** A number reaches B^m exactly when limb m is non-zero. */
  lemma {:induction false} ReachesTop(t: seq<Limb>, m: nat)
    requires |t| == m + 1
    ensures t[m] == 0 <==> Val(t) < Pow(m)
    ensures t[m] == 1 <==> Pow(m) <= Val(t) < 2 * Pow(m)
  {
    hide *;
    TopLimb(t);
    var x: int := t[m];
    if x == 0 {
      assert Pow(m) * x == 0;
    } else if x == 1 {
      assert Pow(m) * x == Pow(m);
    } else {
      MulLe(2, x, Pow(m));
    }
  }

  /** While the product a*x reaches B^(n+h), lower x by one. */
  method RecipLower(r: array<Limb>, xo: nat, a: array<Limb>, ao: nat, n: nat, h: nat, t: array<Limb>)
    requires r != a && r != t && a != t
    requires xo + h + 1 <= r.Length && ao + n <= a.Length && t.Length == n + h + 1
    requires 0 < Val(a[ao..ao + n]) && Pow(h) <= Val(r[xo..xo + h + 1])
    requires Val(t[..]) == Val(a[ao..ao + n]) * Val(r[xo..xo + h + 1])
    requires Pow(n + h) < Val(a[ao..ao + n]) * (Val(r[xo..xo + h + 1]) + 2)
    modifies r, t
    ensures Val(t[..]) == Val(a[ao..ao + n]) * Val(r[xo..xo + h + 1])
    ensures Val(t[..]) < Pow(n + h) < Val(a[ao..ao + n]) * (Val(r[xo..xo + h + 1]) + 2)
    ensures Pow(h) <= Val(r[xo..xo + h + 1])
    ensures SameOutside(old(r[..]), r[..], xo, xo + h + 1)
  {
    hide Val;
    hide Pow;
    ghost var av := Val(a[ao..ao + n]);
    ReachesTop(t[..], n + h);
    while t[n + h] != 0
      invariant Val(t[..]) == av * Val(r[xo..xo + h + 1])
      invariant Pow(n + h) < av * (Val(r[xo..xo + h + 1]) + 2)
      invariant Pow(h) <= Val(r[xo..xo + h + 1])
      invariant t[n + h] == 0 ==> Val(t[..]) < Pow(n + h)
      invariant SameOutside(old(r[..]), r[..], xo, xo + h + 1)
      decreases Val(t[..])
    {
      ghost var x, tv := r[xo..xo + h + 1], t[..];
      LowerOnce(a[ao..ao + n], x, tv, h);
      var k := MpSubUi(r, xo, 1, h + 1);
      NoBorrow(x, r[xo..xo + h + 1], 1, k);
      SubtractLow(t, a, ao, n, h);
      ReachesTop(t[..], n + h);
    }
  }

  /** One correction of an over-large high half. */
  lemma {:induction false} LowerOnce(a: seq<Limb>, x: seq<Limb>, t: seq<Limb>, h: nat)
    requires |t| == |a| + h + 1 && t[|a| + h] != 0 && 0 < Val(a)
    requires Val(t) == Val(a) * Val(x)
    ensures Val(t) - Val(a) == Val(a) * (Val(x) - 1)
    ensures Pow(|a| + h) < Val(a) * (Val(x) - 1 + 2)
    ensures Pow(h) <= Val(x) - 1 && Val(a) <= Val(t)
  {
    hide *;
    ReachesTop(t, |a| + h);
    Decrement(Val(a), Val(x), Pow(|a| + h));
    StaysHigh(a, Val(x), h);
    MulLe(1, Val(x), Val(a));
  }

  lemma {:induction false} StaysHigh(a: seq<Limb>, x: int, h: nat)
    requires Pow(|a| + h) <= Val(a) * x
    ensures Pow(h) < x
  {
    hide *;
    ValBound(a);
    PowAdd(|a|, h);
    if x <= Pow(h) {
      MulLe(x, Pow(h), Val(a));
      MulLt(Val(a), Pow(|a|), Pow(h));
      assert false;
    }
  }

  /** t[] -= a[], a shorter than t, when the difference is not negative. */
  method SubtractLow(t: array<Limb>, a: array<Limb>, ao: nat, n: nat, h: nat)
    requires a != t && ao + n <= a.Length && t.Length == n + h + 1
    requires Val(a[ao..ao + n]) <= Val(t[..])
    modifies t
    ensures Val(t[..]) == old(Val(t[..])) - Val(a[ao..ao + n])
  {
    hide Val;
    hide Pow;
    ghost var s := t[..];
    assert s[..n] == t[0..0 + n] && s[n..] == t[n..n + (h + 1)];
    var c := MpSub(t, 0, t, 0, a, ao, n, 0);
    ghost var low := t[0..n];
    assert t[n..n + (h + 1)] == s[n..];
    var k := MpSubUi(t, n, c, h + 1);
    assert t[..] == low + t[n..n + (h + 1)];
    assert t[0..n] == low;
    Joined(s, n, low, t[n..n + (h + 1)], Val(a[ao..ao + n]), c, k);
  }

  lemma {:induction false} Joined(s: seq<Limb>, n: nat, low: seq<Limb>, high: seq<Limb>, a: nat, c: int, k: nat)
    requires n < |s| && |low| == n && |high| == |s| - n
    requires Val(low) == Val(s[..n]) - a - 0 + Pow(n) * c
    requires Val(high) == Val(s[n..]) - c + Pow(|s| - n) * k
    requires a <= Val(s)
    ensures Val(low + high) == Val(s) - a
  {
    hide *;
    ValSplit(s, n);
    ValAppend(low, high);
    PowAdd(n, |s| - n);
    Distrib(Val(s[n..]), c, Pow(n));
    Distrib(Val(s[n..]) - c, Pow(|s| - n) * k, Pow(n));
    Assoc(Pow(n), Pow(|s| - n), k);
    ValBound(low + high);
    NoWrap(Pow(|s|), k, Val(low + high), Val(s) - a);
  }

  /** A result that fits cannot have wrapped. */
  lemma {:induction false} NoWrap(p: nat, k: nat, v: int, exact: int)
    requires v == exact + p * k && 0 <= exact && v < p
    ensures k == 0 && v == exact
  {
    if k > 0 {
      MulLe(1, k, p);
      assert false;
    }
    assert p * k == 0;
  }

  lemma {:induction false} NoBorrow(s: seq<Limb>, t: seq<Limb>, b: int, k: Limb)
    requires |s| == |t| && Val(t) == Val(s) - b + Pow(|s|) * k
    requires b <= Val(s)
    ensures Val(t) == Val(s) - b
  {
    hide *;
    ValBound(t);
    NoWrap(Pow(|s|), k, Val(t), Val(s) - b);
  }

  /** t[] = B^m - t[], by negating all m + 1 limbs and incrementing the top one. */
  method RecipComplement(t: array<Limb>, m: nat)
    requires t.Length == m + 1
    requires 0 < Val(t[..]) < Pow(m)
    modifies t
    ensures Val(t[..]) == Pow(m) - old(Val(t[..]))
  {
    hide Val;
    hide Pow;
    ghost var s := t[..];
    assert s == t[0..0 + (m + 1)];
    var k := MpNeg(t, 0, t, 0, m + 1, 0);
    ghost var neg := t[..];
    assert neg == t[0..0 + (m + 1)];
    NegatedTop(s, neg, m, k);
    t[m] := (t[m] + 1) % B;
    assert t[..] == neg[..m] + [0];
  }

  lemma {:induction false} NegatedTop(s: seq<Limb>, neg: seq<Limb>, m: nat, k: int)
    requires |s| == m + 1 && |neg| == m + 1 && 0 <= k <= 1
    requires 0 < Val(s) < Pow(m) && Val(neg) == Pow(m + 1) * k - Val(s) - 0
    ensures neg[m] == B - 1
    ensures Val(neg[..m] + [0]) == Pow(m) - Val(s)
  {
    hide *;
    TimesBit(Pow(m + 1), k);
    PowStep(m);
    TopLimb(neg);
    var x: int := neg[m];
    if x < B - 1 {
      MulLe(x + 1, B - 1, Pow(m));
      Distrib(x, 1, Pow(m));
      Distrib(B, 1, Pow(m));
      assert false;
    }
    Distrib(B, 1, Pow(m));
    ValSnoc(neg[..m], 0);
    assert Pow(m) * 0 == 0;
    assert neg[..|neg| - 1] == neg[..m];
  }

  /** The correction below the high half x: its low l limbs are stored, its upper limbs added
      to x. The carry out of the last addition is always zero. */
  method RecipCombine(r: array<Limb>, ro: nat, n: nat, l: nat, h: nat, u: array<Limb>, ghost a: nat,
          ghost t: seq<Limb>)
    requires r != u && h > l && n == l + h && ro + n + 1 <= r.Length
    requires u.Length == n + 2 * h - l + 2 && |t| == n + h + 1
    requires Pow(n) <= 2 * a && a < Pow(n) && 2 * l < n
    requires Pow(h) <= Val(r[ro + l..ro + l + h + 1]) < 2 * Pow(h)
    requires Val(t) == Pow(n + h) - a * Val(r[ro + l..ro + l + h + 1]) && 0 < Val(t) < 2 * a
    requires Val(u[..]) == Val(t[l..]) * Val(r[ro + l..ro + l + h + 1])
    modifies r
    ensures Reciprocal(a, Val(r[ro..ro + n + 1]), Pow(2 * n))
    ensures r[ro + n] == 1
    ensures SameOutside(old(r[..]), r[..], ro, ro + n + 1)
  {
    hide Val;
    hide Pow;
    hide Reciprocal;
    ghost var x := r[ro + l..ro + l + h + 1];
    ghost var us, was := u[..], r[..];
    ReachesTop(x, h);
    var k := 2 * h - l;
    CopyLimbs(r, ro, u, k, l);
    ghost var low := r[ro..ro + l];
    assert low == us[k..2 * h];
    SameSlice(was, r[..], ro, ro + l, ro + l, ro + l + h + 1);
    assert r[ro + l..ro + l + h + 1] == r[..][ro + l..ro + l + h + 1];
    assert r[ro + l..ro + l + h] == x[..h] && r[ro + l + h] == x[h];
    assert u[2 * h..2 * h + h] == us[2 * h..3 * h];
    var c := MpAdd(r, ro + l, r, ro + l, u, 2 * h, h, 0);
    ghost var mid := r[ro + l..ro + l + h];
    assert r[ro..ro + l] == low;
    assert r[ro + l + h] == x[h];
    assert r[ro..ro + n + 1] == low + (mid + [1]);
    CombinedReciprocal(a, t, x, us, mid, c, n, l, h);
  }

  lemma {:induction false} CombinedReciprocal(a: nat, t: seq<Limb>, x: seq<Limb>, u: seq<Limb>, mid: seq<Limb>,
          c: int, n: nat, l: nat, h: nat)
    requires h > l && n == l + h && 2 * l < n && |x| == h + 1 && |mid| == h
    requires |u| == n + 2 * h - l + 2 && |t| == n + h + 1 && 0 <= c
    requires Pow(n) <= 2 * a && a < Pow(n) && x[h] == 1
    requires Val(t) == Pow(n + h) - a * Val(x) && 0 < Val(t) < 2 * a
    requires Val(u) == Val(t[l..]) * Val(x)
    requires Val(mid) + Pow(h) * c == Val(x[..h]) + Val(u[2 * h..3 * h]) + 0
    ensures Reciprocal(a, Val(u[2 * h - l..2 * h] + (mid + [1])), Pow(2 * n))
  {
    hide Val;
    hide Pow;
    hide Reciprocal;
    var H, L, N, K := Pow(h), Pow(l), Pow(n), Pow(2 * h - l);
    var f := Val(u[2 * h - l..]);
    PowAdd(h, l);
    PowAdd(h, h);
    PowAdd(2 * h - l, l);
    PowAdd(n, n);
    PowAdd(n, h);
    assert N * N == Pow(2 * n) by { assert n + n == 2 * n; }
    assert K * L == H * H by { assert 2 * h - l + l == 2 * h; }
    LowSquare(l, n);
    ValSplit(t, l);
    ValBound(t[..l]);
    ValSplit(u, 2 * h - l);
    ValBound(u[..2 * h - l]);
    NewtonStep(a, Val(x), Val(t), Val(t[l..]), Val(t[..l]), Val(u), f, Val(u[..2 * h - l]), H, L, N, K);
    ReciprocalRange(a, Val(x) * L + f, N);
    CorrectionParts(x, u, mid, c, l, h);
    NoCarry(Val(x) * L + f, Val(u[2 * h - l..2 * h] + (mid + [1])), N, c + Val(u[3 * h..]));
  }

  lemma {:induction false} LowSquare(l: nat, n: nat)
    requires 2 * l < n
    ensures 10 * (Pow(l) * Pow(l)) <= Pow(n)
  {
    hide Pow;
    PowAdd(l, l);
    PowStep(2 * l);
    PowMono(2 * l + 1, n);
    assert l + l == 2 * l;
  }

  lemma {:induction false} NoCarry(exact: int, stored: int, n: int, k: int)
    requires exact == stored + n * k && n <= stored && exact < 2 * n && 0 <= k && 0 < n
    ensures stored == exact
  {
    if k > 0 {
      MulLe(1, k, n);
      assert false;
    }
    assert n * k == 0;
  }

  lemma {:induction false} CorrectionParts(x: seq<Limb>, u: seq<Limb>, mid: seq<Limb>, c: int, l: nat, h: nat)
    requires h > l && |x| == h + 1 && |mid| == h && |u| >= 3 * h && x[h] == 1
    requires Val(mid) + Pow(h) * c == Val(x[..h]) + Val(u[2 * h..3 * h]) + 0
    ensures var stored := Val(u[2 * h - l..2 * h] + (mid + [1]));
            && Val(x) * Pow(l) + Val(u[2 * h - l..]) == stored + Pow(l + h) * (c + Val(u[3 * h..]))
            && Pow(l + h) <= stored
  {
    hide *;
    var low := u[2 * h - l..2 * h];
    assert u[2 * h - l..] == low + u[2 * h..];
    ValAppend(low, u[2 * h..]);
    assert u[2 * h..] == u[2 * h..3 * h] + u[3 * h..];
    ValAppend(u[2 * h..3 * h], u[3 * h..]);
    ValSnoc(mid, 1);
    ValAppend(low, mid + [1]);
    TopLimb(x);
    PowAdd(l, h);
    PartsArith(Val(x), Val(x[..h]), Val(low), Val(u[2 * h..]), Val(u[2 * h..3 * h]), Val(u[3 * h..]),
               Val(mid), Val(mid + [1]), c, Pow(l), Pow(h), Pow(l + h));
  }

  lemma {:induction false} PartsArith(x: int, xlow: int, low: int, uh: int, uh0: int, uh1: int, mid: int, mid1: int,
          c: int, L: int, H: int, N: int)
    requires x == xlow + H && N == L * H && mid1 == mid + H && uh == uh0 + H * uh1
    requires mid + H * c == xlow + uh0 && 0 <= low && 0 <= mid && 0 < L
    ensures x * L + (low + L * uh) == (low + L * mid1) + N * (c + uh1)
    ensures N <= low + L * mid1
  {
    assert x + uh == mid1 + H * (c + uh1) by { Distrib(c, uh1, H); }
    Distrib(x, uh, L);
    Distrib(mid1, H * (c + uh1), L);
    Assoc(L, H, c + uh1);
    Distrib(mid, H, L);
    MulNonneg(L, mid);
  }

  // ----- from the high half to the whole -----

  lemma {:induction false} HighHalfScaled(a: seq<Limb>, x: seq<Limb>, l: nat, h: nat)
    requires |a| == l + h && |x| == h + 1 && h >= 1 && Normalized(a)
    requires Reciprocal(Val(a[l..]), Val(x), Pow(2 * h))
    ensures Pow(l + h + h) < Val(a) * (Val(x) + 2)
    ensures 0 < Val(a)
  {
    hide Val;
    hide Pow;
    hide Normalized;
    NormalizedBound(a);
    ValSplit(a, l);
    ValBound(a[..l]);
    PowAdd(2 * h, l);
    assert 2 * h + l == l + h + h;
    HighHalf(Val(a), Val(a[l..]), Val(a[..l]), Val(x), Pow(2 * h), Pow(l));
  }

  /** After the correction loop the high half is still in [B^h, 2*B^h) and its error small. */
  lemma {:induction false} LoweredRange(a: seq<Limb>, x: seq<Limb>, t: seq<Limb>, l: nat, h: nat)
    requires |a| == l + h && |x| == h + 1 && h >= 1 && Normalized(a)
    requires Val(t) == Val(a) * Val(x) && Val(t) < Pow(l + h + h) < Val(a) * (Val(x) + 2)
    requires Pow(h) <= Val(x)
    ensures Val(x) < 2 * Pow(h)
    ensures 0 < Val(t) && 0 < Pow(l + h + h) - Val(t) < 2 * Val(a)
  {
    hide *;
    NormalizedBound(a);
    PowAdd(l + h, h);
    Distrib(Val(x), 2, Val(a));
    LoweredArith(Val(a), Val(x), Pow(l + h), Pow(h));
    MulNonneg(Val(a), Val(x));
    MulLe(1, Val(x), Val(a));
  }

  lemma {:induction false} LoweredArith(a: int, x: int, n: int, h: int)
    requires 0 < n <= 2 * a && a < n && 0 < h
    requires a * x < n * h
    ensures x < 2 * h
  {
    if x >= 2 * h {
      MulLe(2 * h, x, a);
      Assoc(a, 2, h);
      MulLe(n, 2 * a, h);
      assert false;
    }
  }

  /** Extends a reciprocal of the high h limbs of a to all n = l + h limbs. */
  method RecipExtend(r: array<Limb>, ro: nat, a: array<Limb>, ao: nat, n: nat, l: nat, h: nat)
    requires r != a && n == l + h && l < h && 2 * l < n
    requires ro + n + 1 <= r.Length && ao + n <= a.Length
    requires Normalized(a[ao..ao + n])
    requires Reciprocal(Val(a[ao + l..ao + l + h]), Val(r[ro + l..ro + l + h + 1]), Pow(2 * h))
    requires r[ro + l + h] == 1
    modifies r
    ensures Reciprocal(Val(a[ao..ao + n]), Val(r[ro..ro + n + 1]), Pow(2 * n))
    ensures r[ro + n] == 1
    ensures SameOutside(old(r[..]), r[..], ro, ro + n + 1)
  {
    hide Val;
    hide Pow;
    hide Normalized;
    hide Reciprocal;
    ghost var s := a[ao..ao + n];
    var t := new Limb[n + h + 1];
    var u := new Limb[n + 2 * h - l + 2];
    assert s[l..] == a[ao + l..ao + l + h];
    ReachesTop(r[ro + l..ro + l + h + 1], h);
    HighHalfScaled(s, r[ro + l..ro + l + h + 1], l, h);
    MpMul(t, 0, a, ao, n, r, ro + l, h + 1);
    assert t[..] == t[0..0 + n + (h + 1)];
    RecipLower(r, ro + l, a, ao, n, h, t);
    LoweredRange(s, r[ro + l..ro + l + h + 1], t[..], l, h);
    RecipComplement(t, n + h);
    MpMul(u, 0, t, l, n + h + 1 - l, r, ro + l, h + 1);
    assert u[..] == u[0..0 + (n + h + 1 - l) + (h + 1)];
    assert t[l..l + (n + h + 1 - l)] == t[..][l..];
    NormalizedBound(s);
    RecipCombine(r, ro, n, l, h, u, Val(s), t[..]);
  }
}
