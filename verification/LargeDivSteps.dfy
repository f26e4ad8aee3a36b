/** The pieces of division by reciprocal that do not recurse: reading the quotient estimate,
    forming the remainder, and the final increments. */
module LargeDivSteps {
  import opened Arith
  import opened Limbs
  import opened LimbOps
  import opened LargeDivMath

  /** The top nq + 1 limbs of inverse times the top n + 1 limbs of the dividend. */
  lemma {:induction false} LargeEstimate(a: seq<Limb>, b: seq<Limb>, inv: seq<Limb>, t: seq<Limb>, nq: nat, n: nat)
    requires |b| >= 1 && |a| == |b| + nq && nq <= n && n + 1 <= |a| && nq <= 2 * n + 1
    requires |inv| == n + 1 && |t| == 2 * (n + 1) && 0 < Val(b)
    requires LowerInverse(Val(inv), Val(b), Pow(n + |b|)) && Val(inv) <= 2 * Pow(n)
    requires Val(t) == Val(inv) * Val(a[|a| - (n + 1)..])
    ensures 0 <= Val(a) - Val(t[2 * n + 1 - nq..]) * Val(b) < 10 * Val(b)
  {
    hide *;
    var na, nb := |a|, |b|;
    var lo, sh := na - (n + 1), 2 * n + 1 - nq;
    ValSplit(a, lo);
    ValBound(a[..lo]);
    ValSplit(t, sh);
    ValBound(t[..sh]);
    PowAdd(lo, sh);
    assert lo + sh == n + nb;
    ValBound(a);
    PowMono(na, n + nb);
    InverseFits(Val(inv), lo, n, na, nb);
    QuotientEstimate(Val(a), Val(a[lo..]), Val(a[..lo]), Val(inv), Val(b), Val(t[sh..]), Val(t[..sh]),
                     Pow(lo), Pow(sh), Pow(n + nb));
  }

  lemma {:induction false} InverseFits(inv: int, lo: nat, n: nat, na: nat, nb: nat)
    requires inv <= 2 * Pow(n) && lo + n + 1 == na && na <= n + nb
    ensures Pow(lo) * inv <= Pow(n + nb)
  {
    hide Val;
    hide Pow;
    hide Normalized;
    MulLe(inv, 2 * Pow(n), Pow(lo));
    Assoc(Pow(lo), 2, Pow(n));
    PowAdd(lo, n);
    PowStep(lo + n);
    PowMono(lo + n + 1, n + nb);
  }

  /** Two residues below p that differ by a multiple of p are equal. */
  lemma {:induction false} SameResidue(p: int, x: int, y: int, j: int)
    requires 0 < p && x == y + p * j && 0 <= x < p && 0 <= y < p
    ensures x == y
  {
    if j >= 1 {
      MulLe(1, j, p);
      assert false;
    } else if j <= -1 {
      MulLe(j, -1, p);
      assert false;
    }
    assert p * j == 0;
  }

  /** Only the low m limbs of dividend and product need to be subtracted. */
  lemma {:induction false} LowDifference(a: seq<Limb>, t: seq<Limb>, m: nat, r: seq<Limb>, k: int)
    requires m <= |a| && m <= |t| && |r| == m
    requires Val(r) == Val(a[..m]) - Val(t[..m]) - 0 + Pow(m) * k
    requires 0 <= Val(a) - Val(t) < Pow(m)
    ensures Val(r) == Val(a) - Val(t)
  {
    hide *;
    ValSplit(a, m);
    ValSplit(t, m);
    ValBound(r);
    LowDifferenceArith(Pow(m), Val(a), Val(a[..m]), Val(a[m..]), Val(t), Val(t[..m]), Val(t[m..]), Val(r), k);
  }

  lemma {:induction false} LowDifferenceArith(p: int, a: int, la: int, ha: int, t: int, lt: int, ht: int, r: int,
          k: int)
    requires 0 < p && a == la + p * ha && t == lt + p * ht
    requires r == la - lt + p * k && 0 <= a - t < p && 0 <= r < p
    ensures r == a - t
  {
    Distrib(ht, ha, p);
    Distrib(ht - ha, k, p);
    SameResidue(p, r, a - t, ht - ha + k);
  }

  /** Subtract the divisor from the remainder until it is below the divisor. */
  method LargeFixup(q: array<Limb>, qo: nat, nq: nat, a: array<Limb>, ao: nat, b: array<Limb>, bo: nat, nb: nat,
          ghost dividend: int)
    requires q != a && q != b && a != b && nb >= 1
    requires qo + nq + 1 <= q.Length && ao + nb + 1 <= a.Length && bo + nb <= b.Length
    requires Normalized(b[bo..bo + nb]) && dividend < Pow(nb + nq)
    requires dividend == Val(q[qo..qo + (nq + 1)]) * Val(b[bo..bo + nb]) + Val(a[ao..ao + nb + 1])
    modifies q, a
    ensures Val(a[ao..ao + nb]) < Val(b[bo..bo + nb])
    ensures dividend == Val(q[qo..qo + (nq + 1)]) * Val(b[bo..bo + nb]) + Val(a[ao..ao + nb])
    ensures SameOutside(old(q[..]), q[..], qo, qo + (nq + 1))
    ensures SameOutside(old(a[..]), a[..], ao, ao + nb + 1)
  {
    hide Val;
    hide Pow;
    hide Normalized;
    ghost var bs := b[bo..bo + nb];
    while true
      invariant dividend == Val(q[qo..qo + (nq + 1)]) * Val(bs) + Val(a[ao..ao + nb + 1])
      invariant SameOutside(old(q[..]), q[..], qo, qo + (nq + 1))
      invariant SameOutside(old(a[..]), a[..], ao, ao + nb + 1)
      decreases Val(a[ao..ao + nb + 1])
    {
      ghost var rs, qs := a[ao..ao + nb + 1], q[qo..qo + (nq + 1)];
      assert rs[..nb] == a[ao..ao + nb] && rs[nb] == a[ao + nb];
      BelowDivisor(rs, bs);
      var done := a[ao + nb] == 0;
      if done {
        var c := MpCmp(a, ao, b, bo, nb);
        done := c < 0;
      }
      if done { break; }
      var k := MpSub(a, ao, a, ao, b, bo, nb, 0);
      assert a[ao + nb] == rs[nb];
      LargeStep(rs, a[ao..ao + nb], bs, k);
      a[ao + nb] := (a[ao + nb] - k) % B;
      assert a[ao..ao + nb + 1] == a[ao..ao + nb] + [a[ao + nb]];
      var k' := MpAddUi(q, qo, 1, nq + 1);
      QuotientFits(qs, q[qo..qo + (nq + 1)], bs, Val(rs), dividend, nq, k');
    }
  }

  lemma {:induction false} BelowDivisor(r: seq<Limb>, b: seq<Limb>)
    requires |r| == |b| + 1 && Normalized(b)
    ensures Val(r) < Val(b) <==> r[|b|] == 0 && Val(r[..|b|]) < Val(b)
    ensures r[|b|] == 0 ==> Val(r) == Val(r[..|b|])
  {
    hide *;
    TopLimb(r);
    assert r[..|r| - 1] == r[..|b|];
    ValBound(b);
    var x: int := r[|b|];
    if x == 0 {
      assert Pow(|b|) * x == 0;
    } else {
      MulLe(1, x, Pow(|b|));
    }
  }

  lemma {:induction false} LargeStep(r: seq<Limb>, low: seq<Limb>, b: seq<Limb>, k: int)
    requires |r| == |b| + 1 && |low| == |b| && Normalized(b) && 0 <= k <= 1
    requires Val(b) <= Val(r)
    requires Val(low) == Val(r[..|b|]) - Val(b) - 0 + Pow(|b|) * k
    ensures 0 <= r[|b|] - k < B
    ensures Val(low + [(r[|b|] - k) % B]) == Val(r) - Val(b)
    ensures Val(b) > 0
  {
    hide Val;
    hide Pow;
    hide Normalized;
    NormalizedBound(b);
    TopLimb(r);
    assert r[..|r| - 1] == r[..|b|];
    ValBound(low);
    LargeStepArith(Pow(|b|), r[|b|], Val(r[..|b|]), Val(low), Val(b), k);
    ValSnoc(low, (r[|b|] - k) % B);
  }

  lemma {:induction false} LargeStepArith(p: int, top: int, rlow: int, low: int, b: int, k: int)
    requires 0 < p && 0 <= top < B && 0 <= k <= 1
    requires b <= rlow + p * top && low == rlow - b + p * k && low < p
    ensures 0 <= top - k < B && (top - k) % B == top - k
    ensures low + p * ((top - k) % B) == rlow + p * top - b
  {
    TimesBit(p, k);
    if top < k {
      TimesBit(p, top);
      assert false;
    }
    Distrib(top, k, p);
  }

  lemma {:induction false} QuotientFits(q: seq<Limb>, q': seq<Limb>, b: seq<Limb>, r: int, dividend: int, nq: nat,
          k: Limb)
    requires |q| == nq + 1 && |q'| == nq + 1 && Normalized(b)
    requires dividend == Val(q) * Val(b) + r && Val(b) <= r && dividend < Pow(|b| + nq)
    requires Val(q') + Pow(nq + 1) * k == Val(q) + 1
    ensures Val(q') == Val(q) + 1
    ensures dividend == Val(q') * Val(b) + (r - Val(b))
  {
    hide *;
    NormalizedBound(b);
    PowAdd(|b|, nq);
    PowStep(nq);
    Distrib(Val(q), 1, Val(b));
    if k >= 1 {
      MulLe(1, k, Pow(nq + 1));
      FitsArith(Val(q) + 1, Val(b), Pow(|b|), Pow(nq));
      assert false;
    }
    var kk: int := k;
    assert Pow(nq + 1) * kk == 0;
  }

  lemma {:induction false} FitsArith(q1: int, b: int, pb: int, pq: int)
    requires 0 < b && pb <= 2 * b && q1 * b < pb * pq && 0 < pq
    ensures q1 < B * pq
  {
    MulLe(pb, 2 * b, pq);
    Assoc(2, b, pq);
    Assoc(2, pq, b);
    CancelLt(q1, 2 * pq, b);
  }
}
