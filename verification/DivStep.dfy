/** The inner steps of schoolbook division: one quotient limb from a window of nb + 1 limbs. */
module DivStep {
  import opened Arith
  import opened Limbs
  import opened LimbOps
  import opened LimbMul

  /** The two-limb by one-limb estimate of a quotient limb is never too small. */
  lemma {:induction false} EstimateNotTooSmall(window: seq<Limb>, b: seq<Limb>, q: Limb)
    requires |b| >= 2 && |window| == |b| + 1
    requires Val(window[1..]) < Val(b)
    requires var t, u, b1 := window[|b|], window[|b| - 1], b[|b| - 1];
             b1 > 0 && if t >= b1 then q == B - 1 else q == (t * B + u) / b1
    ensures Val(window) < (q + 1) * Val(b)
  {
    hide *;
    var n := |b|;
    var t: int, u: int, b1: int := window[n], window[n - 1], b[n - 1];
    if t >= b1 {
      assert window == [window[0]] + window[1..];
      ConsVal(window[0], window[1..]);
      ScaledUp(window[0], Val(window[1..]), Val(b), q + 1);
    } else {
      TopLimb(b);
      TopTwoLimbs(window);
      EstimateArith(t * B + u, b1, q, Pow(n - 1), Val(window), Val(b));
    }
  }

  lemma {:induction false} ScaledUp(x: Limb, v: int, bv: int, q1: int)
    requires v < bv && q1 == B
    ensures x + B * v < q1 * bv
  {
    MulLe(v + 1, bv, B);
  }

  lemma {:induction false} EstimateArith(n: nat, b1: int, q: int, p: nat, w: int, bv: int)
    requires 0 < b1 && q == n / b1
    requires w < n * p + p && p * b1 <= bv
    ensures w < (q + 1) * bv
  {
    DivMod(n, b1);
    Distrib(q, 1, b1);
    MulLe(n + 1, (q + 1) * b1, p);
    Distrib(n, 1, p);
    Assoc(q + 1, b1, p);
    MulLe(p * b1, bv, q + 1);
  }

  lemma {:induction false} TopTwoLimbs(s: seq<Limb>)
    requires |s| >= 2
    ensures Val(s) < (s[|s| - 1] * B + s[|s| - 2]) * Pow(|s| - 2) + Pow(|s| - 2)
  {
    hide *;
    var n := |s|;
    var init := s[..n - 1];
    TopLimb(s);
    TopLimb(init);
    assert init[n - 2] == s[n - 2];
    PowStep(n - 2);
    Assoc(s[n - 1], B, Pow(n - 2));
    Distrib(s[n - 1] * B, s[n - 2], Pow(n - 2));
  }

  /** The window minus q times the divisor, made non-negative by decrementing q. */
  method ReduceWindow(a: array<Limb>, wo: nat, b: array<Limb>, bo: nat, nb: nat, q0: Limb)
    returns (q: Limb)
    requires a != b && wo + nb + 1 <= a.Length && bo + nb <= b.Length
    requires Val(a[wo..wo + nb + 1]) < (q0 + 1) * Val(b[bo..bo + nb])
    modifies a
    ensures Val(a[wo..wo + nb]) < Val(b[bo..bo + nb])
    ensures old(Val(a[wo..wo + nb + 1])) == q * Val(b[bo..bo + nb]) + Val(a[wo..wo + nb])
    ensures SameOutside(old(a[..]), a[..], wo, wo + nb + 1)
  {
    hide Val;
    hide Pow;
    hide SubLimb;
    ghost var w, bv := Val(a[wo..wo + nb + 1]), Val(b[bo..bo + nb]);
    ghost var s := a[wo..wo + nb + 1];
    assert s[..nb] == a[wo..wo + nb] && s == s[..nb] + [s[nb]];
    ValSnoc(s[..nb], s[nb]);
    q := q0;
    var r := MpSubMul1(a, wo, b, bo, nb, q);
    assert a[wo + nb] == s[nb];
    var (top, c) := SubLimb(a[wo + nb], r);
    a[wo + nb] := top;
    WindowBorrow(a[wo..wo + nb], s[nb], r, top, c, w, q, bv);
    if c != 0 {
      q := AddBack(a, wo, b, bo, nb, q, w);
    }
    WindowDone(a[wo..wo + nb], a[wo + nb], q, w, bv, b[bo..bo + nb]);
  }

  lemma {:induction false} WindowBorrow(low: seq<Limb>, v: Limb, r: Limb, top: Limb, c: Limb, w: int, q: Limb, bv: int)
    requires top as int - B * c == v as int - r
    requires Val(low) + Pow(|low|) * v == w - bv * q + Pow(|low|) * r
    ensures Val(low) + Pow(|low|) * top == w - q * bv + Pow(|low| + 1) * c
  {
    hide *;
    PowStep(|low|);
    CarryChain(Pow(|low|), v - r, 0, top, -(c as int));
    Distrib(v, r, Pow(|low|));
    assert (B * Pow(|low|)) * -(c as int) == -(Pow(|low| + 1) * c);
  }

  lemma {:induction false} WindowDone(low: seq<Limb>, top: Limb, q: Limb, w: int, bv: int, b: seq<Limb>)
    requires |low| == |b| && bv == Val(b)
    requires Val(low) + Pow(|low|) * top == w - q * bv < bv
    ensures Val(low) == w - q * bv
  {
    hide *;
    ValBound(b);
    if top >= 1 {
      MulLe(1, top, Pow(|low|));
      assert false;
    }
  }

  /** The correction loop: add the divisor back until the window stops being negative, which
      is when the addition carries out of its top limb. */
  method AddBack(a: array<Limb>, wo: nat, b: array<Limb>, bo: nat, nb: nat, q0: Limb, ghost w: nat)
    returns (q: Limb)
    requires a != b && wo + nb + 1 <= a.Length && bo + nb <= b.Length
    requires Val(a[wo..wo + nb]) + Pow(nb) * a[wo + nb] == w - q0 * Val(b[bo..bo + nb]) + Pow(nb + 1)
    modifies a
    ensures 0 <= w - q * Val(b[bo..bo + nb]) < Val(b[bo..bo + nb])
    ensures Val(a[wo..wo + nb]) + Pow(nb) * a[wo + nb] == w - q * Val(b[bo..bo + nb])
    ensures SameOutside(old(a[..]), a[..], wo, wo + nb + 1)
  {
    hide Val;
    hide Pow;
    ghost var bv := Val(b[bo..bo + nb]);
    q := q0;
    while true
      invariant SameOutside(old(a[..]), a[..], wo, wo + nb + 1)
      invariant Val(a[wo..wo + nb]) + Pow(nb) * a[wo + nb] == w - q * bv + Pow(nb + 1)
      decreases q
    {
      Negative(a[wo..wo + nb], a[wo + nb], q, w, bv);
      ghost var low, top := a[wo..wo + nb], a[wo + nb];
      q := q - 1;
      var c := MpAdd(a, wo, a, wo, b, bo, nb, 0);
      assert a[wo + nb] == top;
      AddBackStep(low, a[wo..wo + nb], top, c, q, w, bv);
      if c != 0 {
        a[wo + nb] := (a[wo + nb] + 1) % B;
        if a[wo + nb] == 0 { break; }
      }
    }
  }

  lemma {:induction false} Negative(low: seq<Limb>, top: Limb, q: Limb, w: nat, bv: int)
    requires Val(low) + Pow(|low|) * top == w - q * bv + Pow(|low| + 1)
    ensures w - q * bv < 0 && q > 0
  {
    hide *;
    ValBound(low);
    PowStep(|low|);
    TopBound(Pow(|low|), top);
    if q == 0 {
      TimesBit(bv, q);
      assert false;
    }
  }

  lemma {:induction false} TopBound(p: nat, top: Limb)
    ensures p * top + p <= B * p
  {
    MulLe(top, B - 1, p);
  }

  lemma {:induction false} AddBackStep(low: seq<Limb>, low': seq<Limb>, top: Limb, c: int, q: Limb, w: nat, bv: int)
    requires |low| == |low'| && 0 <= c <= 1
    requires Val(low) + Pow(|low|) * top == w - (q + 1) * bv + Pow(|low| + 1)
    requires w - (q + 1) * bv < 0
    requires Val(low') + Pow(|low|) * c == Val(low) + bv
    ensures c == 0 ==> Val(low') + Pow(|low|) * top == w - q * bv + Pow(|low| + 1)
    ensures c == 1 && top < B - 1 ==> Val(low') + Pow(|low|) * (top + 1) == w - q * bv + Pow(|low| + 1)
    ensures c == 1 && top == B - 1 ==> Val(low') + Pow(|low|) * 0 == w - q * bv && 0 <= w - q * bv < bv
  {
    hide *;
    Distrib(q, 1, bv);
    Distrib(top, 1, Pow(|low|));
    PowStep(|low|);
  }

  /** The leading quotient limb: 1 when the top nb limbs reach the divisor, else 0. */
  method FirstQuotient(a: array<Limb>, wo: nat, b: array<Limb>, bo: nat, nb: nat) returns (q: Limb)
    requires wo + nb <= a.Length && bo + nb <= b.Length
    ensures q == if Val(a[wo..wo + nb]) < Val(b[bo..bo + nb]) then 0 else 1
  {
    hide Val;
    ghost var s, t := a[wo..wo + nb], b[bo..bo + nb];
    q := 1;
    var j := nb;
    while j > 0
      invariant 0 <= j <= nb
      invariant s[j..] == t[j..]
    {
      j := j - 1;
      assert a[wo + j] == s[j] && b[bo + j] == t[j];
      if a[wo + j] != b[bo + j] {
        if a[wo + j] < b[bo + j] {
          FirstDifference(s, t, j);
          return 0;
        }
        FirstDifference(t, s, j);
        return 1;
      }
      assert s[j..] == [s[j]] + s[j + 1..] && t[j..] == [t[j]] + t[j + 1..];
    }
    assert s[0..] == s && t[0..] == t;
  }
}
