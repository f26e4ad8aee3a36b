/** Little-endian arrays of machine words ("limbs") and the natural number they stand for. */
module Limbs {
  import opened Arith

  const LIMB_BITS := 64
  const B: nat := 0x1_0000_0000_0000_0000
  const HALF_B: nat := 0x8000_0000_0000_0000

  /** limb_t: an unsigned 64-bit word. */
  type Limb = x: int | 0 <= x < 0x1_0000_0000_0000_0000

  /** B to the power n: the weight of limb n. */
  function Pow(n: nat): (p: nat)
    ensures 1 <= p
  {
    if n == 0 then 1 else B * Pow(n - 1)
  }

  /** The number an array section denotes, least significant limb first. */
  function Val(s: seq<Limb>): nat {
    if |s| == 0 then 0 else s[0] + B * Val(s[1..])
  }

  lemma {:induction false} NoLimbs(k: int)
    ensures Pow(0) * k == k && Val([]) == 0
  {
  }

  lemma {:induction false} PowStep(n: nat)
    ensures Pow(n + 1) == B * Pow(n)
  {
  }

  lemma {:induction false} PowAdd(m: nat, n: nat)
    ensures Pow(m + n) == Pow(m) * Pow(n)
  {
    if m > 0 {
      PowAdd(m - 1, n);
      Assoc(B, Pow(m - 1), Pow(n));
    }
  }

  lemma {:induction false} PowMono(m: nat, n: nat)
    requires m <= n
    ensures Pow(m) <= Pow(n)
  {
    PowAdd(m, n - m);
    MulLe(1, Pow(n - m), Pow(m));
  }

  lemma {:induction false} ValAppend(s: seq<Limb>, t: seq<Limb>)
    ensures Val(s + t) == Val(s) + Pow(|s|) * Val(t)
  {
    if |s| == 0 {
      assert s + t == t;
    } else {
      assert (s + t)[1..] == s[1..] + t;
      ValAppend(s[1..], t);
      Assoc(B, Pow(|s| - 1), Val(t));
      Distrib(Val(s[1..]), Pow(|s| - 1) * Val(t), B);
    }
  }

  lemma {:induction false} ValSplit(s: seq<Limb>, i: nat)
    requires i <= |s|
    ensures Val(s) == Val(s[..i]) + Pow(i) * Val(s[i..])
  {
    assert s == s[..i] + s[i..];
    ValAppend(s[..i], s[i..]);
  }

  lemma {:induction false} ValOne(x: Limb)
    ensures Val([x]) == x
  {
    assert [x][1..] == [];
  }

  lemma {:induction false} ValSnoc(s: seq<Limb>, x: Limb)
    ensures Val(s + [x]) == Val(s) + Pow(|s|) * x
  {
    ValAppend(s, [x]);
    ValOne(x);
  }

  lemma {:induction false} ValBound(s: seq<Limb>)
    ensures Val(s) < Pow(|s|)
  {
    if |s| > 0 {
      ValBound(s[1..]);
      MulLe(Val(s[1..]) + 1, Pow(|s| - 1), B);
    }
  }

  lemma {:induction false} ValZeros(s: seq<Limb>)
    requires forall j :: 0 <= j < |s| ==> s[j] == 0
    ensures Val(s) == 0
  {
    if |s| > 0 {
      ValZeros(s[1..]);
    }
  }

  /** A section denotes zero only when every limb is zero. */
  lemma {:induction false} ValZeroIff(s: seq<Limb>)
    ensures Val(s) == 0 <==> forall j :: 0 <= j < |s| ==> s[j] == 0
  {
    if |s| > 0 {
      ValZeroIff(s[1..]);
      if Val(s) == 0 {
        assert s[0] == 0 && Val(s[1..]) == 0;
        forall j | 0 <= j < |s| ensures s[j] == 0 {
          if j > 0 { assert s[j] == s[1..][j - 1]; }
        }
      } else if forall j :: 0 <= j < |s| ==> s[j] == 0 {
        ValZeros(s);
      }
    }
  }

  /** Equal numbers of equal length have equal limbs. */
  lemma {:induction false} ValInjective(s: seq<Limb>, t: seq<Limb>)
    requires |s| == |t| && Val(s) == Val(t)
    ensures s == t
  {
    if |s| > 0 {
      DivModUnique(Val(s), B, Val(s[1..]), s[0]);
      DivModUnique(Val(t), B, Val(t[1..]), t[0]);
      ValInjective(s[1..], t[1..]);
      assert s == [s[0]] + s[1..] && t == [t[0]] + t[1..];
    }
  }

  /** The limb i of a number is its base-B digit i. */
  lemma {:induction false} TopLimb(s: seq<Limb>)
    requires |s| > 0
    ensures Val(s) == Val(s[..|s| - 1]) + Pow(|s| - 1) * s[|s| - 1]
    ensures Pow(|s| - 1) * s[|s| - 1] <= Val(s) < Pow(|s| - 1) * s[|s| - 1] + Pow(|s| - 1)
  {
    var n := |s| - 1;
    assert s == s[..n] + [s[n]];
    ValSnoc(s[..n], s[n]);
    ValBound(s[..n]);
  }

  /** A divisor or radicand is normalised when its top bit is set. */
  ghost predicate Normalized(s: seq<Limb>) {
    |s| > 0 && s[|s| - 1] >= HALF_B
  }

  lemma {:induction false} NormalizedBound(s: seq<Limb>)
    requires Normalized(s)
    ensures Pow(|s|) <= 2 * Val(s) && Val(s) < Pow(|s|)
  {
    TopLimb(s);
    ValBound(s);
    var n := |s| - 1;
    MulLe(HALF_B, s[n], Pow(n));
    assert Pow(|s|) == B * Pow(n);
    assert B * Pow(n) == 2 * (HALF_B * Pow(n));
  }
}
