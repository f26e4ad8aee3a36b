/** The tables of the number theoretic transform: roots of unity, inverse lengths and the powers of
    the roots that the butterflies multiply by. */
module NttTables {
  import opened Limbs
  import opened LimbMul
  import opened ModWords
  import opened PolySums

  const NTT_PROOT_2EXP: nat := 51
  const NTT_TRIG_K_MAX: nat := 19

  /** A multiplier with the word that init_mul_mod_fast2 prepares for it. */
  datatype Prepared = Prepared(value: Limb, inv: Limb)

  predicate Ready(p: Prepared, m: Limb) {
    p.value < m && p.inv == InitMulModFast2(p.value, m)
  }

  function Prepare(c: Limb, m: Limb): (p: Prepared)
    requires c < m
    ensures Ready(p, m) && p.value == c
  {
    Prepared(c, InitMulModFast2(c, m))
  }

  /** What is tabulated for one modulus: its reciprocal, the roots of order 2^k and their inverses for
      every k, and the inverse of every 2^k. */
  datatype Field = Field(m: Limb, mInv: Limb, proot: seq<seq<Prepared>>, lenInv: seq<Prepared>) {
    ghost predicate Valid() {
      && Modulus(m) && mInv == InitMulModFast(m)
      && |proot| == 2 && |proot[0]| == |proot[1]| == |lenInv| == NTT_PROOT_2EXP + 1
      && (forall d, k :: 0 <= d < 2 && 1 <= k <= NTT_PROOT_2EXP ==> RootEntry(d, k))
      && (forall k :: 1 <= k <= NTT_PROOT_2EXP ==> InverseEntry(k))
      && (forall k :: 0 <= k <= NTT_PROOT_2EXP ==> LengthEntry(k))
    }

    /** Entry k of direction d is a root of order 2^k, and its square is the entry before. */
    ghost predicate RootEntry(d: nat, k: nat)
      requires m > 0 && d < |proot| && 1 <= k < |proot[d]|
    {
      && Ready(proot[d][k], m) && Root(proot[d][k].value, k, m)
      && (k > 1 ==> Cong(Exp(proot[d][k].value, 2), proot[d][k - 1].value, m))
    }

    ghost predicate InverseEntry(k: nat)
      requires m > 0 && |proot| == 2 && k < |proot[0]| && k < |proot[1]|
    {
      Cong(proot[0][k].value * proot[1][k].value, 1, m)
    }

    ghost predicate LengthEntry(k: nat)
      requires m > 0 && k < |lenInv|
    {
      Ready(lenInv[k], m) && Cong(lenInv[k].value * Pow2(k), 1, m)
    }
  }

  lemma {:induction false} RootsOf(f: Field, d: nat, k: nat)
    requires f.Valid() && d < 2 && 1 <= k <= NTT_PROOT_2EXP
    ensures Ready(f.proot[d][k], f.m) && Root(f.proot[d][k].value, k, f.m)
    ensures k > 1 ==> Cong(Exp(f.proot[d][k].value, 2), f.proot[d][k - 1].value, f.m)
    ensures Cong(f.proot[d][k].value * f.proot[1 - d][k].value, 1, f.m)
  {
    assert f.RootEntry(d, k);
    assert f.InverseEntry(k);
    hide *;
    if d == 1 {
      assert f.proot[1][k].value * f.proot[0][k].value == f.proot[0][k].value * f.proot[1][k].value;
    }
  }

  /** The root of a shorter length is a power of the root of a longer one. */
  lemma {:induction false} RootChain(f: Field, d: nat, k: nat, l: nat)
    requires f.Valid() && d < 2 && 1 <= l <= k <= NTT_PROOT_2EXP
    ensures Cong(f.proot[d][l].value, Exp(f.proot[d][k].value, Pow2(k - l)), f.m)
    decreases k - l
  {
    hide Cong, Exp, Root, Ready, InitMulModFast;
    if l == k {
      CongSelf(f.proot[d][k].value, f.m);
      ExpOne(f.proot[d][k].value);
    } else {
      RootChain(f, d, k, l + 1);
      RootsOf(f, d, l + 1);
      var w, y := f.proot[d][k].value, f.proot[d][l + 1].value;
      var e := Pow2(k - l - 1);
      ExpCong(y, Exp(w, e), 2, f.m);
      ExpTimes(w, e, 2);
      CongSym(Exp(y, 2), f.proot[d][l].value, f.m);
      CongTrans(f.proot[d][l].value, Exp(y, 2), Exp(w, e * 2), f.m);
    }
  }

  /** The powers 0 .. 2^(k-1) - 1 of w, each prepared. */
  ghost predicate IsTrig(t: seq<Prepared>, w: int, k: nat, m: Limb) {
    && m > 0 && k >= 1 && |t| == Pow2(k - 1)
    && forall i :: 0 <= i < |t| ==> TrigEntry(t[i], w, i, m)
  }

  ghost predicate TrigEntry(p: Prepared, w: int, i: nat, m: Limb)
    requires m > 0
  {
    Ready(p, m) && Cong(p.value, Exp(w, i), m)
  }

  /** BFNTTState: the fields of all moduli, and the tables of powers made so far. */
  class NttState {
    const fields: seq<Field>
    var trig: map<(nat, nat, nat), seq<Prepared>>

    ghost predicate Valid()
      reads this
    {
      && (forall j :: 0 <= j < |fields| ==> fields[j].Valid())
      && forall key :: key in trig ==> CachedTable(key)
    }

    ghost predicate CachedTable(key: (nat, nat, nat))
      requires key in trig
      reads this
    {
      && key.0 < |fields| && key.1 < 2 && 1 <= key.2 <= NTT_TRIG_K_MAX && fields[key.0].Valid()
      && IsTrig(trig[key], fields[key.0].proot[key.1][key.2].value, key.2, fields[key.0].m)
    }

    constructor (fields: seq<Field>)
      requires forall j :: 0 <= j < |fields| ==> fields[j].Valid()
      ensures Valid() && this.fields == fields
    {
      this.fields := fields;
      trig := map[];
    }

    /** get_trig: the table of the powers of the root of order 2^k, made at the first request; none when
        k is above the limit. */
    method GetTrig(k: nat, inverse: nat, mIdx: nat) returns (found: bool, tab: seq<Prepared>)
      requires Valid() && mIdx < |fields| && inverse < 2 && k >= 1
      modifies this
      ensures Valid() && found == (k <= NTT_TRIG_K_MAX)
      ensures found ==> IsTrig(tab, fields[mIdx].proot[inverse][k].value, k, fields[mIdx].m)
    {
      if k > NTT_TRIG_K_MAX {
        return false, [];
      }
      if (mIdx, inverse, k) in trig {
        return true, trig[(mIdx, inverse, k)];
      }
      var f := fields[mIdx];
      tab := TrigTable(f, inverse, k);
      trig := trig[(mIdx, inverse, k) := tab];
      found := true;
    }
  }

  method TrigTable(f: Field, inverse: nat, k: nat) returns (tab: seq<Prepared>)
    requires f.Valid() && inverse < 2 && 1 <= k <= NTT_TRIG_K_MAX
    ensures IsTrig(tab, f.proot[inverse][k].value, k, f.m)
  {
    hide Cong, Exp, Pow2, Root, InitMulModFast, InitMulModFast2;
    var n2, m := Pow2(k - 1), f.m;
    RootsOf(f, inverse, k);
    var w := f.proot[inverse][k];
    var c: Limb := 1;
    tab := [];
    ExpOne(w.value);
    CongSelf(1, m);
    for i := 0 to n2
      invariant |tab| == i && c < m && Cong(c, Exp(w.value, i), m)
      invariant forall j :: 0 <= j < i ==> TrigEntry(tab[j], w.value, j, m)
    {
      tab := tab + [Prepare(c, m)];
      NextPower(c, w.value, i, m);
      c := MulModFast2(c, w.value, m, w.inv);
    }
  }

  lemma {:induction false} NextPower(c: int, w: int, i: nat, m: int)
    requires m > 0 && Cong(c, Exp(w, i), m)
    ensures Cong(c * w % m, Exp(w, i + 1), m)
  {
    hide Cong;
    CongSelf(w, m);
    CongMul(c, Exp(w, i), w, w, m);
    CongMod(c * w, m);
    CongTrans(c * w % m, c * w, Exp(w, i) * w, m);
    assert Exp(w, i + 1) == w * Exp(w, i);
  }

  /** The field of a modulus has roots for every length, and they are below it. */
  lemma {:induction false} FieldOf(s: NttState, mIdx: nat, inverse: nat, k: nat)
    requires s.Valid() && mIdx < |s.fields| && inverse < 2 && 1 <= k <= NTT_PROOT_2EXP
    ensures var f := s.fields[mIdx];
            && f.Valid() && 1 < f.m && Modulus(f.m) && |f.proot| == 2 && |f.proot[inverse]| == NTT_PROOT_2EXP + 1
            && f.proot[inverse][k].value < f.m && Root(f.proot[inverse][k].value, k, f.m)
  {
    RootsOf(s.fields[mIdx], inverse, k);
  }
}
