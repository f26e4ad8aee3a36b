/** Floating-point numbers and their rounding in place, with gradual underflow and overflow. */
module BfRound {
  import opened Arith
  import opened Limbs
  import opened LimbOps
  import opened LimbMul
  import opened Bits
  import opened RoundSpec
  import opened RoundMath

  const EXP_ZERO := -0x8000_0000_0000_0000
  const EXP_INF := 0x7fff_ffff_ffff_fffe
  const EXP_BITS_MIN := 3
  const PREC_INF: nat := 0x3fff_ffff_ffff_ffff

  /** Rounding direction, exponent width, gradual underflow, and whether the precision counts from
      the radix point. */
  datatype BfFlags = BfFlags(rnd: RndMode, expBits: nat, subnormal: bool, radpnt: bool)

  datatype Status = Status(inexact: bool, underflow: bool, overflow: bool)

  /** A finite non-zero number has the value ±0.m * 2^expn, where the mantissa m is the limb array
      read as a fraction; its top bit is set. */
  class BfNum {
    var sign: bool
    var expn: int
    var tab: array<Limb>

    constructor ()
      ensures !sign && expn == EXP_ZERO && fresh(tab) && tab.Length == 0
    {
      sign, expn := false, EXP_ZERO;
      tab := new Limb[0];
    }

    /** bf_resize: keeps the low limbs. */
    method Resize(len: nat)
      modifies this`tab
      ensures tab.Length == len && (fresh(tab) || tab == old(tab))
      ensures forall j :: 0 <= j < len && j < old(tab.Length) ==> tab[j] == old(tab[j])
    {
      if len != tab.Length {
        var n := if len < tab.Length then len else tab.Length;
        var t := new Limb[len];
        CopyLimbs(t, 0, tab, 0, n);
        assert forall j :: 0 <= j < n ==> t[j] == t[0..0 + n][j] == tab[0..0 + n][j];
        tab := t;
      }
    }

    method SetZero(isNeg: bool)
      modifies this
      ensures tab.Length == 0 && expn == EXP_ZERO && sign == isNeg && (fresh(tab) || tab == old(tab))
    {
      Resize(0);
      expn, sign := EXP_ZERO, isNeg;
    }

    method SetInf(isNeg: bool)
      modifies this
      ensures tab.Length == 0 && expn == EXP_INF && sign == isNeg && (fresh(tab) || tab == old(tab))
    {
      Resize(0);
      expn, sign := EXP_INF, isNeg;
    }
  }

  // ----- what rounding a number gives -----

  function ERange(f: BfFlags): int {
    if f.expBits == 0 then 1 else Pow2(f.expBits - 1)
  }

  function EMin(f: BfFlags): int { -ERange(f) + 3 }

  function EMax(f: BfFlags): int { ERange(f) }

  /** The number of bits kept. */
  function EffPrec(f: BfFlags, prec1: nat, e: int): int {
    if f.radpnt then (if prec1 != PREC_INF then e + prec1 else prec1)
    else if e < EMin(f) && f.subnormal then prec1 - (EMin(f) - e)
    else prec1
  }

  /** The weight of the last kept bit of a mantissa of k bits. */
  function Unit(k: nat, prec: int): (u: nat)
    ensures u >= 1
  {
    if prec < k then Pow2(k - prec) else 1
  }

  datatype Outcome =
    | Zero
    | Huge
    | Finite(m: nat, x: int, e: int)

  /** A mantissa x of k bits with exponent e, rounded: zero, too large, or m * 2^x with exponent e. */
  function RoundNumber(f: BfFlags, prec1: nat, neg: bool, x: Exact, k: nat, e: int): Outcome
    requires UnitFor(x, Unit(k, EffPrec(f, prec1, e)))
  {
    var p := EffPrec(f, prec1, e);
    var r := RoundTo(f.rnd, neg, x, Unit(k, p));
    if r <= 0 then Zero
    else if p <= 0 then Finite(r, e - k, e + 1 - p)
    else
      var e2 := if r == Pow2(k) then e + 1 else e;
      if e2 < EMin(f) && !f.subnormal then Zero
      else if e2 > EMax(f) then Huge
      else Finite(r, e - k, e2)
  }

  /** The flags raised: inexact exactly when the value changed, except that faithful rounding always
      raises it. */
  function RoundStatus(f: BfFlags, prec1: nat, neg: bool, x: Exact, k: nat, e: int): Status
    requires UnitFor(x, Unit(k, EffPrec(f, prec1, e)))
  {
    var p := EffPrec(f, prec1, e);
    var u := Unit(k, p);
    var r := RoundTo(f.rnd, neg, x, u);
    var inexact := f.rnd == RNDF || !Is(x, r);
    if p <= 0 then Status(true, true, false)
    else
      var e2 := if r == Pow2(k) then e + 1 else e;
      if e2 < EMin(f) then (if f.subnormal then Status(inexact, inexact, false) else Status(true, true, false))
      else if e2 > EMax(f) then Status(true, false, true)
      else Status(inexact, false, false)
  }

  /** r holds the outcome o with the given sign. */
  ghost predicate Holds(r: BfNum, neg: bool, o: Outcome, f: BfFlags, prec1: nat)
    reads r, r.tab
  {
    && r.sign == neg
    && match o
       case Zero => r.tab.Length == 0 && r.expn == EXP_ZERO
       case Huge => if OverflowsToInf(f, prec1, neg) then r.tab.Length == 0 && r.expn == EXP_INF
                    else LargestFinite(r, f, prec1)
       case Finite(m, x, e) =>
         r.expn == e && Normalized(r.tab[..]) && r.tab[0] != 0 && SameValue(Val(r.tab[..]), e - 64 * r.tab.Length, m, x)
  }

  predicate OverflowsToInf(f: BfFlags, prec1: nat, neg: bool) {
    prec1 == PREC_INF || f.rnd == RNDN || f.rnd == RNDNA || f.rnd == RNDA
    || (f.rnd == RNDD && neg) || (f.rnd == RNDU && !neg)
  }

  /** All prec1 bits set, with the largest exponent. */
  ghost predicate LargestFinite(r: BfNum, f: BfFlags, prec1: nat)
    reads r, r.tab
  {
    r.expn == EMax(f) && 64 * r.tab.Length >= prec1
    && Val(r.tab[..]) == (Pow2(prec1) - 1) * Pow2(64 * r.tab.Length - prec1)
  }

  // ----- bf_get_rnd_add -----

  /** The addend, and whether anything is cut off. */
  method GetRndAdd(r: BfNum, l: nat, prec: int, rnd: RndMode) returns (addOne: bool, inexact: bool)
    requires 1 <= l <= r.tab.Length && Normalized(r.tab[..l])
    ensures var m, u := Val(r.tab[..l]), Unit(64 * l, prec);
            && UnitFor(Exact(m, false), u)
            && RoundTo(rnd, r.sign, Exact(m, false), u) == Cleared(m, u) + (if addOne then u else 0)
            && inexact == (rnd == RNDF || m % u != 0)
  {
    hide Val;
    hide Pow;
    hide Pow2;
    hide RoundTo;
    hide Normalized;
    ghost var m := Val(r.tab[..l]);
    var k := 64 * l;
    var scanned := ScanBitNz(r.tab, l, k - 1 - if prec + 1 > 0 then prec + 1 else 0);
    var bit0 := rnd == RNDF || scanned;
    var bit1 := GetBit(r.tab, l, k - 1 - prec);
    inexact := bit1 || bit0;
    var unitBit := GetBit(r.tab, l, k - 1 - (prec - 1));
    // the case analysis over the modes, in the order of the switch
    addOne := false;
    match rnd {
      case RNDZ =>
      case RNDN =>
        if bit1 {
          if bit0 {
            addOne := true;
          } else {
            addOne := unitBit;
          }
        }
      case RNDD =>
        if r.sign { addOne := inexact; }
      case RNDU =>
        if !r.sign { addOne := inexact; }
      case RNDA => addOne := inexact;
      case RNDNA => addOne := bit1;
      case RNDF => addOne := bit1;
    }
    UnitsOf(r.tab[..l], prec);
    if prec < k {
      var h := Pow2(k - 1 - prec);
      RoundingBits(rnd, r.sign, m, 2 * h, h, bit1, scanned, unitBit);
    } else {
      UnitOne(rnd, r.sign, m);
    }
    ClearedDef(m, Unit(k, prec));
  }

  /** The unit of a normalised mantissa, and what scanning below its upper half reads. */
  lemma {:induction false} UnitsOf(s: seq<Limb>, prec: int)
    requires Normalized(s)
    ensures var k := 64 * |s|;
            && UnitFor(Exact(Val(s), false), Unit(k, prec))
            && (prec < k ==> Unit(k, prec) == 2 * Pow2(k - 1 - prec) == Pow2(k - prec))
            && (prec < k && prec + 1 < 0 ==> (Val(s) % Pow2(k) != 0) == (Val(s) % Pow2(k - 1 - prec) != 0))
    ensures Val(s) % 1 == 0 && Pow2(0) == 1
  {
    hide Val;
    hide Pow;
    hide Normalized;
    var k := 64 * |s|;
    if prec < k {
      Pow2Even(k - prec);
      if prec + 1 < 0 {
        ValBound(s);
        PowIsPow2(|s|);
        Pow2Mono(k, k - 1 - prec);
        hide Pow2;
        DivModUnique(Val(s), Pow2(k), 0, Val(s));
        DivModUnique(Val(s), Pow2(k - 1 - prec), 0, Val(s));
      }
    }
  }

  // ----- the steps of __bf_round -----

  /** Adds one at bit bitPos of the first l limbs; when the top overflows, shifts right by one digit.
      The bits below bitPos are left as they fall. */
  method AddUnit(tab: array<Limb>, l: nat, bitPos: nat) returns (carry: bool)
    requires 1 <= l <= tab.Length && bitPos < 64 * l
    modifies tab
    ensures !carry ==> Val(tab[..l]) == old(Val(tab[..l])) + Pow2(bitPos)
    ensures carry ==> old(Val(tab[..l])) + Pow2(bitPos) >= Pow(l) && 2 * Cleared(Val(tab[..l]), Pow2(bitPos)) == Pow(l)
    ensures SameOutside(old(tab[..]), tab[..], 0, l)
  {
    hide Val;
    hide Pow;
    hide Pow2;
    hide Cleared;
    hide SameOutside;
    var pos, t := bitPos / 64, bitPos % 64;
    ghost var s0 := tab[..];
    ghost var low, high0 := tab[..pos], tab[pos..l];
    BitWord(t);
    var v := MpAddUi(tab, pos, Pow2(t), l - pos);
    ghost var s1, high1 := tab[..], tab[pos..l];
    SameSlice(s0, s1, pos, l, 0, pos);
    PartsOf(s0, l, pos);
    PartsOf(s1, l, pos);
    AddUnitValue(Val(low), Pow(pos), Val(high0), Val(high1), Pow2(t), v, Pow(l - pos), Pow2(bitPos), pos, l, t);
    if v == 0 {
      SameChain(s0, s1, s1, 0, l, pos, l, l, l);
      SameRefl(s1, l);
      return false;
    }
    var rem := MpShr(tab, pos, tab, pos, l - pos, 1, 1);
    ghost var s2 := tab[..];
    SameSlice(s1, s2, pos, l, 0, pos);
    PartsOf(s2, l, pos);
    SameChain(s0, s1, s2, 0, l, pos, l, pos, l);
    ValBound(s0[..l]);
    ShiftedOnce(Val(s2[pos..l]), Val(high1), rem, l - pos);
    CarryShift(low, s2[pos..l], Val(high1), t, l, Val(s2[..l]));
    return true;
  }

  lemma {:induction false} SameRefl(s: seq<Limb>, l: nat)
    requires l <= |s|
    ensures SameOutside(s, s, l, l)
  {
  }

  lemma {:induction false} BitWord(t: nat)
    requires t < 64
    ensures Pow2(t) < B
  {
    hide Pow2;
    Pow2Mono(t, 63);
    Pow2Even(64);
    LimbIsPow2();
  }

  lemma {:induction false} PartsOf(s: seq<Limb>, l: nat, pos: nat)
    requires pos <= l <= |s|
    ensures Val(s[..l]) == Val(s[..pos]) + Pow(pos) * Val(s[pos..l])
    ensures Val(s[..pos]) < Pow(pos)
  {
    hide *;
    ValSplit(s[..l], pos);
    assert s[..l][..pos] == s[..pos] && s[..l][pos..] == s[pos..l];
    ValBound(s[..pos]);
  }

  lemma {:induction false} AddUnitValue(low: nat, p: nat, h0: nat, h1: nat, c: nat, v: int, hp: nat, pc: nat,
          pos: nat, l: nat, t: nat)
    requires pos <= l && h1 + hp * v == h0 + c && 0 <= v <= 1 && low < p && p == Pow(pos) && hp == Pow(l - pos)
    requires c == Pow2(t) && pc == Pow2(64 * pos + t)
    ensures v == 0 ==> low + p * h1 == low + p * h0 + pc
    ensures v == 1 ==> low + p * h1 + Pow(l) == low + p * h0 + pc
  {
    hide *;
    PowIsPow2(pos);
    Pow2Add(64 * pos, t);
    PowAdd(pos, l - pos);
    TimesBit(hp, v);
    Distrib(h0, c, p);
    Distrib(h1, hp, p);
  }

  lemma {:induction false} ShiftedOnce(high: nat, g: nat, rem: nat, n: nat)
    requires n >= 1 && rem < Pow2(1) && high * Pow2(1) + rem == g + (1 % Pow2(1)) * Pow(n)
    ensures high * 2 + g % 2 == g + Pow(n)
  {
    PowTwoSmall();
    hide Pow2;
    PowStep(n - 1);
    EvenPower(Pow(n - 1));
    hide Pow;
    ParityOf(high, rem, g, Pow(n));
  }

  lemma {:induction false} EvenPower(p: nat)
    ensures B * p % 2 == 0
  {
    Assoc(2, HALF_B, p);
    DivModUnique(B * p, 2, HALF_B * p, 0);
  }

  lemma {:induction false} ParityOf(h: nat, rem: nat, g: nat, p: nat)
    requires rem < 2 && p % 2 == 0 && h * 2 + rem == g + p
    ensures g % 2 == rem
  {
  }

  /** memmove towards the front of the array. */
  method MoveDown(tab: array<Limb>, from: nat, n: nat)
    requires from + n <= tab.Length
    modifies tab
    ensures tab[..n] == old(tab[from..from + n])
  {
    ghost var s := tab[from..from + n];
    for j := 0 to n
      invariant forall k :: 0 <= k < j ==> tab[k] == s[k]
      invariant forall k :: j <= k < n ==> tab[from + k] == s[k]
    {
      tab[j] := tab[from + j];
    }
  }

  function CutUnit(bitPos: int): (u: nat)
    ensures u >= 1
  {
    if bitPos >= 0 then Pow2(bitPos) else 1
  }

  /** Masks the limb that holds the cut; the result is the limb where the kept part starts. */
  method MaskLimb(tab: array<Limb>, l: nat, bitPos: int) returns (i: nat)
    requires 1 <= l <= tab.Length && bitPos < 64 * l && Normalized(tab[..l])
    modifies tab
    ensures i < l && tab[l - 1] >= HALF_B
    ensures Pow(i) * Val(tab[i..l]) == Cleared(old(Val(tab[..l])), CutUnit(bitPos))
  {
    hide Val;
    hide Pow;
    hide Pow2;
    hide Cleared;
    ghost var s := tab[..l];
    if bitPos < 0 {
      WholeCut(s);
      assert tab[0..l] == s;
      return 0;
    }
    i := bitPos / 64;
    var shift := bitPos % 64;
    MaskedBit(tab[i], shift);
    ShiftZero(tab[i]);
    if shift != 0 {
      tab[i] := (tab[i] as int - tab[i] % Pow2(shift)) as Limb;
    }
    ClearLimbs(s, i, shift, tab[i]);
    assert tab[i..l] == [tab[i]] + s[i + 1..];
  }

  /** Passes over zero limbs. */
  method SkipZeros(tab: array<Limb>, i0: nat, l: nat) returns (i: nat)
    requires i0 < l <= tab.Length && tab[l - 1] >= HALF_B
    ensures i0 <= i < l && tab[i] != 0 && Pow(i) * Val(tab[i..l]) == Pow(i0) * Val(tab[i0..l])
  {
    hide Val;
    hide Pow;
    i := i0;
    while tab[i] == 0
      invariant i0 <= i < l
      invariant Pow(i) * Val(tab[i..l]) == Pow(i0) * Val(tab[i0..l])
      decreases l - i
    {
      SkipZero(tab[i..l], i);
      assert tab[i..l][1..] == tab[i + 1..l];
      i := i + 1;
    }
  }

  /** Masks the limb that holds the cut, then drops all low limbs that are zero. */
  method Truncate(r: BfNum, l: nat, bitPos: int)
    requires 1 <= l <= r.tab.Length && bitPos < 64 * l && Normalized(r.tab[..l])
    modifies r`tab, r.tab
    ensures fresh(r.tab) || r.tab == old(r.tab)
    ensures Normalized(r.tab[..]) && r.tab[0] != 0 && r.tab.Length <= l
    ensures Pow(l - r.tab.Length) * Val(r.tab[..]) == Cleared(old(Val(r.tab[..l])), CutUnit(bitPos))
  {
    hide Val;
    hide Pow;
    hide Pow2;
    hide Cleared;
    var i := MaskLimb(r.tab, l, bitPos);
    i := SkipZeros(r.tab, i, l);
    ghost var kept := r.tab[i..l];
    assert kept[l - i - 1] == r.tab[l - 1] && kept[0] == r.tab[i];
    if i > 0 {
      assert r.tab[i..i + (l - i)] == kept;
      MoveDown(r.tab, i, l - i);
    }
    assert r.tab[..l - i] == kept;
    r.Resize(l - i);
    assert r.tab[..] == kept;
  }

  lemma {:induction false} ShiftZero(x: Limb)
    ensures x % Pow2(0) == 0
  {
  }

  lemma {:induction false} WholeCut(s: seq<Limb>)
    ensures Cleared(Val(s), 1) == Pow(0) * Val(s)
  {
    NoLimbs(Val(s));
  }

  lemma {:induction false} SkipZero(t: seq<Limb>, i: nat)
    requires |t| > 0 && t[0] == 0
    ensures Pow(i + 1) * Val(t[1..]) == Pow(i) * Val(t)
  {
    PowStep(i);
    Assoc(B, Pow(i), Val(t[1..]));
  }

  // ----- overflow and vanishing precision -----

  /** bf_set_overflow: infinity, or the largest number of the precision. */
  method SetOverflow(r: BfNum, prec1: nat, f: BfFlags)
    requires prec1 >= 1
    modifies r, r.tab
    ensures fresh(r.tab) || r.tab == old(r.tab)
    ensures Holds(r, old(r.sign), Huge, f, prec1)
  {
    if OverflowsToInf(f, prec1, r.sign) {
      r.SetInf(r.sign);
      return;
    }
    hide Pow2;
    hide Val;
    hide Pow;
    var l := (prec1 + 63) / 64;
    r.Resize(l);
    var shift := (64 * l - prec1) % 64;
    BitWord(shift);
    r.tab[0] := (B - Pow2(shift)) as Limb;
    var i := 1;
    while i < l
      invariant 1 <= i <= l && r.tab.Length == l
      invariant fresh(r.tab) || r.tab == old(r.tab)
      invariant r.tab[0] as int == B - Pow2(shift)
      invariant forall j :: 1 <= j < i ==> r.tab[j] == B - 1
      modifies r.tab
    {
      r.tab[i] := B - 1;
      i := i + 1;
    }
    r.expn := EMax(f);
    AllOnes(r.tab[..], prec1, shift);
  }

  lemma {:induction false} Nines(s: seq<Limb>)
    requires forall j :: 0 <= j < |s| ==> s[j] == B - 1
    ensures Val(s) == Pow(|s|) - 1
  {
    if |s| > 0 {
      Nines(s[1..]);
      PowStep(|s| - 1);
      Distrib(Pow(|s| - 1), 1, B);
    }
  }

  lemma {:induction false} AllOnes(s: seq<Limb>, prec1: nat, shift: nat)
    requires |s| >= 1 && 64 * |s| - shift == prec1 && shift < 64
    requires s[0] as int == B - Pow2(shift) && forall j :: 1 <= j < |s| ==> s[j] == B - 1
    ensures Val(s) == (Pow2(prec1) - 1) * Pow2(64 * |s| - prec1)
  {
    hide Pow2;
    Nines(s[1..]);
    PowStep(|s| - 1);
    Distrib(Pow(|s| - 1), 1, B);
    PowIsPow2(|s|);
    Pow2Add(prec1, shift);
    Distrib(Pow2(prec1), 1, Pow2(shift));
  }

  /** When no bit is kept and the number is rounded up: one unit. */
  method SetUnit(r: BfNum, prec: int, ghost l: nat)
    requires prec <= 0 && l >= 1
    modifies r`expn, r`tab, r.tab
    ensures fresh(r.tab) || r.tab == old(r.tab)
    ensures r.expn == old(r.expn) + 1 - prec
    ensures Normalized(r.tab[..]) && r.tab[0] != 0
    ensures SameValue(Val(r.tab[..]), r.expn - 64 * r.tab.Length, Pow2(64 * l - prec), old(r.expn) - 64 * l)
  {
    r.Resize(1);
    r.tab[0] := HALF_B;
    r.expn := r.expn + (1 - prec);
    assert r.tab[..] == [HALF_B];
    ValOne(HALF_B);
    HalfIsPow2();
    hide Pow2;
    Pow2Add(63, 64 * l - prec - 63);
  }

  lemma {:induction false} HalfIsPow2()
    ensures Pow2(63) == HALF_B
  {
    LimbIsPow2();
    Pow2Even(64);
  }

  // ----- __bf_round -----

  /** Where a normalised mantissa lies with respect to its unit. */
  lemma {:induction false} Magnitude(s: seq<Limb>, prec: int)
    requires Normalized(s)
    ensures var m, k, u := Val(s), 64 * |s|, Unit(64 * |s|, prec);
            && Pow2(k - 1) <= m < Pow2(k) == Pow(|s|)
            && (prec <= 0 ==> u == Pow2(k - prec) && Cleared(m, u) == 0)
            && (prec > 0 ==> Cleared(m, u) > 0)
            && Cleared(m, u) <= m
  {
    hide Val;
    hide Pow;
    hide Pow2;
    hide Normalized;
    var m, k, u := Val(s), 64 * |s|, Unit(64 * |s|, prec);
    NormalizedBound(s);
    NormalizedLong(s);
    PowIsPow2(|s|);
    Pow2Even(k);
    DivMod(m, u);
    ClearedDef(m, u);
    if prec <= 0 {
      Pow2Mono(k, k - prec);
      DivModUnique(m, u, 0, m);
    } else {
      UnitBelow(k, prec);
      QuotientPositive(m, u);
      MulLe(1, m / u, u);
    }
  }

  lemma {:induction false} QuotientPositive(m: nat, u: nat)
    requires 1 <= u <= m
    ensures m / u >= 1
  {
  }

  lemma {:induction false} NormalizedLong(s: seq<Limb>)
    requires Normalized(s)
    ensures |s| >= 1
  {
  }

  lemma {:induction false} UnitBelow(k: nat, prec: int)
    requires prec > 0 && k >= 1
    ensures Unit(k, prec) <= Pow2(k - 1)
  {
    if prec < k {
      Pow2Mono(k - prec, k - 1);
    }
  }

  /** At unit 1 nothing is added. */
  lemma {:induction false} NoAddAtOne(rnd: RndMode, neg: bool, m: nat, addOne: bool)
    requires RoundTo(rnd, neg, Exact(m, false), 1) == Cleared(m, 1) + (if addOne then 1 else 0)
    ensures !addOne && Cleared(m, 1) == m
  {
    UnitOne(rnd, neg, m);
  }

  /** The rounded mantissa after the unit was added. */
  lemma {:induction false} AfterAdd(m: nat, u: nat, l: nat, bitPos: nat, w: nat, carry: bool)
    requires u == Pow2(bitPos) && bitPos <= 64 * l && m < Pow(l)
    requires if carry then m + u >= Pow(l) && 2 * Cleared(w, u) == Pow(l) else w == m + u && w < Pow(l)
    ensures Cleared(w, u) * (if carry then 2 else 1) == Cleared(m, u) + u
    ensures carry <==> Cleared(m, u) + u == Pow(l)
  {
    hide Pow;
    hide Pow2;
    if carry {
      PowIsPow2(l);
      Pow2Add(bitPos, 64 * l - bitPos);
      CarryOut(m, u, Pow(l), Pow2(64 * l - bitPos));
    } else {
      AddUnitCleared(m, u);
      DivMod(w, u);
    }
  }

  lemma {:induction false} HalfNormalized(s: seq<Limb>)
    requires |s| >= 1 && 2 * Val(s) >= Pow(|s|)
    ensures Normalized(s)
  {
    hide Val;
    TopLimb(s);
    var n := |s| - 1;
    PowStep(n);
    hide Pow;
    Distrib(s[n], 1, Pow(n));
    Assoc(2, HALF_B, Pow(n));
    if s[n] < HALF_B {
      MulLe(s[n] + 1, HALF_B, Pow(n));
      assert false;
    }
  }

  lemma {:induction false} StillNormalized(s: seq<Limb>, m: nat, u: nat, carry: bool)
    requires |s| >= 1 && u >= 1 && 2 * m >= Pow(|s|)
    requires if carry then 2 * Cleared(Val(s), u) == Pow(|s|) else Val(s) >= m
    ensures Normalized(s)
  {
    hide Val;
    hide Pow;
    hide Normalized;
    DivMod(Val(s), u);
    HalfNormalized(s);
  }

  /** The last part: truncate, keeping the exponent. */
  method FinishRound(r: BfNum, l: nat, bitPos: int, ghost rounded: nat, ghost e: int, ghost carry: bool)
    requires 1 <= l <= r.tab.Length && bitPos < 64 * l && Normalized(r.tab[..l])
    requires Cleared(Val(r.tab[..l]), CutUnit(bitPos)) * (if carry then 2 else 1) == rounded
    requires r.expn == e + if carry then 1 else 0
    modifies r`tab, r.tab
    ensures fresh(r.tab) || r.tab == old(r.tab)
    ensures Normalized(r.tab[..]) && r.tab[0] != 0
    ensures SameValue(Val(r.tab[..]), r.expn - 64 * r.tab.Length, rounded, e - 64 * l)
  {
    hide Val;
    hide Pow;
    hide Pow2;
    hide Cleared;
    hide CutUnit;
    ghost var w := Cleared(Val(r.tab[..l]), CutUnit(bitPos));
    Truncate(r, l, bitPos);
    ghost var n := l - r.tab.Length;
    PowIsPow2(n);
    Pow2Even(64 * n + 1);
    Assoc(2, Pow2(64 * n), Val(r.tab[..]));
  }

  lemma {:induction false} CutIsUnit(l: nat, prec: int)
    requires prec > 0
    ensures CutUnit(64 * l - prec) == Unit(64 * l, prec)
  {
  }

  /** Rounds the mantissa in the first l limbs. */
  method Round(r: BfNum, prec1: nat, f: BfFlags, l: nat) returns (ret: Status)
    requires 1 <= l <= r.tab.Length && Normalized(r.tab[..l])
    requires f.subnormal && !f.radpnt && r.expn < EMin(f) ==> prec1 != PREC_INF
    requires prec1 >= 1 || r.expn < EMax(f)
    requires f.expBits >= EXP_BITS_MIN
    modifies r, r.tab
    ensures fresh(r.tab) || r.tab == old(r.tab)
    ensures var x, k := Exact(old(Val(r.tab[..l])), false), 64 * l;
            && UnitFor(x, Unit(k, EffPrec(f, prec1, old(r.expn))))
            && Holds(r, old(r.sign), RoundNumber(f, prec1, old(r.sign), x, k, old(r.expn)), f, prec1)
            && ret == RoundStatus(f, prec1, old(r.sign), x, k, old(r.expn))
  {
    hide Val;
    hide Pow;
    hide Pow2;
    hide Cleared;
    hide RoundTo;
    hide Normalized;
    hide SameValue;
    hide EMin;
    hide EMax;
    hide LargestFinite;
    hide Unit;
    hide EffPrec;
    ghost var m, e := Val(r.tab[..l]), r.expn;
    ghost var neg := r.sign;
    var prec := EffPrec(f, prec1, r.expn);
    ghost var u := Unit(64 * l, prec);
    var addOne, inexact := GetRndAdd(r, l, prec, f.rnd);
    RoundChanges(f.rnd, neg, Exact(m, false), u);
    Magnitude(r.tab[..l], prec);
    if prec <= 0 {
      if addOne {
        SetUnit(r, prec, l);
      } else {
        r.SetZero(r.sign);
      }
      return Status(true, true, false);
    }
    var bitPos := 64 * l - 1 - (prec - 1);
    CutIsUnit(l, prec);
    ghost var rounded := Cleared(m, u) + if addOne then u else 0;
    var carry := RoundUp(r, l, bitPos, addOne, u, f.rnd, neg);
    var underflow := false;
    ExpRange(f);
    if r.expn < EMin(f) {
      if f.subnormal {
        underflow := inexact;
      } else {
        r.SetZero(r.sign);
        return Status(true, true, false);
      }
    }
    if r.expn > EMax(f) {
      SetOverflow(r, prec1, f);
      return Status(true, false, true);
    }
    FinishRound(r, l, bitPos, rounded, e, carry);
    ret := Status(inexact, underflow, false);
  }

  lemma {:induction false} ExpRange(f: BfFlags)
    requires f.expBits >= EXP_BITS_MIN
    ensures EMin(f) <= EMax(f)
  {
    hide Pow2;
    Pow2Mono(2, f.expBits - 1);
    PowTwoSmall();
  }

  /** The addition of the unit, when there is one. */
  method RoundUp(r: BfNum, l: nat, bitPos: int, addOne: bool, ghost u: nat, ghost rnd: RndMode, ghost neg: bool)
    returns (carry: bool)
    requires 1 <= l <= r.tab.Length && Normalized(r.tab[..l]) && bitPos < 64 * l && u == CutUnit(bitPos)
    requires UnitFor(Exact(Val(r.tab[..l]), false), u)
    requires var m := Val(r.tab[..l]);
             RoundTo(rnd, neg, Exact(m, false), u) == Cleared(m, u) + if addOne then u else 0
    modifies r`expn, r.tab
    ensures Normalized(r.tab[..l])
    ensures r.expn == old(r.expn) + if carry then 1 else 0
    ensures var rounded := Cleared(old(Val(r.tab[..l])), u) + if addOne then u else 0;
            && Cleared(Val(r.tab[..l]), u) * (if carry then 2 else 1) == rounded
            && (carry <==> rounded == Pow2(64 * l))
  {
    hide Val;
    hide Pow;
    hide Pow2;
    hide Cleared;
    hide RoundTo;
    hide Normalized;
    ghost var m := Val(r.tab[..l]);
    NormalizedBound(r.tab[..l]);
    PowIsPow2(l);
    carry := false;
    if addOne {
      if bitPos < 0 {
        NoAddAtOne(rnd, neg, m, addOne);
        assert false;
      }
      carry := AddUnit(r.tab, l, bitPos);
      ValBound(r.tab[..l]);
      AfterAdd(m, u, l, bitPos, Val(r.tab[..l]), carry);
      StillNormalized(r.tab[..l], m, u, carry);
      if carry {
        r.expn := r.expn + 1;
      }
    } else {
      ClearedDef(m, u);
      DivMod(m, u);
    }
  }
}
