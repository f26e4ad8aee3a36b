/** Normalising and rounding any finite number: the result is the exact value rounded, whatever the
    array it came in. */
module BfNormalize {
  import opened Arith
  import opened Limbs
  import opened LimbOps
  import opened LimbMul
  import opened Bits
  import opened RoundSpec
  import opened RoundMath
  import opened BfRound

  // ----- rounding does not depend on the scale -----

  lemma {:induction false} ScaledChoice(mode: RndMode, neg: bool, m: nat, odd: bool, lo: int, u: nat, c: nat, m': nat,
          lo': int, u': nat, h': int)
    requires u >= 2 && u % 2 == 0 && c >= 1 && m' == m * c && lo' == lo * c
    requires u' == u * c && h' == (u / 2) * c && u' == 2 * h'
    ensures Choose(mode, neg, Exact(m', false), odd, lo', u') == Choose(mode, neg, Exact(m, false), odd, lo, u) * c
  {
    var h := u / 2;
    Distrib(lo, h, c);
    Distrib(lo, u, c);
    ScaledCompare(m, lo, c);
    ScaledCompare(m, lo + h, c);
  }

  lemma {:induction false} ScaledCompare(a: int, b: int, c: int)
    requires c >= 1
    ensures a * c < b * c <==> a < b
    ensures a * c == b * c <==> a == b
  {
    if a < b { MulLt(a, b, c); }
    if b < a { MulLt(b, a, c); }
  }

  lemma {:induction false} ScaledRound(mode: RndMode, neg: bool, m: nat, u: nat, c: nat)
    requires u >= 2 && u % 2 == 0 && c >= 1
    ensures UnitFor(Exact(m * c, false), u * c)
    ensures RoundTo(mode, neg, Exact(m * c, false), u * c) == RoundTo(mode, neg, Exact(m, false), u) * c
  {
    var k, h := m / u, u / 2;
    DivMod(m, u);
    Assoc(2, h, c);
    var r := m % u;
    Distrib(k * u, r, c);
    Assoc(k, u, c);
    MulLt(r, u, c);
    MulNonneg(r, c);
    MulLe(1, c, u);
    DivModUnique(m * c, u * c, k, r * c);
    DivModUnique(u * c, 2, h * c, 0);
    ScaledChoice(mode, neg, m, k % 2 == 1, k * u, u, c, m * c, k * u * c, u * c, h * c);
  }

  /** The unit of a longer mantissa. */
  lemma {:induction false} ScaledUnit(k: nat, prec: int, s: nat)
    ensures prec < k ==> Unit(k + s, prec) == Unit(k, prec) * Pow2(s) && Unit(k, prec) % 2 == 0 && Unit(k, prec) >= 2
    ensures prec >= k ==> exists j: nat :: Pow2(s) == Unit(k + s, prec) * Pow2(j)
  {
    hide Pow2;
    if prec < k {
      Pow2Add(k - prec, s);
      Pow2Even(k - prec);
    } else if prec < k + s {
      Pow2Add(k + s - prec, prec - k);
    } else {
      assert Pow2(s) == 1 * Pow2(s);
    }
  }

  lemma {:induction false} UnitEvenOrOne(m: nat, k: nat, prec: int)
    ensures UnitFor(Exact(m, false), Unit(k, prec))
  {
    if prec < k {
      Pow2Even(k - prec);
    }
  }

  lemma {:induction false} RoundsScaled(mode: RndMode, neg: bool, m: nat, k: nat, prec: int, s: nat)
    ensures UnitFor(Exact(m, false), Unit(k, prec)) && UnitFor(Exact(m * Pow2(s), false), Unit(k + s, prec))
    ensures var r := RoundTo(mode, neg, Exact(m, false), Unit(k, prec));
            RoundTo(mode, neg, Exact(m * Pow2(s), false), Unit(k + s, prec)) == r * Pow2(s)
    ensures var r := RoundTo(mode, neg, Exact(m, false), Unit(k, prec));
            Is(Exact(m, false), r) <==> Is(Exact(m * Pow2(s), false), r * Pow2(s))
  {
    hide Pow2;
    hide RoundTo;
    hide Unit;
    var c := Pow2(s);
    UnitEvenOrOne(m, k, prec);
    UnitEvenOrOne(m * c, k + s, prec);
    ScaledUnit(k, prec, s);
    if prec < k {
      ScaledRound(mode, neg, m, Unit(k, prec), c);
    } else {
      UnitAbove(k, prec);
      UnitOne(mode, neg, m);
      var u := Unit(k + s, prec);
      var j: nat :| c == u * Pow2(j);
      Assoc(m, Pow2(j), u);
      MulNonneg(m, Pow2(j));
      RoundExact(mode, neg, Exact(m * c, false), u, m * Pow2(j));
    }
    ScaledCompare(m, RoundTo(mode, neg, Exact(m, false), Unit(k, prec)), c);
  }

  lemma {:induction false} UnitAbove(k: nat, prec: int)
    requires prec >= k
    ensures Unit(k, prec) == 1
  {
  }

  /** The outcome for the mantissa scaled by 2^s, in terms of the mantissa itself. */
  lemma {:induction false} OutcomeScaled(f: BfFlags, prec1: nat, neg: bool, m: nat, k: nat, e: int, s: nat, r: BfNum)
    requires UnitFor(Exact(m * Pow2(s), false), Unit(k + s, EffPrec(f, prec1, e)))
    requires Holds(r, neg, RoundNumber(f, prec1, neg, Exact(m * Pow2(s), false), k + s, e), f, prec1)
    ensures UnitFor(Exact(m, false), Unit(k, EffPrec(f, prec1, e)))
    ensures Holds(r, neg, RoundNumber(f, prec1, neg, Exact(m, false), k, e), f, prec1)
    ensures RoundStatus(f, prec1, neg, Exact(m * Pow2(s), false), k + s, e)
         == RoundStatus(f, prec1, neg, Exact(m, false), k, e)
  {
    hide Pow2;
    hide RoundTo;
    hide Unit;
    hide EffPrec;
    hide EMin;
    hide EMax;
    hide Normalized;
    hide SameValue;
    hide LargestFinite;
    var p, c := EffPrec(f, prec1, e), Pow2(s);
    RoundsScaled(f.rnd, neg, m, k, p, s);
    var rd := RoundTo(f.rnd, neg, Exact(m, false), Unit(k, p));
    Pow2Add(k, s);
    ScaledCompare(rd, Pow2(k), c);
    ScaledCompare(rd, 0, c);
    match RoundNumber(f, prec1, neg, Exact(m * c, false), k + s, e)
    case Finite(_, _, e2) => SameScaled(Val(r.tab[..]), e2 - 64 * r.tab.Length, rd, e - k, s);
    case _ =>
  }

  // ----- bf_normalize_and_round -----

  /** (a << shift) | (v >> (64 - shift)) */
  function ShlWord(a: Limb, v: Limb, shift: nat): (x: Limb)
    requires 1 <= shift < 64
  {
    ShlFits(a, v, shift);
    (a * Pow2(shift)) % B + v / Pow2(64 - shift)
  }

  lemma {:induction false} ShlFits(a: Limb, v: Limb, shift: nat)
    requires 1 <= shift < 64
    ensures 0 <= (a * Pow2(shift)) % B + v / Pow2(64 - shift) < B
    ensures a * Pow2(shift) == (a * Pow2(shift)) % B + B * (a / Pow2(64 - shift))
  {
    hide Pow2;
    var c, d := Pow2(shift), Pow2(64 - shift);
    WordFactors(shift);
    DivMod(a, d);
    DivMod(v, d);
    var q, r := a / d, a % d;
    Distrib(q * d, r, c);
    Assoc(q, d, c);
    MulLe(r + 1, d, c);
    Distrib(r, 1, c);
    MulNonneg(r, c);
    DivModUnique(a * c, B, q, r * c);
    ShlBound(v, v / d, v % d, c, d, r * c);
  }

  lemma {:induction false} ShlBound(v: Limb, q: int, r: int, c: int, d: int, low: int)
    requires v == q * d + r && 0 <= r && c >= 1 && d >= 1 && c * d == B && 0 <= low && low + c <= B && q >= 0
    ensures low + q < B
  {
    if q >= c {
      MulLe(c, q, d);
      assert false;
    }
  }

  /** Shifts the first l limbs left, into the zeros at their top. */
  method ShiftLeft(tab: array<Limb>, l: nat, shift: nat)
    requires 1 <= l <= tab.Length && 1 <= shift < 64 && Val(tab[..l]) * Pow2(shift) < Pow(l)
    modifies tab
    ensures Val(tab[..l]) == old(Val(tab[..l])) * Pow2(shift)
  {
    hide Val;
    hide Pow;
    hide Pow2;
    hide ShlWord;
    ghost var s, c, d := tab[..l], Pow2(shift), Pow2(64 - shift);
    var v: Limb := 0;
    NoLimbs(0);
    ZeroQuotient(d);
    assert tab[..0] == [] && s[..0] == [];
    for i := 0 to l
      invariant forall j :: i <= j < l ==> tab[j] == s[j]
      invariant Val(tab[..i]) + Pow(i) * (v / d) == Val(s[..i]) * c
    {
      var a := tab[i];
      ghost var done, k := tab[..i], v / d;
      tab[i] := ShlWord(a, v, shift);
      assert tab[..i + 1] == done + [tab[i]];
      ShlStep(done, s, i, a, v, shift, tab[i]);
      v := a;
    }
    assert s[..l] == s;
    ValBound(tab[..l]);
    DivMod(v, d);
    NoCarry(Val(tab[..l]), Pow(l), v / d, Val(s) * c);
  }

  lemma {:induction false} ZeroQuotient(d: nat)
    requires d >= 1
    ensures 0 / d == 0
  {
  }

  lemma {:induction false} NoCarry(x: nat, p: nat, q: int, y: nat)
    requires x + p * q == y && y < p && q >= 0 && p >= 1
    ensures x == y
  {
    if q >= 1 {
      MulLe(1, q, p);
      assert false;
    }
  }

  lemma {:induction false} ShlStep(done: seq<Limb>, s: seq<Limb>, i: nat, a: Limb, v: Limb, shift: nat, y: Limb)
    requires i < |s| && |done| == i && a == s[i] && 1 <= shift < 64 && y == ShlWord(a, v, shift)
    requires Val(done) + Pow(i) * (v / Pow2(64 - shift)) == Val(s[..i]) * Pow2(shift)
    ensures Val(done + [y]) + Pow(i + 1) * (a / Pow2(64 - shift)) == Val(s[..i + 1]) * Pow2(shift)
  {
    hide Val;
    hide Pow;
    hide Pow2;
    ShlFits(a, v, shift);
    ValSnoc(done, y);
    Extend(s, i);
    PowStep(i);
    var c, d := Pow2(shift), Pow2(64 - shift);
    ShlSum(Val(done), Pow(i), v / d, Val(s[..i]), c, a, (a * c) % B, a / d, y);
  }

  lemma {:induction false} ShlSum(x: int, p: int, vq: int, z: int, c: int, a: int, low: int, aq: int, y: int)
    requires x + p * vq == z * c && a * c == low + B * aq && y == low + vq
    ensures x + p * y + B * p * aq == (z + p * a) * c
  {
    Distrib(z, p * a, c);
    Assoc(p, a, c);
    Distrib(low, B * aq, p);
    Distrib(low, vq, p);
    Assoc(B, p, aq);
  }

  /** Rounds any finite number given by an array that need not be normalised: the value is
      ±0.tab * 2^expn, and the result is that value rounded. */
  method NormalizeAndRound(r: BfNum, prec1: nat, f: BfFlags) returns (ret: Status)
    requires f.expBits >= EXP_BITS_MIN && prec1 >= 1 && (f.subnormal ==> prec1 != PREC_INF)
    modifies r, r.tab
    ensures fresh(r.tab) || r.tab == old(r.tab)
    ensures old(Val(r.tab[..])) == 0 ==> Holds(r, old(r.sign), Zero, f, prec1) && ret == Status(false, false, false)
    ensures old(Val(r.tab[..])) > 0 ==>
              var m := old(Val(r.tab[..]));
              var k := BitLen(m);
              var e := old(r.expn) - (64 * old(r.tab.Length) - k);
              && UnitFor(Exact(m, false), Unit(k, EffPrec(f, prec1, e)))
              && Holds(r, old(r.sign), RoundNumber(f, prec1, old(r.sign), Exact(m, false), k, e), f, prec1)
              && ret == RoundStatus(f, prec1, old(r.sign), Exact(m, false), k, e)
  {
    hide Val;
    hide Pow;
    hide Pow2;
    hide Normalized;
    hide RoundNumber;
    hide RoundStatus;
    hide UnitFor;
    hide BitLen;
    hide Holds;
    ghost var m := Val(r.tab[..]);
    var l := DropZeros(r.tab);
    if l == 0 {
      r.Resize(0);
      r.expn := EXP_ZERO;
      HoldsZero(r, f, prec1);
      return Status(false, false, false);
    }
    r.expn := r.expn - (r.tab.Length - l) * 64;
    var shift := 64 - BitLen(r.tab[l - 1]);
    TopZeros(r.tab[..l], shift);
    if shift != 0 {
      ShiftLeft(r.tab, l, shift);
      r.expn := r.expn - shift;
    } else {
      TimesOne(m);
    }
    ShiftedNormalized(r.tab[..l], m, shift);
    ghost var k := BitLen(m);
    ghost var e := r.expn;
    ghost var neg := r.sign;
    ret := Round(r, prec1, f, l);
    assert 64 * l == k + shift;
    OutcomeScaled(f, prec1, neg, m, k, e, shift, r);
  }

  lemma {:induction false} TimesOne(m: nat)
    ensures m * Pow2(0) == m
  {
  }

  lemma {:induction false} HoldsZero(r: BfNum, f: BfFlags, prec1: nat)
    requires r.tab.Length == 0 && r.expn == EXP_ZERO
    ensures Holds(r, r.sign, Zero, f, prec1)
  {
  }

  /** The number of limbs without the zero limbs at the top. */
  method DropZeros(tab: array<Limb>) returns (l: nat)
    ensures l <= tab.Length && (l > 0 ==> tab[l - 1] != 0)
    ensures Val(tab[..l]) == Val(tab[..])
    ensures l == 0 <==> Val(tab[..]) == 0
  {
    hide Val;
    hide Pow;
    l := tab.Length;
    assert tab[..l] == tab[..];
    while l > 0 && tab[l - 1] == 0
      invariant l <= tab.Length && Val(tab[..l]) == Val(tab[..])
    {
      Extend(tab[..], l - 1);
      assert tab[..][..l] == tab[..l] && tab[..][..l - 1] == tab[..l - 1];
      l := l - 1;
    }
    if l > 0 {
      TopPositive(tab[..l]);
    } else {
      NoLimbs(0);
      assert tab[..0] == [];
    }
  }

  lemma {:induction false} TopPositive(s: seq<Limb>)
    requires |s| > 0 && s[|s| - 1] != 0
    ensures Val(s) > 0
  {
    hide Val;
    hide Pow;
    TopLimb(s);
    MulLe(1, s[|s| - 1], Pow(|s| - 1));
  }

  /** How long the number is when its top limb has shift leading zeros. */
  lemma {:induction false} TopZeros(s: seq<Limb>, shift: int)
    requires |s| > 0 && s[|s| - 1] != 0 && shift == 64 - BitLen(s[|s| - 1])
    ensures 0 <= shift < 64 && BitLen(Val(s)) == 64 * |s| - shift
    ensures Val(s) * Pow2(shift) < Pow(|s|) <= 2 * (Val(s) * Pow2(shift))
  {
    hide Val;
    hide Pow;
    hide Pow2;
    hide BitLen;
    var n, x := |s| - 1, s[|s| - 1];
    var b := BitLen(x);
    BitLenBounds(x);
    TopLimb(s);
    PowIsPow2(n);
    PowIsPow2(|s|);
    LimbLong(x, b);
    Pow2Add(64 * n, b);
    Pow2Add(64 * n, b - 1);
    TopBounds(Val(s), x, Pow(n), Pow2(b), Pow2(b - 1), Pow2(64 * n + b), Pow2(64 * n + b - 1));
    BitLenIs(Val(s), 64 * n + b);
    Pow2Add(64 * n + b, shift);
    Pow2Even(64 * n + b);
    MulLt(Val(s), Pow2(64 * n + b), Pow2(shift));
    MulLe(Pow2(64 * n + b - 1), Val(s), Pow2(shift));
    Assoc(2, Pow2(64 * n + b - 1), Pow2(shift));
  }

  lemma {:induction false} LimbLong(x: Limb, b: nat)
    requires x != 0 && b == BitLen(x)
    ensures 1 <= b <= 64
  {
    hide Pow2;
    BitLenBounds(x);
    LimbIsPow2();
    hide BitLen;
    if b > 64 {
      Pow2Mono(64, b - 1);
      assert false;
    }
  }

  lemma {:induction false} TopBounds(v: nat, x: nat, p: nat, c: nat, c1: nat, pc: nat, pc1: nat)
    requires p * x <= v < p * x + p && c1 <= x < c && pc == p * c && pc1 == p * c1
    ensures pc1 <= v < pc
  {
    MulLe(c1, x, p);
    MulLe(x + 1, c, p);
    Distrib(x, 1, p);
  }

  lemma {:induction false} ShiftedNormalized(s: seq<Limb>, m: nat, shift: nat)
    requires |s| >= 1 && Val(s) == m * Pow2(shift) && Pow(|s|) <= 2 * (m * Pow2(shift))
    ensures Normalized(s)
  {
    hide Val;
    hide Pow;
    hide Pow2;
    HalfNormalized(s);
  }
}
