/** The arithmetic behind rounding in place: the rounding bits of a mantissa, the carry out of its
    top, and cutting it at a bit. */
module RoundMath {
  import opened Arith
  import opened Limbs
  import opened LimbMul
  import opened Bits
  import opened RoundSpec

  // ----- the rounding bits -----

  lemma {:induction false} HalfUnit(m: nat, h: nat)
    requires h >= 1
    ensures m / (2 * h) == m / h / 2
    ensures m % (2 * h) == m % h + h * (m / h % 2)
  {
    var q, b := m / h, m / h % 2;
    DivMod(m, h);
    DivMod(q, 2);
    Distrib(q / 2 * 2, b, h);
    Assoc(q / 2, 2, h);
    TimesBit(h, b);
    DivModUnique(m, 2 * h, q / 2, m % h + h * b);
  }

  /** The addend chosen from the bit below the unit, whether anything lies below that, and the bit
      of the unit itself. */
  predicate AddOne(mode: RndMode, neg: bool, bit1: bool, bit0: bool, even: bool) {
    match mode
    case RNDZ => false
    case RNDN => bit1 && (bit0 || even)
    case RNDD => neg && (bit1 || bit0)
    case RNDU => !neg && (bit1 || bit0)
    case RNDA => bit1 || bit0
    case RNDNA => bit1
    case RNDF => bit1
  }

  lemma {:induction false} RoundingBits(mode: RndMode, neg: bool, m: nat, u: nat, h: nat, bit1: bool, bit0: bool,
          unitBit: bool)
    requires u == 2 * h && h >= 1
    requires bit1 == (m / h % 2 == 1) && bit0 == (m % h != 0) && unitBit == (m / u % 2 == 1)
    ensures RoundTo(mode, neg, Exact(m, false), u)
         == m / u * u + if AddOne(mode, neg, bit1, bit0, unitBit) then u else 0
    ensures m % u != 0 <==> bit1 || bit0
  {
    var x := Exact(m, false);
    var lo := m / u * u;
    HalfUnit(m, h);
    DivMod(m, u);
    DivMod(m, h);
    TimesBit(h, m / h % 2);
    BitsChoose(mode, neg, m, lo, u, h, m % h, bit1, bit0, unitBit);
  }

  lemma {:induction false} BitsChoose(mode: RndMode, neg: bool, m: nat, lo: int, u: nat, h: nat, low: int, bit1: bool,
          bit0: bool, unitBit: bool)
    requires u == 2 * h && h >= 1 && 0 <= low < h && m == lo + low + if bit1 then h else 0
    requires bit0 == (low != 0)
    ensures Choose(mode, neg, Exact(m, false), unitBit, lo, u)
         == lo + if AddOne(mode, neg, bit1, bit0, unitBit) then u else 0
  {
  }

  /** Nothing is rounded at unit 1. */
  lemma {:induction false} UnitOne(mode: RndMode, neg: bool, m: nat)
    ensures RoundTo(mode, neg, Exact(m, false), 1) == m && m % 1 == 0 && m / 1 * 1 == m
  {
  }

  // ----- cutting at a bit -----

  /** The number with the bits below bitPos cleared. */
  function Cleared(w: nat, u: nat): nat
    requires u >= 1
  {
    w / u * u
  }

  lemma {:induction false} ClearedIs(w: nat, u: nat, lo: int, k: int)
    requires u >= 1 && lo == k * u && lo <= w < lo + u && k >= 0
    ensures Cleared(w, u) == lo
  {
    DivModUnique(w, u, k, w - lo);
  }

  /** Adding the unit to a mantissa and clearing below it. */
  lemma {:induction false} AddUnitCleared(m: nat, u: nat)
    requires u >= 1
    ensures Cleared(m + u, u) == Cleared(m, u) + u
  {
    DivMod(m, u);
    Distrib(m / u, 1, u);
    ClearedIs(m + u, u, m / u * u + u, m / u + 1);
  }

  /** When adding the unit carries out of the top, clearing leaves exactly the power above. */
  lemma {:induction false} CarryOut(m: nat, u: nat, p: nat, v: nat)
    requires u >= 1 && p == u * v && m < p && m + u >= p
    ensures Cleared(m, u) + u == p
  {
    DivMod(m, u);
    var k := m / u;
    Distrib(v, 1, u);
    if k < v - 1 {
      MulLe(k, v - 2, u);
      Distrib(v, 2, u);
      assert false;
    }
    if k > v - 1 {
      MulLe(v, k, u);
      assert false;
    }
  }

  /** Clearing the bits below bit t of limb i: the limbs below vanish, limb i is masked. */
  lemma {:induction false} ClearLimbs(s: seq<Limb>, i: nat, t: nat, y: Limb)
    requires i < |s| && t < 64
    requires y as int == s[i] as int - s[i] % Pow2(t)
    ensures Cleared(Val(s), Pow2(64 * i + t)) == Pow(i) * Val([y] + s[i + 1..])
  {
    hide Val;
    hide Pow;
    hide Pow2;
    hide Cleared;
    var x, c, pc := s[i], Pow2(t), Pow2(64 * i + t);
    BitSplit(s, i, t);
    DivMod(Val(s), pc);
    ConsVal(y, s[i + 1..]);
    ValSplit(s, i);
    assert s[i..] == [x] + s[i + 1..];
    ConsVal(x, s[i + 1..]);
    ClearArith(Val(s), Val(s[..i]), Pow(i), x, y, x % c, Val(s[i + 1..]), Val(s) % pc, Val(s) / pc * pc);
    ClearedDef(Val(s), pc);
  }

  lemma {:induction false} ClearedDef(w: nat, u: nat)
    requires u >= 1
    ensures Cleared(w, u) == w / u * u
  {
  }

  lemma {:induction false} ClearArith(v: int, lo: int, p: int, x: int, y: int, r: int, hi: int, rem: int, c: int)
    requires v == lo + p * (x + B * hi) && y == x - r && rem == lo + p * r && v == c + rem
    ensures c == p * (y + B * hi)
  {
    Distrib(x + B * hi, r, p);
  }

  lemma {:induction false} MaskedBit(x: Limb, t: nat)
    requires t < 64
    ensures 0 <= x as int - x % Pow2(t) <= x
    ensures x >= HALF_B ==> x as int - x % Pow2(t) >= HALF_B
  {
    hide Pow2;
    var c := Pow2(t);
    DivMod(x, c);
    if x >= HALF_B {
      Pow2Add(t, 63 - t);
      Pow2Add(1, 63);
      LimbIsPow2();
      PowTwoSmall();
      var v := Pow2(63 - t);
      assert c * v == HALF_B;
      if x / c < v {
        MulLe(x / c, v - 1, c);
        Distrib(v, 1, c);
        assert false;
      }
      MulLe(v, x / c, c);
    }
  }

  /** After the carry: the top bit alone survives the clearing. */
  lemma {:induction false} CarryShift(low: seq<Limb>, high: seq<Limb>, g: nat, t: nat, n: nat, w: nat)
    requires |low| + |high| == n && |high| >= 1 && t < 64
    requires Val(low) + Pow(|low|) * g < Pow2(64 * |low| + t)
    requires Val(high) * 2 + g % 2 == g + Pow(|high|)
    requires w == Val(low) + Pow(|low|) * Val(high)
    ensures 2 * Cleared(w, Pow2(64 * |low| + t)) == Pow(n)
  {
    hide Val;
    hide Pow;
    hide Pow2;
    hide Cleared;
    var p, hp, c, pc := Pow(|low|), Pow(|high|), Pow2(t), Pow2(64 * |low| + t);
    PowIsPow2(|low|);
    Pow2Add(64 * |low|, t);
    PowAdd(|low|, |high|);
    PowIsPow2(|high|);
    var z := 64 * |high| - 1;
    Pow2Even(z + 1);
    Pow2Add(t, z - t);
    ValBound(low);
    CarryArith(Val(low), p, g, Val(high), hp, c, pc, w, Pow2(z), Pow2(z - t));
  }

  lemma {:induction false} CarryArith(lo: nat, p: nat, g: nat, h: nat, hp: nat, c: nat, pc: nat, w: nat, half: nat,
          v: nat)
    requires p >= 1 && c >= 1 && pc == p * c && 0 <= lo < p && lo + p * g < pc
    requires h * 2 + g % 2 == g + hp && hp == 2 * half && half == c * v
    requires w == lo + p * h
    ensures 2 * Cleared(w, pc) == p * hp
  {
    if g >= c {
      MulLe(c, g, p);
      assert false;
    }
    var r := h - half;
    assert 2 * r == g - g % 2 && r < c;
    Distrib(half, r, p);
    Assoc(p, c, v);
    MulLe(r + 1, c, p);
    Distrib(r, 1, p);
    MulNonneg(p, r);
    ClearedIs(w, pc, p * half, v);
    Assoc(2, half, p);
  }
}
