/** Limbs to digits modulo the primes: every operand of a product by transforms. */
module LimbToNtt {
  import opened Arith
  import opened Limbs
  import opened LimbMul
  import opened LimbOps
  import opened Bits
  import opened BfDigits
  import opened ModWords
  import opened NttTables
  import opened NttStage
  import opened NttColumns
  import opened FftSize

  // ----- digits of any size -----

  /** Digit i of v in base 2^dpl. */
  function Coef(v: nat, dpl: nat, i: nat): (c: nat)
    ensures c < Pow2(dpl)
  {
    MulNonneg(i, dpl);
    DivMod(v, Pow2(i * dpl));
    DivMod(v / Pow2(i * dpl), Pow2(dpl));
    v / Pow2(i * dpl) % Pow2(dpl)
  }

  /** x & mask for the low k bits; all bits when k is 0. */
  function LowBits(x: Limb, k: nat): (y: Limb)
    requires k < LIMB_BITS
  {
    LowAtMost(x, Pow2(k));
    if k == 0 then x else x % Pow2(k)
  }

  lemma {:induction false} LowAtMost(x: int, p: int)
    requires 0 <= x && p >= 1
    ensures 0 <= x % p <= x
  {
    DivMod(x, p);
    DivMod(x, p);
    MulNonneg(x / p, p);
  }

  /** The words of a number from bit pos on. */
  lemma {:induction false} WordsOf(v: nat, pos: nat, w: nat)
    requires w == Shr(v, pos)
    ensures BitsOf(v, pos) == w % B && BitsOf(v, pos + 64) == w / B % B && BitsOf(v, pos + 128) == w / B / B % B
  {
    hide Pow2;
    NextWord(v, pos);
    NextWord(v, pos + 64);
  }

  lemma {:induction false} NextWord(v: nat, pos: nat)
    ensures v / Pow2(pos + 64) == v / Pow2(pos) / B
  {
    hide Pow2;
    Pow2Add(pos, 64);
    LimbIsPow2();
    var p := Pow2(pos);
    DivMod(v, p);
    DivMod(v / p, B);
    DivTwiceArith(v, p, v / p, v % p, v / p / B, v / p % B);
  }

  lemma {:induction false} DivTwiceArith(v: int, p: int, h: int, low: int, q: int, x: int)
    requires p >= 1 && v == h * p + low && 0 <= low < p && h == q * B + x && 0 <= x < B
    ensures v / (p * B) == q
  {
    Distrib(q * B, x, p);
    Assoc(q, B, p);
    MulLe(x + 1, B, p);
    Distrib(x, 1, p);
    MulNonneg(x, p);
    DivModUnique(v, p * B, q, x * p + low);
  }

  /** The low bits of a number of which the low word is known. */
  lemma {:induction false} LowOfTwo(w: nat, s: nat)
    ensures w % (B * Pow2(s)) == w % B + B * (w / B % Pow2(s))
  {
    hide Pow2;
    var p := Pow2(s);
    DivMod(w, B);
    DivMod(w / B, p);
    LowArith(w, w / B, w % B, p, w / B / p, w / B % p);
  }

  lemma {:induction false} LowArith(w: int, h: int, low: int, p: int, q: int, x: int)
    requires p >= 1 && w == h * B + low && 0 <= low < B && h == q * p + x && 0 <= x < p
    ensures w % (B * p) == low + B * x
  {
    Distrib(q * p, x, B);
    Assoc(q, p, B);
    MulLe(x + 1, p, B);
    Distrib(x, 1, B);
    MulNonneg(x, B);
    DivModUnique(w, B * p, q, low + B * x);
  }

  const TOP_SHIFT: nat := 63
  const TOP_UNIT: nat := 0x8000_0000_0000_0000

  /** Digit i as limb_to_ntt gathers it: for at most 125 bits the digit itself; otherwise its bits from
      bit 63 on and, apart, its low 63 bits. */
  method DigitWords(taba: array<Limb>, o: nat, len: nat, dpl: nat, i: nat) returns (a: nat, low: Limb)
    requires o + len <= taba.Length && 1 <= dpl <= 188
    ensures dpl <= 125 ==> a == Coef(Val(taba[o..o + len]), dpl, i)
    ensures low < TOP_UNIT
    ensures dpl > 125 ==> Coef(Val(taba[o..o + len]), dpl, i) == a * TOP_UNIT + low
    ensures a < B * MOD_MIN
  {
    hide Val, Pow2, BitsOf, LowBits, JoinHigh, Coef;
    MulNonneg(i, dpl);
    var pos: nat := i * dpl;
    ghost var v := Val(taba[o..o + len]);
    ghost var w := Shr(v, pos);
    CoefIs(v, dpl, i, pos);
    WordsOf(v, pos, w);
    low := 0;
    if dpl <= LIMB_BITS {
      var a0 := GetBits(taba, o, len, pos);
      ShortDigit(w, dpl, a0);
      a := LowBits(a0, dpl % LIMB_BITS);
    } else if dpl <= 125 {
      var a0 := GetBits(taba, o, len, pos);
      var a1 := GetBits(taba, o, len, pos + LIMB_BITS);
      MiddleDigit(w, dpl, a0, a1);
      a := a0 + B * LowBits(a1, dpl % LIMB_BITS);
    } else {
      a, low := LongWords(taba, o, len, dpl, pos, w);
      LongDigitFits(w % Pow2(dpl), dpl, a, low);
    }
  }

  /** v >> pos. */
  ghost function Shr(v: nat, pos: nat): nat {
    DivMod(v, Pow2(pos));
    v / Pow2(pos)
  }

  lemma {:induction false} CoefIs(v: nat, dpl: nat, i: nat, pos: nat)
    requires pos == i * dpl
    ensures Coef(v, dpl, i) == Shr(v, pos) % Pow2(dpl)
  {
  }

  /** Three words of a digit of more than 125 bits, cut at bit 63. */
  method LongWords(taba: array<Limb>, o: nat, len: nat, dpl: nat, pos: nat, ghost w: nat) returns (a: nat, low: Limb)
    requires o + len <= taba.Length && 125 < dpl <= 188 && w == Shr(Val(taba[o..o + len]), pos)
    ensures low < TOP_UNIT && w % Pow2(dpl) == a * TOP_UNIT + low
  {
    hide Val, Pow2, BitsOf, LowBits, JoinHigh, Shr;
    WordsOf(Val(taba[o..o + len]), pos, w);
    var a0 := GetBits(taba, o, len, pos);
    var a1 := GetBits(taba, o, len, pos + LIMB_BITS);
    var a2: Limb := 0;
    if dpl > 2 * LIMB_BITS {
      var top := GetBits(taba, o, len, pos + 2 * LIMB_BITS);
      a2 := LowBits(top, dpl % LIMB_BITS);
      LongDigit(w, dpl, a0, a1, top);
    } else {
      MiddleDigit(w, dpl, a0, a1);
      a1 := LowBits(a1, dpl % LIMB_BITS);
    }
    JoinHighIs(a0, a1, a2);
    a := JoinHigh(a0, a1, a2);
    low := a0 % TOP_UNIT;
  }

  /** Three words from bit 63 on. */
  function JoinHigh(a0: int, a1: int, a2: int): int {
    a0 / TOP_UNIT + 2 * a1 + 2 * B * a2
  }

  lemma {:induction false} JoinHighIs(a0: Limb, a1: Limb, a2: Limb)
    ensures a0 + B * (a1 + B * a2) == JoinHigh(a0, a1, a2) * TOP_UNIT + a0 % TOP_UNIT
    ensures JoinHigh(a0, a1, a2) >= 0
  {
  }

  lemma {:induction false} WordPower()
    ensures Pow2(64) == B && Pow2(61) == MOD_MIN && Pow2(63) == TOP_UNIT
  {
    LimbIsPow2();
    PowTwoSmall();
    hide Pow2;
    Pow2Add(61, 2);
    Pow2Add(61, 1);
    Pow2Add(62, 2);
    Pow2Add(62, 1);
    Pow2Add(63, 1);
  }

  lemma {:induction false} ShortDigit(w: nat, dpl: nat, a0: Limb)
    requires 1 <= dpl <= 64 && a0 == w % B
    ensures LowBits(a0, dpl % 64) == w % Pow2(dpl)
  {
    hide Pow2;
    WordPower();
    if dpl < 64 {
      Pow2Add(dpl, 64 - dpl);
      ModMod(w, Pow2(dpl), Pow2(64 - dpl));
    }
  }

  lemma {:induction false} ModMod(w: int, p: int, q: int)
    requires p >= 1 && q >= 1
    ensures w % (p * q) % p == w % p
  {
    var n := p * q;
    MulLe(1, q, p);
    DivMod(w, n);
    DivMod(w % n, p);
    var k, r := w / n, w % n;
    assert k * (p * q) == k * q * p by {
      Assoc(k, q, p);
      assert q * p == p * q;
    }
    Distrib(k * q, r / p, p);
    DivModUnique(w, p, k * q + r / p, r % p);
  }

  lemma {:induction false} MiddleDigit(w: nat, dpl: nat, a0: Limb, a1: Limb)
    requires 64 < dpl <= 128 && a0 == w % B && a1 == w / B % B
    ensures w % Pow2(dpl) == a0 + B * LowBits(a1, dpl % 64)
    ensures dpl <= 125 ==> a0 + B * LowBits(a1, dpl % 64) < B * MOD_MIN
  {
    hide Pow2;
    WordPower();
    Pow2Add(64, dpl - 64);
    LowOfTwo(w, dpl - 64);
    ShortDigit(w / B, dpl - 64, a1);
    if dpl <= 125 {
      DivMod(w, Pow2(dpl));
      Pow2Mono(dpl - 64, 61);
      MulLe(Pow2(dpl - 64), MOD_MIN, B);
    }
  }

  lemma {:induction false} LongDigit(w: nat, dpl: nat, a0: Limb, a1: Limb, top: Limb)
    requires 128 < dpl <= 188 && a0 == w % B && a1 == w / B % B && top == w / B / B % B
    ensures w % Pow2(dpl) == a0 + B * (a1 + B * LowBits(top, dpl % 64))
  {
    hide Pow2;
    WordPower();
    Pow2Add(64, dpl - 64);
    Pow2Add(64, dpl - 128);
    LowOfTwo(w, dpl - 64);
    LowOfTwo(w / B, dpl - 128);
    ShortDigit(w / B / B, dpl - 128, top);
  }

  lemma {:induction false} LongDigitFits(c: nat, dpl: nat, a: nat, low: Limb)
    requires 125 < dpl <= 188 && c < Pow2(dpl) && c == a * TOP_UNIT + low
    ensures a < B * MOD_MIN
  {
    hide Pow2;
    WordPower();
    Pow2Mono(dpl, 188);
    Pow2Add(64, 61);
    Pow2Add(125, 63);
    if a >= B * MOD_MIN {
      MulLe(B * MOD_MIN, a, TOP_UNIT);
      assert false;
    }
  }

  /** A digit modulo one prime. */
  function Residue(a: nat, low: Limb, dpl: nat, m: Limb, mInv: Limb): (r: Limb)
    requires Modulus(m) && mInv == InitMulModFast(m) && a < B * MOD_MIN && low < TOP_UNIT
    ensures r == if dpl > 125 then (a * TOP_UNIT + low) % m else a % m
  {
    var r := ModFast(a, m, mInv);
    if dpl > 125 then
      TwoPartResidue(a, low, r, m);
      ModFast(r * TOP_UNIT + low, m, mInv)
    else r
  }

  lemma {:induction false} TwoPartResidue(a: int, low: int, r: int, m: int)
    requires Modulus(m) && 0 <= a && 0 <= low < TOP_UNIT && r == a % m
    ensures 0 <= r * TOP_UNIT + low < B * MOD_MIN
    ensures (r * TOP_UNIT + low) % m == (a * TOP_UNIT + low) % m
  {
    hide Cong;
    CongMod(a, m);
    CongSelf(TOP_UNIT, m);
    CongMul(r, a, TOP_UNIT, TOP_UNIT, m);
    CongSelf(low, m);
    CongAdd(r * TOP_UNIT, a * TOP_UNIT, low, low, m);
    SameResidue(r * TOP_UNIT + low, a * TOP_UNIT + low, m);
  }

  lemma {:induction false} SameResidue(x: int, y: int, m: int)
    requires m > 0 && Cong(x, y, m)
    ensures x % m == y % m
  {
    hide Cong;
    CongMod(x, m);
    CongMod(y, m);
    CongTrans(x % m, x, y, m);
    CongSym(y % m, y, m);
    CongTrans(x % m, y, y % m, m);
    CongUnique(x % m, y % m, m);
  }

  // ----- the conversion -----

  /** Entry i of the buffer for modulus j, when the digits before i0 and, of digit i0, the first j0 are
      converted. */
  ghost predicate ConvertedAt(t: seq<int>, v: nat, dpl: nat, fftLen: nat, fields: seq<Field>, first: nat, i0: nat,
                              j0: nat, i: nat, j: nat)
    requires first + j < |fields|
  {
    fields[first + j].m > 0 &&
    Cell(t, fftLen, j, i) == if i < i0 || (i == i0 && j < j0) then Coef(v, dpl, i) % fields[first + j].m else 0
  }

  ghost predicate Converted(t: seq<int>, v: nat, dpl: nat, fftLen: nat, fields: seq<Field>, first: nat, nb: nat,
                            i0: nat, j0: nat)
    requires first + nb <= |fields|
  {
    forall i, j :: 0 <= i < fftLen && 0 <= j < nb ==> ConvertedAt(t, v, dpl, fftLen, fields, first, i0, j0, i, j)
  }

  lemma {:induction false} ConvertStep(t: seq<Limb>, v: nat, dpl: nat, fftLen: nat, fields: seq<Field>, first: nat,
                                       nb: nat, i: nat, j: nat, r: Limb)
    requires first + nb <= |fields| && i < fftLen && j < nb && |t| == nb * fftLen
    requires Converted(t, v, dpl, fftLen, fields, first, nb, i, j)
    requires fields[first + j].m > 0 && r == Coef(v, dpl, i) % fields[first + j].m
    ensures Index(fftLen, j, i) < |t|
    ensures Converted(t[Index(fftLen, j, i) := r], v, dpl, fftLen, fields, first, nb, i, j + 1)
  {
    hide Cell, Index, Coef;
    IndexFits(fftLen, nb, j, i);
    var t', next := t[Index(fftLen, j, i) := r], j + 1;
    forall i', j' | 0 <= i' < fftLen && 0 <= j' < nb
      ensures ConvertedAt(t', v, dpl, fftLen, fields, first, i, next, i', j')
    {
      CellStore(t, fftLen, j, i, r, j', i');
      assert ConvertedAt(t, v, dpl, fftLen, fields, first, i, j, i', j');
    }
  }

  lemma {:induction false} ConvertNext(t: seq<Limb>, v: nat, dpl: nat, fftLen: nat, fields: seq<Field>, first: nat,
                                       nb: nat, i: nat)
    requires first + nb <= |fields| && Converted(t, v, dpl, fftLen, fields, first, nb, i, nb)
    ensures Converted(t, v, dpl, fftLen, fields, first, nb, i + 1, 0)
  {
    hide Cell, Coef;
    var next := i + 1;
    forall i', j' | 0 <= i' < fftLen && 0 <= j' < nb
      ensures ConvertedAt(t, v, dpl, fftLen, fields, first, next, 0, i', j')
    {
      assert ConvertedAt(t, v, dpl, fftLen, fields, first, i, nb, i', j');
    }
  }

  lemma {:induction false} ConvertStart(t: seq<Limb>, v: nat, dpl: nat, fftLen: nat, fields: seq<Field>, first: nat,
                                        nb: nat)
    requires first + nb <= |fields| && forall q :: 0 <= q < |t| ==> t[q] == 0
    requires forall j :: first <= j < first + nb ==> fields[j].m > 0
    ensures Converted(t, v, dpl, fftLen, fields, first, nb, 0, 0)
  {
    hide Coef;
  }

  /** Entry i for modulus j is digit i of v modulo that prime. */
  ghost predicate ResidueAt(t: seq<int>, v: nat, dpl: nat, fftLen: nat, fields: seq<Field>, first: nat, i: nat, j: nat)
    requires first + j < |fields|
  {
    fields[first + j].m > 0 && Cell(t, fftLen, j, i) == Coef(v, dpl, i) % fields[first + j].m
  }

  ghost predicate Residues(t: seq<int>, v: nat, dpl: nat, fftLen: nat, fields: seq<Field>, first: nat, nb: nat)
    requires first + nb <= |fields|
  {
    forall i, j :: 0 <= i < fftLen && 0 <= j < nb ==> ResidueAt(t, v, dpl, fftLen, fields, first, i, j)
  }

  /** Beyond its last digit a number has zeros only. */
  lemma {:induction false} NoDigit(v: nat, dpl: nat, n: nat, i: nat)
    requires v < Pow2(n * dpl) && n <= i
    ensures Coef(v, dpl, i) == 0
  {
    hide Pow2;
    MulLe(n, i, dpl);
    MulNonneg(i, dpl);
    MulNonneg(n, dpl);
    Pow2Mono(n * dpl, i * dpl);
    DivModUnique(v, Pow2(i * dpl), 0, v);
    DivModUnique(0, Pow2(dpl), 0, 0);
  }

  lemma {:induction false} ConvertEnd(t: seq<Limb>, v: nat, dpl: nat, fftLen: nat, fields: seq<Field>, first: nat,
                                      nb: nat, n: nat)
    requires first + nb <= |fields| && Converted(t, v, dpl, fftLen, fields, first, nb, n, 0)
    requires n >= fftLen || v < Pow2(n * dpl)
    ensures Residues(t, v, dpl, fftLen, fields, first, nb)
  {
    hide Cell, Coef, Pow2;
    forall i, j | 0 <= i < fftLen && 0 <= j < nb
      ensures ResidueAt(t, v, dpl, fftLen, fields, first, i, j)
    {
      assert ConvertedAt(t, v, dpl, fftLen, fields, first, n, 0, i, j);
      if i >= n {
        NoDigit(v, dpl, n, i);
      }
    }
  }

  /** A section of limbs has no more digits than DigitCount says. */
  lemma {:induction false} DigitsCover(s: seq<Limb>, dpl: nat)
    requires dpl >= 1
    ensures Val(s) < Pow2(DigitCount(|s|, dpl) * dpl)
  {
    hide Val, Pow, Pow2;
    ValBound(s);
    PowIsPow2(|s|);
    DigitCountCovers(|s|, dpl);
    Pow2Mono(64 * |s|, DigitCount(|s|, dpl) * dpl);
  }

  /** One digit modulo each of nb primes. */
  method ConvertDigit(s: NttState, tabr: array<Limb>, fftLen: nat, dpl: nat, first: nat, nb: nat, i: nat, a: nat,
                      low: Limb, ghost v: nat)
    requires s.Valid() && first + nb <= |s.fields| && tabr.Length == nb * fftLen && i < fftLen
    requires a < B * MOD_MIN && low < TOP_UNIT
    requires Coef(v, dpl, i) == if dpl > 125 then a * TOP_UNIT + low else a
    requires Converted(tabr[..], v, dpl, fftLen, s.fields, first, nb, i, 0)
    modifies tabr
    ensures Converted(tabr[..], v, dpl, fftLen, s.fields, first, nb, i, nb)
  {
    hide Coef, Cell, Index, Converted;
    for j := 0 to nb
      invariant Converted(tabr[..], v, dpl, fftLen, s.fields, first, nb, i, j)
    {
      var f := s.fields[first + j];
      assert f.Valid();
      var r := Residue(a, low, dpl, f.m, f.mInv);
      ghost var t := tabr[..];
      ConvertStep(t, v, dpl, fftLen, s.fields, first, nb, i, j, r);
      tabr[i + j * fftLen] := r;
      assert tabr[..] == t[Index(fftLen, j, i) := r];
    }
  }

  method Clear(tab: array<Limb>, o: nat, len: nat)
    requires o + len <= tab.Length
    modifies tab
    ensures SameOutside(old(tab[..]), tab[..], o, o + len)
    ensures forall k :: o <= k < o + len ==> tab[k] == 0
  {
    for k := 0 to len
      invariant SameOutside(old(tab[..]), tab[..], o, o + len)
      invariant forall j :: o <= j < o + k ==> tab[j] == 0
    {
      tab[o + k] := 0;
    }
  }

  /** limb_to_ntt: the digits of an operand, modulo each of nb primes. */
  method Convert(s: NttState, tabr: array<Limb>, fftLen: nat, taba: array<Limb>, o: nat, len: nat, dpl: nat, first: nat,
                 nb: nat)
    requires s.Valid() && first + nb <= |s.fields| && 1 <= dpl <= 188 && o + len <= taba.Length
    requires tabr != taba && tabr.Length == nb * fftLen
    modifies tabr
    ensures Residues(tabr[..], Val(taba[o..o + len]), dpl, fftLen, s.fields, first, nb)
  {
    hide Val, Pow2, Coef, Cell, Index, Converted, Residues;
    ghost var v := Val(taba[o..o + len]);
    var n := DigitCount(len, dpl);
    if fftLen < n {
      n := fftLen;
    }
    Clear(tabr, 0, tabr.Length);
    ConvertStart(tabr[..], v, dpl, fftLen, s.fields, first, nb);
    for i := 0 to n
      invariant Converted(tabr[..], v, dpl, fftLen, s.fields, first, nb, i, 0)
    {
      var a, low := DigitWords(taba, o, len, dpl, i);
      ConvertDigit(s, tabr, fftLen, dpl, first, nb, i, a, low, v);
      ConvertNext(tabr[..], v, dpl, fftLen, s.fields, first, nb, i);
    }
    DigitsCover(taba[o..o + len], dpl);
    ConvertEnd(tabr[..], v, dpl, fftLen, s.fields, first, nb, n);
  }
}
