/** Division by multiplication: by an invariant one-word divisor, and of a double word by the
    decimal base. */
module FastDivision {
  import opened Arith
  import opened Limbs
  import opened LimbMul
  import opened Bits

  // ----- division by an invariant word -----

  /** Multiplier and shift counts prepared for one divisor. */
  datatype FastDivData = FastDivData(m1: Limb, shift1: nat, shift2: nat)

  /** The least l with d <= 2^l. */
  function CeilLog2(d: Limb): nat
    requires d != 0
  {
    if d == 1 then 0 else BitLen(d - 1)
  }

  function FastUdivInit(d: Limb): FastDivData
    requires d != 0
  {
    var l := CeilLog2(d);
    var high: Limb := (Pow2(l) - d) % B;
    var q: Limb := (high * B / d) % B;
    FastDivData((q + 1) % B, if l > 1 then 1 else l, if l - 1 < 0 then 0 else l - 1)
  }

  function FastUdiv(a: Limb, s: FastDivData): Limb
  {
    var t1: Limb := HighWord(s.m1, a);
    var t0: Limb := Shifted((a - t1) % B, s.shift1);
    Shifted((t1 + t0) % B, s.shift2)
  }

  function HighWord(x: Limb, y: Limb): (h: Limb)
  {
    MulLe(y, B - 1, x);
    MulLe(x, B - 1, B - 1);
    MulNonneg(x, y);
    x * y / B
  }

  /** x >> k. */
  function Shifted(x: Limb, k: nat): (r: Limb)
  {
    ShiftedBound(x, Pow2(k));
    x / Pow2(k)
  }

  lemma {:induction false} ShiftedBound(x: int, p: int)
    requires 0 <= x && p >= 1
    ensures 0 <= x / p <= x
  {
    DivMod(x, p);
    MulLe(1, p, x / p);
  }

  lemma {:induction false} CeilLog2Bounds(d: Limb)
    requires d != 0
    ensures var l := CeilLog2(d); d <= Pow2(l) && Pow2(l) < 2 * d && (l == 0 <==> d == 1)
    ensures CeilLog2(d) >= 1 ==> Pow2(CeilLog2(d)) == 2 * Pow2(CeilLog2(d) - 1)
  {
    if d > 1 {
      BitLenBounds(d - 1);
    }
  }

  lemma {:induction false} SmallWord(x: int)
    requires 0 <= x < B
    ensures x % B == x
  {
  }

  /** The prepared multiplier with its implicit leading one: the reciprocal of d, rounded up. */
  lemma {:induction false} Multiplier(d: int, p: int, m1: int)
    requires 0 < d <= p < 2 * d && d < B
    requires m1 == (((p - d) % B) * B / d % B + 1) % B
    ensures B * p < (B + m1) * d <= B * p + d
  {
    var n := p - d;
    var q := n * B / d;
    SmallWord(n);
    MulNonneg(n, B);
    DivMod(n * B, d);
    MultiplierFits(d, n, q);
    SmallWord(q);
    SmallWord(q + 1);
    MultiplierBounds(d, p, q, n * B);
  }

  lemma {:induction false} MultiplierBounds(d: int, p: int, q: int, nb: int)
    requires nb == (p - d) * B && q * d <= nb < q * d + d
    ensures B * p < (B + (q + 1)) * d <= B * p + d
  {
    Distrib(p, d, B);
    Distrib(q, 1, d);
    Distrib(B, q + 1, d);
  }

  lemma {:induction false} MultiplierFits(d: int, n: int, q: int)
    requires 0 <= n < d < B && q * d <= n * B && 0 <= q
    ensures q + 1 < B
  {
    if q >= B - 1 {
      MulLe(B - 1, q, d);
      MulLe(n, d - 1, B);
      Distrib(B, 1, d);
      Distrib(d, 1, B);
      assert false;
    }
  }

  /** The product with the rounded-up reciprocal has the exact quotient in its high part. */
  lemma {:induction false} ExactQuotient(a: int, d: int, p: int, m: int)
    requires 0 <= a < B && 0 < d <= p
    requires B * p < m * d <= B * p + d
    ensures m * a / (B * p) == a / d
  {
    var bp, e := B * p, m * d - B * p;
    var q, r := a / d, a % d;
    DivMod(a, d);
    MulLe(1, p, B);
    MulNonneg(a, e);
    MulLe(e, p, a);
    MulLt(a, B, p);
    // d * (m * a) lies between a * bp and (a + 1) * bp
    assert d * (m * a) == a * bp + a * e by {
      Assoc(m, d, a);
      Assoc(m, a, d);
      Distrib(bp, e, a);
    }
    assert d * (q * bp) == a * bp - r * bp by {
      Assoc(q, d, bp);
      Distrib(q * d, r, bp);
      Assoc(d, q, bp);
    }
    var rest := m * a - q * bp;
    assert d * rest == r * bp + a * e by {
      Distrib(m * a, q * bp, d);
    }
    MulNonneg(r, bp);
    MulLe(r, d - 1, bp);
    Distrib(d, 1, bp);
    if rest < 0 {
      MulLe(rest, -1, d);
      assert false;
    }
    if rest >= bp {
      MulLe(bp, rest, d);
      assert false;
    }
    DivModUnique(m * a, bp, q, rest);
  }

  lemma {:induction false} DivTwice(x: int, b: int, c: int)
    requires 0 <= x && b >= 1 && c >= 1
    ensures x / (b * c) == x / b / c
  {
    var q, r := x / b, x % b;
    DivMod(x, b);
    DivMod(q, c);
    var u, v := q / c, q % c;
    Distrib(u * c, v, b);
    Assoc(u, c, b);
    MulLe(1, c, b);
    MulLe(v + 1, c, b);
    MulNonneg(v, b);
    Distrib(v, 1, b);
    DivModUnique(x, b * c, u, v * b + r);
  }

  /** The high word of the product with the whole multiplier. */
  lemma {:induction false} AddHigh(m1: int, a: int)
    ensures (B + m1) * a / B == a + m1 * a / B
  {
    Distrib(B, m1, a);
    DivMod(m1 * a, B);
    DivModUnique((B + m1) * a, B, a + m1 * a / B, m1 * a % B);
  }

  lemma {:induction false} HighAtMost(m1: Limb, a: Limb)
    ensures 0 <= m1 * a / B <= a
  {
    MulNonneg(m1, a);
    MulLe(m1, B, a);
    DivMod(m1 * a, B);
    CancelLe(m1 * a / B, a, B);
  }

  lemma {:induction false} HighWordIs(x: Limb, y: Limb)
    ensures HighWord(x, y) == x * y / B <= y
  {
    HighAtMost(x, y);
  }

  /** Rounded halves add up: no carry is lost when the high word is added in. */
  lemma {:induction false} FastUdivValue(a: Limb, m1: Limb, k: nat)
    ensures FastUdiv(a, FastDivData(m1, 1, k)) == (a + m1 * a / B) / 2 / Pow2(k)
  {
    hide Pow2, HighWord;
    HighWordIs(m1, a);
    HalfShift();
    var t1 := HighWord(m1, a);
    SmallWord(a - t1);
    SmallWord(t1 + (a - t1) / 2);
  }

  /** Data whose multiplier is the rounded-up reciprocal divide exactly. */
  lemma {:induction false} DataExact(a: Limb, d: Limb, m1: Limb, k: nat)
    requires d != 0 && d <= 2 * Pow2(k)
    requires B * (2 * Pow2(k)) < (B + m1) * d <= B * (2 * Pow2(k)) + d
    ensures FastUdiv(a, FastDivData(m1, 1, k)) == a / d
  {
    hide Pow2, FastUdiv;
    FastUdivValue(a, m1, k);
    QuotientChain(a, d, m1, Pow2(k));
  }

  lemma {:induction false} QuotientChain(a: Limb, d: Limb, m1: Limb, c: nat)
    requires d != 0 && c >= 1 && d <= 2 * c && B * (2 * c) < (B + m1) * d <= B * (2 * c) + d
    ensures (a + m1 * a / B) / 2 / c == a / d
  {
    var m := B + m1;
    ExactQuotient(a, d, 2 * c, m);
    MulNonneg(m, a);
    DivTwice(m * a, B, 2 * c);
    AddHigh(m1, a);
    HighAtMost(m1, a);
    DivTwice(a + m1 * a / B, 2, c);
  }

  /** For every word and every divisor the prepared multiplication gives the quotient. */
  lemma {:induction false} FastUdivExact(a: Limb, d: Limb)
    requires d != 0
    ensures FastUdiv(a, FastUdivInit(d)) == a / d
  {
    hide Pow2, BitLen, FastUdiv;
    var l := CeilLog2(d);
    CeilLog2Bounds(d);
    if l == 0 {
      DivideByOne(a);
    } else {
      var m1 := FastUdivInit(d).m1;
      Multiplier(d, Pow2(l), m1);
      DataExact(a, d, m1, l - 1);
    }
  }

  lemma {:induction false} DivideByOne(a: Limb)
    ensures FastUdivInit(1) == FastDivData(1, 0, 0) && FastUdiv(a, FastUdivInit(1)) == a
  {
    assert FastUdivInit(1) == FastDivData(1, 0, 0);
  }

  lemma {:induction false} HalfShift()
    ensures Pow2(1) == 2
  {
  }

  // ----- the table for powers of ten -----

  const LIMB_DIGITS := 19

  const POW_DEC: seq<Limb> := [
    1, 10, 100, 1000, 10000, 100000, 1000000, 10000000, 100000000, 1000000000, 10000000000,
    100000000000, 1000000000000, 10000000000000, 100000000000000, 1000000000000000,
    10000000000000000, 100000000000000000, 1000000000000000000, 10000000000000000000]

  lemma {:induction false} TenTimes(i: nat)
    requires i < LIMB_DIGITS
    ensures POW_DEC[i + 1] == 10 * POW_DEC[i] && POW_DEC[0] == 1
  {
  }

  /** The table holds the powers of ten. */
  lemma {:induction false} DecimalPowers(i: nat)
    requires i <= LIMB_DIGITS
    ensures POW_DEC[i] == Power(10, i)
  {
    TenTimes(0);
    if i > 0 {
      DecimalPowers(i - 1);
      TenTimes(i - 1);
    }
  }

  const POW_DIV: seq<FastDivData> := [
    FastDivData(0x0000000000000001, 0, 0),
    FastDivData(0x999999999999999a, 1, 3),
    FastDivData(0x47ae147ae147ae15, 1, 6),
    FastDivData(0x0624dd2f1a9fbe77, 1, 9),
    FastDivData(0xa36e2eb1c432ca58, 1, 13),
    FastDivData(0x4f8b588e368f0847, 1, 16),
    FastDivData(0x0c6f7a0b5ed8d36c, 1, 19),
    FastDivData(0xad7f29abcaf48579, 1, 23),
    FastDivData(0x5798ee2308c39dfa, 1, 26),
    FastDivData(0x12e0be826d694b2f, 1, 29),
    FastDivData(0xb7cdfd9d7bdbab7e, 1, 33),
    FastDivData(0x5fd7fe17964955fe, 1, 36),
    FastDivData(0x19799812dea11198, 1, 39),
    FastDivData(0xc25c268497681c27, 1, 43),
    FastDivData(0x6849b86a12b9b01f, 1, 46),
    FastDivData(0x203af9ee756159b3, 1, 49),
    FastDivData(0xcd2b297d889bc2b7, 1, 53),
    FastDivData(0x70ef54646d496893, 1, 56),
    FastDivData(0x2725dd1d243aba0f, 1, 59),
    FastDivData(0xd83c94fb6d2ac34d, 1, 63)]

  /** An entry is right when its shift is the length of d - 1 and its multiplier the quotient plus one. */
  lemma {:induction false} EntryIs(d: Limb, l: nat, q: nat)
    requires d > 1 && l > 0 && Pow2(l - 1) <= d - 1 < Pow2(l)
    requires q * d <= (Pow2(l) - d) * B < q * d + d && q + 1 < B
    ensures FastUdivInit(d) == FastDivData(q + 1, 1, l - 1)
  {
    hide Pow2, BitLen;
    BitLenIs(d - 1, l);
    CeilLog2Bounds(d);
    SmallWord(Pow2(l) - d);
    DivModUnique((Pow2(l) - d) * B, d, q, (Pow2(l) - d) * B - q * d);
    SmallWord(q);
    SmallWord(q + 1);
  }

  lemma {:induction false} TableEntry(i: nat, d: Limb, l: nat, half: nat, q: nat)
    requires i < |POW_DEC| == |POW_DIV| && d == POW_DEC[i] && d > 1 && l > 0
    requires half == Pow2(l - 1) && half < d <= 2 * half
    requires q * d <= (2 * half - d) * B < q * d + d && POW_DIV[i] == FastDivData(q + 1, 1, l - 1) && q + 1 < B
    ensures POW_DIV[i] == FastUdivInit(POW_DEC[i])
  {
    EntryIs(d, l, q);
  }

  /** The powers of two at the shift counts of the table. */
  lemma {:induction false} ShiftPowers()
    ensures Pow2(3) == 0x8 && Pow2(6) == 0x40 && Pow2(9) == 0x200
    ensures Pow2(13) == 0x2000 && Pow2(16) == 0x10000 && Pow2(19) == 0x80000
    ensures Pow2(23) == 0x800000 && Pow2(26) == 0x4000000 && Pow2(29) == 0x20000000
    ensures Pow2(33) == 0x200000000 && Pow2(36) == 0x1000000000 && Pow2(39) == 0x8000000000
    ensures Pow2(43) == 0x80000000000 && Pow2(46) == 0x400000000000 && Pow2(49) == 0x2000000000000
    ensures Pow2(53) == 0x20000000000000 && Pow2(56) == 0x100000000000000 && Pow2(59) == 0x800000000000000
  {
    SmallPowers();
    hide Pow2;
    Pow2Add(3, 3);
    Pow2Add(6, 3);
    Pow2Add(9, 4);
    Pow2Add(13, 3);
    Pow2Add(16, 3);
    Pow2Add(19, 4);
    Pow2Add(23, 3);
    Pow2Add(26, 3);
    Pow2Add(29, 4);
    Pow2Add(33, 3);
    Pow2Add(36, 3);
    Pow2Add(39, 4);
    Pow2Add(43, 3);
    Pow2Add(46, 3);
    Pow2Add(49, 4);
    Pow2Add(53, 3);
    Pow2Add(56, 3);
  }

  lemma {:induction false} SmallPowers()
    ensures Pow2(3) == 8 && Pow2(4) == 16 && Pow2(63) == HALF_B
  {
    LimbIsPow2();
  }

  lemma {:induction false} TableTo7(i: nat)
    requires 1 <= i < 7
    ensures POW_DIV[i] == FastUdivInit(POW_DEC[i])
  {
    hide Pow2, FastUdivInit;
    ShiftPowers();
    TableEntry(1, 10, 4, 0x8, 0x9999999999999999);
    TableEntry(2, 100, 7, 0x40, 0x47ae147ae147ae14);
    TableEntry(3, 1000, 10, 0x200, 0x624dd2f1a9fbe76);
    TableEntry(4, 10000, 14, 0x2000, 0xa36e2eb1c432ca57);
    TableEntry(5, 100000, 17, 0x10000, 0x4f8b588e368f0846);
    TableEntry(6, 1000000, 20, 0x80000, 0xc6f7a0b5ed8d36b);
  }

  lemma {:induction false} TableTo13(i: nat)
    requires 7 <= i < 13
    ensures POW_DIV[i] == FastUdivInit(POW_DEC[i])
  {
    hide Pow2, FastUdivInit;
    ShiftPowers();
    TableEntry(7, 10000000, 24, 0x800000, 0xad7f29abcaf48578);
    TableEntry(8, 100000000, 27, 0x4000000, 0x5798ee2308c39df9);
    TableEntry(9, 1000000000, 30, 0x20000000, 0x12e0be826d694b2e);
    TableEntry(10, 10000000000, 34, 0x200000000, 0xb7cdfd9d7bdbab7d);
    TableEntry(11, 100000000000, 37, 0x1000000000, 0x5fd7fe17964955fd);
    TableEntry(12, 1000000000000, 40, 0x8000000000, 0x19799812dea11197);
  }

  lemma {:induction false} TableTo19(i: nat)
    requires 13 <= i < 19
    ensures POW_DIV[i] == FastUdivInit(POW_DEC[i])
  {
    hide Pow2, FastUdivInit;
    ShiftPowers();
    TableEntry(13, 10000000000000, 44, 0x80000000000, 0xc25c268497681c26);
    TableEntry(14, 100000000000000, 47, 0x400000000000, 0x6849b86a12b9b01e);
    TableEntry(15, 1000000000000000, 50, 0x2000000000000, 0x203af9ee756159b2);
    TableEntry(16, 10000000000000000, 54, 0x20000000000000, 0xcd2b297d889bc2b6);
    TableEntry(17, 100000000000000000, 57, 0x100000000000000, 0x70ef54646d496892);
    TableEntry(18, 1000000000000000000, 60, 0x800000000000000, 0x2725dd1d243aba0e);
  }

  /** Every entry of the table but the last is what the preparation computes for that power of ten. */
  lemma {:induction false} TableRight(i: nat)
    requires i < LIMB_DIGITS
    ensures 0 < Power(10, i) < B && POW_DIV[i] == FastUdivInit(Power(10, i))
  {
    hide FastUdivInit;
    DecimalPowers(i);
    NonzeroPower(i);
    if i == 0 {
      DivideByOne(0);
    } else if i < 7 {
      TableTo7(i);
    } else if i < 13 {
      TableTo13(i);
    } else {
      TableTo19(i);
    }
  }

  /** The last entry has a multiplier two too large: it stems from a shift by the whole width of a
      word that came out as 1 << 0. */
  lemma {:induction false} TableLastDiffers()
    ensures POW_DIV[LIMB_DIGITS] != FastUdivInit(POW_DEC[LIMB_DIGITS])
    ensures FastUdivInit(POW_DEC[LIMB_DIGITS]) == FastDivData(POW_DIV[LIMB_DIGITS].m1 - 2, 1, 63)
    ensures POW_DIV[LIMB_DIGITS].m1 == (1 - POW_DEC[LIMB_DIGITS]) % B * B / POW_DEC[LIMB_DIGITS] + 1
  {
    SmallPowers();
    LimbIsPow2();
    hide Pow2, FastUdivInit;
    EntryIs(10000000000000000000, 64, 0xd83c94fb6d2ac34a);
  }

  /** It divides every word exactly all the same. */
  lemma {:induction false} LastEntryExact(a: Limb)
    ensures FastUdiv(a, POW_DIV[LIMB_DIGITS]) == a / POW_DEC[LIMB_DIGITS]
  {
    SmallPowers();
    hide Pow2, FastUdiv;
    FastUdivValue(a, 0xd83c94fb6d2ac34d, 63);
  }

  function FastShrDec(a: Limb, shift: nat): Limb
    requires shift <= LIMB_DIGITS
  {
    FastUdiv(a, POW_DIV[shift])
  }

  lemma {:induction false} NonzeroPower(i: nat)
    requires i <= LIMB_DIGITS
    ensures POW_DEC[i] > 0
  {
  }

  /** Dropping decimal digits through the table is exact for every word. */
  lemma {:induction false} FastShrDecExact(a: Limb, shift: nat)
    requires shift <= LIMB_DIGITS
    ensures Power(10, shift) > 0 && FastShrDec(a, shift) == a / Power(10, shift)
  {
    hide FastUdiv, FastUdivInit;
    DecimalPowers(shift);
    NonzeroPower(shift);
    if shift < LIMB_DIGITS {
      TableRight(shift);
      FastUdivExact(a, POW_DEC[shift]);
    } else {
      LastEntryExact(a);
    }
  }

  // ----- a double word by the decimal base -----

  const DEC_BASE: nat := 10000000000000000000

  /** floor(2^127 / DEC_BASE). */
  const DEC_RECIP: nat := 17014118346046923173

  /** The decimal base is the largest power of ten in a word, and DEC_RECIP its reciprocal. */
  lemma {:induction false} DecimalBase()
    ensures DEC_BASE == Power(10, LIMB_DIGITS) < B <= Power(10, LIMB_DIGITS + 1)
    ensures DEC_RECIP * DEC_BASE <= HALF_B * B < (DEC_RECIP + 1) * DEC_BASE
  {
    DecimalPowers(LIMB_DIGITS);
  }

  /** x >> 1 on a word read as a signed number. */
  function Sar1(x: Limb): (r: Limb)
  {
    if x >= HALF_B then HALF_B + x / 2 else x / 2
  }

  predicate IsMask(w: int) {
    w == 0 || w == B - 1
  }

  /** d & w for a word w that is all zeros or all ones. */
  function Masked(d: Limb, w: Limb): (r: Limb)
    requires IsMask(w)
  {
    if w == 0 then 0 else d
  }

  /** Both masks that Correct takes from the double word a are all zeros or all ones. */
  predicate Correctable(d: Limb, a: int) {
    0 <= a < BB && IsMask(Sar1(a / B)) && IsMask((a + Masked(d, Sar1(a / B))) % BB / B)
  }

  /** From an estimate q and a remainder a for a quotient two larger, as a double word: two
      additions of the divisor masked with the sign; the masks also correct the quotient. */
  function Correct(q: Limb, d: Limb, a: int): (r: (Limb, Limb))
    requires Correctable(d, a)
  {
    var s := Sar1(a / B);
    var a' := (a + Masked(d, s)) % BB;
    var h := a' / B;
    (((q + 2 + s) % B + h) % B, (a' % B + Masked(d, h)) % B)
  }

  /** The sign of a small number, from the high word of its double-word form. */
  lemma {:induction false} SignOf(x: int)
    requires -2 * B <= x < B
    ensures Sar1(x % BB / B) == (if x < 0 then B - 1 else 0)
    ensures x >= -(B as int) ==>
              x % BB / B == (if x < 0 then B - 1 else 0) && (x % BB) % B == (if x < 0 then x + B else x)
  {
    if x < -(B as int) {
      DivModUnique(x, BB, -1, x + BB);
      DivModUnique(x + BB, B, B - 2, x + 2 * B);
    } else if x < 0 {
      DivModUnique(x, BB, -1, x + BB);
      DivModUnique(x + BB, B, B - 1, x + B);
    } else {
      DivModUnique(x, BB, 0, x);
      DivModUnique(x, B, 0, x);
    }
  }

  lemma {:induction false} WrapAdd(x: int, y: int)
    ensures (x % BB + y) % BB == (x + y) % BB
    ensures (x % BB - y) % BB == (x - y) % BB
  {
  }

  /** The value of the correction, once its masks are known. */
  lemma {:induction false} CorrectIs(q: Limb, d: Limb, a: int, s: Limb, a': int, h: Limb)
    requires 0 <= a < BB && s == Sar1(a / B) && IsMask(s) && a' == (a + Masked(d, s)) % BB && h == a' / B && IsMask(h)
    ensures Correctable(d, a) && Correct(q, d, a) == (((q + 2 + s) % B + h) % B, (a' % B + Masked(d, h)) % B)
  {
  }

  lemma {:induction false} LowWord(e: int, d: Limb, h: Limb, low: int)
    requires -(d as int) <= e < d && h == (if e < 0 then B - 1 else 0) && low == (if e < 0 then e + B else e)
    ensures (low + Masked(d, h)) % B == if e < 0 then e + d else e
  {
    if e < 0 {
      DivModUnique(e + B + d, B, 1, e + d);
    }
  }

  /** The quotient and remainder that the sign of the remainder for q + 2 points to. */
  lemma {:induction false} ThreeCandidates(n: int, q: int, d: int, delta: int, e: int)
    requires d > 0 && delta == n - (q + 2) * d && -2 * d <= delta < d && e == if delta < 0 then delta + d else delta
    ensures n / d == q + 2 + (if delta < 0 then -1 else 0) + (if e < 0 then -1 else 0)
    ensures n % d == if e < 0 then e + d else e
  {
    Distrib(q, 2, d);
    Distrib(q + 1, 1, d);
    DivModUnique(n, d, q + 2 + (if delta < 0 then -1 else 0) + (if e < 0 then -1 else 0), if e < 0 then e + d else e);
  }

  /** An estimate at most two too small is corrected to the exact quotient and remainder. */
  lemma {:induction false} CorrectTwice(n: int, q: Limb, d: Limb, delta: int)
    requires d > 0 && delta == n - (q + 2) * d && -2 * d <= delta < d && 0 <= n / d < B
    ensures Correctable(d, delta % BB) && Correct(q, d, delta % BB) == (n / d, n % d)
  {
    hide Sar1, Correct, Correctable, Masked;
    var a := delta % BB;
    SignOf(delta);
    var s := Sar1(a / B);
    var e := if delta < 0 then delta + d else delta;
    MaskIs(d, s);
    WrapAdd(delta, Masked(d, s));
    SignOf(e);
    var a' := (a + Masked(d, s)) % BB;
    CorrectIs(q, d, a, s, a', a' / B);
    LowWord(e, d, a' / B, a' % B);
    ThreeCandidates(n, q, d, delta, e);
    QuotientWord(q, s, a' / B, n / d);
  }

  lemma {:induction false} MaskIs(d: Limb, w: Limb)
    requires IsMask(w)
    ensures Masked(d, w) == if w == 0 then 0 else d
  {
  }

  /** The quotient word after both masks were added to it. */
  lemma {:induction false} QuotientWord(q: int, s: int, h: int, v: int)
    requires IsMask(s) && IsMask(h) && 0 <= v < B
    requires q + 2 + (if s == 0 then 0 else -1) + (if h == 0 then 0 else -1) == v
    ensures ((q + 2 + s) % B + h) % B == v
  {
  }

  /** Quotient and remainder of a1*B + a0 by the decimal base, every intermediate word wrapping. */
  function DivdqBase(a1: Limb, a0: Limb): (r: (Limb, Limb))
    requires a1 < HALF_B
    ensures r.0 == (a1 * B + a0) / DEC_BASE && r.1 == (a1 * B + a0) % DEC_BASE
  {
    var n: int := a1 * B + a0;
    var t0: Limb := (a1 * 2 + a0 / HALF_B) % B;
    var q := HighWord(t0, DEC_RECIP);
    var two: Limb := (DEC_BASE * 2) % B;
    var a := ((n - q * DEC_BASE) % BB - (B + two)) % BB;
    DecCorrected(a1, a0, n, t0, q);
    Correct(q, DEC_BASE, a)
  }

  lemma {:induction false} DecCorrected(a1: Limb, a0: Limb, n: int, t0: Limb, q: Limb)
    requires a1 < HALF_B && n == a1 * B + a0
    requires t0 == (a1 * 2 + a0 / HALF_B) % B && q == HighWord(t0, DEC_RECIP)
    ensures var a := ((n - q * DEC_BASE) % BB - (B + (DEC_BASE * 2) % B)) % BB;
            Correctable(DEC_BASE, a) && Correct(q, DEC_BASE, a) == (n / DEC_BASE, n % DEC_BASE)
  {
    hide HighWord, Sar1, Correct, Correctable;
    HighWordIs(t0, DEC_RECIP);
    DecEstimate(a1, a0, n, t0, q);
    TwiceBase();
    WrapAdd(n - q * DEC_BASE, 2 * DEC_BASE);
    CorrectTwice(n, q, DEC_BASE, n - (q + 2) * DEC_BASE);
  }

  lemma {:induction false} TwiceBase()
    ensures B + (DEC_BASE * 2) % B == 2 * DEC_BASE
  {
  }

  /** The first estimate is at most the quotient and at least two less. */
  lemma {:induction false} DecEstimate(a1: int, a0: int, n: int, t0: int, q: int)
    requires 0 <= a1 < HALF_B && 0 <= a0 < B && n == a1 * B + a0
    requires t0 == (a1 * 2 + a0 / HALF_B) % B && q == t0 * DEC_RECIP / B
    ensures -2 * DEC_BASE <= n - (q + 2) * DEC_BASE < DEC_BASE
    ensures 0 <= n / DEC_BASE < B
  {
    var low, rem := a0 % HALF_B, t0 * DEC_RECIP % B;
    assert n == t0 * HALF_B + low;
    assert q * B + rem == t0 * DEC_RECIP;
  }
}
