/** The choice of digit size, number of moduli and length for a product by transforms. */
module FftSize {
  import opened Arith
  import opened Limbs
  import opened LimbMul
  import opened Bits
  import opened FastDivision
  import opened NttTables
  import opened NttInit

  /** The digits of dpl bits in len limbs, rounded up. */
  function DigitCount(len: nat, dpl: nat): (n: nat)
    requires dpl >= 1
  {
    DivMod(len * LIMB_BITS + dpl - 1, dpl);
    (len * LIMB_BITS + dpl - 1) / dpl
  }

  lemma {:induction false} DigitCountCovers(len: nat, dpl: nat)
    requires dpl >= 1
    ensures len * LIMB_BITS <= DigitCount(len, dpl) * dpl < len * LIMB_BITS + dpl
    ensures len >= 1 ==> DigitCount(len, dpl) >= 1
  {
    var n := DigitCount(len, dpl);
    DivMod(len * LIMB_BITS + dpl - 1, dpl);
    if len >= 1 && n == 0 {
      assert false;
    }
  }

  /** ntt_int_bits: how many bits the product of the last nbMods moduli has room for. */
  function IntBits(nbMods: nat): nat
    requires 3 <= nbMods <= NB_MODS
  {
    if nbMods == 3 then 185 else if nbMods == 4 then 246 else 307
  }

  /** What a choice must offer for a product of len limbs: digits enough for all bits of the product, a
      length within the tables, and moduli enough for every sum of products of digits. */
  ghost predicate Suitable(len: nat, dpl: nat, nbMods: nat, logN: nat) {
    && 3 <= nbMods <= NB_MODS && 1 <= dpl && dpl <= 188 && logN <= NTT_PROOT_2EXP
    && len * LIMB_BITS <= Pow2(logN) * dpl
    && logN + 2 * dpl <= IntBits(nbMods)
  }

  /** The length for digits of dpl bits. */
  function LengthLog2(len: nat, dpl: nat): nat
    requires dpl >= 1 && 1 <= len && len * LIMB_BITS + dpl <= B
  {
    DigitCountCovers(len, dpl);
    DivisionShrinks(len * LIMB_BITS + dpl - 1, dpl);
    CeilLog2(DigitCount(len, dpl))
  }

  lemma {:induction false} DivisionShrinks(a: nat, d: nat)
    requires d >= 1
    ensures 0 <= a / d <= a
  {
    ShiftedBound(a, d);
  }

  lemma {:induction false} LengthCovers(len: nat, dpl: nat)
    requires dpl >= 1 && 1 <= len && len * LIMB_BITS + dpl <= B
    ensures len * LIMB_BITS <= Pow2(LengthLog2(len, dpl)) * dpl
  {
    hide Pow2, CeilLog2;
    DigitCountCovers(len, dpl);
    DivisionShrinks(len * LIMB_BITS + dpl - 1, dpl);
    var n := DigitCount(len, dpl);
    CeilLog2Bounds(n);
    MulLe(n, Pow2(CeilLog2(n)), dpl);
  }

  /** The longest product, in bits, that the tables and the moduli allow. */
  ghost function LongestProduct(): nat {
    128 * Pow2(NTT_PROOT_2EXP)
  }

  /** It has 2^58 bits, which are 2^52 limbs. */
  lemma {:induction false} LongestProductIs()
    ensures LongestProduct() == Pow2(58) == LIMB_BITS * Pow2(52)
  {
    hide Pow2;
    PowTwoSmall();
    Pow2Add(4, 2);
    Pow2Add(6, 52);
    Pow2Add(1, 6);
    Pow2Add(7, 51);
  }

  /** No choice covers more. */
  lemma {:induction false} SuitableBound(len: nat, dpl: nat, nbMods: nat, logN: nat)
    requires Suitable(len, dpl, nbMods, logN)
    ensures len * LIMB_BITS <= LongestProduct()
  {
    hide Pow2;
    if dpl <= 128 {
      Pow2Mono(logN, 51);
      MulLe(dpl, 128, Pow2(logN));
    } else {
      Pow2Mono(logN, 49);
      MulLe(dpl, 188, Pow2(logN));
      Pow2Add(49, 2);
      PowTwoSmall();
    }
  }

  /** Digits of 128 bits or more never need a longer length than the tables have. */
  lemma {:induction false} LongDigits(len: nat, d: nat)
    requires 1 <= len && len * LIMB_BITS <= LongestProduct() && 128 <= d <= 188 && len * LIMB_BITS + d <= B
    ensures LengthLog2(len, d) <= NTT_PROOT_2EXP
  {
    hide Pow2, CeilLog2;
    DigitCountCovers(len, d);
    DivisionShrinks(len * LIMB_BITS + d - 1, d);
    var n, l := DigitCount(len, d), LengthLog2(len, d);
    CeilLog2Bounds(n);
    FewDigits(n, d, len * LIMB_BITS);
    if l > NTT_PROOT_2EXP {
      Pow2Mono(NTT_PROOT_2EXP, l - 1);
      assert false;
    }
  }

  lemma {:induction false} FewDigits(n: nat, d: nat, bits: nat)
    requires 128 <= d && n * d < bits + d && bits <= LongestProduct()
    ensures n <= Pow2(NTT_PROOT_2EXP)
  {
    hide Pow2;
    var p := Pow2(NTT_PROOT_2EXP);
    if n > p {
      MulLe(p + 1, n, d);
      Distrib(p, 1, d);
      MulLe(128, d, p);
      assert false;
    }
  }

  lemma {:induction false} SmallCost(l: nat, nb: nat)
    requires l <= NTT_PROOT_2EXP && nb <= NB_MODS
    ensures 0 <= (l + 1) * Pow2(l) * nb < B - 1 && (l + 1) * Pow2(l) * nb % B < B - 1
  {
    hide Pow2;
    Pow2Mono(l, 51);
    Pow2Mono(51, 52);
    Pow2Add(52, 12);
    LimbIsPow2();
    var p := Pow2(l);
    Twelve();
    MulLe(l + 1, 52, p);
    MulLe((l + 1) * p, 52 * p, nb);
    MulNonneg(l + 1, p);
    MulLe(nb, 5, 52 * p);
    MulNonneg((l + 1) * p, nb);
    SmallWord((l + 1) * p * nb);
  }

  lemma {:induction false} Twelve()
    ensures Pow2(12) == 4096
  {
    PowTwoSmall();
    hide Pow2;
    Pow2Add(4, 4);
    Pow2Add(8, 4);
  }

  /** bf_get_fft_size: for every number of moduli the largest digit that keeps the sums within their
      product, and among those the least cost; nothing when no length of the tables is enough, where
      the source aborts. */
  method GetFftSize(len: nat) returns (found: bool, dpl: nat, nbMods: nat, logN: nat)
    requires 1 <= len && len * LIMB_BITS + 256 <= B
    ensures found ==> Suitable(len, dpl, nbMods, logN)
    ensures found <==> len * LIMB_BITS <= LongestProduct()
  {
    hide Pow2, CeilLog2, LengthLog2, LongestProduct;
    ghost var fits := len * LIMB_BITS <= LongestProduct();
    var minCost: Limb := B - 1;
    dpl, nbMods, logN := 0, 4, 0;
    for nb := 3 to NB_MODS + 1
      invariant dpl > 0 ==> Suitable(len, dpl, nbMods, logN)
      invariant dpl == 0 ==> minCost == B - 1 && !(fits && nb > NB_MODS)
    {
      var intBits := IntBits(nb);
      var d := if (intBits - 4) / 2 < 188 then (intBits - 4) / 2 else 188;
      while d > 0
        invariant d <= 188
        invariant dpl > 0 ==> Suitable(len, dpl, nbMods, logN)
        invariant dpl == 0 ==> minCost == B - 1 && (fits && nb == NB_MODS ==> d >= 128)
        decreases d
      {
        if fits && d >= 128 {
          LongDigits(len, d);
        }
        var l := LengthLog2(len, d);
        if l > NTT_PROOT_2EXP {
          break;
        }
        if l + 2 * d <= intBits {
          LengthCovers(len, d);
          SmallCost(l, nb);
          var cost := (l + 1) * Pow2(l) * nb % B;
          if cost < minCost {
            minCost := cost;
            dpl, nbMods, logN := d, nb, l;
          }
          break;
        }
        d := d - 1;
      }
    }
    if dpl == 0 {
      return false, 0, 0, 0;
    }
    if dpl > 125 && (125 * Pow2(logN)) % B >= len * LIMB_BITS {
      LimitedDigits(len, dpl, nbMods, logN);
      dpl := 125;
    }
    SuitableBound(len, dpl, nbMods, logN);
    found := true;
  }

  lemma {:induction false} LimitedDigits(len: nat, dpl: nat, nbMods: nat, logN: nat)
    requires Suitable(len, dpl, nbMods, logN) && dpl > 125 && (125 * Pow2(logN)) % B >= len * LIMB_BITS
    ensures Suitable(len, 125, nbMods, logN)
  {
    hide Pow2;
    WrapAtMost(125 * Pow2(logN));
  }

  lemma {:induction false} WrapAtMost(x: nat)
    ensures x % B <= x
  {
  }
}
