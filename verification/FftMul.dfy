/** Products of long operands by number theoretic transforms: digits modulo several primes, one cyclic
    convolution for each, and back to limbs. */
module FftMultiply {
  import opened Arith
  import opened Limbs
  import opened LimbMul
  import opened LimbOps
  import opened Bits
  import opened ModWords
  import opened PolySums
  import opened NttTables
  import opened NttInit
  import opened NttStage
  import opened NttTransform
  import opened NttSplit
  import opened NttColumns
  import opened NttConv
  import opened FftSize
  import opened LimbToNtt
  import opened MixedRadix
  import opened NttToLimb
  import opened FftProduct

  /** The tables are those of the five moduli. */
  ghost predicate Tables(s: NttState, cr: seq<Prepared>)
    reads s
  {
    s.Valid() && |s.fields| == NB_MODS && PairTable(cr) && forall j :: 0 <= j < NB_MODS ==> s.fields[j].m == NTT_MODS[j]
  }

  // ----- segments of a buffer -----

  lemma {:induction false} SegmentEnd(n: nat, nb: nat, j: nat)
    requires j < nb
    ensures Index(n, j, 0) + n <= nb * n
  {
    Distrib(j, 1, n);
    MulLe(j + 1, nb, n);
  }

  lemma {:induction false} ResidueSegment(t: seq<Limb>, v: nat, dpl: nat, n: nat, fields: seq<Field>, first: nat,
                                          nb: nat, j: nat)
    requires first + nb <= |fields| && |t| == nb * n && j < nb && n > 0 && Residues(t, v, dpl, n, fields, first, nb)
    ensures Index(n, j, 0) + n <= |t| && ResidueRow(Segment(t, n, j), v, dpl, fields[first + j].m)
  {
    hide Coef, Cell;
    SegmentEnd(n, nb, j);
    assert ResidueAt(t, v, dpl, n, fields, first, 0, j);
    forall i | 0 <= i < n
      ensures Segment(t, n, j)[i] == Coef(v, dpl, i) % fields[first + j].m
    {
      assert ResidueAt(t, v, dpl, n, fields, first, i, j);
      CellIs(t, n, nb, j, i);
    }
  }

  lemma {:induction false} ResidueBelow(x: seq<Limb>, v: nat, dpl: nat, m: int)
    requires ResidueRow(x, v, dpl, m)
    ensures Below(x, 2 * m)
  {
    hide Coef;
    forall i | 0 <= i < |x|
      ensures x[i] < 2 * m
    {
      DivMod(Coef(v, dpl, i), m);
    }
  }

  /** Segment j when the convolutions before j0 are done. */
  ghost predicate PartAt(t: seq<Limb>, va: nat, vs: seq<nat>, dpl: nat, n: nat, first: nat, j0: nat, j: nat)
    requires first + j < NB_MODS
  {
    && Index(n, j, 0) + n <= |t|
    && (if j < j0 then SumRow(Segment(t, n, j), vs, NTT_MODS[first + j])
        else ResidueRow(Segment(t, n, j), va, dpl, NTT_MODS[first + j]))
  }

  ghost predicate Parts(t: seq<Limb>, va: nat, vs: seq<nat>, dpl: nat, n: nat, first: nat, j0: nat)
    requires first <= NB_MODS
  {
    |t| == (NB_MODS - first) * n && forall j :: 0 <= j < NB_MODS - first ==> PartAt(t, va, vs, dpl, n, first, j0, j)
  }

  lemma {:induction false} PartsStart(t: seq<Limb>, va: nat, vs: seq<nat>, dpl: nat, n: nat, fields: seq<Field>,
                                      first: nat)
    requires first <= NB_MODS == |fields| && |t| == (NB_MODS - first) * n && n > 0
    requires forall j :: 0 <= j < NB_MODS ==> fields[j].m == NTT_MODS[j]
    requires Residues(t, va, dpl, n, fields, first, NB_MODS - first)
    ensures Parts(t, va, vs, dpl, n, first, 0)
  {
    hide Residues, ResidueRow, SumRow;
    forall j | 0 <= j < NB_MODS - first
      ensures PartAt(t, va, vs, dpl, n, first, 0, j)
    {
      ResidueSegment(t, va, dpl, n, fields, first, NB_MODS - first, j);
    }
  }

  lemma {:induction false} PartsStep(t: seq<Limb>, t': seq<Limb>, va: nat, vs: seq<nat>, dpl: nat, n: nat, first: nat,
                                     j: nat)
    requires first + j < NB_MODS && Parts(t, va, vs, dpl, n, first, j) && Index(n, j, 0) + n <= |t'|
    requires SameOutside(t, t', Index(n, j, 0), Index(n, j, 0) + n)
    requires SumRow(Segment(t', n, j), vs, NTT_MODS[first + j])
    ensures Parts(t', va, vs, dpl, n, first, j + 1)
  {
    hide ResidueRow, SumRow;
    var next := j + 1;
    forall k | 0 <= k < NB_MODS - first
      ensures PartAt(t', va, vs, dpl, n, first, next, k)
    {
      assert PartAt(t, va, vs, dpl, n, first, j, k);
      if k != j {
        ApartSegments(n, j, k);
        SameSlice(t, t', Index(n, j, 0), Index(n, j, 0) + n, Index(n, k, 0), Index(n, k, 0) + n);
      }
    }
  }

  /** All convolutions done: the sums modulo all primes. */
  lemma {:induction false} PartsEnd(t: seq<Limb>, va: nat, vs: seq<nat>, dpl: nat, n: nat, first: nat)
    requires first <= NB_MODS && |vs| == n && Parts(t, va, vs, dpl, n, first, NB_MODS - first)
    requires forall i :: 0 <= i < n ==> vs[i] < Product(Mods(first))
    ensures Sums(t, vs, n, first)
  {
    hide Cong, Cell, Product, Mods;
    forall i, j | 0 <= i < n && 0 <= j < NB_MODS - first
      ensures SumAt(t, vs[i], n, first, i, j)
    {
      assert PartAt(t, va, vs, dpl, n, first, NB_MODS - first, j);
      CellIs(t, n, NB_MODS - first, j, i);
      assert Segment(t, n, j)[i] == t[Index(n, j, i)];
    }
  }

  // ----- one modulus -----

  /** The convolution modulo one prime. */
  method OneModulus(s: NttState, buf1: array<Limb>, buf2: array<Limb>, ptr: nat, n: nat, logN: nat, first: nat, j: nat,
                    cr: seq<Prepared>, dpl: nat, ghost va: nat, ghost vb: nat)
    requires Tables(s, cr) && first + j < NB_MODS && 1 <= logN <= NTT_PROOT_2EXP && n == Pow2(logN)
    requires buf1 != buf2 && ptr + n <= buf2.Length
    requires Parts(buf1[..], va, SumsOf(va, vb, dpl, n), dpl, n, first, j)
    requires ResidueRow(buf2[ptr..ptr + n], vb, dpl, NTT_MODS[first + j])
    modifies s, buf1, buf2
    ensures Tables(s, cr)
    ensures Parts(buf1[..], va, SumsOf(va, vb, dpl, n), dpl, n, first, j + 1)
    ensures SameOutside(old(buf2[..]), buf2[..], ptr, ptr + n)
  {
    ghost var f, m, vs := s.fields[first + j], NTT_MODS[first + j], SumsOf(va, vb, dpl, n);
    ghost var o, t := Index(n, j, 0), buf1[..];
    assert PartAt(t, va, vs, dpl, n, first, j, j);
    assert f.Valid();
    hide Pow2, ResidueRow, SumRow, Parts, Below, Convolved, SameOutside, PairTable, SumsOf, Factor;
    ghost var x, y := buf1[o..o + n], buf2[ptr..ptr + n];
    SliceOf(buf1, o, n);
    ResidueBelow(x, va, dpl, m);
    ResidueBelow(y, vb, dpl, m);
    Conv(s, buf1, n * j, buf2, ptr, logN, logN, first + j);
    SliceOf(buf1, o, n);
    BelowWords(buf1[o..o + n], 2 * m);
    ConvolvedSums(buf1[o..o + n], x, y, va, vb, dpl, f, logN);
    PartsStep(t, buf1[..], va, vs, dpl, n, first, j);
  }

  lemma {:induction false} BelowWords(x: seq<Limb>, m2: int)
    requires Below(x, m2)
    ensures forall i :: 0 <= i < |x| ==> 0 <= x[i] < m2
  {
  }

  // ----- all moduli -----

  /** The segments of the second operand that are still needed. */
  ghost predicate Needed(t: seq<Limb>, vb: nat, dpl: nat, n: nat, first: nat, j0: nat)
    requires first <= NB_MODS
  {
    |t| == (NB_MODS - first) * n && forall j :: j0 <= j < NB_MODS - first ==> NeededAt(t, vb, dpl, n, first, j)
  }

  ghost predicate NeededAt(t: seq<Limb>, vb: nat, dpl: nat, n: nat, first: nat, j: nat)
    requires first + j < NB_MODS
  {
    Index(n, j, 0) + n <= |t| && ResidueRow(Segment(t, n, j), vb, dpl, NTT_MODS[first + j])
  }

  lemma {:induction false} NeededStart(t: seq<Limb>, vb: nat, dpl: nat, n: nat, fields: seq<Field>, first: nat)
    requires first <= NB_MODS == |fields| && |t| == (NB_MODS - first) * n && n > 0
    requires forall j :: 0 <= j < NB_MODS ==> fields[j].m == NTT_MODS[j]
    requires Residues(t, vb, dpl, n, fields, first, NB_MODS - first)
    ensures Needed(t, vb, dpl, n, first, 0)
  {
    hide Residues, ResidueRow;
    forall j | 0 <= j < NB_MODS - first
      ensures NeededAt(t, vb, dpl, n, first, j)
    {
      ResidueSegment(t, vb, dpl, n, fields, first, NB_MODS - first, j);
    }
  }

  lemma {:induction false} NeededStep(t: seq<Limb>, t': seq<Limb>, vb: nat, dpl: nat, n: nat, first: nat, j: nat)
    requires first + j < NB_MODS && Needed(t, vb, dpl, n, first, j)
    requires SameOutside(t, t', Index(n, j, 0), Index(n, j, 0) + n)
    ensures Needed(t', vb, dpl, n, first, j + 1)
  {
    hide ResidueRow;
    forall k | j + 1 <= k < NB_MODS - first
      ensures NeededAt(t', vb, dpl, n, first, k)
    {
      assert NeededAt(t, vb, dpl, n, first, k);
      ApartSegments(n, j, k);
      SameSlice(t, t', Index(n, j, 0), Index(n, j, 0) + n, Index(n, k, 0), Index(n, k, 0) + n);
    }
  }

  /** All convolutions, the digits of the second operand converted for all primes beforehand. */
  method AllAtOnce(s: NttState, buf1: array<Limb>, op2: array<Limb>, o2: nat, n2: nat, n: nat, logN: nat, first: nat,
                   cr: seq<Prepared>, dpl: nat, ghost va: nat)
    requires Tables(s, cr) && first <= NB_MODS && 1 <= logN <= NTT_PROOT_2EXP && n == Pow2(logN)
    requires 1 <= dpl <= 188 && o2 + n2 <= op2.Length && buf1 != op2
    requires Parts(buf1[..], va, SumsOf(va, Val(op2[o2..o2 + n2]), dpl, n), dpl, n, first, 0)
    modifies s, buf1
    ensures Tables(s, cr)
    ensures Parts(buf1[..], va, SumsOf(va, Val(op2[o2..o2 + n2]), dpl, n), dpl, n, first, NB_MODS - first)
  {
    hide Pow2, Val, ResidueRow, Parts, Needed, SameOutside, PairTable, SumsOf, Residues;
    ghost var vb := Val(op2[o2..o2 + n2]);
    var nb := NB_MODS - first;
    var buf2 := new Limb[nb * n](_ => 0);
    Convert(s, buf2, n, op2, o2, n2, dpl, first, nb);
    NeededStart(buf2[..], vb, dpl, n, s.fields, first);
    for j := 0 to nb
      invariant Tables(s, cr)
      invariant Parts(buf1[..], va, SumsOf(va, vb, dpl, n), dpl, n, first, j)
      invariant Needed(buf2[..], vb, dpl, n, first, j)
    {
      ghost var t, o := buf2[..], Index(n, j, 0);
      NeededSegment(t, vb, dpl, n, first, j);
      SliceOf(buf2, o, n);
      OneModulus(s, buf1, buf2, n * j, n, logN, first, j, cr, dpl, va, vb);
      NeededStep(t, buf2[..], vb, dpl, n, first, j);
    }
  }

  lemma {:induction false} NeededSegment(t: seq<Limb>, vb: nat, dpl: nat, n: nat, first: nat, j: nat)
    requires first + j < NB_MODS && Needed(t, vb, dpl, n, first, j)
    ensures Index(n, j, 0) + n <= |t| && ResidueRow(Segment(t, n, j), vb, dpl, NTT_MODS[first + j])
  {
    assert NeededAt(t, vb, dpl, n, first, j);
  }

  /** All convolutions, the digits of the second operand converted anew for every prime. */
  method OneByOne(s: NttState, buf1: array<Limb>, op2: array<Limb>, o2: nat, n2: nat, n: nat, logN: nat, first: nat,
                  cr: seq<Prepared>, dpl: nat, ghost va: nat)
    requires Tables(s, cr) && first <= NB_MODS && 1 <= logN <= NTT_PROOT_2EXP && n == Pow2(logN)
    requires 1 <= dpl <= 188 && o2 + n2 <= op2.Length && buf1 != op2
    requires Parts(buf1[..], va, SumsOf(va, Val(op2[o2..o2 + n2]), dpl, n), dpl, n, first, 0)
    modifies s, buf1
    ensures Tables(s, cr)
    ensures Parts(buf1[..], va, SumsOf(va, Val(op2[o2..o2 + n2]), dpl, n), dpl, n, first, NB_MODS - first)
  {
    hide Pow2, Val, ResidueRow, Parts, SameOutside, PairTable, SumsOf, Residues;
    ghost var vb := Val(op2[o2..o2 + n2]);
    var buf2 := new Limb[n](_ => 0);
    for j := 0 to NB_MODS - first
      invariant Tables(s, cr)
      invariant Parts(buf1[..], va, SumsOf(va, vb, dpl, n), dpl, n, first, j)
    {
      Convert(s, buf2, n, op2, o2, n2, dpl, first + j, 1);
      ResidueSegment(buf2[..], vb, dpl, n, s.fields, first + j, 1, 0);
      SliceOf(buf2, 0, n);
      assert Segment(buf2[..], n, 0) == buf2[0..0 + n];
      OneModulus(s, buf1, buf2, 0, n, logN, first, j, cr, dpl, va, vb);
    }
  }

  // ----- the product -----

  const REDUCED_MEM_LOG2: nat := 14

  /** The transforms are long enough for the digits of both operands, and for the product. */
  lemma {:induction false} LongEnough(len: nat, n1: nat, n2: nat, dpl: nat, nbMods: nat, logN: nat)
    requires len == n1 + n2 && n1 >= 1 && n2 >= 1 && len >= 3 && Suitable(len, dpl, nbMods, logN)
    ensures logN >= 1
    ensures DigitCount(n1, dpl) + DigitCount(n2, dpl) <= Pow2(logN) + 1
    ensures DigitCount(n1, dpl) <= Pow2(logN) && DigitCount(n2, dpl) <= Pow2(logN)
    ensures dpl <= 64 * nbMods
    ensures len * 64 <= Pow2(logN) * dpl && len * 64 <= DigitCount(len, dpl) * dpl
  {
    hide Pow2;
    var a, b, n := DigitCount(n1, dpl), DigitCount(n2, dpl), Pow2(logN);
    DigitCountCovers(n1, dpl);
    DigitCountCovers(n2, dpl);
    DigitCountCovers(len, dpl);
    OnePow2(logN);
    Distrib(a, b, dpl);
    if a + b > n + 1 {
      MulLe(n, a + b - 2, dpl);
      Distrib(a + b, 2, dpl);
      assert false;
    }
  }

  /** The product has the sums as its digits, and is found again from the first of them. */
  lemma {:induction false} ProductOfSums(va: nat, vb: nat, n1: nat, n2: nat, dpl: nat, nbMods: nat, logN: nat, n: nat)
    requires n1 >= 1 && n2 >= 1 && n1 + n2 >= 3 && Suitable(n1 + n2, dpl, nbMods, logN)
    requires va < Pow(n1) && vb < Pow(n2) && n <= Pow2(logN) && n * dpl >= (n1 + n2) * 64
    ensures SumTo(SumsOf(va, vb, dpl, Pow2(logN)), dpl, n) % Pow2(n * dpl) % Pow(n1 + n2) == va * vb
  {
    hide Pow, Pow2, SumTo, Poly, Cyclic, Coefs;
    var len, size := n1 + n2, Pow2(logN);
    var vs := SumsOf(va, vb, dpl, size);
    LongEnough(len, n1, n2, dpl, nbMods, logN);
    PowIsPow2(n1);
    PowIsPow2(n2);
    PowIsPow2(len);
    DigitCountCovers(n1, dpl);
    DigitCountCovers(n2, dpl);
    Pow2Mono(64 * n1, DigitCount(n1, dpl) * dpl);
    Pow2Mono(64 * n2, DigitCount(n2, dpl) * dpl);
    Pow2Mono(64 * len, n * dpl);
    MulNonneg(size, dpl);
    DigitsProduct(va, vb, dpl, DigitCount(n1, dpl), DigitCount(n2, dpl), size);
    assert vs == Cyclic(Coefs(va, dpl, size), Coefs(vb, dpl, size));
    ProductBelow(va, vb, Pow(n1), Pow(n2));
    PowAdd(n1, n2);
    FirstNumbers(vs, dpl, n, va * vb);
    DivModUnique(va * vb, Pow2(n * dpl), 0, va * vb);
    DivModUnique(va * vb, Pow(len), 0, va * vb);
  }

  lemma {:induction false} ProductBelow(a: int, b: int, p: int, q: int)
    requires 0 <= a < p && 0 <= b < q
    ensures 0 <= a * b < p * q
  {
    MulNonneg(a, b);
    MulLe(b, q, a);
    MulLt(a, p, q);
  }

  lemma {:induction false} SizesOf(len: nat, dpl: nat, nbMods: nat, logN: nat)
    requires Suitable(len, dpl, nbMods, logN)
    ensures 3 <= nbMods <= NB_MODS && 1 <= dpl <= 188 && logN <= NTT_PROOT_2EXP
  {
  }

  /** The sums of products of digits modulo every prime in use. */
  method Convolve(s: NttState, cr: seq<Prepared>, op1: array<Limb>, o1: nat, n1: nat, op2: array<Limb>, o2: nat,
                  n2: nat, len: nat, dpl: nat, nb: nat, logN: nat)
      returns (buf1: array<Limb>)
    requires Tables(s, cr) && Suitable(len, dpl, nb, logN) && logN >= 1
    requires o1 + n1 <= op1.Length && o2 + n2 <= op2.Length
    modifies s
    ensures Tables(s, cr) && fresh(buf1)
    ensures Sums(buf1[..], SumsOf(Val(op1[o1..o1 + n1]), Val(op2[o2..o2 + n2]), dpl, Pow2(logN)), Pow2(logN),
                 NB_MODS - nb)
  {
    hide Pow2, Val, Parts, PairTable, SumsOf, Residues, Suitable, Sums, Product, Mods;
    ghost var va, vb := Val(op1[o1..o1 + n1]), Val(op2[o2..o2 + n2]);
    SizesOf(len, dpl, nb, logN);
    var first, n := NB_MODS - nb, Pow2(logN);
    ghost var vs := SumsOf(va, vb, dpl, n);
    buf1 := new Limb[nb * n](_ => 0);
    Convert(s, buf1, n, op1, o1, n1, dpl, first, nb);
    PartsStart(buf1[..], va, vs, dpl, n, s.fields, first);
    if logN < REDUCED_MEM_LOG2 {
      AllAtOnce(s, buf1, op2, o2, n2, n, logN, first, cr, dpl, va);
    } else {
      OneByOne(s, buf1, op2, o2, n2, n, logN, first, cr, dpl, va);
    }
    forall i | 0 <= i < n
      ensures vs[i] < Product(Mods(first))
    {
      SumsFit(va, vb, dpl, nb, logN, len, i);
    }
    PartsEnd(buf1[..], va, vs, dpl, n, first);
  }

  /** fft_mul, into the n1 + n2 limbs from ro on; it fails, where the source aborts, exactly for products
      longer than the tables and moduli allow. */
  method FftMul(s: NttState, cr: seq<Prepared>, result: array<Limb>, ro: nat, op1: array<Limb>, o1: nat, n1: nat,
                op2: array<Limb>, o2: nat, n2: nat)
      returns (ok: bool)
    requires Tables(s, cr) && n1 >= 1 && n2 >= 1 && n1 + n2 >= 3 && (n1 + n2) * LIMB_BITS + 256 <= B
    requires ro + n1 + n2 <= result.Length && o1 + n1 <= op1.Length && o2 + n2 <= op2.Length
    requires result != op1 && result != op2
    modifies s, result
    ensures Tables(s, cr)
    ensures ok <==> (n1 + n2) * LIMB_BITS <= LongestProduct()
    ensures SameOutside(old(result[..]), result[..], ro, ro + n1 + n2)
    ensures ok ==> Val(result[ro..ro + n1 + n2]) == Val(op1[o1..o1 + n1]) * Val(op2[o2..o2 + n2])
  {
    hide Pow2, Pow, Val, SameOutside, PairTable, SumsOf, LongestProduct, Suitable, Sums, SumTo;
    ghost var va, vb := Val(op1[o1..o1 + n1]), Val(op2[o2..o2 + n2]);
    var len := n1 + n2;
    var found, dpl, nb, logN := GetFftSize(len);
    StoreNothing(result[..], ro, ro + n1 + n2);
    if !found {
      return false;
    }
    SizesOf(len, dpl, nb, logN);
    LongEnough(len, n1, n2, dpl, nb, logN);
    var n := Pow2(logN);
    var buf1 := Convolve(s, cr, op1, o1, n1, op2, o2, n2, len, dpl, nb, logN);
    ghost var count := ToResult(result, ro, len, buf1, n, NB_MODS - nb, dpl, cr, SumsOf(va, vb, dpl, n));
    ValBound(op1[o1..o1 + n1]);
    ValBound(op2[o2..o2 + n2]);
    ProductOfSums(va, vb, n1, n2, dpl, nb, logN, count);
    ok := true;
  }

  const FFT_MUL_THRESHOLD: nat := 100

  /** mp_mul: the schoolbook product, or transforms when both operands are long. */
  method MulByLength(s: NttState, cr: seq<Prepared>, result: array<Limb>, ro: nat, op1: array<Limb>, o1: nat, n1: nat,
                     op2: array<Limb>, o2: nat, n2: nat)
    requires Tables(s, cr) && n2 >= 1 && (n1 + n2) * LIMB_BITS <= LongestProduct() && (n1 + n2) * LIMB_BITS + 256 <= B
    requires ro + n1 + n2 <= result.Length && o1 + n1 <= op1.Length && o2 + n2 <= op2.Length
    requires result != op1 && result != op2
    modifies s, result
    ensures Tables(s, cr)
    ensures SameOutside(old(result[..]), result[..], ro, ro + n1 + n2)
    ensures Val(result[ro..ro + n1 + n2]) == Val(op1[o1..o1 + n1]) * Val(op2[o2..o2 + n2])
  {
    hide Val, SameOutside, PairTable, LongestProduct;
    if n1 >= FFT_MUL_THRESHOLD && n2 >= FFT_MUL_THRESHOLD {
      var ok := FftMul(s, cr, result, ro, op1, o1, n1, op2, o2, n2);
    } else {
      MpMul(result, ro, op1, o1, n1, op2, o2, n2);
    }
  }
}
