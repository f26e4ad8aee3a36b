/** Cyclic convolution modulo one prime: transforms, products entry by entry, and back; for long
    operands through the rows of a matrix. */
module NttConv {
  import opened Arith
  import opened Limbs
  import opened LimbMul
  import opened LimbOps
  import opened Bits
  import opened ModWords
  import opened PolySums
  import opened NttTables
  import opened NttStage
  import opened NttTransform
  import opened NttSplit
  import opened NttColumns

  // ----- products -----

  /** One product with the inverse length; the first factor is reduced first. */
  function ScaledProduct(x: Limb, y: Limb, norm: Prepared, m: Limb, mInv: Limb): (r: Limb)
    requires Modulus(m) && mInv == InitMulModFast(m) && Ready(norm, m) && x < 2 * m && y < 2 * m
    ensures r < 2 * m && m > 0 && Cong(r, norm.value * (x * y), m)
  {
    var a: Limb := if x >= m then x - m else x;
    ProductSmall(a, y, m);
    var p := MulModFast(a, y, m, mInv);
    var r := MulModFast3(p, norm.value, m, norm.inv);
    ProductCong(x, a, y, p, norm.value, r, m);
    r
  }

  lemma {:induction false} ProductCong(x: int, a: int, y: int, p: int, g: int, r: int, m: int)
    requires m > 0 && (a == x || a == x - m) && p == a * y % m && (r == p * g % m || r == p * g % m + m)
    ensures Cong(r, g * (x * y), m)
  {
    hide Cong;
    CongFrom(a, x, m, if a == x then 0 else -1);
    CongSelf(y, m);
    CongMul(a, x, y, y, m);
    CongMod(a * y, m);
    CongTrans(p, a * y, x * y, m);
    CongSelf(g, m);
    CongMul(p, x * y, g, g, m);
    CongMod(p * g, m);
    CongFrom(r, p * g % m, m, if r == p * g % m then 0 else 1);
    CongTrans(r, p * g % m, p * g, m);
    CongTrans(r, p * g, x * y * g, m);
    assert x * y * g == g * (x * y);
  }

  /** The first i entries of t are products of those of a and b. */
  ghost predicate ProductsTo(t: seq<int>, a: seq<int>, b: seq<int>, g: int, i: nat, m: int)
    requires m > 0
  {
    && |t| == |a| == |b| && i <= |t|
    && (forall j :: 0 <= j < i ==> ProductAt(t, a, b, g, j, m) && t[j] < 2 * m)
    && (forall j :: i <= j < |t| ==> t[j] == a[j])
  }

  lemma {:induction false} ProductsStep(t: seq<Limb>, a: seq<int>, b: seq<int>, g: int, i: nat, v: Limb, m: int)
    requires m > 0 && ProductsTo(t, a, b, g, i, m) && i < |t|
    requires Cong(v, g * (a[i] * b[i]), m) && v < 2 * m
    ensures ProductsTo(t[i := v], a, b, g, i + 1, m)
  {
    hide Cong;
    var t' := t[i := v];
    forall j | 0 <= j < i + 1
      ensures ProductAt(t', a, b, g, j, m) && t'[j] < 2 * m
    {
      if j < i {
        assert ProductAt(t, a, b, g, j, m);
      }
    }
  }

  lemma {:induction false} ProductsEnd(t: seq<Limb>, a: seq<int>, b: seq<int>, g: int, m: int)
    requires m > 0 && ProductsTo(t, a, b, g, |t|, m)
    ensures Products(t, a, b, g, m) && Below(t, 2 * m)
  {
    hide Cong;
    forall j | 0 <= j < |t|
      ensures ProductAt(t, a, b, g, j, m) && t[j] < 2 * m
    {
      assert ProductAt(t, a, b, g, j, m);
    }
  }

  /** ntt_vec_mul: entry by entry products, times the inverse of the whole length. */
  method VecMul(tab1: array<Limb>, o1: nat, tab2: array<Limb>, o2: nat, n: nat, norm: Prepared, m: Limb, mInv: Limb)
    requires tab1 != tab2 && o1 + n <= tab1.Length && o2 + n <= tab2.Length
    requires Modulus(m) && m > 0 && mInv == InitMulModFast(m) && Ready(norm, m)
    requires Below(tab1[o1..o1 + n], 2 * m) && Below(tab2[o2..o2 + n], 2 * m)
    modifies tab1
    ensures SameOutside(old(tab1[..]), tab1[..], o1, o1 + n)
    ensures Below(tab1[o1..o1 + n], 2 * m)
    ensures Products(tab1[o1..o1 + n], old(tab1[o1..o1 + n]), tab2[o2..o2 + n], norm.value, m)
  {
    ghost var a, b, before := tab1[o1..o1 + n], tab2[o2..o2 + n], tab1[..];
    assert m < MOD_MAX;
    hide Modulus, Ready, Cong, InitMulModFast, Products, ScaledProduct, SameOutside;
    StoreNothing(before, o1, o1 + n);
    for i := 0 to n
      invariant SameOutside(before, tab1[..], o1, o1 + n)
      invariant ProductsTo(tab1[o1..o1 + n], a, b, norm.value, i, m)
    {
      ghost var s, t := tab1[..], tab1[o1..o1 + n];
      assert t[i] == a[i] && a[i] < 2 * m && b[i] < 2 * m;
      var v := ScaledProduct(tab1[o1 + i], tab2[o2 + i], norm, m, mInv);
      ProductsStep(t, a, b, norm.value, i, v, m);
      tab1[o1 + i] := v;
      SliceStore(s, o1, n, i, v);
      assert tab1[..] == s[o1 + i := v];
      SliceOf(tab1, o1, n);
      SameChain(before, s, tab1[..], o1, o1 + n, o1, o1 + n, o1, o1 + n);
    }
    ProductsEnd(tab1[o1..o1 + n], a, b, norm.value, m);
  }

  // ----- the partial transform -----

  /** ntt_fft_partial. */
  method FftPartial(s: NttState, buf1: array<Limb>, off: nat, k1: nat, k2: nat, n1: nat, n2: nat, n: nat, inverse: nat,
                    mIdx: nat)
    requires n == n1 * n2
    requires s.Valid() && mIdx < |s.fields| && inverse < 2 && 1 <= k1 <= NTT_TRIG_K_MAX && (k2 == 0 || 4 <= k2)
    requires k1 + k2 <= NTT_PROOT_2EXP && n1 == Pow2(k1) && n2 == Pow2(k2) && off + n <= buf1.Length
    requires s.fields[mIdx].m > 0 && Below(buf1[off..off + n], 2 * s.fields[mIdx].m)
    modifies s, buf1
    ensures s.Valid()
    ensures SameOutside(old(buf1[..]), buf1[..], off, off + n)
    ensures Below(buf1[off..off + n], 2 * s.fields[mIdx].m)
    ensures PartialDone(buf1[off..off + n], old(buf1[off..off + n]), k1, k2,
                        s.fields[mIdx].proot[inverse][k1].value, s.fields[mIdx].proot[inverse][k1 + k2].value, inverse,
                        s.fields[mIdx].m)
  {
    ghost var m := s.fields[mIdx].m;
    ghost var x := buf1[off..off + n];
    OnePow2(k2);
    hide Pow2, Below, SameOutside, ColumnsDone, IsTransform, Turned, TurnedBack;
    var buf3 := new Limb[n1](_ => 0);
    if k2 == 0 {
      assert n == n1;
      var ok := NttFft(s, buf1, off, buf3, k1, inverse, mIdx);
    } else {
      TransformColumns(s, buf1, off, k1, k2, n1, n2, inverse, mIdx, buf3);
      ColumnsEnd(buf1[off..off + n], x, n2, n1, s.fields[mIdx].proot[inverse][k1].value,
                 s.fields[mIdx].proot[inverse][k1 + k2].value, inverse, m);
    }
  }

  // ----- what the steps amount to -----

  /** The factor of a convolution of length 2^k when products are scaled for length 2^kTot. */
  ghost function Factor(f: Field, k: nat, kTot: nat): int
    requires kTot < |f.lenInv|
  {
    Pow2(k) * f.lenInv[kTot].value
  }

  /** Without splitting: two transforms, products, one inverse transform. */
  lemma {:induction false} WholeResult(f: Field, a: seq<int>, b: seq<int>, ta: seq<int>, tb: seq<int>, c: seq<int>,
                                       r: seq<int>, k: nat, kTot: nat)
    requires f.Valid() && 1 <= k <= NTT_PROOT_2EXP && kTot <= NTT_PROOT_2EXP && |a| == |b| == Pow2(k)
    requires IsTransform(ta, a, f.proot[0][k].value, f.m) && IsTransform(tb, b, f.proot[0][k].value, f.m)
    requires Products(c, ta, tb, f.lenInv[kTot].value, f.m) && IsTransform(r, c, f.proot[1][k].value, f.m)
    ensures Convolved(r, a, b, Factor(f, k, kTot), f.m)
  {
    hide IsTransform, Products, Convolved, Root, Cong;
    RootsOf(f, 0, k);
    RootsOf(f, 1, k);
    ConvolutionByTransform(a, b, ta, tb, c, r, f.lenInv[kTot].value, f.proot[0][k].value, f.proot[1][k].value, k, f.m);
  }

  /** With splitting: columns transformed and turned, rows convolved, columns turned back. */
  lemma {:induction false} SplitResult(f: Field, a: seq<int>, b: seq<int>, ya: seq<int>, yb: seq<int>, z: seq<int>,
                                       x: seq<int>, k1: nat, k2: nat, kTot: nat)
    requires f.Valid() && 1 <= k1 && 1 <= k2 && k1 + k2 <= NTT_PROOT_2EXP && kTot <= NTT_PROOT_2EXP
    requires |a| == |b| == |x| == Pow2(k1) * Pow2(k2)
    requires Turned(ya, a, Pow2(k2), Pow2(k1), f.proot[0][k1].value, f.proot[0][k1 + k2].value, f.m)
    requires Turned(yb, b, Pow2(k2), Pow2(k1), f.proot[0][k1].value, f.proot[0][k1 + k2].value, f.m)
    requires RowsConvolved(z, ya, yb, Pow2(k2), Pow2(k1), Factor(f, k2, kTot), f.m)
    requires TurnedBack(x, z, Pow2(k2), Pow2(k1), f.proot[1][k1].value, f.proot[1][k1 + k2].value, f.m)
    ensures Convolved(x, a, b, Factor(f, k1 + k2, kTot), f.m)
  {
    hide Turned, RowsConvolved, TurnedBack, Convolved, Root, Cong, Pow2, Ready, Exp;
    var k, m := k1 + k2, f.m;
    RootsOf(f, 0, k);
    RootsOf(f, 1, k);
    RootsOf(f, 0, k1);
    RootsOf(f, 1, k1);
    RootsOf(f, 0, k2);
    RootChain(f, 0, k, k1);
    RootChain(f, 0, k, k2);
    assert f.LengthEntry(k);
    Pow2Add(k1, k2);
    var w1, v1, w, v := f.proot[0][k1].value, f.proot[1][k1].value, f.proot[0][k].value, f.proot[1][k].value;
    TurnBack(x, z, Pow2(k2), Pow2(k1), k1, w1, v1, w, v, m);
    SplitConvolution(a, b, ya, yb, z, x, Pow2(k2), Pow2(k1), k2, Factor(f, k2, kTot), w1, f.proot[0][k2].value, w, v,
                     f.lenInv[k].value, k, m);
    Assoc(Pow2(k1), Pow2(k2), f.lenInv[kTot].value);
  }

  // ----- row by row -----

  lemma {:induction false} RowSlice(s: seq<Limb>, p: nat, n1: nat, r: nat)
    requires |s| == n1 * p && r < n1
    ensures Index(p, r, 0) + p <= |s|
    ensures Row(s, p, r) == s[Index(p, r, 0)..Index(p, r, 0) + p]
  {
    RowEnd(p, n1, r);
    forall j | 0 <= j < p
      ensures Row(s, p, r)[j] == s[Index(p, r, 0) + j]
    {
      CellIs(s, p, n1, r, j);
    }
  }

  lemma {:induction false} RowEnd(p: nat, n1: nat, r: nat)
    requires r < n1
    ensures Index(p, r, 0) + p <= n1 * p
  {
    Distrib(r, 1, p);
    MulLe(r + 1, n1, p);
  }

  /** Row r when the rows before i are convolved. */
  ghost predicate RowAt(z: seq<Limb>, t: seq<Limb>, ya: seq<int>, yb: seq<int>, p: nat, g: int, i: nat, r: nat, m: int)
    requires m > 0
  {
    && (forall j :: 0 <= j < p ==> Row(z, p, r)[j] < 2 * m && (r >= i ==> Row(t, p, r)[j] < 2 * m))
    && (if r < i then Convolved(Row(z, p, r), Row(ya, p, r), Row(yb, p, r), g, m)
        else Row(z, p, r) == Row(ya, p, r) && Row(t, p, r) == Row(yb, p, r))
  }

  ghost predicate Rows(z: seq<Limb>, t: seq<Limb>, ya: seq<int>, yb: seq<int>, p: nat, n1: nat, g: int, i: nat, m: int)
    requires m > 0
  {
    |z| == |t| == n1 * p && forall r :: 0 <= r < n1 ==> RowAt(z, t, ya, yb, p, g, i, r, m)
  }

  lemma {:induction false} RowsStart(ya: seq<Limb>, yb: seq<Limb>, p: nat, n1: nat, g: int, m: int)
    requires m > 0 && |ya| == |yb| == n1 * p && Below(ya, 2 * m) && Below(yb, 2 * m)
    ensures Rows(ya, yb, ya, yb, p, n1, g, 0, m)
  {
    hide Row, Convolved;
    forall r | 0 <= r < n1
      ensures RowAt(ya, yb, ya, yb, p, g, 0, r, m)
    {
      RowSlice(ya, p, n1, r);
      RowSlice(yb, p, n1, r);
    }
  }

  lemma {:induction false} RowReady(z: seq<Limb>, t: seq<Limb>, ya: seq<int>, yb: seq<int>, p: nat, n1: nat, g: int,
                                    i: nat, m: int)
    requires m > 0 && i < n1 && Rows(z, t, ya, yb, p, n1, g, i, m)
    ensures Index(p, i, 0) + p <= |z|
    ensures var q := Index(p, i, 0);
            Below(z[q..q + p], 2 * m) && Below(t[q..q + p], 2 * m)
  {
    hide Row, Convolved;
    assert RowAt(z, t, ya, yb, p, g, i, i, m);
    RowSlice(z, p, n1, i);
    RowSlice(t, p, n1, i);
  }

  lemma {:induction false} RowsStep(z: seq<Limb>, t: seq<Limb>, z': seq<Limb>, t': seq<Limb>, ya: seq<int>,
                                    yb: seq<int>, p: nat, n1: nat, g: int, i: nat, m: int)
    requires m > 0 && i < n1 && Rows(z, t, ya, yb, p, n1, g, i, m) && |z'| == |t'| == n1 * p
    requires SameOutside(z, z', Index(p, i, 0), Index(p, i, 0) + p)
    requires SameOutside(t, t', Index(p, i, 0), Index(p, i, 0) + p)
    requires Index(p, i, 0) + p <= n1 * p && Below(z'[Index(p, i, 0)..Index(p, i, 0) + p], 2 * m)
    requires Convolved(z'[Index(p, i, 0)..Index(p, i, 0) + p], z[Index(p, i, 0)..Index(p, i, 0) + p],
                       t[Index(p, i, 0)..Index(p, i, 0) + p], g, m)
    ensures Rows(z', t', ya, yb, p, n1, g, i + 1, m)
  {
    hide Row, Convolved;
    var next := i + 1;
    forall r | 0 <= r < n1
      ensures RowAt(z', t', ya, yb, p, g, next, r, m)
    {
      assert RowAt(z, t, ya, yb, p, g, i, r, m);
      RowSlice(z, p, n1, r);
      RowSlice(t, p, n1, r);
      RowSlice(z', p, n1, r);
      RowSlice(t', p, n1, r);
      if r != i {
        ApartSegments(p, i, r);
        var q, o := Index(p, i, 0), Index(p, r, 0);
        SameSlice(z, z', q, q + p, o, o + p);
        SameSlice(t, t', q, q + p, o, o + p);
      }
    }
  }

  lemma {:induction false} RowsEnd(z: seq<Limb>, t: seq<Limb>, ya: seq<int>, yb: seq<int>, p: nat, n1: nat, g: int,
                                   m: int)
    requires m > 0 && Rows(z, t, ya, yb, p, n1, g, n1, m)
    ensures RowsConvolved(z, ya, yb, p, n1, g, m) && Below(z, 2 * m)
  {
    hide Convolved, Cell;
    forall r | 0 <= r < n1
      ensures Convolved(Row(z, p, r), Row(ya, p, r), Row(yb, p, r), g, m)
    {
      assert RowAt(z, t, ya, yb, p, g, n1, r, m);
    }
    forall q | 0 <= q < |z|
      ensures z[q] < 2 * m
    {
      RowOfIndex(p, n1, q);
      CellIs(z, p, n1, q / p, q % p);
      assert RowAt(z, t, ya, yb, p, g, n1, q / p, m);
      assert Row(z, p, q / p)[q % p] < 2 * m;
    }
  }

  /** A change within one row of a section is a change within the section. */
  lemma {:induction false} RowWithin(was: seq<Limb>, now: seq<Limb>, o: nat, n: nat, q: nat, p: nat)
    requires q + p <= n && o + n <= |was| && SameOutside(was, now, o + q, o + q + p)
    ensures SameOutside(was, now, o, o + n)
    ensures SameOutside(was[o..o + n], now[o..o + n], q, q + p)
    ensures now[o..o + n][q..q + p] == now[o + q..o + q + p]
    ensures was[o..o + n][q..q + p] == was[o + q..o + q + p]
  {
    InnerSlice(now, o, n, q, p);
    InnerSlice(was, o, n, q, p);
  }

  lemma {:induction false} InnerSlice(s: seq<Limb>, o: nat, n: nat, q: nat, p: nat)
    requires q + p <= n && o + n <= |s|
    ensures s[o..o + n][q..q + p] == s[o + q..o + q + p]
  {
    var t, u := s[o..o + n][q..q + p], s[o + q..o + q + p];
    forall j | 0 <= j < p
      ensures t[j] == u[j]
    {
    }
  }

  // ----- the convolution -----

  /** The recursion of ntt_conv on the rows of the matrix. */
  method ConvRows(s: NttState, buf1: array<Limb>, o1: nat, buf2: array<Limb>, o2: nat, k2: nat, kTot: nat, mIdx: nat,
                  n1: nat, n2: nat, n: nat)
    requires n == n1 * n2
    requires s.Valid() && mIdx < |s.fields| && 1 <= k2 <= kTot <= NTT_PROOT_2EXP && n2 == Pow2(k2)
    requires buf1 != buf2 && o1 + n <= buf1.Length && o2 + n <= buf2.Length && s.fields[mIdx].m > 0
    requires Below(buf1[o1..o1 + n], 2 * s.fields[mIdx].m)
    requires Below(buf2[o2..o2 + n], 2 * s.fields[mIdx].m)
    modifies s, buf1, buf2
    ensures s.Valid()
    ensures SameOutside(old(buf1[..]), buf1[..], o1, o1 + n)
    ensures SameOutside(old(buf2[..]), buf2[..], o2, o2 + n)
    ensures Below(buf1[o1..o1 + n], 2 * s.fields[mIdx].m)
    ensures RowsConvolved(buf1[o1..o1 + n], old(buf1[o1..o1 + n]), old(buf2[o2..o2 + n]), n2, n1,
                          Factor(s.fields[mIdx], k2, kTot), s.fields[mIdx].m)
    decreases k2, 2
  {
    ghost var f := s.fields[mIdx];
    ghost var m, g := f.m, Factor(f, k2, kTot);
    ghost var ya, yb, before1, before2 := buf1[o1..o1 + n], buf2[o2..o2 + n], buf1[..], buf2[..];
    hide Factor, Below, SameOutside, Rows, RowsConvolved, Convolved, Pow2;
    StoreNothing(before1, o1, o1 + n);
    StoreNothing(before2, o2, o2 + n);
    RowsStart(ya, yb, n2, n1, g, m);
    for i := 0 to n1
      invariant s.Valid()
      invariant SameOutside(before1, buf1[..], o1, o1 + n) && SameOutside(before2, buf2[..], o2, o2 + n)
      invariant Rows(buf1[o1..o1 + n], buf2[o2..o2 + n], ya, yb, n2, n1, g, i, m)
    {
      OneRow(s, buf1, o1, buf2, o2, k2, kTot, mIdx, n1, n2, n, i, ya, yb, before1, before2);
    }
    RowsEnd(buf1[o1..o1 + n], buf2[o2..o2 + n], ya, yb, n2, n1, g, m);
  }

  /** One row of both operands. */
  method OneRow(s: NttState, buf1: array<Limb>, o1: nat, buf2: array<Limb>, o2: nat, k2: nat, kTot: nat, mIdx: nat,
                n1: nat, n2: nat, n: nat, i: nat, ghost ya: seq<int>, ghost yb: seq<int>, ghost before1: seq<Limb>,
                ghost before2: seq<Limb>)
    requires n == n1 * n2
    requires s.Valid() && mIdx < |s.fields| && 1 <= k2 <= kTot <= NTT_PROOT_2EXP && n2 == Pow2(k2) && i < n1
    requires buf1 != buf2 && o1 + n <= buf1.Length && o2 + n <= buf2.Length && s.fields[mIdx].m > 0
    requires SameOutside(before1, buf1[..], o1, o1 + n) && SameOutside(before2, buf2[..], o2, o2 + n)
    requires Rows(buf1[o1..o1 + n], buf2[o2..o2 + n], ya, yb, n2, n1, Factor(s.fields[mIdx], k2, kTot), i,
                  s.fields[mIdx].m)
    modifies s, buf1, buf2
    ensures s.Valid()
    ensures SameOutside(before1, buf1[..], o1, o1 + n) && SameOutside(before2, buf2[..], o2, o2 + n)
    ensures Rows(buf1[o1..o1 + n], buf2[o2..o2 + n], ya, yb, n2, n1, Factor(s.fields[mIdx], k2, kTot),
                 i + 1, s.fields[mIdx].m)
    decreases k2, 1
  {
    ghost var f := s.fields[mIdx];
    ghost var m, g, q := f.m, Factor(f, k2, kTot), Index(n2, i, 0);
    hide Factor, Below, SameOutside, Rows, Convolved, Pow2;
    ghost var s1, s2 := buf1[..], buf2[..];
    SliceOf(buf1, o1, n);
    SliceOf(buf2, o2, n);
    RowReady(s1[o1..o1 + n], s2[o2..o2 + n], ya, yb, n2, n1, g, i, m);
    InnerSlice(s1, o1, n, q, n2);
    InnerSlice(s2, o2, n, q, n2);
    SliceOf(buf1, o1 + q, n2);
    SliceOf(buf2, o2 + q, n2);
    Conv(s, buf1, o1 + i * n2, buf2, o2 + i * n2, k2, kTot, mIdx);
    SliceOf(buf1, o1 + q, n2);
    SliceOf(buf1, o1, n);
    SliceOf(buf2, o2, n);
    RowWithin(s1, buf1[..], o1, n, q, n2);
    RowWithin(s2, buf2[..], o2, n, q, n2);
    RowsStep(s1[o1..o1 + n], s2[o2..o2 + n], buf1[o1..o1 + n], buf2[o2..o2 + n], ya, yb, n2, n1, g, i, m);
    SameChain(before1, s1, buf1[..], o1, o1 + n, o1, o1 + n, o1, o1 + n);
    SameChain(before2, s2, buf2[..], o2, o2 + n, o2, o2 + n, o2, o2 + n);
  }

  /** ntt_conv: the cyclic convolution of 2^k words of each buffer, into the first; products are scaled
      by the inverse of 2^kTot. */
  method Conv(s: NttState, buf1: array<Limb>, o1: nat, buf2: array<Limb>, o2: nat, k: nat, kTot: nat, mIdx: nat)
    requires s.Valid() && mIdx < |s.fields| && 1 <= k <= kTot <= NTT_PROOT_2EXP
    requires buf1 != buf2 && o1 + Pow2(k) <= buf1.Length && o2 + Pow2(k) <= buf2.Length && s.fields[mIdx].m > 0
    requires Below(buf1[o1..o1 + Pow2(k)], 2 * s.fields[mIdx].m)
    requires Below(buf2[o2..o2 + Pow2(k)], 2 * s.fields[mIdx].m)
    modifies s, buf1, buf2
    ensures s.Valid()
    ensures SameOutside(old(buf1[..]), buf1[..], o1, o1 + Pow2(k))
    ensures SameOutside(old(buf2[..]), buf2[..], o2, o2 + Pow2(k))
    ensures Below(buf1[o1..o1 + Pow2(k)], 2 * s.fields[mIdx].m)
    ensures Convolved(buf1[o1..o1 + Pow2(k)], old(buf1[o1..o1 + Pow2(k)]), old(buf2[o2..o2 + Pow2(k)]),
                      Factor(s.fields[mIdx], k, kTot), s.fields[mIdx].m)
    decreases k, 0
  {
    var k1 := if k <= NTT_TRIG_K_MAX then k else ShorterHalf(k);
    var k2 := k - k1;
    Pow2Add(k1, k2);
    hide Pow2, Below, SameOutside, Convolved, Factor;
    ConvSized(s, buf1, o1, buf2, o2, k1, k2, kTot, mIdx, Pow2(k1), Pow2(k2), Pow2(k));
  }

  method ConvSized(s: NttState, buf1: array<Limb>, o1: nat, buf2: array<Limb>, o2: nat, k1: nat, k2: nat, kTot: nat,
                   mIdx: nat, n1: nat, n2: nat, n: nat)
    requires s.Valid() && mIdx < |s.fields| && 1 <= k1 <= NTT_TRIG_K_MAX && (k2 == 0 || 4 <= k2)
    requires k1 + k2 <= kTot <= NTT_PROOT_2EXP && n1 == Pow2(k1) && n2 == Pow2(k2) && n == n1 * n2
    requires buf1 != buf2 && o1 + n <= buf1.Length && o2 + n <= buf2.Length && s.fields[mIdx].m > 0
    requires Below(buf1[o1..o1 + n], 2 * s.fields[mIdx].m) && Below(buf2[o2..o2 + n], 2 * s.fields[mIdx].m)
    modifies s, buf1, buf2
    ensures s.Valid()
    ensures SameOutside(old(buf1[..]), buf1[..], o1, o1 + n) && SameOutside(old(buf2[..]), buf2[..], o2, o2 + n)
    ensures Below(buf1[o1..o1 + n], 2 * s.fields[mIdx].m)
    ensures Convolved(buf1[o1..o1 + n], old(buf1[o1..o1 + n]), old(buf2[o2..o2 + n]),
                      Factor(s.fields[mIdx], k1 + k2, kTot), s.fields[mIdx].m)
    decreases k2, 5
  {
    hide Pow2, Below, SameOutside, PartialDone, Middle, Convolved, Factor;
    ghost var a, b, before1 := buf1[o1..o1 + n], buf2[o2..o2 + n], buf1[..];
    ghost var ya, yb := Forward(s, buf1, o1, buf2, o2, k1, k2, kTot, mIdx, n1, n2, n);
    ghost var z, late1 := buf1[o1..o1 + n], buf1[..];
    FftPartial(s, buf1, o1, k1, k2, n1, n2, n, 1, mIdx);
    ConvResult(s.fields[mIdx], a, b, ya, yb, z, buf1[o1..o1 + n], k1, k2, kTot);
    SameChain(before1, late1, buf1[..], o1, o1 + n, o1, o1 + n, o1, o1 + n);
  }

  /** Both partial transforms and what follows them. */
  method Forward(s: NttState, buf1: array<Limb>, o1: nat, buf2: array<Limb>, o2: nat, k1: nat, k2: nat, kTot: nat,
                 mIdx: nat, n1: nat, n2: nat, n: nat)
      returns (ghost ya: seq<int>, ghost yb: seq<int>)
    requires s.Valid() && mIdx < |s.fields| && 1 <= k1 <= NTT_TRIG_K_MAX && (k2 == 0 || 4 <= k2)
    requires k1 + k2 <= kTot <= NTT_PROOT_2EXP && n1 == Pow2(k1) && n2 == Pow2(k2) && n == n1 * n2
    requires buf1 != buf2 && o1 + n <= buf1.Length && o2 + n <= buf2.Length && s.fields[mIdx].m > 0
    requires Below(buf1[o1..o1 + n], 2 * s.fields[mIdx].m) && Below(buf2[o2..o2 + n], 2 * s.fields[mIdx].m)
    modifies s, buf1, buf2
    ensures s.Valid()
    ensures SameOutside(old(buf1[..]), buf1[..], o1, o1 + n) && SameOutside(old(buf2[..]), buf2[..], o2, o2 + n)
    ensures Below(buf1[o1..o1 + n], 2 * s.fields[mIdx].m)
    ensures PartialDone(ya, old(buf1[o1..o1 + n]), k1, k2, s.fields[mIdx].proot[0][k1].value,
                        s.fields[mIdx].proot[0][k1 + k2].value, 0, s.fields[mIdx].m)
    ensures PartialDone(yb, old(buf2[o2..o2 + n]), k1, k2, s.fields[mIdx].proot[0][k1].value,
                        s.fields[mIdx].proot[0][k1 + k2].value, 0, s.fields[mIdx].m)
    ensures Middle(s.fields[mIdx], buf1[o1..o1 + n], ya, yb, k1, k2, kTot)
    decreases k2, 4
  {
    hide Pow2, Below, SameOutside, PartialDone, Middle;
    ghost var before1, before2 := buf1[..], buf2[..];
    FftPartial(s, buf1, o1, k1, k2, n1, n2, n, 0, mIdx);
    ya := buf1[o1..o1 + n];
    ghost var mid1 := buf1[..];
    FftPartial(s, buf2, o2, k1, k2, n1, n2, n, 0, mIdx);
    yb := buf2[o2..o2 + n];
    ghost var mid2 := buf2[..];
    Multiply(s, buf1, o1, buf2, o2, k1, k2, kTot, mIdx, n1, n2, n);
    SameChain(before1, mid1, buf1[..], o1, o1 + n, o1, o1 + n, o1, o1 + n);
    SameChain(before2, mid2, buf2[..], o2, o2 + n, o2, o2 + n, o2, o2 + n);
  }

  /** The rows of a split: half the length, and no more than the tables reach. */
  function ShorterHalf(k: nat): (k1: nat)
    requires NTT_TRIG_K_MAX < k
    ensures 1 <= k1 <= NTT_TRIG_K_MAX && 4 <= k - k1 < k
  {
    if k / 2 < NTT_TRIG_K_MAX then k / 2 else NTT_TRIG_K_MAX
  }

  /** What lies between the partial transforms. */
  ghost predicate Middle(f: Field, z: seq<int>, ya: seq<int>, yb: seq<int>, k1: nat, k2: nat, kTot: nat)
    requires f.m > 0 && kTot < |f.lenInv|
  {
    if k2 == 0 then Products(z, ya, yb, f.lenInv[kTot].value, f.m)
    else RowsConvolved(z, ya, yb, Pow2(k2), Pow2(k1), Factor(f, k2, kTot), f.m)
  }

  /** The products, or the convolutions of the rows. */
  method Multiply(s: NttState, buf1: array<Limb>, o1: nat, buf2: array<Limb>, o2: nat, k1: nat, k2: nat, kTot: nat,
                  mIdx: nat, n1: nat, n2: nat, n: nat)
    requires n == n1 * n2
    requires s.Valid() && mIdx < |s.fields| && 1 <= k1 && k1 + k2 <= kTot <= NTT_PROOT_2EXP
    requires n1 == Pow2(k1) && n2 == Pow2(k2) && s.fields[mIdx].m > 0
    requires buf1 != buf2 && o1 + n <= buf1.Length && o2 + n <= buf2.Length
    requires Below(buf1[o1..o1 + n], 2 * s.fields[mIdx].m)
    requires Below(buf2[o2..o2 + n], 2 * s.fields[mIdx].m)
    modifies s, buf1, buf2
    ensures s.Valid()
    ensures SameOutside(old(buf1[..]), buf1[..], o1, o1 + n)
    ensures SameOutside(old(buf2[..]), buf2[..], o2, o2 + n)
    ensures Below(buf1[o1..o1 + n], 2 * s.fields[mIdx].m)
    ensures Middle(s.fields[mIdx], buf1[o1..o1 + n], old(buf1[o1..o1 + n]), old(buf2[o2..o2 + n]), k1,
                   k2, kTot)
    decreases k2, 3
  {
    var f := s.fields[mIdx];
    assert Modulus(f.m) && f.mInv == InitMulModFast(f.m) && f.LengthEntry(kTot);
    hide Modulus, Ready, InitMulModFast, Pow2, Below, SameOutside, Products, RowsConvolved, Factor;
    StoreNothing(buf2[..], o2, o2 + n);
    if k2 == 0 {
      VecMul(buf1, o1, buf2, o2, n, f.lenInv[kTot], f.m, f.mInv);
    } else {
      ConvRows(s, buf1, o1, buf2, o2, k2, kTot, mIdx, n1, n2, n);
    }
  }

  lemma {:induction false} ConvResult(f: Field, a: seq<int>, b: seq<int>, ya: seq<int>, yb: seq<int>, z: seq<int>,
                                      x: seq<int>, k1: nat, k2: nat, kTot: nat)
    requires f.Valid() && 1 <= k1 && k1 + k2 <= kTot <= NTT_PROOT_2EXP && |a| == |b| == |x| == Pow2(k1) * Pow2(k2)
    requires PartialDone(ya, a, k1, k2, f.proot[0][k1].value, f.proot[0][k1 + k2].value, 0, f.m)
    requires PartialDone(yb, b, k1, k2, f.proot[0][k1].value, f.proot[0][k1 + k2].value, 0, f.m)
    requires Middle(f, z, ya, yb, k1, k2, kTot)
    requires PartialDone(x, z, k1, k2, f.proot[1][k1].value, f.proot[1][k1 + k2].value, 1, f.m)
    ensures Convolved(x, a, b, Factor(f, k1 + k2, kTot), f.m)
  {
    hide Products, RowsConvolved, Factor, IsTransform, Turned, TurnedBack, Convolved, Pow2;
    if k2 == 0 {
      OnePow2(k2);
      WholeResult(f, a, b, ya, yb, z, x, k1, kTot);
    } else {
      SplitResult(f, a, b, ya, yb, z, x, k1, k2, kTot);
    }
  }
}
