/** Transforming the columns of a matrix, sixteen at a time through a second buffer. */
module NttColumns {
  import opened Arith
  import opened Limbs
  import opened LimbMul
  import opened LimbOps
  import opened ModWords
  import opened PolySums
  import opened NttTables
  import opened NttStage
  import opened NttTransform
  import opened NttSplit

  const STRIP_LEN: nat := 16

  // ----- turning one column -----

  /** t[i] is s[i] times the i-th power of c. */
  ghost predicate Twisted(t: seq<int>, s: seq<int>, c: int, m: int, n: nat)
    requires m > 0
  {
    |t| >= n && |s| >= n && forall i :: 0 <= i < n ==> TwistedAt(t[i], s[i], c, i, m)
  }

  ghost predicate TwistedAt(t: int, s: int, c: int, i: nat, m: int)
    requires m > 0
  {
    0 <= t < 2 * m && Cong(t, s * Exp(c, i), m)
  }

  lemma {:induction false} TwistStep(a: Limb, c0: Limb, c: int, i: nat, t: int, m: Limb)
    requires m > 0 && Cong(c0, Exp(c, i), m) && t == a * c0 % m
    ensures TwistedAt(t, a, c, i, m)
  {
    hide Cong;
    CongMod(a * c0, m);
    CongSelf(a, m);
    CongMul(a, a, c0, Exp(c, i), m);
    CongTrans(t, a * c0, a * Exp(c, i), m);
  }

  lemma {:induction false} ProductSmall(a: int, c: int, m: int)
    requires Modulus(m) && 0 <= a < 2 * m && 0 <= c < 2 * m && (a < m || c < m)
    ensures 0 <= a * c < B * MOD_MIN
  {
    MulNonneg(a, c);
    if a < m {
      MulLe(a, MOD_MAX, c);
      MulLe(c, 2 * MOD_MAX, MOD_MAX);
    } else {
      MulLe(c, MOD_MAX, a);
      MulLe(a, 2 * MOD_MAX, MOD_MAX);
    }
    SmallProducts();
  }

  lemma {:induction false} SmallProducts()
    ensures 2 * MOD_MAX * MOD_MAX == B * MOD_MIN
  {
  }

  /** mul_trig: multiply n words by the powers of cMul. */
  method MulTrig(buf: array<Limb>, o: nat, n: nat, cMul: Limb, m: Limb, mInv: Limb)
    requires Modulus(m) && m > 0 && mInv == InitMulModFast(m) && cMul < m && o + n <= buf.Length
    requires Below(buf[o..o + n], 2 * m)
    modifies buf
    ensures SameOutside(old(buf[..]), buf[..], o, o + n)
    ensures Twisted(buf[o..o + n], old(buf[o..o + n]), cMul, m, n)
  {
    ghost var s := buf[o..o + n];
    ghost var before := buf[..];
    assert m < MOD_MAX;
    hide Cong, Modulus, Exp, InitMulModFast, InitMulModFast2, TwistedAt;
    var c0: Limb := 1;
    var prepared := Prepare(cMul, m);
    ExpOne(cMul);
    CongSelf(1, m);
    for i := 0 to n
      invariant SameOutside(before, buf[..], o, o + n)
      invariant c0 < m && Cong(c0, Exp(cMul, i), m)
      invariant forall j :: i <= j < n ==> buf[o + j] == s[j]
      invariant forall j {:trigger s[j]} :: 0 <= j < i ==> TwistedAt(buf[o + j], s[j], cMul, j, m)
    {
      assert s[i] < 2 * m;
      ProductSmall(buf[o + i], c0, m);
      TwistStep(s[i], c0, cMul, i, s[i] * c0 % m, m);
      buf[o + i] := MulModFast(buf[o + i], c0, m, mInv);
      NextPower(c0, cMul, i, m);
      c0 := MulModFast2(c0, cMul, m, prepared.inv);
    }
    assert forall j :: 0 <= j < n ==> TwistedAt(buf[o..o + n][j], s[j], cMul, j, m);
  }

  // ----- one column -----

  /** v is entry r of column j of a partial transform: forward, the value of the column turned
      afterwards; inverse, the value of the column turned before. */
  ghost predicate Entry(v: int, x: seq<int>, p: nat, n1: nat, w1: int, w: int, inverse: nat, r: nat, j: nat, m: int)
    requires m > 0
  {
    && 0 <= v < 2 * m
    && (if inverse == 0 then Cong(v, Poly(Column(x, p, j, n1), Exp(w1, r)) * Exp(Exp(w, j), r), m)
        else Cong(v, Poly(TurnedColumn(x, p, j, n1, w), Exp(w1, r)), m))
  }

  ghost predicate Entries(t: seq<int>, x: seq<int>, p: nat, n1: nat, w1: int, w: int, inverse: nat, j: nat, m: int)
    requires m > 0
  {
    |t| == n1 && forall r :: 0 <= r < n1 ==> Entry(t[r], x, p, n1, w1, w, inverse, r, j, m)
  }

  /** A transform turned afterwards. */
  lemma {:induction false} ForwardColumn(t: seq<int>, y: seq<int>, c: int, x: seq<int>, p: nat, n1: nat, w1: int,
                                         w: int, j: nat, m: int)
    requires m > 0 && |t| == |y| == n1 && Cong(c, Exp(w, j), m)
    requires IsTransform(y, Column(x, p, j, n1), w1, m) && Twisted(t, y, c, m, n1)
    ensures Entries(t, x, p, n1, w1, w, 0, j, m)
  {
    hide Cong, Exp, Poly, Column;
    var col := Column(x, p, j, n1);
    forall r | 0 <= r < n1
      ensures Entry(t[r], x, p, n1, w1, w, 0, r, j, m)
    {
      assert ValueAt(y, col, w1, r, m) && TwistedAt(t[r], y[r], c, r, m);
      ExpCong(c, Exp(w, j), r, m);
      CongMul(y[r], Poly(col, Exp(w1, r)), Exp(c, r), Exp(Exp(w, j), r), m);
      CongTrans(t[r], y[r] * Exp(c, r), Poly(col, Exp(w1, r)) * Exp(Exp(w, j), r), m);
    }
  }

  /** A transform of a column turned before. */
  lemma {:induction false} InverseColumn(t: seq<Limb>, y: seq<int>, c: int, x: seq<int>, p: nat, n1: nat, w1: int,
                                         w: int, j: nat, m: int)
    requires m > 0 && |t| == |y| == n1 && Cong(c, Exp(w, j), m) && Below(t, 2 * m)
    requires Twisted(y, Column(x, p, j, n1), c, m, n1) && IsTransform(t, y, w1, m)
    ensures Entries(t, x, p, n1, w1, w, 1, j, m)
  {
    hide Cong, Exp, Poly, Cell;
    var col, d := Column(x, p, j, n1), TurnedColumn(x, p, j, n1, w);
    forall r | 0 <= r < n1
      ensures Cong(y[r], d[r], m)
    {
      assert TwistedAt(y[r], col[r], c, r, m);
      ExpCong(c, Exp(w, j), r, m);
      CongSelf(col[r], m);
      CongMul(col[r], col[r], Exp(c, r), Exp(Exp(w, j), r), m);
      CongTrans(y[r], col[r] * Exp(c, r), d[r], m);
    }
    forall r | 0 <= r < n1
      ensures Entry(t[r], x, p, n1, w1, w, 1, r, j, m)
    {
      assert ValueAt(t, y, w1, r, m);
      PolyCong(y, d, Exp(w1, r), m);
      CongTrans(t[r], Poly(y, Exp(w1, r)), Poly(d, Exp(w1, r)), m);
    }
  }

  /** One column in its segment: turned and transformed, or transformed and turned. */
  method TransformColumn(s: NttState, buf: array<Limb>, o: nat, tmp: array<Limb>, n1: nat, k1: nat, inverse: nat,
                         mIdx: nat, cMul: Limb, ghost x: seq<int>, ghost p: nat, ghost j: nat, ghost w: int)
    requires s.Valid() && mIdx < |s.fields| && inverse < 2 && 1 <= k1 <= NTT_TRIG_K_MAX && n1 == Pow2(k1)
    requires buf != tmp && o + n1 <= buf.Length && n1 <= tmp.Length
    requires s.fields[mIdx].m > 0 && cMul < s.fields[mIdx].m && Cong(cMul, Exp(w, j), s.fields[mIdx].m)
    requires Below(buf[o..o + n1], 2 * s.fields[mIdx].m) && buf[o..o + n1] == Column(x, p, j, n1)
    modifies s, buf, tmp
    ensures s.Valid()
    ensures SameOutside(old(buf[..]), buf[..], o, o + n1)
    ensures Entries(buf[o..o + n1], x, p, n1, s.fields[mIdx].proot[inverse][k1].value, w, inverse, j, s.fields[mIdx].m)
  {
    var f := s.fields[mIdx];
    var m := f.m;
    assert Modulus(m) && f.mInv == InitMulModFast(m) && 0 < m < MOD_MAX;
    ghost var w1 := f.proot[inverse][k1].value;
    ghost var before := buf[..];
    hide Modulus, Cong, Pow2, Exp, Below, IsTransform, Twisted, SameOutside, Entries, InitMulModFast, Column;
    if inverse != 0 {
      MulTrig(buf, o, n1, cMul, m, f.mInv);
      TwistedBelow(buf[o..o + n1], Column(x, p, j, n1), cMul, m, n1);
    }
    ghost var mid, y := buf[..], buf[o..o + n1];
    var ok := NttFft(s, buf, o, tmp, k1, inverse, mIdx);
    ghost var t, late := buf[o..o + n1], buf[..];
    StoreNothing(before, o, o + n1);
    if inverse == 0 {
      MulTrig(buf, o, n1, cMul, m, f.mInv);
      ForwardColumn(buf[o..o + n1], t, cMul, x, p, n1, w1, w, j, m);
      SameChain(before, late, buf[..], o, o + n1, o, o + n1, o, o + n1);
    } else {
      InverseColumn(t, y, cMul, x, p, n1, w1, w, j, m);
      SameChain(before, mid, buf[..], o, o + n1, o, o + n1, o, o + n1);
    }
  }

  lemma {:induction false} TwistedBelow(t: seq<Limb>, s: seq<int>, c: int, m: int, n: nat)
    requires m > 0 && |t| == n && Twisted(t, s, c, m, n)
    ensures Below(t, 2 * m)
  {
    forall i | 0 <= i < n
      ensures t[i] < 2 * m
    {
      assert TwistedAt(t[i], s[i], c, i, m);
    }
  }

  // ----- copying a strip -----

  /** Storing one cell changes no other. */
  lemma {:induction false} CellStore(s: seq<Limb>, p: nat, i: nat, r: nat, v: Limb, i': nat, r': nat)
    requires r < p && r' < p && Index(p, i, r) < |s|
    ensures Cell(s[Index(p, i, r) := v], p, i', r') == if i == i' && r == r' then v else Cell(s, p, i', r')
  {
    if Index(p, i, r) == Index(p, i', r') {
      SameIndex(p, i, r, i', r');
    }
  }

  lemma {:induction false} SameIndex(p: nat, i: nat, r: nat, i': nat, r': nat)
    requires r < p && r' < p && Index(p, i, r) == Index(p, i', r')
    ensures i == i' && r == r'
  {
    DivModUnique(Index(p, i, r), p, i, r);
    DivModUnique(Index(p, i, r), p, i', r');
  }

  lemma {:induction false} IndexFits(p: nat, n1: nat, i: nat, r: nat)
    requires i < n1 && r < p
    ensures Index(p, i, r) < n1 * p
  {
    Distrib(i, 1, p);
    MulLe(i + 1, n1, p);
  }

  lemma {:induction false} CellIs(s: seq<int>, p: nat, n1: nat, i: nat, r: nat)
    requires i < n1 && r < p && |s| == n1 * p
    ensures Index(p, i, r) < |s| && Cell(s, p, i, r) == s[Index(p, i, r)]
  {
    IndexFits(p, n1, i, r);
  }

  /** Entry i of segment l is entry i of column j + l. */
  ghost predicate CopiedAt(b: seq<int>, x: seq<int>, n1: nat, n2: nat, j: nat, i: nat, l: nat) {
    Cell(b, n1, l, i) == Cell(x, n2, i, j + l)
  }

  /** Copied so far: rows before i, and the first l entries of row i. */
  ghost predicate Gathered(b: seq<int>, x: seq<int>, n1: nat, n2: nat, j: nat, i: nat, l: nat) {
    forall i', l' :: 0 <= i' < n1 && 0 <= l' < STRIP_LEN && (i' < i || (i' == i && l' < l)) ==>
      CopiedAt(b, x, n1, n2, j, i', l')
  }

  lemma {:induction false} GatherStep(b: seq<Limb>, x: seq<int>, n1: nat, n2: nat, j: nat, i: nat, l: nat, v: Limb)
    requires Gathered(b, x, n1, n2, j, i, l) && i < n1 && l < STRIP_LEN && |b| == STRIP_LEN * n1
    requires v == Cell(x, n2, i, j + l)
    ensures Index(n1, l, i) < |b|
    ensures Gathered(b[Index(n1, l, i) := v], x, n1, n2, j, i, l + 1)
  {
    hide Cell, Index;
    IndexFits(n1, STRIP_LEN, l, i);
    var b' := b[Index(n1, l, i) := v];
    forall i', l' | 0 <= i' < n1 && 0 <= l' < STRIP_LEN && (i' < i || (i' == i && l' < l + 1))
      ensures CopiedAt(b', x, n1, n2, j, i', l')
    {
      CellStore(b, n1, l, i, v, l', i');
      if i' < i || l' < l {
        assert CopiedAt(b, x, n1, n2, j, i', l');
      }
    }
  }

  lemma {:induction false} NextGather(b: seq<int>, x: seq<int>, n1: nat, n2: nat, j: nat, i: nat)
    requires Gathered(b, x, n1, n2, j, i, STRIP_LEN)
    ensures Gathered(b, x, n1, n2, j, i + 1, 0)
  {
  }

  lemma {:induction false} GatherStart(b: seq<int>, x: seq<int>, n1: nat, n2: nat, j: nat)
    ensures Gathered(b, x, n1, n2, j, 0, 0)
  {
  }

  /** Columns j .. j + 15 into sixteen segments of the second buffer. */
  method Gather(buf2: array<Limb>, buf1: array<Limb>, off: nat, n1: nat, n2: nat, j: nat)
    requires buf1 != buf2 && buf2.Length == STRIP_LEN * n1 && off + n1 * n2 <= buf1.Length && j + STRIP_LEN <= n2
    modifies buf2
    ensures Gathered(buf2[..], buf1[off..off + n1 * n2], n1, n2, j, n1, 0)
  {
    hide Cell, Index, Gathered;
    ghost var n := n1 * n2;
    ghost var x := buf1[off..off + n];
    GatherStart(buf2[..], x, n1, n2, j);
    for i := 0 to n1
      invariant Gathered(buf2[..], x, n1, n2, j, i, 0)
    {
      for l := 0 to STRIP_LEN
        invariant Gathered(buf2[..], x, n1, n2, j, i, l)
      {
        CellIs(x, n2, n1, i, j + l);
        SliceOf(buf1, off, n);
        InSlice(buf1[..], off, n, Index(n2, i, j + l));
        ghost var b := buf2[..];
        var v := buf1[off + i * n2 + (j + l)];
        GatherStep(b, x, n1, n2, j, i, l, v);
        buf2[i + l * n1] := v;
        assert buf2[..] == b[Index(n1, l, i) := v];
      }
      NextGather(buf2[..], x, n1, n2, j, i);
    }
  }

  /** Cell (i, c) after the strip from column j on was copied back from b up to row i', entry l. */
  ghost predicate ScatteredAt(y: seq<int>, b: seq<int>, x: seq<int>, n1: nat, n2: nat, j: nat, i: nat, l: nat, i': nat,
                              c: nat)
  {
    Cell(y, n2, i', c) ==
    if j <= c < j + STRIP_LEN && (i' < i || (i' == i && c - j < l)) then Cell(b, n1, c - j, i') else Cell(x, n2, i', c)
  }

  ghost predicate Scattered(y: seq<int>, b: seq<int>, x: seq<int>, n1: nat, n2: nat, j: nat, i: nat, l: nat) {
    forall i', c :: 0 <= i' < n1 && 0 <= c < n2 ==> ScatteredAt(y, b, x, n1, n2, j, i, l, i', c)
  }

  lemma {:induction false} ScatterStep(y: seq<Limb>, b: seq<int>, x: seq<int>, n1: nat, n2: nat, j: nat, i: nat, l: nat,
                                       v: Limb)
    requires Scattered(y, b, x, n1, n2, j, i, l) && i < n1 && l < STRIP_LEN && j + STRIP_LEN <= n2 && |y| == n1 * n2
    requires v == Cell(b, n1, l, i)
    ensures Index(n2, i, j + l) < |y|
    ensures Scattered(y[Index(n2, i, j + l) := v], b, x, n1, n2, j, i, l + 1)
  {
    hide Cell, Index;
    IndexFits(n2, n1, i, j + l);
    var y', next := y[Index(n2, i, j + l) := v], l + 1;
    forall i', c | 0 <= i' < n1 && 0 <= c < n2
      ensures ScatteredAt(y', b, x, n1, n2, j, i, next, i', c)
    {
      CellStore(y, n2, i, j + l, v, i', c);
      assert ScatteredAt(y, b, x, n1, n2, j, i, l, i', c);
    }
  }

  lemma {:induction false} NextScatter(y: seq<int>, b: seq<int>, x: seq<int>, n1: nat, n2: nat, j: nat, i: nat)
    requires Scattered(y, b, x, n1, n2, j, i, STRIP_LEN)
    ensures Scattered(y, b, x, n1, n2, j, i + 1, 0)
  {
    var next := i + 1;
    forall i', c | 0 <= i' < n1 && 0 <= c < n2
      ensures ScatteredAt(y, b, x, n1, n2, j, next, 0, i', c)
    {
      assert ScatteredAt(y, b, x, n1, n2, j, i, STRIP_LEN, i', c);
    }
  }

  lemma {:induction false} ScatterStart(b: seq<int>, x: seq<int>, n1: nat, n2: nat, j: nat)
    ensures Scattered(x, b, x, n1, n2, j, 0, 0)
  {
  }

  lemma {:induction false} SliceStore(s: seq<Limb>, off: nat, n: nat, q: nat, v: Limb)
    requires off + n <= |s| && q < n
    ensures s[off + q := v][off..off + n] == s[off..off + n][q := v]
    ensures SameOutside(s, s[off + q := v], off, off + n)
  {
  }

  /** The sixteen segments back into columns j .. j + 15. */
  method Scatter(buf1: array<Limb>, off: nat, buf2: array<Limb>, n1: nat, n2: nat, j: nat)
    requires buf1 != buf2 && buf2.Length == STRIP_LEN * n1 && off + n1 * n2 <= buf1.Length && j + STRIP_LEN <= n2
    modifies buf1
    ensures SameOutside(old(buf1[..]), buf1[..], off, off + n1 * n2)
    ensures Scattered(buf1[off..off + n1 * n2], buf2[..], old(buf1[off..off + n1 * n2]), n1, n2, j, n1, 0)
  {
    hide Cell, Index, Scattered, SameOutside;
    ghost var n := n1 * n2;
    ghost var x, before := buf1[off..off + n], buf1[..];
    ScatterStart(buf2[..], x, n1, n2, j);
    StoreNothing(before, off, off + n);
    for i := 0 to n1
      invariant SameOutside(before, buf1[..], off, off + n)
      invariant Scattered(buf1[off..off + n], buf2[..], x, n1, n2, j, i, 0)
    {
      for l := 0 to STRIP_LEN
        invariant SameOutside(before, buf1[..], off, off + n)
        invariant Scattered(buf1[off..off + n], buf2[..], x, n1, n2, j, i, l)
      {
        CellIs(buf2[..], n1, STRIP_LEN, l, i);
        ghost var s := buf1[..];
        var v := buf2[i + l * n1];
        ScatterStep(buf1[off..off + n], buf2[..], x, n1, n2, j, i, l, v);
        buf1[off + i * n2 + (j + l)] := v;
        ghost var q := Index(n2, i, j + l);
        SliceStore(s, off, n, q, v);
        assert buf1[..] == s[off + q := v];
        SliceOf(buf1, off, n);
        SameChain(before, s, buf1[..], off, off + n, off, off + n, off, off + n);
      }
      NextScatter(buf1[off..off + n], buf2[..], x, n1, n2, j, i);
    }
  }

  // ----- the columns of a strip -----

  /** Segment l of b, entry by entry. */
  ghost function Segment(b: seq<Limb>, n1: nat, l: nat): (t: seq<Limb>)
    requires Index(n1, l, 0) + n1 <= |b|
  {
    b[Index(n1, l, 0)..Index(n1, l, 0) + n1]
  }

  lemma {:induction false} SegmentFits(n1: nat, l: nat)
    requires l < STRIP_LEN
    ensures Index(n1, l, 0) + n1 <= STRIP_LEN * n1
  {
    Distrib(l, 1, n1);
    MulLe(l + 1, STRIP_LEN, n1);
  }

  /** The state of segment l' when the first l columns of the strip are transformed. */
  ghost predicate StripAt(b: seq<Limb>, x: seq<int>, p: nat, n1: nat, w1: int, w: int, inverse: nat, j: nat, l: nat,
                          l': nat, m: int)
    requires m > 0
  {
    && Index(n1, l', 0) + n1 <= |b|
    && (if l' < l then Entries(Segment(b, n1, l'), x, p, n1, w1, w, inverse, j + l', m)
        else Segment(b, n1, l') == Column(x, p, j + l', n1))
  }

  ghost predicate Strip(b: seq<Limb>, x: seq<int>, p: nat, n1: nat, w1: int, w: int, inverse: nat, j: nat, l: nat,
                        m: int)
    requires m > 0
  {
    |b| == STRIP_LEN * n1 && forall l' :: 0 <= l' < STRIP_LEN ==> StripAt(b, x, p, n1, w1, w, inverse, j, l, l', m)
  }

  lemma {:induction false} StripStart(b: seq<Limb>, x: seq<int>, p: nat, n1: nat, w1: int, w: int, inverse: nat, j: nat,
                                      m: int)
    requires m > 0 && |b| == STRIP_LEN * n1 && Gathered(b, x, n1, p, j, n1, 0)
    ensures Strip(b, x, p, n1, w1, w, inverse, j, 0, m)
  {
    hide Cell;
    forall l' | 0 <= l' < STRIP_LEN
      ensures StripAt(b, x, p, n1, w1, w, inverse, j, 0, l', m)
    {
      SegmentFits(n1, l');
      forall i | 0 <= i < n1
        ensures Segment(b, n1, l')[i] == Cell(x, p, i, j + l')
      {
        assert CopiedAt(b, x, n1, p, j, i, l');
        CellIs(b, n1, STRIP_LEN, l', i);
      }
    }
  }

  lemma {:induction false} StripStep(b: seq<Limb>, b': seq<Limb>, x: seq<int>, p: nat, n1: nat, w1: int, w: int,
                                     inverse: nat, j: nat, l: nat, m: int)
    requires m > 0 && l < STRIP_LEN && Strip(b, x, p, n1, w1, w, inverse, j, l, m)
    requires SameOutside(b, b', Index(n1, l, 0), Index(n1, l, 0) + n1)
    requires Index(n1, l, 0) + n1 <= |b'| && Entries(Segment(b', n1, l), x, p, n1, w1, w, inverse, j + l, m)
    ensures Strip(b', x, p, n1, w1, w, inverse, j, l + 1, m)
  {
    hide Entries, Column;
    var next := l + 1;
    forall l' | 0 <= l' < STRIP_LEN
      ensures StripAt(b', x, p, n1, w1, w, inverse, j, next, l', m)
    {
      SegmentFits(n1, l');
      assert StripAt(b, x, p, n1, w1, w, inverse, j, l, l', m);
      if l' != l {
        ApartSegments(n1, l, l');
        SameSlice(b, b', Index(n1, l, 0), Index(n1, l, 0) + n1, Index(n1, l', 0), Index(n1, l', 0) + n1);
      }
    }
  }

  lemma {:induction false} ApartSegments(n1: nat, l: nat, l': nat)
    requires l != l'
    ensures Index(n1, l', 0) + n1 <= Index(n1, l, 0) || Index(n1, l, 0) + n1 <= Index(n1, l', 0)
  {
    Distrib(l, 1, n1);
    Distrib(l', 1, n1);
    if l' < l {
      MulLe(l' + 1, l, n1);
    } else {
      MulLe(l + 1, l', n1);
    }
  }

  // ----- all columns -----

  /** Cell (r, c) when the columns before j are done. */
  ghost predicate ColumnAt(y: seq<int>, x: seq<int>, p: nat, n1: nat, w1: int, w: int, inverse: nat, j: nat, r: nat,
                           c: nat, m: int)
    requires m > 0
  {
    if c < j then Entry(Cell(y, p, r, c), x, p, n1, w1, w, inverse, r, c, m) else Cell(y, p, r, c) == Cell(x, p, r, c)
  }

  ghost predicate ColumnsDone(y: seq<int>, x: seq<int>, p: nat, n1: nat, w1: int, w: int, inverse: nat, j: nat, m: int)
    requires m > 0
  {
    forall r, c :: 0 <= r < n1 && 0 <= c < p ==> ColumnAt(y, x, p, n1, w1, w, inverse, j, r, c, m)
  }

  lemma {:induction false} ColumnsStart(x: seq<int>, p: nat, n1: nat, w1: int, w: int, inverse: nat, m: int)
    requires m > 0
    ensures ColumnsDone(x, x, p, n1, w1, w, inverse, 0, m)
  {
  }

  /** Columns not done yet are those of the input. */
  lemma {:induction false} ColumnsWaiting(y: seq<int>, x: seq<int>, p: nat, n1: nat, w1: int, w: int, inverse: nat,
                                          j: nat, b: seq<int>, m: int)
    requires m > 0 && ColumnsDone(y, x, p, n1, w1, w, inverse, j, m) && j + STRIP_LEN <= p
    requires Gathered(b, y, n1, p, j, n1, 0)
    ensures Gathered(b, x, n1, p, j, n1, 0)
  {
    hide Cell, Entry;
    forall i', l' | 0 <= i' < n1 && 0 <= l' < STRIP_LEN
      ensures CopiedAt(b, x, n1, p, j, i', l')
    {
      assert CopiedAt(b, y, n1, p, j, i', l');
      assert ColumnAt(y, x, p, n1, w1, w, inverse, j, i', j + l', m);
    }
  }

  /** A strip copied back completes its columns. */
  lemma {:induction false} ColumnsStep(y: seq<int>, y': seq<int>, b: seq<Limb>, x: seq<int>, p: nat, n1: nat, w1: int,
                                       w: int, inverse: nat, j: nat, m: int)
    requires m > 0 && ColumnsDone(y, x, p, n1, w1, w, inverse, j, m)
    requires Strip(b, x, p, n1, w1, w, inverse, j, STRIP_LEN, m) && Scattered(y', b, y, n1, p, j, n1, 0)
    ensures ColumnsDone(y', x, p, n1, w1, w, inverse, j + STRIP_LEN, m)
  {
    hide Cell, Entry;
    var next := j + STRIP_LEN;
    forall r, c | 0 <= r < n1 && 0 <= c < p
      ensures ColumnAt(y', x, p, n1, w1, w, inverse, next, r, c, m)
    {
      assert ScatteredAt(y', b, y, n1, p, j, n1, 0, r, c);
      assert ColumnAt(y, x, p, n1, w1, w, inverse, j, r, c, m);
      if j <= c < j + STRIP_LEN {
        assert StripAt(b, x, p, n1, w1, w, inverse, j, STRIP_LEN, c - j, m);
        CellIs(b, n1, STRIP_LEN, c - j, r);
        assert Entry(Segment(b, n1, c - j)[r], x, p, n1, w1, w, inverse, r, c, m);
      }
    }
  }

  /** The words of a done matrix are below twice the modulus, its columns what was asked for. */
  lemma {:induction false} ColumnsEnd(y: seq<Limb>, x: seq<int>, p: nat, n1: nat, w1: int, w: int, inverse: nat, m: int)
    requires m > 0 && ColumnsDone(y, x, p, n1, w1, w, inverse, p, m) && |y| == n1 * p
    ensures Below(y, 2 * m)
    ensures inverse == 0 ==> Turned(y, x, p, n1, w1, w, m)
    ensures inverse != 0 ==> TurnedBack(y, x, p, n1, w1, w, m)
  {
    hide Cell, Cong, Poly, Exp;
    forall r, c | 0 <= r < n1 && 0 <= c < p
      ensures Entry(Cell(y, p, r, c), x, p, n1, w1, w, inverse, r, c, m)
    {
      assert ColumnAt(y, x, p, n1, w1, w, inverse, p, r, c, m);
    }
    forall q | 0 <= q < |y|
      ensures y[q] < 2 * m
    {
      RowOfIndex(p, n1, q);
      CellIs(y, p, n1, q / p, q % p);
      assert Entry(Cell(y, p, q / p, q % p), x, p, n1, w1, w, inverse, q / p, q % p, m);
    }
  }

  lemma {:induction false} RowOfIndex(p: nat, n1: nat, q: nat)
    requires q < n1 * p
    ensures p > 0 && 0 <= q / p < n1 && 0 <= q % p < p && Index(p, q / p, q % p) == q
  {
    if p == 0 {
      assert false;
    }
    DivMod(q, p);
    if q / p >= n1 {
      MulLe(n1, q / p, p);
      assert false;
    }
  }

  /** The words not done yet are below twice the modulus like those of the input. */
  lemma {:induction false} SegmentBelow(b: seq<Limb>, x: seq<Limb>, p: nat, n1: nat, w1: int, w: int, inverse: nat,
                                        j: nat, l: nat, m: int)
    requires m > 0 && l < STRIP_LEN && j + l < p && |x| == n1 * p && Below(x, 2 * m)
    requires Strip(b, x, p, n1, w1, w, inverse, j, l, m)
    ensures Index(n1, l, 0) + n1 <= |b|
    ensures Segment(b, n1, l) == Column(x, p, j + l, n1) && Below(Segment(b, n1, l), 2 * m)
  {
    hide Cell;
    assert StripAt(b, x, p, n1, w1, w, inverse, j, l, l, m);
    forall i | 0 <= i < n1
      ensures Segment(b, n1, l)[i] < 2 * m
    {
      CellIs(x, p, n1, i, j + l);
    }
  }

  lemma {:induction false} NextRoot(c: Limb, c0: int, w: int, j: nat, m: Limb)
    requires m > 0 && Cong(c, Exp(w, j), m) && c0 == w
    ensures Cong(c * c0 % m, Exp(w, j + 1), m) && 0 <= c * c0 % m < m
  {
    NextPower(c, w, j, m);
    CongMod(c * c0, m);
  }

  /** The sixteen columns of one strip, each with its power of the root. */
  method TransformStrip(s: NttState, buf2: array<Limb>, buf3: array<Limb>, n1: nat, k1: nat, inverse: nat, mIdx: nat,
                        c0: Limb, cIn: Limb, ghost x: seq<Limb>, ghost p: nat, ghost j: nat)
      returns (cMul: Limb)
    requires s.Valid() && mIdx < |s.fields| && inverse < 2 && 1 <= k1 <= NTT_TRIG_K_MAX && n1 == Pow2(k1)
    requires buf2 != buf3 && buf2.Length == STRIP_LEN * n1 && buf3.Length == n1 && j + STRIP_LEN <= p
    requires s.fields[mIdx].m > 0 && c0 < s.fields[mIdx].m && cIn < s.fields[mIdx].m
    requires Cong(cIn, Exp(c0, j), s.fields[mIdx].m)
    requires |x| == n1 * p && Below(x, 2 * s.fields[mIdx].m) && Gathered(buf2[..], x, n1, p, j, n1, 0)
    modifies s, buf2, buf3
    ensures s.Valid()
    ensures cMul < s.fields[mIdx].m && Cong(cMul, Exp(c0, j + STRIP_LEN), s.fields[mIdx].m)
    ensures Strip(buf2[..], x, p, n1, s.fields[mIdx].proot[inverse][k1].value, c0, inverse, j, STRIP_LEN,
                  s.fields[mIdx].m)
  {
    var f := s.fields[mIdx];
    var m := f.m;
    assert Modulus(m) && f.mInv == InitMulModFast(m) && 0 < m < MOD_MAX;
    ghost var w1 := f.proot[inverse][k1].value;
    hide Cong, Exp, Pow2, Cell, Column, Strip, Gathered, Entries, Below, SameOutside, Modulus, InitMulModFast;
    StripStart(buf2[..], x, p, n1, w1, c0, inverse, j, m);
    cMul := cIn;
    for l := 0 to STRIP_LEN
      invariant s.Valid()
      invariant cMul < m && Cong(cMul, Exp(c0, j + l), m)
      invariant Strip(buf2[..], x, p, n1, w1, c0, inverse, j, l, m)
    {
      ghost var b := buf2[..];
      SegmentBelow(b, x, p, n1, w1, c0, inverse, j, l, m);
      ghost var o := Index(n1, l, 0);
      SliceOf(buf2, o, n1);
      TransformColumn(s, buf2, l * n1, buf3, n1, k1, inverse, mIdx, cMul, x, p, j + l, c0);
      SliceOf(buf2, o, n1);
      StripStep(b, buf2[..], x, p, n1, w1, c0, inverse, j, l, m);
      ReadySmall(cMul, c0, m);
      NextRoot(cMul, c0, c0, j + l, m);
      cMul := MulModFast(cMul, c0, m, f.mInv);
    }
  }

  lemma {:induction false} ReadySmall(a: Limb, c: Limb, m: Limb)
    requires Modulus(m) && a < m && c < m
    ensures a * c < B * MOD_MIN
  {
    ProductSmall(a, c, m);
  }

  // ----- the partial transform -----

  /** The transforms of all columns, the other entry for each: one long transform when there is only
      one column. */
  ghost predicate PartialDone(y: seq<int>, x: seq<int>, k1: nat, k2: nat, w1: int, w: int, inverse: nat, m: int)
    requires m > 0
  {
    if k2 == 0 then IsTransform(y, x, w1, m)
    else if inverse == 0 then Turned(y, x, Pow2(k2), Pow2(k1), w1, w, m)
    else TurnedBack(y, x, Pow2(k2), Pow2(k1), w1, w, m)
  }

  /** One strip: copied out, transformed and copied back. */
  method OneStrip(s: NttState, buf1: array<Limb>, off: nat, buf2: array<Limb>, buf3: array<Limb>, n1: nat, k1: nat,
                  n2: nat, inverse: nat, mIdx: nat, c0: Limb, cIn: Limb, j: nat, ghost x: seq<Limb>)
      returns (cMul: Limb)
    requires s.Valid() && mIdx < |s.fields| && inverse < 2 && 1 <= k1 <= NTT_TRIG_K_MAX && n1 == Pow2(k1)
    requires buf1 != buf2 && buf1 != buf3 && buf2 != buf3 && buf2.Length == STRIP_LEN * n1 && buf3.Length == n1
    requires off + n1 * n2 <= buf1.Length && j + STRIP_LEN <= n2 && |x| == n1 * n2
    requires s.fields[mIdx].m > 0 && c0 < s.fields[mIdx].m && cIn < s.fields[mIdx].m
    requires Cong(cIn, Exp(c0, j), s.fields[mIdx].m) && Below(x, 2 * s.fields[mIdx].m)
    requires ColumnsDone(buf1[off..off + n1 * n2], x, n2, n1, s.fields[mIdx].proot[inverse][k1].value, c0, inverse, j,
                         s.fields[mIdx].m)
    modifies s, buf1, buf2, buf3
    ensures s.Valid()
    ensures cMul < s.fields[mIdx].m && Cong(cMul, Exp(c0, j + STRIP_LEN), s.fields[mIdx].m)
    ensures SameOutside(old(buf1[..]), buf1[..], off, off + n1 * n2)
    ensures ColumnsDone(buf1[off..off + n1 * n2], x, n2, n1, s.fields[mIdx].proot[inverse][k1].value, c0, inverse,
                        j + STRIP_LEN, s.fields[mIdx].m)
  {
    ghost var m := s.fields[mIdx].m;
    ghost var w1, n := s.fields[mIdx].proot[inverse][k1].value, n1 * n2;
    hide Cong, Exp, Pow2, Strip, Gathered, Scattered, Below, SameOutside, ColumnsDone;
    ghost var y := buf1[off..off + n];
    Gather(buf2, buf1, off, n1, n2, j);
    ColumnsWaiting(y, x, n2, n1, w1, c0, inverse, j, buf2[..], m);
    cMul := TransformStrip(s, buf2, buf3, n1, k1, inverse, mIdx, c0, cIn, x, n2, j);
    Scatter(buf1, off, buf2, n1, n2, j);
    ColumnsStep(y, buf1[off..off + n], buf2[..], x, n2, n1, w1, c0, inverse, j, m);
  }

  ghost predicate Aligned(j: nat) {
    j % STRIP_LEN == 0
  }

  lemma {:induction false} NextStrip(j: nat, n2: nat)
    requires Aligned(j) && Aligned(n2) && j < n2
    ensures j + STRIP_LEN <= n2 && Aligned(j + STRIP_LEN)
  {
  }

  /** ntt_fft_partial with more than one column. */
  method TransformColumns(s: NttState, buf1: array<Limb>, off: nat, k1: nat, k2: nat, n1: nat, n2: nat, inverse: nat,
                          mIdx: nat, buf3: array<Limb>)
    requires s.Valid() && mIdx < |s.fields| && inverse < 2 && 1 <= k1 <= NTT_TRIG_K_MAX && 4 <= k2
    requires k1 + k2 <= NTT_PROOT_2EXP && n1 == Pow2(k1) && n2 == Pow2(k2) && off + n1 * n2 <= buf1.Length
    requires buf3 != buf1 && buf3.Length == n1
    requires s.fields[mIdx].m > 0 && Below(buf1[off..off + n1 * n2], 2 * s.fields[mIdx].m)
    modifies s, buf1, buf3
    ensures s.Valid()
    ensures SameOutside(old(buf1[..]), buf1[..], off, off + n1 * n2)
    ensures ColumnsDone(buf1[off..off + n1 * n2], old(buf1[off..off + n1 * n2]), n2, n1,
                        s.fields[mIdx].proot[inverse][k1].value, s.fields[mIdx].proot[inverse][k1 + k2].value, inverse,
                        n2, s.fields[mIdx].m)
  {
    hide NttState.Valid, Field.Valid, Cong, Exp, Pow2, Cell, Column, Strip, Gathered, Scattered, Below, SameOutside,
      Modulus, ColumnsDone, Root, Ready, Aligned;
    FieldOf(s, mIdx, inverse, k1);
    FieldOf(s, mIdx, inverse, k1 + k2);
    var f := s.fields[mIdx];
    ghost var m := f.m;
    var c0 := f.proot[inverse][k1 + k2].value;
    ghost var w1, n := f.proot[inverse][k1].value, n1 * n2;
    ghost var x, before := buf1[off..off + n], buf1[..];
    SixteenDivides(k2);
    var buf2 := new Limb[STRIP_LEN * n1](_ => 0);
    var cMul: Limb := 1;
    ExpOne(c0);
    CongSelf(1, m);
    StoreNothing(before, off, off + n);
    ColumnsStart(x, n2, n1, w1, c0, inverse, m);
    var j := 0;
    while j < n2
      invariant j <= n2 && Aligned(j)
      invariant s.Valid()
      invariant cMul < m && Cong(cMul, Exp(c0, j), m)
      invariant SameOutside(before, buf1[..], off, off + n)
      invariant ColumnsDone(buf1[off..off + n], x, n2, n1, w1, c0, inverse, j, m)
    {
      ghost var was := buf1[..];
      NextStrip(j, n2);
      cMul := OneStrip(s, buf1, off, buf2, buf3, n1, k1, n2, inverse, mIdx, c0, cMul, j, x);
      SameChain(before, was, buf1[..], off, off + n, off, off + n, off, off + n);
      j := j + STRIP_LEN;
    }
  }

  lemma {:induction false} SixteenDivides(k: nat)
    requires k >= 4
    ensures Aligned(Pow2(k)) && Aligned(0)
  {
    PowTwoSmall();
    Pow2Add(4, k - 4);
    var q := Pow2(k - 4);
    DivModUnique(Pow2(k), 16, q, 0);
  }
}
