/** The transform itself: passes of butterflies between two buffers. */
module NttTransform {
  import opened Arith
  import opened Limbs
  import opened LimbMul
  import opened LimbOps
  import opened Bits
  import opened ModWords
  import opened PolySums
  import opened NttTables
  import opened NttStage

  /** Every word of a section is below twice the modulus. */
  ghost predicate Below(s: seq<Limb>, m2: int) {
    forall i :: 0 <= i < |s| ==> s[i] < m2
  }

  /** Sum and difference of two words below 2m, by one prepared multiplier. */
  function Butterfly(a0: Limb, a1: Limb, c: Prepared, m: Limb): (b: (Limb, Limb))
    requires Modulus(m) && Ready(c, m) && a0 < 2 * m && a1 < 2 * m
    ensures b.0 < 2 * m && b.1 < 2 * m && Mixed(a0, a1, c.value, b.0, b.1, m)
  {
    var b0 := AddMod(a0, a1, 2 * m);
    var d: Limb := ((a0 - a1) % B + 2 * m) % B;
    var b1 := MulModFast3(d, c.value, m, c.inv);
    ButterflyMixes(a0, a1, c, m, b0, d, b1);
    (b0, b1)
  }

  lemma {:induction false} ButterflyMixes(a0: Limb, a1: Limb, c: Prepared, m: Limb, b0: Limb, d: Limb, b1: Limb)
    requires Modulus(m) && Ready(c, m) && a0 < 2 * m && a1 < 2 * m
    requires b0 == AddMod(a0, a1, 2 * m) && d == ((a0 - a1) % B + 2 * m) % B
    requires b1 == MulModFast3(d, c.value, m, c.inv)
    ensures Mixed(a0, a1, c.value, b0, b1, m)
  {
    hide Cong, AddMod, MulModFast3, InitMulModFast2;
    WrappedDifference(a0, a1, m);
    MixedSum(a0, a1, b0, m);
    MixedProduct(d, a0 - a1, c.value, b1, m);
  }

  lemma {:induction false} WrappedDifference(a0: int, a1: int, m: int)
    requires Modulus(m) && 0 <= a0 < 2 * m && 0 <= a1 < 2 * m
    ensures ((a0 - a1) % B + 2 * m) % B == a0 - a1 + 2 * m
  {
  }

  lemma {:induction false} MixedSum(a0: int, a1: int, b0: int, m: int)
    requires m > 0 && (b0 == a0 + a1 || b0 == a0 + a1 - 2 * m)
    ensures Cong(b0, a0 + a1, m)
  {
    CongFrom(b0, a0 + a1, m, if b0 == a0 + a1 then 0 else -2);
  }

  lemma {:induction false} MixedProduct(d: int, e: int, c: int, b1: int, m: int)
    requires m > 0 && d == e + 2 * m && (b1 == d * c % m || b1 == d * c % m + m)
    ensures Cong(b1, e * c, m)
  {
    hide Cong;
    CongMod(d * c, m);
    CongFrom(b1, d * c % m, m, if b1 == d * c % m then 0 else 1);
    CongTrans(b1, d * c % m, d * c, m);
    CongFrom(d, e, m, 2);
    CongSelf(c, m);
    CongMul(d, e, c, c, m);
    CongTrans(b1, d * c, e * c, m);
  }

  // ----- one block -----

  /** Entries p + i and p + f + i of t come from entries k + i and k + stride + i of s. */
  ghost predicate PairDone(s: seq<Limb>, t: seq<Limb>, k: nat, stride: nat, p: nat, f: nat, c: int, m: int, i: nat)
    requires m > 0
  {
    && k + stride + i < |s| && p + f + i < |t|
    && t[p + i] < 2 * m && t[p + f + i] < 2 * m
    && Mixed(s[k + i], s[k + stride + i], c, t[p + i], t[p + f + i], m)
  }

  ghost predicate BlockDone(s: seq<Limb>, t: seq<Limb>, k: nat, stride: nat, p: nat, f: nat, c: int, m: int, j: nat)
    requires m > 0
  {
    forall i :: 0 <= i < j ==> PairDone(s, t, k, stride, p, f, c, m, i)
  }

  ghost function TwoStores(t: seq<Limb>, i: nat, x: Limb, j: nat, y: Limb): seq<Limb>
    requires i < |t| && j < |t|
  {
    var t1: seq<Limb> := t[i := x];
    t1[j := y]
  }

  lemma {:induction false} BlockStep(s: seq<Limb>, t: seq<Limb>, k: nat, stride: nat, p: nat, f: nat, c: Prepared,
                                     m: Limb, j: nat)
    requires Modulus(m) && Ready(c, m) && j < f
    requires k + stride + j < |s| && p + 2 * f <= |t| && s[k + j] < 2 * m && s[k + stride + j] < 2 * m
    requires BlockDone(s, t, k, stride, p, f, c.value, m, j)
    ensures var b := Butterfly(s[k + j], s[k + stride + j], c, m);
            var t' := TwoStores(t, p + j, b.0, p + f + j, b.1);
            BlockDone(s, t', k, stride, p, f, c.value, m, j + 1) && SameOutside(t, t', p, p + 2 * f)
  {
    hide Mixed, Butterfly, Ready, Modulus;
    var b := Butterfly(s[k + j], s[k + stride + j], c, m);
    var t' := TwoStores(t, p + j, b.0, p + f + j, b.1);
    forall i | 0 <= i < j + 1
      ensures PairDone(s, t', k, stride, p, f, c.value, m, i)
    {
      if i < j {
        assert PairDone(s, t, k, stride, p, f, c.value, m, i);
      }
    }
  }

  /** The butterflies of one block: f words, all with the same multiplier. */
  method Block(tabOut: array<Limb>, p: nat, tabIn: array<Limb>, k: nat, stride: nat, f: nat, c: Prepared, m: Limb)
    requires tabOut != tabIn && p + 2 * f <= tabOut.Length && k + stride + f <= tabIn.Length
    requires f <= stride && Modulus(m) && Ready(c, m)
    requires forall i :: k <= i < k + f ==> tabIn[i] < 2 * m
    requires forall i :: k + stride <= i < k + stride + f ==> tabIn[i] < 2 * m
    modifies tabOut
    ensures SameOutside(old(tabOut[..]), tabOut[..], p, p + 2 * f)
    ensures BlockDone(tabIn[..], tabOut[..], k, stride, p, f, c.value, m, f)
  {
    assert m > 0;
    hide Mixed, Modulus, Ready, BlockDone, SameOutside, Butterfly;
    ghost var before := tabOut[..];
    BlockStart(tabIn[..], before, k, stride, p, f, c.value, m);
    for j := 0 to f
      invariant SameOutside(before, tabOut[..], p, p + 2 * f)
      invariant BlockDone(tabIn[..], tabOut[..], k, stride, p, f, c.value, m, j)
    {
      ghost var t := tabOut[..];
      var b := Butterfly(tabIn[k + j], tabIn[k + stride + j], c, m);
      tabOut[p + j] := b.0;
      tabOut[p + f + j] := b.1;
      BlockStep(tabIn[..], t, k, stride, p, f, c, m, j);
      assert tabOut[..] == TwoStores(t, p + j, b.0, p + f + j, b.1);
      SameChain(before, t, tabOut[..], p, p + 2 * f, p, p + 2 * f, p, p + 2 * f);
    }
  }

  lemma {:induction false} BlockStart(s: seq<Limb>, t: seq<Limb>, k: nat, stride: nat, p: nat, f: nat, c: int, m: int)
    requires m > 0
    ensures BlockDone(s, t, k, stride, p, f, c, m, 0) && SameOutside(t, t, p, p + 2 * f)
  {
  }

  // ----- one pass -----

  lemma {:induction false} RowFits(i: int, h: int, f: int)
    requires 0 <= i < h && f >= 1
    ensures (i + 1) * f == i * f + f && 0 <= i * f && i * f + f <= h * f
    ensures (i + h) * f == i * f + h * f && (2 * i) * f == 2 * (i * f) && (2 * i + 1) * f == 2 * (i * f) + f
  {
    Distrib(i, 1, f);
    Distrib(i, h, f);
    Distrib(2 * i, 1, f);
    Assoc(2, i, f);
    MulLe(i + 1, h, f);
    MulNonneg(i, f);
  }

  /** The rows written so far, of n words from po on, and everything before them below 2m. */
  ghost predicate RowsDone(s: seq<int>, t: seq<int>, f: nat, h: nat, u: int, m: int, i: nat)
    requires m > 0
  {
    && (forall j, r :: 0 <= j < i && 0 <= r < f ==> RowPair(s, t, f, h, u, j, r, m))
    && (forall q :: 0 <= q < 2 * Index(f, i, 0) && q < |t| ==> t[q] < 2 * m)
  }

  /** A finished block is two finished rows. */
  lemma {:induction false} BlockIsRows(s: seq<Limb>, t: seq<Limb>, ko: nat, po: nat, n: nat, f: nat, h: nat, u: int,
                                       c: Prepared, m: Limb, i: nat, r: nat)
    requires m > 0 && f >= 1 && i < h && r < f && n == 2 * (h * f) && ko + n <= |s| && po + n <= |t|
    requires TrigEntry(c, u, i, m)
    requires PairDone(s, t, ko + Index(f, i, 0), Index(f, h, 0), po + 2 * Index(f, i, 0), f, c.value, m, r)
    ensures RowPair(s[ko..ko + n], t[po..po + n], f, h, u, i, r, m)
  {
    hide Cong, Ready, Exp;
    var x, y := s[ko..ko + n], t[po..po + n];
    BlockCells(s, t, ko, po, n, f, h, i, r);
    ScaleCong(Cell(y, f, 2 * i + 1, r), Cell(x, f, i, r) - Cell(x, f, i + h, r), c.value, Exp(u, i), m);
  }

  /** The four cells a butterfly connects, in the buffers. */
  lemma {:induction false} BlockCells(s: seq<Limb>, t: seq<Limb>, ko: nat, po: nat, n: nat, f: nat, h: nat, i: nat,
                                      r: nat)
    requires f >= 1 && i < h && r < f && n == 2 * (h * f) && ko + n <= |s| && po + n <= |t|
    ensures var k := Index(f, i, 0);
            && ko + k + Index(f, h, 0) + r < |s| && po + 2 * k + f + r < |t|
            && Cell(s[ko..ko + n], f, i, r) == s[ko + k + r]
            && Cell(s[ko..ko + n], f, i + h, r) == s[ko + k + Index(f, h, 0) + r]
            && Cell(t[po..po + n], f, 2 * i, r) == t[po + 2 * k + r]
            && Cell(t[po..po + n], f, 2 * i + 1, r) == t[po + 2 * k + f + r]
  {
    RowFits(i, h, f);
    var k, g := i * f, h * f;
    InSlice(s, ko, n, k + r);
    InSlice(s, ko, n, k + g + r);
    InSlice(t, po, n, 2 * k + r);
    InSlice(t, po, n, 2 * k + f + r);
  }

  lemma {:induction false} InSlice(s: seq<Limb>, o: nat, n: nat, j: nat)
    requires o + n <= |s| && j < n
    ensures s[o..o + n][j] == s[o + j]
  {
  }

  lemma {:induction false} ScaleCong(b: int, a: int, c: int, e: int, m: int)
    requires m > 0 && Cong(b, a * c, m) && Cong(c, e, m)
    ensures Cong(b, a * e, m)
  {
    hide Cong;
    CongSelf(a, m);
    CongMul(a, a, c, e, m);
    CongTrans(b, a * c, a * e, m);
  }

  /** Rows finished earlier are not touched by a later block. */
  lemma {:induction false} RowKept(s: seq<int>, t: seq<int>, t': seq<int>, f: nat, h: nat, u: int, m: int, i: nat,
                                   j: nat, r: nat)
    requires m > 0 && f >= 1 && j < i <= h && r < f && |t| == |t'|
    requires forall q :: 0 <= q < 2 * (i * f) && q < |t| ==> t'[q] == t[q]
    requires RowPair(s, t, f, h, u, j, r, m)
    ensures RowPair(s, t', f, h, u, j, r, m)
  {
    hide Mixed, Exp;
    RowFits(j, i, f);
    assert Cell(t', f, 2 * j, r) == Cell(t, f, 2 * j, r);
    assert Cell(t', f, 2 * j + 1, r) == Cell(t, f, 2 * j + 1, r);
  }

  /** One more block, two more rows. */
  lemma {:induction false} RowsStep(s: seq<Limb>, t0: seq<Limb>, t: seq<Limb>, ko: nat, po: nat, n: nat, f: nat, h: nat,
                                    u: int, c: Prepared, m: Limb, i: nat)
    requires m > 0 && f >= 1 && i < h && n == 2 * (h * f) && ko + n <= |s| && po + n <= |t0| && |t0| == |t|
    requires TrigEntry(c, u, i, m) && RowsDone(s[ko..ko + n], t0[po..po + n], f, h, u, m, i)
    requires SameOutside(t0, t, po + 2 * Index(f, i, 0), po + 2 * Index(f, i, 0) + 2 * f)
    requires BlockDone(s, t, ko + Index(f, i, 0), Index(f, h, 0), po + 2 * Index(f, i, 0), f, c.value, m, f)
    ensures RowsDone(s[ko..ko + n], t[po..po + n], f, h, u, m, i + 1)
  {
    hide TrigEntry, RowPair, PairDone;
    var x, y0, y := s[ko..ko + n], t0[po..po + n], t[po..po + n];
    RowFits(i, h, f);
    forall j, r | 0 <= j < i + 1 && 0 <= r < f
      ensures RowPair(x, y, f, h, u, j, r, m)
    {
      if j < i {
        RowKept(x, y0, y, f, h, u, m, i, j, r);
      } else {
        BlockIsRows(s, t, ko, po, n, f, h, u, c, m, i, r);
      }
    }
    forall q | 0 <= q < 2 * Index(f, i + 1, 0) && q < |y|
      ensures y[q] < 2 * m
    {
      if q < 2 * (i * f) {
        assert y[q] == y0[q];
      } else {
        RowWords(s, t, ko + Index(f, i, 0), Index(f, h, 0), po + 2 * Index(f, i, 0), f, c.value, m, q - 2 * (i * f));
      }
    }
  }

  lemma {:induction false} RowWords(s: seq<Limb>, t: seq<Limb>, k: nat, stride: nat, p: nat, f: nat, c: int, m: int,
                                    q: nat)
    requires m > 0 && q < 2 * f && BlockDone(s, t, k, stride, p, f, c, m, f)
    ensures p + q < |t| && t[p + q] < 2 * m
  {
    hide Mixed;
    if q < f {
      assert PairDone(s, t, k, stride, p, f, c, m, q);
    } else {
      assert PairDone(s, t, k, stride, p, f, c, m, q - f);
    }
  }

  lemma {:induction false} RowsStart(s: seq<int>, t: seq<int>, f: nat, h: nat, u: int, m: int)
    requires m > 0
    ensures RowsDone(s, t, f, h, u, m, 0)
  {
  }

  lemma {:induction false} RowsEnd(s: seq<int>, t: seq<Limb>, f: nat, h: nat, u: int, m: int)
    requires m > 0 && RowsDone(s, t, f, h, u, m, h) && |t| == 2 * (h * f)
    ensures Stage(s, t, f, h, u, m) && Below(t, 2 * m)
  {
  }

  lemma {:induction false} BelowAt(s: seq<Limb>, ko: nat, n: nat, m2: int, i: nat)
    requires ko + n <= |s| && Below(s[ko..ko + n], m2) && i < n
    ensures s[ko + i] < m2
  {
    assert s[ko..ko + n][i] == s[ko + i];
  }

  /** One pass over the h blocks of f words each; the words from po on come from the words from ko on. */
  method Pass(tabOut: array<Limb>, po: nat, tabIn: array<Limb>, ko: nat, n: nat, h: nat, f: nat, trig: seq<Prepared>,
              m: Limb, ghost u: int)
    requires tabOut != tabIn && f >= 1 && n == 2 * (h * f)
    requires po + n <= tabOut.Length && ko + n <= tabIn.Length
    requires Modulus(m) && |trig| == h && forall i :: 0 <= i < h ==> TrigEntry(trig[i], u, i, m)
    requires Below(tabIn[ko..ko + n], 2 * m)
    modifies tabOut
    ensures SameOutside(old(tabOut[..]), tabOut[..], po, po + n)
    ensures Below(tabOut[po..po + n], 2 * m)
    ensures Stage(tabIn[ko..ko + n], tabOut[po..po + n], f, h, u, m)
  {
    assert m > 0;
    hide Modulus, TrigEntry, RowsDone, Stage, SameOutside, BlockDone, Below, Index;
    ghost var before := tabOut[..];
    var stride := h * f;
    var p, k := 0, 0;
    StoreNothing(before, po, po + n);
    RowsStart(tabIn[ko..ko + n], tabOut[po..po + n], f, h, u, m);
    for i := 0 to h
      invariant k == i * f && p == 2 * k
      invariant SameOutside(before, tabOut[..], po, po + n)
      invariant RowsDone(tabIn[ko..ko + n], tabOut[po..po + n], f, h, u, m, i)
    {
      RowFits(i, h, f);
      ghost var t := tabOut[..];
      forall j | ko <= j < ko + n
        ensures tabIn[j] < 2 * m
      {
        SliceOf(tabIn, ko, n);
        BelowAt(tabIn[..], ko, n, 2 * m, j - ko);
      }
      TrigReady(trig[i], u, i, m);
      Block(tabOut, po + p, tabIn, ko + k, stride, f, trig[i], m);
      SliceOf(tabIn, ko, n);
      RowsStep(tabIn[..], t, tabOut[..], ko, po, n, f, h, u, trig[i], m, i);
      SliceOf(tabOut, po, n);
      SameChain(before, t, tabOut[..], po, po + n, po, po + n, po + p, po + p + 2 * f);
      k := k + f;
      p := p + 2 * f;
    }
    RowsEnd(tabIn[ko..ko + n], tabOut[po..po + n], f, h, u, m);
  }

  lemma {:induction false} StoreNothing(s: seq<Limb>, lo: nat, hi: nat)
    ensures SameOutside(s, s, lo, hi)
  {
  }

  lemma {:induction false} TrigReady(c: Prepared, u: int, i: nat, m: Limb)
    requires m > 0 && TrigEntry(c, u, i, m)
    ensures Ready(c, m)
  {
  }

  lemma {:induction false} SliceOf(a: array<Limb>, o: nat, n: nat)
    requires o + n <= a.Length
    ensures a[..][o..o + n] == a[o..o + n]
  {
  }

  // ----- the last pass -----

  ghost predicate LastPair(s: seq<Limb>, t: seq<Limb>, o: nat, stride: nat, m: int, r: nat)
    requires m > 0 && |s| == 2 * stride && r < stride
  {
    && o + stride + r < |t| && t[o + r] < 2 * m && t[o + stride + r] < 2 * m
    && Mixed(s[r], s[r + stride], 1, t[o + r], t[o + stride + r], m)
  }

  /** The first j pairs of the output are done. */
  ghost predicate LastDone(s: seq<Limb>, t: seq<Limb>, o: nat, stride: nat, m: int, j: nat)
    requires m > 0 && |s| == 2 * stride && j <= stride
  {
    forall r :: 0 <= r < j ==> LastPair(s, t, o, stride, m, r)
  }

  ghost predicate WaitingAt(s: seq<Limb>, t: seq<Limb>, o: nat, stride: nat, r: nat)
    requires |s| == 2 * stride && r < stride
  {
    o + stride + r < |t| && t[o + r] == s[r] && t[o + stride + r] == s[r + stride]
  }

  /** The other pairs of the input are as they were. */
  ghost predicate Waiting(s: seq<Limb>, t: seq<Limb>, o: nat, stride: nat, j: nat)
    requires |s| == 2 * stride
  {
    forall r :: j <= r < stride ==> WaitingAt(s, t, o, stride, r)
  }

  /** Sum and difference of two words below 2m. */
  function LastButterfly(a0: Limb, a1: Limb, m: Limb): (b: (Limb, Limb))
    requires Modulus(m) && a0 < 2 * m && a1 < 2 * m
    ensures b.0 < 2 * m && b.1 < 2 * m && Mixed(a0, a1, 1, b.0, b.1, m)
  {
    var b0, b1 := AddMod(a0, a1, 2 * m), SubMod(a0, a1, 2 * m);
    MixedSum(a0, a1, b0, m);
    CongFrom(b1, (a0 - a1) * 1, m, if b1 == a0 - a1 then 0 else 2);
    (b0, b1)
  }

  lemma {:induction false} LastStep(s: seq<Limb>, t: seq<Limb>, o: nat, stride: nat, m: Limb, j: nat)
    requires Modulus(m) && |s| == 2 * stride && j < stride && o + 2 * stride <= |t|
    requires s[j] < 2 * m && s[j + stride] < 2 * m
    requires LastDone(s, t, o, stride, m, j)
    ensures var b := LastButterfly(s[j], s[j + stride], m);
            var t' := TwoStores(t, o + j, b.0, o + stride + j, b.1);
            && LastDone(s, t', o, stride, m, j + 1) && SameOutside(t, t', o, o + 2 * stride)
            && (Waiting(s, t, o, stride, j) ==> Waiting(s, t', o, stride, j + 1))
  {
    hide Mixed, LastButterfly, Modulus;
    var b := LastButterfly(s[j], s[j + stride], m);
    var t' := TwoStores(t, o + j, b.0, o + stride + j, b.1);
    forall r | 0 <= r < j + 1
      ensures LastPair(s, t', o, stride, m, r)
    {
      if r < j {
        assert LastPair(s, t, o, stride, m, r);
      }
    }
    if Waiting(s, t, o, stride, j) {
      forall r | j + 1 <= r < stride
        ensures WaitingAt(s, t', o, stride, r)
      {
        assert WaitingAt(s, t, o, stride, r);
      }
    }
  }

  lemma {:induction false} LastStart(s: seq<Limb>, t: seq<Limb>, o: nat, u: seq<Limb>, oi: nat, stride: nat, m: int)
    requires m > 0 && |s| == 2 * stride && oi + 2 * stride <= |u| && s == u[oi..oi + 2 * stride]
    ensures LastDone(s, t, o, stride, m, 0) && Waiting(s, u, oi, stride, 0)
  {
    forall r | 0 <= r < stride
      ensures WaitingAt(s, u, oi, stride, r)
    {
    }
  }

  /** The last pass, without multiplications; the output may be the input. */
  method LastPass(tabOut: array<Limb>, o: nat, tabIn: array<Limb>, oi: nat, stride: nat, m: Limb)
    requires tabOut != tabIn || o == oi
    requires o + 2 * stride <= tabOut.Length && oi + 2 * stride <= tabIn.Length
    requires Modulus(m) && Below(tabIn[oi..oi + 2 * stride], 2 * m)
    modifies tabOut
    ensures SameOutside(old(tabOut[..]), tabOut[..], o, o + 2 * stride)
    ensures LastDone(old(tabIn[oi..oi + 2 * stride]), tabOut[..], o, stride, m, stride)
  {
    assert m > 0;
    hide Modulus, LastDone, Waiting, SameOutside, LastButterfly;
    ghost var before := tabOut[..];
    ghost var s := tabIn[oi..oi + 2 * stride];
    SliceOf(tabIn, oi, 2 * stride);
    LastStart(s, before, o, tabIn[..], oi, stride, m);
    StoreNothing(before, o, o + 2 * stride);
    for k := 0 to stride
      invariant SameOutside(before, tabOut[..], o, o + 2 * stride)
      invariant LastDone(s, tabOut[..], o, stride, m, k)
      invariant Waiting(s, tabIn[..], oi, stride, k)
    {
      ghost var t := tabOut[..];
      WaitingPair(s, tabIn[..], oi, stride, k);
      var b := LastButterfly(tabIn[oi + k], tabIn[oi + k + stride], m);
      LastStep(s, t, o, stride, m, k);
      tabOut[o + k] := b.0;
      tabOut[o + k + stride] := b.1;
      assert tabOut[..] == TwoStores(t, o + k, b.0, o + stride + k, b.1);
      SameChain(before, t, tabOut[..], o, o + 2 * stride, o, o + 2 * stride, o, o + 2 * stride);
      if tabOut != tabIn {
        WaitingLess(s, tabIn[..], oi, stride, k);
      }
    }
  }

  lemma {:induction false} WaitingPair(s: seq<Limb>, t: seq<Limb>, o: nat, stride: nat, j: nat)
    requires |s| == 2 * stride && j < stride && Waiting(s, t, o, stride, j)
    ensures o + j + stride < |t| && t[o + j] == s[j] && t[o + j + stride] == s[j + stride]
  {
    assert WaitingAt(s, t, o, stride, j);
  }

  lemma {:induction false} WaitingLess(s: seq<Limb>, t: seq<Limb>, o: nat, stride: nat, j: nat)
    requires |s| == 2 * stride && Waiting(s, t, o, stride, j)
    ensures Waiting(s, t, o, stride, j + 1)
  {
  }

  lemma {:induction false} LastEnd(s: seq<Limb>, t: seq<Limb>, o: nat, stride: nat, x: seq<int>, w: int, logN: nat,
                                   m: Limb)
    requires m > 0 && |s| == |x| == 2 * stride && LastDone(s, t, o, stride, m, stride) && o + 2 * stride <= |t|
    requires logN >= 1 && Root(w, logN, m) && stride == Pow2(logN - 1) && Partly(s, x, w, stride, 2, m)
    ensures IsTransform(t[o..o + 2 * stride], x, w, m) && Below(t[o..o + 2 * stride], 2 * m)
  {
    hide Root, Partly, IsTransform, Mixed, Pow2;
    var y := t[o..o + 2 * stride];
    forall r | 0 <= r < stride
      ensures Mixed(s[r], s[r + stride], 1, y[r], y[r + stride], m)
    {
      assert LastPair(s, t, o, stride, m, r);
      assert y[r] == t[o + r] && y[r + stride] == t[o + stride + r];
    }
    forall i | 0 <= i < 2 * stride
      ensures y[i] < 2 * m
    {
      assert LastPair(s, t, o, stride, m, if i < stride then i else i - stride);
      assert y[i] == t[o + i];
    }
    LastStage(s, y, x, w, logN, stride, m);
  }

  // ----- the transform -----

  /** One pass with the table of its level. */
  method Level(s: NttState, tabOut: array<Limb>, po: nat, tabIn: array<Limb>, ko: nat, h: nat, f: nat, logN: nat,
               l: nat, inverse: nat, mIdx: nat, ghost x: seq<int>)
      returns (ok: bool)
    requires s.Valid() && mIdx < |s.fields| && inverse < 2 && 1 < l <= logN <= NTT_PROOT_2EXP
    requires tabOut != tabIn && po + Pow2(logN) <= tabOut.Length && ko + Pow2(logN) <= tabIn.Length
    requires h == Pow2(l - 1) && f == Pow2(logN - l)
    requires Below(tabIn[ko..ko + Pow2(logN)], 2 * s.fields[mIdx].m)
    requires s.fields[mIdx].m > 0 && Partly(tabIn[ko..ko + Pow2(logN)], x, s.fields[mIdx].proot[inverse][logN].value, f,
                                            2 * h, s.fields[mIdx].m)
    modifies s, tabOut
    ensures s.Valid()
    ensures ok == (l <= NTT_TRIG_K_MAX)
    ensures SameOutside(old(tabOut[..]), tabOut[..], po, po + Pow2(logN))
    ensures ok ==> Below(tabOut[po..po + Pow2(logN)], 2 * s.fields[mIdx].m)
    ensures ok ==> Partly(tabOut[po..po + Pow2(logN)], x, s.fields[mIdx].proot[inverse][logN].value, 2 * f, h,
                          s.fields[mIdx].m)
  {
    var fd := s.fields[mIdx];
    var m, n := fd.m, Pow2(logN);
    RootsOf(fd, inverse, logN);
    ghost var w := fd.proot[inverse][logN].value;
    assert m > 0 && Modulus(m);
    hide Modulus, SameOutside, Partly, Below, Root, Pow2, Stage, IsTrig, Cong;
    LevelSizes(logN, l);
    StoreNothing(tabOut[..], po, po + n);
    var found, trig := s.GetTrig(l, inverse, mIdx);
    if !found {
      return false;
    }
    TrigAtLevel(fd, inverse, logN, l, trig);
    Pass(tabOut, po, tabIn, ko, n, h, f, trig, m, Exp(w, f));
    StageStep(tabIn[ko..ko + n], tabOut[po..po + n], x, w, logN, f, h, m);
    ok := true;
  }

  /** The last pass completes the transform. */
  method Finish(buf: array<Limb>, off: nat, tabIn: array<Limb>, oi: nat, stride: nat, m: Limb, logN: nat,
                ghost x: seq<int>, ghost w: int)
    requires buf != tabIn || off == oi
    requires Modulus(m) && m > 0 && logN >= 1 && stride == Pow2(logN - 1) && Root(w, logN, m) && |x| == 2 * stride
    requires off + 2 * stride <= buf.Length && oi + 2 * stride <= tabIn.Length
    requires Below(tabIn[oi..oi + 2 * stride], 2 * m) && Partly(tabIn[oi..oi + 2 * stride], x, w, stride, 2, m)
    modifies buf
    ensures SameOutside(old(buf[..]), buf[..], off, off + 2 * stride)
    ensures Below(buf[off..off + 2 * stride], 2 * m)
    ensures IsTransform(buf[off..off + 2 * stride], x, w, m)
  {
    hide Modulus, SameOutside, IsTransform, Partly, Below, Root, Pow2, LastDone;
    ghost var si := tabIn[oi..oi + 2 * stride];
    LastPass(buf, off, tabIn, oi, stride, m);
    SliceOf(buf, off, 2 * stride);
    LastEnd(si, buf[..], off, stride, x, w, logN, m);
  }

  /** All passes but the last; the words end up in one of the two buffers. */
  method Passes(s: NttState, buf: array<Limb>, off: nat, tmp: array<Limb>, n: nat, logN: nat, inverse: nat, mIdx: nat)
      returns (ok: bool, tabIn: array<Limb>, inOff: nat)
    requires s.Valid() && mIdx < |s.fields| && inverse < 2 && 1 <= logN <= NTT_PROOT_2EXP && n == Pow2(logN)
    requires buf != tmp && off + n <= buf.Length && n <= tmp.Length
    requires s.fields[mIdx].m > 0 && Below(buf[off..off + n], 2 * s.fields[mIdx].m)
    modifies s, buf, tmp
    ensures s.Valid()
    ensures logN <= NTT_TRIG_K_MAX ==> ok
    ensures SameOutside(old(buf[..]), buf[..], off, off + n)
    ensures (tabIn == buf && inOff == off) || (tabIn == tmp && inOff == 0)
    ensures ok ==> Below(tabIn[inOff..inOff + n], 2 * s.fields[mIdx].m)
    ensures ok ==> Partly(tabIn[inOff..inOff + n], old(buf[off..off + n]), s.fields[mIdx].proot[inverse][logN].value,
                          Pow2(logN - 1), 2, s.fields[mIdx].m)
  {
    hide NttState.Valid, Field.Valid, Modulus, SameOutside, Partly, Below, Root, Pow2;
    FieldOf(s, mIdx, inverse, logN);
    ghost var m := s.fields[mIdx].m;
    ghost var w := s.fields[mIdx].proot[inverse][logN].value;
    ghost var x := buf[off..off + n];
    ghost var before := buf[..];
    var nbBlocks, fftPerBlock := n, 1;
    var tabOut, outOff := tmp, 0;
    tabIn, inOff := buf, off;
    var l := logN;
    OnePow2(logN - logN);
    StoreNothing(before, off, off + n);
    StageStart(x, w, m);
    while nbBlocks != 2
      invariant 1 <= l <= logN && nbBlocks == Pow2(l) && fftPerBlock == Pow2(logN - l)
      invariant s.Valid()
      invariant (tabIn == buf && inOff == off && tabOut == tmp && outOff == 0) ||
                (tabIn == tmp && inOff == 0 && tabOut == buf && outOff == off)
      invariant SameOutside(before, buf[..], off, off + n)
      invariant Below(tabIn[inOff..inOff + n], 2 * m)
      invariant Partly(tabIn[inOff..inOff + n], x, w, fftPerBlock, nbBlocks, m)
      decreases l
    {
      LevelSizes(logN, l);
      ghost var was := buf[..];
      nbBlocks := nbBlocks / 2;
      ok := Level(s, tabOut, outOff, tabIn, inOff, nbBlocks, fftPerBlock, logN, l, inverse, mIdx, x);
      if tabOut == buf {
        SameChain(before, was, buf[..], off, off + n, off, off + n, off, off + n);
      }
      if !ok {
        return;
      }
      fftPerBlock := 2 * fftPerBlock;
      l := l - 1;
      tabIn, inOff, tabOut, outOff := tabOut, outOff, tabIn, inOff;
    }
    LevelSizes(logN, l);
    ok := true;
  }

  /** ntt_fft, in place: n = 2^logN words from off on, with a second buffer of as many words. */
  method NttFft(s: NttState, buf: array<Limb>, off: nat, tmp: array<Limb>, logN: nat, inverse: nat, mIdx: nat)
      returns (ok: bool)
    requires s.Valid() && mIdx < |s.fields| && inverse < 2 && 1 <= logN <= NTT_PROOT_2EXP
    requires buf != tmp && off + Pow2(logN) <= buf.Length && Pow2(logN) <= tmp.Length
    requires Below(buf[off..off + Pow2(logN)], 2 * s.fields[mIdx].m)
    modifies s, buf, tmp
    ensures s.Valid()
    ensures logN <= NTT_TRIG_K_MAX ==> ok
    ensures SameOutside(old(buf[..]), buf[..], off, off + Pow2(logN))
    ensures ok ==> Below(buf[off..off + Pow2(logN)], 2 * s.fields[mIdx].m)
    ensures ok ==> IsTransform(buf[off..off + Pow2(logN)], old(buf[off..off + Pow2(logN)]),
                               s.fields[mIdx].proot[inverse][logN].value, s.fields[mIdx].m)
  {
    hide NttState.Valid, Field.Valid, Modulus, SameOutside, IsTransform, Partly, Below, Root, Pow2;
    FieldOf(s, mIdx, inverse, logN);
    var m, n := s.fields[mIdx].m, Pow2(logN);
    ghost var w := s.fields[mIdx].proot[inverse][logN].value;
    ghost var x := buf[off..off + n];
    ghost var before := buf[..];
    LevelSizes(logN, 1);
    var tabIn, inOff;
    ok, tabIn, inOff := Passes(s, buf, off, tmp, n, logN, inverse, mIdx);
    if ok {
      ghost var was := buf[..];
      Finish(buf, off, tabIn, inOff, n / 2, m, logN, x, w);
      SameChain(before, was, buf[..], off, off + n, off, off + n, off, off + n);
    }
  }

  /** The sizes at a level: half as many blocks of twice the length at the next. */
  lemma {:induction false} LevelSizes(logN: nat, l: nat)
    requires 1 <= l <= logN
    ensures Pow2(l) == 2 * Pow2(l - 1) && Pow2(l) / 2 == Pow2(l - 1) && 2 * Pow2(logN - l) == Pow2(logN - (l - 1))
    ensures Pow2(logN - l) * Pow2(l - 1) == Pow2(l - 1) * Pow2(logN - l) == Pow2(logN - 1)
    ensures Pow2(logN) == 2 * Pow2(logN - 1)
    ensures Pow2(l) == 2 <==> l == 1
  {
    Pow2Add(logN - l, l - 1);
    assert Pow2(logN - l + 1) == 2 * Pow2(logN - l);
    if l > 1 {
      assert Pow2(l) == 2 * Pow2(l - 1) && Pow2(l - 1) == 2 * Pow2(l - 2);
    }
  }

  /** The table of a level holds the powers of the level's root. */
  lemma {:induction false} TrigAtLevel(f: Field, d: nat, logN: nat, l: nat, trig: seq<Prepared>)
    requires f.Valid() && d < 2 && 1 <= l <= logN <= NTT_PROOT_2EXP
    requires IsTrig(trig, f.proot[d][l].value, l, f.m)
    ensures |trig| == Pow2(l - 1)
    ensures forall i :: 0 <= i < |trig| ==>
              TrigEntry(trig[i], Exp(f.proot[d][logN].value, Pow2(logN - l)), i, f.m)
  {
    hide Pow2, Cong, Exp, Ready;
    var y, u := f.proot[d][l].value, Exp(f.proot[d][logN].value, Pow2(logN - l));
    RootChain(f, d, logN, l);
    forall i | 0 <= i < |trig|
      ensures TrigEntry(trig[i], u, i, f.m)
    {
      assert TrigEntry(trig[i], y, i, f.m);
      ExpCong(y, u, i, f.m);
      CongTrans(trig[i].value, Exp(y, i), Exp(u, i), f.m);
    }
  }
}
