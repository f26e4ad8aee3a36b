/** One pass of the transform on a buffer read as rows: what the passes keep, and what the last pass
    leaves. */
module NttStage {
  import opened Arith
  import opened LimbMul
  import opened ModWords
  import opened PolySums

  /** Position r of row i, in rows of p entries. */
  ghost function Index(p: nat, i: nat, r: nat): (j: nat)
    ensures j == i * p + r
  {
    MulNonneg(i, p);
    i * p + r
  }

  ghost function Cell(s: seq<int>, p: nat, i: nat, r: nat): int {
    if Index(p, i, r) < |s| then s[Index(p, i, r)] else 0
  }

  /** Entry r of each of the first n rows. */
  ghost function Column(s: seq<int>, p: nat, r: nat, n: nat): (c: seq<int>)
    ensures |c| == n
  {
    seq(n, i requires 0 <= i < n => Cell(s, p, i, r))
  }

  /** Column r has at the k-th power of w^p the value of x at w^(k*p + r). */
  ghost predicate Reached(s: seq<int>, x: seq<int>, w: int, p: nat, n: nat, k: nat, r: nat, m: int)
    requires m > 0
  {
    Cong(Poly(Column(s, p, r, n), Exp(Exp(w, p), k)), Poly(x, Exp(w, Index(p, k, r))), m)
  }

  /** What every pass keeps: n columns' values so far for rows of p entries. */
  ghost predicate Partly(s: seq<int>, x: seq<int>, w: int, p: nat, n: nat, m: int)
    requires m > 0
  {
    forall k, r :: 0 <= k < n && 0 <= r < p ==> Reached(s, x, w, p, n, k, r, m)
  }

  /** Sum and difference of a0 and a1, the difference times c. */
  ghost predicate Mixed(a0: int, a1: int, c: int, b0: int, b1: int, m: int)
    requires m > 0
  {
    Cong(b0, a0 + a1, m) && Cong(b1, (a0 - a1) * c, m)
  }

  /** Rows 2i and 2i + 1 of the output come from rows i and i + h of the input. */
  ghost predicate RowPair(s: seq<int>, t: seq<int>, p: nat, h: nat, u: int, i: nat, r: nat, m: int)
    requires m > 0
  {
    Mixed(Cell(s, p, i, r), Cell(s, p, i + h, r), Exp(u, i), Cell(t, p, 2 * i, r), Cell(t, p, 2 * i + 1, r), m)
  }

  ghost predicate Stage(s: seq<int>, t: seq<int>, p: nat, h: nat, u: int, m: int)
    requires m > 0
  {
    forall i, r :: 0 <= i < h && 0 <= r < p ==> RowPair(s, t, p, h, u, i, r, m)
  }

  /** Every number is what is wanted at the start: one row entry per column. */
  lemma {:induction false} StageStart(x: seq<int>, w: int, m: int)
    requires m > 0
    ensures Partly(x, x, w, 1, |x|, m)
  {
    hide Cong, Exp, Poly;
    forall k, r | 0 <= k < |x| && 0 <= r < 1
      ensures Reached(x, x, w, 1, |x|, k, r, m)
    {
      assert Column(x, 1, 0, |x|) == x;
      ExpOne(w);
      CongSelf(Poly(x, Exp(w, k)), m);
    }
  }

  /** A row of the doubled length is two rows of the old one. */
  lemma {:induction false} CellHalves(t: seq<int>, p: nat, i: nat, r: nat)
    ensures Cell(t, 2 * p, i, r) == Cell(t, p, 2 * i, r)
    ensures Cell(t, 2 * p, i, p + r) == Cell(t, p, 2 * i + 1, r)
  {
    Assoc(2, i, p);
    Assoc(i, 2, p);
    Distrib(2 * i, 1, p);
  }

  lemma {:induction false} IndexHalves(p: nat, k: nat, r: nat)
    ensures Index(2 * p, k, r) == Index(p, 2 * k, r)
    ensures Index(2 * p, k, p + r) == Index(p, 2 * k + 1, r)
  {
    Assoc(2, k, p);
    Assoc(k, 2, p);
    Distrib(2 * k, 1, p);
  }

  /** The k-th power of w^p, raised to the number of half the rows, is (-1)^k. */
  lemma {:induction false} HalfPower(w: int, logN: nat, p: nat, h: nat, k: nat, m: int)
    requires m > 0 && Root(w, logN, m) && p * h == Pow2(logN - 1)
    ensures Cong(Exp(Exp(Exp(w, p), k), h), if k % 2 == 0 then 1 else -1, m)
  {
    hide Cong, Exp, Pow2;
    var y := Exp(w, p);
    MulNonneg(k, h);
    MulNonneg(h, k);
    ExpTimes(y, k, h);
    ExpTimes(y, h, k);
    assert k * h == h * k;
    ExpTimes(w, p, h);
    ExpCong(Exp(w, p * h), -1, k, m);
    SignExp(k);
  }

  lemma {:induction false} PowerOfPower(w: int, p: nat, k: nat)
    ensures Exp(Exp(w, 2 * p), k) == Exp(Exp(w, p), 2 * k)
    ensures Exp(w, p) * Exp(Exp(w, 2 * p), k) == Exp(Exp(w, p), 2 * k + 1)
  {
    hide Exp;
    var y := Exp(w, p);
    ExpTimes(w, p, 2);
    ExpTimes(y, 2, k);
    ExpAdd(y, 1, 2 * k);
    ExpOne(y);
  }

  /** One pass brings the invariant from rows of p entries to rows of 2p. */
  lemma {:induction false} StageStep(s: seq<int>, t: seq<int>, x: seq<int>, w: int, logN: nat, p: nat, h: nat, m: int)
    requires m > 0 && Root(w, logN, m) && p * h == Pow2(logN - 1)
    requires Partly(s, x, w, p, 2 * h, m) && Stage(s, t, p, h, Exp(w, p), m)
    ensures Partly(t, x, w, 2 * p, h, m)
  {
    hide Root, Reached, RowPair, Exp, Pow2;
    forall k, r | 0 <= k < h && 0 <= r < 2 * p
      ensures Reached(t, x, w, 2 * p, h, k, r, m)
    {
      if r < p {
        StageEven(s, t, x, w, logN, p, h, k, r, m);
      } else {
        StageOdd(s, t, x, w, logN, p, h, k, r - p, m);
      }
    }
  }

  lemma {:induction false} StageEven(s: seq<int>, t: seq<int>, x: seq<int>, w: int, logN: nat, p: nat, h: nat, k: nat,
                                     r: nat, m: int)
    requires m > 0 && Root(w, logN, m) && p * h == Pow2(logN - 1) && k < h && r < p
    requires Partly(s, x, w, p, 2 * h, m) && Stage(s, t, p, h, Exp(w, p), m)
    ensures Reached(t, x, w, 2 * p, h, k, r, m)
  {
    hide Root, Cong, Exp, Pow2, Poly, Cell;
    var lo, hi := Column(s, p, r, h), seq(h, i requires 0 <= i < h => Cell(s, p, i + h, r));
    assert Column(s, p, r, 2 * h) == lo + hi;
    var e := Column(t, 2 * p, r, h);
    var z := Exp(Exp(w, p), 2 * k);
    forall i | 0 <= i < h
      ensures Cong(e[i], lo[i] + hi[i], m)
    {
      assert RowPair(s, t, p, h, Exp(w, p), i, r, m);
      CellHalves(t, p, i, r);
    }
    HalfPower(w, logN, p, h, 2 * k, m);
    HalvesSum(lo, hi, e, z, m);
    assert Reached(s, x, w, p, 2 * h, 2 * k, r, m);
    PowerOfPower(w, p, k);
    IndexHalves(p, k, r);
    CongTrans(Poly(e, z), Poly(lo + hi, z), Poly(x, Exp(w, Index(p, 2 * k, r))), m);
  }

  lemma {:induction false} StageOdd(s: seq<int>, t: seq<int>, x: seq<int>, w: int, logN: nat, p: nat, h: nat, k: nat,
                                    r: nat, m: int)
    requires m > 0 && Root(w, logN, m) && p * h == Pow2(logN - 1) && k < h && r < p
    requires Partly(s, x, w, p, 2 * h, m) && Stage(s, t, p, h, Exp(w, p), m)
    ensures Reached(t, x, w, 2 * p, h, k, p + r, m)
  {
    hide Root, Cong, Exp, Pow2, Poly, Cell;
    var lo, hi := Column(s, p, r, h), seq(h, i requires 0 <= i < h => Cell(s, p, i + h, r));
    assert Column(s, p, r, 2 * h) == lo + hi;
    var o := Column(t, 2 * p, p + r, h);
    var u, y := Exp(w, p), Exp(Exp(w, 2 * p), k);
    forall i | 0 <= i < h
      ensures Cong(o[i], (lo[i] - hi[i]) * Exp(u, i), m)
    {
      assert RowPair(s, t, p, h, u, i, r, m);
      CellHalves(t, p, i, r);
    }
    PowerOfPower(w, p, k);
    HalfPower(w, logN, p, h, 2 * k + 1, m);
    HalvesDifference(lo, hi, o, u, y, m);
    assert Reached(s, x, w, p, 2 * h, 2 * k + 1, r, m);
    IndexHalves(p, k, r);
    CongTrans(Poly(o, y), Poly(lo + hi, u * y), Poly(x, Exp(w, Index(p, 2 * k + 1, r))), m);
  }

  // ----- the last pass -----

  /** Entry k of y is the value of x at w^k. */
  ghost predicate ValueAt(y: seq<int>, x: seq<int>, w: int, k: nat, m: int)
    requires m > 0 && k < |y|
  {
    Cong(y[k], Poly(x, Exp(w, k)), m)
  }

  /** y is the transform of x. */
  ghost predicate IsTransform(y: seq<int>, x: seq<int>, w: int, m: int)
    requires m > 0
  {
    |y| == |x| && forall k :: 0 <= k < |y| ==> ValueAt(y, x, w, k, m)
  }

  /** Sums and differences of the two rows left are the values at all powers of the root. */
  lemma {:induction false} LastStage(s: seq<int>, y: seq<int>, x: seq<int>, w: int, logN: nat, p: nat, m: int)
    requires m > 0 && Root(w, logN, m) && p == Pow2(logN - 1) && |s| == |y| == |x| == 2 * p
    requires Partly(s, x, w, p, 2, m)
    requires forall r :: 0 <= r < p ==> Mixed(s[r], s[r + p], 1, y[r], y[r + p], m)
    ensures IsTransform(y, x, w, m)
  {
    hide Root, Mixed, ValueAt, Reached, Exp;
    forall k | 0 <= k < 2 * p
      ensures ValueAt(y, x, w, k, m)
    {
      var r := if k < p then k else k - p;
      assert Mixed(s[r], s[r + p], 1, y[r], y[r + p], m);
      LastPair(s, y, x, w, logN, p, r, m);
    }
  }

  lemma {:induction false} LastPair(s: seq<int>, y: seq<int>, x: seq<int>, w: int, logN: nat, p: nat, r: nat, m: int)
    requires m > 0 && Root(w, logN, m) && p == Pow2(logN - 1) && |s| == |y| == |x| == 2 * p && r < p
    requires Partly(s, x, w, p, 2, m) && Mixed(s[r], s[r + p], 1, y[r], y[r + p], m)
    ensures ValueAt(y, x, w, r, m) && ValueAt(y, x, w, r + p, m)
  {
    hide Cong, Exp, Pow2;
    assert Reached(s, x, w, p, 2, 0, r, m) && Reached(s, x, w, p, 2, 1, r, m);
    var c := Column(s, p, r, 2);
    assert c == [s[r], s[r + p]];
    var z := Exp(w, p);
    TwoTerms(s[r], s[r + p], 1);
    TwoTerms(s[r], s[r + p], z);
    ExpOne(z);
    assert Index(p, 0, r) == r && Index(p, 1, r) == r + p;
    CongTrans(y[r], s[r] + s[r + p], Poly(x, Exp(w, r)), m);
    FactorCong(s[r], z, -1, s[r + p], m);
    CongSym(s[r] + z * s[r + p], s[r] - s[r + p], m);
    CongTrans(y[r + p], s[r] - s[r + p], s[r] + z * s[r + p], m);
    CongTrans(y[r + p], s[r] + z * s[r + p], Poly(x, Exp(w, r + p)), m);
  }

  lemma {:induction false} TwoTerms(a: int, b: int, z: int)
    ensures Poly([a, b], z) == a + z * b
  {
    assert [a, b][1..] == [b] && [b][1..] == [];
    assert Poly([b], z) == b + z * Poly([], z);
  }
}
