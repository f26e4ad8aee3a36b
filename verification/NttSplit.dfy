/** What products of transforms and transforms of columns amount to: cyclic convolution, whole and by
    rows of a matrix. */
module NttSplit {
  import opened Arith
  import opened LimbMul
  import opened ModWords
  import opened PolySums
  import opened NttStage

  /** c[i] is g * a[i] * b[i]. */
  ghost predicate ProductAt(c: seq<int>, a: seq<int>, b: seq<int>, g: int, i: nat, m: int)
    requires m > 0 && i < |c| && i < |a| && i < |b|
  {
    Cong(c[i], g * (a[i] * b[i]), m)
  }

  ghost predicate Products(c: seq<int>, a: seq<int>, b: seq<int>, g: int, m: int)
    requires m > 0
  {
    |c| == |a| == |b| && forall i :: 0 <= i < |c| ==> ProductAt(c, a, b, g, i, m)
  }

  ghost predicate ConvolvedAt(r: seq<int>, a: seq<int>, b: seq<int>, g: int, j: nat, m: int)
    requires m > 0 && |b| > 0 && j < |r| && j < |b|
  {
    Cong(r[j], g * Cyclic(a, b)[j], m)
  }

  /** r is g times the cyclic convolution of a and b. */
  ghost predicate Convolved(r: seq<int>, a: seq<int>, b: seq<int>, g: int, m: int)
    requires m > 0
  {
    |r| == |a| == |b| > 0 && forall j :: 0 <= j < |r| ==> ConvolvedAt(r, a, b, g, j, m)
  }

  /** g * c[j] for every j. */
  ghost function Scaled(c: seq<int>, g: int): (d: seq<int>)
    ensures |d| == |c|
  {
    seq(|c|, j requires 0 <= j < |c| => g * c[j])
  }

  lemma {:induction false} ScaledPoly(c: seq<int>, g: int, z: int)
    ensures Poly(Scaled(c, g), z) == g * Poly(c, z)
  {
    hide Poly;
    var zeros := seq(|c|, i => 0);
    PolyZero(zeros, z);
    PolyLinear(zeros, c, g, Scaled(c, g), z);
  }

  /** At every power of the root the power to the order is 1. */
  lemma {:induction false} FullPower(w: int, k: nat, e: nat, m: int)
    requires m > 0 && Root(w, k, m)
    ensures Cong(Exp(Exp(w, e), Pow2(k)), 1, m)
  {
    hide Cong, Exp;
    var h := Pow2(k - 1);
    assert Pow2(k) == h * 2;
    ExpTimes(w, e, Pow2(k));
    ExpTimes(w, h, 2 * e);
    assert e * Pow2(k) == h * (2 * e) by {
      Assoc(h, 2, e);
    }
    ExpCong(Exp(w, h), -1, 2 * e, m);
    SignExp(2 * e);
  }

  /** Value of the convolution of a and b, g times, at a power of the root. */
  lemma {:induction false} ConvolutionValue(a: seq<int>, b: seq<int>, g: int, w: int, k: nat, e: nat, va: int, vb: int,
                                            m: int)
    requires m > 0 && Root(w, k, m) && |a| == |b| == Pow2(k)
    requires Cong(va, Poly(a, Exp(w, e)), m) && Cong(vb, Poly(b, Exp(w, e)), m)
    ensures Cong(g * (va * vb), Poly(Scaled(Cyclic(a, b), g), Exp(w, e)), m)
  {
    hide Cong, Exp, Poly, Cyclic, Root, Scaled;
    var z := Exp(w, e);
    FullPower(w, k, e, m);
    CyclicPoly(a, b, z, m);
    CongMul(va, Poly(a, z), vb, Poly(b, z), m);
    CongSym(Poly(Cyclic(a, b), z), Poly(a, z) * Poly(b, z), m);
    CongTrans(va * vb, Poly(a, z) * Poly(b, z), Poly(Cyclic(a, b), z), m);
    CongSelf(g, m);
    CongMul(g, g, va * vb, Poly(Cyclic(a, b), z), m);
    ScaledPoly(Cyclic(a, b), g, z);
  }

  /** Transforming two sequences, multiplying entry by entry and transforming with the inverse root
      gives the cyclic convolution, the order and the factor g times. */
  lemma {:induction false} ConvolutionByTransform(a: seq<int>, b: seq<int>, ta: seq<int>, tb: seq<int>, c: seq<int>,
                                                  r: seq<int>, g: int, w: int, v: int, k: nat, m: int)
    requires m > 0 && Root(w, k, m) && Root(v, k, m) && Cong(w * v, 1, m) && |a| == |b| == Pow2(k)
    requires IsTransform(ta, a, w, m) && IsTransform(tb, b, w, m) && Products(c, ta, tb, g, m)
    requires IsTransform(r, c, v, m)
    ensures Convolved(r, a, b, Pow2(k) * g, m)
  {
    hide Cong, Exp, Poly, Cyclic, Root, Scaled, Pow2;
    var s := Scaled(Cyclic(a, b), g);
    forall i | 0 <= i < |c|
      ensures Cong(c[i], Poly(s, Exp(w, i)), m)
    {
      assert ProductAt(c, ta, tb, g, i, m) && ValueAt(ta, a, w, i, m) && ValueAt(tb, b, w, i, m);
      ConvolutionValue(a, b, g, w, k, i, ta[i], tb[i], m);
      CongTrans(c[i], g * (ta[i] * tb[i]), Poly(s, Exp(w, i)), m);
    }
    forall j | 0 <= j < |r|
      ensures ConvolvedAt(r, a, b, Pow2(k) * g, j, m)
    {
      assert ValueAt(r, c, v, j, m);
      InverseTransform(s, c, w, v, k, j, m);
      CongTrans(r[j], Poly(c, Exp(v, j)), Pow2(k) * s[j], m);
      ScaledAt(Cyclic(a, b), g, Pow2(k), j);
    }
  }

  lemma {:induction false} ScaledAt(c: seq<int>, g: int, n: int, j: nat)
    requires j < |c|
    ensures n * Scaled(c, g)[j] == n * g * c[j]
  {
    Assoc(n, g, c[j]);
  }

  // ----- a sequence is determined by its values -----

  /** Sequences with the same values at all powers of the root are the same modulo m. */
  lemma {:induction false} SameCoefficients(x: seq<int>, y: seq<int>, w: int, v: int, k: nat, inv: int, j: nat, m: int)
    requires m > 0 && Root(w, k, m) && Root(v, k, m) && Cong(w * v, 1, m) && Cong(inv * Pow2(k), 1, m)
    requires |x| == |y| == Pow2(k) && j < Pow2(k)
    requires forall e :: 0 <= e < Pow2(k) ==> Cong(Poly(x, Exp(w, e)), Poly(y, Exp(w, e)), m)
    ensures Cong(x[j], y[j], m)
  {
    hide Cong, Exp, Poly, Root, Pow2;
    var n := Pow2(k);
    var spec := seq(n, e requires 0 <= e < n => Poly(x, Exp(w, e)));
    forall e | 0 <= e < n
      ensures Cong(spec[e], Poly(x, Exp(w, e)), m)
    {
      CongSelf(spec[e], m);
    }
    InverseTransform(x, spec, w, v, k, j, m);
    InverseTransform(y, spec, w, v, k, j, m);
    CongSym(Poly(spec, Exp(v, j)), n * x[j], m);
    CongTrans(n * x[j], Poly(spec, Exp(v, j)), n * y[j], m);
    CancelFactor(x[j], y[j], n, inv, m);
  }

  lemma {:induction false} CancelFactor(x: int, y: int, n: int, inv: int, m: int)
    requires m > 0 && Cong(inv * n, 1, m) && Cong(n * x, n * y, m)
    ensures Cong(x, y, m)
  {
    hide Cong;
    CongSelf(inv, m);
    CongMul(inv, inv, n * x, n * y, m);
    Assoc(inv, n, x);
    Assoc(inv, n, y);
    CongSelf(x, m);
    CongSelf(y, m);
    CongMul(inv * n, 1, x, x, m);
    CongMul(inv * n, 1, y, y, m);
    CongSym(inv * n * x, x, m);
    CongTrans(x, inv * n * x, inv * n * y, m);
    CongTrans(x, inv * n * y, y, m);
  }

  // ----- columns and rows -----

  /** Row r of rows of p entries. */
  ghost function Row(x: seq<int>, p: nat, r: nat): (s: seq<int>)
    ensures |s| == p
  {
    seq(p, j requires 0 <= j < p => Cell(x, p, r, j))
  }

  /** The values of all columns at z. */
  ghost function ColumnValues(x: seq<int>, p: nat, n1: nat, z: int): (s: seq<int>)
    ensures |s| == p
  {
    seq(p, j requires 0 <= j < p => Poly(Column(x, p, j, n1), z))
  }

  /** A polynomial column by column: the columns' values at z^p are its coefficients at z. */
  lemma {:induction false} ByColumns(x: seq<int>, p: nat, n1: nat, z: int)
    requires |x| == n1 * p
    ensures Poly(x, z) == Poly(ColumnValues(x, p, n1, Exp(z, p)), z)
    decreases n1
  {
    hide Poly, Exp, Cell;
    var y := Exp(z, p);
    var cv := ColumnValues(x, p, n1, y);
    if n1 == 0 {
      assert |x| == 0;
      forall j | 0 <= j < p
        ensures cv[j] == 0
      {
        PolyZero(Column(x, p, j, 0), y);
      }
      PolyZero(x, z);
      PolyZero(cv, z);
    } else {
      Distrib(n1 - 1, 1, p);
      MulNonneg(n1 - 1, p);
      var first, rest := x[..p], x[p..];
      assert x == first + rest;
      PolySplit(first, rest, z);
      ByColumns(rest, p, n1 - 1, z);
      var rv := ColumnValues(rest, p, n1 - 1, y);
      forall j | 0 <= j < p
        ensures cv[j] == first[j] + y * rv[j]
      {
        ColumnHead(x, p, n1, j, y);
      }
      PolyLinear(first, rv, y, cv, z);
    }
  }

  lemma {:induction false} ColumnHead(x: seq<int>, p: nat, n1: nat, j: nat, y: int)
    requires n1 >= 1 && |x| == n1 * p && j < p && p <= |x|
    ensures Poly(Column(x, p, j, n1), y) == x[j] + y * Poly(Column(x[p..], p, j, n1 - 1), y)
  {
    hide Poly;
    var c := Column(x, p, j, n1);
    assert c[0] == x[j];
    forall i | 0 <= i < n1 - 1
      ensures c[1..][i] == Cell(x[p..], p, i, j)
    {
      Distrib(i, 1, p);
    }
    assert c[1..] == Column(x[p..], p, j, n1 - 1);
    PolyHead(c, y);
  }

  /** Cell (r, j) of y is the value of column j of x at the r-th power of w1 = w^p, turned by w^(j*r). */
  ghost predicate TurnedAt(y: seq<int>, x: seq<int>, p: nat, n1: nat, w1: int, w: int, r: nat, j: nat, m: int)
    requires m > 0
  {
    Cong(Cell(y, p, r, j), Poly(Column(x, p, j, n1), Exp(w1, r)) * Exp(Exp(w, j), r), m)
  }

  ghost predicate Turned(y: seq<int>, x: seq<int>, p: nat, n1: nat, w1: int, w: int, m: int)
    requires m > 0
  {
    forall r, j :: 0 <= r < n1 && 0 <= j < p ==> TurnedAt(y, x, p, n1, w1, w, r, j, m)
  }

  /** The value of row r of the turned transform is a value of the whole sequence. */
  lemma {:induction false} TurnedRow(y: seq<int>, x: seq<int>, p: nat, n1: nat, w1: int, w: int, k: nat, r: nat, s: nat,
                                     m: int)
    requires m > 0 && Root(w, k, m) && n1 * p == Pow2(k) && |x| == n1 * p && r < n1
    requires Cong(w1, Exp(w, p), m) && Turned(y, x, p, n1, w1, w, m)
    ensures Cong(Poly(Row(y, p, r), Exp(Exp(w, n1), s)), Poly(x, Exp(w, Index(n1, s, r))), m)
  {
    hide Cong, Exp, Poly, Root, Pow2, Cell, Turned, ColumnValues, Row;
    var e := Index(n1, s, r);
    var z := Exp(w, e);
    var u, q := Exp(w, r), Exp(Exp(w, n1), s);
    PowerSplit(w, n1, s, r);
    ColumnPoint(w1, w, p, n1, k, r, s, m);
    var cv := ColumnValues(x, p, n1, Exp(z, p));
    var row := Row(y, p, r);
    var t := seq(p, j requires 0 <= j < p => cv[j] * Exp(u, 0 + j));
    forall j | 0 <= j < p
      ensures Cong(row[j], t[j], m)
    {
      TurnedCell(y, x, p, n1, w1, w, r, j, z, m);
    }
    PolyCong(row, t, q, m);
    PolyTwist(cv, t, u, 0, q);
    ExpOne(u);
    ByColumns(x, p, n1, z);
  }

  lemma {:induction false} PowerSplit(w: int, n1: nat, s: nat, r: nat)
    ensures Exp(w, Index(n1, s, r)) == Exp(w, r) * Exp(Exp(w, n1), s)
  {
    hide Exp;
    MulNonneg(s, n1);
    MulNonneg(n1, s);
    ExpAdd(w, r, n1 * s);
    ExpTimes(w, n1, s);
    assert s * n1 == n1 * s;
  }

  /** The p-th power of the evaluation point is the r-th power of the column's root. */
  lemma {:induction false} ColumnPoint(w1: int, w: int, p: nat, n1: nat, k: nat, r: nat, s: nat, m: int)
    requires m > 0 && Root(w, k, m) && n1 * p == Pow2(k) && Cong(w1, Exp(w, p), m)
    ensures Cong(Exp(w1, r), Exp(Exp(w, Index(n1, s, r)), p), m)
  {
    hide Cong, Exp, Pow2, Root;
    var e, n := Index(n1, s, r), Pow2(k);
    ExpCong(w1, Exp(w, p), r, m);
    MulNonneg(p, r);
    MulNonneg(e, p);
    MulNonneg(s, n);
    MulNonneg(n, s);
    ExpTimes(w, p, r);
    ExpTimes(w, e, p);
    assert e * p == p * r + n * s by {
      Distrib(s * n1, r, p);
      Assoc(s, n1, p);
    }
    ExpAdd(w, p * r, n * s);
    ExpTimes(w, s, n);
    assert n * s == s * n;
    FullPower(w, k, s, m);
    CongSelf(Exp(w, p * r), m);
    CongMul(Exp(w, p * r), Exp(w, p * r), Exp(w, n * s), 1, m);
    CongSym(Exp(Exp(w, e), p), Exp(w, p * r), m);
    CongTrans(Exp(w1, r), Exp(w, p * r), Exp(Exp(w, e), p), m);
  }

  lemma {:induction false} TurnedCell(y: seq<int>, x: seq<int>, p: nat, n1: nat, w1: int, w: int, r: nat, j: nat,
                                      z: int, m: int)
    requires m > 0 && r < n1 && j < p && Turned(y, x, p, n1, w1, w, m)
    requires Cong(Exp(w1, r), Exp(z, p), m)
    ensures Cong(Row(y, p, r)[j], ColumnValues(x, p, n1, Exp(z, p))[j] * Exp(Exp(w, r), 0 + j), m)
  {
    hide Cong, Exp, Poly, Cell, Column;
    assert TurnedAt(y, x, p, n1, w1, w, r, j, m);
    var c := Column(x, p, j, n1);
    PolyPoint(c, Exp(w1, r), Exp(z, p), m);
    MulNonneg(j, r);
    MulNonneg(r, j);
    ExpTimes(w, j, r);
    ExpTimes(w, r, j);
    assert j * r == r * j;
    var f := Exp(Exp(w, j), r);
    CongSelf(f, m);
    CongMul(Poly(c, Exp(w1, r)), Poly(c, Exp(z, p)), f, f, m);
    CongTrans(Cell(y, p, r, j), Poly(c, Exp(w1, r)) * f, Poly(c, Exp(z, p)) * f, m);
  }

  // ----- the convolution by rows -----

  /** Rows of the result are convolutions of the rows. */
  ghost predicate RowsConvolved(z: seq<int>, ya: seq<int>, yb: seq<int>, p: nat, n1: nat, g: int, m: int)
    requires m > 0
  {
    forall r :: 0 <= r < n1 ==> Convolved(Row(z, p, r), Row(ya, p, r), Row(yb, p, r), g, m)
  }

  /** When both operands were turned, their rows were convolved and the rows turned back, the result is
      the convolution: here for the value at one power of the root. */
  lemma {:induction false} SplitValue(a: seq<int>, b: seq<int>, ya: seq<int>, yb: seq<int>, z: seq<int>, x: seq<int>,
                                      p: nat, n1: nat, k2: nat, g: int, w1: int, w2: int, w: int, k: nat, r: nat,
                                      s: nat, m: int)
    requires m > 0 && Root(w, k, m) && n1 * p == Pow2(k) && |a| == |b| == |x| == n1 * p && r < n1 && p == Pow2(k2)
    requires Cong(w1, Exp(w, p), m) && Cong(w2, Exp(w, n1), m) && Root(w2, k2, m)
    requires Turned(ya, a, p, n1, w1, w, m) && Turned(yb, b, p, n1, w1, w, m)
    requires RowsConvolved(z, ya, yb, p, n1, g, m)
    requires Turned(Scaled(z, n1), x, p, n1, w1, w, m)
    ensures var e := Index(n1, s, r);
            Cong(Poly(x, Exp(w, e)), Poly(Scaled(Cyclic(a, b), n1 * g), Exp(w, e)), m)
  {
    hide Cong, Exp, Poly, Root, Pow2, Cell, Turned, Row, Scaled, Cyclic, Index;
    var e := Index(n1, s, r);
    TurnedRow(Scaled(z, n1), x, p, n1, w1, w, k, r, s, m);
    var q := Exp(Exp(w, n1), s);
    var ra, rb, rz := Row(ya, p, r), Row(yb, p, r), Row(z, p, r);
    RowScaled(z, n1, p, r);
    ScaledPoly(rz, n1, q);
    RowValue(rz, ra, rb, g, w2, k2, Exp(w, n1), s, m);
    TurnedRow(ya, a, p, n1, w1, w, k, r, s, m);
    TurnedRow(yb, b, p, n1, w1, w, k, r, s, m);
    ConvolutionValue(a, b, n1 * g, w, k, e, Poly(ra, q), Poly(rb, q), m);
    ScaledValue(n1, Poly(rz, q), g, Poly(ra, q) * Poly(rb, q), m);
    CongSym(n1 * Poly(rz, q), Poly(x, Exp(w, e)), m);
    CongTrans(Poly(x, Exp(w, e)), n1 * Poly(rz, q), n1 * g * (Poly(ra, q) * Poly(rb, q)), m);
    CongTrans(Poly(x, Exp(w, e)), n1 * g * (Poly(ra, q) * Poly(rb, q)),
              Poly(Scaled(Cyclic(a, b), n1 * g), Exp(w, e)), m);
  }

  lemma {:induction false} RowScaled(z: seq<int>, f: int, p: nat, r: nat)
    ensures Row(Scaled(z, f), p, r) == Scaled(Row(z, p, r), f)
  {
  }

  lemma {:induction false} ScaledValue(n1: int, u: int, g: int, v: int, m: int)
    requires m > 0 && Cong(u, g * v, m)
    ensures Cong(n1 * u, n1 * g * v, m)
  {
    hide Cong;
    CongSelf(n1, m);
    CongMul(n1, n1, u, g * v, m);
    Assoc(n1, g, v);
  }

  /** The value of a convolved row at a power of its root. */
  lemma {:induction false} RowValue(rz: seq<int>, ra: seq<int>, rb: seq<int>, g: int, w2: int, k2: nat, y: int, s: nat,
                                    m: int)
    requires m > 0 && Root(w2, k2, m) && Cong(w2, y, m) && |ra| == |rb| == Pow2(k2)
    requires Convolved(rz, ra, rb, g, m)
    ensures Cong(Poly(rz, Exp(y, s)), g * (Poly(ra, Exp(y, s)) * Poly(rb, Exp(y, s))), m)
  {
    hide Cong, Exp, Poly, Root, Pow2, Cyclic;
    var q := Exp(w2, s);
    var d := Scaled(Cyclic(ra, rb), g);
    forall j | 0 <= j < |rz|
      ensures Cong(rz[j], d[j], m)
    {
      assert ConvolvedAt(rz, ra, rb, g, j, m);
    }
    ExpCong(w2, y, s, m);
    CongSym(q, Exp(y, s), m);
    PolyPoint(rz, Exp(y, s), q, m);
    PolyPoint(ra, q, Exp(y, s), m);
    PolyPoint(rb, q, Exp(y, s), m);
    PolyCong(rz, d, q, m);
    CongSym(Poly(ra, q), Poly(ra, Exp(y, s)), m);
    CongSym(Poly(rb, q), Poly(rb, Exp(y, s)), m);
    ConvolutionValue(ra, rb, g, w2, k2, s, Poly(ra, Exp(y, s)), Poly(rb, Exp(y, s)), m);
    var t := g * (Poly(ra, Exp(y, s)) * Poly(rb, Exp(y, s)));
    CongSym(t, Poly(d, q), m);
    CongTrans(Poly(rz, Exp(y, s)), Poly(rz, q), Poly(d, q), m);
    CongTrans(Poly(rz, Exp(y, s)), Poly(d, q), t, m);
  }

  /** All coefficients of the result. */
  lemma {:induction false} SplitConvolution(a: seq<int>, b: seq<int>, ya: seq<int>, yb: seq<int>, z: seq<int>,
                                            x: seq<int>, p: nat, n1: nat, k2: nat, g: int, w1: int, w2: int, w: int,
                                            v: int, inv: int, k: nat, m: int)
    requires m > 0 && Root(w, k, m) && Root(v, k, m) && Cong(w * v, 1, m) && Cong(inv * Pow2(k), 1, m)
    requires n1 > 0 && n1 * p == Pow2(k) && |a| == |b| == |x| == n1 * p && p == Pow2(k2)
    requires Cong(w1, Exp(w, p), m) && Cong(w2, Exp(w, n1), m) && Root(w2, k2, m)
    requires Turned(ya, a, p, n1, w1, w, m) && Turned(yb, b, p, n1, w1, w, m)
    requires RowsConvolved(z, ya, yb, p, n1, g, m)
    requires Turned(Scaled(z, n1), x, p, n1, w1, w, m)
    ensures Convolved(x, a, b, n1 * g, m)
  {
    hide Cong, Exp, Poly, Root, Pow2, Turned, RowsConvolved, Scaled, Cyclic;
    var d := Scaled(Cyclic(a, b), n1 * g);
    forall e | 0 <= e < Pow2(k)
      ensures Cong(Poly(x, Exp(w, e)), Poly(d, Exp(w, e)), m)
    {
      DivMod(e, n1);
      SplitValue(a, b, ya, yb, z, x, p, n1, k2, g, w1, w2, w, k, e % n1, e / n1, m);
      assert Index(n1, e / n1, e % n1) == e;
    }
    forall j | 0 <= j < |x|
      ensures ConvolvedAt(x, a, b, n1 * g, j, m)
    {
      SameCoefficients(x, d, w, v, k, inv, j, m);
      ScaledAt(Cyclic(a, b), n1 * g, 1, j);
    }
  }

  // ----- turning back -----

  /** Column j of z with the powers of v^j. */
  ghost function TurnedColumn(z: seq<int>, p: nat, j: nat, n1: nat, v: int): (c: seq<int>)
    ensures |c| == n1
  {
    seq(n1, r requires 0 <= r < n1 => Cell(z, p, r, j) * Exp(Exp(v, j), r))
  }

  /** Cell (i, j) of x is the value of the turned column j of z at the i-th power of v1. */
  ghost predicate TurnedBackAt(x: seq<int>, z: seq<int>, p: nat, n1: nat, v1: int, v: int, i: nat, j: nat, m: int)
    requires m > 0
  {
    Cong(Cell(x, p, i, j), Poly(TurnedColumn(z, p, j, n1, v), Exp(v1, i)), m)
  }

  ghost predicate TurnedBack(x: seq<int>, z: seq<int>, p: nat, n1: nat, v1: int, v: int, m: int)
    requires m > 0
  {
    forall i, j :: 0 <= i < n1 && 0 <= j < p ==> TurnedBackAt(x, z, p, n1, v1, v, i, j, m)
  }

  /** Turning back undoes turning, up to the number of rows. */
  lemma {:induction false} TurnBack(x: seq<int>, z: seq<int>, p: nat, n1: nat, k1: nat, w1: int, v1: int, w: int,
                                    v: int, m: int)
    requires m > 0 && Root(w1, k1, m) && Root(v1, k1, m) && n1 == Pow2(k1)
    requires Cong(w1 * v1, 1, m) && Cong(w * v, 1, m)
    requires TurnedBack(x, z, p, n1, v1, v, m)
    ensures Turned(Scaled(z, n1), x, p, n1, w1, w, m)
  {
    hide Root, Cong, Pow2, TurnedBack, TurnedAt, Scaled;
    forall r, j | 0 <= r < n1 && 0 <= j < p
      ensures TurnedAt(Scaled(z, n1), x, p, n1, w1, w, r, j, m)
    {
      TurnBackCell(x, z, p, n1, k1, w1, v1, w, v, r, j, m);
    }
  }

  lemma {:induction false} TurnBackCell(x: seq<int>, z: seq<int>, p: nat, n1: nat, k1: nat, w1: int, v1: int, w: int,
                                        v: int, r: nat, j: nat, m: int)
    requires m > 0 && Root(w1, k1, m) && Root(v1, k1, m) && n1 == Pow2(k1) && r < n1 && j < p
    requires Cong(w1 * v1, 1, m) && Cong(w * v, 1, m)
    requires TurnedBack(x, z, p, n1, v1, v, m)
    ensures TurnedAt(Scaled(z, n1), x, p, n1, w1, w, r, j, m)
  {
    hide Root, Cong, Pow2, Exp, Poly, Cell;
    var d, c := TurnedColumn(z, p, j, n1, v), Column(x, p, j, n1);
    forall i | 0 <= i < n1
      ensures Cong(c[i], Poly(d, Exp(v1, i)), m)
    {
      assert TurnedBackAt(x, z, p, n1, v1, v, i, j, m);
    }
    assert v1 * w1 == w1 * v1;
    InverseTransform(d, c, v1, w1, k1, r, m);
    ScaledCell(z, n1, p, r, j);
    var f, e := Exp(Exp(v, j), r), Exp(Exp(w, j), r);
    TurnsCancel(w, v, j, r, m);
    TurnArith(Poly(c, Exp(w1, r)), n1, Cell(z, p, r, j), f, e, m);
  }

  lemma {:induction false} ScaledCell(z: seq<int>, f: int, p: nat, r: nat, j: nat)
    ensures Cell(Scaled(z, f), p, r, j) == f * Cell(z, p, r, j)
  {
  }

  lemma {:induction false} TurnsCancel(w: int, v: int, j: nat, r: nat, m: int)
    requires m > 0 && Cong(w * v, 1, m)
    ensures Cong(Exp(Exp(v, j), r) * Exp(Exp(w, j), r), 1, m)
  {
    hide Cong, Exp;
    ExpProduct(w, v, j);
    ExpCong(w * v, 1, j, m);
    OneExp(j);
    ExpProduct(Exp(v, j), Exp(w, j), r);
    assert Exp(v, j) * Exp(w, j) == Exp(w, j) * Exp(v, j);
    ExpCong(Exp(w, j) * Exp(v, j), 1, r, m);
    OneExp(r);
  }

  lemma {:induction false} TurnArith(u: int, n1: int, c: int, f: int, e: int, m: int)
    requires m > 0 && Cong(u, n1 * (c * f), m) && Cong(f * e, 1, m)
    ensures Cong(n1 * c, u * e, m)
  {
    hide Cong;
    CongSelf(e, m);
    CongMul(u, n1 * (c * f), e, e, m);
    Assoc(c, f, e);
    Assoc(n1, c * f, e);
    Assoc(n1, c, f * e);
    CongSelf(n1 * c, m);
    CongMul(n1 * c, n1 * c, f * e, 1, m);
    CongTrans(u * e, n1 * c * (f * e), n1 * c, m);
    CongSym(u * e, n1 * c, m);
  }
}
