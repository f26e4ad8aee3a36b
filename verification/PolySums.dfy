/** The algebra behind the transform: values of a polynomial at the powers of a root of unity, and
    how the coefficients come back from them. */
module PolySums {
  import opened Arith
  import opened LimbMul
  import opened ModWords

  // ----- powers -----

  /** z to the power n. */
  ghost function Exp(z: int, n: nat): int {
    if n == 0 then 1 else z * Exp(z, n - 1)
  }

  lemma {:induction false} ExpAdd(z: int, i: nat, j: nat)
    ensures Exp(z, i + j) == Exp(z, i) * Exp(z, j)
  {
    if i > 0 {
      ExpAdd(z, i - 1, j);
      Assoc(z, Exp(z, i - 1), Exp(z, j));
    }
  }

  lemma {:induction false} ExpOne(z: int)
    ensures Exp(z, 0) == 1 && Exp(z, 1) == z
  {
    assert Exp(z, 1) == z * Exp(z, 0);
  }

  lemma {:induction false} ExpTimes(z: int, i: nat, j: nat)
    ensures Exp(z, i * j) == Exp(Exp(z, i), j)
  {
    if j == 0 {
    } else {
      Distrib(j - 1, 1, i);
      MulNonneg(i, j - 1);
      ExpTimes(z, i, j - 1);
      ExpAdd(z, i, i * (j - 1));
    }
  }

  lemma {:induction false} ExpProduct(y: int, z: int, n: nat)
    ensures Exp(y * z, n) == Exp(y, n) * Exp(z, n)
  {
    if n > 0 {
      ExpProduct(y, z, n - 1);
      FourProduct(y, z, Exp(y, n - 1), Exp(z, n - 1));
    }
  }

  lemma {:induction false} FourProduct(a: int, b: int, c: int, d: int)
    ensures (a * b) * (c * d) == (a * c) * (b * d)
  {
    Assoc(a, b, c * d);
    Assoc(b, c, d);
    Assoc(c, b, d);
    Assoc(a, c, b * d);
  }

  lemma {:induction false} OneExp(n: nat)
    ensures Exp(1, n) == 1
  {
    if n > 0 {
      OneExp(n - 1);
    }
  }

  /** Powers of -1. */
  lemma {:induction false} SignExp(n: nat)
    ensures Exp(-1, n) == if n % 2 == 0 then 1 else -1
  {
    if n > 0 {
      SignExp(n - 1);
    }
  }

  lemma {:induction false} ExpCong(y: int, z: int, n: nat, m: int)
    requires m > 0 && Cong(y, z, m)
    ensures Cong(Exp(y, n), Exp(z, n), m)
  {
    hide Cong;
    if n == 0 {
      CongSelf(1, m);
    } else {
      ExpCong(y, z, n - 1, m);
      CongMul(y, z, Exp(y, n - 1), Exp(z, n - 1), m);
    }
  }

  // ----- polynomials -----

  /** The value at z of the polynomial with coefficients c. */
  ghost function Poly(c: seq<int>, z: int): int {
    if |c| == 0 then 0 else c[0] + z * Poly(c[1..], z)
  }

  lemma {:induction false} PolySplit(c: seq<int>, d: seq<int>, z: int)
    ensures Poly(c + d, z) == Poly(c, z) + Exp(z, |c|) * Poly(d, z)
  {
    if |c| == 0 {
      assert c + d == d;
    } else {
      assert (c + d)[1..] == c[1..] + d;
      PolySplit(c[1..], d, z);
      SplitArith(c[0], z, Poly(c[1..], z), Exp(z, |c| - 1), Poly(d, z));
    }
  }

  lemma {:induction false} SplitArith(x: int, z: int, u: int, p: int, v: int)
    ensures x + z * (u + p * v) == x + z * u + (z * p) * v
  {
    Assoc(z, p, v);
    Distrib(u, p * v, z);
  }

  lemma {:induction false} PolyCong(c: seq<int>, d: seq<int>, z: int, m: int)
    requires m > 0 && |c| == |d|
    requires forall i :: 0 <= i < |c| ==> Cong(c[i], d[i], m)
    ensures Cong(Poly(c, z), Poly(d, z), m)
  {
    hide Cong;
    if |c| == 0 {
      CongSelf(0, m);
    } else {
      PolyCong(c[1..], d[1..], z, m);
      CongSelf(z, m);
      CongMul(z, z, Poly(c[1..], z), Poly(d[1..], z), m);
      CongAdd(c[0], d[0], z * Poly(c[1..], z), z * Poly(d[1..], z), m);
    }
  }

  lemma {:induction false} PolyPoint(c: seq<int>, y: int, z: int, m: int)
    requires m > 0 && Cong(y, z, m)
    ensures Cong(Poly(c, y), Poly(c, z), m)
  {
    hide Cong;
    if |c| == 0 {
      CongSelf(0, m);
    } else {
      PolyPoint(c[1..], y, z, m);
      CongMul(y, z, Poly(c[1..], y), Poly(c[1..], z), m);
      CongSelf(c[0], m);
      CongAdd(c[0], c[0], y * Poly(c[1..], y), z * Poly(c[1..], z), m);
    }
  }

  /** A linear combination of coefficients gives the combination of the values. */
  lemma {:induction false} PolyLinear(a: seq<int>, b: seq<int>, s: int, c: seq<int>, z: int)
    requires |a| == |b| == |c|
    requires forall i :: 0 <= i < |c| ==> c[i] == a[i] + s * b[i]
    ensures Poly(c, z) == Poly(a, z) + s * Poly(b, z)
  {
    if |c| > 0 {
      PolyLinear(a[1..], b[1..], s, c[1..], z);
      LinearArith(a[0], b[0], s, z, Poly(a[1..], z), Poly(b[1..], z));
    }
  }

  lemma {:induction false} LinearArith(a: int, b: int, s: int, z: int, u: int, v: int)
    ensures a + s * b + z * (u + s * v) == a + z * u + s * (b + z * v)
  {
    Distrib(u, s * v, z);
    Distrib(b, z * v, s);
    Assoc(z, s, v);
    Assoc(s, z, v);
  }

  /** Coefficients times the powers of u: the value moves to u * y. */
  lemma {:induction false} PolyTwist(c: seq<int>, d: seq<int>, u: int, e: nat, y: int)
    requires |c| == |d|
    requires forall i :: 0 <= i < |c| ==> d[i] == c[i] * Exp(u, e + i)
    ensures Poly(d, y) == Exp(u, e) * Poly(c, u * y)
  {
    if |c| > 0 {
      forall i | 0 <= i < |c| - 1
        ensures d[1..][i] == c[1..][i] * Exp(u, e + 1 + i)
      {
        assert d[i + 1] == c[i + 1] * Exp(u, e + (i + 1));
      }
      PolyTwist(c[1..], d[1..], u, e + 1, y);
      assert d[0] == c[0] * Exp(u, e + 0);
      TwistArith(c[0], u, Exp(u, e), y, Poly(c[1..], u * y));
    }
  }

  lemma {:induction false} TwistArith(x: int, u: int, p: int, y: int, v: int)
    ensures x * p + y * ((u * p) * v) == p * (x + (u * y) * v)
  {
    Distrib(x, (u * y) * v, p);
    assert y * ((u * p) * v) == p * ((u * y) * v) by {
      Assoc(u, p, v);
      Assoc(u, y, v);
      Rotate(y, u, p, v);
    }
  }

  lemma {:induction false} Rotate(y: int, u: int, p: int, v: int)
    ensures y * (u * (p * v)) == p * (u * (y * v))
  {
    Assoc(y, u, p * v);
    Assoc(y * u, p, v);
    Assoc(p, u, y * v);
    Assoc(p * u, y, v);
    FourProduct(y, u, p, 1);
    assert y * u * p == p * u * y by {
      Assoc(y, u, p);
      Assoc(p, u, y);
    }
  }

  // ----- one butterfly on halves of a column -----

  /** Where z to the half length is 1, sums of halves keep the value. */
  lemma {:induction false} HalvesSum(lo: seq<int>, hi: seq<int>, e: seq<int>, z: int, m: int)
    requires m > 0 && |lo| == |hi| == |e| && Cong(Exp(z, |lo|), 1, m)
    requires forall i :: 0 <= i < |e| ==> Cong(e[i], lo[i] + hi[i], m)
    ensures Cong(Poly(e, z), Poly(lo + hi, z), m)
  {
    hide Cong;
    hide Poly;
    hide Exp;
    var s := seq(|lo|, i requires 0 <= i < |lo| => lo[i] + 1 * hi[i]);
    PolyCong(e, s, z, m);
    PolyLinear(lo, hi, 1, s, z);
    PolySplit(lo, hi, z);
    FactorCong(Poly(lo, z), Exp(z, |lo|), 1, Poly(hi, z), m);
    CongSym(Poly(lo + hi, z), Poly(s, z), m);
    CongTrans(Poly(e, z), Poly(s, z), Poly(lo + hi, z), m);
  }

  lemma {:induction false} FactorCong(a: int, x: int, y: int, b: int, m: int)
    requires m > 0 && Cong(x, y, m)
    ensures Cong(a + x * b, a + y * b, m)
  {
    hide Cong;
    CongSelf(a, m);
    CongSelf(b, m);
    CongMul(x, y, b, b, m);
    CongAdd(a, a, x * b, y * b, m);
  }

  /** Where z = u * y to the half length is -1, differences of halves times the powers of u carry the
      value to the point y. */
  lemma {:induction false} HalvesDifference(lo: seq<int>, hi: seq<int>, o: seq<int>, u: int, y: int, m: int)
    requires m > 0 && |lo| == |hi| == |o| && Cong(Exp(u * y, |lo|), -1, m)
    requires forall i :: 0 <= i < |o| ==> Cong(o[i], (lo[i] - hi[i]) * Exp(u, i), m)
    ensures Cong(Poly(o, y), Poly(lo + hi, u * y), m)
  {
    hide Cong;
    hide Poly;
    hide Exp;
    var z := u * y;
    var d := seq(|lo|, i requires 0 <= i < |lo| => lo[i] + -1 * hi[i]);
    var t := seq(|lo|, i requires 0 <= i < |lo| => d[i] * Exp(u, 0 + i));
    PolyCong(o, t, y, m);
    PolyTwist(d, t, u, 0, y);
    ExpOne(u);
    PolyLinear(lo, hi, -1, d, z);
    PolySplit(lo, hi, z);
    FactorCong(Poly(lo, z), Exp(z, |lo|), -1, Poly(hi, z), m);
    CongSym(Poly(lo + hi, z), Poly(t, y), m);
    CongTrans(Poly(o, y), Poly(t, y), Poly(lo + hi, z), m);
  }

  // ----- roots of unity -----

  /** w is a primitive root of unity of order 2^k modulo m: its half power is -1. */
  ghost predicate Root(w: int, k: nat, m: int)
    requires m > 0
  {
    k >= 1 && Cong(Exp(w, Pow2(k - 1)), -1, m)
  }

  /** 1 + z + ... + z^(n - 1). */
  ghost function Geo(z: int, n: nat): int {
    if n == 0 then 0 else 1 + z * Geo(z, n - 1)
  }

  lemma {:induction false} GeoAdd(z: int, i: nat, j: nat)
    ensures Geo(z, i + j) == Geo(z, i) + Exp(z, i) * Geo(z, j)
  {
    if i > 0 {
      GeoAdd(z, i - 1, j);
      SplitArith(1, z, Geo(z, i - 1), Exp(z, i - 1), Geo(z, j));
    }
  }

  lemma {:induction false} GeoOne(n: nat)
    ensures Geo(1, n) == n
  {
    if n > 0 {
      GeoOne(n - 1);
    }
  }

  lemma {:induction false} GeoCong(y: int, z: int, n: nat, m: int)
    requires m > 0 && Cong(y, z, m)
    ensures Cong(Geo(y, n), Geo(z, n), m)
  {
    hide Cong;
    if n == 0 {
      CongSelf(0, m);
    } else {
      GeoCong(y, z, n - 1, m);
      CongMul(y, z, Geo(y, n - 1), Geo(z, n - 1), m);
      CongSelf(1, m);
      CongAdd(1, 1, y * Geo(y, n - 1), z * Geo(z, n - 1), m);
    }
  }

  /** The sum over 2^k powers has the factor 1 + z^(2^t) for every t < k. */
  lemma {:induction false} GeoZero(z: int, k: nat, t: nat, m: int)
    requires m > 0 && t < k && Cong(Exp(z, Pow2(t)), -1, m)
    ensures Cong(Geo(z, Pow2(k)), 0, m)
  {
    hide Cong;
    hide Exp;
    hide Geo;
    var h := Pow2(k - 1);
    assert Pow2(k) == h + h;
    GeoAdd(z, h, h);
    var g := Geo(z, h);
    if t == k - 1 {
      FactorCong(g, Exp(z, h), -1, g, m);
    } else {
      GeoZero(z, k - 1, t, m);
      ZeroPair(g, Exp(z, h), m);
    }
  }

  lemma {:induction false} ZeroPair(g: int, p: int, m: int)
    requires m > 0 && Cong(g, 0, m)
    ensures Cong(g + p * g, 0, m)
  {
    hide Cong;
    CongSelf(p, m);
    CongMul(p, p, g, 0, m);
    CongAdd(g, 0, p * g, p * 0, m);
  }

  /** A power of a root below its order is no trivial root: one of its 2^t-th powers is -1. */
  lemma {:induction false} PowerOfRoot(w: int, k: nat, d: nat, m: int) returns (t: nat)
    requires m > 0 && Root(w, k, m) && 0 < d < Pow2(k)
    ensures t < k && Cong(Exp(Exp(w, d), Pow2(t)), -1, m)
    decreases k
  {
    hide Cong;
    hide Exp;
    var h := Pow2(k - 1);
    if d % 2 == 1 {
      t := k - 1;
      ExpTimes(w, h, d);
      ExpTimes(w, d, h);
      ExpCong(Exp(w, h), -1, d, m);
      SignExp(d);
      assert d * h == h * d;
    } else {
      PowTwoSmall();
      SquaredRoot(w, k, m);
      t := PowerOfRoot(Exp(w, 2), k - 1, d / 2, m);
      ExpTimes(w, 2, d / 2);
    }
  }

  /** The square of a root of order 2^k has order 2^(k - 1). */
  lemma {:induction false} SquaredRoot(w: int, k: nat, m: int)
    requires m > 0 && k >= 2 && Root(w, k, m)
    ensures Root(Exp(w, 2), k - 1, m)
  {
    hide Cong;
    hide Exp;
    assert Pow2(k - 1) == 2 * Pow2(k - 2);
    ExpTimes(w, 2, Pow2(k - 2));
  }

  /** The sum over the powers of w^i * v^j, for w and v inverse to each other: the order when i is j,
      otherwise nothing. */
  lemma {:induction false} Orthogonal(w: int, v: int, k: nat, i: nat, j: nat, m: int)
    requires m > 0 && Root(w, k, m) && Root(v, k, m) && Cong(w * v, 1, m)
    requires i < Pow2(k) && j < Pow2(k)
    ensures Cong(Geo(Exp(w, i) * Exp(v, j), Pow2(k)), if i == j then Pow2(k) else 0, m)
  {
    hide *;
    if i >= j {
      InversePart(w, v, j, i - j, m);
      GeoAtPower(w, k, i - j, Exp(w, i) * Exp(v, j), m);
    } else {
      assert v * w == w * v;
      InversePart(v, w, i, j - i, m);
      assert Exp(v, j) * Exp(w, i) == Exp(w, i) * Exp(v, j);
      GeoAtPower(v, k, j - i, Exp(w, i) * Exp(v, j), m);
    }
  }

  /** Inverse powers cancel. */
  lemma {:induction false} InversePart(w: int, v: int, j: nat, d: nat, m: int)
    requires m > 0 && Cong(w * v, 1, m)
    ensures Cong(Exp(w, j + d) * Exp(v, j), Exp(w, d), m)
  {
    hide Cong;
    hide Exp;
    ExpProduct(w, v, j);
    ExpCong(w * v, 1, j, m);
    OneExp(j);
    ExpAdd(w, j, d);
    var a, b, c := Exp(w, j), Exp(v, j), Exp(w, d);
    assert (a * c) * b == (a * b) * c by {
      FourProduct(a, c, b, 1);
    }
    CongSelf(c, m);
    CongMul(a * b, 1, c, c, m);
  }

  lemma {:induction false} GeoAtPower(w: int, k: nat, d: nat, z: int, m: int)
    requires m > 0 && Root(w, k, m) && d < Pow2(k) && Cong(z, Exp(w, d), m)
    ensures Cong(Geo(z, Pow2(k)), if d == 0 then Pow2(k) else 0, m)
  {
    hide Cong;
    hide Exp;
    hide Geo;
    var n := Pow2(k);
    GeoCong(z, Exp(w, d), n, m);
    if d == 0 {
      ExpOne(w);
      GeoOne(n);
    } else {
      var t := PowerOfRoot(w, k, d, m);
      GeoZero(Exp(w, d), k, t, m);
      CongTrans(Geo(z, n), Geo(Exp(w, d), n), 0, m);
    }
  }

  // ----- the inverse transform -----

  /** The sum of c[i] times the sum of the powers of w^(e + i) * u. */
  ghost function GeoSum(c: seq<int>, w: int, u: int, e: nat, n: nat): int {
    if |c| == 0 then 0 else c[0] * Geo(Exp(w, e) * u, n) + GeoSum(c[1..], w, u, e + 1, n)
  }

  /** Exchanging the two sums of a transform of a transform. */
  lemma {:induction false} ExchangeSums(c: seq<int>, d: seq<int>, w: int, u: int, e: nat)
    requires forall k :: 0 <= k < |d| ==> d[k] == Exp(Exp(w, e), k) * Poly(c, Exp(w, k))
    ensures Poly(d, u) == GeoSum(c, w, u, e, |d|)
    decreases |c|
  {
    hide Exp;
    var n := |d|;
    if |c| == 0 {
      forall k | 0 <= k < n
        ensures d[k] == 0
      {
        assert Exp(Exp(w, e), k) * 0 == 0;
      }
      PolyZero(d, u);
    } else {
      var g := seq(n, k requires 0 <= k < n => Exp(Exp(w, e), k));
      var r := seq(n, k requires 0 <= k < n => Exp(Exp(w, e + 1), k) * Poly(c[1..], Exp(w, k)));
      ExchangeSums(c[1..], r, w, u, e + 1);
      forall k | 0 <= k < n
        ensures d[k] == r[k] + c[0] * g[k]
      {
        PeelTerm(w, e, k, c[0], Poly(c[1..], Exp(w, k)));
      }
      PolyLinear(r, g, c[0], d, u);
      PolyPowers(g, Exp(w, e), u);
    }
  }

  lemma {:induction false} PeelTerm(w: int, e: nat, k: nat, x: int, p: int)
    ensures Exp(Exp(w, e), k) * (x + Exp(w, k) * p) == Exp(Exp(w, e + 1), k) * p + x * Exp(Exp(w, e), k)
  {
    hide Exp;
    var a, b := Exp(Exp(w, e), k), Exp(w, k);
    ExpAdd(w, e, 1);
    ExpOne(w);
    ExpProduct(Exp(w, e), w, k);
    Assoc(a, b, p);
    Distrib(x, b * p, a);
  }

  lemma {:induction false} PolyZero(d: seq<int>, u: int)
    requires forall k :: 0 <= k < |d| ==> d[k] == 0
    ensures Poly(d, u) == 0
  {
    if |d| > 0 {
      PolyZero(d[1..], u);
    }
  }

  lemma {:induction false} PolyPowers(g: seq<int>, y: int, u: int)
    requires forall k :: 0 <= k < |g| ==> g[k] == Exp(y, k)
    ensures Poly(g, u) == Geo(y * u, |g|)
  {
    hide Exp;
    var ones := seq(|g|, k => 1);
    ExpOne(y);
    PolyTwist(ones, g, y, 0, u);
    PolyOnes(ones, y * u);
  }

  lemma {:induction false} PolyOnes(c: seq<int>, z: int)
    requires forall k :: 0 <= k < |c| ==> c[k] == 1
    ensures Poly(c, z) == Geo(z, |c|)
  {
    if |c| > 0 {
      PolyOnes(c[1..], z);
    }
  }

  /** Of all terms only the one with i = j remains. */
  lemma {:induction false} PickTerm(c: seq<int>, w: int, v: int, k: nat, e: nat, j: nat, m: int)
    requires m > 0 && Root(w, k, m) && Root(v, k, m) && Cong(w * v, 1, m)
    requires e + |c| <= Pow2(k) && j < Pow2(k)
    ensures Cong(GeoSum(c, w, Exp(v, j), e, Pow2(k)), if e <= j < e + |c| then Pow2(k) * c[j - e] else 0, m)
    decreases |c|
  {
    hide Cong, Exp, Geo, Root, Pow2;
    var n := Pow2(k);
    if |c| == 0 {
      CongSelf(0, m);
    } else {
      PickTerm(c[1..], w, v, k, e + 1, j, m);
      Orthogonal(w, v, k, e, j, m);
      var g := Geo(Exp(w, e) * Exp(v, j), n);
      CongSelf(c[0], m);
      CongMul(c[0], c[0], g, if e == j then n else 0, m);
      CongAdd(c[0] * g, c[0] * (if e == j then n else 0), GeoSum(c[1..], w, Exp(v, j), e + 1, n),
              if e + 1 <= j < e + |c| then n * c[j - e] else 0, m);
    }
  }

  /** The values of a polynomial at the powers of a root determine it: read as coefficients, their value
      at the j-th power of the inverse root is the order times the j-th coefficient. */
  lemma {:induction false} InverseTransform(c: seq<int>, spec: seq<int>, w: int, v: int, k: nat, j: nat, m: int)
    requires m > 0 && Root(w, k, m) && Root(v, k, m) && Cong(w * v, 1, m)
    requires |c| == |spec| == Pow2(k) && j < Pow2(k)
    requires forall i :: 0 <= i < |spec| ==> Cong(spec[i], Poly(c, Exp(w, i)), m)
    ensures Cong(Poly(spec, Exp(v, j)), Pow2(k) * c[j], m)
  {
    hide Cong, Exp, Geo, Root, Pow2;
    var n := Pow2(k);
    var u := Exp(v, j);
    var d := seq(n, i requires 0 <= i < n => Poly(c, Exp(w, i)));
    PolyCong(spec, d, u, m);
    ExpOne(w);
    forall i | 0 <= i < n
      ensures d[i] == Exp(Exp(w, 0), i) * Poly(c, Exp(w, i))
    {
      OneExp(i);
    }
    ExchangeSums(c, d, w, u, 0);
    PickTerm(c, w, v, k, 0, j, m);
    CongTrans(Poly(spec, u), Poly(d, u), n * c[j], m);
  }

  // ----- cyclic convolution -----

  /** The sum of a[i] * b[(j - i) mod n] over the coefficients of a, for n coefficients in b. */
  ghost function CyclicTerm(a: seq<int>, b: seq<int>, j: int): int
    requires |b| > 0
  {
    if |a| == 0 then 0 else a[0] * b[j % |b|] + CyclicTerm(a[1..], b, j - 1)
  }

  ghost function Cyclic(a: seq<int>, b: seq<int>): (c: seq<int>)
    requires |b| > 0
    ensures |c| == |b|
  {
    seq(|b|, j => CyclicTerm(a, b, j))
  }

  /** Where z^n is 1, the cyclic convolution has the product of the values. */
  lemma {:induction false} CyclicPoly(a: seq<int>, b: seq<int>, z: int, m: int)
    requires m > 0 && |b| > 0 && Cong(Exp(z, |b|), 1, m)
    ensures Cong(Poly(Cyclic(a, b), z), Poly(a, z) * Poly(b, z), m)
    decreases |a|
  {
    hide *;
    var n := |b|;
    var c := Cyclic(a, b);
    if |a| == 0 {
      CyclicNothing(b, z, m);
    } else {
      var r := Cyclic(a[1..], b);
      var s := [r[n - 1]] + r[..n - 1];
      CyclicPoly(a[1..], b, z, m);
      RotatedPoly(r, s, z, m);
      forall j | 0 <= j < n
        ensures c[j] == s[j] + a[0] * b[j]
      {
        CyclicStep(a, b, j);
      }
      PolyLinear(s, b, a[0], c, z);
      PolyHead(a, z);
      ConvArith(Poly(s, z), Poly(r, z), z, Poly(a[1..], z), Poly(b, z), a[0], m);
    }
  }

  lemma {:induction false} PolyHead(a: seq<int>, z: int)
    requires |a| > 0
    ensures Poly(a, z) == a[0] + z * Poly(a[1..], z)
  {
  }

  lemma {:induction false} CyclicNothing(b: seq<int>, z: int, m: int)
    requires m > 0 && |b| > 0
    ensures Cong(Poly(Cyclic([], b), z), Poly([], z) * Poly(b, z), m)
  {
    PolyZero(Cyclic([], b), z);
    CongSelf(0, m);
  }

  lemma {:induction false} CyclicStep(a: seq<int>, b: seq<int>, j: nat)
    requires |a| > 0 && j < |b|
    ensures var r := Cyclic(a[1..], b);
            Cyclic(a, b)[j] == ([r[|b| - 1]] + r[..|b| - 1])[j] + a[0] * b[j]
  {
    var n, r := |b|, Cyclic(a[1..], b);
    DivModUnique(j, n, 0, j);
    CyclicShift(a[1..], b, -1);
    assert Cyclic(a, b)[j] == a[0] * b[j] + CyclicTerm(a[1..], b, j - 1) by {
      hide *;
      CyclicAt(a, b, j);
    }
    hide CyclicTerm;
  }

  lemma {:induction false} CyclicAt(a: seq<int>, b: seq<int>, j: nat)
    requires |a| > 0 && j < |b| && j % |b| == j
    ensures Cyclic(a, b)[j] == a[0] * b[j] + CyclicTerm(a[1..], b, j - 1)
  {
  }

  lemma {:induction false} CyclicShift(a: seq<int>, b: seq<int>, j: int)
    requires |b| > 0
    ensures CyclicTerm(a, b, j) == CyclicTerm(a, b, j + |b|)
    decreases |a|
  {
    if |a| > 0 {
      CyclicShift(a[1..], b, j - 1);
      DivMod(j, |b|);
      DivModUnique(j + |b|, |b|, j / |b| + 1, j % |b|);
    }
  }

  /** Rotating the coefficients by one multiplies the value by z. */
  lemma {:induction false} RotatedPoly(r: seq<int>, s: seq<int>, z: int, m: int)
    requires m > 0 && |r| > 0 && Cong(Exp(z, |r|), 1, m) && s == [r[|r| - 1]] + r[..|r| - 1]
    ensures Cong(Poly(s, z), z * Poly(r, z), m)
  {
    hide Cong, Exp;
    var n := |r|;
    var low, x := r[..n - 1], r[n - 1];
    assert r == low + [x];
    assert s[1..] == low;
    PolySplit(low, [x], z);
    assert Poly([x], z) == x by {
      assert [x][1..] == [];
    }
    ExpAdd(z, 1, n - 1);
    ExpOne(z);
    var p := Exp(z, n - 1);
    SplitArith(0, z, Poly(low, z), p, x);
    CongSelf(z * Poly(low, z), m);
    CongSym(z * p, 1, m);
    FactorCong(z * Poly(low, z), 1, z * p, x, m);
  }

  lemma {:induction false} ConvArith(s: int, r: int, z: int, a: int, b: int, x: int, m: int)
    requires m > 0 && Cong(s, z * r, m) && Cong(r, a * b, m)
    ensures Cong(s + x * b, (x + z * a) * b, m)
  {
    hide Cong;
    CongSelf(z, m);
    CongMul(z, z, r, a * b, m);
    CongTrans(s, z * r, z * (a * b), m);
    CongSelf(x * b, m);
    CongAdd(s, z * (a * b), x * b, x * b, m);
    Assoc(z, a, b);
    Distrib(x, z * a, b);
  }
}
