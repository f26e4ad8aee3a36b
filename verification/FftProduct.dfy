/** Why sums of products of digits, taken cyclically and modulo enough primes, are the product. */
module FftProduct {
  import opened Arith
  import opened LimbMul
  import opened Bits
  import opened ModWords
  import opened PolySums
  import opened NttTables
  import opened NttInit
  import opened NttSplit
  import opened NttConv
  import opened FftSize
  import opened LimbToNtt
  import opened MixedRadix
  import opened NttToLimb

  /** The first n digits of v in base 2^dpl. */
  ghost function Coefs(v: nat, dpl: nat, n: nat): (c: seq<nat>)
    ensures |c| == n
  {
    seq(n, i requires 0 <= i < n => Coef(v, dpl, i))
  }

  /** The digits of the quotient by 2^dpl are the later digits. */
  lemma {:induction false} LaterDigit(v: nat, dpl: nat, i: nat, h: nat)
    requires h == v / Pow2(dpl)
    ensures Coef(v, dpl, i + 1) == Coef(h, dpl, i)
  {
    hide Pow2;
    MulNonneg(i, dpl);
    Distrib(i, 1, dpl);
    Pow2Add(dpl, i * dpl);
    DivDiv(v, Pow2(dpl), Pow2(i * dpl));
  }

  lemma {:induction false} DivDiv(v: int, p: int, q: int)
    requires p >= 1 && q >= 1 && v >= 0
    ensures v / (p * q) == v / p / q
  {
    DivMod(v, p);
    DivMod(v / p, q);
    var h, a, k, b := v / p, v % p, v / p / q, v / p % q;
    Distrib(k * q, b, p);
    assert k * q * p == k * (p * q) by {
      Assoc(k, q, p);
      assert q * p == p * q;
    }
    MulLe(b + 1, q, p);
    Distrib(b, 1, p);
    MulNonneg(b, p);
    DivModUnique(v, p * q, k, b * p + a);
  }

  lemma {:induction false} FirstDigit(v: nat, dpl: nat)
    ensures Coef(v, dpl, 0) == v % Pow2(dpl)
  {
    assert Pow2(0 * dpl) == 1;
  }

  /** A number is the value of its digits at 2^dpl. */
  lemma {:induction false} CoefsValue(v: nat, dpl: nat, n: nat)
    requires n * dpl >= 0 && v < Pow2(n * dpl)
    ensures Poly(Coefs(v, dpl, n), Pow2(dpl)) == v
    decreases n
  {
    hide Pow2, Coef;
    var z := Pow2(dpl);
    var c := Coefs(v, dpl, n);
    if n == 0 {
      OnePow2(n * dpl);
    } else {
      var h := v / z;
      DivMod(v, z);
      FirstDigit(v, dpl);
      Distrib(n - 1, 1, dpl);
      MulNonneg(n - 1, dpl);
      Pow2Add(dpl, (n - 1) * dpl);
      QuotientBelow(v, z, Pow2((n - 1) * dpl));
      CoefsValue(h, dpl, n - 1);
      forall i | 0 <= i < n - 1
        ensures c[1..][i] == Coef(h, dpl, i)
      {
        LaterDigit(v, dpl, i, h);
      }
      assert c[1..] == Coefs(h, dpl, n - 1);
      PolyHead(c, z);
    }
  }

  lemma {:induction false} QuotientBelow(v: int, z: int, p: int)
    requires z >= 1 && 0 <= v < z * p
    ensures 0 <= v / z < p
  {
    DivMod(v, z);
    if v / z >= p {
      MulLe(p, v / z, z);
      assert false;
    }
  }

  // ----- no wrap around -----

  /** Short enough operands: the cyclic convolution has the product as its value at every point. */
  lemma {:induction false} CyclicExact(a: seq<int>, b: seq<int>, nb: nat, z: int)
    requires |b| > 0 && |a| + nb <= |b| + 1 && forall i :: nb <= i < |b| ==> b[i] == 0
    ensures Poly(Cyclic(a, b), z) == Poly(a, z) * Poly(b, z)
    decreases |a|
  {
    hide Poly, CyclicTerm;
    var n := |b|;
    var c := Cyclic(a, b);
    if |a| == 0 {
      NothingValue(b, z);
    } else {
      var r := Cyclic(a[1..], b);
      var s := [r[n - 1]] + r[..n - 1];
      CyclicExact(a[1..], b, nb, z);
      LastIsZero(a[1..], b, nb, n - 1);
      ShiftedValue(r, s, z);
      forall j | 0 <= j < n
        ensures c[j] == s[j] + a[0] * b[j]
      {
        CyclicStep(a, b, j);
      }
      PolyLinear(s, b, a[0], c, z);
      PolyHead(a, z);
      ExactArith(Poly(r, z), z, Poly(a[1..], z), Poly(b, z), a[0]);
    }
  }

  lemma {:induction false} ExactArith(r: int, z: int, a: int, b: int, x: int)
    requires r == a * b
    ensures z * r + x * b == (x + z * a) * b
  {
    Assoc(z, a, b);
    Distrib(x, z * a, b);
  }

  lemma {:induction false} NothingValue(b: seq<int>, z: int)
    requires |b| > 0
    ensures Poly(Cyclic([], b), z) == Poly([], z) * Poly(b, z)
  {
    PolyZero(Cyclic([], b), z);
  }

  /** Where only zeros meet, the sum is zero. */
  lemma {:induction false} LastIsZero(a: seq<int>, b: seq<int>, nb: nat, j: int)
    requires |b| > 0 && nb + |a| <= j + 1 && j < |b| && forall i :: nb <= i < |b| ==> b[i] == 0
    ensures CyclicTerm(a, b, j) == 0
    decreases |a|
  {
    if |a| > 0 {
      DivModUnique(j, |b|, 0, j);
      LastIsZero(a[1..], b, nb, j - 1);
    }
  }

  /** A shift that brings round a zero multiplies the value by z. */
  lemma {:induction false} ShiftedValue(r: seq<int>, s: seq<int>, z: int)
    requires |r| > 0 && r[|r| - 1] == 0 && s == [r[|r| - 1]] + r[..|r| - 1]
    ensures Poly(s, z) == z * Poly(r, z)
  {
    hide Poly;
    var n := |r|;
    var low := r[..n - 1];
    assert r == low + [0];
    PolySplit(low, [0], z);
    PolyZero([0], z);
    PolyHead(s, z);
    assert s[1..] == low;
    assert Exp(z, n - 1) * 0 == 0;
  }

  /** Zeros at the end of an operand add nothing. */
  lemma {:induction false} TrimmedTerm(a: seq<int>, na: nat, b: seq<int>, j: int)
    requires |b| > 0 && na <= |a| && forall i :: na <= i < |a| ==> a[i] == 0
    ensures CyclicTerm(a, b, j) == CyclicTerm(a[..na], b, j)
    decreases |a|
  {
    if |a| > 0 {
      if na == 0 {
        assert a[0] == 0;
        TrimmedTerm(a[1..], 0, b, j - 1);
        assert a[1..][..0] == a[..0];
        assert CyclicTerm(a[..0], b, j) == 0 && CyclicTerm(a[1..][..0], b, j - 1) == 0;
      } else {
        TrimmedTerm(a[1..], na - 1, b, j - 1);
        assert a[..na][1..] == a[1..][..na - 1];
      }
    }
  }

  lemma {:induction false} TrimmedPoly(a: seq<int>, na: nat, z: int)
    requires na <= |a| && forall i :: na <= i < |a| ==> a[i] == 0
    ensures Poly(a, z) == Poly(a[..na], z)
  {
    hide Poly;
    assert a == a[..na] + a[na..];
    PolySplit(a[..na], a[na..], z);
    PolyZero(a[na..], z);
    assert Exp(z, na) * 0 == 0;
  }

  /** The convolution of the digits of two numbers, long enough for their product, has it as value. */
  lemma {:induction false} DigitsProduct(va: nat, vb: nat, dpl: nat, na: nat, nb: nat, n: nat)
    requires na <= n && nb <= n && na + nb <= n + 1 && n > 0
    requires na * dpl >= 0 && nb * dpl >= 0 && n * dpl >= 0
    requires va < Pow2(na * dpl) && vb < Pow2(nb * dpl)
    ensures Poly(Cyclic(Coefs(va, dpl, n), Coefs(vb, dpl, n)), Pow2(dpl)) == va * vb
  {
    hide Pow2, Coef, Poly, CyclicTerm;
    var a, b, z := Coefs(va, dpl, n), Coefs(vb, dpl, n), Pow2(dpl);
    MulLe(na, n, dpl);
    MulLe(nb, n, dpl);
    Pow2Mono(na * dpl, n * dpl);
    Pow2Mono(nb * dpl, n * dpl);
    forall i | na <= i < n
      ensures a[i] == 0
    {
      NoDigit(va, dpl, na, i);
    }
    forall i | nb <= i < n
      ensures b[i] == 0
    {
      NoDigit(vb, dpl, nb, i);
    }
    forall j | 0 <= j < n
      ensures Cyclic(a, b)[j] == Cyclic(a[..na], b)[j]
    {
      TrimmedTerm(a, na, b, j);
    }
    assert Cyclic(a, b) == Cyclic(a[..na], b);
    CyclicExact(a[..na], b, nb, z);
    TrimmedPoly(a, na, z);
    CoefsValue(va, dpl, n);
    CoefsValue(vb, dpl, n);
  }

  // ----- how large the sums are -----

  lemma {:induction false} TermBound(a: seq<nat>, b: seq<nat>, j: int, z: nat)
    requires |b| > 0 && z >= 1
    requires forall i :: 0 <= i < |a| ==> a[i] < z
    requires forall i :: 0 <= i < |b| ==> b[i] < z
    ensures 0 <= CyclicTerm(a, b, j) <= |a| * (z * z - 1)
    decreases |a|
  {
    if |a| > 0 {
      TermBound(a[1..], b, j - 1, z);
      DivMod(j, |b|);
      DigitProduct(a[0], b[j % |b|], z);
      Distrib(|a| - 1, 1, z * z - 1);
    }
  }

  lemma {:induction false} DigitProduct(x: int, y: int, z: int)
    requires 0 <= x < z && 0 <= y < z
    ensures 0 <= x * y <= z * z - 1
  {
    MulNonneg(x, y);
    MulLe(x, z - 1, y);
    MulLe(y, z, z - 1);
    Distrib(z - 1, 1, z);
  }

  /** The sums of products of digits, as natural numbers. */
  ghost function SumsOf(va: nat, vb: nat, dpl: nat, n: nat): (vs: seq<nat>)
    requires n > 0
    ensures |vs| == n
    ensures forall i :: 0 <= i < n ==> vs[i] == Cyclic(Coefs(va, dpl, n), Coefs(vb, dpl, n))[i]
  {
    SumsNonneg(va, vb, dpl, n);
    seq(n, i requires 0 <= i < n => CyclicTerm(Coefs(va, dpl, n), Coefs(vb, dpl, n), i))
  }

  lemma {:induction false} SumsNonneg(va: nat, vb: nat, dpl: nat, n: nat)
    requires n > 0
    ensures forall i :: 0 <= i < n ==> 0 <= CyclicTerm(Coefs(va, dpl, n), Coefs(vb, dpl, n), i)
    ensures forall i :: 0 <= i < n ==>
              CyclicTerm(Coefs(va, dpl, n), Coefs(vb, dpl, n), i) <= n * (Pow2(dpl) * Pow2(dpl) - 1)
  {
    hide Pow2, Coef, CyclicTerm;
    forall i | 0 <= i < n
      ensures 0 <= CyclicTerm(Coefs(va, dpl, n), Coefs(vb, dpl, n), i) <= n * (Pow2(dpl) * Pow2(dpl) - 1)
    {
      TermBound(Coefs(va, dpl, n), Coefs(vb, dpl, n), i, Pow2(dpl));
    }
  }

  lemma {:induction false} LongPowers()
    ensures Pow2(123) == 0x800_0000_0000_0000_0000_0000_0000_0000
    ensures Pow2(185) == Pow2(123) * 0x4000_0000_0000_0000
    ensures Pow2(246) == Pow2(123) * Pow2(123)
    ensures Pow2(307) == Pow2(246) * 0x2000_0000_0000_0000
  {
    WordPower();
    hide Pow2;
    Pow2Add(61, 62);
    Pow2Add(61, 1);
    Pow2Add(123, 62);
    Pow2Add(123, 123);
    Pow2Add(246, 61);
    PowTwoSmall();
  }

  lemma {:induction false} ProductStep(first: nat)
    requires first < NB_MODS
    ensures Product(Mods(first)) == NTT_MODS[first] * Product(Mods(first + 1))
  {
    assert Mods(first)[0] == NTT_MODS[first] && Mods(first)[1..] == Mods(first + 1);
  }

  /** The moduli in use have room for sums of IntBits bits. */
  lemma {:induction false} RoomForSums(nbMods: nat)
    requires 3 <= nbMods <= NB_MODS
    ensures Pow2(IntBits(nbMods)) <= Product(Mods(NB_MODS - nbMods))
  {
    hide Pow2, Mods, Product;
    LongPowers();
    LastProduct();
    ProductStep(4);
    ProductStep(3);
    ProductStep(2);
    ProductStep(1);
    ProductStep(0);
    RoomArith(Product(Mods(2)), Product(Mods(1)), Product(Mods(0)), Pow2(123));
  }

  lemma {:induction false} LastProduct()
    ensures Product(Mods(5)) == 1
  {
  }

  lemma {:induction false} RoomArith(p3: int, p4: int, p5: int, h: int)
    requires h == 0x800_0000_0000_0000_0000_0000_0000_0000
    requires p3 == NTT_MODS[2] as int * (NTT_MODS[3] as int * NTT_MODS[4])
    requires p4 == NTT_MODS[1] * p3 && p5 == NTT_MODS[0] * p4
    ensures h * 0x4000_0000_0000_0000 <= p3 && h * h <= p4 && h * h * 0x2000_0000_0000_0000 <= p5
  {
  }

  /** Every sum is below the product of the moduli. */
  lemma {:induction false} SumsFit(va: nat, vb: nat, dpl: nat, nbMods: nat, logN: nat, len: nat, i: nat)
    requires Suitable(len, dpl, nbMods, logN) && i < Pow2(logN)
    ensures SumsOf(va, vb, dpl, Pow2(logN))[i] < Product(Mods(NB_MODS - nbMods))
  {
    hide Pow2, CyclicTerm, Coef, Product, Mods;
    var n := Pow2(logN);
    SumsNonneg(va, vb, dpl, n);
    Pow2Add(dpl, dpl);
    Pow2Add(logN, 2 * dpl);
    Pow2Mono(logN + 2 * dpl, IntBits(nbMods));
    RoomForSums(nbMods);
    Distrib(Pow2(dpl) * Pow2(dpl), -1, n);
  }

  // ----- the value of the sums -----

  lemma {:induction false} ExpOfPow2(dpl: nat, i: nat)
    ensures i * dpl >= 0 && Exp(Pow2(dpl), i) == Pow2(i * dpl)
  {
    hide Pow2;
    MulNonneg(i, dpl);
    if i == 0 {
      OnePow2(i * dpl);
    } else {
      ExpOfPow2(dpl, i - 1);
      Distrib(i - 1, 1, dpl);
      Pow2Add(dpl, (i - 1) * dpl);
    }
  }

  lemma {:induction false} SumToIsPoly(vs: seq<nat>, dpl: nat, i: nat)
    requires i <= |vs|
    ensures SumTo(vs, dpl, i) == Poly(vs[..i], Pow2(dpl))
  {
    hide Pow2;
    if i > 0 {
      SumToIsPoly(vs, dpl, i - 1);
      ExpOfPow2(dpl, i - 1);
      assert vs[..i] == vs[..i - 1] + [vs[i - 1]];
      PolySplit(vs[..i - 1], [vs[i - 1]], Pow2(dpl));
      PolyHead([vs[i - 1]], Pow2(dpl));
      assert [vs[i - 1]][1..] == [];
      assert Poly([], Pow2(dpl)) == 0;
    }
  }

  lemma {:induction false} PolyNonneg(vs: seq<nat>, z: nat)
    ensures Poly(vs, z) >= 0
  {
    if |vs| > 0 {
      PolyNonneg(vs[1..], z);
      MulNonneg(z, Poly(vs[1..], z));
    }
  }

  /** A sum below 2^(n*dpl) comes from the first n numbers alone. */
  lemma {:induction false} FirstNumbers(vs: seq<nat>, dpl: nat, n: nat, total: nat)
    requires n <= |vs| && n * dpl >= 0 && Poly(vs, Pow2(dpl)) == total < Pow2(n * dpl)
    ensures SumTo(vs, dpl, n) == total
  {
    hide Pow2, Poly, Exp;
    var z, p := Pow2(dpl), Pow2(n * dpl);
    assert vs == vs[..n] + vs[n..];
    PolySplit(vs[..n], vs[n..], z);
    ExpOfPow2(dpl, n);
    SumToIsPoly(vs, dpl, n);
    PolyNonneg(vs[n..], z);
    var h := Poly(vs[n..], z);
    if h >= 1 {
      MulLe(1, h, p);
      assert false;
    }
  }

  // ----- congruences -----

  lemma {:induction false} TermCong(a: seq<int>, a': seq<int>, b: seq<int>, b': seq<int>, j: int, m: int)
    requires m > 0 && |b| == |b'| > 0 && |a| == |a'|
    requires forall i :: 0 <= i < |a| ==> Cong(a[i], a'[i], m)
    requires forall i :: 0 <= i < |b| ==> Cong(b[i], b'[i], m)
    ensures Cong(CyclicTerm(a, b, j), CyclicTerm(a', b', j), m)
    decreases |a|
  {
    hide Cong;
    if |a| == 0 {
      CongSelf(0, m);
    } else {
      TermCong(a[1..], a'[1..], b, b', j - 1, m);
      DivMod(j, |b|);
      CongMul(a[0], a'[0], b[j % |b|], b'[j % |b|], m);
      CongAdd(a[0] * b[j % |b|], a'[0] * b'[j % |b|], CyclicTerm(a[1..], b, j - 1), CyclicTerm(a'[1..], b', j - 1), m);
    }
  }

  /** The digits modulo a prime. */
  ghost predicate ResidueRow(x: seq<int>, v: nat, dpl: nat, m: int) {
    m > 0 && forall i :: 0 <= i < |x| ==> x[i] == Coef(v, dpl, i) % m
  }

  /** The sums modulo a prime, below twice the prime. */
  ghost predicate SumRow(x: seq<int>, vs: seq<nat>, m: int) {
    m > 0 && |x| == |vs| && forall i :: 0 <= i < |x| ==> 0 <= x[i] < 2 * m && Cong(x[i], vs[i], m)
  }

  /** A convolution of digits modulo a prime is the sums modulo that prime. */
  lemma {:induction false} ConvolvedSums(r: seq<int>, x: seq<int>, y: seq<int>, va: nat, vb: nat, dpl: nat, f: Field,
                                         k: nat)
    requires f.Valid() && k <= NTT_PROOT_2EXP && |r| == Pow2(k)
    requires ResidueRow(x, va, dpl, f.m) && ResidueRow(y, vb, dpl, f.m)
    requires forall i :: 0 <= i < |r| ==> 0 <= r[i] < 2 * f.m
    requires Convolved(r, x, y, Factor(f, k, k), f.m)
    ensures SumRow(r, SumsOf(va, vb, dpl, Pow2(k)), f.m)
  {
    hide Pow2, Coef, Cong, CyclicTerm;
    var m, n := f.m, Pow2(k);
    var a, b := Coefs(va, dpl, n), Coefs(vb, dpl, n);
    forall i | 0 <= i < n
      ensures Cong(x[i], a[i], m) && Cong(y[i], b[i], m)
    {
      CongMod(a[i], m);
      CongMod(b[i], m);
    }
    assert f.LengthEntry(k);
    var g := Factor(f, k, k);
    assert g == f.lenInv[k].value * Pow2(k);
    forall i | 0 <= i < n
      ensures Cong(r[i], SumsOf(va, vb, dpl, n)[i], m)
    {
      assert ConvolvedAt(r, x, y, g, i, m);
      TermCong(x, a, y, b, i, m);
      CongMul(g, 1, Cyclic(x, y)[i], Cyclic(a, b)[i], m);
      CongTrans(r[i], g * Cyclic(x, y)[i], 1 * Cyclic(a, b)[i], m);
    }
  }
}
