/** Division and square root, correctly rounded: the truncated result with a sticky bit is rounded
    as the exact result would be. */
module BfDiv {
  import opened Arith
  import opened Limbs
  import opened LimbOps
  import opened LimbMul
  import opened LongDivision
  import opened SqrtMath
  import opened SqrtRecursion
  import opened Bits
  import opened RoundSpec
  import opened BfRound
  import opened BfNormalize

  /** A finite number other than zero, as every operation leaves it. */
  ghost predicate Regular(a: BfNum)
    reads a, a.tab
  {
    Normalized(a.tab[..])
  }

  /** What an operation may be asked for: a precision of bits, not of digits after the point. */
  predicate Rounding(f: BfFlags, prec: nat) {
    f.expBits >= EXP_BITS_MIN && prec >= 1 && !f.radpnt && (f.subnormal ==> prec != PREC_INF)
  }

  /** With two bits to spare the sticky bit does not change the outcome. */
  lemma {:induction false} StickyNumber(f: BfFlags, prec: nat, neg: bool, x: Exact, k: nat, e: int)
    requires Rounding(f, prec) && k >= prec + 2
    ensures UnitFor(x, Unit(k, EffPrec(f, prec, e))) && UnitFor(Exact(Sticky(x), false), Unit(k, EffPrec(f, prec, e)))
    ensures RoundNumber(f, prec, neg, Exact(Sticky(x), false), k, e) == RoundNumber(f, prec, neg, x, k, e)
    ensures RoundStatus(f, prec, neg, Exact(Sticky(x), false), k, e) == RoundStatus(f, prec, neg, x, k, e)
  {
    hide Pow2;
    hide EMin;
    hide EMax;
    hide Sticky;
    hide RoundTo;
    var p := EffPrec(f, prec, e);
    var u := Unit(k, p);
    assert p <= prec;
    Pow2Even(k - p);
    Pow2Even(k - p - 1);
    FourDivides(u, Pow2(k - p - 2));
    hide EffPrec;
    hide Unit;
    StickyRounds(f.rnd, neg, x, u);
    RoundChanges(f.rnd, neg, x, u);
    RoundChanges(f.rnd, neg, Exact(Sticky(x), false), u);
  }

  lemma {:induction false} FourDivides(u: nat, w: nat)
    requires u == 2 * (2 * w) && w >= 1
    ensures u % 4 == 0 && u >= 4
  {
  }

  /** Setting the low bit does not make a number longer. */
  lemma {:induction false} StickyLength(x: Exact)
    requires x.q >= 1
    ensures BitLen(Sticky(x)) == BitLen(x.q) && Sticky(x) > 0
  {
    if Sticky(x) != x.q {
      assert Sticky(x) == x.q + 1 && (x.q + 1) / 2 == x.q / 2;
    }
  }

  /** tab[0] |= 1 */
  lemma {:induction false} SetLowBit(s: seq<Limb>, y: Limb, more: bool)
    requires |s| > 0 && y as int == if more && s[0] % 2 == 0 then s[0] + 1 else s[0]
    ensures Val(s[0 := y]) == Sticky(Exact(Val(s), more))
  {
    assert s[0 := y][1..] == s[1..];
    EvenMultipleOfB(Val(s[1..]));
    SumParity(s[0], B * Val(s[1..]));
  }

  lemma {:induction false} EvenMultipleOfB(x: nat)
    ensures B * x % 2 == 0
  {
    EvenPower(x);
  }

  lemma {:induction false} SumParity(a: nat, b: nat)
    requires b % 2 == 0
    ensures (a + b) % 2 == a % 2
  {
  }

  function OrOne(x: Limb): (y: Limb)
    ensures y as int == if x % 2 == 0 then x + 1 else x
  {
    if x % 2 == 0 then (EvenBelow(x); (x + 1) as Limb) else x
  }

  lemma {:induction false} EvenBelow(x: Limb)
    requires x % 2 == 0
    ensures x + 1 < B
  {
  }

  // ----- division -----

  /** The quotient of a and b on a grid of n limbs after the point. */
  ghost function Quotient(a: nat, la: nat, b: nat, nb: nat, n: nat): Exact
    requires b > 0 && la <= n
  {
    Exact(a * Pow(n + nb - la) / b, a * Pow(n + nb - la) % b != 0)
  }

  /** The quotient of normalised numbers has at least n limbs' worth of bits. */
  lemma {:induction false} QuotientLong(a: seq<Limb>, b: seq<Limb>, n: nat)
    requires Normalized(a) && Normalized(b) && |a| <= n
    ensures Val(b) > 0
    ensures var x := Quotient(Val(a), |a|, Val(b), |b|, n); x.q >= 1 && BitLen(x.q) >= 64 * n
  {
    hide Val;
    hide Pow;
    hide Pow2;
    hide BitLen;
    hide Normalized;
    var d := n + |b| - |a|;
    NormalizedBound(a);
    NormalizedBound(b);
    NormalizedLong(a);
    BPositive(b);
    PowAdd(|a|, d);
    PowAdd(n, |b|);
    var q := Val(a) * Pow(d) / Val(b);
    DivMod(Val(a) * Pow(d), Val(b));
    PowIsPow2(n);
    Pow2Even(64 * n);
    QuotientArith(Val(a), Pow(d), Val(b), q, Val(a) * Pow(d) % Val(b), Pow(|a|), Pow(|b|), Pow2(64 * n - 1));
    BitLenBounds(q);
    LongEnough(q, 64 * n);
  }

  lemma {:induction false} BPositive(b: seq<Limb>)
    requires Normalized(b)
    ensures Val(b) > 0
  {
    hide Val;
    TopPositive(b);
  }

  lemma {:induction false} QuotientArith(a: nat, pd: nat, b: nat, q: nat, r: nat, pa: nat, pb: nat, half: nat)
    requires a * pd == q * b + r && r < b && b < pb && pa <= 2 * a && pa * pd == 2 * half * pb
    ensures q >= half
  {
    MulLe(pa, 2 * a, pd);
    Assoc(2, a, pd);
    Assoc(2, half, pb);
    if q < half {
      MulLe(q + 1, half, b);
      Distrib(q, 1, b);
      MulLe(b, pb, half);
      assert false;
    }
  }

  lemma {:induction false} LongEnough(q: nat, k: nat)
    requires k >= 1 && q >= Pow2(k - 1)
    ensures BitLen(q) >= k && q >= 1
  {
    hide Pow2;
    hide BitLen;
    BitLenBounds(q);
    if BitLen(q) < k {
      Pow2Mono(BitLen(q), k - 1);
      assert false;
    }
  }

  /** __bf_div for finite operands other than zero. */
  method Div(r: BfNum, a: BfNum, b: BfNum, prec: nat, f: BfFlags) returns (ret: Status)
    requires Regular(a) && Regular(b) && Rounding(f, prec)
    requires r != a && r != b && r.tab != a.tab && r.tab != b.tab
    modifies r, r.tab
    ensures fresh(r.tab) || r.tab == old(r.tab)
    ensures var n := if a.tab.Length > (prec + 2 + 63) / 64 then a.tab.Length else (prec + 2 + 63) / 64;
            Val(b.tab[..]) > 0 &&
            var x := Quotient(Val(a.tab[..]), a.tab.Length, Val(b.tab[..]), b.tab.Length, n);
            var k := BitLen(x.q);
            var e := a.expn - b.expn - (64 * n - k);
            var neg := a.sign != b.sign;
            && k >= prec + 2 && UnitFor(x, Unit(k, EffPrec(f, prec, e)))
            && Holds(r, neg, RoundNumber(f, prec, neg, x, k, e), f, prec)
            && ret == RoundStatus(f, prec, neg, x, k, e)
  {
    hide Val;
    hide Pow;
    hide Pow2;
    hide Normalized;
    hide BitLen;
    hide Quotient;
    hide Holds;
    hide RoundNumber;
    hide RoundStatus;
    hide UnitFor;
    hide SameOutside;
    var precl := (prec + 2 + 63) / 64;
    var nb := b.tab.Length;
    var n := if a.tab.Length > precl then a.tab.Length else precl;
    ghost var A, D := a.tab[..], b.tab[..];
    QuotientLong(A, D, n);
    ghost var x := Quotient(Val(A), |A|, Val(D), nb, n);
    Divide(r, a, b, n);
    ghost var k := BitLen(x.q);
    ghost var e := a.expn - b.expn - (64 * n - k);
    StickyLength(x);
    r.expn := a.expn - b.expn + 64;
    r.sign := a.sign != b.sign;
    ghost var neg := r.sign;
    StickyNumber(f, prec, neg, x, k, e);
    ret := NormalizeAndRound(r, prec, f);
  }

  /** The integer quotient with the sticky bit, in n + 1 limbs. */
  method Divide(r: BfNum, a: BfNum, b: BfNum, n: nat)
    requires Regular(a) && Regular(b) && n >= a.tab.Length
    requires r != a && r != b && r.tab != a.tab && r.tab != b.tab
    modifies r`tab, r.tab
    ensures fresh(r.tab) || r.tab == old(r.tab)
    ensures r.tab.Length == n + 1 && Val(b.tab[..]) > 0
    ensures Val(r.tab[..]) == Sticky(Quotient(Val(a.tab[..]), a.tab.Length, Val(b.tab[..]), b.tab.Length, n))
  {
    hide Val;
    hide Pow;
    hide Normalized;
    hide SameOutside;
    hide Sticky;
    ghost var A, D := a.tab[..], b.tab[..];
    BPositive(D);
    var nb := b.tab.Length;
    var na := n + nb;
    var taba := new Limb[na + 1];
    var d := na - a.tab.Length;
    PadLow(taba, a.tab, d);
    r.Resize(n + 1);
    NotShort(D);
    assert b.tab[0..0 + nb] == D;
    MpDivnorm(r.tab, 0, taba, 0, na, b.tab, 0, nb);
    assert b.tab[0..0 + nb] == D;
    assert r.tab[0..0 + (na - nb + 1)] == r.tab[..];
    DivModUnique(Val(A) * Pow(d), Val(D), Val(r.tab[..]), Val(taba[0..0 + nb]));
    var more := MpScanNz(taba, 0, nb);
    ghost var s := r.tab[..];
    if more {
      r.tab[0] := OrOne(r.tab[0]);
    }
    SetLowBit(s, r.tab[0], more);
    assert r.tab[..] == s[0 := r.tab[0]];
  }

  lemma {:induction false} NotShort(s: seq<Limb>)
    requires Normalized(s)
    ensures |s| >= 1
  {
  }

  /** The dividend: zeros below, then the limbs of a. */
  method PadLow(t: array<Limb>, a: array<Limb>, d: nat)
    requires t != a && d + a.Length <= t.Length
    modifies t
    ensures Val(t[0..d + a.Length]) == Val(a[..]) * Pow(d)
  {
    hide Val;
    hide Pow;
    hide SameOutside;
    ZeroLimbs(t, 0, d);
    ghost var s1 := t[..];
    CopyLimbs(t, d, a, 0, a.Length);
    SameSlice(s1, t[..], d, d + a.Length, 0, d);
    assert t[..][0..d] == s1[0..d];
    ghost var low := t[0..d];
    assert a[0..0 + a.Length] == a[..];
    assert t[0..d + a.Length] == low + a[..];
    ValAppend(low, a[..]);
    ZeroLow(low);
  }

  lemma {:induction false} ZeroLow(low: seq<Limb>)
    requires Val(low) == 0 || forall j :: 0 <= j < |low| ==> low[j] == 0
    ensures Val(low) == 0
  {
    hide Val;
    if forall j :: 0 <= j < |low| ==> low[j] == 0 {
      ValZeros(low);
    }
  }

  // ----- square root -----

  /** x is the square root of num / den. */
  ghost predicate IsRoot(x: Exact, num: nat, den: nat) {
    && x.q * x.q * den <= num < (x.q + 1) * (x.q + 1) * den
    && (x.more <==> x.q * x.q * den != num)
  }

  /** The root of the integer part, given the parts cut off below it. */
  lemma {:induction false} RootOfParts(num: nat, den: nat, v: nat, cut: nat, s: nat, rem: nat)
    requires den >= 1 && num == v * den + cut && cut < den && v == s * s + rem && rem <= 2 * s
    ensures IsRoot(Exact(s, rem != 0 || cut != 0), num, den)
  {
    var q := s * s;
    Distrib(q, rem, den);
    MulNonneg(rem, den);
    assert (s + 1) * (s + 1) == q + 2 * s + 1;
    MulLe(q + rem + 1, q + 2 * s + 1, den);
    Distrib(q + rem, 1, den);
    if rem >= 1 {
      MulLe(1, rem, den);
    }
  }

  /** The parts of the radicand: the limbs dropped below, then the bit shifted out. */
  lemma {:induction false} RadicandParts(a: nat, pn: nat, pa: nat, low: nat, v: nat, v': nat, c: nat, res: nat,
          den: nat)
    requires a * pn == v * pa + low && low < pa && v == c * v' + res && res < c && c >= 1 && den == pa * c
    ensures a * pn == v' * den + (pa * res + low) && pa * res + low < den
    ensures pa * res + low != 0 <==> res != 0 || low != 0
  {
    Distrib(c * v', res, pa);
    Assoc(c, v', pa);
    Assoc(pa, c, v');
    MulLe(res + 1, c, pa);
    Distrib(res, 1, pa);
    MulNonneg(pa, res);
    if res >= 1 {
      MulLe(1, res, pa);
    }
  }

  /** Zeros below, then the limbs of a from cut on. */
  method LoadTop(a1: array<Limb>, a: array<Limb>, z: nat, cut: nat)
    requires a1 != a && cut < a.Length && a1.Length == z + (a.Length - cut) && Normalized(a[..])
    modifies a1
    ensures Normalized(a1[..]) && Val(a1[..]) == Pow(z) * Val(a[..][cut..])
  {
    hide Val;
    hide Pow;
    hide SameOutside;
    var n1 := a.Length - cut;
    ZeroLimbs(a1, 0, z);
    ghost var s1 := a1[..];
    CopyLimbs(a1, z, a, cut, n1);
    SameSlice(s1, a1[..], z, z + n1, 0, z);
    ghost var zeros, top := s1[0..z], a[..][cut..];
    assert a1[z..z + n1] == top;
    assert a1[..][0..z] == zeros;
    assert a1[..] == zeros + top;
    ZeroLow(zeros);
    ValAppend(zeros, top);
    assert a1[..][z..] == top;
    TopSame(a[..], a1[..], z, cut);
  }

  /** The radicand in 2n limbs: the top limbs of a over zeros; dropped says whether a limb other than
      zero is left out. */
  method LoadRadicand(a1: array<Limb>, a: BfNum, n: nat) returns (dropped: bool, ghost low: nat)
    requires Regular(a) && n >= 1 && a1.Length == 2 * n && a1 != a.tab
    modifies a1
    ensures Normalized(a1[..]) && low < Pow(a.tab.Length) && (dropped <==> low != 0)
    ensures Val(a.tab[..]) * Pow(2 * n) == Val(a1[..]) * Pow(a.tab.Length) + low
  {
    hide Val;
    hide Pow;
    hide Normalized;
    var la := a.tab.Length;
    NotShort(a.tab[..]);
    var n1 := if 2 * n < la then 2 * n else la;
    var z, cut := 2 * n - n1, la - n1;
    ghost var A := a.tab[..];
    LoadTop(a1, a.tab, z, cut);
    dropped := MpScanNz(a.tab, 0, cut);
    assert a.tab[0..0 + cut] == A[..cut];
    low := DroppedPart(A, n, z, cut);
  }

  lemma {:induction false} DroppedPart(A: seq<Limb>, n: nat, z: nat, cut: nat) returns (low: nat)
    requires cut <= |A| && z + (|A| - cut) == 2 * n && (z == 0 || cut == 0)
    ensures low < Pow(|A|) && (Val(A[..cut]) != 0 <==> low != 0)
    ensures Val(A) * Pow(2 * n) == Pow(z) * Val(A[cut..]) * Pow(|A|) + low
  {
    hide Val;
    hide Pow;
    ValSplit(A, cut);
    ValBound(A[..cut]);
    if cut == 0 {
      assert A[0..] == A && A[..0] == [];
      NoLimbs(Val(A));
      PowAdd(z, |A|);
      low := 0;
      Assoc(Val(A), Pow(z), Pow(|A|));
    } else {
      NoLimbs(Val(A[cut..]));
      PowAdd(cut, 2 * n);
      low := Val(A[..cut]) * Pow(2 * n);
      CutArith(Val(A), Val(A[..cut]), Pow(cut), Val(A[cut..]), Pow(2 * n), Pow(|A|));
    }
  }

  lemma {:induction false} CutArith(a: nat, lo: nat, pc: nat, hi: nat, pn: nat, pa: nat)
    requires a == lo + pc * hi && lo < pc && pn >= 1 && pa == pc * pn
    ensures a * pn == hi * pa + lo * pn && lo * pn < pa && (lo * pn != 0 <==> lo != 0)
  {
    Distrib(lo, pc * hi, pn);
    Assoc(pc, hi, pn);
    Assoc(hi, pc, pn);
    MulLt(lo, pc, pn);
    if lo >= 1 {
      MulLe(1, lo, pn);
    }
  }

  lemma {:induction false} TopSame(A: seq<Limb>, t: seq<Limb>, z: nat, cut: nat)
    requires Normalized(A) && cut < |A| && |t| == z + |A| - cut && t[z..] == A[cut..]
    ensures Normalized(t)
  {
    assert t[|t| - 1] == t[z..][|A| - cut - 1] == A[cut..][|A| - cut - 1];
  }

  /** bf_sqrt for a positive finite number; x is its exact root on the grid of the mantissa. */
  method Sqrt(r: BfNum, a: BfNum, prec: nat, f: BfFlags) returns (ret: Status, ghost x: Exact)
    requires Regular(a) && !a.sign && Rounding(f, prec) && r != a && r.tab != a.tab
    modifies r, r.tab
    ensures fresh(r.tab) || r.tab == old(r.tab)
    ensures var n := (2 * (prec + 2) + 127) / 128;
            var odd := a.expn % 2;
            var e := (a.expn + odd) / 2;
            && IsRoot(x, Val(a.tab[..]) * Pow(2 * n), Pow(a.tab.Length) * Pow2(odd))
            && 64 * n >= prec + 2 && UnitFor(x, Unit(64 * n, EffPrec(f, prec, e)))
            && Holds(r, false, RoundNumber(f, prec, false, x, 64 * n, e), f, prec)
            && ret == RoundStatus(f, prec, false, x, 64 * n, e)
  {
    hide Val;
    hide Pow;
    hide Pow2;
    hide Normalized;
    hide IsRoot;
    hide Holds;
    hide RoundNumber;
    hide RoundStatus;
    hide UnitFor;
    hide Sticky;
    var n := (2 * (prec + 2) + 127) / 128;
    x := RootLimbs(r, a, n);
    r.sign := false;
    r.expn := (a.expn + 1) / 2;
    ghost var e := r.expn;
    HalfUp(a.expn);
    StickyNumber(f, prec, false, x, 64 * n, e);
    assert r.tab[..n] == r.tab[..];
    ret := Round(r, prec, f, n);
  }

  lemma {:induction false} HalfUp(e: int)
    ensures (e + 1) / 2 == (e + e % 2) / 2
  {
  }

  /** The integer root with the sticky bit, in n limbs. */
  method RootLimbs(r: BfNum, a: BfNum, n: nat) returns (ghost x: Exact)
    requires Regular(a) && n >= 1 && r != a && r.tab != a.tab
    modifies r`tab, r.tab
    ensures fresh(r.tab) || r.tab == old(r.tab)
    ensures IsRoot(x, Val(a.tab[..]) * Pow(2 * n), Pow(a.tab.Length) * Pow2(a.expn % 2))
    ensures r.tab.Length == n && Normalized(r.tab[..]) && Val(r.tab[..]) == Sticky(x)
  {
    hide Val;
    hide Pow;
    hide Pow2;
    hide Normalized;
    hide QuarterNormalized;
    hide SqrtRem;
    hide SameOutside;
    hide IsRoot;
    hide Sticky;
    r.Resize(n);
    var a1 := new Limb[2 * n];
    var dropped, low := LoadRadicand(a1, a, n);
    ghost var v := Val(a1[..]);
    var res := HalveIfOdd(a1, a.expn % 2);
    ghost var v' := Val(a1[..]);
    assert a1[0..0 + 2 * n] == a1[..];
    MpSqrtrem(r.tab, 0, a1, 0, n);
    assert r.tab[0..0 + n] == r.tab[..];
    var inexact := res != 0;
    if !inexact {
      inexact := MpScanNz(a1, 0, n + 1);
    }
    if !inexact {
      inexact := dropped;
    }
    ghost var s, rem := r.tab[..], Val(a1[0..0 + n + 1]);
    assert a1[0..0 + (n + 1)] == a1[0..0 + n + 1];
    RootExact(Val(a.tab[..]), Pow(2 * n), Pow(a.tab.Length), low, v, v', Pow2(a.expn % 2), res, Val(s), rem);
    x := Exact(Val(s), inexact);
    if inexact {
      r.tab[0] := OrOne(r.tab[0]);
    }
    SetLowBit(s, r.tab[0], inexact);
    assert r.tab[..] == s[0 := r.tab[0]];
    LowBitNormalized(s, r.tab[0]);
  }

  lemma {:induction false} LowBitNormalized(s: seq<Limb>, y: Limb)
    requires Normalized(s) && |s| >= 1 && y >= s[0]
    ensures Normalized(s[0 := y])
  {
  }

  lemma {:induction false} RootExact(a: nat, pn: nat, pa: nat, low: nat, v: nat, v': nat, c: nat, res: nat, s: nat,
          rem: nat)
    requires a * pn == v * pa + low && low < pa && v == c * v' + res && res < c && c >= 1 && SqrtRem(v', s, rem)
    ensures IsRoot(Exact(s, res != 0 || rem != 0 || low != 0), a * pn, pa * c)
  {
    hide IsRoot;
    RadicandParts(a, pn, pa, low, v, v', c, res, pa * c);
    MulLe(1, c, pa);
    RootOfParts(a * pn, pa * c, v', pa * res + low, s, rem);
  }

  /** An odd exponent is made even by halving the radicand. */
  method HalveIfOdd(a1: array<Limb>, odd: int) returns (res: Limb)
    requires a1.Length > 0 && Normalized(a1[..]) && 0 <= odd <= 1
    modifies a1
    ensures QuarterNormalized(a1[..]) && res < Pow2(odd) && old(Val(a1[..])) == Pow2(odd) * Val(a1[..]) + res
  {
    hide Val;
    hide Pow;
    ghost var s := a1[..];
    if odd == 1 {
      res := MpShr(a1, 0, a1, 0, a1.Length, 1, 0);
      assert a1[0..0 + a1.Length] == a1[..];
      assert s == old(a1[0..0 + a1.Length]);
      PowTwoSmall();
      hide Pow2;
      HalvedTop(s, a1[..], res);
    } else {
      res := 0;
    }
  }

  lemma {:induction false} HalvedTop(s: seq<Limb>, t: seq<Limb>, res: nat)
    requires Normalized(s) && |t| == |s| && res < 2 && Val(t) * 2 + res == Val(s)
    ensures QuarterNormalized(t)
  {
    hide Val;
    NormalizedBound(s);
    TopLimb(t);
    var n := |s| - 1;
    PowStep(n);
    hide Pow;
    var p, y := Pow(n), t[n];
    Distrib(y, 1, p);
    if y < 0x4000_0000_0000_0000 {
      MulLe(y + 1, 0x4000_0000_0000_0000, p);
      assert false;
    }
  }
}
