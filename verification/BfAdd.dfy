/** Addition and subtraction, correctly rounded: only the limbs that matter are computed, and what
    lies below them becomes a carry and one sticky bit. */
module BfAdd {
  import opened Arith
  import opened Limbs
  import opened LimbOps
  import opened LimbMul
  import opened Bits
  import opened RoundSpec
  import opened BfRound
  import opened BfNormalize
  import opened BfDigits
  import opened BfCompare
  import opened BfGrid
  import opened BfDiv

  // ----- sums limb by limb -----

  /** The limb of the second operand as it is added: complemented when subtracting. */
  function Masked(v2: Limb, isSub: bool): (w: Limb)
  {
    if isSub then B - 1 - v2 else v2
  }

  /** The sum of the operands' low j limbs; in a subtraction the second operand is complemented and
      one is added. */
  ghost function LowSum(na: nat, nb: nat, isSub: bool, j: nat): int {
    na % Pow(j) + if isSub then Pow(j) - nb % Pow(j) else nb % Pow(j)
  }

  /** u = v1 + v2 + carry in wrapping words, with the carry out. */
  method AddLimbs(v1: Limb, w: Limb, carry: int) returns (u: Limb, out: int)
    requires 0 <= carry <= 1
    ensures 0 <= out <= 1 && u + B * out == v1 + w + carry
  {
    var sum := AddWord(v1, w, carry);
    u, out := sum.0, sum.1;
  }

  lemma {:induction false} LowSumStep(na: nat, nb: nat, isSub: bool, j: nat)
    ensures LowSum(na, nb, isSub, j + 1)
         == LowSum(na, nb, isSub, j) + Pow(j) * (Digit(na, j) + Masked(Digit(nb, j), isSub))
  {
    hide Digit;
    DigitSplit(na, j);
    DigitSplit(nb, j);
    PowStep(j);
    hide Pow;
    var p, x, y := Pow(j), Digit(na, j), Digit(nb, j);
    Distrib(x, y, p);
    Distrib(x, B - 1 - y, p);
    Distrib(B - 1, y, p);
    Distrib(B, 1, p);
  }

  /** The state after j limbs: what was summed so far, z of it in the limbs, and the carry. */
  ghost predicate Summed(na: nat, nb: nat, isSub: bool, j: nat, low: int, carry: int) {
    0 <= low < Pow(j) && 0 <= carry <= 1 && LowSum(na, nb, isSub, j) == low + carry * Pow(j)
  }

  lemma {:induction false} SummedStep(na: nat, nb: nat, isSub: bool, j: nat, low: int, carry: int, u: Limb, out: int)
    requires Summed(na, nb, isSub, j, low, carry) && 0 <= out <= 1
    requires u + B * out == Digit(na, j) + Masked(Digit(nb, j), isSub) + carry
    ensures Summed(na, nb, isSub, j + 1, low + Pow(j) * u, out)
    ensures low + Pow(j) * u == 0 <==> low == 0 && u == 0
  {
    hide Digit;
    hide Masked;
    hide LowSum;
    LowSumStep(na, nb, isSub, j);
    PowStep(j);
    hide Pow;
    var p, w := Pow(j), Digit(na, j) + Masked(Digit(nb, j), isSub);
    SumArith(low, p, carry, w, u, out, B * p);
  }

  lemma {:induction false} SumArith(low: int, p: nat, carry: int, w: int, u: Limb, out: int, pb: nat)
    requires 0 <= low < p && u + B * out == w + carry && pb == B * p && 0 <= out <= 1
    ensures low + carry * p + p * w == (low + p * u) + out * pb
    ensures 0 <= low + p * u < pb
    ensures low + p * u == 0 <==> low == 0 && u == 0
  {
    Distrib(w, carry, p);
    Distrib(u, B * out, p);
    Assoc(B, out, p);
    Assoc(out, B, p);
    MulLe(u + 1, B, p);
    Distrib(u, 1, p);
    MulNonneg(p, u);
    if u >= 1 {
      MulLe(1, u, p);
    }
  }

  /** Limbs that are zero in both operands can be jumped over: a sum stays as it is, a difference
      keeps its carry, and without a carry it is not zero. */
  lemma {:induction false} SummedJump(na: nat, nb: nat, isSub: bool, j: nat, k: nat, low: int,
          carry: int) returns (low': int)
    requires Summed(na, nb, isSub, j, low, carry) && j <= k
    requires na % Pow(k) == na % Pow(j) && nb % Pow(k) == nb % Pow(j)
    requires if isSub then carry == 0 ==> low != 0 else carry == 0
    ensures Summed(na, nb, isSub, k, low', carry)
    ensures low' == 0 <==> low == 0
  {
    PowMono(j, k);
    hide Pow;
    TimesBit(Pow(j), carry);
    TimesBit(Pow(k), carry);
    low' := if isSub && carry == 0 then low + Pow(k) - Pow(j) else low;
  }

  /** Zero digits in a row. */
  lemma {:induction false} ZeroDigits(n: nat, j: nat, k: nat)
    requires j <= k && forall i: nat :: j <= i < k ==> Digit(n, i) == 0
    ensures n % Pow(k) == n % Pow(j)
    decreases k - j
  {
    hide Digit;
    hide Pow;
    if j < k {
      ZeroDigits(n, j, k - 1);
      DigitSplit(n, k - 1);
    }
  }

  // ----- the loops -----

  /** The limbs of both operands at index i of the result; negative indices lie below it. */
  lemma {:induction false} DigitsAt(A: seq<Limb>, D: seq<Limb>, d: nat, tot: nat, rLen: nat, i: int)
    requires tot == GridLen(|A|, |D|, d) && rLen <= tot && i + tot - rLen >= 0
    ensures Digit(Placed(Val(A), |A|, 0, tot), i + tot - rLen) == BitsOf(Val(A), 64 * (|A| - rLen + i))
    ensures Digit(Placed(Val(D), |D|, d, tot), i + tot - rLen) == BitsOf(Val(D), (|D| - rLen) * 64 + d + 64 * i)
  {
    hide Val;
    hide Pow;
    hide Pow2;
    hide BitsOf;
    hide Digit;
    DigitIsBits(Val(A), 64 * (tot - |A|), i + tot - rLen);
    DigitIsBits(Val(D), 64 * (tot - |D|) - d, i + tot - rLen);
  }

  /** Between i and the next index where either operand has a limb, all limbs are zero. */
  lemma {:induction false} GapIsZero(A: seq<Limb>, D: seq<Limb>, d: nat, tot: nat, rLen: nat, i: int, next: int)
    requires tot == GridLen(|A|, |D|, d) && rLen <= tot && i + tot - rLen >= 0 && i < next <= 0
    requires |A| - rLen + next <= 0
    requires (|D| - rLen) * 64 + d + 64 * i >= 64 * |D| || (|D| - rLen) * 64 + d + 64 * next <= 0
    ensures var na, nb := Placed(Val(A), |A|, 0, tot), Placed(Val(D), |D|, d, tot);
            && na % Pow(next + tot - rLen) == na % Pow(i + 1 + tot - rLen)
            && nb % Pow(next + tot - rLen) == nb % Pow(i + 1 + tot - rLen)
  {
    hide Val;
    hide Pow;
    hide Pow2;
    hide BitsOf;
    hide Digit;
    hide GridLen;
    hide Placed;
    var na, nb := Placed(Val(A), |A|, 0, tot), Placed(Val(D), |D|, d, tot);
    var j, k := i + 1 + tot - rLen, next + tot - rLen;
    forall h: nat | j <= h < k
      ensures Digit(na, h) == 0 && Digit(nb, h) == 0
    {
      var i' := h - (tot - rLen);
      DigitsAt(A, D, d, tot, rLen, i');
      BitsOutside(A, 64 * (|A| - rLen + i'));
      BitsOutside(D, (|D| - rLen) * 64 + d + 64 * i');
    }
    ZeroDigits(na, j, k);
    ZeroDigits(nb, j, k);
  }

  /** The limbs of the grid for a and b, |a| the larger, and the two magnitudes on it. */
  function Grid(a: BfNum, b: BfNum): nat
    requires a.expn >= b.expn
    reads a, b, a.tab, b.tab
  {
    GridLen(a.tab.Length, b.tab.Length, a.expn - b.expn)
  }

  ghost function Upper(a: BfNum, b: BfNum): nat
    requires a.expn >= b.expn
    reads a, b, a.tab, b.tab
  {
    Placed(Val(a.tab[..]), a.tab.Length, 0, Grid(a, b))
  }

  ghost function Lower(a: BfNum, b: BfNum): nat
    requires a.expn >= b.expn
    reads a, b, a.tab, b.tab
  {
    Placed(Val(b.tab[..]), b.tab.Length, a.expn - b.expn, Grid(a, b))
  }

  ghost function MagnitudeSum(a: BfNum, b: BfNum, isSub: bool): int
    requires a.expn >= b.expn
    reads a, b, a.tab, b.tab
  {
    if isSub then Upper(a, b) - Lower(a, b) else Upper(a, b) + Lower(a, b)
  }

  /** The limbs below the result: their carry, and whether their sum is zero. */
  method Discard(a: BfNum, b: BfNum, isSub: bool, rLen: nat, tot: nat) returns (carry: int, z: bool, ghost low: int)
    requires a.expn >= b.expn && tot == Grid(a, b) && rLen <= tot
    ensures var na, nb := Upper(a, b), Lower(a, b); Summed(na, nb, isSub, tot - rLen, low, carry)
    ensures z <==> low != 0
  {
    hide Val;
    hide Pow;
    hide BitsOf;
    hide Digit;
    hide GridLen;
    hide Placed;
    hide Masked;
    hide Summed;
    var la, lb, d := a.tab.Length, b.tab.Length, a.expn - b.expn;
    ghost var A, D := a.tab[..], b.tab[..];
    ghost var na, nb := Placed(Val(A), la, 0, tot), Placed(Val(D), lb, d, tot);
    var aOffset, bBitOffset := la - rLen, (lb - rLen) * 64 + d;
    carry := if isSub then 1 else 0;
    z := false;
    low := 0;
    SummedStart(na, nb, isSub, carry);
    var i := rLen - tot;
    while i < 0
      invariant rLen - tot <= i <= 0
      invariant 0 <= carry <= 1 && Summed(na, nb, isSub, i + (tot - rLen), low, carry)
      invariant z <==> low != 0
      decreases -i
    {
      var ap, bp := aOffset + i, bBitOffset + i * 64;
      DigitsAt(A, D, d, tot, rLen, i);
      var inA, inB := 0 <= ap < la, bp + 64 > 0 && bp < lb * 64;
      var v1: Limb, v2: Limb := 0, 0;
      if inA {
        v1 := GetLimbz(a.tab, ap);
      } else {
        BitsOutside(A, 64 * ap);
      }
      if inB {
        WholeSlice(b.tab);
        v2 := GetBits(b.tab, 0, b.tab.Length, bp);
      } else {
        BitsOutside(D, bp);
      }
      var w := Masked(v2, isSub);
      var u, out := AddLimbs(v1, w, carry);
      SummedStep(na, nb, isSub, i + (tot - rLen), low, carry, u, out);
      low := low + Pow(i + (tot - rLen)) * u;
      z := z || u != 0;
      if inA || inB {
        carry := out;
        i := i + 1;
      } else {
        // outside both operands: on to the next limb of either
        var next := 0;
        if ap < 0 {
          next := if next < -aOffset then next else -aOffset;
        }
        if bp + 64 <= 0 {
          next := if next < -bBitOffset / 64 then next else -bBitOffset / 64;
        }
        GapIsZero(A, D, d, tot, rLen, i, next);
        ZeroPair(isSub, carry, u, out);
        carry := out;
        low := SummedJump(na, nb, isSub, i + 1 + (tot - rLen), next + (tot - rLen), low, carry);
        i := next;
      }
    }
  }

  lemma {:induction false} SummedStart(na: nat, nb: nat, isSub: bool, carry: int)
    requires carry == if isSub then 1 else 0
    ensures Summed(na, nb, isSub, 0, 0, carry)
  {
  }

  lemma {:induction false} ZeroPair(isSub: bool, carry: int, u: Limb, out: int)
    requires 0 <= carry <= 1 && 0 <= out <= 1 && u + B * out == 0 + Masked(0, isSub) + carry
    ensures if isSub then out == 0 ==> u != 0 else out == 0
  {
  }

  /** The limbs of the result. */
  method Fill(r: BfNum, a: BfNum, b: BfNum, isSub: bool, rLen: nat, tot: nat, carry0: int, ghost low0: int)
    returns (carry: int)
    requires r != a && r != b && r.tab != a.tab && r.tab != b.tab && r.tab.Length == rLen
    requires a.expn >= b.expn && tot == Grid(a, b) && rLen <= tot
    requires var na, nb := Upper(a, b), Lower(a, b); Summed(na, nb, isSub, tot - rLen, low0, carry0)
    modifies r.tab
    ensures var na, nb := Upper(a, b), Lower(a, b); Summed(na, nb, isSub, tot,
        low0 + Pow(tot - rLen) * Val(r.tab[..]), carry)
  {
    hide Val;
    hide Pow;
    hide BitsOf;
    hide Digit;
    hide GridLen;
    hide Placed;
    hide Masked;
    hide Summed;
    var la, lb, d := a.tab.Length, b.tab.Length, a.expn - b.expn;
    ghost var A, D, t := a.tab[..], b.tab[..], tot - rLen;
    ghost var na, nb := Placed(Val(A), la, 0, tot), Placed(Val(D), lb, d, tot);
    var aOffset, bBitOffset := la - rLen, (lb - rLen) * 64 + d;
    carry := carry0;
    NoLimbs(0);
    assert r.tab[..0] == [];
    SummedCarry(na, nb, isSub, t, low0, carry0);
    for i := 0 to rLen
      invariant 0 <= carry <= 1 && Summed(na, nb, isSub, t + i, low0 + Pow(t) * Val(r.tab[..i]), carry)
    {
      var v1 := GetLimbz(a.tab, aOffset + i);
      WholeSlice(b.tab);
      var v2 := GetBits(b.tab, 0, b.tab.Length, bBitOffset + i * 64);
      DigitsAt(A, D, d, tot, rLen, i);
      var w := Masked(v2, isSub);
      var u, out := AddLimbs(v1, w, carry);
      ghost var done := r.tab[..i];
      SummedStep(na, nb, isSub, t + i, low0 + Pow(t) * Val(done), carry, u, out);
      NextLimb(done, u, t, i);
      r.tab[i] := u;
      assert r.tab[..i + 1] == done + [u];
      carry := out;
    }
    assert r.tab[..rLen] == r.tab[..];
  }

  lemma {:induction false} SummedCarry(na: nat, nb: nat, isSub: bool, j: nat, low: int, carry: int)
    requires Summed(na, nb, isSub, j, low, carry)
    ensures 0 <= carry <= 1
  {
  }

  lemma {:induction false} NextLimb(done: seq<Limb>, u: Limb, t: nat, i: nat)
    requires |done| == i
    ensures Pow(t) * Val(done + [u]) == Pow(t) * Val(done) + Pow(t + i) * u
  {
    hide Val;
    hide Pow;
    ValSnoc(done, u);
    PowAdd(t, i);
    Distrib(Val(done), Pow(i) * u, Pow(t));
    Assoc(Pow(t), Pow(i), u);
  }

  // ----- the magnitude of the result -----

  /** The whole sum. */
  lemma {:induction false} WholeSum(na: nat, nb: nat, isSub: bool, tot: nat, sum: int, carry: int)
    requires Summed(na, nb, isSub, tot, sum, carry) && na < Pow(tot) && nb < Pow(tot) && (isSub ==> na > nb)
    ensures if isSub then carry == 1 && sum == na - nb else sum + carry * Pow(tot) == na + nb
  {
    hide Pow;
    DivModUnique(na, Pow(tot), 0, na);
    DivModUnique(nb, Pow(tot), 0, nb);
    TimesBit(Pow(tot), carry);
  }

  /** How many leading bits the result can lack. */
  method CancelledBits(a: BfNum, b: BfNum, isSub: bool) returns (n: nat)
    requires Regular(a) && Regular(b) && a.expn >= b.expn
    requires isSub ==> Upper(a, b) > Lower(a, b)
    ensures var s := MagnitudeSum(a, b, isSub); s > 0 && BitLen(s) + n >= 64 * Grid(a, b)
  {
    hide Val;
    hide Pow;
    hide Pow2;
    hide BitLen;
    hide Placed;
    hide GridLen;
    hide Normalized;
    var d := a.expn - b.expn;
    if isSub {
      if d <= 1 {
        n := CountCancelled(a, b);
      } else {
        n := 1;
        FarApart(a.tab[..], b.tab[..], d, GridLen(a.tab.Length, b.tab.Length, d));
      }
    } else {
      n := 0;
      SumLong(a.tab[..], b.tab[..], d, GridLen(a.tab.Length, b.tab.Length, d));
    }
  }

  lemma {:induction false} FarApart(A: seq<Limb>, D: seq<Limb>, d: nat, tot: nat)
    requires Normalized(A) && Normalized(D) && d >= 2 && tot == GridLen(|A|, |D|, d)
    ensures var na, nb := Placed(Val(A), |A|, 0, tot), Placed(Val(D), |D|, d, tot);
            na > nb && BitLen(na - nb) + 1 >= 64 * tot
  {
    hide Val;
    hide Pow;
    hide Pow2;
    hide Placed;
    hide BitLen;
    PlacedBounds(A, 0, tot);
    PlacedBounds(D, d, tot);
    GridFits(A, D, d, tot);
    PowTwoZero();
    PowTwoSmall();
    Pow2Mono(2, d);
    PowIsPow2(tot);
    Pow2Even(64 * tot);
    Pow2Even(64 * tot - 1);
    var na, nb := Placed(Val(A), |A|, 0, tot), Placed(Val(D), |D|, d, tot);
    MulLe(4, Pow2(d), nb);
    ReachesLen(na - nb, 64 * tot - 2);
  }

  lemma {:induction false} SumLong(A: seq<Limb>, D: seq<Limb>, d: nat, tot: nat)
    requires Normalized(A) && Normalized(D) && tot == GridLen(|A|, |D|, d)
    ensures var na, nb := Placed(Val(A), |A|, 0, tot), Placed(Val(D), |D|, d, tot);
            na + nb > 0 && BitLen(na + nb) >= 64 * tot
  {
    hide Val;
    hide Pow;
    hide Pow2;
    hide Placed;
    hide BitLen;
    PlacedBounds(A, 0, tot);
    GridFits(A, D, d, tot);
    PowTwoZero();
    PowIsPow2(tot);
    Pow2Even(64 * tot);
    ReachesLen(Placed(Val(A), |A|, 0, tot) + Placed(Val(D), |D|, d, tot), 64 * tot - 1);
  }

  /** Cutting a sum at limb t, with the limbs above and the carry out of them. */
  lemma {:induction false} CutSum(s: nat, low: int, t: nat, rLen: nat, v: nat, c: nat, more: bool)
    requires 0 <= low < Pow(t) && s == low + Pow(t) * v + c * Pow(t + rLen) && (more <==> low != 0)
    ensures CutTo(s, Exact(v + Pow(rLen) * c, more), Pow2(64 * t))
  {
    hide Pow;
    hide Pow2;
    PowIsPow2(t);
    PowAdd(t, rLen);
    var p := Pow(t);
    Assoc(c, p, Pow(rLen));
    Distrib(v, Pow(rLen) * c, p);
  }

  /** Nothing of use is cut off: the kept part has two bits more than the precision. */
  lemma {:induction false} KeptLong(s: nat, x: Exact, t: nat, rLen: nat, cancelled: nat, prec: nat)
    requires CutTo(s, x, Pow2(64 * t)) && BitLen(s) + cancelled >= 64 * (t + rLen) && s > 0
    requires t > 0 ==> 64 * rLen >= cancelled + prec + 2
    ensures x.q >= 1 && BitLen(s) == BitLen(x.q) + 64 * t
    ensures t > 0 ==> BitLen(x.q) >= prec + 2
  {
    hide Pow2;
    hide BitLen;
    if x.q == 0 {
      if t == 0 {
        PowTwoZero();
      } else {
        ShortLen(s, 64 * t);
      }
      assert false;
    }
    CutLength(s, x, 64 * t);
  }

  /** Both loops: the kept limbs, the carry out of them, and whether anything is cut off. */
  method CutMagnitudes(r: BfNum, a: BfNum, b: BfNum, isSub: bool, len: nat, tot: nat) returns (c: int, z: bool)
    requires Regular(a) && Regular(b) && a.expn >= b.expn && tot == Grid(a, b) && len <= tot
    requires r != a && r != b && r.tab != a.tab && r.tab != b.tab && r.tab.Length == len
    requires isSub ==> Upper(a, b) > Lower(a, b)
    modifies r.tab
    ensures 0 <= c <= 1 && (len == tot ==> !z)
    ensures MagnitudeSum(a, b, isSub) > 0
    ensures CutTo(MagnitudeSum(a, b, isSub), Exact(Val(r.tab[..]) + Pow(len) * c, z), Pow2(64 * (tot - len)))
  {
    hide Val;
    hide Pow;
    hide Pow2;
    hide Placed;
    hide GridLen;
    hide Normalized;
    hide Summed;
    hide Upper;
    hide Lower;
    hide Grid;
    hide CutTo;
    ghost var na, nb := Upper(a, b), Lower(a, b);
    GridBounds(a, b);
    var carry, w, low := Discard(a, b, isSub, len, tot);
    SummedLow(na, nb, isSub, tot - len, low, carry);
    carry := Fill(r, a, b, isSub, len, tot, carry, low);
    c, z := if isSub then 0 else carry, w;
    CutWhole(na, nb, isSub, tot, len, low, Val(r.tab[..]), carry, c, z);
    ghost var s := MagnitudeSum(a, b, isSub);
    assert s == if isSub then na - nb else na + nb;
  }

  lemma {:induction false} CutWhole(na: nat, nb: nat, isSub: bool, tot: nat, len: nat, low: int, v: nat, carry: int,
          c: int, z: bool)
    requires na < Pow(tot) && nb < Pow(tot) && na > 0 && (isSub ==> na > nb) && len <= tot
    requires 0 <= low < Pow(tot - len) && (z <==> low != 0) && c == if isSub then 0 else carry
    requires Summed(na, nb, isSub, tot, low + Pow(tot - len) * v, carry)
    ensures 0 <= c <= 1 && (len == tot ==> !z)
    ensures var s := if isSub then na - nb else na + nb;
            s > 0 && CutTo(s, Exact(v + Pow(len) * c, z), Pow2(64 * (tot - len)))
  {
    hide Pow;
    hide Pow2;
    hide Summed;
    hide CutTo;
    WholeSum(na, nb, isSub, tot, low + Pow(tot - len) * v, carry);
    SummedCarry(na, nb, isSub, tot, low + Pow(tot - len) * v, carry);
    LowBound(tot - len, low, z);
    TimesBit(Pow(tot), c);
    CutSum(if isSub then na - nb else na + nb, low, tot - len, len, v, c, z);
  }

  lemma {:induction false} SummedLow(na: nat, nb: nat, isSub: bool, j: nat, low: int, carry: int)
    requires Summed(na, nb, isSub, j, low, carry)
    ensures 0 <= low < Pow(j)
  {
    hide Pow;
  }

  lemma {:induction false} GridBounds(a: BfNum, b: BfNum)
    requires Regular(a) && Regular(b) && a.expn >= b.expn
    ensures Grid(a, b) >= 1 && 0 < Upper(a, b) < Pow(Grid(a, b)) && Lower(a, b) < Pow(Grid(a, b))
  {
    hide Val;
    hide Pow;
    hide Pow2;
    hide Placed;
    hide GridLen;
    hide Normalized;
    GridFits(a.tab[..], b.tab[..], a.expn - b.expn, Grid(a, b));
    PlacedBounds(a.tab[..], 0, Grid(a, b));
    PlacedBounds(b.tab[..], a.expn - b.expn, Grid(a, b));
    PositivePlaced(a.tab[..], Grid(a, b));
  }

  /** The sum or difference of two magnitudes, |a| the larger, cut to the limbs that are kept. */
  method AddMagnitudes(r: BfNum, a: BfNum, b: BfNum, prec: nat, isSub: bool) returns (ghost x: Exact, ghost rLen: nat)
    requires Regular(a) && Regular(b) && a.expn >= b.expn
    requires r != a && r != b && r.tab != a.tab && r.tab != b.tab
    requires isSub ==> Upper(a, b) > Lower(a, b)
    modifies r`expn, r`tab, r.tab
    ensures fresh(r.tab) || r.tab == old(r.tab)
    ensures r.expn == a.expn + 64 * (r.tab.Length - rLen)
    ensures MagnitudeSum(a, b, isSub) > 0
    ensures var tot, s := Grid(a, b), MagnitudeSum(a, b, isSub);
            && rLen <= tot && CutTo(s, x, Pow2(64 * (tot - rLen))) && Val(r.tab[..]) == Sticky(x)
            && x.q >= 1 && BitLen(s) == BitLen(x.q) + 64 * (tot - rLen)
            && (x.more ==> BitLen(x.q) >= prec + 2)
  {
    hide Val;
    hide Pow;
    hide Pow2;
    hide BitLen;
    hide Grid;
    hide MagnitudeSum;
    hide GridLen;
    hide Normalized;
    hide CutTo;
    hide Sticky;
    hide Upper;
    hide Lower;
    var tot := Grid(a, b);
    GridBounds(a, b);
    var cancelledBits := CancelledBits(a, b, isSub);
    r.expn := a.expn;
    var precl := (cancelledBits + prec + 2 + 63) / 64;
    var len := if precl < tot then precl else tot;
    rLen := len;
    r.Resize(len);
    var c, z := CutMagnitudes(r, a, b, isSub, len, tot);
    ghost var v := Val(r.tab[..]);
    MulNonneg(Pow(len), c);
    x := Exact(v + Pow(len) * c, z);
    KeptLong(MagnitudeSum(a, b, isSub), x, tot - len, len, cancelledBits, prec);
    SetSticky(r, z);
    if c != 0 {
      PushOne(r, len);
      r.expn := r.expn + 64;
    }
    TimesBit(Pow(len), c);
    StickyAbove(v, z, len, c);
  }

  lemma {:induction false} LowBound(t: nat, low: int, z: bool)
    requires (z <==> low != 0) && 0 <= low < Pow(t)
    ensures t == 0 ==> !z
  {
    if t == 0 {
      assert Pow(0) == 1;
    }
  }

  method SetSticky(r: BfNum, z: bool)
    requires r.tab.Length >= 1
    modifies r.tab
    ensures Val(r.tab[..]) == Sticky(Exact(old(Val(r.tab[..])), z))
  {
    hide Val;
    hide Sticky;
    ghost var s := r.tab[..];
    if z {
      r.tab[0] := OrOne(r.tab[0]);
    }
    SetLowBit(s, r.tab[0], z);
    assert r.tab[..] == s[0 := r.tab[0]];
  }

  /** The carry becomes a limb of its own. */
  method PushOne(r: BfNum, len: nat)
    requires r.tab.Length == len
    modifies r`tab, r.tab
    ensures fresh(r.tab) || r.tab == old(r.tab)
    ensures r.tab.Length == len + 1 && Val(r.tab[..]) == old(Val(r.tab[..])) + Pow(len)
  {
    hide Val;
    hide Pow;
    ghost var s := r.tab[..];
    r.Resize(len + 1);
    r.tab[len] := 1;
    assert r.tab[..] == s + [1];
    ValSnoc(s, 1);
  }

  /** The sticky bit is set in the lowest limb, below the carry. */
  lemma {:induction false} StickyAbove(v: nat, z: bool, rLen: nat, c: nat)
    requires 0 <= c <= 1 && rLen >= 1
    ensures Sticky(Exact(v + Pow(rLen) * c, z)) == Sticky(Exact(v, z)) + Pow(rLen) * c
  {
    PowStep(rLen - 1);
    EvenPower(Pow(rLen - 1));
    hide Pow;
    TimesBit(Pow(rLen), c);
    if c == 1 {
      SumParity(v, Pow(rLen));
    }
  }

  // ----- bf_add_internal -----

  ghost function SignedOf(m: nat, neg: bool): int {
    if neg then -(m as int) else m
  }

  /** The exponent and length of a grid on which both operands are integers. */
  function GridExp(a: BfNum, b: BfNum): int
    reads a, b
  {
    if a.expn > b.expn then a.expn else b.expn
  }

  function CommonLen(a: BfNum, b: BfNum): (tot: nat)
    reads a, b, a.tab, b.tab
    ensures tot >= a.tab.Length && 64 * (tot - a.tab.Length) >= GridExp(a, b) - a.expn
    ensures tot >= b.tab.Length && 64 * (tot - b.tab.Length) >= GridExp(a, b) - b.expn
  {
    if a.expn >= b.expn then GridLen(a.tab.Length, b.tab.Length, a.expn - b.expn)
    else GridLen(b.tab.Length, a.tab.Length, b.expn - a.expn)
  }

  /** The exact value of a + b, or a - b with bNeg, as an integer on that grid. */
  ghost function ExactSum(a: BfNum, b: BfNum, bNeg: bool): int
    reads a, b, a.tab, b.tab
  {
    var tot, top := CommonLen(a, b), GridExp(a, b);
    SignedOf(Placed(Val(a.tab[..]), a.tab.Length, top - a.expn, tot), a.sign)
    + SignedOf(Placed(Val(b.tab[..]), b.tab.Length, top - b.expn, tot), b.sign != bNeg)
  }

  /** The two magnitudes in order. */
  lemma {:induction false} OrderedSum(a: BfNum, b: BfNum, bNeg: bool, cmp: int, x: BfNum, y: BfNum)
    requires Regular(a) && Regular(b)
    requires x == (if cmp < 0 then b else a) && y == (if cmp < 0 then a else b)
    requires a.expn < b.expn ==> cmp < 0
    requires a.expn > b.expn ==> cmp > 0
    requires a.expn == b.expn ==>
               var tot := GridLen(a.tab.Length, b.tab.Length, 0);
               var na, nb := Placed(Val(a.tab[..]), a.tab.Length, 0, tot), Placed(Val(b.tab[..]), b.tab.Length, 0, tot);
               (cmp < 0 <==> na < nb) && (cmp == 0 <==> na == nb)
    ensures x.expn >= y.expn && x.expn == GridExp(a, b) && CommonLen(a, b) == Grid(x, y)
    ensures Upper(x, y) >= Lower(x, y) && Upper(x, y) > 0 && (cmp != 0 <==> Upper(x, y) > Lower(x, y))
    ensures var xs := if cmp < 0 then b.sign != bNeg else a.sign;
            ExactSum(a, b, bNeg) == SignedOf(MagnitudeSum(x, y, a.sign != (b.sign != bNeg)), xs)
    ensures MagnitudeSum(x, y, a.sign != (b.sign != bNeg)) == 0 <==> cmp == 0 && a.sign != (b.sign != bNeg)
  {
    hide Val;
    hide Pow2;
    hide Placed;
    hide Normalized;
    hide GridLen;
    var d := x.expn - y.expn;
    SymmetricGrid(a.tab.Length, b.tab.Length);
    if d > 0 {
      LargerExponent(x.tab[..], y.tab[..], d, GridLen(x.tab.Length, y.tab.Length, d));
    }
    PositivePlaced(x.tab[..], GridLen(x.tab.Length, y.tab.Length, d));
  }

  lemma {:induction false} SymmetricGrid(la: nat, lb: nat)
    ensures GridLen(la, lb, 0) == GridLen(lb, la, 0)
  {
  }

  lemma {:induction false} PositivePlaced(s: seq<Limb>, tot: nat)
    requires Normalized(s) && tot >= |s|
    ensures Placed(Val(s), |s|, 0, tot) > 0
  {
    hide Val;
    hide Pow2;
    hide Normalized;
    BPositive(s);
    MulLe(1, Val(s), Pow2(64 * (tot - |s|)));
  }

  /** bf_add_internal for finite operands other than zero. */
  method AddInternal(r: BfNum, a: BfNum, b: BfNum, prec: nat, f: BfFlags, bNeg: bool) returns (ret: Status)
    requires Regular(a) && Regular(b) && Rounding(f, prec)
    requires r != a && r != b && r.tab != a.tab && r.tab != b.tab
    modifies r, r.tab
    ensures fresh(r.tab) || r.tab == old(r.tab)
    ensures var sum := ExactSum(a, b, bNeg);
            if sum == 0 then Holds(r, f.rnd == RNDD, Zero, f, prec) && ret == Status(false, false, false)
            else
              var m := if sum < 0 then -sum else sum;
              var k := BitLen(m);
              var e := GridExp(a, b) - (64 * CommonLen(a, b) - k);
              && UnitFor(Exact(m, false), Unit(k, EffPrec(f, prec, e)))
              && Holds(r, sum < 0, RoundNumber(f, prec, sum < 0, Exact(m, false), k, e), f, prec)
              && ret == RoundStatus(f, prec, sum < 0, Exact(m, false), k, e)
  {
    hide Val;
    hide Pow2;
    hide Placed;
    hide Grid;
    hide MagnitudeSum;
    hide GridLen;
    hide Normalized;
    hide BitLen;
    hide Holds;
    hide RoundNumber;
    hide RoundStatus;
    hide UnitFor;
    hide CommonLen;
    hide ExactSum;
    var aSign, bSign := a.sign, b.sign != bNeg;
    var isSub := aSign != bSign;
    var cmpRes := CmpU(a, b);
    var x, y, sign := a, b, aSign;
    if cmpRes < 0 {
      x, y, sign := b, a, bSign;
    }
    OrderedSum(a, b, bNeg, cmpRes, x, y);
    if cmpRes == 0 && isSub {
      r.SetZero(f.rnd == RNDD);
      HoldsZero(r, f, prec);
      return Status(false, false, false);
    }
    r.sign := sign;
    ret := AddRounded(r, x, y, prec, f, isSub);
  }

  /** The operands in order: |a| is the larger. The sign of the result is already set. */
  method AddRounded(r: BfNum, a: BfNum, b: BfNum, prec: nat, f: BfFlags, isSub: bool) returns (ret: Status)
    requires Regular(a) && Regular(b) && Rounding(f, prec) && a.expn >= b.expn
    requires r != a && r != b && r.tab != a.tab && r.tab != b.tab
    requires isSub ==> Upper(a, b) > Lower(a, b)
    modifies r, r.tab
    ensures fresh(r.tab) || r.tab == old(r.tab)
    ensures MagnitudeSum(a, b, isSub) > 0
    ensures var m: nat := MagnitudeSum(a, b, isSub);
            var k := BitLen(m);
            var e := a.expn - (64 * Grid(a, b) - k);
            && UnitFor(Exact(m, false), Unit(k, EffPrec(f, prec, e)))
            && Holds(r, old(r.sign), RoundNumber(f, prec, old(r.sign), Exact(m, false), k, e), f, prec)
            && ret == RoundStatus(f, prec, old(r.sign), Exact(m, false), k, e)
  {
    hide Val;
    hide Pow2;
    hide Placed;
    hide Grid;
    hide MagnitudeSum;
    hide GridLen;
    hide Normalized;
    hide BitLen;
    hide Holds;
    hide RoundNumber;
    hide RoundStatus;
    hide UnitFor;
    hide CutTo;
    var x, rLen := AddMagnitudes(r, a, b, prec, isSub);
    ghost var neg := r.sign;
    ghost var tot, m := Grid(a, b), MagnitudeSum(a, b, isSub);
    ghost var k := BitLen(x.q);
    ghost var e := a.expn - 64 * rLen + k;
    StickyLength(x);
    ret := NormalizeAndRound(r, prec, f);
    if x.more {
      StickyNumber(f, prec, neg, x, k, e);
      PrecBelow(f, prec, e, k);
    }
    OutcomeOnGrid(f, prec, neg, m, x, k, e, 64 * (tot - rLen), r);
  }

  lemma {:induction false} PrecBelow(f: BfFlags, prec: nat, e: int, k: nat)
    requires Rounding(f, prec) && k >= prec + 2
    ensures EffPrec(f, prec, e) < k
  {
  }
}
