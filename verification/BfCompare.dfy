/** Comparing magnitudes limb by limb, and counting the bits that a subtraction cancels. */
module BfCompare {
  import opened Arith
  import opened Limbs
  import opened LimbMul
  import opened Bits
  import opened BfRound
  import opened BfDigits

  /** A mantissa m of len limbs, written with tot limbs after being moved right by drop bits. */
  function Placed(m: nat, len: nat, drop: nat, tot: nat): nat
    requires tot >= len && 64 * (tot - len) >= drop
  {
    m * Pow2(64 * (tot - len) - drop)
  }

  /** The number of limbs that holds a, and b moved right by d bits, without loss. */
  function GridLen(la: nat, lb: nat, d: nat): (tot: nat)
    ensures tot >= la && tot >= lb && 64 * (tot - lb) >= d
  {
    var t := lb + (d + 63) / 64;
    if la > t then la else t
  }

  lemma {:induction false} PlacedBounds(s: seq<Limb>, drop: nat, tot: nat)
    requires tot >= |s| && 64 * (tot - |s|) >= drop && Normalized(s)
    ensures var n := Placed(Val(s), |s|, drop, tot);
            n < Pow(tot) && n * Pow2(drop) < Pow(tot) <= 2 * (n * Pow2(drop))
    ensures Pow2(drop) >= 1
  {
    hide Val;
    hide Pow;
    hide Pow2;
    hide Normalized;
    NormalizedBound(s);
    var sh := 64 * (tot - |s|) - drop;
    PowIsPow2(tot - |s|);
    PowAdd(|s|, tot - |s|);
    Pow2Add(sh, drop);
    Assoc(Val(s), Pow2(sh), Pow2(drop));
    var u := Pow(tot - |s|);
    MulLt(Val(s), Pow(|s|), u);
    MulLe(Pow(|s|), 2 * Val(s), u);
    Assoc(2, Val(s), u);
    var n := Val(s) * Pow2(sh);
    MulLe(1, Pow2(drop), n);
  }

  // ----- bf_cmpu -----

  /** Compares the magnitudes of two finite numbers other than zero. */
  method CmpU(a: BfNum, b: BfNum) returns (c: int)
    requires Normalized(a.tab[..]) && Normalized(b.tab[..])
    ensures a.expn < b.expn ==> c < 0
    ensures a.expn > b.expn ==> c > 0
    ensures a.expn == b.expn ==>
              var tot := GridLen(a.tab.Length, b.tab.Length, 0);
              var na, nb := Placed(Val(a.tab[..]), a.tab.Length, 0, tot), Placed(Val(b.tab[..]), b.tab.Length, 0, tot);
              (c < 0 <==> na < nb) && (c == 0 <==> na == nb)
  {
    hide Val;
    hide Pow;
    hide Pow2;
    hide BitsOf;
    hide Digit;
    if a.expn != b.expn {
      if a.expn < b.expn {
        return -1;
      } else {
        return 1;
      }
    }
    var la, lb := a.tab.Length, b.tab.Length;
    var len := if la > lb then la else lb;
    ghost var sa, sb := 64 * (len - la), 64 * (len - lb);
    ghost var na, nb := Val(a.tab[..]) * Pow2(sa), Val(b.tab[..]) * Pow2(sb);
    PlacedBounds(a.tab[..], 0, len);
    PlacedBounds(b.tab[..], 0, len);
    DivModUnique(na, Pow(len), 0, na);
    DivModUnique(nb, Pow(len), 0, nb);
    var i := len - 1;
    while i >= 0
      invariant -1 <= i < len
      invariant na / Pow(i + 1) == nb / Pow(i + 1)
      decreases i
    {
      var v1 := GetLimbz(a.tab, la - len + i);
      var v2 := GetLimbz(b.tab, lb - len + i);
      DigitIsBits(Val(a.tab[..]), sa, i);
      DigitIsBits(Val(b.tab[..]), sb, i);
      DigitSplit(na, i);
      DigitSplit(nb, i);
      if v1 != v2 {
        OrderAt(na, nb, Pow(i));
        if v1 < v2 {
          return -1;
        } else {
          return 1;
        }
      }
      i := i - 1;
    }
    NoLimbs(0);
    PowZeroDiv(na, nb);
    return 0;
  }

  lemma {:induction false} OrderAt(x: nat, y: nat, p: nat)
    requires p >= 1
    ensures x / p < y / p ==> x < y
    ensures x / p > y / p ==> x > y
  {
    DivMod(x, p);
    DivMod(y, p);
    if x / p < y / p {
      MulLe(x / p + 1, y / p, p);
      Distrib(x / p, 1, p);
    } else if x / p > y / p {
      MulLe(y / p + 1, x / p, p);
      Distrib(y / p, 1, p);
    }
  }

  lemma {:induction false} PowZeroDiv(x: nat, y: nat)
    ensures x / Pow(0) == x && y / Pow(0) == y
  {
  }

  /** A number with a larger exponent is larger. */
  lemma {:induction false} LargerExponent(s: seq<Limb>, t: seq<Limb>, d: nat, tot: nat)
    requires Normalized(s) && Normalized(t) && d >= 1 && tot == GridLen(|s|, |t|, d)
    ensures Placed(Val(s), |s|, 0, tot) >= Placed(Val(t), |t|, d, tot)
    ensures Placed(Val(s), |s|, 0, tot) > Placed(Val(t), |t|, d, tot)
  {
    hide Val;
    hide Pow;
    hide Pow2;
    hide Placed;
    hide GridLen;
    PlacedBounds(s, 0, tot);
    PlacedBounds(t, d, tot);
    PowTwoZero();
    Pow2Even(d);
    var x, y := Placed(Val(s), |s|, 0, tot), Placed(Val(t), |t|, d, tot);
    MulLe(2, Pow2(d), y);
  }

  // ----- count_cancelled_bits -----

  /** The bitwise exclusive or. */
  function Xor(a: nat, b: nat): nat
    decreases a + b
  {
    if a == 0 && b == 0 then 0 else 2 * Xor(a / 2, b / 2) + if a % 2 == b % 2 then 0 else 1
  }

  /** The numbers agree above the top bit of their exclusive or and differ there. */
  lemma {:induction false} XorTop(a: nat, b: nat)
    requires a > b
    ensures Xor(a, b) > 0
    ensures var p := BitLen(Xor(a, b)) - 1; a / Pow2(p) == b / Pow2(p) + 1
    decreases a + b
  {
    var x := Xor(a / 2, b / 2);
    assert Xor(a, b) / 2 == x;
    if a / 2 > b / 2 {
      XorTop(a / 2, b / 2);
      var p := BitLen(x) - 1;
      assert BitLen(Xor(a, b)) == p + 2;
      DivTwice(a, p);
      DivTwice(b, p);
    } else {
      XorSame(a / 2);
      assert Xor(a, b) == 1 && BitLen(1) == 1 + BitLen(0);
      assert a == b + 1;
      assert Pow2(0) == 1;
    }
  }

  lemma {:induction false} XorSame(a: nat)
    ensures Xor(a, a) == 0
  {
    if a > 0 {
      XorSame(a / 2);
    }
  }

  lemma {:induction false} DivTwice(a: nat, p: nat)
    ensures a / Pow2(p + 1) == a / 2 / Pow2(p)
  {
    Pow2Even(p + 1);
    var h := Pow2(p);
    hide Pow2;
    DivMod(a, 2);
    DivMod(a / 2, h);
    var q, r := a / 2 / h, a / 2 % h;
    Distrib(q * h, r, 2);
    Assoc(q, h, 2);
    DivModUnique(a, 2 * h, q, 2 * r + a % 2);
  }

  /** How many more of the p low bits of x and y follow the pattern 0... and 1...: the shorter of the
      leading zeros of x and the leading ones of y. */
  function Matching(x: nat, y: nat, p: nat): (n: int)
    requires x < Pow2(p) && y < Pow2(p)
    ensures 0 <= n <= p
  {
    ShortLen(x, p);
    ShortLen(Pow2(p) - 1 - y, p);
    var lx, ly := BitLen(x), BitLen(Pow2(p) - 1 - y);
    p - if lx > ly then lx else ly
  }

  lemma {:induction false} ShortLen(x: nat, p: nat)
    requires x < Pow2(p)
    ensures BitLen(x) <= p
  {
    hide Pow2;
    hide BitLen;
    BitLenBounds(x);
    ZeroLen(x);
    if BitLen(x) > p {
      Pow2Mono(p, BitLen(x) - 1);
      assert false;
    }
  }

  lemma {:induction false} ZeroLen(x: nat)
    ensures BitLen(x) == 0 <==> x == 0
  {
  }

  /** After the matching bits comes a pair that breaks the pattern, unless all p bits match. */
  lemma {:induction false} MatchingBreaks(x: nat, y: nat, p: nat)
    requires x < Pow2(p) && y < Pow2(p)
    ensures var n := Matching(x, y, p);
            if n == p then x == 0 && y == Pow2(p) - 1 else Pow2(p) + x - y >= 1 + Pow2(p - n - 1)
  {
    hide Pow2;
    hide BitLen;
    var y' := Pow2(p) - 1 - y;
    ShortLen(x, p);
    ShortLen(y', p);
    BitLenBounds(x);
    BitLenBounds(y');
    ZeroLen(x);
    ZeroLen(y');
  }

  /** The difference of two numbers whose upper parts differ by more than w. */
  lemma {:induction false} DifferenceLong(x: nat, y: nat, p: nat, w: nat, j: nat)
    requires p == Pow2(j) && x / p >= y / p + 1 + w && w >= 1
    ensures x - y >= w * p
  {
    hide Pow2;
    DivMod(x, p);
    DivMod(y, p);
    MulLe(y / p + 1 + w, x / p, p);
    Distrib(y / p, 1 + w, p);
    Distrib(1, w, p);
  }

  /** The limbs read at distance j from the top are digits on the common grid. */
  lemma {:induction false} TopDigits(A: seq<Limb>, D: seq<Limb>, d: int, tot: nat, j: nat)
    requires 0 <= d <= 1 && tot == GridLen(|A|, |D|, d)
    ensures j < tot ==> BitsOf(Val(A), 64 * (|A| - 1 - j)) == Digit(Placed(Val(A), |A|, 0, tot), tot - 1 - j)
    ensures j < tot ==> BitsOf(Val(D), 64 * (|D| - 1 - j) + d) == Digit(Placed(Val(D), |D|, d, tot), tot - 1 - j)
    ensures j >= tot ==> BitsOf(Val(A), 64 * (|A| - 1 - j)) == 0 && BitsOf(Val(D), 64 * (|D| - 1 - j) + d) == 0
  {
    hide Val;
    hide Pow;
    hide Pow2;
    hide BitsOf;
    hide Digit;
    if j < tot {
      DigitIsBits(Val(A), 64 * (tot - |A|), tot - 1 - j);
      DigitIsBits(Val(D), 64 * (tot - |D|) - d, tot - 1 - j);
    } else {
      BitsOutside(A, 64 * (|A| - 1 - j));
      BitsOutside(D, 64 * (|D| - 1 - j) + d);
    }
  }

  /** The end of the count: the pattern breaks after m of the p bits under limb j from the top. */
  lemma {:induction false} CountEnds(na: nat, nb: nat, tot: nat, j: nat, p: nat, m: nat, n: nat)
    requires j < tot && m < p <= 64 && n == 64 * j + (64 - p) + m
    requires na / Pow(tot - j - 1) >= nb / Pow(tot - j - 1) + 1 + Pow2(p - m - 1)
    ensures na > nb && BitLen(na - nb) + n >= 64 * tot
  {
    hide Pow;
    hide Pow2;
    hide BitLen;
    var z := 64 * (tot - j - 1);
    PowIsPow2(tot - j - 1);
    DifferenceLong(na, nb, Pow(tot - j - 1), Pow2(p - m - 1), z);
    Pow2Add(p - m - 1, z);
    ReachesLen(na - nb, p - m - 1 + z);
  }

  lemma {:induction false} ReachesLen(q: int, k: nat)
    requires q >= Pow2(k)
    ensures q > 0 && BitLen(q) >= k + 1
  {
    hide Pow2;
    hide BitLen;
    BitLenBounds(q);
    if BitLen(q) <= k {
      Pow2Mono(BitLen(q), k);
      assert false;
    }
  }

  /** The first pair of limbs that differ: their difference, from the bits below the first different
      one. */
  lemma {:induction false} FirstPair(v1: Limb, v2: Limb, p: int)
    requires v1 > v2 && p == BitLen(Xor(v1, v2)) - 1
    ensures Xor(v1, v2) > 0 && 0 <= p < 64
    ensures v1 - v2 == Pow2(p) + v1 % Pow2(p) - v2 % Pow2(p)
  {
    hide Xor;
    hide BitLen;
    XorTop(v1, v2);
    LimbIsPow2();
    hide Pow2;
    var c := Pow2(BitLen(Xor(v1, v2)) - 1);
    DivMod(v1, c);
    DivMod(v2, c);
    Distrib(v2 / c, 1, c);
    if p >= 64 {
      Pow2Mono(64, p);
      MulLe(1, v1 / c, c);
      assert false;
    }
  }

  /** The j limbs at the top of a number of tot limbs. */
  function Top(n: nat, tot: nat, j: nat): nat
    requires j <= tot
  {
    n / Pow(tot - j)
  }

  lemma {:induction false} TopOrder(x: nat, y: nat, tot: nat, j: nat)
    requires j <= tot
    ensures Top(x, tot, j) < Top(y, tot, j) ==> x < y
    ensures Top(x, tot, j) > Top(y, tot, j) ==> x > y
    ensures j == tot ==> Top(x, tot, j) == x && Top(y, tot, j) == y
  {
    hide Pow;
    OrderAt(x, y, Pow(tot - j));
    if j == tot {
      PowZeroDiv(x, y);
    }
  }

  /** The pair of limbs at distance j from the top. */
  method ReadPair(a: BfNum, b: BfNum, bitOffset: int, bOffset: int, ghost j: nat, ghost tot: nat)
    returns (v1: Limb, v2: Limb)
    requires 0 <= a.expn - b.expn <= 1 && tot == GridLen(a.tab.Length, b.tab.Length, a.expn - b.expn)
    requires bitOffset == 64 * (a.tab.Length - j) - 1
    requires bOffset == (b.tab.Length - a.tab.Length) * 64 - 63 + a.expn - b.expn
    ensures var d := a.expn - b.expn;
            var na, nb := Placed(Val(a.tab[..]), a.tab.Length, 0, tot), Placed(Val(b.tab[..]), b.tab.Length, d, tot);
            if j < tot then
              Top(na, tot, j + 1) == B * Top(na, tot, j) + v1 && Top(nb, tot, j + 1) == B * Top(nb, tot, j) + v2
            else v1 == 0 && v2 == 0
  {
    hide Val;
    hide Pow;
    hide Pow2;
    hide BitsOf;
    hide Digit;
    hide Placed;
    hide GridLen;
    ghost var A, D, d := a.tab[..], b.tab[..], a.expn - b.expn;
    v1 := GetLimbz(a.tab, bitOffset / 64);
    WholeSlice(b.tab);
    v2 := GetBits(b.tab, 0, b.tab.Length, bitOffset + bOffset);
    TopDigits(A, D, d, tot, j);
    if j < tot {
      DigitSplit(Placed(Val(A), |A|, 0, tot), tot - 1 - j);
      DigitSplit(Placed(Val(D), |D|, d, tot), tot - 1 - j);
    }
  }

  /** The end of the count: the pattern breaks after m of the p bits under limb j from the top. */
  lemma {:induction false} CountStops(na: nat, nb: nat, tot: nat, j: nat, p: nat, m: nat, n: nat)
    requires j < tot && m < p <= 64 && n == 64 * j + (64 - p) + m
    requires Top(na, tot, j + 1) >= Top(nb, tot, j + 1) + 1 + Pow2(p - m - 1)
    ensures na > nb && BitLen(na - nb) + n >= 64 * tot
  {
    hide Pow;
    hide Pow2;
    hide BitLen;
    CountEnds(na, nb, tot, j, p, m, n);
  }

  /** count_cancelled_bits: the difference is at most this many bits shorter than the grid. */
  method CountCancelled(a: BfNum, b: BfNum) returns (n: nat)
    requires Normalized(a.tab[..]) && Normalized(b.tab[..]) && 0 <= a.expn - b.expn <= 1
    requires var d := a.expn - b.expn; var tot := GridLen(a.tab.Length, b.tab.Length, d);
             Placed(Val(a.tab[..]), a.tab.Length, 0, tot) > Placed(Val(b.tab[..]), b.tab.Length, d, tot)
    ensures var d := a.expn - b.expn; var tot := GridLen(a.tab.Length, b.tab.Length, d);
            var na, nb := Placed(Val(a.tab[..]), a.tab.Length, 0, tot), Placed(Val(b.tab[..]), b.tab.Length, d, tot);
            BitLen(na - nb) + n >= 64 * tot
  {
    hide Val;
    hide Top;
    hide Pow2;
    hide BitLen;
    hide Placed;
    hide GridLen;
    hide Xor;
    hide Matching;
    ghost var A, D, d := a.tab[..], b.tab[..], a.expn - b.expn;
    ghost var tot := GridLen(|A|, |D|, d);
    ghost var na, nb := Placed(Val(A), |A|, 0, tot), Placed(Val(D), |D|, d, tot);
    GridFits(A, D, d, tot);
    var bitOffset: int := a.tab.Length * 64 - 1;
    var bOffset := (b.tab.Length - a.tab.Length) * 64 - (64 - 1) + a.expn - b.expn;
    // the limbs that are equal
    var v1: Limb, v2: Limb := ReadPair(a, b, bitOffset, bOffset, 0, tot);
    ghost var j := 0;
    n := 0;
    TopOrder(na, nb, tot, 1);
    while v1 == v2
      invariant j < tot && n == 64 * j && bitOffset == 64 * (|A| - j) - 1
      invariant Top(na, tot, j) == Top(nb, tot, j)
      invariant Top(na, tot, j + 1) == B * Top(na, tot, j) + v1 && Top(nb, tot, j + 1) == B * Top(nb, tot, j) + v2
      decreases tot - j
    {
      n := n + 64;
      bitOffset := bitOffset - 64;
      j := j + 1;
      TopOrder(na, nb, tot, j);
      v1, v2 := ReadPair(a, b, bitOffset, bOffset, j, tot);
    }
    TopOrder(na, nb, tot, j + 1);
    // the first different bit, and the bits after it in the same limb
    var p := BitLen(Xor(v1, v2)) - 1;
    FirstPair(v1, v2, p);
    n := n + (64 - p);
    LowBits(v1, p);
    LowBits(v2, p);
    if p > 0 {
      var p1 := Matching(v1 % Pow2(p), v2 % Pow2(p), p);
      MatchingBreaks(v1 % Pow2(p), v2 % Pow2(p), p);
      n := n + p1;
      if p1 != p {
        CountStops(na, nb, tot, j, p, p1, n);
        return;
      }
    }
    bitOffset := bitOffset - 64;
    n := CountPattern(a, b, n, bitOffset, bOffset, j + 1, tot);
  }

  lemma {:induction false} LowBits(v: Limb, p: nat)
    ensures 0 <= v % Pow2(p) < Pow2(p)
    ensures p == 0 ==> v % Pow2(p) == 0 && Pow2(p) == 1
  {
    if p == 0 {
      PowTwoZero();
    }
  }

  lemma {:induction false} GridFits(A: seq<Limb>, D: seq<Limb>, d: nat, tot: nat)
    requires Normalized(A) && Normalized(D) && tot == GridLen(|A|, |D|, d)
    ensures tot >= 1
    ensures Top(Placed(Val(A), |A|, 0, tot), tot, 0) == 0 && Top(Placed(Val(D), |D|, d, tot), tot, 0) == 0
  {
    hide Val;
    hide Pow;
    hide Pow2;
    hide Placed;
    PlacedBounds(A, 0, tot);
    PlacedBounds(D, d, tot);
    DivModUnique(Placed(Val(A), |A|, 0, tot), Pow(tot), 0, Placed(Val(A), |A|, 0, tot));
    DivModUnique(Placed(Val(D), |D|, d, tot), Pow(tot), 0, Placed(Val(D), |D|, d, tot));
  }

  /** The limbs 0...0 and 1...1 that follow. */
  method CountPattern(a: BfNum, b: BfNum, n0: nat, bitOffset0: int, bOffset: int, ghost j0: nat, ghost tot: nat)
    returns (n: nat)
    requires Normalized(a.tab[..]) && Normalized(b.tab[..]) && 0 <= a.expn - b.expn <= 1
    requires tot == GridLen(a.tab.Length, b.tab.Length, a.expn - b.expn)
    requires j0 <= tot && n0 == 64 * j0 && bitOffset0 == 64 * (a.tab.Length - j0) - 1
    requires bOffset == (b.tab.Length - a.tab.Length) * 64 - 63 + a.expn - b.expn
    requires var d := a.expn - b.expn;
             Top(Placed(Val(a.tab[..]), a.tab.Length, 0, tot), tot, j0)
             == Top(Placed(Val(b.tab[..]), b.tab.Length, d, tot), tot, j0) + 1
    ensures var d := a.expn - b.expn;
            var na, nb := Placed(Val(a.tab[..]), a.tab.Length, 0, tot), Placed(Val(b.tab[..]), b.tab.Length, d, tot);
            na > nb && BitLen(na - nb) + n >= 64 * tot
  {
    hide Val;
    hide Top;
    hide Pow2;
    hide BitLen;
    hide Placed;
    hide GridLen;
    hide Matching;
    ghost var A, D, d := a.tab[..], b.tab[..], a.expn - b.expn;
    ghost var na, nb := Placed(Val(A), |A|, 0, tot), Placed(Val(D), |D|, d, tot);
    ghost var j := j0;
    var bitOffset := bitOffset0;
    n := n0;
    TopOrder(na, nb, tot, j0);
    LimbIsPow2();
    while true
      invariant j <= tot && n == 64 * j && bitOffset == 64 * (|A| - j) - 1
      invariant Top(na, tot, j) == Top(nb, tot, j) + 1
      decreases tot - j
    {
      var v1, v2 := ReadPair(a, b, bitOffset, bOffset, j, tot);
      if v1 != 0 || v2 != B - 1 {
        var p1 := Matching(v1, v2, 64);
        MatchingBreaks(v1, v2, 64);
        n := n + p1;
        if j < tot {
          CountStops(na, nb, tot, j, 64, p1, n);
        }
        return;
      }
      n := n + 64;
      bitOffset := bitOffset - 64;
      j := j + 1;
    }
  }
}
