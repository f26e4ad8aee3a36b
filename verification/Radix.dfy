/** Base conversion of long integers: balanced recursion over the digits, with the powers it needs
    kept one per level. */
module RadixConversion {
  import opened Arith
  import opened Limbs
  import opened LimbMul
  import opened LimbOps
  import opened Bits
  import opened FastDivision

  /** The number with these digits in base r, least significant first. */
  function FromDigits(s: seq<Limb>, r: nat): nat {
    if |s| == 0 then 0 else s[0] + r * FromDigits(s[1..], r)
  }

  ghost predicate Digits(s: seq<Limb>, r: nat) {
    forall i :: 0 <= i < |s| ==> s[i] < r
  }

  lemma {:induction false} PowerPositive(r: nat, n: nat)
    requires r >= 1
    ensures Power(r, n) >= 1
  {
    if n > 0 {
      PowerPositive(r, n - 1);
      MulLe(1, Power(r, n - 1), r);
    }
  }

  lemma {:induction false} PowerAdd(r: nat, m: nat, n: nat)
    ensures Power(r, m + n) == Power(r, m) * Power(r, n)
  {
    if m > 0 {
      PowerAdd(r, m - 1, n);
      Assoc(r, Power(r, m - 1), Power(r, n));
    }
  }

  lemma {:induction false} DigitsAppend(s: seq<Limb>, t: seq<Limb>, r: nat)
    ensures FromDigits(s + t, r) == FromDigits(s, r) + Power(r, |s|) * FromDigits(t, r)
  {
    if |s| == 0 {
      assert s + t == t;
    } else {
      assert (s + t)[1..] == s[1..] + t;
      DigitsAppend(s[1..], t, r);
      AppendArith(s[0], r, FromDigits(s[1..], r), Power(r, |s| - 1), FromDigits(t, r));
    }
  }

  lemma {:induction false} AppendArith(x: int, r: int, u: int, p: int, v: int)
    ensures x + r * (u + p * v) == x + r * u + (r * p) * v
  {
    Assoc(r, p, v);
    Distrib(u, p * v, r);
  }

  /** n digits stand for a number below r to the power n. */
  lemma {:induction false} DigitsBound(s: seq<Limb>, r: nat)
    requires Digits(s, r)
    ensures FromDigits(s, r) < Power(r, |s|)
  {
    if |s| > 0 {
      DigitsBound(s[1..], r);
      MulLe(FromDigits(s[1..], r), Power(r, |s| - 1) - 1, r);
      Distrib(Power(r, |s| - 1), 1, r);
    }
  }

  /** Two digit strings of one length that stand for the same number are the same. */
  lemma {:induction false} DigitsUnique(s: seq<Limb>, t: seq<Limb>, r: nat)
    requires |s| == |t| && Digits(s, r) && Digits(t, r)
    requires FromDigits(s, r) == FromDigits(t, r)
    ensures s == t
  {
    if |s| > 0 {
      var u, v := FromDigits(s[1..], r), FromDigits(t[1..], r);
      DivModUnique(r * u + s[0], r, u, s[0]);
      DivModUnique(r * v + t[0], r, v, t[0]);
      DigitsUnique(s[1..], t[1..], r);
      assert s == [s[0]] + s[1..] && t == [t[0]] + t[1..];
    }
  }

  lemma {:induction false} OneDigit(x: Limb, r: nat)
    ensures FromDigits([x], r) == x
  {
    assert [x][1..] == [];
  }

  lemma {:induction false} TwoDigits(x: Limb, y: Limb, r: nat)
    ensures FromDigits([x, y], r) == x + r * y
  {
    assert [x, y] == [x] + [y];
    OneDigit(x, r);
    OneDigit(y, r);
    assert Power(r, 1) == r * Power(r, 0);
    DigitsAppend([x], [y], r);
  }

  /** b >> i. */
  function Shr(b: nat, i: nat): nat {
    DivMod(b, Pow2(i));
    b / Pow2(i)
  }

  // ----- the shape of the recursion -----

  /** The number of low digits split off at a level, when n0 digits are converted. */
  function LowDigits(n0: nat, level: nat): nat {
    (n0 * 2 / Pow2(level + 1) + 1) / 2
  }

  /** Every section met at a level has one of two lengths. */
  ghost predicate NodeLength(n0: nat, level: nat, n: nat) {
    n == n0 / Pow2(level) || n == n0 / Pow2(level) + 1
  }

  lemma {:induction false} RootLength(n0: nat)
    ensures NodeLength(n0, 0, n0)
  {
  }

  lemma {:induction false} HalfLevel(n0: nat, level: nat)
    ensures n0 * 2 / Pow2(level + 1) == n0 / Pow2(level)
    ensures n0 / Pow2(level + 1) == n0 / Pow2(level) / 2
  {
    var p := Pow2(level);
    var q, r := n0 / p, n0 % p;
    DivMod(n0, p);
    assert Pow2(level + 1) == 2 * p;
    DoubledDivision(n0, p, q, r);
    HalvedDivision(n0, p, q, r, q / 2, q % 2);
  }

  lemma {:induction false} DoubledDivision(n0: int, p: int, q: int, r: int)
    requires p > 0 && n0 == q * p + r && 0 <= r < p
    ensures n0 * 2 / (2 * p) == q
  {
    Assoc(q, 2, p);
    DivModUnique(n0 * 2, 2 * p, q, 2 * r);
  }

  lemma {:induction false} HalvedDivision(n0: int, p: int, q: int, r: int, h: int, b: int)
    requires p > 0 && n0 == q * p + r && 0 <= r < p && q == 2 * h + b && 0 <= b <= 1
    ensures n0 / (2 * p) == h
  {
    Distrib(2 * h, b, p);
    Assoc(2, h, p);
    Swapped(h, p);
    TimesBit(p, b);
    DivModUnique(n0, 2 * p, h, b * p + r);
  }

  lemma {:induction false} Swapped(h: int, p: int)
    ensures 2 * (h * p) == h * (2 * p)
  {
  }

  /** Both halves of a section have lengths of the next level, neither is empty, and the level has
      a place in the table of powers. */
  lemma {:induction false} SplitLengths(n0: nat, level: nat, n: nat)
    requires 1 <= n0 < B && NodeLength(n0, level, n) && n >= 2
    ensures 1 <= LowDigits(n0, level) < n
    ensures NodeLength(n0, level + 1, LowDigits(n0, level))
    ensures NodeLength(n0, level + 1, n - LowDigits(n0, level))
    ensures level + 1 < CeilLog2(n0) + 2
  {
    HalfLevel(n0, level);
    LevelBound(n0, level);
  }

  lemma {:induction false} LevelBound(n0: nat, level: nat)
    requires 1 <= n0 < B && n0 / Pow2(level) >= 1
    ensures level <= CeilLog2(n0)
  {
    hide Pow2;
    var c := CeilLog2(n0);
    CeilLog2Bounds(n0);
    DivMod(n0, Pow2(level));
    MulLe(1, n0 / Pow2(level), Pow2(level));
    if c < level {
      Pow2Mono(c + 1, level);
      Pow2Even(c + 1);
      assert false;
    }
  }

  // ----- powers -----

  /** bf_mul on integers, with infinite precision. */
  function Times(x: nat, y: nat): nat {
    MulNonneg(x, y);
    x * y
  }

  lemma {:induction false} PowerStep(a: nat, b: nat, i: nat, h: nat)
    requires h == Power(a, Shr(b, i + 1))
    ensures Power(a, Shr(b, i)) == if Shr(b, i) % 2 == 1 then Times(Times(h, h), a) else Times(h, h)
  {
    hide Pow2;
    HalfLevel(b, i);
    var q := Shr(b, i);
    PowerAdd(a, q / 2, q / 2);
    if q % 2 == 1 {
      PowerAdd(a, q / 2 + q / 2, 1);
      assert Power(a, 1) == a * Power(a, 0);
    }
  }

  lemma {:induction false} LeadingBit(a: nat, b: nat)
    requires b > 0
    ensures Power(a, Shr(b, BitLen(b) - 1)) == a
  {
    hide Pow2;
    hide BitLen;
    BitLenBounds(b);
    Pow2Even(BitLen(b));
    DivModUnique(b, Pow2(BitLen(b) - 1), 1, b - Pow2(BitLen(b) - 1));
    assert Power(a, 1) == a * Power(a, 0);
  }

  /** bf_pow_ui with infinite precision: the bits of the exponent from the highest down. */
  method PowUi(a: nat, b: nat) returns (r: nat)
    ensures r == Power(a, b)
  {
    if b == 0 {
      return 1;
    }
    hide Pow2;
    hide BitLen;
    hide Shr;
    hide Power;
    hide Times;
    r := a;
    LeadingBit(a, b);
    var i := BitLen(b) - 1;
    while i > 0
      invariant 0 <= i
      invariant r == Power(a, Shr(b, i))
    {
      i := i - 1;
      PowerStep(a, b, i, r);
      r := Times(r, r);
      if Shr(b, i) % 2 == 1 {
        r := Times(r, a);
      }
    }
    ShrNothing(b);
  }

  lemma {:induction false} ShrNothing(b: nat)
    ensures Shr(b, 0) == b
  {
  }

  // ----- digits to integer -----

  /** The table of powers: at each level nothing yet, or the power that level needs. */
  ghost predicate Cached(powTab: seq<nat>, r: nat, n0: nat, stride: nat)
    requires stride >= 1
  {
    forall k :: 0 <= k && k * stride < |powTab| ==>
      powTab[k * stride] == 0 || powTab[k * stride] == Power(r, LowDigits(n0, k))
  }

  lemma {:induction false} JoinParts(s: seq<Limb>, n2: nat, r: nat)
    requires n2 <= |s|
    ensures FromDigits(s, r) == Times(FromDigits(s[n2..], r), Power(r, n2)) + FromDigits(s[..n2], r)
  {
    hide Power;
    hide FromDigits;
    assert s == s[..n2] + s[n2..];
    DigitsAppend(s[..n2], s[n2..], r);
  }

  /** bf_integer_from_radix_rec: the high digits times the power of the low ones, plus the low ones. */
  method FromRadixRec(tab: seq<Limb>, level: nat, n0: nat, radix: Limb, powTab: array<nat>) returns (r: nat)
    requires |tab| >= 1 && 1 <= n0 < B && radix >= 1
    requires NodeLength(n0, level, |tab|) && powTab.Length == CeilLog2(n0) + 2
    requires Cached(powTab[..], radix, n0, 1)
    modifies powTab
    ensures Cached(powTab[..], radix, n0, 1)
    ensures r == FromDigits(tab, radix)
    decreases |tab|
  {
    hide Times;
    hide Power;
    hide FromDigits;
    hide Cached;
    hide Pow2;
    hide NodeLength;
    hide LowDigits;
    var n := |tab|;
    if n == 1 {
      OneDigit(tab[0], radix);
      assert tab == [tab[0]];
      return tab[0];
    }
    SplitLengths(n0, level, n);
    var n2 := LowDigits(n0, level);
    SlotFree(powTab[..], radix, n0, 1, level);
    if powTab[level] == 0 {
      var p := PowUi(radix, n2);
      SlotFilled(powTab[..], radix, n0, 1, level);
      powTab[level] := p;
    }
    var b := powTab[level];
    PowerPositive(radix, n2);
    r := FromRadixRec(tab[n2..], level + 1, n0, radix, powTab);
    r := Times(r, b);
    var t := FromRadixRec(tab[..n2], level + 1, n0, radix, powTab);
    JoinParts(tab, n2, radix);
    r := r + t;
  }

  /** What a slot of the table holds. */
  lemma {:induction false} SlotFree(p: seq<nat>, r: nat, n0: nat, stride: nat, k: nat)
    requires stride >= 1 && k * stride < |p| && Cached(p, r, n0, stride)
    ensures 0 <= k * stride
    ensures p[k * stride] == 0 || p[k * stride] == Power(r, LowDigits(n0, k))
  {
  }

  /** Filling a slot keeps the table in order. */
  lemma {:induction false} SlotFilled(p: seq<nat>, r: nat, n0: nat, stride: nat, k: nat)
    requires stride >= 1 && 0 <= k * stride < |p| && Cached(p, r, n0, stride)
    ensures Cached(p[k * stride := Power(r, LowDigits(n0, k))], r, n0, stride)
  {
    hide Power;
    hide LowDigits;
    var q := p[k * stride := Power(r, LowDigits(n0, k))];
    forall j | 0 <= j && j * stride < |q|
      ensures q[j * stride] == 0 || q[j * stride] == Power(r, LowDigits(n0, j))
    {
      if j * stride == k * stride {
        CancelSlot(j, k, stride);
      }
    }
  }

  lemma {:induction false} CancelSlot(j: int, k: int, stride: int)
    requires stride >= 1 && j * stride == k * stride
    ensures j == k
  {
    if j < k {
      MulLe(j + 1, k, stride);
      Distrib(j, 1, stride);
      assert false;
    } else if k < j {
      MulLe(k + 1, j, stride);
      Distrib(k, 1, stride);
      assert false;
    }
  }

  /** bf_integer_from_radix: any section of digits, from an empty table. */
  method FromRadix(tab: seq<Limb>, radix: Limb) returns (r: nat)
    requires 1 <= |tab| < B && radix >= 1
    ensures r == FromDigits(tab, radix)
  {
    hide Pow2;
    hide Power;
    hide FromDigits;
    var powTab := new nat[CeilLog2(|tab|) + 2](_ => 0);
    RootLength(|tab|);
    r := FromRadixRec(tab, 0, |tab|, radix, powTab);
  }

  // ----- integer to digits -----

  /** The floating point steps whose rounding the result does not depend on: an approximate inverse
      of a power, and an approximate quotient by means of it. */
  datatype Estimates = Estimates(inverse: (nat, nat) -> nat, quotient: (nat, nat, nat) -> nat)

  /** The adjustment loops: from any estimate to the quotient and the remainder. */
  method Adjust(a: nat, b: nat, estimate: nat) returns (q: nat, r: nat)
    requires b >= 1
    ensures a == q * b + r && r < b
  {
    var rem := a - estimate * b;
    var qAdd := 0;
    while rem < 0
      invariant (estimate + qAdd) * b + rem == a
      invariant rem < b || qAdd == 0
    {
      Distrib(estimate + qAdd - 1, 1, b);
      rem := rem + b;
      qAdd := qAdd - 1;
    }
    while rem >= b
      invariant (estimate + qAdd) * b + rem == a && rem >= 0
    {
      Distrib(estimate + qAdd, 1, b);
      rem := rem - b;
      qAdd := qAdd + 1;
    }
    NonnegQuotient(a, b, estimate + qAdd, rem);
    q := estimate + qAdd;
    r := rem;
  }

  lemma {:induction false} NonnegQuotient(a: nat, b: nat, q: int, r: int)
    requires a == q * b + r && 0 <= r < b
    ensures q >= 0
  {
    if q < 0 {
      MulLe(q, -1, b);
      assert false;
    }
  }

  /** A quotient by a power has the digits that are left. */
  lemma {:induction false} QuotientDigits(a: nat, r: nat, n1: nat, n2: nat, q: nat, rem: nat)
    requires a < Power(r, n1 + n2) && a == q * Power(r, n2) + rem && r >= 1
    ensures q < Power(r, n1)
  {
    PowerAdd(r, n1, n2);
    PowerPositive(r, n2);
    if q >= Power(r, n1) {
      MulLe(Power(r, n1), q, Power(r, n2));
      assert false;
    }
  }

  /** The n digits from off on stand for a. */
  ghost predicate DigitsAt(s: seq<Limb>, off: nat, n: nat, r: nat, a: nat) {
    off + n <= |s| && Digits(s[off..off + n], r) && FromDigits(s[off..off + n], r) == a
  }

  /** The digits of a section from those of its two parts, the high ones found first. */
  lemma {:induction false} JoinDigits(was: seq<Limb>, s: seq<Limb>, off: nat, n2: nat, n: nat, q: nat, rem: nat, r: nat)
    requires n2 <= n && SameOutside(was, s, off, off + n2)
    requires DigitsAt(was, off + n2, n - n2, r, q) && DigitsAt(s, off, n2, r, rem)
    ensures DigitsAt(s, off, n, r, q * Power(r, n2) + rem)
  {
    hide Power;
    hide FromDigits;
    SameSlice(was, s, off, off + n2, off + n2, off + n);
    assert s[off..off + n] == s[off..off + n2] + s[off + n2..off + n];
    DigitsAppend(s[off..off + n2], s[off + n2..off + n], r);
  }

  /** The sections of one and of two digits, split by one division of a double word. */
  method SmallDigits(out: array<Limb>, off: nat, a: nat, n: nat, radixl: Limb)
    requires 1 <= n <= 2 && off + n <= out.Length && radixl >= 1 && a < Power(radixl, n)
    modifies out
    ensures DigitsAt(out[..], off, n, radixl, a)
    ensures SameOutside(old(out[..]), out[..], off, off + n)
  {
    hide Power;
    hide FromDigits;
    if n == 1 {
      OneDigitFits(a, radixl);
      out[off] := a;
      OneDigit(a, radixl);
      assert out[off..off + 1] == [a];
    } else {
      TwoDigitsFit(a, radixl);
      out[off] := a % radixl;
      out[off + 1] := a / radixl;
      TwoDigits(a % radixl, a / radixl, radixl);
      assert out[off..off + 2] == [a % radixl, a / radixl];
    }
  }

  /** bf_integer_to_radix_rec: the low digits from the remainder by a power, the high ones from the
      quotient. */
  method ToRadixRec(powTab: array<nat>, out: array<Limb>, off: nat, a: nat, n: nat, level: nat, n0: nat,
                    radixl: Limb, radixlBits: nat, est: Estimates)
    requires n >= 1 && off + n <= out.Length && 1 <= n0 < B && radixl >= 1
    requires NodeLength(n0, level, n) && powTab.Length == (CeilLog2(n0) + 2) * 2
    requires Cached(powTab[..], radixl, n0, 2)
    requires a < Power(radixl, n)
    modifies powTab, out
    ensures Cached(powTab[..], radixl, n0, 2)
    ensures DigitsAt(out[..], off, n, radixl, a)
    ensures SameOutside(old(out[..]), out[..], off, off + n)
    decreases n
  {
    hide *;
    if n <= 2 {
      SmallDigits(out, off, a, n, radixl);
      return;
    }
    SplitLengths(n0, level, n);
    var n2 := LowDigits(n0, level);
    var n1 := n - n2;
    var b := PowerAt(powTab, radixl, n0, level, n2, radixlBits, est);
    PowerPositive(radixl, n2);
    var q, r := Adjust(a, b, est.quotient(a, powTab[2 * level + 1], n1 * radixlBits));
    QuotientDigits(a, radixl, n1, n2, q, r);
    ghost var s0 := out[..];
    ToRadixRec(powTab, out, off + n2, q, n1, level + 1, n0, radixl, radixlBits, est);
    ghost var s1 := out[..];
    ToRadixRec(powTab, out, off, r, n2, level + 1, n0, radixl, radixlBits, est);
    SameChain(s0, s1, out[..], off, off + n, off + n2, off + n, off, off + n2);
    JoinDigits(s1, out[..], off, n2, n, q, r, radixl);
  }

  lemma {:induction false} OneDigitFits(a: nat, r: nat)
    requires a < Power(r, 1)
    ensures a < r
  {
    assert Power(r, 1) == r * Power(r, 0);
  }

  lemma {:induction false} TwoDigitsFit(a: nat, r: nat)
    requires a < Power(r, 2) && r >= 1
    ensures 0 <= a % r < r && 0 <= a / r < r && a == a % r + r * (a / r)
  {
    assert Power(r, 2) == r * Power(r, 1) && Power(r, 1) == r * Power(r, 0);
    DivMod(a, r);
    if a / r >= r {
      MulLe(r, a / r, r);
      assert false;
    }
  }

  /** The power of a level, computed with its approximate inverse when it is first needed. */
  method PowerAt(powTab: array<nat>, radixl: Limb, n0: nat, level: nat, n2: nat, bits: nat, est: Estimates)
      returns (b: nat)
    requires n2 == LowDigits(n0, level) && 2 * level + 1 < powTab.Length && radixl >= 1
    requires Cached(powTab[..], radixl, n0, 2)
    modifies powTab
    ensures Cached(powTab[..], radixl, n0, 2)
    ensures b == Power(radixl, n2)
  {
    hide Pow2;
    hide LowDigits;
    hide Power;
    SlotFree(powTab[..], radixl, n0, 2, level);
    if powTab[2 * level] == 0 {
      var p := PowUi(radixl, n2);
      SlotFilled(powTab[..], radixl, n0, 2, level);
      powTab[2 * level] := p;
      powTab[2 * level + 1] := est.inverse(p, (n2 + 1) * bits + 2);
    }
    b := powTab[2 * level];
  }

  /** bf_integer_to_radix: the n digits of any number that has so many. */
  method ToRadix(a: nat, n: nat, radixl: Limb, est: Estimates) returns (out: array<Limb>)
    requires 1 <= n < B && radixl >= 1 && a < Power(radixl, n)
    ensures out.Length == n && fresh(out)
    ensures Digits(out[..], radixl) && FromDigits(out[..], radixl) == a
  {
    hide Pow2;
    hide Power;
    hide FromDigits;
    out := new Limb[n](_ => 0);
    var powTab := new nat[(CeilLog2(n) + 2) * 2](_ => 0);
    RootLength(n);
    ToRadixRec(powTab, out, 0, a, n, 0, n, radixl, CeilLog2(radixl), est);
    assert out[0..n] == out[..];
  }

  /** The digits found for the number that digits stand for are those digits. */
  method RoundTrip(tab: seq<Limb>, radixl: Limb, est: Estimates) returns (out: array<Limb>)
    requires 1 <= |tab| < B && radixl >= 1 && Digits(tab, radixl)
    ensures out[..] == tab
  {
    hide Power;
    hide FromDigits;
    var a := FromRadix(tab, radixl);
    DigitsBound(tab, radixl);
    out := ToRadix(a, |tab|, radixl, est);
    DigitsUnique(out[..], tab, radixl);
  }

  // ----- the digits that fit in a word -----

  const RADIX_MAX := 36

  /** digits_per_limb_table. */
  function DigitsPerLimb(radix: nat): (k: nat)
    requires 2 <= radix <= RADIX_MAX
    ensures k >= 1
  {
    if radix == 2 then 64 else if radix == 3 then 40 else if radix == 4 then 32 else if radix == 5 then 27 else
    if radix == 6 then 24 else if radix == 7 then 22 else if radix == 8 then 21 else if radix == 9 then 20 else
    if radix == 10 then 19 else if radix == 11 then 18 else if radix == 12 then 17 else
    if radix == 13 then 17 else if radix == 14 then 16 else if radix == 15 then 16 else
    if radix == 16 then 16 else if radix == 17 then 15 else if radix == 18 then 15 else
    if radix == 19 then 15 else if radix == 20 then 14 else if radix == 21 then 14 else
    if radix == 22 then 14 else if radix == 23 then 14 else if radix == 24 then 13 else
    if radix == 25 then 13 else if radix == 26 then 13 else if radix == 27 then 13 else
    if radix == 28 then 13 else if radix == 29 then 13 else if radix == 30 then 13 else
    if radix == 31 then 12 else if radix == 32 then 12 else if radix == 33 then 12 else
    if radix == 34 then 12 else if radix == 35 then 12 else 12
  }

  /** get_limb_radix. */
  method GetLimbRadix(radix: nat) returns (radixl: Limb)
    requires 2 <= radix <= RADIX_MAX
    ensures radixl == Power(radix, DigitsPerLimb(radix)) % B
  {
    var k := DigitsPerLimb(radix);
    radixl := radix;
    assert Power(radix, 1) == radix * Power(radix, 0);
    for i := 1 to k
      invariant radixl == Power(radix, i) % B
    {
      WrappedProduct(Power(radix, i), radix);
      radixl := radixl * radix % B;
    }
  }

  lemma {:induction false} WrappedProduct(p: nat, r: nat)
    ensures (p % B) * r % B == r * p % B
  {
    var q := p / B;
    DivMod(p, B);
    Distrib(q * B, p % B, r);
    Assoc(q, B, r);
    var x := (p % B) * r;
    DivMod(x, B);
    Wrapped(q * r, x / B);
    DivModUnique(p * r, B, q * r + x / B, x % B);
  }

  lemma {:induction false} Wrapped(c: int, d: int)
    ensures (c + d) * B == c * B + d * B
  {
  }

  lemma {:induction false} PowerTwice(r: nat, n: nat)
    ensures Power(r, 2 * n) == Power(r, n) * Power(r, n)
    ensures Power(r, 2 * n + 1) == Power(r, n) * Power(r, n) * r
  {
    PowerAdd(r, n, n);
    PowerAdd(r, 2 * n, 1);
    assert Power(r, 1) == r * Power(r, 0);
  }

  /** A row of the table, from the power p of half the exponent. */
  lemma {:induction false} Row(radix: nat, h: nat, p: nat, k: nat)
    requires radix >= 2 && Power(radix, h) == p && (k == 2 * h || k == 2 * h + 1)
    requires var w := if k == 2 * h + 1 then p * p * radix else p * p;
             w <= B < w * radix && (w == B <==> radix in {2, 4, 16})
    ensures LargestPower(radix, k)
  {
    PowerTwice(radix, h);
    assert Power(radix, k + 1) == radix * Power(radix, k);
  }

  /** The exponent is the largest whose power does not exceed the size of a word. */
  ghost predicate LargestPower(radix: nat, k: nat) {
    Power(radix, k) <= B < Power(radix, k + 1) && (Power(radix, k) == B <==> radix in {2, 4, 16})
  }

  lemma {:induction false} Radices2To4(radix: nat)
    requires 2 <= radix <= 4
    ensures LargestPower(radix, DigitsPerLimb(radix))
  {
    hide LargestPower;
    if radix == 2 {
      PowerTwice(2, 8);
      PowerTwice(2, 16);
      Row(2, 32, 4294967296, 64);
    } else if radix == 3 {
      PowerTwice(3, 10);
      Row(3, 20, 3486784401, 40);
    } else if radix == 4 {
      PowerTwice(4, 8);
      Row(4, 16, 4294967296, 32);
    }
  }

  lemma {:induction false} Radices5To9(radix: nat)
    requires 5 <= radix <= 9
    ensures LargestPower(radix, DigitsPerLimb(radix))
  {
    hide LargestPower;
    if radix == 5 {
      Row(5, 13, 1220703125, 27);
    } else if radix == 6 {
      Row(6, 12, 2176782336, 24);
    } else if radix == 7 {
      Row(7, 11, 1977326743, 22);
    } else if radix == 8 {
      Row(8, 10, 1073741824, 21);
    } else if radix == 9 {
      Row(9, 10, 3486784401, 20);
    }
  }

  lemma {:induction false} Radices10To15(radix: nat)
    requires 10 <= radix <= 15
    ensures LargestPower(radix, DigitsPerLimb(radix))
  {
    hide LargestPower;
    if radix == 10 {
      Row(10, 9, 1000000000, 19);
    } else if radix == 11 {
      Row(11, 9, 2357947691, 18);
    } else if radix == 12 {
      Row(12, 8, 429981696, 17);
    } else if radix == 13 {
      Row(13, 8, 815730721, 17);
    } else if radix == 14 {
      Row(14, 8, 1475789056, 16);
    } else if radix == 15 {
      Row(15, 8, 2562890625, 16);
    }
  }

  lemma {:induction false} Radices16To20(radix: nat)
    requires 16 <= radix <= 20
    ensures LargestPower(radix, DigitsPerLimb(radix))
  {
    hide LargestPower;
    if radix == 16 {
      Row(16, 8, 4294967296, 16);
    } else if radix == 17 {
      Row(17, 7, 410338673, 15);
    } else if radix == 18 {
      Row(18, 7, 612220032, 15);
    } else if radix == 19 {
      Row(19, 7, 893871739, 15);
    } else if radix == 20 {
      Row(20, 7, 1280000000, 14);
    }
  }

  lemma {:induction false} Radices21To25(radix: nat)
    requires 21 <= radix <= 25
    ensures LargestPower(radix, DigitsPerLimb(radix))
  {
    hide LargestPower;
    if radix == 21 {
      Row(21, 7, 1801088541, 14);
    } else if radix == 22 {
      Row(22, 7, 2494357888, 14);
    } else if radix == 23 {
      Row(23, 7, 3404825447, 14);
    } else if radix == 24 {
      Row(24, 6, 191102976, 13);
    } else if radix == 25 {
      Row(25, 6, 244140625, 13);
    }
  }

  lemma {:induction false} Radices26To29(radix: nat)
    requires 26 <= radix <= 29
    ensures LargestPower(radix, DigitsPerLimb(radix))
  {
    hide LargestPower;
    if radix == 26 {
      Row(26, 6, 308915776, 13);
    } else if radix == 27 {
      Row(27, 6, 387420489, 13);
    } else if radix == 28 {
      Row(28, 6, 481890304, 13);
    } else if radix == 29 {
      Row(29, 6, 594823321, 13);
    }
  }

  lemma {:induction false} Radices30To33(radix: nat)
    requires 30 <= radix <= 33
    ensures LargestPower(radix, DigitsPerLimb(radix))
  {
    hide LargestPower;
    if radix == 30 {
      Row(30, 6, 729000000, 13);
    } else if radix == 31 {
      Row(31, 6, 887503681, 12);
    } else if radix == 32 {
      Row(32, 6, 1073741824, 12);
    } else if radix == 33 {
      Row(33, 6, 1291467969, 12);
    }
  }

  lemma {:induction false} Radices34To36(radix: nat)
    requires 34 <= radix <= 36
    ensures LargestPower(radix, DigitsPerLimb(radix))
  {
    hide LargestPower;
    if radix == 34 {
      Row(34, 6, 1544804416, 12);
    } else if radix == 35 {
      Row(35, 6, 1838265625, 12);
    } else if radix == 36 {
      Row(36, 6, 2176782336, 12);
    }
  }

  /** get_limb_radix gives the largest power that fits a word, and 0 exactly for the radices 2, 4 and
      16, whose largest power is the size of the word. */
  lemma {:induction false} LimbRadix(radix: nat)
    requires 2 <= radix <= RADIX_MAX
    ensures var k := DigitsPerLimb(radix);
            Power(radix, k) <= B < Power(radix, k + 1)
    ensures Power(radix, DigitsPerLimb(radix)) % B ==
            if radix in {2, 4, 16} then 0 else Power(radix, DigitsPerLimb(radix))
  {
    hide Power;
    if radix <= 4 {
      Radices2To4(radix);
    } else if radix <= 9 {
      Radices5To9(radix);
    } else if radix <= 15 {
      Radices10To15(radix);
    } else if radix <= 20 {
      Radices16To20(radix);
    } else if radix <= 25 {
      Radices21To25(radix);
    } else if radix <= 29 {
      Radices26To29(radix);
    } else if radix <= 33 {
      Radices30To33(radix);
    } else {
      Radices34To36(radix);
    }
  }
}
