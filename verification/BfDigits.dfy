/** Reading 64 bits at any bit position, and numbers as digits on a grid of limbs. */
module BfDigits {
  import opened Arith
  import opened Limbs
  import opened LimbMul
  import opened Bits

  /** The 64 bits from bit position pos up; zeros outside the number. */
  function BitsOf(v: nat, pos: int): (x: Limb)
  {
    LimbSized(v, pos);
    if pos >= 0 then v / Pow2(pos) % B else v * Pow2(-pos) % B
  }

  lemma {:induction false} LimbSized(v: nat, pos: int)
    ensures pos >= 0 ==> 0 <= v / Pow2(pos) % B < B
    ensures pos < 0 ==> 0 <= v * Pow2(-pos) % B < B
  {
  }

  /** The j-th limb of a number. */
  function Digit(n: nat, j: nat): (x: Limb)
  {
    n / Pow(j) % B
  }

  lemma {:induction false} DigitSplit(n: nat, j: nat)
    ensures n % Pow(j + 1) == n % Pow(j) + Pow(j) * Digit(n, j)
    ensures n / Pow(j) == B * (n / Pow(j + 1)) + Digit(n, j)
  {
    PowStep(j);
    hide Pow;
    var p := Pow(j);
    DivMod(n, p);
    DivMod(n / p, B);
    var q, x := n / p / B, n / p % B;
    DigitArith(n, p, n / p, n % p, q, x, B * p);
  }

  lemma {:induction false} DigitArith(n: nat, p: nat, h: nat, low: nat, q: nat, x: nat, pb: nat)
    requires n == h * p + low && low < p && h == q * B + x && x < B && pb == B * p
    ensures n % pb == low + p * x && n / pb == q
  {
    Distrib(q * B, x, p);
    Assoc(q, B, p);
    MulLe(x + 1, B, p);
    Distrib(x, 1, p);
    MulNonneg(p, x);
    DivModUnique(n, pb, q, low + p * x);
  }

  /** The limbs of a number scaled by a power of two are its bits at the shifted positions. */
  lemma {:induction false} DigitIsBits(v: nat, sh: nat, j: nat)
    ensures Digit(v * Pow2(sh), j) == BitsOf(v, 64 * j - sh)
  {
    hide Pow;
    hide Pow2;
    PowIsPow2(j);
    var p := 64 * j - sh;
    if p >= 0 {
      Pow2Add(sh, p);
      ScaleDown(v, Pow2(sh), Pow2(p), Pow2(64 * j));
    } else {
      Pow2Add(64 * j, -p);
      ScaleUp(v, Pow2(sh), Pow2(64 * j), Pow2(-p));
    }
  }

  lemma {:induction false} ScaleDown(v: nat, c: nat, d: nat, cd: nat)
    requires c >= 1 && d >= 1 && cd == c * d
    ensures v * c / cd == v / d
  {
    var q, r := v / d, v % d;
    DivMod(v, d);
    Distrib(q * d, r, c);
    Assoc(q, d, c);
    MulLt(r, d, c);
    MulNonneg(r, c);
    MulLe(1, c, d);
    DivModUnique(v * c, cd, q, r * c);
  }

  lemma {:induction false} ScaleUp(v: nat, cd: nat, c: nat, d: nat)
    requires c >= 1 && d >= 1 && cd == c * d
    ensures v * cd / c == v * d
  {
    Assoc(v, d, c);
    MulNonneg(v, d);
    DivModUnique(v * cd, c, v * d, 0);
  }

  /** get_limbz */
  method GetLimbz(tab: array<Limb>, idx: int) returns (v: Limb)
    ensures v == BitsOf(Val(tab[..]), 64 * idx)
  {
    hide Val;
    hide Pow;
    hide Pow2;
    ghost var s := tab[..];
    if idx < 0 || idx >= tab.Length {
      BitsOutside(s, 64 * idx);
      v := 0;
    } else {
      BitsAligned(s, idx);
      v := tab[idx];
    }
  }

  lemma {:induction false} BitsOutside(s: seq<Limb>, pos: int)
    requires pos <= -64 || pos >= 64 * |s|
    ensures BitsOf(Val(s), pos) == 0
  {
    hide Val;
    hide Pow;
    hide Pow2;
    if pos >= 0 {
      BitPast(s, pos);
    } else {
      Pow2Add(64, -pos - 64);
      LimbIsPow2();
      Assoc(Val(s), B, Pow2(-pos - 64));
      MulNonneg(Val(s), Pow2(-pos - 64));
      DivModUnique(Val(s) * Pow2(-pos), B, Val(s) * Pow2(-pos - 64), 0);
    }
  }

  lemma {:induction false} BitsAligned(s: seq<Limb>, i: nat)
    requires i < |s|
    ensures BitsOf(Val(s), 64 * i) == s[i]
  {
    hide Val;
    hide Pow;
    BitSplit(s, i, 0);
    LimbIsPow2();
    PowTwoZero();
    hide Pow2;
    DivModUnique(s[i] as int + B * Val(s[i + 1..]), B, Val(s[i + 1..]), s[i]);
  }

  lemma {:induction false} PowTwoZero()
    ensures Pow2(0) == 1
  {
  }

  lemma {:induction false} WholeSlice(a: array<Limb>)
    ensures a[0..a.Length] == a[..]
  {
  }

  /** get_bits, of the len limbs from o on. */
  method GetBits(tab: array<Limb>, o: nat, len: nat, pos: int) returns (v: Limb)
    requires o + len <= tab.Length
    ensures v == BitsOf(Val(tab[o..o + len]), pos)
  {
    hide Val;
    hide Pow;
    hide Pow2;
    hide BitsOf;
    hide ShrWord;
    ghost var s := tab[o..o + len];
    var i, p := pos / 64, pos % 64;
    var a0: Limb := if 0 <= i < len then tab[o + i] else 0;
    if p == 0 {
      if 0 <= i < len {
        BitsAligned(s, i);
      } else {
        BitsOutside(s, pos);
      }
      return a0;
    }
    i := i + 1;
    var a1: Limb := if 0 <= i < len then tab[o + i] else 0;
    v := ShrWord(a1, a0, p);
    BitsAcross(s, pos, p, a0, a1);
  }

  /** Bits that straddle two limbs. */
  lemma {:induction false} BitsAcross(s: seq<Limb>, pos: int, p: nat, a0: Limb, a1: Limb)
    requires p == pos % 64 && p > 0
    requires var i := pos / 64;
             && a0 == (if 0 <= i < |s| then s[i] else 0) && a1 == (if 0 <= i + 1 < |s| then s[i + 1] else 0)
    ensures BitsOf(Val(s), pos) == ShrWord(a1, a0, p)
  {
    hide Val;
    hide Pow;
    hide Pow2;
    var i := pos / 64;
    var c, d := Pow2(p), Pow2(64 - p);
    WordFactors(p);
    DivMod(a0, c);
    DivMod(a1, c);
    TwoFields(a1, a0, p);
    if i >= |s| || i < -1 {
      BitsOutside(s, pos);
      ZeroFields(c, d);
    } else if i >= 0 {
      BitSplit(s, i, p);
      var rest := s[i + 1..];
      TailParts(rest, a1);
      var h := if |rest| == 0 then 0 else Val(rest[1..]);
      AcrossArith(Val(s) / Pow2(pos), a0, a1, c, d, h, a1 / c, a1 % c);
    } else {
      TailParts(s, a1);
      var h := if |s| == 0 then 0 else Val(s[1..]);
      assert -pos == 64 - p;
      ZeroFields(c, d);
      BelowArith(Val(s), a1, c, d, h, a1 / c, a1 % c);
    }
  }

  lemma {:induction false} TwoFields(hi: Limb, lo: Limb, p: nat)
    requires 1 <= p < 64
    ensures ShrWord(hi, lo, p) as int == lo / Pow2(p) + (hi % Pow2(p)) * Pow2(64 - p)
  {
  }

  lemma {:induction false} ZeroFields(c: nat, d: nat)
    requires c >= 1
    ensures 0 / c == 0 && 0 % c == 0 && 0 * d == 0
  {
  }

  lemma {:induction false} TailParts(t: seq<Limb>, a: Limb)
    requires a == if |t| > 0 then t[0] else 0
    ensures Val(t) == a + B * (if |t| == 0 then 0 else Val(t[1..]))
  {
  }

  lemma {:induction false} AcrossArith(v: int, a0: Limb, a1: Limb, c: nat, d: nat, h: nat, q: int, r: int)
    requires c >= 1 && d >= 1 && c * d == B && v == a0 / c + d * (a1 + B * h)
    requires a1 == q * c + r && 0 <= r < c && 0 <= a0 / c + r * d < B && q == a1 / c
    ensures v % B == a0 / c + r * d
  {
    Distrib(q * c + r, B * h, d);
    Distrib(q * c, r, d);
    Assoc(q, c, d);
    Assoc(d, B, h);
    Distrib(q, d * h, B);
    DivModUnique(v, B, q + d * h, a0 / c + r * d);
  }

  lemma {:induction false} BelowArith(v: int, a1: Limb, c: nat, d: nat, h: nat, q: int, r: int)
    requires c >= 1 && d >= 1 && c * d == B && v == a1 + B * h && 0 <= v
    requires a1 == q * c + r && 0 <= r < c && 0 <= r * d < B
    ensures v * d % B == r * d
  {
    Distrib(q * c + r, B * h, d);
    Distrib(q * c, r, d);
    Assoc(q, c, d);
    Assoc(B, h, d);
    Distrib(q, h * d, B);
    DivModUnique(v * d, B, q + h * d, r * d);
  }
}
