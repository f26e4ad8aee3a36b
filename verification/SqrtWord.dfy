/** Square roots of one and two limbs: the table gives 8 bits, and each step doubles them. */
module SqrtWord {
  import opened Arith
  import opened Limbs
  import opened LimbMul
  import opened SqrtTable
  import opened SqrtMath

  const QUARTER_B: nat := 0x4000_0000_0000_0000

  /** 16 -> 8 bits: the table entry for the high byte, corrected at most once. */
  function RootOf16(x: int): (r: (int, int))
    requires 0x4000 <= x < 0x1_0000
    ensures SqrtRem(x, r.0, r.1) && 128 <= r.0 < 256
  {
    TableEntries(x / 256 - 64);
    var s1 := Entry(x / 256 - 64);
    var r1 := x - s1 * s1;
    Distrib(s1, 2, s1 + 2);
    RootFits(s1, x);
    if r1 > 2 * s1 then (s1 + 1, r1 - (2 * s1 + 1)) else (s1, r1)
  }

  lemma {:induction false} RootFits(s: int, x: int)
    requires 128 <= s <= 255 && s * s <= x < 0x1_0000
    ensures (s + 2) * (s + 2) == s * s + 4 * s + 4 && (s + 1) * (s + 1) == s * s + 2 * s + 1
    ensures x - s * s > 2 * s ==> s < 255
  {
    if s == 255 {
      assert s * s == 65025;
    }
  }

  /** A wrapped remainder with its sign bit set belongs to a root that is one too large. */
  function FixRoot(s: int, t: int): (r: (int, int))
    requires -0x1_0000_0000 <= t < 0x2_0000_0000 && 0 <= s < 0x2_0000_0000
    requires t < 0 ==> 0 <= t + 2 * (s - 1) + 1
    ensures r == if t < 0 then (s - 1, t + 2 * (s - 1) + 1) else (s, t)
  {
    var r := t % B;
    if r >= HALF_B then (s - 1, (r + 2 * (s - 1) + 1) % B) else (s, r)
  }

  /** One word-sized step; nh is the number whose root s1, r1 is. */
  function WordStep(ghost nh: int, s1: int, r1: int, l: int, a1: int, a0: int): (r: (int, int))
    requires SqrtRem(nh, s1, r1) && 0 < l <= 2 * s1
    requires s1 < 0x1_0000 && l <= 0x1_0000 && 0 <= a1 < l && 0 <= a0 < l
    ensures SqrtRem(nh * (l * l) + a1 * l + a0, r.0, r.1)
  {
    var num := r1 * l + a1;
    var q, u := num / (2 * s1), num % (2 * s1);
    DivMod(num, 2 * s1);
    SqrtStep(nh, s1, r1, l, a1, a0, q, u);
    StepFits(s1, l, q, u, a0);
    FixRoot(s1 * l + q, u * l + a0 - q * q)
  }

  lemma {:induction false} StepFits(s1: int, l: int, q: int, u: int, a0: int)
    requires 0 <= q <= l <= 0x1_0000 && s1 < 0x1_0000 && 0 <= u < 2 * s1 && 0 <= a0
    requires u * l + a0 < 2 * s1 * l
    ensures -0x1_0000_0000 <= u * l + a0 - q * q < 0x2_0000_0000
    ensures 0 <= s1 * l + q < 0x1_0001_0000
  {
    MulLe(q, 0x1_0000, q);
    MulLe(q, 0x1_0000, 0x1_0000);
    MulNonneg(q, q);
    MulNonneg(u, l);
    MulLe(s1, 0x1_0000, l);
    MulLe(l, 0x1_0000, 0x1_0000);
    MulNonneg(s1, l);
    Assoc(2, s1, l);
  }

  /** (s, r) with a = s^2 + r and 0 <= r <= 2*s, for a limb with one of its two top bits set. */
  function Sqrtrem1(a: Limb): (sr: (int, int))
    requires a >= QUARTER_B
    ensures SqrtRem(a, sr.0, sr.1) && 0x8000_0000 <= sr.0 < 0x1_0000_0000
  {
    hide WordStep;
    hide RootOf16;
    SplitBytes(a);
    var x := a / 0x1_0000_0000_0000;
    var (s8, r8) := RootOf16(x);
    var (s16, r16) := WordStep(x, s8, r8, 0x100, a / 0x100_0000_0000 % 0x100, a / 0x1_0000_0000 % 0x100);
    RootRange(a / 0x1_0000_0000, s16, r16, 0x8000);
    var (s32, r32) := WordStep(a / 0x1_0000_0000, s16, r16, 0x1_0000, a / 0x1_0000 % 0x1_0000, a % 0x1_0000);
    RootRange(a, s32, r32, 0x8000_0000);
    (s32, r32)
  }

  lemma {:induction false} SplitBytes(a: Limb)
    ensures a / 0x1_0000_0000 == a / 0x1_0000_0000_0000 * 0x1_0000
                                 + a / 0x100_0000_0000 % 0x100 * 0x100 + a / 0x1_0000_0000 % 0x100
    ensures a == a / 0x1_0000_0000 * 0x1_0000_0000 + a / 0x1_0000 % 0x1_0000 * 0x1_0000 + a % 0x1_0000
  {
    var y := a / 0x1_0000_0000;
    assert a / 0x100_0000_0000 == y / 0x100;
    assert a / 0x1_0000_0000_0000 == y / 0x1_0000;
  }

  /** The root of a number between h^2 and (2h)^2 is between h and 2h. */
  lemma {:induction false} RootRange(a: int, s: int, r: int, h: int)
    requires SqrtRem(a, s, r) && 0 < h && h * h <= a < 4 * (h * h)
    ensures h <= s < 2 * h
  {
    assert (s + 1) * (s + 1) == s * s + 2 * s + 1;
    assert (2 * h) * (2 * h) == 4 * (h * h);
    if s <= h - 1 {
      MulLe(s + 1, h, s + 1);
      MulLe(s + 1, h, h);
      assert false;
    }
    if s >= 2 * h {
      MulLe(2 * h, s, s);
      MulLe(2 * h, s, 2 * h);
      assert false;
    }
  }

  /** clz(a) for a non-zero limb. */
  function Clz(a: Limb): (k: nat)
    requires a != 0
    ensures k < LIMB_BITS && HALF_B <= a * Pow2(k) < B
    decreases B - a
  {
    if a >= HALF_B then assert Pow2(0) == 1; 0
    else
      var k := Clz(2 * a);
      ClzStep(a, k);
      k + 1
  }

  lemma {:induction false} ClzStep(a: Limb, k: nat)
    requires a != 0 && 2 * a < B && k < LIMB_BITS
    requires HALF_B <= 2 * a * Pow2(k) < B
    ensures a * Pow2(k + 1) == 2 * a * Pow2(k)
    ensures k + 1 < LIMB_BITS
  {
    assert Pow2(k + 1) == 2 * Pow2(k);
    Assoc(a, 2, Pow2(k));
    Assoc(2, a, Pow2(k));
    if k == LIMB_BITS - 1 {
      LimbIsPow2();
      MulLe(1, a, Pow2(k + 1));
      assert false;
    }
  }

  /** bf_isqrt: floor(sqrt(a)), through a shift by an even amount. */
  function Isqrt(a: Limb): (s: int)
    ensures 0 <= s && s * s <= a < (s + 1) * (s + 1)
  {
    if a == 0 then 0
    else
      var k := Clz(a) / 2;
      ShiftEven(a, Clz(a), k);
      var b: Limb := a * Pow2(2 * k);
      var (s, r) := Sqrtrem1(b);
      Unshift(a, b, s, r, k);
      s / Pow2(k)
  }

  lemma {:induction false} ShiftEven(a: Limb, c: nat, k: nat)
    requires k == c / 2 && HALF_B <= a * Pow2(c) < B
    ensures QUARTER_B <= a * Pow2(2 * k) < B
  {
    if c == 2 * k + 1 {
      assert Pow2(c) == 2 * Pow2(2 * k);
      Assoc(a, 2, Pow2(2 * k));
    }
  }

  lemma {:induction false} Unshift(a: int, b: int, s: int, r: int, k: nat)
    requires b == a * Pow2(2 * k) && SqrtRem(b, s, r)
    ensures var t := s / Pow2(k); 0 <= t && t * t <= a < (t + 1) * (t + 1)
  {
    hide Pow2;
    var p := Pow2(k);
    Pow2Add(k, k);
    assert k + k == 2 * k;
    DivMod(s, p);
    var t := s / p;
    SqrtRemIsFloor(b, s, r);
    SquareScale(t, p);
    SquareScale(t + 1, p);
    MulLe(t * p, s, t * p);
    MulLe(t * p, s, s);
    MulNonneg(t, p);
    CancelLe(t * t, a, p * p);
    Distrib(t, 1, p);
    MulLe(s + 1, (t + 1) * p, s + 1);
    MulLe(s + 1, (t + 1) * p, (t + 1) * p);
    CancelLt(a, (t + 1) * (t + 1), p * p);
  }

  lemma {:induction false} SquareScale(t: int, p: int)
    ensures (t * p) * (t * p) == (t * t) * (p * p)
  {
    Assoc(t * p, t, p);
    Assoc(t, p, t);
    Assoc(t, t, p);
    Assoc(t * t, p, p);
  }

  /** The two-limb case. A quotient of 2^32 would square to a whole limb and is treated apart;
      the root then wraps to zero when it is B, and the correction takes it back to B - 1. */
  function Sqrtrem2(a0: Limb, a1: Limb): (r: (Limb, Limb, Limb))
    requires a1 >= QUARTER_B
    ensures SqrtRem(a1 * B + a0, r.0, r.1 + B * r.2) && r.2 <= 1
  {
    var (s1, r1) := Sqrtrem1(a1);
    var l := 0x1_0000_0000;
    var ah, al := a0 / l, a0 % l;
    var num := r1 * l + ah;
    var q, u := num / (2 * s1), num % (2 * s1);
    DivMod(num, 2 * s1);
    SqrtStep(a1, s1, r1, l, ah, al, q, u);
    SquareWord(q);
    SignOfRemainder(s1, q, u, al, a1 * B + a0);
    FixDouble((s1 * l + q) % B, s1 * l + q, u * l + al, q, a1 * B + a0)
  }

  /** The correction on words: s is the root modulo B, and the square of q a whole limb or a word. */
  function FixDouble(s: Limb, ghost exact: int, ul: int, q: int, ghost n: int): (r: (Limb, Limb, Limb))
    requires 0 <= q <= 0x1_0000_0000 && s == exact % B && 0 <= exact <= B
    requires -0x1_0000_0000_0000_0000 <= ul - q * q < 2 * B
    requires SqrtStepResult(n, exact, ul - q * q)
    requires exact == B ==> ul - q * q < 0
    requires ul - q * q < 0 ==> ul - q * q + 2 * (exact - 1) + 1 < 2 * B
    ensures SqrtRem(n, r.0, r.1 + B * r.2) && r.2 <= 1
  {
    SquareWord(q);
    var square := if q / 0x1_0000_0000 != 0 then B else (q * q) % B;
    FixSigned(s, exact, ul - square)
  }

  function FixSigned(s: Limb, ghost exact: int, t: int): (r: (Limb, Limb, Limb))
    requires s == exact % B && 0 <= exact <= B && -0x1_0000_0000_0000_0000 <= t < 2 * B
    requires exact == B ==> t < 0
    requires t < 0 ==> exact >= 1 && 0 <= t + 2 * (exact - 1) + 1 < 2 * B
    ensures t < 0 ==> r.0 == exact - 1 && r.1 + B * r.2 == t + 2 * (exact - 1) + 1
    ensures t >= 0 ==> r.0 == exact && r.1 + B * r.2 == t
    ensures r.2 <= 1
  {
    SmallDouble(t);
    var r := t % BB;
    if r / B >= HALF_B then
      var s': Limb := (s - 1) % B;
      assert s' == exact - 1;
      SmallDouble(r + 2 * s' + 1 - BB);
      var r' := (r + 2 * s' + 1) % BB;
      (s', r' % B, r' / B)
    else
      (s, r % B, r / B)
  }

  /** A double word holding a small signed value. */
  lemma {:induction false} SmallDouble(t: int)
    requires -0x1_0000_0000_0000_0000 <= t < 2 * B
    ensures t >= 0 ==> t % BB == t && (t + BB) % BB == t && 0 <= t / B <= 1 && t % B + B * (t / B) == t
    ensures t < 0 ==> t % BB == t + BB && (t % BB) / B >= HALF_B
  {
    if t >= 0 {
      DivModUnique(t + BB, BB, 1, t);
    }
  }

  lemma {:induction false} SquareWord(q: int)
    requires 0 <= q <= 0x1_0000_0000
    ensures (if q / 0x1_0000_0000 != 0 then B else (q * q) % B) == q * q
  {
    if q < 0x1_0000_0000 {
      MulLe(q, 0xffff_ffff, q);
      MulLe(q, 0xffff_ffff, 0xffff_ffff);
      MulNonneg(q, q);
    }
  }

  lemma {:induction false} SignOfRemainder(s1: int, q: int, u: int, a0: int, n: int)
    requires 0 <= q <= 0x1_0000_0000 && 0 <= s1 < 0x1_0000_0000 && 0 <= u && 0 <= a0
    requires u * 0x1_0000_0000 + a0 < 2 * s1 * 0x1_0000_0000
    requires SqrtStepResult(n, s1 * 0x1_0000_0000 + q, u * 0x1_0000_0000 + a0 - q * q)
    requires 0 <= n < BB
    ensures var s, r := s1 * 0x1_0000_0000 + q, u * 0x1_0000_0000 + a0 - q * q;
            && -0x1_0000_0000_0000_0000 <= r < 2 * B && 0 <= s <= B
            && (s == B ==> r < 0)
            && (r < 0 ==> r + 2 * (s - 1) + 1 < 2 * B)
  {
    var s, r := s1 * 0x1_0000_0000 + q, u * 0x1_0000_0000 + a0 - q * q;
    SquareWord(q);
    MulLe(q, 0x1_0000_0000, q);
    MulLe(q, 0x1_0000_0000, 0x1_0000_0000);
    if s == B {
      assert s * s == BB;
    }
  }
}
