/** Arithmetic on words modulo the primes of the number theoretic transform, and congruences of
    integers. */
module ModWords {
  import opened Arith
  import opened Limbs
  import opened LimbMul
  import opened FastDivision

  // ----- congruences -----

  /** a and b leave the same remainder by m. */
  ghost predicate Cong(a: int, b: int, m: int)
    requires m > 0
  {
    (a - b) % m == 0
  }

  lemma {:induction false} CongFrom(a: int, b: int, m: int, k: int)
    requires m > 0 && a == b + k * m
    ensures Cong(a, b, m)
  {
    DivModUnique(a - b, m, k, 0);
  }

  lemma {:induction false} CongBy(a: int, b: int, m: int) returns (k: int)
    requires m > 0 && Cong(a, b, m)
    ensures a == b + k * m
  {
    DivMod(a - b, m);
    k := (a - b) / m;
  }

  lemma {:induction false} CongSelf(a: int, m: int)
    requires m > 0
    ensures Cong(a, a, m)
  {
    CongFrom(a, a, m, 0);
  }

  lemma {:induction false} CongSym(a: int, b: int, m: int)
    requires m > 0 && Cong(a, b, m)
    ensures Cong(b, a, m)
  {
    hide Cong;
    var k := CongBy(a, b, m);
    TimesMinus(k, m);
    CongFrom(b, a, m, -k);
  }

  lemma {:induction false} TimesMinus(k: int, m: int)
    ensures (-k) * m == -(k * m)
  {
  }

  lemma {:induction false} CongTrans(a: int, b: int, c: int, m: int)
    requires m > 0 && Cong(a, b, m) && Cong(b, c, m)
    ensures Cong(a, c, m)
  {
    hide Cong;
    var k := CongBy(a, b, m);
    var l := CongBy(b, c, m);
    Distrib(k, l, m);
    CongFrom(a, c, m, k + l);
  }

  lemma {:induction false} CongAdd(a: int, b: int, c: int, d: int, m: int)
    requires m > 0 && Cong(a, b, m) && Cong(c, d, m)
    ensures Cong(a + c, b + d, m) && Cong(a - c, b - d, m)
  {
    hide Cong;
    var k := CongBy(a, b, m);
    var l := CongBy(c, d, m);
    Distrib(k, l, m);
    CongFrom(a + c, b + d, m, k + l);
    CongFrom(a - c, b - d, m, k - l);
  }

  lemma {:induction false} CongMul(a: int, b: int, c: int, d: int, m: int)
    requires m > 0 && Cong(a, b, m) && Cong(c, d, m)
    ensures Cong(a * c, b * d, m)
  {
    hide Cong;
    var k := CongBy(a, b, m);
    var l := CongBy(c, d, m);
    ProductOfSums(b, d, k, l, m);
    CongFrom(a * c, b * d, m, k * d + b * l + k * l * m);
  }

  lemma {:induction false} ProductOfSums(b: int, d: int, k: int, l: int, m: int)
    ensures (b + k * m) * (d + l * m) == b * d + (k * d + b * l + k * l * m) * m
  {
    var x, y := k * m, l * m;
    assert (b + x) * (d + y) == b * d + b * y + x * d + x * y by {
      Distrib(b, x, d + y);
      Distrib(d, y, b);
      Distrib(d, y, x);
    }
    assert b * y == b * l * m;
    assert x * d == k * d * m;
    assert x * y == k * l * m * m by {
      Assoc(k, m, y);
      Assoc(k, l * m, m);
      Assoc(k, l, m);
    }
    Distrib(k * d + b * l, k * l * m, m);
    Distrib(k * d, b * l, m);
  }

  /** Congruent remainders are equal. */
  lemma {:induction false} CongUnique(a: int, b: int, m: int)
    requires m > 0 && Cong(a, b, m) && 0 <= a < m && 0 <= b < m
    ensures a == b
  {
    hide Cong;
    var k := CongBy(a, b, m);
    DivModUnique(a, m, k, b);
    DivModUnique(a, m, 0, a);
  }

  lemma {:induction false} CongMod(a: int, m: int)
    requires m > 0
    ensures Cong(a % m, a, m) && 0 <= a % m < m
  {
    hide Cong;
    DivMod(a, m);
    TimesMinus(a / m, m);
    CongFrom(a % m, a, m, -(a / m));
  }

  // ----- word operations -----

  const MOD_MIN: nat := 0x2000_0000_0000_0000
  const MOD_MAX: nat := 0x4000_0000_0000_0000

  /** A modulus the word operations are made for: above 2^61 and below 2^62. */
  predicate Modulus(m: int) {
    MOD_MIN < m < MOD_MAX
  }

  /** add_mod. */
  function AddMod(a: Limb, b: Limb, m: Limb): (r: Limb)
    requires m <= HALF_B && a < m && b < m
    ensures r < m && (r == a + b || r == a + b - m)
  {
    var r: Limb := (a + b) % B;
    if r >= m then r - m else r
  }

  /** sub_mod: a difference that wrapped is larger than a. */
  function SubMod(a: Limb, b: Limb, m: Limb): (r: Limb)
    requires a < m && b < m
    ensures r < m && (r == a - b || r == a - b + m)
  {
    var r: Limb := (a - b) % B;
    if r > a then (r + m) % B else r
  }

  /** init_mul_mod_fast: the reciprocal of the modulus. */
  function InitMulModFast(m: Limb): (r: Limb)
    requires Modulus(m)
  {
    ReciprocalFits(m);
    B * MOD_MIN / m
  }

  lemma {:induction false} ReciprocalFits(m: Limb)
    requires Modulus(m)
    ensures 0 <= B * MOD_MIN / m < B
  {
    DivMod(B * MOD_MIN, m);
    var q := B * MOD_MIN / m;
    if q >= B {
      MulLe(B, q, m);
      MulLt(MOD_MIN, m, B);
      assert false;
    }
  }

  /** mod_fast: a double word by multiplication with the reciprocal, then two masked additions. */
  function ModFast(r: int, m: Limb, mInv: Limb): (s: Limb)
    requires Modulus(m) && mInv == InitMulModFast(m) && 0 <= r < B * MOD_MIN
    ensures s == r % m
  {
    HighPart(r);
    var a1: Limb := r / MOD_MIN;
    var q := HighWord(a1, mInv);
    var a := (r - q * m - m * 2) % BB;
    ModFastExact(r, m, mInv, a1, q);
    Correct(q, m, a).1
  }

  lemma {:induction false} HighPart(r: int)
    requires 0 <= r < B * MOD_MIN
    ensures 0 <= r / MOD_MIN < B && (r / MOD_MIN) * MOD_MIN <= r < (r / MOD_MIN) * MOD_MIN + MOD_MIN
  {
  }

  lemma {:induction false} ModFastExact(r: int, m: Limb, mInv: Limb, a1: Limb, q: Limb)
    requires Modulus(m) && mInv == InitMulModFast(m) && 0 <= r < B * MOD_MIN
    requires a1 == r / MOD_MIN && q == HighWord(a1, mInv)
    ensures Correctable(m, (r - q * m - m * 2) % BB)
    ensures Correct(q, m, (r - q * m - m * 2) % BB).1 == r % m
  {
    hide Correct, Correctable, HighWord, InitMulModFast;
    HighPart(r);
    HighWordIs(a1, mInv);
    DivMod(a1 * mInv, B);
    ReciprocalIs(m, mInv);
    EstimateLow(r, m, mInv, a1, q);
    EstimateHigh(r, m, mInv, a1, q);
    QuotientFits(r, m);
    Distrib(q, 2, m);
    CorrectTwice(r, q, m, r - (q + 2) * m);
  }

  lemma {:induction false} ReciprocalIs(m: Limb, mInv: Limb)
    requires Modulus(m) && mInv == InitMulModFast(m)
    ensures mInv * m <= B * MOD_MIN < mInv * m + m
  {
    DivMod(B * MOD_MIN, m);
  }

  lemma {:induction false} QuotientFits(r: int, m: int)
    requires Modulus(m) && 0 <= r < B * MOD_MIN
    ensures 0 <= r / m < B
  {
    DivMod(r, m);
    if r / m >= B {
      MulLe(B, r / m, m);
      MulLt(MOD_MIN, m, B);
      assert false;
    }
  }

  /** The estimate is no larger than the quotient. */
  lemma {:induction false} EstimateLow(r: int, m: int, mInv: int, a1: int, q: int)
    requires 0 <= a1 && 0 < m && a1 * MOD_MIN <= r && mInv * m <= B * MOD_MIN
    requires q * B <= a1 * mInv
    ensures q * m <= r
  {
    MulLe(q * B, a1 * mInv, m);
    MulLe(mInv * m, B * MOD_MIN, a1);
    Assoc(a1, mInv, m);
    Swap(q, B, m);
    assert a1 * (B * MOD_MIN) == a1 * MOD_MIN * B;
    CancelLe(q * m, a1 * MOD_MIN, B);
  }

  lemma {:induction false} Swap(a: int, b: int, c: int)
    ensures a * b * c == a * c * b
  {
    Assoc(a, b, c);
    Assoc(a, c, b);
  }

  /** The estimate is less than three below the real quotient. */
  lemma {:induction false} EstimateHigh(r: int, m: int, mInv: int, a1: int, q: int)
    requires 0 <= a1 < B && Modulus(m) && r < a1 * MOD_MIN + MOD_MIN && B * MOD_MIN < mInv * m + m
    requires a1 * mInv < q * B + B
    ensures r < q * m + 3 * m
  {
    MulLe(a1 * mInv, q * B + B, m);
    MulLe(B * MOD_MIN, mInv * m + m, a1);
    Assoc(a1, mInv, m);
    Distrib(mInv * m, m, a1);
    Distrib(q * B, B, m);
    Swap(q, B, m);
    MulLe(a1, B, m);
    assert a1 * (B * MOD_MIN) == a1 * MOD_MIN * B;
    Distrib(q * m + m, m, B);
    Distrib(q * m, m, B);
    CancelLe(a1 * MOD_MIN, q * m + 2 * m, B);
  }

  /** mul_mod_fast. */
  function MulModFast(a: Limb, b: Limb, m: Limb, mInv: Limb): (r: Limb)
    requires Modulus(m) && mInv == InitMulModFast(m) && a * b < B * MOD_MIN
    ensures r == a * b % m
  {
    MulNonneg(a, b);
    ModFast(a * b, m, mInv)
  }

  /** init_mul_mod_fast2: the multiplier b prepared for the modulus. */
  function InitMulModFast2(b: Limb, m: Limb): (r: Limb)
    requires b < m
  {
    PreparedFits(b, m);
    b * B / m
  }

  lemma {:induction false} PreparedFits(b: int, m: int)
    requires 0 <= b < m
    ensures 0 <= b * B / m < B
  {
    MulNonneg(b, B);
    DivMod(b * B, m);
    if b * B / m >= B {
      MulLe(B, b * B / m, m);
      MulLt(b, m, B);
      assert false;
    }
  }

  /** mul_mod_fast3: the product by a prepared multiplier, below twice the modulus. */
  function MulModFast3(a: Limb, b: Limb, m: Limb, bInv: Limb): (r: Limb)
    requires b < m <= MOD_MAX && bInv == InitMulModFast2(b, m)
    ensures r < 2 * m && (r == a * b % m || r == a * b % m + m)
  {
    var q := HighWord(a, bInv);
    Mul3Bounds(a, b, m, bInv, q);
    (a * b - q * m) % B
  }

  lemma {:induction false} Mul3Bounds(a: Limb, b: Limb, m: Limb, bInv: Limb, q: Limb)
    requires b < m <= MOD_MAX && bInv == InitMulModFast2(b, m) && q == HighWord(a, bInv)
    ensures 0 <= a * b - q * m < 2 * m
    ensures (a * b - q * m) % B == a * b - q * m
    ensures a * b - q * m == a * b % m || a * b - q * m == a * b % m + m
  {
    hide HighWord;
    HighWordIs(a, bInv);
    DivMod(a * bInv, B);
    DivMod(b * B, m);
    Mul3Arith(a, b, m, bInv, q);
    var r := a * b - q * m;
    SmallWord(r);
    if r < m {
      DivModUnique(a * b, m, q, r);
    } else {
      Distrib(q, 1, m);
      DivModUnique(a * b, m, q + 1, r - m);
    }
  }

  lemma {:induction false} Mul3Arith(a: int, b: int, m: int, bInv: int, q: int)
    requires 0 <= a < B && 0 < m && bInv * m <= b * B < bInv * m + m
    requires q * B <= a * bInv < q * B + B
    ensures 0 <= a * b - q * m < 2 * m
  {
    MulLe(q * B, a * bInv, m);
    MulLe(a * bInv, q * B + B, m);
    MulLe(bInv * m, b * B, a);
    MulLe(b * B, bInv * m + m, a);
    Assoc(a, bInv, m);
    Assoc(a, b, B);
    Distrib(bInv * m, m, a);
    Swap(q, B, m);
    Distrib(q * B, B, m);
    CancelLe(q * m, a * b, B);
    Mul3Upper(a, b, m, bInv, q);
  }

  lemma {:induction false} Mul3Upper(a: int, b: int, m: int, bInv: int, q: int)
    requires 0 <= a < B && 0 < m && b * B < bInv * m + m && a * bInv < q * B + B
    ensures a * b < q * m + 2 * m
  {
    MulLe(b * B, bInv * m + m, a);
    Distrib(bInv * m, m, a);
    Assoc(a, bInv, m);
    Assoc(a, b, B);
    MulLe(a * bInv, q * B + B, m);
    Distrib(q * B, B, m);
    Swap(q, B, m);
    MulLt(a, B, m);
    Distrib(q * m + m, m, B);
    Distrib(q * m, m, B);
    CancelLt(a * b, q * m + 2 * m, B);
  }

  /** mul_mod_fast2: the product by a prepared multiplier, reduced. */
  function MulModFast2(a: Limb, b: Limb, m: Limb, bInv: Limb): (r: Limb)
    requires b < m <= MOD_MAX && bInv == InitMulModFast2(b, m)
    ensures r == a * b % m
  {
    var r := MulModFast3(a, b, m, bInv);
    if r >= m then r - m else r
  }
}
