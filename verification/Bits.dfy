/** Single bits of limb arrays. */
module Bits {
  import opened Arith
  import opened Limbs
  import opened LimbMul

  lemma {:induction false} PowIsPow2(n: nat)
    ensures Pow(n) == Pow2(64 * n)
  {
    if n > 0 {
      PowIsPow2(n - 1);
      LimbIsPow2();
      Pow2Add(64, 64 * (n - 1));
      PowStep(n - 1);
    }
  }

  lemma {:induction false} Pow2Mono(j: nat, k: nat)
    requires j <= k
    ensures Pow2(j) <= Pow2(k)
  {
    Pow2Add(j, k - j);
    MulLe(1, Pow2(k - j), Pow2(j));
  }

  lemma {:induction false} Pow2Even(k: nat)
    requires k > 0
    ensures Pow2(k) == 2 * Pow2(k - 1) && Pow2(k) % 2 == 0 && Pow2(k) >= 2
  {
  }

  lemma {:induction false} WordFactors(t: nat)
    requires t <= 64
    ensures Pow2(t) * Pow2(64 - t) == B
  {
    Pow2Add(t, 64 - t);
    LimbIsPow2();
  }

  /** Cutting a number at bit t of limb i. */
  lemma {:induction false} BitSplit(s: seq<Limb>, i: nat, t: nat)
    requires i < |s| && t <= 64
    ensures Val(s) % Pow2(64 * i + t) == Val(s[..i]) + Pow(i) * (s[i] % Pow2(t))
    ensures Val(s) / Pow2(64 * i + t) == s[i] / Pow2(t) + Pow2(64 - t) * Val(s[i + 1..])
  {
    hide *;
    var x, p, c, c' := s[i], Pow(i), Pow2(t), Pow2(64 - t);
    var v, lo, hi := Val(s), Val(s[..i]), Val(s[i + 1..]);
    var pc := Pow2(64 * i + t);
    assert v == lo + p * (x + B * hi) by {
      ValSplit(s, i);
      assert s[i..] == [x] + s[i + 1..];
      ConsVal(x, s[i + 1..]);
    }
    assert lo < p by { ValBound(s[..i]); }
    assert pc == p * c by {
      PowIsPow2(i);
      Pow2Add(64 * i, t);
    }
    WordFactors(t);
    BitSplitArith(v, lo, p, x, c, c', hi, pc);
  }

  lemma {:induction false} BitSplitArith(v: int, lo: int, p: int, x: int, c: int, c': int, hi: int, pc: int)
    requires v == lo + p * (x + B * hi) && 0 <= lo < p && c >= 1 && c * c' == B && x >= 0 && pc == p * c
    ensures v % pc == lo + p * (x % c) && v / pc == x / c + c' * hi
  {
    var q, r := x / c, x % c;
    DivMod(x, c);
    Assoc(c, c', hi);
    Distrib(q, c' * hi, c);
    SplitSum(v, lo, p, x, c, r, q + c' * hi, B * hi);
    Assoc(p, c, q + c' * hi);
    MulLe(r + 1, c, p);
    Distrib(r, 1, p);
    MulNonneg(p, r);
    MulLe(1, p, c);
    DivModUnique(v, pc, q + c' * hi, lo + p * r);
  }

  lemma {:induction false} SplitSum(v: int, lo: int, p: int, x: int, c: int, r: int, y: int, h: int)
    requires v == lo + p * (x + h) && x + h == r + c * y
    ensures v == lo + p * r + p * (c * y)
  {
    Distrib(r, c * y, p);
  }

  lemma {:induction false} ParityOfSum(a: int, k: int)
    requires a >= 0
    ensures (a + 2 * k) % 2 == a % 2
  {
  }

  /** get_bit: bit pos, 0 outside the array. */
  method GetBit(tab: array<Limb>, len: nat, pos: int) returns (b: bool)
    requires len <= tab.Length
    ensures b == (pos >= 0 && Val(tab[..len]) / Pow2(pos) % 2 == 1)
  {
    hide Val;
    hide Pow;
    hide Pow2;
    ghost var s := tab[..len];
    var i := pos / 64;
    if i < 0 {
      return false;
    }
    if i >= len {
      BitPast(s, pos);
      return false;
    }
    var t := pos % 64;
    BitSplit(s, i, t);
    Pow2Even(64 - t);
    Assoc(2, Pow2(63 - t), Val(s[i + 1..]));
    DivMod(s[i], Pow2(t));
    ParityOfSum(s[i] / Pow2(t), Pow2(63 - t) * Val(s[i + 1..]));
    b := tab[i] / Pow2(t) % 2 == 1;
  }

  lemma {:induction false} BitPast(s: seq<Limb>, pos: nat)
    requires pos / 64 >= |s|
    ensures Val(s) / Pow2(pos) == 0
  {
    hide *;
    ValBound(s);
    PowIsPow2(|s|);
    Pow2Mono(64 * |s|, pos);
    DivModUnique(Val(s), Pow2(pos), 0, Val(s));
  }

  /** scan_bit_nz: is one of the bits up to bitPos set? */
  method ScanBitNz(tab: array<Limb>, len: nat, bitPos: int) returns (nz: bool)
    requires len <= tab.Length && bitPos < 64 * len
    ensures nz == (bitPos >= 0 && Val(tab[..len]) % Pow2(bitPos + 1) != 0)
  {
    hide Val;
    hide Pow;
    hide Pow2;
    ghost var s := tab[..len];
    var pos := bitPos / 64;
    if pos < 0 {
      return false;
    }
    var t := bitPos % 64;
    BitSplit(s, pos, t + 1);
    ghost var low := s[..pos];
    DivMod(s[pos], Pow2(t + 1));
    var v := tab[pos] % Pow2(t + 1);
    NonzeroSum(Val(low), Pow(pos), v);
    if v != 0 {
      return true;
    }
    ValZeroIff(low);
    var i := pos;
    while i > 0
      invariant 0 <= i <= pos
      invariant forall j :: i <= j < pos ==> low[j] == 0
    {
      i := i - 1;
      assert tab[i] == low[i];
      if tab[i] != 0 {
        return true;
      }
    }
    return false;
  }

  lemma {:induction false} NonzeroSum(lo: int, p: int, v: int)
    requires lo >= 0 && p >= 1 && v >= 0
    ensures lo + p * v == 0 <==> lo == 0 && v == 0
  {
    MulNonneg(p, v);
    if v > 0 {
      MulLe(1, v, p);
    }
  }

  // ----- the length of a number in bits -----

  function BitLen(m: nat): (k: nat)
    ensures m > 0 ==> k > 0
  {
    if m == 0 then 0 else 1 + BitLen(m / 2)
  }

  lemma {:induction false} BitLenBounds(m: nat)
    ensures m < Pow2(BitLen(m))
    ensures m > 0 ==> Pow2(BitLen(m) - 1) <= m
  {
    if m > 1 {
      BitLenBounds(m / 2);
      Pow2Even(BitLen(m));
      Pow2Even(BitLen(m) - 1);
    }
  }

  lemma {:induction false} BitLenIs(m: nat, k: nat)
    requires k > 0 && Pow2(k - 1) <= m < Pow2(k)
    ensures BitLen(m) == k
  {
    hide Pow2;
    hide BitLen;
    BitLenBounds(m);
    var n := BitLen(m);
    OnePow2(n);
    if n == 0 {
      assert false;
    }
    if n < k {
      Pow2Mono(n, k - 1);
      assert false;
    }
    if k < n {
      Pow2Mono(k, n - 1);
      assert false;
    }
  }

  lemma {:induction false} OnePow2(n: nat)
    ensures n == 0 ==> Pow2(n) == 1
  {
  }

  // ----- comparing numbers at different scales -----

  /** m * 2^x and n * 2^y are the same number. */
  ghost predicate SameValue(m: nat, x: int, n: nat, y: int) {
    if x >= y then m * Pow2(x - y) == n else m == n * Pow2(y - x)
  }

  /** Moving a power of two from the mantissa to the exponent. */
  lemma {:induction false} SameScaled(v: nat, w: int, m: nat, x: int, s: nat)
    requires SameValue(v, w, m * Pow2(s), x - s)
    ensures SameValue(v, w, m, x)
  {
    hide Pow2;
    var c := Pow2(s);
    if w >= x {
      var j := w - x;
      assert w - (x - s) == j + s;
      Pow2Add(j, s);
      Assoc(v, Pow2(j), c);
      SameFactor(v * Pow2(j), m, c);
    } else if w >= x - s {
      var j, i := w - (x - s), x - w;
      Pow2Add(j, i);
      assert j + i == s;
      Swap(m, Pow2(i), Pow2(j), c);
      SameFactor(v, m * Pow2(i), Pow2(j));
    } else {
      var j := x - s - w;
      assert x - w == s + j;
      Pow2Add(s, j);
      Assoc(m, c, Pow2(j));
    }
  }

  lemma {:induction false} Swap(m: int, a: int, b: int, c: int)
    requires b * a == c
    ensures m * c == m * a * b
  {
    Assoc(m, a, b);
  }

  lemma {:induction false} SameUp(v: nat, w: int, m: nat, x: int, s: nat)
    requires SameValue(v, w, m, x)
    ensures SameValue(v, w, m * Pow2(s), x - s)
  {
    hide Pow2;
    var c := Pow2(s);
    if w >= x {
      var j := w - x;
      assert w - (x - s) == j + s;
      Pow2Add(j, s);
      Assoc(v, Pow2(j), c);
    } else if w >= x - s {
      var j, i := w - (x - s), x - w;
      Pow2Add(j, i);
      assert j + i == s;
      Swap(m, Pow2(i), Pow2(j), c);
    } else {
      var j := x - s - w;
      assert x - w == s + j;
      Pow2Add(s, j);
      Assoc(m, c, Pow2(j));
    }
  }

  lemma {:induction false} SameFactor(a: int, b: int, c: int)
    requires c >= 1 && a * c == b * c
    ensures a == b
  {
    CancelLe(a, b, c);
    CancelLe(b, a, c);
  }
}
