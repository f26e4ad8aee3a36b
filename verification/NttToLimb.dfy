/** From sums of products modulo several primes back to limbs: every sum is rebuilt, added to the carry
    and cut into one digit of the result and the next carry. */
module NttToLimb {
  import opened Arith
  import opened Limbs
  import opened LimbMul
  import opened LimbOps
  import opened Bits
  import opened FastDivision
  import opened ModWords
  import opened NttTables
  import opened NttInit
  import opened NttStage
  import opened NttTransform
  import opened NttColumns
  import opened FftSize
  import opened LimbToNtt
  import opened MixedRadix

  // ----- writing bits -----

  /** A number below 2^pos has no bits from limb pos / 64 on but the low pos % 64 of that limb. */
  lemma {:induction false} ClearAbove(s: seq<Limb>, pos: nat, i: nat, p: nat)
    requires i == pos / 64 && p == pos % 64 && i < |s| && Val(s) < Pow2(pos)
    ensures s[i] < Pow2(p) && Val(s[i + 1..]) == 0
    ensures Val(s) == Val(s[..i]) + Pow(i) * s[i]
  {
    hide Val, Pow, Pow2;
    BitSplit(s, i, p);
    assert 64 * i + p == pos;
    DivModUnique(Val(s), Pow2(pos), 0, Val(s));
    NoHigh(s[i], Pow2(p), Pow2(64 - p), Val(s[i + 1..]));
    ValSplit(s, i);
    assert s[i..] == [s[i]] + s[i + 1..];
    ConsVal(s[i], s[i + 1..]);
  }

  lemma {:induction false} NoHigh(x: nat, c: nat, d: nat, h: nat)
    requires c >= 1 && d >= 1 && x / c + d * h == 0
    ensures x < c && h == 0
  {
    DivMod(x, c);
    MulNonneg(d, h);
    if h > 0 {
      MulLe(1, h, d);
      assert false;
    }
  }

  /** A word above a number of p bits, shifted by p, does not overlap it. */
  lemma {:induction false} Apart(x: Limb, v: Limb, p: nat)
    requires p < 64 && x < Pow2(p)
    ensures x + v * Pow2(p) % B < B
    ensures v * Pow2(p) == v * Pow2(p) % B + B * (if p == 0 then 0 else v / Pow2(64 - p))
    ensures 0 <= v / Pow2(64 - p) < B
  {
    hide Pow2;
    var c, d := Pow2(p), Pow2(64 - p);
    WordFactors(p);
    OnePow2(p);
    DivMod(v, d);
    ShiftedBound(v, d);
    ApartArith(x, v, c, d, v / d, v % d);
    if p == 0 {
      SmallWord(v);
    }
  }

  lemma {:induction false} ApartArith(x: int, v: int, c: int, d: int, q: int, r: int)
    requires c >= 1 && d >= 1 && c * d == B && v == q * d + r && 0 <= r < d && 0 <= x < c
    ensures v * c % B == r * c && v * c == r * c + B * q && x + r * c < B
  {
    Distrib(q * d, r, c);
    Assoc(q, d, c);
    assert d * c == B;
    MulLe(r + 1, d, c);
    Distrib(r, 1, c);
    MulNonneg(r, c);
    DivModUnique(v * c, B, q, r * c);
  }

  /** put_bits at limb i, when the limb after it is outside. */
  lemma {:induction false} PutLast(s: seq<Limb>, i: nat, x: Limb, a: Limb, b: Limb, w: int)
    requires i + 1 == |s| && Val(s) == Val(s[..i]) + Pow(i) * s[i] && s[i] + a == x && w == a + B * b
    ensures Val(s[i := x]) == (Val(s) + Pow(i) * w) % Pow(|s|)
  {
    hide *;
    var t := s[i := x];
    assert t == s[..i] + [x];
    ValSnoc(s[..i], x);
    PowStep(i);
    PutArith(Pow(i), s[i], a, b, w);
    ValBound(t);
    DivModUnique(Val(s) + Pow(i) * w, Pow(|s|), b, Val(t));
  }

  lemma {:induction false} PutArith(p: int, y: int, a: int, b: int, w: int)
    requires w == a + B * b
    ensures p * y + p * w == p * (y + a) + b * (B * p)
  {
    Distrib(a, B * b, p);
    Distrib(y, a, p);
    assert p * (B * b) == b * (B * p);
  }

  /** put_bits across limbs i and i + 1. */
  lemma {:induction false} PutBoth(s: seq<Limb>, i: nat, x: Limb, a: Limb, b: Limb, w: int)
    requires i + 1 < |s| && Val(s) == Val(s[..i]) + Pow(i) * s[i] && Val(s[i + 1..]) == 0 && s[i] + a == x
    requires w == a + B * b
    ensures s[i + 1] == 0
    ensures Val(TwoWords(s, i, x, b)) == (Val(s) + Pow(i) * w) % Pow(|s|)
  {
    hide *;
    ValZeroIff(s[i + 1..]);
    assert s[i + 1..][0] == 0;
    var t := TwoWords(s, i, x, b);
    var rest := s[i + 2..];
    assert t == s[..i] + ([x, b] + rest) by {
      TwoWordsParts(s, i, x, b);
    }
    assert s[i + 1..] == [0] + rest;
    ConsVal(0, rest);
    ValAppend(s[..i], [x, b] + rest);
    assert [x, b] + rest == [x] + ([b] + rest);
    ConsVal(x, [b] + rest);
    ConsVal(b, rest);
    PutArith(Pow(i), s[i], a, b, w);
    Distrib(x, B * b, Pow(i));
    assert Pow(i) * (B * b) == b * (B * Pow(i));
    ValBound(t);
    assert |t| == |s| by {
      TwoWordsParts(s, i, x, b);
    }
    DivModUnique(Val(t), Pow(|s|), 0, Val(t));
  }

  ghost function TwoWords(s: seq<Limb>, i: nat, x: Limb, y: Limb): seq<Limb>
    requires i + 1 < |s|
  {
    var t: seq<Limb> := s[i := x];
    t[i + 1 := y]
  }

  lemma {:induction false} TwoWordsParts(s: seq<Limb>, i: nat, x: Limb, y: Limb)
    requires i + 1 < |s|
    ensures |TwoWords(s, i, x, y)| == |s|
    ensures TwoWords(s, i, x, y) == s[..i] + ([x, y] + s[i + 2..])
  {
  }

  /** put_bits, into the len limbs from o on, all clear from bit pos on: the fields do not overlap, so
      "or" is a sum. */
  method PutBits(tab: array<Limb>, o: nat, len: nat, pos: nat, val: Limb)
    requires o + len <= tab.Length && Val(tab[o..o + len]) < Pow2(pos)
    modifies tab
    ensures SameOutside(old(tab[..]), tab[..], o, o + len)
    ensures Val(tab[o..o + len]) == (old(Val(tab[o..o + len])) + val * Pow2(pos)) % Pow(len)
  {
    hide Val, Pow, Pow2, SameOutside;
    ghost var s, before := tab[o..o + len], tab[..];
    StoreNothing(before, o, o + len);
    var i, p := pos / 64, pos % 64;
    if i >= len {
      PutPast(s, pos, val);
      return;
    }
    ClearAbove(s, pos, i, p);
    Apart(s[i], val, p);
    WordShift(pos, i, p, val);
    var a: Limb := val * Pow2(p) % B;
    var b: Limb := if p == 0 then 0 else val / Pow2(64 - p);
    var x: Limb := tab[o + i] + a;
    tab[o + i] := x;
    SliceStore(before, o, len, i, x);
    assert tab[..] == before[o + i := x];
    SliceOf(tab, o, len);
    if i + 1 >= len {
      PutLast(s, i, x, a, b, val * Pow2(p));
      return;
    }
    PutBoth(s, i, x, a, b, val * Pow2(p));
    ghost var mid := tab[..];
    if p != 0 {
      tab[o + i + 1] := tab[o + i + 1] + b;
      SliceStore(mid, o, len, i + 1, b);
      assert tab[..] == mid[o + (i + 1) := b];
      SliceOf(tab, o, len);
      SameChain(before, mid, tab[..], o, o + len, o, o + len, o, o + len);
    }
    assert tab[o..o + len] == TwoWords(s, i, x, b);
  }

  lemma {:induction false} WordShift(pos: nat, i: nat, p: nat, v: nat)
    requires pos == 64 * i + p
    ensures v * Pow2(pos) == Pow(i) * (v * Pow2(p))
  {
    hide Pow2;
    PowIsPow2(i);
    Pow2Add(64 * i, p);
    assert v * (Pow(i) * Pow2(p)) == Pow(i) * (v * Pow2(p));
  }

  /** Bits past the end are dropped. */
  lemma {:induction false} PutPast(s: seq<Limb>, pos: nat, v: nat)
    requires pos / 64 >= |s|
    ensures (Val(s) + v * Pow2(pos)) % Pow(|s|) == Val(s)
  {
    hide Val, Pow, Pow2;
    PowIsPow2(|s|);
    Pow2Add(64 * |s|, pos - 64 * |s|);
    var n, k := Pow(|s|), v * Pow2(pos - 64 * |s|);
    assert v * Pow2(pos) == k * n by {
      assert v * (n * Pow2(pos - 64 * |s|)) == v * Pow2(pos - 64 * |s|) * n;
    }
    ValBound(s);
    DivModUnique(Val(s) + k * n, n, k, Val(s));
  }

  // ----- one digit -----

  lemma {:induction false} ModAdd(x: int, y: int, n: int)
    requires n > 0
    ensures (x % n + y) % n == (x + y) % n
  {
    var q, r := x / n, x % n;
    DivMod(x, n);
    DivMod(r + y, n);
    var k, t := (r + y) / n, (r + y) % n;
    Distrib(q, k, n);
    DivModUnique(x + y, n, q + k, t);
  }

  /** Another word above a number that was cut to n limbs. */
  lemma {:induction false} NextPut(old_: nat, sum: nat, u: Limb, pos: nat, j: nat, n: nat)
    requires sum < Pow(j) && old_ < Pow2(pos)
    ensures (old_ + sum * Pow2(pos)) % Pow(n) < Pow2(pos + 64 * j)
    ensures ((old_ + sum * Pow2(pos)) % Pow(n) + u * Pow2(pos + 64 * j)) % Pow(n) ==
            (old_ + (sum + Pow(j) * u) * Pow2(pos)) % Pow(n)
  {
    hide Pow, Pow2;
    var c, p := Pow2(pos), Pow(j);
    PowIsPow2(j);
    Pow2Add(pos, 64 * j);
    var x := old_ + sum * c;
    MulLe(sum + 1, p, c);
    Distrib(sum, 1, c);
    MulNonneg(sum, c);
    LowAtMost(x, Pow(n));
    assert Pow2(pos + 64 * j) == c * p && p * c == c * p;
    ModAdd(x, u * (c * p), Pow(n));
    assert u * (c * p) == p * u * c by {
      Assoc(u, c, p);
      Assoc(p, u, c);
      assert u * c == c * u && p * (u * c) == u * c * p;
    }
    Distrib(sum, p * u, c);
  }

  /** sum was added at bit pos to a number that was; the rest is cut off. */
  ghost predicate Written(t: seq<Limb>, was: nat, sum: nat, pos: nat) {
    Val(t) == (was + sum * Pow2(pos)) % Pow(|t|)
  }

  /** One more word of the digit. */
  method PutWord(tab: array<Limb>, o: nat, len: nat, pos: nat, j: nat, v: Limb, ghost was: nat, ghost sum: nat,
                 ghost before: seq<Limb>)
    requires o + len <= tab.Length && SameOutside(before, tab[..], o, o + len)
    requires Written(tab[o..o + len], was, sum, pos) && sum < Pow(j) && was < Pow2(pos)
    modifies tab
    ensures SameOutside(before, tab[..], o, o + len)
    ensures Written(tab[o..o + len], was, sum + Pow(j) * v, pos)
  {
    hide Val, Pow, Pow2, SameOutside;
    NextPut(was, sum, v, pos, j, len);
    ghost var mid := tab[..];
    PutBits(tab, o, len, pos + 64 * j, v);
    SameChain(before, mid, tab[..], o, o + len, o, o + len, o, o + len);
  }

  /** The low dpl bits of u, at bit pos of the result. */
  method PutDigit(tab: array<Limb>, o: nat, len: nat, pos: nat, u: array<Limb>, nb: nat, dpl: nat)
    requires tab != u && o + len <= tab.Length && nb <= u.Length && 1 <= dpl <= 64 * nb
    requires Val(tab[o..o + len]) < Pow2(pos)
    modifies tab
    ensures SameOutside(old(tab[..]), tab[..], o, o + len)
    ensures Written(tab[o..o + len], old(Val(tab[o..o + len])), Val(u[..nb]) % Pow2(dpl), pos)
  {
    hide Val, Pow, Pow2, SameOutside, LowBits, Written;
    ghost var s, before, was := u[..nb], tab[..], Val(tab[o..o + len]);
    var shift, nLimb1 := dpl % LIMB_BITS, (dpl - 1) / LIMB_BITS;
    StoreNothing(before, o, o + len);
    PutStart(s, was, pos, tab[o..o + len]);
    DigitParts(s, dpl, nLimb1, shift);
    for j := 0 to nLimb1
      invariant SameOutside(before, tab[..], o, o + len)
      invariant Written(tab[o..o + len], was, Val(s[..j]), pos)
    {
      ValBound(s[..j]);
      Extend(s, j);
      PutWord(tab, o, len, pos, j, u[j], was, Val(s[..j]), before);
    }
    ValBound(s[..nLimb1]);
    PutWord(tab, o, len, pos, nLimb1, LowBits(u[nLimb1], shift), was, Val(s[..nLimb1]), before);
  }

  lemma {:induction false} PutStart(s: seq<Limb>, was: nat, pos: nat, t: seq<Limb>)
    requires was == Val(t)
    ensures Written(t, was, Val(s[..0]), pos)
  {
    hide Pow;
    ValBound(t);
    assert s[..0] == [];
    assert Val(s[..0]) == 0;
    DivModUnique(Val(t), Pow(|t|), 0, Val(t));
  }

  /** The low dpl bits of a number: whole limbs and a part of the next. */
  lemma {:induction false} DigitParts(s: seq<Limb>, dpl: nat, n: nat, shift: nat)
    requires 1 <= dpl <= 64 * |s| && n == (dpl - 1) / 64 && shift == dpl % 64
    ensures n < |s| && Val(s) % Pow2(dpl) == Val(s[..n]) + Pow(n) * LowBits(s[n], shift)
    ensures shift == 0 ==> Val(s) / Pow2(dpl) == Val(s[n + 1..])
    ensures shift > 0 ==> Val(s) / Pow2(dpl) == Val(s[n..]) / Pow2(shift)
  {
    SizeParts(dpl, n, shift);
    hide *;
    if shift == 0 {
      WholeParts(s, n);
      WholeWord(s[n], shift);
    } else {
      MixedParts(s, n, shift);
      PartWord(s[n], shift);
    }
  }

  lemma {:induction false} SizeParts(dpl: nat, n: nat, shift: nat)
    requires 1 <= dpl && n == (dpl - 1) / 64 && shift == dpl % 64
    ensures dpl == if shift == 0 then 64 * (n + 1) else 64 * n + shift
  {
  }

  lemma {:induction false} WholeWord(x: Limb, shift: nat)
    requires shift == 0
    ensures LowBits(x, shift) == x
  {
  }

  lemma {:induction false} PartWord(x: Limb, shift: nat)
    requires 0 < shift < 64
    ensures LowBits(x, shift) == x % Pow2(shift)
  {
  }

  lemma {:induction false} WholeParts(s: seq<Limb>, n: nat)
    requires n < |s|
    ensures Val(s) % Pow2(64 * (n + 1)) == Val(s[..n]) + Pow(n) * s[n]
    ensures Val(s) / Pow2(64 * (n + 1)) == Val(s[n + 1..])
  {
    hide Val, Pow, Pow2;
    BitSplit(s, n, 64);
    LimbIsPow2();
    OnePow2(64 - 64);
    SmallWord(s[n]);
    DivModUnique(s[n], B, 0, s[n]);
    assert 64 * n + 64 == 64 * (n + 1);
  }

  lemma {:induction false} MixedParts(s: seq<Limb>, n: nat, shift: nat)
    requires n < |s| && 0 < shift < 64
    ensures Val(s) % Pow2(64 * n + shift) == Val(s[..n]) + Pow(n) * (s[n] % Pow2(shift))
    ensures Val(s) / Pow2(64 * n + shift) == Val(s[n..]) / Pow2(shift)
  {
    hide Val, Pow, Pow2;
    BitSplit(s, n, shift);
    var t := s[n..];
    BitSplit(t, 0, shift);
    assert t[0] == s[n] && t[1..] == s[n + 1..];
    assert 64 * 0 + shift == shift;
  }

  /** What is above the digit becomes the next carry; the words of the carry not written stay zero. */
  method NextCarry(carry: array<Limb>, u: array<Limb>, nb: nat, dpl: nat)
    requires carry != u && nb <= u.Length && nb <= carry.Length && 1 <= dpl <= 64 * nb
    requires forall k :: nb - dpl / LIMB_BITS <= k < nb ==> carry[k] == 0
    modifies carry
    ensures forall k :: nb - dpl / LIMB_BITS <= k < nb ==> carry[k] == 0
    ensures Val(carry[..nb]) == Val(u[..nb]) / Pow2(dpl)
  {
    hide Val, Pow, Pow2, LowBits;
    ghost var s := u[..nb];
    var shift, nLimb1 := dpl % LIMB_BITS, (dpl - 1) / LIMB_BITS;
    DigitParts(s, dpl, nLimb1, shift);
    if shift == 0 {
      for j := nLimb1 + 1 to nb
        invariant forall k :: 0 <= k < j - (nLimb1 + 1) ==> carry[k] == u[nLimb1 + 1 + k]
        invariant forall k :: nb - dpl / LIMB_BITS <= k < nb ==> carry[k] == 0
      {
        carry[j - (nLimb1 + 1)] := u[j];
      }
      assert carry[..nb][..nb - (nLimb1 + 1)] == s[nLimb1 + 1..];
      ZeroTop(carry[..nb], nb - (nLimb1 + 1));
    } else {
      ghost var high := carry[nb - nLimb1..nb];
      var rem := MpShr(carry, 0, u, nLimb1, nb - nLimb1, shift, 0);
      assert u[nLimb1..nLimb1 + (nb - nLimb1)] == s[nLimb1..];
      assert carry[0..0 + (nb - nLimb1)] == carry[..nb][..nb - nLimb1];
      ZeroRem(shift);
      DivModUnique(Val(s[nLimb1..]), Pow2(shift), Val(carry[..nb][..nb - nLimb1]), rem);
      ZeroTop(carry[..nb], nb - nLimb1);
    }
  }

  lemma {:induction false} ZeroRem(shift: nat)
    ensures 0 % Pow2(shift) == 0
  {
    DivModUnique(0, Pow2(shift), 0, 0);
  }

  lemma {:induction false} ZeroTop(s: seq<Limb>, n: nat)
    requires n <= |s| && forall k :: n <= k < |s| ==> s[k] == 0
    ensures Val(s) == Val(s[..n])
  {
    hide Val, Pow;
    ValSplit(s, n);
    ValZeros(s[n..]);
    assert Pow(n) * 0 == 0;
  }

  // ----- all digits -----

  /** The sum of the first i numbers, number q times 2^(q*dpl). */
  ghost function SumTo(vs: seq<nat>, dpl: nat, i: nat): (v: nat)
    requires i <= |vs|
  {
    if i == 0 then 0 else
    MulNonneg(i - 1, dpl);
    MulNonneg(vs[i - 1], Pow2((i - 1) * dpl));
    SumTo(vs, dpl, i - 1) + vs[i - 1] * Pow2((i - 1) * dpl)
  }

  /** The digits written below position i*dpl and the carry above it are the sum so far. */
  ghost predicate Progress(vs: seq<nat>, dpl: nat, i: nat, pos: nat, w: nat, c: nat) {
    i <= |vs| && pos == i * dpl && w < Pow2(pos) && SumTo(vs, dpl, i) == w + c * Pow2(pos)
  }

  lemma {:induction false} ProgressStart(vs: seq<nat>, dpl: nat)
    ensures Progress(vs, dpl, 0, 0, 0, 0)
  {
  }

  /** One number added to the carry, one digit written. */
  lemma {:induction false} ProgressStep(vs: seq<nat>, dpl: nat, i: nat, pos: nat, w: nat, c: nat, t: nat, w': nat,
                                        c': nat)
    requires i < |vs| && Progress(vs, dpl, i, pos, w, c) && t == vs[i] + c
    requires w' == w + t % Pow2(dpl) * Pow2(pos) && c' == t / Pow2(dpl)
    ensures Progress(vs, dpl, i + 1, pos + dpl, w', c')
  {
    hide Pow2;
    MulNonneg(i, dpl);
    Distrib(i, 1, dpl);
    Pow2Add(pos, dpl);
    var p, q := Pow2(pos), Pow2(dpl);
    DivMod(t, q);
    DigitSum(w, c, vs[i], p, q, t / q, t % q);
    assert SumTo(vs, dpl, i + 1) == SumTo(vs, dpl, i) + vs[i] * p;
  }

  lemma {:induction false} DigitSum(w: int, c: int, v: int, p: int, q: int, h: int, d: int)
    requires 0 <= w < p && v + c == h * q + d && 0 <= d < q
    ensures w + c * p + v * p == w + d * p + h * (p * q)
    ensures 0 <= w + d * p < p * q
  {
    Distrib(c, v, p);
    Distrib(h * q, d, p);
    assert h * q * p == h * (p * q) by {
      Assoc(h, q, p);
      assert q * p == p * q;
    }
    MulLe(d + 1, q, p);
    Distrib(d, 1, p);
    MulNonneg(d, p);
  }

  /** A cut sum stays a cut sum. */
  lemma {:induction false} CutStep(t0: seq<Limb>, t: seq<Limb>, w: nat, d: nat, pos: nat)
    requires Val(t0) == w % Pow(|t0|) && |t| == |t0| && Written(t, Val(t0), d, pos)
    ensures Val(t) == (w + d * Pow2(pos)) % Pow(|t|)
  {
    hide Val, Pow, Pow2;
    ModAdd(w, d * Pow2(pos), Pow(|t|));
  }

  /** The carry stays below the product of the moduli. */
  lemma {:induction false} CarryBound(v: nat, c: nat, p: nat, q: nat)
    requires v < p && c < p && q >= 2
    ensures 0 <= (v + c) / q < p
  {
    DivMod(v + c, q);
    var h := (v + c) / q;
    if h >= p {
      MulLe(p, h, q);
      MulLe(2, q, p);
      assert false;
    }
  }

  lemma {:induction false} ProductFits(ms: seq<Limb>)
    requires forall j :: 0 <= j < |ms| ==> Modulus(ms[j])
    ensures Product(ms) <= Pow(|ms|) && Product(ms) >= 1
    ensures |ms| > 0 ==> 2 * Product(ms) <= Pow(|ms|)
  {
    if |ms| > 0 {
      ProductFits(ms[1..]);
      var p, q, m := Product(ms[1..]), Pow(|ms| - 1), ms[0];
      MulLe(p, q, m);
      MulLe(1, p, m);
      MulLe(2 * m, B, q);
      Assoc(2, m, q);
    }
  }

  // ----- the conversion -----

  /** The word for number i and modulus j stands for v, modulo that prime. */
  ghost predicate SumAt(buf: seq<Limb>, v: nat, fftLen: nat, first: nat, i: nat, j: nat)
    requires first + j < NB_MODS
  {
    var m := NTT_MODS[first + j];
    m > 0 && Cell(buf, fftLen, j, i) < 2 * m && Cong(Cell(buf, fftLen, j, i), v, m)
  }

  /** The buffer holds the numbers vs modulo each of the last moduli, and they are below the product. */
  ghost predicate Sums(buf: seq<Limb>, vs: seq<nat>, fftLen: nat, first: nat)
    requires first <= NB_MODS
  {
    && |vs| == fftLen && |buf| == (NB_MODS - first) * fftLen
    && (forall i :: 0 <= i < fftLen ==> vs[i] < Product(Mods(first)))
    && forall i, j :: 0 <= i < fftLen && 0 <= j < NB_MODS - first ==> SumAt(buf, vs[i], fftLen, first, i, j)
  }

  /** ntt_limb_to_int. */
  function Reduce(a: Limb, m: Limb): (r: Limb)
    requires a < 2 * m
    ensures r < m && (r == a || r == a - m)
  {
    if a >= m then a - m else a
  }

  lemma {:induction false} ReducedSum(a: Limb, v: nat, m: Limb)
    requires 0 < m && a < 2 * m && Cong(a, v, m)
    ensures Reduce(a, m) == v % m
  {
    hide Cong;
    var r := Reduce(a, m);
    CongFrom(r, a, m, if r == a then 0 else -1);
    CongMod(v, m);
    CongTrans(r, a, v, m);
    CongSym(v % m, v, m);
    CongTrans(r, v, v % m, m);
    CongUnique(r, v % m, m);
  }

  /** The residues of number i. */
  method ReadResidues(buf: array<Limb>, i: nat, fftLen: nat, first: nat, ghost v: nat) returns (y: seq<Limb>)
    requires first <= 2 && i < fftLen && buf.Length == (NB_MODS - first) * fftLen
    requires forall j :: 0 <= j < NB_MODS - first ==> SumAt(buf[..], v, fftLen, first, i, j)
    ensures |y| == |Mods(first)| == NB_MODS - first && Moduli(Mods(first))
    ensures forall j :: 0 <= j < |y| ==> y[j] == v % Mods(first)[j]
  {
    ModsOf(first);
    hide Cong, Cell, Mods, Modulus;
    y := [];
    for j := 0 to NB_MODS - first
      invariant |y| == j
      invariant forall k :: 0 <= k < j ==> y[k] == v % Mods(first)[k]
    {
      assert SumAt(buf[..], v, fftLen, first, i, j);
      CellIs(buf[..], fftLen, NB_MODS - first, j, i);
      ReducedSum(buf[i + fftLen * j], v, NTT_MODS[first + j]);
      y := y + [Reduce(buf[i + fftLen * j], NTT_MODS[first + j])];
    }
  }

  /** What is kept from number to number: the digits written, the carry, its clear words. */
  ghost predicate Kept(t: seq<Limb>, carry: seq<Limb>, vs: seq<nat>, dpl: nat, first: nat, i: nat, pos: nat, w: nat)
    requires first <= 2 && dpl >= 1
  {
    var nb := NB_MODS - first;
    && i <= |vs| && |carry| == NB_MODS && Progress(vs, dpl, i, pos, w, Val(carry[..nb]))
    && Val(t) == w % Pow(|t|) && Val(carry[..nb]) < Product(Mods(first))
    && forall k :: 0 <= k && nb - dpl / LIMB_BITS <= k < nb ==> carry[k] == 0
  }

  /** One number: rebuilt with the carry, its low digit written, the rest carried on. */
  method OneNumber(tab: array<Limb>, o: nat, len: nat, buf: array<Limb>, i: nat, fftLen: nat, first: nat, dpl: nat,
                   cr: seq<Prepared>, u: array<Limb>, carry: array<Limb>, pos: nat, ghost vs: seq<nat>, ghost w: nat)
      returns (ghost w': nat)
    requires first <= 2 && i < fftLen && Sums(buf[..], vs, fftLen, first) && PairTable(cr)
    requires 1 <= dpl <= 64 * (NB_MODS - first) && o + len <= tab.Length && u.Length == carry.Length == NB_MODS
    requires tab != u && tab != carry && u != carry && buf != tab && buf != u && buf != carry && i < |vs|
    requires Kept(tab[o..o + len], carry[..], vs, dpl, first, i, pos, w)
    modifies tab, u, carry
    ensures SameOutside(old(tab[..]), tab[..], o, o + len)
    ensures Kept(tab[o..o + len], carry[..], vs, dpl, first, i + 1, pos + dpl, w')
  {
    ghost var nb := NB_MODS - first;
    ghost var c, t0 := Val(carry[..nb]), tab[o..o + len];
    hide Val, Pow, Pow2, SameOutside, Product, Mods, Sums, PairTable, Progress, Written, Moduli;
    KeptFacts(t0, carry[..], vs, dpl, first, i, pos, w);
    assert carry[..][..nb] == carry[..nb];
    RebuildNumber(buf, i, fftLen, first, cr, u, carry, vs);
    PutDigit(tab, o, len, pos, u, NB_MODS - first, dpl);
    NextCarry(carry, u, NB_MODS - first, dpl);
    assert carry[..][..nb] == carry[..nb];
    w' := KeptStep(t0, tab[o..o + len], carry[..], vs, dpl, first, i, pos, w, c);
  }

  /** Number i plus the carry. */
  method RebuildNumber(buf: array<Limb>, i: nat, fftLen: nat, first: nat, cr: seq<Prepared>, u: array<Limb>,
                       carry: array<Limb>, ghost vs: seq<nat>)
    requires first <= 2 && i < fftLen && Sums(buf[..], vs, fftLen, first) && PairTable(cr)
    requires u.Length == carry.Length == NB_MODS && u != carry && buf != u
    requires Val(carry[..NB_MODS - first]) < Product(Mods(first))
    modifies u
    ensures i < |vs| && vs[i] < Product(Mods(first))
    ensures Val(u[..NB_MODS - first]) == vs[i] + Val(carry[..NB_MODS - first])
  {
    hide Val, Pow, Product, Mods, PairTable, Modulus;
    NumberAt(buf[..], vs, fftLen, first, i);
    hide Sums;
    ghost var v := vs[i];
    var y := ReadResidues(buf, i, fftLen, first, v);
    y := MixedDigits(y, first, cr, v);
    ProductFits(Mods(first));
    ToLimbs(y, first, u, carry, v);
  }

  lemma {:induction false} KeptFacts(t: seq<Limb>, carry: seq<Limb>, vs: seq<nat>, dpl: nat, first: nat, i: nat,
                                     pos: nat, w: nat)
    requires first <= 2 && dpl >= 1 && Kept(t, carry, vs, dpl, first, i, pos, w)
    ensures Val(t) < Pow2(pos) && Val(carry[..NB_MODS - first]) < Product(Mods(first))
  {
    hide Val, Pow, Pow2, Product, Mods;
    LowAtMost(w, Pow(|t|));
  }

  lemma {:induction false} KeptStep(t0: seq<Limb>, t: seq<Limb>, carry: seq<Limb>, vs: seq<nat>, dpl: nat, first: nat,
                                    i: nat, pos: nat, w: nat, c: nat) returns (w': nat)
    requires first <= 2 && dpl >= 1 && i < |vs| && vs[i] < Product(Mods(first)) && c < Product(Mods(first))
    requires Progress(vs, dpl, i, pos, w, c) && Val(t0) == w % Pow(|t0|) && |t| == |t0| && |carry| == NB_MODS
    requires Written(t, Val(t0), (vs[i] + c) % Pow2(dpl), pos)
    requires Val(carry[..NB_MODS - first]) == (vs[i] + c) / Pow2(dpl)
    requires forall k :: 0 <= k && NB_MODS - first - dpl / LIMB_BITS <= k < NB_MODS - first ==> carry[k] == 0
    ensures Kept(t, carry, vs, dpl, first, i + 1, pos + dpl, w')
  {
    hide Val, Pow, Pow2, Product, Mods, Progress, Written;
    var s, q := vs[i] + c, Pow2(dpl);
    DivMod(s, q);
    MulNonneg(s % q, Pow2(pos));
    w' := w + s % q * Pow2(pos);
    CutStep(t0, t, w, s % q, pos);
    ProgressStep(vs, dpl, i, pos, w, c, s, w', s / q);
    Pow2Even(dpl);
    CarryBound(vs[i], c, Product(Mods(first)), q);
  }

  lemma {:induction false} NumberAt(buf: seq<Limb>, vs: seq<nat>, fftLen: nat, first: nat, i: nat)
    requires first <= 2 && Sums(buf, vs, fftLen, first) && i < fftLen
    ensures vs[i] < Product(Mods(first)) && |buf| == (NB_MODS - first) * fftLen
    ensures forall j :: 0 <= j < NB_MODS - first ==> SumAt(buf, vs[i], fftLen, first, i, j)
  {
  }

  lemma {:induction false} KeptStart(t: seq<Limb>, carry: seq<Limb>, vs: seq<nat>, dpl: nat, first: nat)
    requires first <= 2 && dpl >= 1 && |carry| == NB_MODS
    requires forall k :: 0 <= k < |t| ==> t[k] == 0
    requires forall k :: 0 <= k < |carry| ==> carry[k] == 0
    ensures Kept(t, carry, vs, dpl, first, 0, 0, 0)
  {
    hide Val, Pow, Product, Mods;
    ProgressStart(vs, dpl);
    ValZeros(t);
    ValZeros(carry[..NB_MODS - first]);
    ModsOf(first);
    ProductFits(Mods(first));
    DivModUnique(0, Pow(|t|), 0, 0);
  }

  /** After all numbers the digits written are the sum, cut to their bits. */
  lemma {:induction false} KeptEnd(t: seq<Limb>, carry: seq<Limb>, vs: seq<nat>, dpl: nat, first: nat, n: nat, pos: nat,
                                   w: nat)
    requires first <= 2 && dpl >= 1 && Kept(t, carry, vs, dpl, first, n, pos, w)
    ensures n <= |vs| && pos == n * dpl && Val(t) == SumTo(vs, dpl, n) % Pow2(pos) % Pow(|t|)
  {
    hide Val, Pow, Pow2, Product, Mods, SumTo;
    DivModUnique(SumTo(vs, dpl, n), Pow2(pos), Val(carry[..NB_MODS - first]), w);
  }

  /** ntt_to_limb: digits of dpl bits until the result is full. */
  method ToResult(tab: array<Limb>, o: nat, len: nat, buf: array<Limb>, fftLen: nat, first: nat, dpl: nat,
                  cr: seq<Prepared>, ghost vs: seq<nat>)
      returns (ghost n: nat)
    requires first <= 2 && Sums(buf[..], vs, fftLen, first) && PairTable(cr)
    requires 1 <= dpl <= 64 * (NB_MODS - first) && o + len <= tab.Length && buf != tab
    modifies tab
    ensures SameOutside(old(tab[..]), tab[..], o, o + len)
    ensures n == (if fftLen < DigitCount(len, dpl) then fftLen else DigitCount(len, dpl)) && n <= |vs|
    ensures n * dpl >= 0 && Val(tab[o..o + len]) == SumTo(vs, dpl, n) % Pow2(n * dpl) % Pow(len)
  {
    hide Val, Pow, Pow2, SameOutside, Product, Mods, Sums, PairTable, Kept, SumTo;
    ghost var before := tab[..];
    var carry := new Limb[NB_MODS](_ => 0);
    var u := new Limb[NB_MODS](_ => 0);
    Clear(tab, o, len);
    var count := DigitCount(len, dpl);
    if fftLen < count {
      count := fftLen;
    }
    n := count;
    SumsLength(buf[..], vs, fftLen, first);
    KeptStart(tab[o..o + len], carry[..], vs, dpl, first);
    var pos := 0;
    ghost var w: nat := 0;
    for i := 0 to count
      invariant SameOutside(before, tab[..], o, o + len)
      invariant Kept(tab[o..o + len], carry[..], vs, dpl, first, i, pos, w)
    {
      ghost var mid := tab[..];
      w := OneNumber(tab, o, len, buf, i, fftLen, first, dpl, cr, u, carry, pos, vs, w);
      SameChain(before, mid, tab[..], o, o + len, o, o + len, o, o + len);
      pos := pos + dpl;
    }
    KeptEnd(tab[o..o + len], carry[..], vs, dpl, first, n, pos, w);
  }

  lemma {:induction false} SumsLength(buf: seq<Limb>, vs: seq<nat>, fftLen: nat, first: nat)
    requires first <= 2 && Sums(buf, vs, fftLen, first)
    ensures |vs| == fftLen
  {
  }
}
