/** Multiplication of limb arrays by one limb and by each other, and the one-limb right shift. */
module LimbMul {
  import opened Arith
  import opened Limbs
  import opened LimbOps

  /** B squared: a double word (dlimb_t) wraps here. */
  const BB: nat := 0x1_0000_0000_0000_0000_0000_0000_0000_0000

  /** The product of two limbs leaves room for two more limbs in a double word. */
  lemma {:induction false} ProductBound(a: Limb, b: Limb)
    ensures 0 <= a * b <= (B - 1) * (B - 1)
  {
    MulLe(a, B - 1, b);
    MulLe(b, B - 1, B - 1);
    MulNonneg(a, b);
  }

  /** Low and high words of a*b + l + r. */
  function MulAddWord(a: Limb, b: Limb, l: Limb, r: Limb): (w: (Limb, Limb))
    ensures w.0 + B * w.1 == a * b + l + r
  {
    ProductBound(a, b);
    var t: int := (a * b + l + r) % BB;
    (t % B, t / B)
  }

  /** The low word of r - a*b - l and the word to be taken from the next limb. */
  function SubMulWord(r: Limb, a: Limb, b: Limb, l: Limb): (w: (Limb, Limb))
    ensures w.0 as int - B * w.1 == r as int - a * b - l
  {
    ProductBound(a, b);
    var p: int := a * b;
    SubMulWrap(r, p, l);
    var t := (r - p - l) % BB;
    (t % B, (-(t / B)) % B)
  }

  lemma {:induction false} SubMulWrap(r: Limb, p: int, l: Limb)
    requires 0 <= p <= (B - 1) * (B - 1)
    ensures var t := (r - p - l) % BB; 0 <= t / B < B && t % B - B * ((-(t / B)) % B) == r as int - p - l
  {
  }

  lemma {:induction false} ProductStep(s: seq<Limb>, i: nat, b: int)
    requires i < |s|
    ensures Val(s[..i + 1]) * b == Val(s[..i]) * b + Pow(i) * (s[i] * b)
  {
    hide *;
    Extend(s, i);
    Distrib(Val(s[..i]), Pow(i) * s[i], b);
    Assoc(Pow(i), s[i], b);
  }

  /** r[] = a[] * b + l; returns the high word. */
  method MpMul1(r: array<Limb>, ro: nat, a: array<Limb>, ao: nat, n: nat, b: Limb, l0: Limb)
    returns (l: Limb)
    requires ro + n <= r.Length && ao + n <= a.Length
    requires Ascending(r, ro, a, ao, n)
    modifies r
    ensures Val(r[ro..ro + n]) + Pow(n) * l == old(Val(a[ao..ao + n])) * b + l0
    ensures SameOutside(old(r[..]), r[..], ro, ro + n)
  {
    hide Val;
    hide Pow;
    hide MulAddWord;
    ghost var s := a[ao..ao + n];
    l := l0;
    NoLimbs(l);
    assert r[ro..ro + 0] == [] && s[..0] == [];
    for i := 0 to n
      invariant SameOutside(old(r[..]), r[..], ro, ro + i)
      invariant Val(r[ro..ro + i]) + Pow(i) * l == Val(s[..i]) * b + l0
    {
      var (y, l') := MulAddWord(a[ao + i], b, l, 0);
      ghost var done := r[ro..ro + i];
      DigitStep(done, l, Val(s[..i]) * b + l0, s[i] * b, y, l');
      ProductStep(s, i, b);
      l := l';
      r[ro + i] := y;
      assert r[ro..ro + (i + 1)] == done + [y];
    }
    assert s[..n] == s;
  }

  /** r[] += a[] * b; returns the high word. */
  method MpAddMul1(r: array<Limb>, ro: nat, a: array<Limb>, ao: nat, n: nat, b: Limb)
    returns (l: Limb)
    requires ro + n <= r.Length && ao + n <= a.Length
    requires Ascending(r, ro, a, ao, n)
    modifies r
    ensures Val(r[ro..ro + n]) + Pow(n) * l == old(Val(r[ro..ro + n])) + old(Val(a[ao..ao + n])) * b
    ensures SameOutside(old(r[..]), r[..], ro, ro + n)
  {
    hide Val;
    hide Pow;
    hide MulAddWord;
    ghost var s, t := a[ao..ao + n], r[ro..ro + n];
    l := 0;
    NoLimbs(l);
    assert r[ro..ro + 0] == [] && s[..0] == [] && t[..0] == [];
    for i := 0 to n
      invariant SameOutside(old(r[..]), r[..], ro, ro + i)
      invariant Val(r[ro..ro + i]) + Pow(i) * l == Val(t[..i]) + Val(s[..i]) * b
    {
      var (y, l') := MulAddWord(a[ao + i], b, l, r[ro + i]);
      ghost var done := r[ro..ro + i];
      AddMulStep(t, s, b, done, l, y, l');
      l := l';
      r[ro + i] := y;
      assert r[ro..ro + (i + 1)] == done + [y];
    }
    assert s[..n] == s && t[..n] == t;
  }

  lemma {:induction false} AddMulStep(t: seq<Limb>, s: seq<Limb>, b: int, done: seq<Limb>, k: int, y: Limb, k': int)
    requires |done| < |s| && |s| == |t|
    requires Val(done) + Pow(|done|) * k == Val(t[..|done|]) + Val(s[..|done|]) * b
    requires s[|done|] * b + k + t[|done|] == y + B * k'
    ensures Val(done + [y]) + Pow(|done| + 1) * k' == Val(t[..|done| + 1]) + Val(s[..|done| + 1]) * b
  {
    hide *;
    var i := |done|;
    DigitStep(done, k, Val(t[..i]) + Val(s[..i]) * b, s[i] * b + t[i], y, k');
    ProductStep(s, i, b);
    Extend(t, i);
    Distrib(s[i] * b, t[i], Pow(i));
  }

  /** r[] -= a[] * b; returns the word to subtract from the limb above. */
  method MpSubMul1(r: array<Limb>, ro: nat, a: array<Limb>, ao: nat, n: nat, b: Limb)
    returns (l: Limb)
    requires ro + n <= r.Length && ao + n <= a.Length
    requires Ascending(r, ro, a, ao, n)
    modifies r
    ensures Val(r[ro..ro + n]) == old(Val(r[ro..ro + n])) - old(Val(a[ao..ao + n])) * b + Pow(n) * l
    ensures SameOutside(old(r[..]), r[..], ro, ro + n)
  {
    hide Val;
    hide Pow;
    hide SubMulWord;
    ghost var s, t := a[ao..ao + n], r[ro..ro + n];
    l := 0;
    NoLimbs(l);
    assert r[ro..ro + 0] == [] && s[..0] == [] && t[..0] == [];
    for i := 0 to n
      invariant SameOutside(old(r[..]), r[..], ro, ro + i)
      invariant Val(r[ro..ro + i]) == Val(t[..i]) - Val(s[..i]) * b + Pow(i) * l
    {
      var (y, l') := SubMulWord(r[ro + i], a[ao + i], b, l);
      ghost var done := r[ro..ro + i];
      SubMulStep(t, s, b, done, l, y, l');
      l := l';
      r[ro + i] := y;
      assert r[ro..ro + (i + 1)] == done + [y];
    }
    assert s[..n] == s && t[..n] == t;
  }

  lemma {:induction false} SubMulStep(t: seq<Limb>, s: seq<Limb>, b: int, done: seq<Limb>, k: int, y: Limb, k': int)
    requires |done| < |s| && |s| == |t|
    requires Val(done) == Val(t[..|done|]) - Val(s[..|done|]) * b + Pow(|done|) * k
    requires t[|done|] - s[|done|] * b - k == y - B * k'
    ensures Val(done + [y]) == Val(t[..|done| + 1]) - Val(s[..|done| + 1]) * b + Pow(|done| + 1) * k'
  {
    hide *;
    var i := |done|;
    assert Pow(i) * -k == -(Pow(i) * k);
    DigitStep(done, -k, Val(t[..i]) - Val(s[..i]) * b, t[i] - s[i] * b, y, -k');
    ProductStep(s, i, b);
    Extend(t, i);
    Distrib(t[i], s[i] * b, Pow(i));
    assert Pow(i + 1) * -k' == -(Pow(i + 1) * k');
  }

  /** result[] = op1[] * op2[], n1 + n2 limbs, one row of the product per limb of op2. */
  method MpMul(result: array<Limb>, ro: nat, op1: array<Limb>, o1: nat, n1: nat, op2: array<Limb>, o2: nat, n2: nat)
    requires n2 >= 1
    requires ro + n1 + n2 <= result.Length && o1 + n1 <= op1.Length && o2 + n2 <= op2.Length
    requires result != op1 && result != op2
    modifies result
    ensures Val(result[ro..ro + n1 + n2]) == Val(op1[o1..o1 + n1]) * Val(op2[o2..o2 + n2])
    ensures SameOutside(old(result[..]), result[..], ro, ro + n1 + n2)
  {
    hide Val;
    hide Pow;
    ghost var s, t := op1[o1..o1 + n1], op2[o2..o2 + n2];
    var c := MpMul1(result, ro, op1, o1, n1, op2[o2], 0);
    assert t[0] == op2[o2];
    FirstRow(s, t, result[ro..ro + n1], c);
    result[ro + n1] := c;
    assert result[ro..ro + n1 + 1] == result[ro..ro + n1] + [c];
    for i := 1 to n2
      invariant SameOutside(old(result[..]), result[..], ro, ro + n1 + i)
      invariant Val(result[ro..ro + n1 + i]) == Val(s) * Val(t[..i])
    {
      ghost var before := result[ro..ro + n1 + i];
      assert before[i..] == result[ro + i..ro + i + n1];
      var r := MpAddMul1(result, ro + i, op1, o1, n1, op2[o2 + i]);
      ghost var high := result[ro + i..ro + i + n1];
      result[ro + i + n1] := r;
      NextRow(s, t, i, before, high, r);
      assert result[ro..ro + n1 + (i + 1)] == before[..i] + (high + [r]);
    }
    assert t[..n2] == t;
  }

  lemma {:induction false} FirstRow(s: seq<Limb>, t: seq<Limb>, row: seq<Limb>, c: Limb)
    requires |t| > 0 && |row| == |s|
    requires Val(row) + Pow(|s|) * c == Val(s) * t[0]
    ensures Val(row + [c]) == Val(s) * Val(t[..1])
  {
    hide *;
    ValSnoc(row, c);
    assert t[..1] == [t[0]];
    ValOne(t[0]);
  }

  lemma {:induction false} NextRow(s: seq<Limb>, t: seq<Limb>, i: nat, before: seq<Limb>, high: seq<Limb>, r: Limb)
    requires i < |t| && |before| == |s| + i && |high| == |s|
    requires Val(before) == Val(s) * Val(t[..i])
    requires Val(high) + Pow(|s|) * r == Val(before[i..]) + Val(s) * t[i]
    ensures Val(before[..i] + (high + [r])) == Val(s) * Val(t[..i + 1])
  {
    hide *;
    ValSplit(before, i);
    ValSnoc(high, r);
    ValAppend(before[..i], high + [r]);
    Extend(t, i);
    Distrib(Val(before[i..]), Val(s) * t[i], Pow(i));
    Distrib(Val(t[..i]), Pow(i) * t[i], Val(s));
    Assoc(Pow(i), Val(s), t[i]);
  }

  // ----- right shift by fewer than 64 bits -----

  /** 2 to the power k. */
  function Pow2(k: nat): (p: nat)
    ensures p >= 1
  {
    if k == 0 then 1 else 2 * Pow2(k - 1)
  }

  lemma {:induction false} Pow2Add(j: nat, k: nat)
    ensures Pow2(j + k) == Pow2(j) * Pow2(k)
  {
    if j > 0 {
      Pow2Add(j - 1, k);
      Assoc(2, Pow2(j - 1), Pow2(k));
    }
  }

  lemma {:induction false} PowTwoSmall()
    ensures Pow2(1) == 2 && Pow2(2) == 4 && Pow2(4) == 16
  {
  }

  lemma {:induction false} LimbIsPow2()
    ensures Pow2(LIMB_BITS) == B
  {
    PowTwoSmall();
    hide Pow2;
    Pow2Add(4, 4);
    Pow2Add(8, 8);
    Pow2Add(16, 16);
    Pow2Add(32, 32);
  }

  /** (lo >> shift) | (hi << (64 - shift)): the two fields do not overlap, so "or" is a sum. */
  function ShrWord(hi: Limb, lo: Limb, shift: nat): (x: Limb)
    requires 1 <= shift < LIMB_BITS
    ensures x * Pow2(shift) == lo as int - lo % Pow2(shift) + (hi % Pow2(shift)) * B
  {
    var s, t := Pow2(shift), Pow2(LIMB_BITS - shift);
    assert s * t == B by { Pow2Add(shift, LIMB_BITS - shift); LimbIsPow2(); }
    ShrArith(hi, lo, s, t);
    lo / s + (hi % s) * t
  }

  lemma {:induction false} ShrArith(hi: Limb, lo: Limb, s: nat, t: nat)
    requires s >= 1 && t >= 1 && s * t == B
    ensures 0 <= lo / s + (hi % s) * t < B
    ensures (lo / s + (hi % s) * t) * s == lo as int - lo % s + (hi % s) * B
  {
    DivMod(lo, s);
    DivMod(hi, s);
    var q, h := lo / s, hi % s;
    Assoc(h, t, s);
    Distrib(q, h * t, s);
    assert q < t by {
      if q >= t { MulLe(t, q, s); assert false; }
    }
    MulLe(h + 1, s, t);
    Distrib(h, 1, t);
    MulNonneg(h, t);
  }

  /** r[] = (a[] + high * B^n) >> shift; returns the bits shifted out. */
  method MpShr(r: array<Limb>, ro: nat, a: array<Limb>, ao: nat, n: nat, shift: nat, high: Limb)
    returns (rem: Limb)
    requires ro + n <= r.Length && ao + n <= a.Length
    requires 1 <= shift < LIMB_BITS
    requires r == a ==> ro >= ao || ro + n <= ao
    modifies r
    ensures rem < Pow2(shift)
    ensures Val(r[ro..ro + n]) * Pow2(shift) + rem == old(Val(a[ao..ao + n])) + (high % Pow2(shift)) * Pow(n)
    ensures SameOutside(old(r[..]), r[..], ro, ro + n)
  {
    hide Val;
    hide Pow;
    hide Pow2;
    hide ShrWord;
    ghost var s := a[ao..ao + n];
    ghost var two := Pow2(shift);
    var l: Limb := high;
    var i := n;
    NoLimbs(high % two);
    assert r[ro + n..ro + n] == [] && s[n..] == [];
    while i > 0
      invariant 0 <= i <= n
      invariant forall j :: 0 <= j < i ==> a[ao + j] == s[j]
      invariant SameOutside(old(r[..]), r[..], ro + i, ro + n)
      invariant Val(r[ro + i..ro + n]) * two + l % two == Val(s[i..]) + (high % two) * Pow(n - i)
    {
      i := i - 1;
      var x := a[ao + i];
      ghost var done := r[ro + (i + 1)..ro + n];
      var y := ShrWord(l, x, shift);
      ShrStep(s, i, done, two, l % two, x % two, high % two, y);
      r[ro + i] := y;
      l := x;
      assert r[ro + i..ro + n] == [y] + done;
    }
    assert s[0..] == s;
    DivMod(l, two);
    ModLe(l, two);
    rem := l % Pow2(shift);
  }

  lemma {:induction false} ShrStep(s: seq<Limb>, i: nat, done: seq<Limb>, two: int, lowIn: int, lowOut: int, h: int,
          y: Limb)
    requires i < |s| && |done| == |s| - i - 1
    requires Val(done) * two + lowIn == Val(s[i + 1..]) + h * Pow(|s| - i - 1)
    requires y * two == s[i] as int - lowOut + lowIn * B
    ensures Val([y] + done) * two + lowOut == Val(s[i..]) + h * Pow(|s| - i)
  {
    hide *;
    ConsVal(y, done);
    assert s[i..] == [s[i]] + s[i + 1..];
    ConsVal(s[i], s[i + 1..]);
    PowStep(|s| - i - 1);
    ShrSum(Val(done), two, lowIn, lowOut, Val(s[i + 1..]), h, Pow(|s| - i - 1), s[i], y);
  }

  lemma {:induction false} ShrSum(d: int, two: int, lowIn: int, lowOut: int, v: int, h: int, p: int, x: int, y: int)
    requires d * two + lowIn == v + h * p
    requires y * two == x - lowOut + lowIn * B
    ensures (y + B * d) * two + lowOut == (x + B * v) + h * (B * p)
  {
    Distrib(y, B * d, two);
    Assoc(B, d, two);
    Assoc(h, B, p);
  }

  lemma {:induction false} ModLe(a: nat, d: nat)
    requires d >= 1
    ensures a % d <= a
  {
    DivMod(a, d);
    MulNonneg(a / d, d);
  }

  lemma {:induction false} ConsVal(x: Limb, s: seq<Limb>)
    ensures Val([x] + s) == x + B * Val(s)
  {
    assert ([x] + s)[1..] == s;
  }
}
