/** The linear-time limb primitives: loops over array sections with a carry or borrow word.
    A section is an array, an offset and a length; operands may be the section that is
    being written, as the callers do. */
module LimbOps {
  import opened Arith
  import opened Limbs

  /** No limb of the operand is overwritten before it is read by an ascending loop. */
  ghost predicate Ascending(res: array<Limb>, ro: nat, op: array<Limb>, o: nat, n: nat) {
    op == res ==> o >= ro || o + n <= ro
  }

  /** Outside [lo, hi) the array is as it was. */
  ghost predicate SameOutside(was: seq<Limb>, now: seq<Limb>, lo: nat, hi: nat) {
    && |was| == |now|
    && forall j :: 0 <= j < |was| && (j < lo || hi <= j) ==> now[j] == was[j]
  }

  /** Two changes confined to [lo, hi) are together confined to it. */
  lemma {:induction false} SameChain(s0: seq<Limb>, s1: seq<Limb>, s2: seq<Limb>, lo: nat, hi: nat, l1: nat, h1: nat,
          l2: nat, h2: nat)
    requires SameOutside(s0, s1, l1, h1) && SameOutside(s1, s2, l2, h2)
    requires lo <= l1 && h1 <= hi && lo <= l2 && h2 <= hi
    ensures SameOutside(s0, s2, lo, hi)
  {
  }

  lemma {:induction false} StoreOutside(s: seq<Limb>, j: nat, x: Limb)
    requires j < |s|
    ensures SameOutside(s, s[j := x], j, j + 1)
  {
  }

  lemma {:induction false} SameSlice(was: seq<Limb>, now: seq<Limb>, lo: nat, hi: nat, i: nat, j: nat)
    requires SameOutside(was, now, lo, hi) && i <= j <= |was| && (j <= lo || hi <= i)
    ensures now[i..j] == was[i..j]
  {
  }

  lemma {:induction false} SubSlice(s: seq<Limb>, o: nat, t: seq<Limb>, n: nat, i: nat, j: nat)
    requires o + n <= |s| && n <= |t| && s[o..o + n] == t[..n] && i <= j <= n
    ensures s[o + i..o + j] == t[i..j]
  {
    forall k | i <= k < j
      ensures s[o + k] == t[k]
    {
      assert s[o..o + n][k] == t[..n][k];
    }
  }

  lemma {:induction false} Extend(s: seq<Limb>, i: nat)
    requires i < |s|
    ensures Val(s[..i + 1]) == Val(s[..i]) + Pow(i) * s[i]
  {
    assert s[..i + 1] == s[..i] + [s[i]];
    ValSnoc(s[..i], s[i]);
  }

  /** v + w + carry in wrapping words; the second component is the carry out. */
  function AddWord(v: Limb, w: Limb, k: int): (r: (Limb, int))
    requires 0 <= k <= 1
    ensures r.0 + B * r.1 == v + w + k && 0 <= r.1 <= 1
  {
    var a: Limb := (v + w) % B;
    var k1 := a < v;
    var a': Limb := (a + k) % B;
    (a', if a' < k || k1 then 1 else 0)
  }

  /** v - w - borrow in wrapping words; the second component is the borrow out. */
  function SubWord(v: Limb, w: Limb, k: int): (r: (Limb, int))
    requires 0 <= k <= 1
    ensures r.0 - B * r.1 == v - w - k && 0 <= r.1 <= 1
  {
    var a: Limb := (v - w) % B;
    var k1 := a > v;
    var v': Limb := (a - k) % B;
    (v', if v' > a || k1 then 1 else 0)
  }

  /** One more digit of a result computed with a carry word: t is the exact value so far,
      d the exact value of digit i before the carry k is added, k' the carry out. */
  lemma {:induction false} DigitStep(done: seq<Limb>, k: int, t: int, d: int, y: Limb, k': int)
    requires Val(done) + Pow(|done|) * k == t
    requires d + k == y + B * k'
    ensures Val(done + [y]) + Pow(|done| + 1) * k' == t + Pow(|done|) * d
  {
    var p := Pow(|done|);
    ValSnoc(done, y);
    assert Pow(|done| + 1) == B * p;
    CarryChain(p, d, k, y, k');
  }

  lemma {:induction false} CarryChain(p: int, d: int, k: int, y: int, k': int)
    requires d + k == y + B * k'
    ensures p * y + (B * p) * k' == p * d + p * k
  {
    Assoc(B, p, k');
    Distrib(y, B * k', p);
    Distrib(d, k, p);
  }

  lemma {:induction false} SumStep(s1: seq<Limb>, s2: seq<Limb>, done: seq<Limb>, k: int, y: Limb, k': int, c: int)
    requires |done| < |s1| && |s1| == |s2|
    requires Val(done) + Pow(|done|) * k == Val(s1[..|done|]) + Val(s2[..|done|]) + c
    requires (s1[|done|] as int) + s2[|done|] + k == y + B * k'
    ensures Val(done + [y]) + Pow(|done| + 1) * k' == Val(s1[..|done| + 1]) + Val(s2[..|done| + 1]) + c
  {
    hide *;
    var i := |done|;
    var x1: int, x2: int := s1[i], s2[i];
    DigitStep(done, k, Val(s1[..i]) + Val(s2[..i]) + c, x1 + x2, y, k');
    Extend(s1, i);
    Extend(s2, i);
    Distrib(x1, x2, Pow(i));
  }

  lemma {:induction false} DifferenceStep(s1: seq<Limb>, s2: seq<Limb>, done: seq<Limb>, k: int, y: Limb, k': int,
          c: int)
    requires |done| < |s1| && |s1| == |s2|
    requires Val(done) == Val(s1[..|done|]) - Val(s2[..|done|]) - c + Pow(|done|) * k
    requires (s1[|done|] as int) - s2[|done|] - k == y - B * k'
    ensures Val(done + [y]) == Val(s1[..|done| + 1]) - Val(s2[..|done| + 1]) - c + Pow(|done| + 1) * k'
  {
    hide *;
    var i := |done|;
    var x1: int, x2: int := s1[i], s2[i];
    assert Pow(i) * -k == -(Pow(i) * k);
    DigitStep(done, -k, Val(s1[..i]) - Val(s2[..i]) - c, x1 - x2, y, -k');
    Extend(s1, i);
    Extend(s2, i);
    Distrib(x1, x2, Pow(i));
    assert Pow(i + 1) * -k' == -(Pow(i + 1) * k');
  }

  /** res[] = op1[] + op2[] + carry; returns the carry out. */
  method MpAdd(res: array<Limb>, ro: nat, op1: array<Limb>, o1: nat, op2: array<Limb>, o2: nat, n: nat, carry: int)
    returns (k: int)
    requires ro + n <= res.Length && o1 + n <= op1.Length && o2 + n <= op2.Length
    requires Ascending(res, ro, op1, o1, n) && Ascending(res, ro, op2, o2, n)
    requires 0 <= carry <= 1
    modifies res
    ensures 0 <= k <= 1
    ensures Val(res[ro..ro + n]) + Pow(n) * k == old(Val(op1[o1..o1 + n])) + old(Val(op2[o2..o2 + n])) + carry
    ensures SameOutside(old(res[..]), res[..], ro, ro + n)
  {
    hide Val;
    hide AddWord;
    hide Pow;
    ghost var s1, s2 := op1[o1..o1 + n], op2[o2..o2 + n];
    k := carry;
    NoLimbs(k);
    assert res[ro..ro + 0] == [] && s1[..0] == [] && s2[..0] == [];
    for i := 0 to n
      invariant 0 <= k <= 1
      invariant SameOutside(old(res[..]), res[..], ro, ro + i)
      invariant Val(res[ro..ro + i]) + Pow(i) * k == Val(s1[..i]) + Val(s2[..i]) + carry
    {
      var (a, k') := AddWord(op1[o1 + i], op2[o2 + i], k);
      ghost var done := res[ro..ro + i];
      SumStep(s1, s2, done, k, a, k', carry);
      res[ro + i] := a;
      k := k';
      assert res[ro..ro + (i + 1)] == done + [a];
    }
    assert s1[..n] == s1 && s2[..n] == s2;
  }

  /** res[] = op1[] - op2[] - carry; returns the borrow. */
  method MpSub(res: array<Limb>, ro: nat, op1: array<Limb>, o1: nat, op2: array<Limb>, o2: nat, n: nat, carry: int)
    returns (k: int)
    requires ro + n <= res.Length && o1 + n <= op1.Length && o2 + n <= op2.Length
    requires Ascending(res, ro, op1, o1, n) && Ascending(res, ro, op2, o2, n)
    requires 0 <= carry <= 1
    modifies res
    ensures 0 <= k <= 1
    ensures Val(res[ro..ro + n]) == old(Val(op1[o1..o1 + n])) - old(Val(op2[o2..o2 + n])) - carry + Pow(n) * k
    ensures SameOutside(old(res[..]), res[..], ro, ro + n)
  {
    hide Val;
    hide SubWord;
    hide Pow;
    ghost var s1, s2 := op1[o1..o1 + n], op2[o2..o2 + n];
    k := carry;
    NoLimbs(k);
    assert res[ro..ro + 0] == [] && s1[..0] == [] && s2[..0] == [];
    for i := 0 to n
      invariant 0 <= k <= 1
      invariant SameOutside(old(res[..]), res[..], ro, ro + i)
      invariant Val(res[ro..ro + i]) == Val(s1[..i]) - Val(s2[..i]) - carry + Pow(i) * k
    {
      var (a, k') := SubWord(op1[o1 + i], op2[o2 + i], k);
      ghost var done := res[ro..ro + i];
      DifferenceStep(s1, s2, done, k, a, k', carry);
      res[ro + i] := a;
      k := k';
      assert res[ro..ro + (i + 1)] == done + [a];
    }
    assert s1[..n] == s1 && s2[..n] == s2;
  }

  /** res[] = 0 - op2[] - carry; returns the borrow. */
  method MpNeg(res: array<Limb>, ro: nat, op2: array<Limb>, o2: nat, n: nat, carry: int)
    returns (k: int)
    requires ro + n <= res.Length && o2 + n <= op2.Length
    requires Ascending(res, ro, op2, o2, n)
    requires 0 <= carry <= 1
    modifies res
    ensures 0 <= k <= 1
    ensures Val(res[ro..ro + n]) == Pow(n) * k - old(Val(op2[o2..o2 + n])) - carry
    ensures SameOutside(old(res[..]), res[..], ro, ro + n)
  {
    hide Val;
    hide SubWord;
    hide Pow;
    ghost var s2 := op2[o2..o2 + n];
    ghost var zero: seq<Limb> := seq(n, _ => 0);
    k := carry;
    NoLimbs(k);
    assert res[ro..ro + 0] == [] && zero[..0] == [] && s2[..0] == [];
    for i := 0 to n
      invariant 0 <= k <= 1
      invariant SameOutside(old(res[..]), res[..], ro, ro + i)
      invariant Val(res[ro..ro + i]) == Val(zero[..i]) - Val(s2[..i]) - carry + Pow(i) * k
    {
      var (a, k') := SubWord(0, op2[o2 + i], k);
      ghost var done := res[ro..ro + i];
      DifferenceStep(zero, s2, done, k, a, k', carry);
      res[ro + i] := a;
      k := k';
      assert res[ro..ro + (i + 1)] == done + [a];
    }
    assert s2[..n] == s2;
    ValZeros(zero[..n]);
  }

  /** Replacing the low i limbs of s and leaving the others. */
  lemma {:induction false} LowPart(s: seq<Limb>, t: seq<Limb>, i: nat, delta: int)
    requires i <= |s| && |s| == |t| && t[i..] == s[i..]
    requires Val(t[..i]) == Val(s[..i]) + delta
    ensures Val(t) == Val(s) + delta
  {
    ValSplit(s, i);
    ValSplit(t, i);
  }

  /** v + k, where k is a whole limb. */
  function AddLimb(v: Limb, k: Limb): (r: (Limb, Limb))
    ensures r.0 + B * r.1 == v as int + k && r.1 <= 1
  {
    var a: Limb := (v + k) % B;
    (a, if a < k then 1 else 0)
  }

  /** v - k, where k is a whole limb. */
  function SubLimb(v: Limb, k: Limb): (r: (Limb, Limb))
    ensures r.0 as int - B * r.1 == v as int - k && r.1 <= 1
  {
    var a: Limb := (v - k) % B;
    (a, if a > v then 1 else 0)
  }

  /** tab[] += b; stops at the first limb that absorbs the carry. */
  method MpAddUi(tab: array<Limb>, to: nat, b: Limb, n: nat) returns (k: Limb)
    requires to + n <= tab.Length
    modifies tab
    ensures Val(tab[to..to + n]) + Pow(n) * k == old(Val(tab[to..to + n])) + b
    ensures n > 0 ==> k <= 1
    ensures SameOutside(old(tab[..]), tab[..], to, to + n)
  {
    hide Val;
    hide AddLimb;
    hide Pow;
    ghost var s := tab[to..to + n];
    k := b;
    NoLimbs(k);
    assert tab[to..to + 0] == [] && s[..0] == [];
    var i := 0;
    while i < n
      invariant i <= n
      invariant i > 0 ==> k <= 1
      invariant SameOutside(old(tab[..]), tab[..], to, to + i)
      invariant Val(tab[to..to + i]) + Pow(i) * k == Val(s[..i]) + b
    {
      if k == 0 { break; }
      var (a, k') := AddLimb(tab[to + i], k);
      ghost var done := tab[to..to + i];
      assert tab[to + i] == s[i];
      DigitStep(done, k, Val(s[..i]) + b, s[i], a, k');
      Extend(s, i);
      k := k';
      tab[to + i] := a;
      i := i + 1;
      assert tab[to..to + i] == done + [a];
    }
    ghost var t := tab[to..to + n];
    assert t[..i] == tab[to..to + i] && t[i..] == s[i..];
    LowPart(s, t, i, b - Pow(i) * k);
  }

  /** tab[] -= b; stops once there is no borrow left. */
  method MpSubUi(tab: array<Limb>, to: nat, b: Limb, n: nat) returns (k: Limb)
    requires to + n <= tab.Length
    modifies tab
    ensures Val(tab[to..to + n]) == old(Val(tab[to..to + n])) - b + Pow(n) * k
    ensures n > 0 ==> k <= 1
    ensures SameOutside(old(tab[..]), tab[..], to, to + n)
  {
    hide Val;
    hide SubLimb;
    hide Pow;
    ghost var s := tab[to..to + n];
    k := b;
    NoLimbs(k);
    assert tab[to..to + 0] == [] && s[..0] == [];
    var i := 0;
    while i < n
      invariant i <= n
      invariant i > 0 ==> k <= 1
      invariant SameOutside(old(tab[..]), tab[..], to, to + i)
      invariant Val(tab[to..to + i]) == Val(s[..i]) - b + Pow(i) * k
    {
      var (a, k') := SubLimb(tab[to + i], k);
      ghost var done := tab[to..to + i];
      assert tab[to + i] == s[i];
      BorrowStep(s, done, k, b, a, k');
      k := k';
      tab[to + i] := a;
      i := i + 1;
      assert tab[to..to + i] == done + [a];
      if k == 0 { break; }
    }
    ghost var t := tab[to..to + n];
    assert t[..i] == tab[to..to + i] && t[i..] == s[i..];
    LowPart(s, t, i, Pow(i) * k - b);
  }

  lemma {:induction false} BorrowStep(s: seq<Limb>, done: seq<Limb>, k: int, b: int, y: Limb, k': int)
    requires |done| < |s|
    requires Val(done) == Val(s[..|done|]) - b + Pow(|done|) * k
    requires s[|done|] - k == y - B * k'
    ensures Val(done + [y]) == Val(s[..|done| + 1]) - b + Pow(|done| + 1) * k'
  {
    hide *;
    var i := |done|;
    assert Pow(i) * -k == -(Pow(i) * k);
    DigitStep(done, -k, Val(s[..i]) - b, s[i], y, -k');
    Extend(s, i);
    assert Pow(i + 1) * -k' == -(Pow(i + 1) * k');
  }

  /** Three-way comparison, most significant limb first. */
  method MpCmp(a: array<Limb>, ao: nat, b: array<Limb>, bo: nat, n: nat) returns (c: int)
    requires ao + n <= a.Length && bo + n <= b.Length
    ensures c == (if Val(a[ao..ao + n]) < Val(b[bo..bo + n]) then -1
                  else if Val(a[ao..ao + n]) > Val(b[bo..bo + n]) then 1 else 0)
  {
    hide Val;
    hide Pow;
    ghost var s, t := a[ao..ao + n], b[bo..bo + n];
    var i := n;
    while i > 0
      invariant 0 <= i <= n
      invariant s[i..] == t[i..]
    {
      i := i - 1;
      assert a[ao + i] == s[i] && b[bo + i] == t[i];
      if a[ao + i] != b[bo + i] {
        if a[ao + i] < b[bo + i] {
          FirstDifference(s, t, i);
          return -1;
        } else {
          FirstDifference(t, s, i);
          return 1;
        }
      }
      assert s[i..] == [s[i]] + s[i + 1..] && t[i..] == [t[i]] + t[i + 1..];
    }
    assert s[0..] == s && t[0..] == t;
    return 0;
  }

  /** The most significant difference decides. */
  lemma {:induction false} FirstDifference(s: seq<Limb>, t: seq<Limb>, i: nat)
    requires i < |s| && |s| == |t| && s[i + 1..] == t[i + 1..] && s[i] < t[i]
    ensures Val(s) < Val(t)
  {
    hide *;
    ValSplit(s, i + 1);
    ValSplit(t, i + 1);
    Extend(s, i);
    Extend(t, i);
    ValBound(s[..i]);
    assert |s[..i]| == i;
    MulLe(s[i] + 1, t[i], Pow(i));
    Distrib(s[i], 1, Pow(i));
  }

  /** Is any limb of the section non-zero? */
  method MpScanNz(tab: array<Limb>, to: nat, n: nat) returns (nz: bool)
    requires to + n <= tab.Length
    ensures nz <==> Val(tab[to..to + n]) != 0
  {
    hide Val;
    ghost var s := tab[to..to + n];
    ValZeroIff(s);
    for i := 0 to n
      invariant forall j :: 0 <= j < i ==> s[j] == 0
    {
      assert tab[to + i] == s[i];
      if tab[to + i] != 0 { return true; }
    }
    return false;
  }

  /** dst[] = src[] between different arrays. */
  method CopyLimbs(dst: array<Limb>, d: nat, src: array<Limb>, s: nat, n: nat)
    requires dst != src && d + n <= dst.Length && s + n <= src.Length
    modifies dst
    ensures dst[d..d + n] == src[s..s + n]
    ensures SameOutside(old(dst[..]), dst[..], d, d + n)
  {
    for i := 0 to n
      invariant dst[d..d + i] == src[s..s + i]
      invariant SameOutside(old(dst[..]), dst[..], d, d + i)
    {
      dst[d + i] := src[s + i];
      assert dst[d..d + (i + 1)] == dst[d..d + i] + [dst[d + i]];
      assert src[s..s + (i + 1)] == src[s..s + i] + [src[s + i]];
    }
  }

  /** dst[] = 0. */
  method ZeroLimbs(dst: array<Limb>, d: nat, n: nat)
    requires d + n <= dst.Length
    modifies dst
    ensures forall j :: d <= j < d + n ==> dst[j] == 0
    ensures SameOutside(old(dst[..]), dst[..], d, d + n)
  {
    for i := 0 to n
      invariant forall j :: d <= j < d + i ==> dst[j] == 0
      invariant SameOutside(old(dst[..]), dst[..], d, d + i)
    {
      dst[d + i] := 0;
    }
  }
}
