/** From residues modulo several primes to the number itself: mixed radix digits by Chinese
    remainders, then limbs. */
module MixedRadix {
  import opened Arith
  import opened Limbs
  import opened LimbMul
  import opened LimbOps
  import opened ModWords
  import opened NttTables
  import opened NttInit

  // ----- numbers and their mixed radix digits -----

  /** The product of the moduli. */
  function Product(ms: seq<Limb>): nat {
    if |ms| == 0 then 1 else
    MulNonneg(ms[0], Product(ms[1..]));
    ms[0] * Product(ms[1..])
  }

  /** Moduli above 2^61 and below 2^62, in increasing order. */
  ghost predicate Moduli(ms: seq<Limb>) {
    && (forall j :: 0 <= j < |ms| ==> Modulus(ms[j]))
    && forall j, k :: 0 <= j < k < |ms| ==> ms[j] < ms[k]
  }

  /** v divided by the first j moduli, one after the other. */
  function Rest(v: nat, ms: seq<Limb>, j: nat): nat
    requires j <= |ms| && Moduli(ms)
  {
    if j == 0 then v else
    DivMod(Rest(v, ms, j - 1), ms[j - 1]);
    Rest(v, ms, j - 1) / ms[j - 1]
  }

  lemma {:induction false} RestStep(v: nat, ms: seq<Limb>, j: nat)
    requires j < |ms| && Moduli(ms)
    ensures Rest(v, ms, j) == Rest(v, ms, j + 1) * ms[j] + Rest(v, ms, j) % ms[j]
    ensures 0 <= Rest(v, ms, j) % ms[j] < ms[j]
  {
    DivMod(Rest(v, ms, j), ms[j]);
  }

  /** A number below the product of the moduli leaves a rest below the product of the others. */
  lemma {:induction false} RestBound(v: nat, ms: seq<Limb>, j: nat)
    requires j <= |ms| && Moduli(ms) && v < Product(ms)
    ensures Rest(v, ms, j) < Product(ms[j..])
  {
    if j == 0 {
      assert ms[0..] == ms;
    } else {
      RestBound(v, ms, j - 1);
      RestStep(v, ms, j - 1);
      assert ms[j - 1..][1..] == ms[j..];
      var r, p, m := Rest(v, ms, j), Product(ms[j..]), ms[j - 1];
      assert Product(ms[j - 1..]) == m * p;
      if r >= p {
        MulLe(p, r, m);
        assert false;
      }
    }
  }

  // ----- Chinese remainders -----

  /** ntt_mods_cr: for every pair of moduli the inverse of the first modulo the second. */
  const NTT_MODS_CR: seq<Limb> :=
    [0x08a9ed097b425eea, 0x18a44aaaaaaaaab3, 0x2493f57f57f57f5d, 0x126b8d0649a7f8d4,
     0x09d80ed7303b5ccc, 0x25b8bcf3cf3cf3d5, 0x2ce6ce63398ce638,
     0x0e31fad40a57eb59, 0x02a3529fd4a7f52f,
     0x3a5493e93e93e94a]

  /** Where the pair j < k is in the table. */
  function PairIndex(j: nat, k: nat): (l: nat)
    requires j < k < NB_MODS
    ensures l < 10
  {
    (if j == 0 then 0 else if j == 1 then 4 else if j == 2 then 7 else 9) + (k - j - 1)
  }

  /** The inverse of the first modulus of a pair modulo the second, prepared. */
  ghost predicate PairEntry(cr: seq<Prepared>, j: nat, k: nat)
    requires j < k < NB_MODS && PairIndex(j, k) < |cr|
  {
    var p, m := cr[PairIndex(j, k)], NTT_MODS[k];
    m > 0 && Ready(p, m) && Cong(p.value * NTT_MODS[j], 1, m)
  }

  ghost predicate PairTable(cr: seq<Prepared>) {
    |cr| == 10 && forall j, k :: 0 <= j < k < NB_MODS ==> PairEntry(cr, j, k)
  }

  /** The table for the Chinese remainders, prepared. */
  method InitPairs() returns (cr: seq<Prepared>)
    ensures PairTable(cr)
  {
    hide Cong, InitMulModFast2;
    cr := [];
    var l := 0;
    for j := 0 to NB_MODS - 1
      invariant l == |cr| == (if j < NB_MODS - 1 then PairIndex(j, j + 1) else 10)
      invariant forall i, k :: 0 <= i < j && i < k < NB_MODS ==> PairIndex(i, k) < |cr| && PairEntry(cr, i, k)
    {
      for k := j + 1 to NB_MODS
        invariant l == |cr| == (if k < NB_MODS then PairIndex(j, k)
                                else if j + 2 < NB_MODS then PairIndex(j + 1, j + 2) else 10)
        invariant forall i, i' :: 0 <= i < j && i < i' < NB_MODS ==> PairIndex(i, i') < |cr| && PairEntry(cr, i, i')
        invariant forall i :: j < i < k ==> PairIndex(j, i) < |cr| && PairEntry(cr, j, i)
      {
        InversePair(j, k);
        cr := cr + [Prepare(NTT_MODS_CR[l], NTT_MODS[k])];
        l := l + 1;
      }
    }
    forall j, k | 0 <= j < k < NB_MODS
      ensures PairEntry(cr, j, k)
    {
      assert PairEntry(cr, j, k);
    }
  }

  lemma {:induction false} InversePair(j: nat, k: nat)
    requires j < k < NB_MODS
    ensures NTT_MODS_CR[PairIndex(j, k)] < NTT_MODS[k]
    ensures Cong((NTT_MODS_CR[PairIndex(j, k)] as int) * NTT_MODS[j], 1, NTT_MODS[k])
  {
    hide Cong, PairIndex;
    if j == 0 {
      FirstPairs(k);
    } else {
      LaterPairs(j, k);
    }
  }

  lemma {:induction false} FirstPairs(k: nat)
    requires 0 < k < NB_MODS
    ensures NTT_MODS_CR[PairIndex(0, k)] < NTT_MODS[k]
    ensures Cong((NTT_MODS_CR[PairIndex(0, k)] as int) * NTT_MODS[0], 1, NTT_MODS[k])
  {
    hide Cong;
    if k == 1 {
      PairProduct(0, 1);
    } else if k == 2 {
      PairProduct(0, 2);
    } else if k == 3 {
      PairProduct(0, 3);
    } else {
      PairProduct(0, 4);
    }
  }

  lemma {:induction false} LaterPairs(j: nat, k: nat)
    requires 0 < j < k < NB_MODS
    ensures NTT_MODS_CR[PairIndex(j, k)] < NTT_MODS[k]
    ensures Cong((NTT_MODS_CR[PairIndex(j, k)] as int) * NTT_MODS[j], 1, NTT_MODS[k])
  {
    hide Cong;
    if j == 1 {
      if k == 2 {
        PairProduct(1, 2);
      } else if k == 3 {
        PairProduct(1, 3);
      } else {
        PairProduct(1, 4);
      }
    } else if j == 2 {
      if k == 3 {
        PairProduct(2, 3);
      } else {
        PairProduct(2, 4);
      }
    } else {
      PairProduct(3, 4);
    }
  }

  lemma {:induction false} PairProduct(j: nat, k: nat)
    requires j < k < NB_MODS && NTT_MODS_CR[PairIndex(j, k)] < NTT_MODS[k]
    requires (NTT_MODS_CR[PairIndex(j, k)] as int) * NTT_MODS[j] % NTT_MODS[k] == 1
    ensures NTT_MODS_CR[PairIndex(j, k)] < NTT_MODS[k]
    ensures Cong((NTT_MODS_CR[PairIndex(j, k)] as int) * NTT_MODS[j], 1, NTT_MODS[k])
  {
    ProductIsOne(NTT_MODS_CR[PairIndex(j, k)], NTT_MODS[j], NTT_MODS[k]);
  }

  /** The moduli in use: the last ones of the table. */
  function Mods(first: nat): seq<Limb>
    requires first <= NB_MODS
  {
    NTT_MODS[first..]
  }

  lemma {:induction false} ModsOf(first: nat)
    requires first <= NB_MODS
    ensures |Mods(first)| == NB_MODS - first && Moduli(Mods(first))
    ensures forall j :: 0 <= j < NB_MODS - first ==> Mods(first)[j] == NTT_MODS[first + j]
  {
    TableModuli();
  }

  lemma {:induction false} TableModuli()
    ensures Moduli(NTT_MODS)
  {
  }

  // ----- from residues to mixed radix digits -----

  /** Entry i when the first j digits are split off and the (j + 1)-st only from the entries before k. */
  ghost predicate ReducedAt(y: seq<Limb>, v: nat, ms: seq<Limb>, j: nat, k: nat, i: nat)
    requires |y| == |ms| && Moduli(ms) && i < |ms| && j < |ms|
  {
    y[i] == (if i <= j then Rest(v, ms, i) else if i < k then Rest(v, ms, j + 1) else Rest(v, ms, j)) % ms[i]
  }

  ghost predicate Reduced(y: seq<Limb>, v: nat, ms: seq<Limb>, j: nat, k: nat)
    requires |y| == |ms| && Moduli(ms) && j < |ms|
  {
    forall i :: 0 <= i < |ms| ==> ReducedAt(y, v, ms, j, k, i)
  }

  /** Taking digit j off the residue modulo ms[k] and dividing by ms[j]. */
  lemma {:induction false} NextRemainder(v: nat, ms: seq<Limb>, j: nat, k: nat, yk: Limb, yj: Limb, c: Limb)
    requires Moduli(ms) && j < k < |ms|
    requires yk == Rest(v, ms, j) % ms[k] && yj == Rest(v, ms, j) % ms[j] && Cong(c * ms[j], 1, ms[k])
    ensures 0 <= yk as int - yj + ms[k] < B
    ensures (yk as int - yj + ms[k]) * c % ms[k] == Rest(v, ms, j + 1) % ms[k]
  {
    hide Cong, Rest;
    var r, q, m: int, mj: int := Rest(v, ms, j), Rest(v, ms, j + 1), ms[k], ms[j];
    RestStep(v, ms, j);
    assert ms[j] < ms[k];
    DivMod(r, m);
    CongMod(r, m);
    CongSelf(yj, m);
    CongAdd(yk, r, yj, yj, m);
    var d := yk as int - yj + m;
    CongFrom(d, yk as int - yj, m, 1);
    CongTrans(d, yk as int - yj, q * mj, m);
    CongSelf(c, m);
    CongMul(d, q * mj, c, c, m);
    CongSelf(q, m);
    CongMul(q, q, c * mj, 1, m);
    assert q * (c * mj) == q * mj * c by {
      Assoc(q, mj, c);
      assert mj * c == c * mj;
    }
    CongTrans(d * c, q * mj * c, q, m);
    CongMod(d * c, m);
    CongMod(q, m);
    CongTrans(d * c % m, d * c, q, m);
    CongSym(q % m, q, m);
    CongTrans(d * c % m, q, q % m, m);
    CongUnique(d * c % m, q % m, m);
  }

  lemma {:induction false} ReducedStep(y: seq<Limb>, v: nat, ms: seq<Limb>, j: nat, k: nat, x: Limb)
    requires |y| == |ms| && Moduli(ms) && j < k < |ms| && Reduced(y, v, ms, j, k)
    requires x == Rest(v, ms, j + 1) % ms[k]
    ensures Reduced(y[k := x], v, ms, j, k + 1)
  {
    hide Rest;
    var y', next := y[k := x], k + 1;
    forall i | 0 <= i < |ms|
      ensures ReducedAt(y', v, ms, j, next, i)
    {
      assert ReducedAt(y, v, ms, j, k, i);
    }
  }

  lemma {:induction false} ReducedNext(y: seq<Limb>, v: nat, ms: seq<Limb>, j: nat)
    requires |y| == |ms| && Moduli(ms) && j + 1 < |ms| && Reduced(y, v, ms, j, |ms|)
    ensures Reduced(y, v, ms, j + 1, j + 2)
  {
    hide Rest;
    var j', k' := j + 1, j + 2;
    forall i | 0 <= i < |ms|
      ensures ReducedAt(y, v, ms, j', k', i)
    {
      assert ReducedAt(y, v, ms, j, |ms|, i);
    }
  }

  /** The place of the pair after (j, k). */
  lemma {:induction false} NextPair(j: nat, k: nat)
    requires j < k < NB_MODS
    ensures PairIndex(j, k) + 1 ==
            if k + 1 < NB_MODS then PairIndex(j, k + 1) else if j + 2 < NB_MODS then PairIndex(j + 1, j + 2) else 10
  {
  }

  /** Digit j taken off the residue modulo prime k. */
  method ReduceOne(y0: seq<Limb>, first: nat, cr: seq<Prepared>, j: nat, k: nat, l: nat, ghost v: nat)
      returns (y: seq<Limb>)
    requires first <= 2 && |y0| == |Mods(first)| == NB_MODS - first && Moduli(Mods(first)) && PairTable(cr)
    requires j < k < |y0| && Reduced(y0, v, Mods(first), j, k) && l == PairIndex(first + j, first + k)
    ensures |y| == |y0| && Reduced(y, v, Mods(first), j, k + 1)
  {
    ModsOf(first);
    ghost var ms := Mods(first);
    hide Rest, Reduced, Mods, Modulus, PairTable, PairIndex, InitMulModFast2, Shifted;
    var m := NTT_MODS[first + k];
    PairRemainder(y0, v, ms, first, cr, j, k);
    var x := MulModFast2(Shifted(y0[k], y0[j], m), cr[l].value, m, cr[l].inv);
    ReducedStep(y0, v, ms, j, k, x);
    y := y0[k := x];
  }

  /** Digit j taken off all later residues. */
  method ReduceRow(y0: seq<Limb>, first: nat, cr: seq<Prepared>, j: nat, l0: nat, ghost v: nat)
      returns (y: seq<Limb>, l: nat)
    requires first <= 2 && |y0| == |Mods(first)| == NB_MODS - first && Moduli(Mods(first)) && PairTable(cr)
    requires j + 1 < |y0| && Reduced(y0, v, Mods(first), j, j + 1) && l0 == PairIndex(first + j, first + j + 1)
    ensures |y| == |y0| && Reduced(y, v, Mods(first), j, |y|)
    ensures l == if j + 2 < |y| then PairIndex(first + j + 1, first + j + 2) else 10
  {
    ModsOf(first);
    ghost var ms := Mods(first);
    var nb := NB_MODS - first;
    hide Rest, Reduced, Mods, Modulus, PairTable, PairIndex;
    y, l := y0, l0;
    for k := j + 1 to nb
      invariant |y| == nb && Reduced(y, v, ms, j, k)
      invariant l == if k < nb then PairIndex(first + j, first + k)
                     else if j + 2 < nb then PairIndex(first + j + 1, first + j + 2) else 10
    {
      y := ReduceOne(y, first, cr, j, k, l, v);
      NextPair(first + j, first + k);
      l := l + 1;
    }
  }

  /** The double loop of the Chinese remainders. */
  method MixedDigits(y0: seq<Limb>, first: nat, cr: seq<Prepared>, ghost v: nat) returns (y: seq<Limb>)
    requires first <= 2 && |y0| == |Mods(first)| == NB_MODS - first && Moduli(Mods(first)) && PairTable(cr)
    requires forall j :: 0 <= j < |y0| ==> y0[j] == v % Mods(first)[j]
    ensures |y| == |y0|
    ensures forall j :: 0 <= j < |y| ==> y[j] == Rest(v, Mods(first), j) % Mods(first)[j]
  {
    ghost var ms := Mods(first);
    var nb := NB_MODS - first;
    y := y0;
    var l := 10 - nb * (nb - 1) / 2;
    hide Rest, Reduced, Mods, Modulus, PairTable;
    ReducedStart(y, v, ms);
    for j := 0 to nb - 1
      invariant |y| == nb && Reduced(y, v, ms, j, j + 1)
      invariant l == if j + 1 < nb then PairIndex(first + j, first + j + 1) else 10
    {
      y, l := ReduceRow(y, first, cr, j, l, v);
      ReducedNext(y, v, ms, j);
    }
    ReducedEnd(y, v, ms);
  }

  lemma {:induction false} ReducedStart(y: seq<Limb>, v: nat, ms: seq<Limb>)
    requires |y| == |ms| && Moduli(ms) && |ms| > 0 && forall j :: 0 <= j < |y| ==> y[j] == v % ms[j]
    ensures Reduced(y, v, ms, 0, 1)
  {
  }

  lemma {:induction false} ReducedEnd(y: seq<Limb>, v: nat, ms: seq<Limb>)
    requires |y| == |ms| && Moduli(ms) && |ms| > 0 && Reduced(y, v, ms, |ms| - 1, |ms|)
    ensures forall j :: 0 <= j < |y| ==> y[j] == Rest(v, ms, j) % ms[j]
  {
    forall j | 0 <= j < |y|
      ensures y[j] == Rest(v, ms, j) % ms[j]
    {
      assert ReducedAt(y, v, ms, |ms| - 1, |ms|, j);
    }
  }

  /** y - z + m, every step wrapping. */
  function Shifted(y: Limb, z: Limb, m: Limb): (d: Limb)
  {
    ((y - z) % B + m) % B
  }

  lemma {:induction false} ShiftedIs(y: Limb, z: Limb, m: Limb, d: int)
    requires d == y as int - z + m && 0 <= d < B
    ensures Shifted(y, z, m) == d
  {
  }

  lemma {:induction false} PairRemainder(y: seq<Limb>, v: nat, ms: seq<Limb>, first: nat, cr: seq<Prepared>, j: nat,
                                         k: nat)
    requires first + k < NB_MODS && j < k < |ms| == |y| == NB_MODS - first && Moduli(ms) && Reduced(y, v, ms, j, k)
    requires forall i :: 0 <= i < |ms| ==> ms[i] == NTT_MODS[first + i]
    requires PairTable(cr)
    ensures var p, m := cr[PairIndex(first + j, first + k)], NTT_MODS[first + k];
            && p.value < m <= MOD_MAX && p.inv == InitMulModFast2(p.value, m)
            && Shifted(y[k], y[j], m) * p.value % m == Rest(v, ms, j + 1) % ms[k]
  {
    hide Rest, Cong;
    assert PairEntry(cr, first + j, first + k);
    assert ReducedAt(y, v, ms, j, k, j) && ReducedAt(y, v, ms, j, k, k);
    NextRemainder(v, ms, j, k, y[k], y[j], cr[PairIndex(first + j, first + k)].value);
    ShiftedIs(y[k], y[j], NTT_MODS[first + k], y[k] as int - y[j] + ms[k]);
  }

  // ----- from mixed radix digits to limbs -----

  lemma {:induction false} TopDigit(v: nat, ms: seq<Limb>)
    requires Moduli(ms) && |ms| > 0 && v < Product(ms)
    ensures Rest(v, ms, |ms| - 1) % ms[|ms| - 1] == Rest(v, ms, |ms| - 1)
  {
    var n := |ms| - 1;
    RestBound(v, ms, n);
    assert ms[n..] == [ms[n]] && [ms[n]][1..] == [];
    assert Product(ms[n..]) == ms[n] * Product([]);
    DivModUnique(Rest(v, ms, n), ms[n], 0, Rest(v, ms, n));
  }

  /** u * m + d, one limb longer. */
  method TimesDigit(u: array<Limb>, l: nat, m: Limb, d: Limb)
    requires l < u.Length
    modifies u
    ensures Val(u[..l + 1]) == old(Val(u[..l])) * m + d
  {
    hide Val, Pow;
    assert u[0..l] == u[..l];
    var r := MpMul1(u, 0, u, 0, l, m, d);
    ghost var low := u[..l];
    assert u[0..0 + l] == low;
    u[l] := r;
    assert u[..l + 1] == low + [r];
    ValSnoc(low, r);
  }

  /** The digits but the lowest: a product by a word and a sum for each. */
  method HighDigits(y: seq<Limb>, first: nat, u: array<Limb>, ghost v: nat)
    requires first <= 2 && |y| == NB_MODS - first == |Mods(first)| && Moduli(Mods(first)) && u.Length == NB_MODS
    requires v < Product(Mods(first))
    requires forall j :: 0 <= j < |y| ==> y[j] == Rest(v, Mods(first), j) % Mods(first)[j]
    modifies u
    ensures Val(u[..|y| - 1]) == Rest(v, Mods(first), 1)
  {
    var ms := Mods(first);
    var nb := NB_MODS - first;
    hide Val, Pow, Rest, Mods, Modulus, Product;
    TopDigit(v, ms);
    u[0] := y[nb - 1];
    ValOne(u[0]);
    assert u[..1] == [u[0]];
    var l, j := 1, nb - 2;
    while j >= 1
      invariant 0 <= j <= nb - 2 && l == nb - 1 - j
      invariant Val(u[..l]) == Rest(v, ms, j + 1)
    {
      TimesDigit(u, l, ms[j], y[j]);
      RestStep(v, ms, j);
      l, j := l + 1, j - 1;
    }
  }

  /** One step of the last product: word k of u * m + r + carry. */
  lemma {:induction false} CarryStep(s: seq<Limb>, c: seq<Limb>, done: seq<Limb>, k: nat, m: int, r: int, y0: int,
                                     w: Limb, r': Limb)
    requires k < |s| && k < |c| && |done| == k
    requires Val(done) + Pow(k) * r == Val(s[..k]) * m + y0 + Val(c[..k])
    requires w + B * r' == s[k] * m + r + c[k]
    ensures Val(done + [w]) + Pow(k + 1) * r' == Val(s[..k + 1]) * m + y0 + Val(c[..k + 1])
  {
    hide *;
    DigitStep(done, r, Val(s[..k]) * m + y0 + Val(c[..k]), s[k] * m + c[k], w, r');
    ProductStep(s, k, m);
    Extend(c, k);
    Distrib(s[k] * m, c[k], Pow(k));
  }

  /** The lowest digit together with the carry from the digits before. */
  method LowestDigit(u: array<Limb>, l: nat, m: Limb, y0: Limb, carry: array<Limb>)
    requires u != carry && l < u.Length && l < carry.Length
    requires Val(u[..l]) * m + y0 + Val(carry[..l + 1]) < Pow(l + 1)
    modifies u
    ensures Val(u[..l + 1]) == old(Val(u[..l])) * m + y0 + Val(carry[..l + 1])
  {
    hide Val, Pow, MulAddWord;
    ghost var s, c := u[..l], carry[..l + 1];
    var r: Limb := y0;
    NoLimbs(r);
    assert u[..0] == [] && s[..0] == [] && c[..0] == [];
    for k := 0 to l
      invariant u[k..l] == s[k..]
      invariant Val(u[..k]) + Pow(k) * r == Val(s[..k]) * m + y0 + Val(c[..k])
    {
      assert u[k] == s[k] && carry[k] == c[k];
      var (w, r') := MulAddWord(u[k], m, r, carry[k]);
      ghost var done := u[..k];
      CarryStep(s, c, done, k, m, r, y0, w, r');
      u[k] := w;
      r := r';
      assert u[..k + 1] == done + [w];
    }
    assert s[..l] == s && c[..l + 1] == c;
    ghost var done := u[..l];
    Extend(c, l);
    LastCarry(done, r, c[l], Val(s) * m + y0 + Val(c[..l]), Val(c), Val(s) * m + y0);
    u[l] := (r + carry[l]) % B;
    assert u[..l + 1] == done + [u[l]];
  }

  /** The last word takes the high word and the last carry without overflow. */
  lemma {:induction false} LastCarry(done: seq<Limb>, r: Limb, c: Limb, sum: int, vc: int, rest: int)
    requires Val(done) + Pow(|done|) * r == sum
    requires sum + Pow(|done|) * c == rest + vc < Pow(|done| + 1)
    ensures Val(done + [(r + c) % B]) == rest + vc
  {
    hide Val, Pow;
    var p := Pow(|done|);
    PowStep(|done|);
    Distrib(r, c, p);
    if r + c >= B {
      MulLe(B, r + c, p);
      assert false;
    }
    ValSnoc(done, r + c);
  }

  /** Back to limbs: the number with these mixed radix digits, plus the carry. */
  method ToLimbs(y: seq<Limb>, first: nat, u: array<Limb>, carry: array<Limb>, ghost v: nat)
    requires first <= 2 && |y| == NB_MODS - first == |Mods(first)| && Moduli(Mods(first))
    requires u != carry && u.Length == carry.Length == NB_MODS && v < Product(Mods(first))
    requires v + Val(carry[..NB_MODS - first]) < Pow(NB_MODS - first)
    requires forall j :: 0 <= j < |y| ==> y[j] == Rest(v, Mods(first), j) % Mods(first)[j]
    modifies u
    ensures Val(u[..NB_MODS - first]) == v + Val(carry[..NB_MODS - first])
  {
    var ms := Mods(first);
    var nb := NB_MODS - first;
    RestStep(v, ms, 0);
    assert Rest(v, ms, 0) == v;
    hide Val, Pow, Rest, Mods, Modulus, Product;
    HighDigits(y, first, u, v);
    LowestDigit(u, nb - 1, ms[0], y[0], carry);
  }
}
