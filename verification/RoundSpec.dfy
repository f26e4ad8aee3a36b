/** Rounding of exact magnitudes to multiples of a unit, in every direction of IEEE 754-2008
    (section 4.3), and the sticky bit that lets a truncated magnitude stand for the exact one. */
module RoundSpec {
  import opened Arith

  datatype RndMode = RNDN | RNDZ | RNDD | RNDU | RNDNA | RNDA | RNDF

  /** A magnitude known up to an integer grid: q itself or, with more set, something strictly
      between q and q + 1. */
  datatype Exact = Exact(q: nat, more: bool)

  /** Comparisons of the magnitude with an integer. */
  predicate Below(x: Exact, h: int) { x.q < h }
  predicate Is(x: Exact, h: int) { x.q == h && !x.more }
  predicate Above(x: Exact, h: int) { x.q > h || (x.q == h && x.more) }

  /** A unit on whose halves the magnitude can be compared. */
  predicate UnitFor(x: Exact, u: int) {
    (u == 1 && !x.more) || (u >= 2 && u % 2 == 0)
  }

  /** x rounded to a multiple of u; neg says whether the number is negative. */
  function RoundTo(mode: RndMode, neg: bool, x: Exact, u: nat): (r: int)
    requires UnitFor(x, u)
  {
    Choose(mode, neg, x, x.q / u % 2 == 1, x.q / u * u, u)
  }

  /** The choice between lo and lo + u; odd says whether lo is an odd multiple of u. */
  function Choose(mode: RndMode, neg: bool, x: Exact, odd: bool, lo: int, u: nat): int {
    if Is(x, lo) then lo
    else if Up(mode, neg, x, odd, lo + u / 2) then lo + u
    else lo
  }

  /** Whether an inexact x is rounded away from zero; mid is the midpoint of its neighbours. */
  predicate Up(mode: RndMode, neg: bool, x: Exact, odd: bool, mid: int) {
    match mode
    case RNDZ => false
    case RNDD => neg
    case RNDU => !neg
    case RNDA => true
    case RNDN => Above(x, mid) || (Is(x, mid) && odd)
    case RNDNA => !Below(x, mid)
    case RNDF => !Below(x, mid)
  }

  // ----- what rounding means -----

  /** Towards zero is the largest multiple not above x, away from zero the smallest not below. */
  lemma {:induction false} RoundDirected(x: Exact, u: nat, n: int, neg: bool)
    requires UnitFor(x, u)
    ensures var z := RoundTo(RNDZ, neg, x, u); z % u == 0 && !Below(x, z) && (!Below(x, n * u) ==> n * u <= z)
    ensures var a := RoundTo(RNDA, neg, x, u); a % u == 0 && !Above(x, a) && (!Above(x, n * u) ==> n * u >= a)
    ensures RoundTo(RNDD, neg, x, u) == RoundTo(if neg then RNDA else RNDZ, neg, x, u)
    ensures RoundTo(RNDU, neg, x, u) == RoundTo(if neg then RNDZ else RNDA, neg, x, u)
  {
    var k := x.q / u;
    Cut(x.q, u, k);
    Multiples(k, u);
    if n <= k {
      MulLe(n, k, u);
    } else {
      MulLe(k + 1, n, u);
      Distrib(k, 1, u);
    }
  }

  lemma {:induction false} Cut(q: int, u: int, k: int)
    requires u >= 1 && k == q / u
    ensures k * u <= q < k * u + u
  {
    DivMod(q, u);
  }

  lemma {:induction false} Multiples(k: int, u: int)
    requires u >= 1
    ensures k * u % u == 0 && (k * u + u) % u == 0
  {
    DivModUnique(k * u, u, k, 0);
    Distrib(k, 1, u);
    DivModUnique(k * u + u, u, k + 1, 0);
  }

  /** In every mode, faithful rounding included, the result is one of the two neighbouring
      multiples of the unit, and x itself when x is a multiple. */
  lemma {:induction false} RoundNeighbour(mode: RndMode, neg: bool, x: Exact, u: nat)
    requires UnitFor(x, u)
    ensures var z, a, r := RoundTo(RNDZ, neg, x, u), RoundTo(RNDA, neg, x, u), RoundTo(mode, neg, x, u);
            && (r == z || r == a) && r % u == 0
            && (if Is(x, z) then a == z else a == z + u && Above(x, z) && Below(x, a))
  {
    var k := x.q / u;
    Cut(x.q, u, k);
    Multiples(k, u);
  }

  /** h is not nearer to x than r is: x lies on r's side of the midpoint. */
  predicate NoFarther(x: Exact, r: int, h: int) {
    (r < h ==> !Above(x, (r + h) / 2)) && (r > h ==> !Below(x, (r + h) / 2))
  }

  /** To nearest: no multiple of the unit is nearer, and of two equally near ones the even multiple
      is taken, or the one away from zero. */
  lemma {:induction false} RoundNearest(mode: RndMode, neg: bool, x: Exact, u: nat, n: int)
    requires UnitFor(x, u) && u >= 2 && (mode == RNDN || mode == RNDNA)
    ensures var r := RoundTo(mode, neg, x, u);
            r % u == 0 && NoFarther(x, r, n * u)
            && (Is(x, (r + n * u) / 2) && n * u != r ==> if mode == RNDN then r / u % 2 == 0 else n * u < r)
  {
    var k := x.q / u;
    var lo, m := k * u, n * u;
    Cut(x.q, u, k);
    Multiples(k, u);
    Distrib(k, 1, u);
    DivModUnique(lo, u, k, 0);
    DivModUnique(lo + u, u, k + 1, 0);
    Apart(n, k, u, m, lo);
    NearestCore(mode, neg, x, k % 2 == 1, lo, u, m);
  }

  lemma {:induction false} Apart(n: int, k: int, u: int, m: int, lo: int)
    requires u >= 2 && u % 2 == 0 && m == n * u && lo == k * u
    ensures m <= lo - u || m == lo || m == lo + u || m >= lo + 2 * u
    ensures (m - lo) % 2 == 0
  {
    Distrib(n, k, u);
    var h := u / 2;
    Assoc(2, h, n - k);
    DivModUnique(m - lo, 2, h * (n - k), 0);
    if n < k {
      MulLe(n, k - 1, u);
      Distrib(k, 1, u);
    } else if n > k + 1 {
      MulLe(k + 2, n, u);
      Distrib(k, 2, u);
    } else if n == k + 1 {
      Distrib(k, 1, u);
    }
  }

  lemma {:induction false} NearestCore(mode: RndMode, neg: bool, x: Exact, odd: bool, lo: int, u: nat, m: int)
    requires lo <= x.q < lo + u && u >= 2 && u % 2 == 0 && (mode == RNDN || mode == RNDNA)
    requires m <= lo - u || m == lo || m == lo + u || m >= lo + 2 * u
    requires (m - lo) % 2 == 0
    ensures var r := Choose(mode, neg, x, odd, lo, u);
            NoFarther(x, r, m)
            && (Is(x, (r + m) / 2) && m != r ==> if mode == RNDN then (r == lo) == !odd else m < r)
  {
  }

  /** A multiple of the unit is not changed. */
  lemma {:induction false} RoundExact(mode: RndMode, neg: bool, x: Exact, u: nat, k: nat)
    requires UnitFor(x, u) && Is(x, k * u)
    ensures RoundTo(mode, neg, x, u) == k * u
  {
    DivModUnique(k * u, u, k, 0);
  }

  /** The rounding is exact only when x is a multiple of the unit. */
  lemma {:induction false} RoundChanges(mode: RndMode, neg: bool, x: Exact, u: nat)
    requires UnitFor(x, u)
    ensures Is(x, RoundTo(mode, neg, x, u)) <==> !x.more && x.q % u == 0
  {
    var k := x.q / u;
    Cut(x.q, u, k);
    DivMod(x.q, u);
    hide Up;
  }

  // ----- the sticky bit -----

  /** The low bit set when something was cut off. */
  function Sticky(x: Exact): nat {
    if x.more && x.q % 2 == 0 then x.q + 1 else x.q
  }

  lemma {:induction false} StickyCompares(x: Exact, h: int)
    requires h % 2 == 0
    ensures Below(x, h) <==> Below(Exact(Sticky(x), false), h)
    ensures Is(x, h) <==> Is(Exact(Sticky(x), false), h)
  {
  }

  /** With two bits to spare, rounding the truncated magnitude with its sticky bit is rounding the
      exact one, in every direction. */
  lemma {:induction false} StickyRounds(mode: RndMode, neg: bool, x: Exact, u: nat)
    requires u >= 4 && u % 4 == 0
    ensures RoundTo(mode, neg, Exact(Sticky(x), false), u) == RoundTo(mode, neg, x, u)
    ensures Sticky(x) % u == 0 <==> !x.more && x.q % u == 0
  {
    var t := Exact(Sticky(x), false);
    var k := x.q / u;
    var lo := k * u;
    Cut(x.q, u, k);
    EvenMultiple(k, u);
    StickyCompares(x, lo + u);
    DivModUnique(t.q, u, k, t.q - lo);
    DivModUnique(x.q, u, k, x.q - lo);
    StickyCore(mode, neg, x, k % 2 == 1, lo, u);
    StickyCompares(x, lo);
    hide Sticky;
    hide Choose;
  }

  lemma {:induction false} StickyCore(mode: RndMode, neg: bool, x: Exact, odd: bool, lo: int, u: nat)
    requires lo % 2 == 0 && u / 2 % 2 == 0
    ensures Choose(mode, neg, Exact(Sticky(x), false), odd, lo, u) == Choose(mode, neg, x, odd, lo, u)
  {
    var mid := lo + u / 2;
    assert mid % 2 == 0;
    StickyCompares(x, lo);
    StickyCompares(x, mid);
  }

  lemma {:induction false} EvenMultiple(k: int, u: int)
    requires u % 4 == 0
    ensures k * u % 2 == 0 && u / 2 % 2 == 0 && u % 2 == 0
  {
    var w := u / 4;
    Assoc(4, w, k);
    DivModUnique(k * u, 2, 2 * (w * k), 0);
  }
}
