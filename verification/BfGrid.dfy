/** The outcome of rounding does not depend on the grid on which the exact value is written down. */
module BfGrid {
  import opened Arith
  import opened Limbs
  import opened LimbMul
  import opened Bits
  import opened RoundSpec
  import opened BfRound
  import opened BfNormalize

  /** A number on a finer grid, cut to the coarser one. */
  ghost predicate CutTo(big: nat, x: Exact, c: nat) {
    c >= 1 && x.q * c <= big < x.q * c + c && (x.more <==> big != x.q * c)
  }

  lemma {:induction false} CutCompares(big: nat, x: Exact, c: nat, h: int)
    requires CutTo(big, x, c)
    ensures Below(Exact(big, false), h * c) <==> Below(x, h)
    ensures Is(Exact(big, false), h * c) <==> Is(x, h)
  {
    if x.q < h {
      MulLe(x.q + 1, h, c);
      Distrib(x.q, 1, c);
    } else if x.q > h {
      MulLe(h + 1, x.q, c);
      Distrib(h, 1, c);
    }
  }

  lemma {:induction false} CutChoice(mode: RndMode, neg: bool, big: nat, x: Exact, c: nat, odd: bool, lo: int, u: nat,
          lo': int, u': nat, h': int)
    requires CutTo(big, x, c) && u >= 2 && u % 2 == 0
    requires lo' == lo * c && u' == u * c && h' == (u / 2) * c && u' == 2 * h'
    ensures Choose(mode, neg, Exact(big, false), odd, lo', u') == Choose(mode, neg, x, odd, lo, u) * c
  {
    var h := u / 2;
    Distrib(lo, h, c);
    Distrib(lo, u, c);
    CutCompares(big, x, c, lo);
    CutCompares(big, x, c, lo + h);
    hide CutTo;
  }

  lemma {:induction false} CutRound(mode: RndMode, neg: bool, big: nat, x: Exact, u: nat, c: nat)
    requires CutTo(big, x, c) && u >= 2 && u % 2 == 0
    ensures UnitFor(Exact(big, false), u * c)
    ensures RoundTo(mode, neg, Exact(big, false), u * c) == RoundTo(mode, neg, x, u) * c
  {
    var k, h := x.q / u, u / 2;
    DivMod(x.q, u);
    Assoc(2, h, c);
    var r := x.q % u;
    Distrib(k * u, r, c);
    Assoc(k, u, c);
    MulLe(r + 1, u, c);
    Distrib(r, 1, c);
    MulNonneg(r, c);
    MulLe(1, c, u);
    DivModUnique(big, u * c, k, big - k * (u * c));
    DivModUnique(u * c, 2, h * c, 0);
    CutChoice(mode, neg, big, x, c, k % 2 == 1, k * u, u, k * u * c, u * c, h * c);
  }

  lemma {:induction false} CutRounds(mode: RndMode, neg: bool, big: nat, x: Exact, k: nat, prec: int, s: nat)
    requires CutTo(big, x, Pow2(s)) && (x.more ==> prec < k)
    ensures UnitFor(x, Unit(k, prec)) && UnitFor(Exact(big, false), Unit(k + s, prec))
    ensures var r := RoundTo(mode, neg, x, Unit(k, prec));
            RoundTo(mode, neg, Exact(big, false), Unit(k + s, prec)) == r * Pow2(s)
            && (Is(x, r) <==> Is(Exact(big, false), r * Pow2(s)))
  {
    hide Pow2;
    hide RoundTo;
    hide Unit;
    var c := Pow2(s);
    UnitEvenOrOne(big, k + s, prec);
    if prec < k {
      ScaledUnit(k, prec, s);
      CutRound(mode, neg, big, x, Unit(k, prec), c);
      CutCompares(big, x, c, RoundTo(mode, neg, x, Unit(k, prec)));
    } else {
      assert big == x.q * c;
      UnitAbove(k, prec);
      RoundsScaled(mode, neg, x.q, k, prec, s);
    }
  }

  /** What holds for the value cut to a coarse grid holds for the exact value. */
  lemma {:induction false} OutcomeOnGrid(f: BfFlags, prec1: nat, neg: bool, big: nat, x: Exact, k: nat, e: int,
          s: nat, r: BfNum)
    requires CutTo(big, x, Pow2(s)) && (x.more ==> EffPrec(f, prec1, e) < k)
    requires UnitFor(x, Unit(k, EffPrec(f, prec1, e)))
    requires Holds(r, neg, RoundNumber(f, prec1, neg, x, k, e), f, prec1)
    ensures UnitFor(Exact(big, false), Unit(k + s, EffPrec(f, prec1, e)))
    ensures Holds(r, neg, RoundNumber(f, prec1, neg, Exact(big, false), k + s, e), f, prec1)
    ensures RoundStatus(f, prec1, neg, Exact(big, false), k + s, e) == RoundStatus(f, prec1, neg, x, k, e)
  {
    hide Pow2;
    hide RoundTo;
    hide Unit;
    hide EffPrec;
    hide EMin;
    hide EMax;
    hide Normalized;
    hide SameValue;
    hide LargestFinite;
    hide CutTo;
    var p, c := EffPrec(f, prec1, e), Pow2(s);
    CutRounds(f.rnd, neg, big, x, k, p, s);
    var rd := RoundTo(f.rnd, neg, x, Unit(k, p));
    Pow2Add(k, s);
    ScaledCompare(rd, Pow2(k), c);
    ScaledCompare(rd, 0, c);
    match RoundNumber(f, prec1, neg, x, k, e)
    case Finite(_, _, e2) => SameUp(Val(r.tab[..]), e2 - 64 * r.tab.Length, rd, e - k, s);
    case _ =>
  }

  /** Cutting shortens a number by as many bits as are cut. */
  lemma {:induction false} CutLength(big: nat, x: Exact, s: nat)
    requires CutTo(big, x, Pow2(s)) && x.q >= 1
    ensures BitLen(big) == BitLen(x.q) + s && big > 0
  {
    hide Pow2;
    hide BitLen;
    var k, c := BitLen(x.q), Pow2(s);
    BitLenBounds(x.q);
    Pow2Add(k, s);
    Pow2Add(k - 1, s);
    MulLe(Pow2(k - 1), x.q, c);
    MulLe(x.q + 1, Pow2(k), c);
    Distrib(x.q, 1, c);
    assert k - 1 + s == k + s - 1;
    BitLenIs(big, k + s);
  }
}
