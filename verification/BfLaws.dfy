/** What rounding means in numbers: the grid a result lies on, the range it stays in, the flags, and
    which way an overflow goes. Nothing here is stated through the functions that the rounding
    methods compute with. */
module RoundLaws {
  import opened Arith
  import opened Limbs
  import opened LimbMul
  import opened Bits
  import opened RoundSpec
  import opened BfRound

  /** m * 2^x is below 2^t. */
  predicate LessThanPower(m: nat, x: int, t: int) {
    if x >= t then m == 0 else m < Pow2(t - x)
  }

  /** m * 2^x is at most n * 2^y. */
  predicate AtMost(m: nat, x: int, n: nat, y: int) {
    if x >= y then m * Pow2(x - y) <= n else m <= n * Pow2(y - x)
  }

  /** The weight of the last place kept, as a power of two: counted from the radix point or from the
      leading bit, but with gradual underflow never below the last place of the least normal number,
      whose exponent is 3 - 2^(expBits - 1). */
  function LastPlace(f: BfFlags, prec1: nat, e: int): int
    requires f.expBits >= 1
  {
    var least: int := 3 - Pow2(f.expBits - 1);
    if f.radpnt && prec1 != 0x3fff_ffff_ffff_ffff then -(prec1 as int)
    else if f.radpnt || !f.subnormal || e >= least then e - prec1
    else least - prec1
  }

  /** The last place in units of the last bit of the mantissa; 1 when it lies below the mantissa. */
  function PlaceUnit(s: int): (u: nat)
    ensures u >= 1
  {
    if s > 0 then Pow2(s) else 1
  }

  /** A mantissa x of k bits with its leading bit set, and an exponent e that it may have. */
  ghost predicate Mantissa(f: BfFlags, prec1: nat, x: Exact, k: nat, e: int) {
    && f.expBits >= 3 && k >= 1 && Pow2(k - 1) <= x.q < Pow2(k)
    && (prec1 >= 1 || e < Pow2(f.expBits - 1))
    && UnitFor(x, Unit(k, EffPrec(f, prec1, e)))
  }

  lemma {:induction false} UnitOfPlace(f: BfFlags, prec1: nat, k: nat, e: int)
    requires f.expBits >= 1
    ensures Unit(k, EffPrec(f, prec1, e)) == PlaceUnit(LastPlace(f, prec1, e) - (e - k))
    ensures EffPrec(f, prec1, e) == e - LastPlace(f, prec1, e)
  {
    hide Pow2;
  }

  lemma {:induction false} PowerLess(j: nat, x: int, t: int)
    ensures LessThanPower(Pow2(j), x, t) <==> x + j < t
  {
    hide Pow2;
    if x < t {
      if t - x <= j {
        Pow2Mono(t - x, j);
      } else {
        Pow2Even(t - x);
        Pow2Mono(j, t - x - 1);
      }
    }
  }

  /** A number of k bits lies between the powers of two that its exponent names. */
  lemma {:induction false} NumberLess(r: nat, k: nat, e: int, t: int)
    requires k >= 1 && Pow2(k - 1) <= r <= Pow2(k)
    ensures LessThanPower(r, e - k, t) <==> (if r == Pow2(k) then e + 1 else e) <= t
  {
    hide Pow2;
    var x := e - k;
    if r == Pow2(k) {
      PowerLess(k, x, t);
    } else if x < t {
      if t - x >= k {
        Pow2Mono(k, t - x);
      } else {
        Pow2Mono(t - x, k - 1);
      }
    }
  }

  /** With bits kept, rounding stays within the powers of two around the mantissa. */
  lemma {:induction false} RoundedKept(mode: RndMode, neg: bool, x: Exact, k: nat, p: int)
    requires k >= 1 && Pow2(k - 1) <= x.q < Pow2(k) && p > 0 && UnitFor(x, Unit(k, p))
    ensures Pow2(k - 1) <= RoundTo(mode, neg, x, Unit(k, p)) <= Pow2(k)
  {
    hide Pow2, RoundTo;
    var u := Unit(k, p);
    var lo, hi := Pow2(k - 1), Pow2(k);
    if p < k {
      Pow2Add(p - 1, k - p);
      Pow2Add(p, k - p);
      RoundDirected(x, u, Pow2(p - 1), neg);
      RoundDirected(x, u, Pow2(p), neg);
    } else {
      RoundDirected(x, u, lo, neg);
      RoundDirected(x, u, hi, neg);
    }
    RoundNeighbour(mode, neg, x, u);
  }

  /** With no bit kept, the result is nothing or one unit. */
  lemma {:induction false} RoundedAway(mode: RndMode, neg: bool, x: Exact, k: nat, p: int)
    requires k >= 1 && x.q < Pow2(k) && p <= 0 && UnitFor(x, Unit(k, p))
    ensures var r := RoundTo(mode, neg, x, Unit(k, p)); r == 0 || r == Pow2(k - p)
  {
    hide Pow2, Up;
    Pow2Mono(k, k - p);
    DivModUnique(x.q, Pow2(k - p), 0, x.q);
    NoMultiple(Pow2(k - p));
  }

  lemma {:induction false} NoMultiple(u: int)
    ensures 0 * u == 0
  {
  }

  /** The outcome in numbers: the magnitude rounded at the last place; zero only when nothing is left
      of it or, without gradual underflow, when it is below every normal number; too large exactly
      from 2^2^(expBits - 1) on; otherwise the rounded magnitude itself with the exponent it has. */
  lemma {:induction false} OutcomeInNumbers(f: BfFlags, prec1: nat, neg: bool, x: Exact, k: nat, e: int)
    requires Mantissa(f, prec1, x, k, e)
    ensures var most: int := Pow2(f.expBits - 1);
            var least: int := 3 - most;
            var g := LastPlace(f, prec1, e);
            var u := PlaceUnit(g - (e - k));
            UnitFor(x, u) &&
            var r := RoundTo(f.rnd, neg, x, u);
            r >= 0 &&
            match RoundNumber(f, prec1, neg, x, k, e)
            case Zero => r == 0 || (!f.subnormal && g < e && LessThanPower(r, e - k, least - 1))
            case Huge => !LessThanPower(r, e - k, most)
            case Finite(m, y, ex) =>
              && m == r > 0 && y == e - k
              && LessThanPower(r, e - k, ex) && !LessThanPower(r, e - k, ex - 1)
              && ex <= most && (ex >= least || f.subnormal || g >= e)
  {
    UnitOfPlace(f, prec1, k, e);
    Pow2Mono(2, f.expBits - 1);
    PowTwoSmall();
    hide Pow2, RoundTo, LessThanPower, UnitFor;
    var most: int := Pow2(f.expBits - 1);
    var least: int := 3 - most;
    var p := EffPrec(f, prec1, e);
    var u := Unit(k, p);
    if p > 0 {
      RoundedKept(f.rnd, neg, x, k, p);
      var r := RoundTo(f.rnd, neg, x, u);
      var ex := if r == Pow2(k) then e + 1 else e;
      NumberLess(r, k, e, least - 1);
      NumberLess(r, k, e, most);
      NumberLess(r, k, e, ex);
      NumberLess(r, k, e, ex - 1);
    } else {
      RoundedAway(f.rnd, neg, x, k, p);
      PowerLess(k - p, e - k, e + 1 - p);
      PowerLess(k - p, e - k, e - p);
    }
  }

  /** The flags in numbers: inexact exactly when the exact value is not the one stored (faithful
      rounding always says so), overflow exactly when the result is too large, underflow exactly when
      no bit is kept or the result is below every normal number, and inexact if underflow is gradual. */
  lemma {:induction false} StatusInNumbers(f: BfFlags, prec1: nat, neg: bool, x: Exact, k: nat, e: int)
    requires Mantissa(f, prec1, x, k, e)
    ensures var least: int := 3 - Pow2(f.expBits - 1);
            var g := LastPlace(f, prec1, e);
            var u := PlaceUnit(g - (e - k));
            UnitFor(x, u) &&
            var r := RoundTo(f.rnd, neg, x, u);
            var o := RoundNumber(f, prec1, neg, x, k, e);
            var st := RoundStatus(f, prec1, neg, x, k, e);
            && r >= 0
            && (st.inexact <==> f.rnd == RNDF || !o.Finite? || !Is(x, o.m))
            && (st.overflow <==> o.Huge?)
            && (st.underflow <==> g >= e || (LessThanPower(r, e - k, least - 1) && (f.subnormal ==> st.inexact)))
  {
    OutcomeInNumbers(f, prec1, neg, x, k, e);
    UnitOfPlace(f, prec1, k, e);
    ExpRange(f);
    hide Pow2, RoundTo, LessThanPower, UnitFor, Unit, PlaceUnit, LastPlace, EffPrec;
    var least: int := 3 - Pow2(f.expBits - 1);
    var p := EffPrec(f, prec1, e);
    var r := RoundTo(f.rnd, neg, x, Unit(k, p));
    if p > 0 {
      RoundedKept(f.rnd, neg, x, k, p);
      NumberLess(r, k, e, least - 1);
    } else {
      RoundedAway(f.rnd, neg, x, k, p);
      Pow2Mono(k, k - p);
    }
  }

  lemma {:induction false} WithinUnit(mode: RndMode, neg: bool, x: Exact, u: nat)
    requires UnitFor(x, u)
    ensures var r := RoundTo(mode, neg, x, u);
            && r % u == 0 && Above(x, r - u) && Below(x, r + u)
            && (u == 1 ==> r == x.q && !x.more)
  {
    RoundNeighbour(mode, neg, x, u);
    hide RoundTo;
  }

  /** Gradual underflow: below the normal numbers every result is a multiple of one fixed power of
      two, whatever the exponent, and nearer to the exact value than one such unit. */
  lemma {:induction false} GradualUnderflow(f: BfFlags, prec1: nat, neg: bool, x: Exact, k: nat, e: int)
    requires Mantissa(f, prec1, x, k, e) && f.subnormal && !f.radpnt && e < 3 - Pow2(f.expBits - 1)
    ensures var least: int := 3 - Pow2(f.expBits - 1);
            var u := PlaceUnit(least - prec1 - (e - k));
            match RoundNumber(f, prec1, neg, x, k, e)
            case Zero => u > 1 && Below(x, u)
            case Huge => false
            case Finite(m, y, ex) =>
              && y == e - k && m % u == 0 && Above(x, m - u) && Below(x, m + u)
              && (u == 1 ==> Is(x, m))
  {
    OutcomeInNumbers(f, prec1, neg, x, k, e);
    UnitOfPlace(f, prec1, k, e);
    ExpRange(f);
    WithinUnit(f.rnd, neg, x, Unit(k, EffPrec(f, prec1, e)));
    hide Pow2, RoundTo, UnitFor, PlaceUnit, EffPrec, LessThanPower, RoundNumber;
  }

  /** Underflow is then signalled exactly when the result is inexact and still below the normal
      numbers. */
  lemma {:induction false} GradualUnderflowFlag(f: BfFlags, prec1: nat, neg: bool, x: Exact, k: nat, e: int)
    requires Mantissa(f, prec1, x, k, e) && f.subnormal && !f.radpnt && e < 3 - Pow2(f.expBits - 1) && prec1 >= 2
    ensures var least: int := 3 - Pow2(f.expBits - 1);
            var st := RoundStatus(f, prec1, neg, x, k, e);
            match RoundNumber(f, prec1, neg, x, k, e)
            case Zero => st == Status(true, true, false)
            case Huge => false
            case Finite(m, y, ex) =>
              && (st.inexact <==> f.rnd == RNDF || !Is(x, m)) && !st.overflow
              && (st.underflow <==> st.inexact && LessThanPower(m, y, least - 1))
  {
    OutcomeInNumbers(f, prec1, neg, x, k, e);
    StatusInNumbers(f, prec1, neg, x, k, e);
    UnitOfPlace(f, prec1, k, e);
    GradualUnderflow(f, prec1, neg, x, k, e);
    var p := EffPrec(f, prec1, e);
    var least: int := 3 - Pow2(f.expBits - 1);
    NothingLess(e - k, least - 1);
    if p <= 0 {
      RoundedAway(f.rnd, neg, x, k, p);
      Pow2Mono(k, k - p);
      PowerLess(k - p, e - k, least - 1);
    }
    hide Pow2, RoundTo, UnitFor, Unit, PlaceUnit, EffPrec, LessThanPower, RoundNumber, RoundStatus;
  }

  lemma {:induction false} NothingLess(x: int, t: int)
    ensures LessThanPower(0, x, t)
  {
  }

  // ----- what is stored -----

  ghost predicate Infinite(r: BfNum)
    reads r
  {
    r.tab.Length == 0 && r.expn == 0x7fff_ffff_ffff_fffe
  }

  /** The stored magnitude is finite and at most n * 2^y. */
  ghost predicate StoredAtMost(r: BfNum, n: nat, y: int)
    reads r, r.tab
  {
    !Infinite(r) && AtMost(Val(r.tab[..]), r.expn - 64 * r.tab.Length, n, y)
  }

  /** The stored magnitude is infinite or at least n * 2^y. */
  ghost predicate StoredAtLeast(r: BfNum, n: nat, y: int)
    reads r, r.tab
  {
    Infinite(r) || AtMost(n, y, Val(r.tab[..]), r.expn - 64 * r.tab.Length)
  }

  lemma {:induction false} SameAtMost(v: nat, w: int, m: nat, y: int, n: nat)
    requires SameValue(v, w, m, y)
    ensures m <= n ==> AtMost(v, w, n, y)
    ensures n <= m ==> AtMost(n, y, v, w)
  {
    OnePow2(0);
    hide Pow2;
    if w < y {
      if m <= n {
        MulLe(m, n, Pow2(y - w));
      } else {
        MulLe(n, m, Pow2(y - w));
      }
    }
  }

  lemma {:induction false} ZeroAtMost(x: int, n: nat, y: int)
    ensures AtMost(0, x, n, y)
  {
    if x < y {
      MulNonneg(n, Pow2(y - x));
    }
  }

  /** On both sides of a power of two. */
  lemma {:induction false} AcrossPower(m: nat, x: int, n: nat, y: int, t: int)
    requires LessThanPower(m, x, t) && !LessThanPower(n, y, t)
    ensures AtMost(m, x, n, y)
  {
    ZeroAtMost(x, n, y);
    OnePow2(0);
    hide Pow2;
    if x < t && y >= t {
      Pow2Mono(t - x, y - x);
      MulLe(1, n, Pow2(y - x));
    } else if x < t && x >= y {
      Pow2Add(t - x, x - y);
      MulLe(m, Pow2(t - x), Pow2(x - y));
    } else if x < t {
      Pow2Add(t - y, y - x);
      MulLe(Pow2(t - y), n, Pow2(y - x));
    }
  }

  lemma {:induction false} LargestArith(v: nat, c: nat, d: nat, p: nat)
    requires v == (c - 1) * d && p == c * d
    ensures v + d == p
  {
    Distrib(c, 1, d);
  }

  /** What an overflow stores: infinity, or 0.11...1 with prec1 ones and the largest exponent; to
      nearest, away from zero and without a limit on the precision it is infinity, towards zero and
      in faithful rounding it is the finite number. */
  lemma {:induction false} OverflowStored(r: BfNum, neg: bool, f: BfFlags, prec1: nat)
    requires Holds(r, neg, Huge, f, prec1) && prec1 >= 1 && f.expBits >= 1
    ensures r.sign == neg
    ensures Infinite(r) || (r.expn == Pow2(f.expBits - 1) && 64 * r.tab.Length >= prec1
                            && Val(r.tab[..]) + Pow2(64 * r.tab.Length - prec1) == Pow2(64 * r.tab.Length))
    ensures prec1 == 0x3fff_ffff_ffff_ffff || f.rnd == RNDN || f.rnd == RNDNA || f.rnd == RNDA ==> Infinite(r)
    ensures prec1 != 0x3fff_ffff_ffff_ffff && (f.rnd == RNDZ || f.rnd == RNDF) ==> !Infinite(r)
  {
    hide Val, Pow2;
    if !Infinite(r) {
      var n := 64 * r.tab.Length;
      Pow2Add(prec1, n - prec1);
      LargestArith(Val(r.tab[..]), Pow2(prec1), Pow2(n - prec1), Pow2(n));
    }
  }

  /** In the directed modes an overflow is infinite exactly if that mode takes an inexact magnitude
      of this sign away from zero. */
  lemma {:induction false} OverflowDirection(r: BfNum, neg: bool, f: BfFlags, prec1: nat, x: Exact, u: nat)
    requires Holds(r, neg, Huge, f, prec1) && prec1 >= 1 && prec1 != 0x3fff_ffff_ffff_ffff
    requires f.rnd == RNDZ || f.rnd == RNDD || f.rnd == RNDU || f.rnd == RNDA
    requires UnitFor(x, u) && !Is(x, RoundTo(RNDZ, neg, x, u))
    ensures Infinite(r) <==> RoundTo(f.rnd, neg, x, u) == RoundTo(RNDA, neg, x, u)
  {
    hide Val, Pow2;
  }

  lemma {:induction false} StoredFinite(r: BfNum, neg: bool, f: BfFlags, prec1: nat, m: nat, y: int, ex: int, n: nat)
    requires Holds(r, neg, Finite(m, y, ex), f, prec1)
    ensures m <= n ==> StoredAtMost(r, n, y)
    ensures n <= m ==> StoredAtLeast(r, n, y)
  {
    hide Val, Pow2, AtMost, SameValue;
    SameAtMost(Val(r.tab[..]), r.expn - 64 * r.tab.Length, m, y, n);
  }

  lemma {:induction false} StoredZero(r: BfNum, neg: bool, f: BfFlags, prec1: nat, n: nat, y: int)
    requires Holds(r, neg, Zero, f, prec1)
    ensures r.tab.Length == 0 && r.expn == -0x8000_0000_0000_0000 && StoredAtMost(r, n, y)
  {
    ZeroAtMost(r.expn, n, y);
    hide AtMost;
  }

  lemma {:induction false} StoredHuge(r: BfNum, neg: bool, f: BfFlags, prec1: nat, n: nat, y: int)
    requires Holds(r, neg, Huge, f, prec1) && prec1 >= 1 && f.expBits >= 1
    requires !LessThanPower(n, y, Pow2(f.expBits - 1))
    ensures Infinite(r) || StoredAtMost(r, n, y)
  {
    OverflowStored(r, neg, f, prec1);
    hide Val, Pow2, AtMost, Holds;
    if !Infinite(r) {
      AcrossPower(Val(r.tab[..]), r.expn - 64 * r.tab.Length, n, y, Pow2(f.expBits - 1));
    }
  }

  lemma {:induction false} LessDown(m: nat, n: nat, x: int, t: int)
    requires m <= n
    ensures LessThanPower(n, x, t) ==> LessThanPower(m, x, t)
  {
    hide Pow2;
  }

  /** The magnitude, or the next integer above it. */
  function Ceiling(x: Exact): nat {
    if x.more then x.q + 1 else x.q
  }

  lemma {:induction false} DirectedSide(mode: RndMode, neg: bool, x: Exact, u: nat)
    requires UnitFor(x, u)
    ensures mode == RNDZ || mode == (if neg then RNDU else RNDD) ==> RoundTo(mode, neg, x, u) <= x.q
    ensures mode == RNDA || mode == (if neg then RNDD else RNDU) ==> RoundTo(mode, neg, x, u) >= Ceiling(x)
  {
    RoundDirected(x, u, 0, neg);
    hide RoundTo;
  }

  /** What is stored lies on the side of the exact value that the direction asks for: never beyond it
      when rounding towards zero, never short of it when rounding away, infinity included. The one
      exception is a number flushed to zero because it is below the normal ones. */
  lemma {:induction false} StoredDirected(r: BfNum, f: BfFlags, prec1: nat, neg: bool, x: Exact, k: nat, e: int)
    requires Mantissa(f, prec1, x, k, e) && prec1 >= 1
    requires Holds(r, neg, RoundNumber(f, prec1, neg, x, k, e), f, prec1)
    ensures r.sign == neg
    ensures prec1 != 0x3fff_ffff_ffff_ffff && (f.rnd == RNDZ || f.rnd == (if neg then RNDU else RNDD)) ==>
              StoredAtMost(r, x.q, e - k)
    ensures f.rnd == RNDA || f.rnd == (if neg then RNDD else RNDU) ==>
              || StoredAtLeast(r, Ceiling(x), e - k)
              || (r.tab.Length == 0 && r.expn == -0x8000_0000_0000_0000 && !f.subnormal
                  && LessThanPower(Ceiling(x), e - k, 2 - Pow2(f.expBits - 1)))
  {
    OutcomeInNumbers(f, prec1, neg, x, k, e);
    UnitOfPlace(f, prec1, k, e);
    hide Pow2, RoundTo, UnitFor, Unit, PlaceUnit, EffPrec, LastPlace, LessThanPower, AtMost, Normalized, SameValue, Val;
    var u := Unit(k, EffPrec(f, prec1, e));
    DirectedSide(f.rnd, neg, x, u);
    var m: nat := RoundTo(f.rnd, neg, x, u);
    match RoundNumber(f, prec1, neg, x, k, e)
    case Zero =>
      StoredZero(r, neg, f, prec1, x.q, e - k);
      if Ceiling(x) <= m {
        LessDown(Ceiling(x), m, e - k, 2 - Pow2(f.expBits - 1));
      }
    case Huge =>
      if m <= x.q {
        LessDown(m, x.q, e - k, Pow2(f.expBits - 1));
        StoredHuge(r, neg, f, prec1, x.q, e - k);
      }
    case Finite(_, y, ex) =>
      StoredFinite(r, neg, f, prec1, m, y, ex, x.q);
      StoredFinite(r, neg, f, prec1, m, y, ex, Ceiling(x));
  }

  /** The exponent of a finite result is never one of the two that mark zero and infinity. */
  lemma {:induction false} ExponentsApart(f: BfFlags, prec1: nat, neg: bool, x: Exact, k: nat, e: int)
    requires Mantissa(f, prec1, x, k, e) && f.expBits <= 62 && e > -0x8000_0000_0000_0000
    ensures match RoundNumber(f, prec1, neg, x, k, e)
            case Finite(_, _, ex) => -0x8000_0000_0000_0000 < ex < 0x7fff_ffff_ffff_fffe
            case _ => true
  {
    OutcomeInNumbers(f, prec1, neg, x, k, e);
    HalfIsPow2();
    Pow2Even(63);
    hide Pow2, RoundTo, UnitFor, Unit, EffPrec, LastPlace, LessThanPower;
    Pow2Mono(f.expBits - 1, 62);
  }
}
