/** Correctness of the compiler: the code of a pattern, wherever it is placed, takes the machine
    through the pattern's matches in order, and back to the saved states below when they run out. */
module ReCorrect {
  import opened ReOpcode
  import opened RePattern
  import opened ReCode
  import opened ReMachine
  import opened ReSimple
  import opened RePlaced
  import opened ReLoops
  import opened ReAdvance
  import opened RePieces
  import opened ReQuant

  // ----- quantifiers -----

  /** Straight-line code saves no captures. */
  lemma {:induction false} SimpleNoCaptures(m: Ctx, p: Pattern, back: bool, cc: nat)
    requires Shaped(p) && SimpleCount(Code(m.flags, p, back, cc)) >= 0
    ensures CapCount(p) == 0
  {
    hide SimpleCount;
    hide QuantCode;
    hide CharCode;
    hide Length;
    var code := Code(m.flags, p, back, cc);
    match p
    case Concat(a, b) =>
      var ca, cb := Code(m.flags, a, back, cc), Code(m.flags, b, back, cc + CapCount(a));
      SimpleAppend(ca, cb);
      SimpleAppend(cb, ca);
      SimpleNoCaptures(m, a, back, cc);
      SimpleNoCaptures(m, b, back, cc + CapCount(a));
    case Alt(_, _) => NotSimple(code);
    case Group(b) => SimpleNoCaptures(m, b, back, cc);
    case Capture(_) => NotSimple(code);
    case Look(_, _, _) => NotSimple(code);
    case Quant(a, min, max, greedy) =>
      QuantSimple(Code(m.flags, a, back, cc), cc, cc + CapCount(a), min, max, greedy);
      if max > 0 {
        SimpleNoCaptures(m, a, back, cc);
      }
    case _ =>
  }

  lemma {:induction false} AdvanceBit(code: seq<Instr>)
    ensures Advance(code) == 0 || Advance(code) == 1
  {
    if |code| > 0 {
      AdvanceBit(code[1..]);
    }
  }

  /** An unbounded loop without the check has an atom that always moves. */
  lemma {:induction false} UncheckedMoves(m: Ctx, a: Pattern, back: bool, cc: nat, min: nat, max: nat, greedy: bool)
    requires Shaped(a) && min <= max && WellFormed(m, Quant(a, min, max, greedy), back, cc)
    requires max == INFINITE && !(greedy && Advance(Code(m.flags, a, back, cc)) == 0)
    ensures Moves(m, a, back, cc)
  {
    hide Code;
    hide Advance;
    hide Moves;
    hide MinWidth;
    AdvanceBit(Code(m.flags, a, back, cc));
    if greedy {
      AdvanceMoves(m, a, back, cc);
    } else {
      WideMoves(m, a, back, cc);
    }
  }

  /** The captures that a skipped atom would have set are forgotten. */
  function Forget(a: Pattern, cc: nat, min: nat, x: St): St {
    if min == 0 && CapCount(a) > 0 then x.(caps := ResetCaps(x.caps, cc, cc + CapCount(a) - 1)) else x
  }

  lemma {:induction false} QuantEndsAre(m: Ctx, a: Pattern, back: bool, cc: nat, min: nat, max: nat, greedy: bool,
          x: St)
    requires min <= max
    ensures Ends(m, Quant(a, min, max, greedy), back, cc, x)
         == QuantFrom(m, a, back, cc, min, max, greedy, Forget(a, cc, min, x))
  {
    hide Exactly;
    hide More;
    hide FlatMap;
    hide ResetCaps;
  }

  lemma {:induction false} QuantAt(m: Machine, a: Pattern, back: bool, cc: nat, min: nat, max: nat, greedy: bool,
          pc: int, x: St, stack: seq<int>, saved: seq<Saved>)
    requires Shaped(a) && min <= max && Sound(m.ctx, Quant(a, min, max, greedy), back, cc) && Fits(m.ctx, x)
    requires Everywhere(m, a, back, cc)
    requires Room(m, pc, QuantCode(Code(m.ctx.flags, a, back, cc), cc, cc + CapCount(a), min, max, greedy), |stack|)
    ensures Explores(m, Here(x, pc, stack, saved), Ends(m.ctx, Quant(a, min, max, greedy), back, cc, x),
                     pc + Length(QuantCode(Code(m.ctx.flags, a, back, cc), cc, cc + CapCount(a), min, max,
                     greedy)), stack, saved)
  {
    hide *;
    var atom := Code(m.ctx.flags, a, back, cc);
    SoundQuant(m.ctx, a, back, cc, min, max, greedy);
    QuantEndsAre(m.ctx, a, back, cc, min, max, greedy, x);
    MakeQuantifiable(m, a, back, cc);
    if greedy && max > 0 && SimpleCount(atom) > 0 {
      SimpleAt(m, a, back, cc, min, max, pc, x, stack, saved);
    } else {
      var check := greedy && Advance(atom) == 0;
      QuantCodeIs(atom, cc, cc + CapCount(a), min, max, greedy, check);
      if max == INFINITE && !check {
        UncheckedMoves(m.ctx, a, back, cc, min, max, greedy);
      }
      if min == 0 {
        ForgetThenOptional(m, a, back, cc, max, greedy, check, pc, x, stack, saved);
      } else {
        Remember(m.ctx, a, back, cc, min, max, greedy, x);
        if min == 1 && max == INFINITE && !check {
          PlusCodeExplores(m, pc, a, back, cc, max, greedy, x, stack, saved);
        } else {
          FirstThenMore(m, pc, a, back, cc, min, max, greedy, check, x, stack, saved,
                        FirstCode(atom, min) + MoreCode(atom, min, max, greedy, check));
        }
      }
    }
  }

  lemma {:induction false} SoundQuant(m: Ctx, a: Pattern, back: bool, cc: nat, min: nat, max: nat, greedy: bool)
    requires Shaped(a) && min <= max && Sound(m, Quant(a, min, max, greedy), back, cc)
    ensures WellFormed(m, Quant(a, min, max, greedy), back, cc) && Sound(m, a, back, cc)
    ensures Shaped(Quant(a, min, max, greedy))
    ensures WellFormed(m, a, back, cc) && GoodCtx(m) && max <= INFINITE
    ensures cc + CapCount(a) <= m.captureCount <= 255
  {
    hide Code;
    hide Advance;
  }

  lemma {:induction false} MakeQuantifiable(m: Machine, a: Pattern, back: bool, cc: nat)
    requires Shaped(a) && Everywhere(m, a, back, cc)
    ensures Quantifiable(m, a, back, cc)
  {
    hide Everywhere;
    hide Code;
    hide NetDepth;
    CodeBalanced(m.ctx.flags, a, back, cc);
  }

  lemma {:induction false} Remember(m: Ctx, a: Pattern, back: bool, cc: nat, min: nat, max: nat, greedy: bool, x: St)
    requires 0 < min <= max
    ensures QuantFrom(m, a, back, cc, min, max, greedy, Forget(a, cc, min, x))
         == FlatMap(Exactly(m, a, back, cc, min, x), More(m, a, back, cc, min, max, greedy))
  {
    hide FlatMap;
    hide Exactly;
    hide More;
  }

  /** The fast path for straight-line atoms, which exist only forwards. */
  lemma {:induction false} SimpleAt(m: Machine, a: Pattern, back: bool, cc: nat, min: nat, max: nat, pc: int, x: St,
          stack: seq<int>, saved: seq<Saved>)
    requires Shaped(a) && 0 < max <= INFINITE && min <= max && Fits(m.ctx, x)
    requires WellFormed(m.ctx, a, back, cc) && GoodCtx(m.ctx)
    requires SimpleCount(Code(m.ctx.flags, a, back, cc)) > 0
    requires Room(m, pc, QuantCode(Code(m.ctx.flags, a, back, cc), cc, cc + CapCount(a), min, max, true), |stack|)
    ensures Explores(m, Here(x, pc, stack, saved), QuantFrom(m.ctx, a, back, cc, min, max, true, Forget(a, cc, min, x)),
                     pc + Length(QuantCode(Code(m.ctx.flags, a, back, cc), cc, cc + CapCount(a), min, max,
                     true)), stack, saved)
  {
    hide SimpleCount;
    hide Code;
    hide WellFormed;
    hide GoodCtx;
    hide MaxDepth;
    hide AtCode;
    hide Explores;
    hide Length;
    hide FlatMap;
    hide Exactly;
    hide More;
    hide Fits;
    hide SimpleCode;
    if back {
      BackwardNotSimple(m.ctx, a, cc);
      assert false;
    } else {
      SimpleNoCaptures(m.ctx, a, back, cc);
      SimpleQuantExplores(m, a, cc, min, max, pc, x, stack, saved);
    }
  }

  lemma {:induction false} ForgetThenOptional(m: Machine, a: Pattern, back: bool, cc: nat, max: nat, greedy: bool,
          check: bool, pc: int, x: St, stack: seq<int>, saved: seq<Saved>)
    requires Shaped(a) && Quantifiable(m, a, back, cc) && Fits(m.ctx, x) && max <= INFINITE
    requires cc + CapCount(a) <= m.ctx.captureCount <= 255
    requires max == INFINITE ==> if check then greedy else Moves(m.ctx, a, back, cc)
    requires var reset := if cc != cc + CapCount(a) then [SaveReset(cc, cc + CapCount(a) - 1)] else [];
             Room(m, pc, reset + OptionalCode(Code(m.ctx.flags, a, back, cc), max, greedy, check), |stack|)
    ensures var reset := if cc != cc + CapCount(a) then [SaveReset(cc, cc + CapCount(a) - 1)] else [];
            Explores(m, Here(x, pc, stack, saved), QuantFrom(m.ctx, a, back, cc, 0, max, greedy, Forget(a, cc, 0, x)),
                     pc + Length(reset + OptionalCode(Code(m.ctx.flags, a, back, cc), max, greedy,
                     check)), stack, saved)
  {
    hide *;
    var rest := OptionalCode(Code(m.ctx.flags, a, back, cc), max, greedy, check);
    var n := CapCount(a);
    if n == 0 {
      assert [] + rest == rest;
      ForgetNothing(a, cc, x);
      OptionalExplores(m, pc, a, back, cc, max, greedy, check, x, stack, saved);
    } else {
      var i := SaveReset(cc, cc + n - 1);
      var x0 := Forget(a, cc, 0, x);
      ResetLayout(m, pc, cc, cc + n - 1, rest, |stack|);
      ForgetReaches(m, a, cc, n, pc, x, stack, saved);
      OptionalExplores(m, pc + 3, a, back, cc, max, greedy, check, x0, stack, saved);
      ExploresPrepend(m, Here(x, pc, stack, saved), Here(x0, pc + 3, stack, saved),
                      QuantFrom(m.ctx, a, back, cc, 0, max, greedy, x0), pc + 3 + Length(rest), stack, saved);
    }
  }

  lemma {:induction false} ForgetNothing(a: Pattern, cc: nat, x: St)
    requires CapCount(a) == 0
    ensures Forget(a, cc, 0, x) == x
  {
  }

  lemma {:induction false} ResetLayout(m: Machine, pc: int, lo: int, hi: int, rest: seq<Instr>, depth: nat)
    requires Room(m, pc, [SaveReset(lo, hi)] + rest, depth)
    ensures AtCode(m, pc, [SaveReset(lo, hi)]) && Room(m, pc + 3, rest, depth)
    ensures Length([SaveReset(lo, hi)] + rest) == 3 + Length(rest)
  {
    hide Length;
    hide NetDepth;
    hide Room;
    var i := SaveReset(lo, hi);
    LengthOne(i);
    NoCode();
    assert [i] + rest == [] + [i] + rest;
    RoomParts(m, pc, [], [i], rest, [i] + rest, depth, depth, depth);
    RoomCode(m, pc, [i], depth);
  }

  lemma {:induction false} RoomCode(m: Machine, pc: int, code: seq<Instr>, depth: nat)
    requires Room(m, pc, code, depth)
    ensures AtCode(m, pc, code)
  {
    hide AtCode;
  }

  lemma {:induction false} ForgetReaches(m: Machine, a: Pattern, cc: nat, n: nat, pc: int, x: St, stack: seq<int>,
          saved: seq<Saved>)
    requires n == CapCount(a) > 0 && cc + n <= m.ctx.captureCount <= 255 && Fits(m.ctx, x)
    requires AtCode(m, pc, [SaveReset(cc, cc + n - 1)])
    ensures var x0 := Forget(a, cc, 0, x);
            Fits(m.ctx, x0) && Reaches(m, Here(x, pc, stack, saved), Here(x0, pc + 3, stack, saved))
  {
    hide AtCode;
    hide Reaches;
    hide ResetCaps;
    ResetReaches(m, pc, cc, cc + n - 1, x, stack, saved);
  }

  // ----- every pattern -----

  lemma {:induction false} SoundParts(m: Ctx, p: Pattern, back: bool, cc: nat)
    requires Shaped(p) && Sound(m, p, back, cc)
    ensures WellFormed(m, p, back, cc) && GoodCtx(m) && m.captureCount <= 255
    ensures p.Concat? ==> Sound(m, p.first, back, cc) && Sound(m, p.rest, back, cc + CapCount(p.first))
    ensures p.Alt? ==> Sound(m, p.left, back, cc) && Sound(m, p.right, back, cc + CapCount(p.left))
    ensures p.Group? ==> Sound(m, p.body, back, cc)
    ensures p.Capture? ==> cc < m.captureCount && Sound(m, p.body, back, cc + 1)
    ensures p.Look? ==> Sound(m, p.body, p.backward, cc)
    ensures p.Quant? ==> Sound(m, p.atom, back, cc)
  {
    hide Code;
    hide Advance;
  }

  lemma {:induction false} EverywhereIntro(m: Machine, p: Pattern, back: bool, cc: nat, pc: int, depth: nat)
    requires Shaped(p)
    requires forall x, stack, saved :: Fits(m.ctx, x) && |stack| == depth ==>
               WorksAt(m, p, back, cc, pc, x, stack, saved)
    ensures Works(m, p, back, cc, pc, depth)
  {
  }

  lemma {:induction false} ConcatWorks(m: Machine, a: Pattern, b: Pattern, back: bool, cc: nat, pc: int, x: St,
          stack: seq<int>, saved: seq<Saved>)
    requires Shaped(a) && Shaped(b) && Fits(m.ctx, x)
    requires Everywhere(m, a, back, cc) && Everywhere(m, b, back, cc + CapCount(a))
    requires Room(m, pc, Code(m.ctx.flags, Concat(a, b), back, cc), |stack|)
    ensures WorksAt(m, Concat(a, b), back, cc, pc, x, stack, saved)
  {
    hide Everywhere;
    hide Room;
    hide Explores;
    hide Length;
    hide NetDepth;
    hide Works;
    hide Fits;
    hide FlatMap;
    hide Code;
    hide Ends;
    hide CapCount;
    hide Then;
    var (p1, c1, p2, c2) := if back then (b, cc + CapCount(a), a, cc) else (a, cc, b, cc + CapCount(a));
    var code1, code2 := Code(m.ctx.flags, p1, back, c1), Code(m.ctx.flags, p2, back, c2);
    CodePairs(m.ctx.flags, a, b, back, cc);
    EndsConcat(m.ctx, a, b, back, cc, x);
    NoCode();
    CodeBalanced(m.ctx.flags, p1, back, c1);
    assert [] + code1 + code2 == code1 + code2;
    RoomParts(m, pc, [], code1, code2, [] + code1 + code2, |stack|, |stack|, |stack|);
    var mid, end := pc + Length(code1), pc + Length(code1) + Length(code2);
    WorksHere(m, p1, back, c1, pc, |stack|);
    WorksHere(m, p2, back, c2, mid, |stack|);
    ConcatAt(m, p1, c1, p2, c2, back, pc, mid, end, x, stack, saved);
  }

  lemma {:induction false} AltWorks(m: Machine, a: Pattern, b: Pattern, back: bool, cc: nat, pc: int, x: St,
          stack: seq<int>, saved: seq<Saved>)
    requires Shaped(a) && Shaped(b) && Fits(m.ctx, x)
    requires Everywhere(m, a, back, cc) && Everywhere(m, b, back, cc + CapCount(a))
    requires Room(m, pc, AltCode(Code(m.ctx.flags, a, back, cc), Code(m.ctx.flags, b, back, cc + CapCount(a))), |stack|)
    ensures Explores(m, Here(x, pc, stack, saved),
                     Ends(m.ctx, a, back, cc, x) + Ends(m.ctx, b, back, cc + CapCount(a), x),
                     pc + Length(AltCode(Code(m.ctx.flags, a, back, cc),
                     Code(m.ctx.flags, b, back, cc + CapCount(a)))), stack, saved)
  {
    hide *;
    var cb := cc + CapCount(a);
    var code1, code2 := Code(m.ctx.flags, a, back, cc), Code(m.ctx.flags, b, back, cb);
    var la, lb := Length(code1), Length(code2);
    CodeBalanced(m.ctx.flags, a, back, cc);
    AltLayout(m, pc, code1, code2, |stack|);
    WorksHere(m, a, back, cc, pc + 5, |stack|);
    WorksHere(m, b, back, cb, pc + 10 + la, |stack|);
    AltAt(m, a, b, back, cc, cb, pc, pc + 10 + la, pc + 10 + la + lb, la, lb, x, stack, saved);
  }

  lemma {:induction false} AltLayout(m: Machine, pc: int, a: seq<Instr>, b: seq<Instr>, depth: nat)
    requires Room(m, pc, AltCode(a, b), depth) && NetDepth(a) == 0
    ensures var la: int, lb: int := Length(a), Length(b);
            && AtCode(m, pc, [Split(false, la + 5)]) && AtCode(m, pc + 5 + la, [Goto(lb)])
            && Room(m, pc + 5, a, depth) && Room(m, pc + 10 + la, b, depth)
            && Length(AltCode(a, b)) == 10 + la + lb && 10 + la + lb <= INT32_MAX
  {
    hide Length;
    hide NetDepth;
    hide Room;
    hide AtCode;
    var la: int, lb: int := Length(a), Length(b);
    var s, g := Split(false, la + 5), Goto(lb);
    LengthOne(s);
    LengthOne(g);
    assert AltCode(a, b) == [s] + a + ([g] + b);
    RoomParts(m, pc, [s], a, [g] + b, AltCode(a, b), depth, depth, depth);
    NoCode();
    assert [g] + b == [] + [g] + b;
    RoomParts(m, pc + 5 + la, [], [g], b, [g] + b, depth, depth, depth);
    RoomCode(m, pc + 5 + la, [g], depth);
  }

  lemma {:induction false} CaptureWorks(m: Machine, b: Pattern, back: bool, cc: nat, pc: int, x: St, stack: seq<int>,
          saved: seq<Saved>)
    requires Shaped(b) && Fits(m.ctx, x) && cc < m.ctx.captureCount <= 255
    requires Everywhere(m, b, back, cc + 1)
    requires Room(m, pc, [Save(back, cc)] + Code(m.ctx.flags, b, back, cc + 1) + [Save(!back, cc)], |stack|)
    ensures var x' := SetCap(x, if back then 2 * cc + 1 else 2 * cc);
            Explores(m, Here(x, pc, stack, saved),
                     FlatMap(Ends(m.ctx, b, back, cc + 1, x'), Close(if back then 2 * cc else 2 * cc + 1)),
                     pc + Length([Save(back, cc)] + Code(m.ctx.flags, b, back,
                     cc + 1) + [Save(!back, cc)]), stack, saved)
  {
    hide *;
    var body := Code(m.ctx.flags, b, back, cc + 1);
    var code := [Save(back, cc)] + body + [Save(!back, cc)];
    CodeBalanced(m.ctx.flags, b, back, cc + 1);
    SaveLength(back, cc);
    SaveLength(!back, cc);
    RoomParts(m, pc, [Save(back, cc)], body, [Save(!back, cc)], code, |stack|, |stack|, |stack|);
    WorksHere(m, b, back, cc + 1, pc + 2, |stack|);
    RoomCode(m, pc + 2 + Length(body), [Save(!back, cc)], |stack|);
    CaptureAt(m, b, back, cc, pc, pc + 2 + Length(body), x, stack, saved);
  }

  lemma {:induction false} SaveLength(isEnd: bool, index: nat)
    ensures Length([Save(isEnd, index)]) == 2 && NetDepth([Save(isEnd, index)]) == 0
  {
    LengthOne(Save(isEnd, index));
  }

  lemma {:induction false} LookWorks(m: Machine, b: Pattern, negated: bool, backward: bool, cc: nat, pc: int, x: St,
          stack: seq<int>, saved: seq<Saved>)
    requires Shaped(b) && Fits(m.ctx, x) && Everywhere(m, b, backward, cc)
    requires Room(m, pc, LookCode(Code(m.ctx.flags, b, backward, cc), negated), |stack|)
    ensures Explores(m, Here(x, pc, stack, saved), Ahead(Ends(m.ctx, b, backward, cc, x), negated, x),
                     pc + Length(LookCode(Code(m.ctx.flags, b, backward, cc), negated)), stack, saved)
  {
    hide *;
    var body := Code(m.ctx.flags, b, backward, cc);
    CodeBalanced(m.ctx.flags, b, backward, cc);
    LookLayout(m, pc, body, negated, |stack|);
    WorksHere(m, b, backward, cc, pc + 5, |stack|);
    LookAt(m, b, negated, backward, cc, pc, Length(body), x, stack, saved);
  }

  lemma {:induction false} LookLayout(m: Machine, pc: int, body: seq<Instr>, negated: bool, depth: nat)
    requires Room(m, pc, LookCode(body, negated), depth) && NetDepth(body) == 0
    ensures var n := Length(body);
            && AtCode(m, pc, [Lookahead(negated, n + 1)]) && AtCode(m, pc + 5 + n, [Match])
            && Room(m, pc + 5, body, depth) && n < INT32_MAX
            && Length(LookCode(body, negated)) == n + 6
  {
    hide Length;
    hide NetDepth;
    hide Room;
    hide AtCode;
    var i := Lookahead(negated, Length(body) + 1);
    LengthOne(i);
    LengthOne(Match);
    RoomParts(m, pc, [i], body, [Match], LookCode(body, negated), depth, depth, depth);
    RoomCode(m, pc + 5 + Length(body), [Match], depth);
  }

  /** The compiler is correct: every sound pattern's code works wherever there is room for it. */
  lemma {:induction false} CodeWorks(m: Machine, p: Pattern, back: bool, cc: nat)
    requires Shaped(p) && Sound(m.ctx, p, back, cc)
    ensures Everywhere(m, p, back, cc)
    decreases p
  {
    hide Sound;
    hide WellFormed;
    hide GoodCtx;
    hide Room;
    hide Works;
    hide WorksAt;
    hide Code;
    SoundParts(m.ctx, p, back, cc);
    match p {
      case Concat(a, b) =>
        CodeWorks(m, a, back, cc);
        CodeWorks(m, b, back, cc + CapCount(a));
      case Alt(a, b) =>
        CodeWorks(m, a, back, cc);
        CodeWorks(m, b, back, cc + CapCount(a));
      case Group(b) => CodeWorks(m, b, back, cc);
      case Capture(b) => CodeWorks(m, b, back, cc + 1);
      case Look(b, _, backward) => CodeWorks(m, b, backward, cc);
      case Quant(a, _, _, _) => CodeWorks(m, a, back, cc);
      case _ =>
    }
    hide Everywhere;
    forall pc: int, depth: nat | Room(m, pc, Code(m.ctx.flags, p, back, cc), depth)
      ensures Works(m, p, back, cc, pc, depth)
    {
      forall x, stack, saved | Fits(m.ctx, x) && |stack| == depth
        ensures WorksAt(m, p, back, cc, pc, x, stack, saved)
      {
        PatternAt(m, p, back, cc, pc, x, stack, saved);
      }
      EverywhereIntro(m, p, back, cc, pc, depth);
    }
    EverywhereHolds(m, p, back, cc);
  }

  lemma {:induction false} EverywhereHolds(m: Machine, p: Pattern, back: bool, cc: nat)
    requires Shaped(p)
    requires forall pc: int, depth: nat :: Room(m, pc, Code(m.ctx.flags, p, back, cc), depth) ==>
               Works(m, p, back, cc, pc, depth)
    ensures Everywhere(m, p, back, cc)
  {
    hide Room;
    hide Works;
    hide Code;
  }

  /** The parts of a pattern work everywhere. */
  ghost predicate PartsWork(m: Machine, p: Pattern, back: bool, cc: nat)
    requires Shaped(p)
  {
    match p
    case Concat(a, b) => Everywhere(m, a, back, cc) && Everywhere(m, b, back, cc + CapCount(a))
    case Alt(a, b) => Everywhere(m, a, back, cc) && Everywhere(m, b, back, cc + CapCount(a))
    case Group(b) => Everywhere(m, b, back, cc)
    case Capture(b) => Everywhere(m, b, back, cc + 1)
    case Look(b, _, backward) => Everywhere(m, b, backward, cc)
    case Quant(a, _, _, _) => Everywhere(m, a, back, cc)
    case _ => true
  }

  lemma {:induction false} PatternAt(m: Machine, p: Pattern, back: bool, cc: nat, pc: int, x: St, stack: seq<int>,
          saved: seq<Saved>)
    requires Shaped(p) && Sound(m.ctx, p, back, cc) && Fits(m.ctx, x)
    requires PartsWork(m, p, back, cc)
    requires Room(m, pc, Code(m.ctx.flags, p, back, cc), |stack|)
    ensures WorksAt(m, p, back, cc, pc, x, stack, saved)
  {
    hide Everywhere;
    hide Sound;
    hide WellFormed;
    hide GoodCtx;
    hide Room;
    hide Works;
    hide WorksAt;
    hide Ends;
    hide QuantCode;
    hide CharCode;
    hide Length;
    SoundParts(m.ctx, p, back, cc);
    FitsPos(m.ctx, x);
    match p
    case Concat(a, b) => ConcatWorks(m, a, b, back, cc, pc, x, stack, saved);
    case Alt(a, b) =>
      AltWorks(m, a, b, back, cc, pc, x, stack, saved);
      AltIs(m, a, b, back, cc, pc, x, stack, saved);
    case Group(b) =>
      WorksHere(m, b, back, cc, pc, |stack|);
      GroupIs(m, b, back, cc, pc, x, stack, saved);
    case Capture(b) =>
      CaptureWorks(m, b, back, cc, pc, x, stack, saved);
      CaptureIs(m, b, back, cc, pc, x, stack, saved);
    case Look(b, negated, backward) =>
      LookWorks(m, b, negated, backward, cc, pc, x, stack, saved);
      LookIs(m, b, negated, back, backward, cc, pc, x, stack, saved);
    case Quant(a, min, max, greedy) =>
      QuantAt(m, a, back, cc, min, max, greedy, pc, x, stack, saved);
      QuantIsAt(m, a, back, cc, min, max, greedy, pc, x, stack, saved);
    case _ =>
      RoomCode(m, pc, Code(m.ctx.flags, p, back, cc), |stack|);
      LeafWorks(m, p, back, cc, pc, x, stack, saved);
  }

  lemma {:induction false} LeafWorks(m: Machine, p: Pattern, back: bool, cc: nat, pc: int, x: St, stack: seq<int>,
          saved: seq<Saved>)
    requires p.Empty? || IsCharPattern(p) || IsAssertion(p)
    requires Shaped(p) && WellFormed(m.ctx, p, back, cc) && GoodCtx(m.ctx)
    requires AtCode(m, pc, Code(m.ctx.flags, p, back, cc)) && x.pos <= |m.ctx.input|
    ensures WorksAt(m, p, back, cc, pc, x, stack, saved)
  {
    hide GoodCtx;
    hide AtCode;
    hide Explores;
    hide Length;
    hide OneChar;
    hide Test;
    hide CharCode;
    hide Directed;
    if p.Empty? {
      NoCode();
      HereOne(m, x, pc, stack, saved);
    } else if IsCharPattern(p) {
      CharWorks(m, p, back, cc, pc, x, stack, saved);
    } else {
      hide WellFormed;
      TestAt(m, p, pc, x, stack, saved);
    }
  }

  lemma {:induction false} GroupIs(m: Machine, b: Pattern, back: bool, cc: nat, pc: int, x: St, stack: seq<int>,
          saved: seq<Saved>)
    requires Shaped(b) && Works(m, b, back, cc, pc, |stack|) && Fits(m.ctx, x)
    ensures WorksAt(m, Group(b), back, cc, pc, x, stack, saved)
  {
    hide Explores;
    hide Length;
    hide Works;
    Use(m, b, back, cc, pc, pc + Length(Code(m.ctx.flags, b, back, cc)), x, stack, saved);
  }

  lemma {:induction false} AltIs(m: Machine, a: Pattern, b: Pattern, back: bool, cc: nat, pc: int, x: St,
          stack: seq<int>, saved: seq<Saved>)
    requires Shaped(a) && Shaped(b)
    requires Explores(m, Here(x, pc, stack, saved),
        Ends(m.ctx, a, back, cc, x) + Ends(m.ctx, b, back, cc + CapCount(a), x),
                      pc + Length(AltCode(Code(m.ctx.flags, a, back, cc),
                      Code(m.ctx.flags, b, back, cc + CapCount(a)))), stack, saved)
    ensures WorksAt(m, Alt(a, b), back, cc, pc, x, stack, saved)
  {
    hide Explores;
    hide Length;
    hide AltCode;
    hide Ends;
    hide Code;
    hide CapCount;
    EndsAlt(m.ctx, a, b, back, cc, x);
    CodePairs(m.ctx.flags, a, b, back, cc);
  }

  lemma {:induction false} CaptureIs(m: Machine, b: Pattern, back: bool, cc: nat, pc: int, x: St, stack: seq<int>,
          saved: seq<Saved>)
    requires Shaped(b)
    requires var x' := SetCap(x, if back then 2 * cc + 1 else 2 * cc);
             Explores(m, Here(x, pc, stack, saved),
                      FlatMap(Ends(m.ctx, b, back, cc + 1, x'), Close(if back then 2 * cc else 2 * cc + 1)),
                      pc + Length([Save(back, cc)] + Code(m.ctx.flags, b, back,
                      cc + 1) + [Save(!back, cc)]), stack, saved)
    ensures WorksAt(m, Capture(b), back, cc, pc, x, stack, saved)
  {
    hide Explores;
    hide Length;
    hide Ends;
    hide Code;
    EndsCapture(m.ctx, b, back, cc, x);
    CodeBodies(m.ctx.flags, b, false, false, back, cc);
  }

  lemma {:induction false} LookIs(m: Machine, b: Pattern, negated: bool, back: bool, backward: bool, cc: nat, pc: int,
          x: St, stack: seq<int>, saved: seq<Saved>)
    requires Shaped(b)
    requires Explores(m, Here(x, pc, stack, saved), Ahead(Ends(m.ctx, b, backward, cc, x), negated, x),
                      pc + Length(LookCode(Code(m.ctx.flags, b, backward, cc), negated)), stack, saved)
    ensures WorksAt(m, Look(b, negated, backward), back, cc, pc, x, stack, saved)
  {
    hide Explores;
    hide Length;
    hide Ahead;
    hide LookCode;
    hide Ends;
    hide Code;
    EndsLook(m.ctx, b, negated, backward, back, cc, x);
    CodeBodies(m.ctx.flags, b, negated, backward, back, cc);
  }

  lemma {:induction false} QuantIsAt(m: Machine, a: Pattern, back: bool, cc: nat, min: nat, max: nat, greedy: bool,
          pc: int, x: St, stack: seq<int>, saved: seq<Saved>)
    requires Shaped(a) && min <= max
    requires Explores(m, Here(x, pc, stack, saved), Ends(m.ctx, Quant(a, min, max, greedy), back, cc, x),
                      pc + Length(QuantCode(Code(m.ctx.flags, a, back, cc), cc, cc + CapCount(a), min, max,
                      greedy)), stack, saved)
    ensures WorksAt(m, Quant(a, min, max, greedy), back, cc, pc, x, stack, saved)
  {
    hide Explores;
    hide Length;
    hide Ends;
    hide QuantCode;
  }

  lemma {:induction false} CharWorks(m: Machine, p: Pattern, back: bool, cc: nat, pc: int, x: St, stack: seq<int>,
          saved: seq<Saved>)
    requires IsCharPattern(p) && Shaped(p) && WellFormed(m.ctx, p, back, cc) && GoodCtx(m.ctx)
    requires AtCode(m, pc, Code(m.ctx.flags, p, back, cc)) && x.pos <= |m.ctx.input|
    ensures WorksAt(m, p, back, cc, pc, x, stack, saved)
  {
    hide GoodCtx;
    hide AtCode;
    hide Explores;
    hide Length;
    hide OneChar;
    hide CharCode;
    hide Directed;
    CharAt(m, p, back, pc, x, stack, saved);
  }
}
