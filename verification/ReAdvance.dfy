/** What the zero-advance analysis promises: when re_check_advance answers 1 for the code of a
    pattern, every match of the pattern moves. */
module ReAdvance {
  import opened ReOpcode
  import opened RePattern
  import opened ReCode
  import opened RePlaced
  import opened ReLoops

  /** Code that reads before anything else that matters. */
  lemma {:induction false} AdvanceOne(i: Instr)
    ensures Advance([i]) == if IsCharInstr(i) then 1 else 0
    ensures AllNeutral([i]) <==> IsNeutral(i)
  {
  }

  lemma {:induction false} AdvanceBlocked(i: Instr, rest: seq<Instr>, code: seq<Instr>)
    requires code == [i] + rest && !IsCharInstr(i) && !IsNeutral(i)
    ensures Advance(code) == 0
  {
    assert code[0] == i;
  }

  lemma {:induction false} NeutralAdvance(code: seq<Instr>)
    requires AllNeutral(code)
    ensures Advance(code) == 0
  {
    AdvanceAppend(code, []);
    assert code + [] == code;
  }

  /** A loop head is never passed over. */
  lemma {:induction false} StarAdvance(atom: seq<Instr>, greedy: bool, check: bool)
    ensures Advance(StarCode(atom, greedy, check)) == 0
  {
    var len: int := Length(atom);
    hide Length;
    hide Advance;
    if check {
      AdvanceBlocked(Split(!greedy, len + 6), [PushCharPos] + atom + [BneCharPos(-(len + 11))],
          StarCode(atom, greedy, check));
    } else {
      AdvanceBlocked(Split(!greedy, len + 5), atom + [Goto(-(len + 10))], StarCode(atom, greedy, check));
    }
  }

  lemma {:induction false} CountedAdvance(atom: seq<Instr>, n: nat, greedy: bool)
    ensures Advance(CountedCode(atom, n, greedy)) == 0
  {
    var len: int := Length(atom);
    hide Length;
    var s := [Split(!greedy, len + 5)];
    var rest := s + atom + [Loop(-(len + 10)), Drop];
    AdvanceBlocked(s[0], atom + [Loop(-(len + 10)), Drop], rest);
    hide Advance;
    assert CountedCode(atom, n, greedy) == [PushI32(n)] + rest;
    AdvanceOne(PushI32(n));
    AdvanceAppend([PushI32(n)], rest);
  }

  lemma {:induction false} RepeatAdvance(atom: seq<Instr>, n: nat)
    requires Advance(RepeatCode(atom, n)) == 1
    ensures Advance(atom) == 1
    ensures !AllNeutral(RepeatCode(atom, n))
  {
    var len: int := Length(atom);
    hide Length;
    hide Advance;
    var tail := [Loop(-(len + 5)), Drop];
    AdvanceBlocked(tail[0], [Drop], tail);
    AdvanceOne(PushI32(n));
    AdvanceAppend([PushI32(n)], atom + tail);
    AdvanceAppend(atom, tail);
    assert RepeatCode(atom, n) == [PushI32(n)] + (atom + tail);
    if AllNeutral(RepeatCode(atom, n)) {
      NeutralAdvance(RepeatCode(atom, n));
      assert false;
    }
  }

  /** Quantified code reads first only if it is not optional and its atom reads first. */
  lemma {:induction false} QuantAdvance(atom: seq<Instr>, lo: nat, hi: nat, min: nat, max: nat, greedy: bool)
    requires min <= max && Advance(QuantCode(atom, lo, hi, min, max, greedy)) == 1
    ensures min > 0 && Advance(atom) == 1
  {
    hide StarCode;
    hide CountedCode;
    hide PlusCode;
    hide RepeatCode;
    hide Length;
    hide SimpleCount;
    var code := QuantCode(atom, lo, hi, min, max, greedy);
    var check := greedy && Advance(atom) == 0;
    hide Advance;
    StarAdvance(atom, greedy, check);
    if greedy && max > 0 && SimpleCount(atom) > 0 {
      AdvanceBlocked(SimpleGreedyQuant(Length(atom) + 1, min, max, SimpleCount(atom)), atom + [Match], code);
    } else if min == 0 {
      OptionalAdvance(atom, lo, hi, max, greedy, check, code);
    } else if min == 1 && max == INFINITE && !check {
      PlusAdvance(atom, greedy);
    } else {
      FirstAdvance(atom, min, max, greedy, check, code);
    }
  }

  lemma {:induction false} PlusAdvance(atom: seq<Instr>, greedy: bool)
    requires Advance(PlusCode(atom, greedy)) == 1
    ensures Advance(atom) == 1
  {
    hide Length;
    hide Advance;
    var s := Split(greedy, -(Length(atom) as int + 5));
    AdvanceAppend(atom, [s]);
    AdvanceOne(s);
  }

  lemma {:induction false} OptionalAdvance(atom: seq<Instr>, lo: nat, hi: nat, max: nat, greedy: bool, check: bool,
          code: seq<Instr>)
    requires code == (if lo != hi then [SaveReset(lo, hi - 1)] else [])
                     + (if max == 0 then []
                        else if max == 1 then [Split(!greedy, Length(atom))] + atom
                        else if max == INFINITE then StarCode(atom, greedy, check)
                        else CountedCode(atom, max, greedy))
    ensures Advance(code) == 0
  {
    hide Length;
    hide StarCode;
    hide CountedCode;
    hide Advance;
    var reset := if lo != hi then [SaveReset(lo, hi - 1)] else [];
    var rest := if max == 0 then []
                else if max == 1 then [Split(!greedy, Length(atom))] + atom
                else if max == INFINITE then StarCode(atom, greedy, check)
                else CountedCode(atom, max, greedy);
    StarAdvance(atom, greedy, check);
    CountedAdvance(atom, max, greedy);
    AdvanceBlocked(Split(!greedy, Length(atom)), atom, [Split(!greedy, Length(atom))] + atom);
    NeutralAdvance([]);
    AdvanceOne(SaveReset(lo, hi - 1));
    AdvanceAppend(reset, rest);
  }

  lemma {:induction false} FirstAdvance(atom: seq<Instr>, min: nat, max: nat, greedy: bool, check: bool,
          code: seq<Instr>)
    requires min <= max
    requires code == (if min == 1 then atom else RepeatCode(atom, min))
                     + (if max == INFINITE then StarCode(atom, greedy, check)
                        else if max > min then CountedCode(atom, max - min, greedy)
                        else [])
    requires Advance(code) == 1
    ensures Advance(atom) == 1
  {
    hide Length;
    hide StarCode;
    hide CountedCode;
    hide RepeatCode;
    hide Advance;
    var first := if min == 1 then atom else RepeatCode(atom, min);
    var rest := if max == INFINITE then StarCode(atom, greedy, check)
                else if max > min then CountedCode(atom, max - min, greedy)
                else [];
    StarAdvance(atom, greedy, check);
    if max > min {
      CountedAdvance(atom, max - min, greedy);
    }
    NeutralAdvance([]);
    AdvanceAppend(first, rest);
    if min != 1 {
      RepeatAdvance(atom, min);
    }
  }

  // ----- width -----

  lemma {:induction false} TimesWidth(n: nat, w: nat)
    requires n > 0 && w > 0
    ensures n * w > 0
  {
  }

  /** The analysis answers 1 only for code whose pattern reads at least one character. */
  lemma {:induction false} AdvanceWidth(f: Flags, p: Pattern, back: bool, cc: nat)
    requires Shaped(p) && Advance(Code(f, p, back, cc)) == 1
    ensures MinWidth(p) > 0
    decreases p, 1
  {
    hide Advance;
    hide CharCode;
    hide QuantCode;
    hide Length;
    hide AllNeutral;
    var code := Code(f, p, back, cc);
    match p
    case Empty => NeutralAdvance([]);
    case Literal(_) =>
    case Wildcard =>
    case Class(_) =>
    case AssertStart => AdvanceOne(LineStart);
    case AssertEnd => AdvanceOne(LineEnd);
    case AssertWord(negated) => AdvanceOne(WordBoundary(negated));
    case Concat(a, b) => ConcatWidth(f, a, b, back, cc);
    case Alt(a, b) =>
      var ca, cb := Code(f, a, back, cc), Code(f, b, back, cc + CapCount(a));
      AdvanceBlocked(Split(false, Length(ca) + 5), ca + [Goto(Length(cb))] + cb, code);
    case Group(b) => AdvanceWidth(f, b, back, cc);
    case Capture(b) => CaptureWidth(f, b, back, cc);
    case Look(b, negated, backward) =>
      var body := Code(f, b, backward, cc);
      AdvanceBlocked(Lookahead(negated, Length(body) + 1), body + [Match], code);
    case Quant(a, min, max, greedy) =>
      QuantAdvance(Code(f, a, back, cc), cc, cc + CapCount(a), min, max, greedy);
      AdvanceWidth(f, a, back, cc);
      TimesWidth(min, MinWidth(a));
  }

  lemma {:induction false} ConcatWidth(f: Flags, a: Pattern, b: Pattern, back: bool, cc: nat)
    requires Shaped(a) && Shaped(b) && Advance(Code(f, Concat(a, b), back, cc)) == 1
    ensures MinWidth(Concat(a, b)) > 0
    decreases Concat(a, b), 0
  {
    hide Advance;
    hide Code;
    hide AllNeutral;
    var ca, cb := Code(f, a, back, cc), Code(f, b, back, cc + CapCount(a));
    CodePairs(f, a, b, back, cc);
    AdvanceAppend(ca, cb);
    AdvanceAppend(cb, ca);
    if Advance(ca) == 1 {
      AdvanceWidth(f, a, back, cc);
    } else {
      AdvanceWidth(f, b, back, cc + CapCount(a));
    }
  }

  lemma {:induction false} CaptureWidth(f: Flags, b: Pattern, back: bool, cc: nat)
    requires Shaped(b) && Advance(Code(f, Capture(b), back, cc)) == 1
    ensures MinWidth(Capture(b)) > 0
    decreases Capture(b), 0
  {
    hide Advance;
    hide Code;
    hide AllNeutral;
    var body := Code(f, b, back, cc + 1);
    CodeBodies(f, b, false, false, back, cc);
    assert [Save(back, cc)] + body + [Save(!back, cc)] == [Save(back, cc)] + (body + [Save(!back, cc)]);
    AdvanceOne(Save(back, cc));
    AdvanceOne(Save(!back, cc));
    AdvanceAppend([Save(back, cc)], body + [Save(!back, cc)]);
    AdvanceAppend(body, [Save(!back, cc)]);
    AdvanceWidth(f, b, back, cc + 1);
  }

  // ----- moving -----

  /** Every point of l is at least w characters on from x. */
  ghost predicate AllPast(m: Ctx, back: bool, x: St, l: seq<St>, w: nat) {
    forall y :: y in l ==> Left(m, back, y) + w <= Left(m, back, x)
  }

  lemma {:induction false} OnwardPast(m: Ctx, back: bool, x: St, l: seq<St>)
    requires AllOnward(m, back, x, l) && Fits(m, x)
    ensures AllPast(m, back, x, l, 0)
  {
  }

  lemma {:induction false} FlatMapPast(m: Ctx, back: bool, x: St, l: seq<St>, f: St -> seq<St>, w1: nat, w2: nat)
    requires AllPast(m, back, x, l, w1)
    requires forall z :: z in l ==> AllPast(m, back, z, f(z), w2)
    ensures AllPast(m, back, x, FlatMap(l, f), w1 + w2)
  {
    hide FlatMap;
    hide Left;
    forall y | y in FlatMap(l, f)
      ensures Left(m, back, y) + w1 + w2 <= Left(m, back, x)
    {
      var z := InFlatMap(l, f, y);
    }
  }

  /** A match reads at least as many characters as its pattern is wide. */
  lemma {:induction false} WidthMoves(m: Ctx, p: Pattern, back: bool, cc: nat, x: St)
    requires Shaped(p) && Fits(m, x)
    ensures AllPast(m, back, x, Ends(m, p, back, cc, x), MinWidth(p))
    decreases p, 1
  {
    hide Ends;
    hide MinWidth;
    hide AllPast;
    hide Fits;
    match p
    case Concat(a, b) => ConcatMoves(m, a, b, back, cc, x);
    case Alt(a, b) => AltMoves(m, a, b, back, cc, x);
    case Group(b) =>
      WidthMoves(m, b, back, cc, x);
      GroupWidth(m, b, back, cc, x);
    case Capture(b) => CaptureMoves(m, b, back, cc, x);
    case Quant(a, min, max, greedy) => QuantifiedMoves(m, a, back, cc, min, max, greedy, x);
    case _ => LeafMoves(m, p, back, cc, x);
  }

  lemma {:induction false} LeafMoves(m: Ctx, p: Pattern, back: bool, cc: nat, x: St)
    requires !p.Concat? && !p.Alt? && !p.Group? && !p.Capture? && !p.Quant? && Fits(m, x)
    ensures AllPast(m, back, x, Ends(m, p, back, cc, x), MinWidth(p))
  {
    hide Accepts;
    hide Holds;
  }

  lemma {:induction false} GroupWidth(m: Ctx, b: Pattern, back: bool, cc: nat, x: St)
    ensures Ends(m, Group(b), back, cc, x) == Ends(m, b, back, cc, x) && MinWidth(Group(b)) == MinWidth(b)
  {
  }

  lemma {:induction false} AltMoves(m: Ctx, a: Pattern, b: Pattern, back: bool, cc: nat, x: St)
    requires Shaped(a) && Shaped(b) && Fits(m, x)
    ensures AllPast(m, back, x, Ends(m, Alt(a, b), back, cc, x), MinWidth(Alt(a, b)))
    decreases Alt(a, b), 0
  {
    hide Ends;
    hide Fits;
    hide Left;
    EndsAlt(m, a, b, back, cc, x);
    WidthMoves(m, a, back, cc, x);
    WidthMoves(m, b, back, cc + CapCount(a), x);
  }

  lemma {:induction false} CaptureMoves(m: Ctx, b: Pattern, back: bool, cc: nat, x: St)
    requires Shaped(b) && Fits(m, x)
    ensures AllPast(m, back, x, Ends(m, Capture(b), back, cc, x), MinWidth(Capture(b)))
    decreases Capture(b), 0
  {
    hide Ends;
    hide FlatMap;
    var x' := SetCap(x, if back then 2 * cc + 1 else 2 * cc);
    var l, f := Ends(m, b, back, cc + 1, x'), Close(if back then 2 * cc else 2 * cc + 1);
    EndsCapture(m, b, back, cc, x);
    WidthMoves(m, b, back, cc + 1, x');
    FlatMapPast(m, back, x', l, f, MinWidth(b), 0);
  }

  lemma {:induction false} QuantifiedMoves(m: Ctx, a: Pattern, back: bool, cc: nat, min: nat, max: nat, greedy: bool,
          x: St)
    requires Shaped(a) && min <= max && Fits(m, x)
    ensures AllPast(m, back, x, Ends(m, Quant(a, min, max, greedy), back, cc, x), MinWidth(Quant(a, min, max, greedy)))
    decreases Quant(a, min, max, greedy), 0
  {
    hide FlatMap;
    hide Exactly;
    hide More;
    var reset := min == 0 && CapCount(a) > 0;
    var x0 := if reset then x.(caps := ResetCaps(x.caps, cc, cc + CapCount(a) - 1)) else x;
    if max != 0 {
      QuantMoves(m, a, back, cc, min, max, greedy, x0);
    }
  }

  lemma {:induction false} ConcatMoves(m: Ctx, a: Pattern, b: Pattern, back: bool, cc: nat, x: St)
    requires Shaped(a) && Shaped(b) && Fits(m, x)
    ensures AllPast(m, back, x, Ends(m, Concat(a, b), back, cc, x), MinWidth(Concat(a, b)))
    decreases Concat(a, b), 0
  {
    hide FlatMap;
    hide Fits;
    hide AllOnward;
    hide AllPast;
    hide Ends;
    hide CapCount;
    assert MinWidth(Concat(a, b)) == MinWidth(a) + MinWidth(b);
    hide MinWidth;
    var (p1, c1, p2, c2) := if back then (b, cc + CapCount(a), a, cc) else (a, cc, b, cc + CapCount(a));
    var l, f := Ends(m, p1, back, c1, x), Then(m, p2, back, c2);
    EndsConcat(m, a, b, back, cc, x);
    EndsOnward(m, p1, back, c1, x);
    WidthMoves(m, p1, back, c1, x);
    forall z | z in l
      ensures AllPast(m, back, z, f(z), MinWidth(p2))
    {
      OnwardFits(m, back, x, l, z);
      ThenAt(m, p2, back, c2, z);
      WidthMoves(m, p2, back, c2, z);
    }
    FlatMapPast(m, back, x, l, f, MinWidth(p1), MinWidth(p2));
  }

  lemma {:induction false} QuantMoves(m: Ctx, a: Pattern, back: bool, cc: nat, min: nat, max: nat, greedy: bool, x: St)
    requires Shaped(a) && Fits(m, x)
    ensures AllPast(m, back, x, FlatMap(Exactly(m, a, back, cc, min, x), More(m, a, back, cc, min, max, greedy)),
                    min * MinWidth(a))
    decreases a, 3
  {
    hide *;
    var l, f := Exactly(m, a, back, cc, min, x), More(m, a, back, cc, min, max, greedy);
    ExactlyOnward(m, a, back, cc, min, x);
    ExactlyMoves(m, a, back, cc, min, x);
    forall z | z in l ensures AllPast(m, back, z, f(z), 0) {
      OnwardFits(m, back, x, l, z);
      MoreOnward(m, a, back, cc, min, max, greedy, z);
      OnwardPast(m, back, z, f(z));
    }
    FlatMapPast(m, back, x, l, f, min * MinWidth(a), 0);
  }

  lemma {:induction false} ExactlyMoves(m: Ctx, a: Pattern, back: bool, cc: nat, n: nat, x: St)
    requires Shaped(a) && Fits(m, x)
    ensures AllPast(m, back, x, Exactly(m, a, back, cc, n, x), n * MinWidth(a))
    decreases a, 2, n
  {
    hide *;
    if n == 0 {
      ExactlyNextAt(m, a, back, cc, 0, x);
      PastSelf(m, back, x);
    } else {
      var l, f := Ends(m, a, back, cc, x), ExactlyNext(m, a, back, cc, n - 1);
      var w := MinWidth(a);
      EndsOnward(m, a, back, cc, x);
      WidthMoves(m, a, back, cc, x);
      forall z | z in l ensures AllPast(m, back, z, f(z), (n - 1) * w) {
        OnwardFits(m, back, x, l, z);
        ExactlyNextAt(m, a, back, cc, n - 1, z);
        ExactlyMoves(m, a, back, cc, n - 1, z);
      }
      FlatMapPast(m, back, x, l, f, w, (n - 1) * w);
      ExactlyUnfold(m, a, back, cc, n, x);
      OneMore(n, w);
    }
  }

  lemma {:induction false} OneMore(n: nat, w: nat)
    requires n > 0
    ensures w + (n - 1) * w == n * w
  {
  }

  lemma {:induction false} PastSelf(m: Ctx, back: bool, x: St)
    ensures AllPast(m, back, x, [x], 0)
  {
  }

  lemma {:induction false} MoreOnward(m: Ctx, a: Pattern, back: bool, cc: nat, min: nat, max: nat, greedy: bool, z: St)
    requires Fits(m, z)
    ensures AllOnward(m, back, z, More(m, a, back, cc, min, max, greedy)(z))
  {
    hide Star;
    hide UpTo;
    hide AllOnward;
    StarOnward(m, a, back, cc, greedy, z);
    UpToOnward(m, a, back, cc, if min <= max then max - min else 0, greedy, z);
  }

  /** A pattern that is at least one character wide moves. */
  lemma {:induction false} WideMoves(m: Ctx, a: Pattern, back: bool, cc: nat)
    requires Shaped(a) && MinWidth(a) > 0
    ensures Moves(m, a, back, cc)
  {
    hide Ends;
    hide Fits;
    hide Left;
    hide MinWidth;
    forall x | Fits(m, x)
      ensures MovesFrom(m, a, back, cc, x)
    {
      WidthMoves(m, a, back, cc, x);
    }
  }

  /** The analysis is sound: an answer of 1 means that every match moves. */
  lemma {:induction false} AdvanceMoves(m: Ctx, p: Pattern, back: bool, cc: nat)
    requires Shaped(p) && Advance(Code(m.flags, p, back, cc)) == 1
    ensures Moves(m, p, back, cc)
  {
    hide *;
    AdvanceWidth(m.flags, p, back, cc);
    WideMoves(m, p, back, cc);
  }
}
