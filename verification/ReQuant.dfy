/** Correctness of quantified code, given that the atom works wherever it is placed. */
module ReQuant {
  import opened ReOpcode
  import opened RePattern
  import opened ReCode
  import opened ReMachine
  import opened ReSimple
  import opened RePlaced
  import opened ReLoops
  import opened RePieces

  lemma {:induction false} WorksHere(m: Machine, a: Pattern, back: bool, cc: nat, pc: int, depth: nat)
    requires Shaped(a) && Everywhere(m, a, back, cc) && Room(m, pc, Code(m.ctx.flags, a, back, cc), depth)
    ensures Works(m, a, back, cc, pc, depth)
  {
    hide Room;
    hide Works;
    hide Code;
  }

  // ----- the layout of the loops -----

  lemma {:induction false} StarRoom(m: Machine, pc: int, a: Pattern, back: bool, cc: nat, greedy: bool, check: bool,
          depth: nat, len: int)
    requires Shaped(a) && Everywhere(m, a, back, cc)
    requires len == Length(Code(m.ctx.flags, a, back, cc)) && NetDepth(Code(m.ctx.flags, a, back, cc)) == 0
    requires Room(m, pc, StarCode(Code(m.ctx.flags, a, back, cc), greedy, check), depth)
    requires if check then greedy else Moves(m.ctx, a, back, cc)
    ensures StarLoop(m, a, back, cc, greedy, check, pc, len, depth)
    ensures Length(StarCode(Code(m.ctx.flags, a, back, cc), greedy, check)) == if check then len + 11 else len + 10
  {
    hide Code;
    hide Works;
    hide Everywhere;
    hide AtCode;
    hide MaxDepth;
    hide Length;
    hide NetDepth;
    hide Moves;
    var atom := Code(m.ctx.flags, a, back, cc);
    var code := StarCode(atom, greedy, check);
    if check {
      var s, p, b := Split(false, len + 6), PushCharPos, BneCharPos(-(len + 11));
      assert [s] + [p] == [s, p];
      LengthTwo(s, p);
      LengthOne(b);
      RoomParts(m, pc, [s, p], atom, [b], code, depth, depth + 1, depth + 1);
      AtTwo(m, pc, s, p);
      WorksHere(m, a, back, cc, pc + 6, depth + 1);
      RoomDepth(m, pc + 6, atom, depth + 1);
    } else {
      var s, g := Split(!greedy, len + 5), Goto(-(len + 10));
      LengthOne(s);
      LengthOne(g);
      RoomParts(m, pc, [s], atom, [g], code, depth, depth, depth);
      WorksHere(m, a, back, cc, pc + 5, depth);
    }
  }

  lemma {:induction false} RoomDepth(m: Machine, pc: int, code: seq<Instr>, depth: nat)
    requires Room(m, pc, code, depth)
    ensures depth <= m.limit
  {
  }

  lemma {:induction false} PlusRoom(m: Machine, pc: int, a: Pattern, back: bool, cc: nat, greedy: bool, depth: nat,
          len: int)
    requires Shaped(a) && Everywhere(m, a, back, cc) && Moves(m.ctx, a, back, cc)
    requires len == Length(Code(m.ctx.flags, a, back, cc)) && NetDepth(Code(m.ctx.flags, a, back, cc)) == 0
    requires Room(m, pc, PlusCode(Code(m.ctx.flags, a, back, cc), greedy), depth)
    ensures PlusLoop(m, a, back, cc, greedy, pc, len, depth)
    ensures Length(PlusCode(Code(m.ctx.flags, a, back, cc), greedy)) == len + 5
  {
    hide Code;
    hide Works;
    hide Everywhere;
    hide AtCode;
    hide MaxDepth;
    hide Length;
    hide NetDepth;
    hide Moves;
    var atom := Code(m.ctx.flags, a, back, cc);
    var s := Split(greedy, -(len + 5));
    LengthOne(s);
    NoCode();
    assert PlusCode(atom, greedy) == [] + atom + [s];
    RoomParts(m, pc, [], atom, [s], PlusCode(atom, greedy), depth, depth, depth);
    WorksHere(m, a, back, cc, pc, depth);
  }

  lemma {:induction false} NoCode()
    ensures Length([]) == 0 && NetDepth([]) == 0
  {
  }

  lemma {:induction false} CountedRoom(m: Machine, pc: int, a: Pattern, back: bool, cc: nat, greedy: bool, n: nat,
          depth: nat, len: int)
    requires Shaped(a) && Everywhere(m, a, back, cc)
    requires len == Length(Code(m.ctx.flags, a, back, cc)) && NetDepth(Code(m.ctx.flags, a, back, cc)) == 0
    requires Room(m, pc, CountedCode(Code(m.ctx.flags, a, back, cc), n, greedy), depth)
    ensures AtCode(m, pc, [PushI32(n)]) && depth < m.limit
    ensures CountedLoop(m, a, back, cc, greedy, pc + 5, len, depth)
    ensures Length(CountedCode(Code(m.ctx.flags, a, back, cc), n, greedy)) == len + 16
  {
    hide Code;
    hide Works;
    hide Everywhere;
    hide AtCode;
    hide MaxDepth;
    hide Length;
    hide NetDepth;
    var atom := Code(m.ctx.flags, a, back, cc);
    var p, s, l := PushI32(n), Split(!greedy, len + 5), Loop(-(len + 10));
    LengthTwo(p, s);
    LengthTwo(l, Drop);
    RoomParts(m, pc, [p, s], atom, [l, Drop], CountedCode(atom, n, greedy), depth, depth + 1, depth + 1);
    AtTwo(m, pc, p, s);
    AtTwo(m, pc + 10 + len, l, Drop);
    WorksHere(m, a, back, cc, pc + 10, depth + 1);
    RoomDepth(m, pc + 10, atom, depth + 1);
  }

  lemma {:induction false} RepeatRoom(m: Machine, pc: int, a: Pattern, back: bool, cc: nat, n: nat, depth: nat,
          len: int)
    requires Shaped(a) && Everywhere(m, a, back, cc)
    requires len == Length(Code(m.ctx.flags, a, back, cc)) && NetDepth(Code(m.ctx.flags, a, back, cc)) == 0
    requires Room(m, pc, RepeatCode(Code(m.ctx.flags, a, back, cc), n), depth)
    ensures AtCode(m, pc, [PushI32(n)]) && depth < m.limit
    ensures RepeatLoop(m, a, back, cc, pc + 5, len, depth)
    ensures Length(RepeatCode(Code(m.ctx.flags, a, back, cc), n)) == len + 11
  {
    hide Code;
    hide Works;
    hide Everywhere;
    hide AtCode;
    hide MaxDepth;
    hide Length;
    hide NetDepth;
    var atom := Code(m.ctx.flags, a, back, cc);
    var p, l := PushI32(n), Loop(-(len + 5));
    LengthOne(p);
    LengthTwo(l, Drop);
    RoomParts(m, pc, [p], atom, [l, Drop], RepeatCode(atom, n), depth, depth + 1, depth + 1);
    AtTwo(m, pc + 5 + len, l, Drop);
    WorksHere(m, a, back, cc, pc + 5, depth + 1);
    RoomDepth(m, pc + 5, atom, depth + 1);
  }

  // ----- from the layout to the search -----

  /** The atom and its surroundings, as every quantifier lemma below needs them. */
  ghost predicate Quantifiable(m: Machine, a: Pattern, back: bool, cc: nat)
    requires Shaped(a)
  {
    && Everywhere(m, a, back, cc) && NetDepth(Code(m.ctx.flags, a, back, cc)) == 0
  }

  lemma {:induction false} StarCodeExplores(m: Machine, pc: int, a: Pattern, back: bool, cc: nat, greedy: bool,
          check: bool, x: St, stack: seq<int>, saved: seq<Saved>)
    requires Shaped(a) && Quantifiable(m, a, back, cc) && Fits(m.ctx, x)
    requires Room(m, pc, StarCode(Code(m.ctx.flags, a, back, cc), greedy, check), |stack|)
    requires if check then greedy else Moves(m.ctx, a, back, cc)
    ensures Explores(m, Here(x, pc, stack, saved), Star(m.ctx, a, back, cc, greedy, x),
                     pc + Length(StarCode(Code(m.ctx.flags, a, back, cc), greedy, check)), stack, saved)
  {
    hide *;
    QuantifiableParts(m, a, back, cc);
    var len := Length(Code(m.ctx.flags, a, back, cc));
    StarRoom(m, pc, a, back, cc, greedy, check, |stack|, len);
    StarExplores(m, a, back, cc, greedy, check, pc, len, pc + if check then len + 11 else len + 10, x, stack, saved);
  }

  lemma {:induction false} QuantifiableParts(m: Machine, a: Pattern, back: bool, cc: nat)
    requires Shaped(a) && Quantifiable(m, a, back, cc)
    ensures Everywhere(m, a, back, cc) && NetDepth(Code(m.ctx.flags, a, back, cc)) == 0
  {
    hide Everywhere;
    hide Code;
    hide NetDepth;
  }

  lemma {:induction false} CountedCodeExplores(m: Machine, pc: int, a: Pattern, back: bool, cc: nat, greedy: bool,
          n: nat, x: St, stack: seq<int>, saved: seq<Saved>)
    requires Shaped(a) && Quantifiable(m, a, back, cc) && Fits(m.ctx, x) && 0 < n <= INFINITE
    requires Room(m, pc, CountedCode(Code(m.ctx.flags, a, back, cc), n, greedy), |stack|)
    ensures Explores(m, Here(x, pc, stack, saved), UpTo(m.ctx, a, back, cc, n, greedy, x),
                     pc + Length(CountedCode(Code(m.ctx.flags, a, back, cc), n, greedy)), stack, saved)
  {
    hide *;
    QuantifiableParts(m, a, back, cc);
    var len := Length(Code(m.ctx.flags, a, back, cc));
    CountedRoom(m, pc, a, back, cc, greedy, n, |stack|, len);
    EnterCount(m, pc, n, x, stack, saved);
    CountedExplores(m, a, back, cc, greedy, pc + 5, len, n, x, stack, saved);
    ExploresPrepend(m, Here(x, pc, stack, saved), Here(x, pc + 5, stack + [n], saved),
                    UpTo(m.ctx, a, back, cc, n, greedy, x), pc + len + 16, stack, saved);
  }

  lemma {:induction false} EnterCount(m: Machine, pc: int, n: nat, x: St, stack: seq<int>, saved: seq<Saved>)
    requires AtCode(m, pc, [PushI32(n)]) && |stack| < m.limit && Fits(m.ctx, x) && n <= INFINITE
    ensures Reaches(m, Here(x, pc, stack, saved), Here(x, pc + 5, stack + [n], saved))
  {
    hide AtCode;
    hide Reaches;
    PushReaches(m, pc, PushI32(n), x, stack, saved);
  }

  lemma {:induction false} RepeatCodeExplores(m: Machine, pc: int, a: Pattern, back: bool, cc: nat, n: nat, x: St,
          stack: seq<int>, saved: seq<Saved>)
    requires Shaped(a) && Quantifiable(m, a, back, cc) && Fits(m.ctx, x) && 0 < n <= INFINITE
    requires Room(m, pc, RepeatCode(Code(m.ctx.flags, a, back, cc), n), |stack|)
    ensures Explores(m, Here(x, pc, stack, saved), Exactly(m.ctx, a, back, cc, n, x),
                     pc + Length(RepeatCode(Code(m.ctx.flags, a, back, cc), n)), stack, saved)
  {
    hide *;
    QuantifiableParts(m, a, back, cc);
    var len := Length(Code(m.ctx.flags, a, back, cc));
    RepeatRoom(m, pc, a, back, cc, n, |stack|, len);
    EnterCount(m, pc, n, x, stack, saved);
    RepeatExplores(m, a, back, cc, pc + 5, len, n, x, stack, saved);
    ExploresPrepend(m, Here(x, pc, stack, saved), Here(x, pc + 5, stack + [n], saved),
                    Exactly(m.ctx, a, back, cc, n, x), pc + len + 11, stack, saved);
  }

  /** One or more repetitions in the short form. */
  lemma {:induction false} PlusCodeExplores(m: Machine, pc: int, a: Pattern, back: bool, cc: nat, max: nat,
          greedy: bool, x: St, stack: seq<int>, saved: seq<Saved>)
    requires Shaped(a) && Quantifiable(m, a, back, cc) && Fits(m.ctx, x) && Moves(m.ctx, a, back, cc)
    requires max == INFINITE && 1 <= max
    requires Room(m, pc, PlusCode(Code(m.ctx.flags, a, back, cc), greedy), |stack|)
    ensures Explores(m, Here(x, pc, stack, saved),
                     FlatMap(Exactly(m.ctx, a, back, cc, 1, x), More(m.ctx, a, back, cc, 1, max, greedy)),
                     pc + Length(PlusCode(Code(m.ctx.flags, a, back, cc), greedy)), stack, saved)
  {
    hide *;
    QuantifiableParts(m, a, back, cc);
    var len := Length(Code(m.ctx.flags, a, back, cc));
    PlusRoom(m, pc, a, back, cc, greedy, |stack|, len);
    PlusParts(m, a, back, cc, greedy, pc, len, |stack|);
    var l, f := Ends(m.ctx, a, back, cc, x), More(m.ctx, a, back, cc, 1, max, greedy);
    Use(m, a, back, cc, pc, pc + len, x, stack, saved);
    EndsOnward(m.ctx, a, back, cc, x);
    forall y, ext | y in l && Choices(ext)
      ensures Explores(m, Here(y, pc + len, stack, saved + ext), f(y), pc + len + 5, stack, saved + ext)
    {
      OnwardFits(m.ctx, back, x, l, y);
      MoreAt(m.ctx, a, back, cc, 1, max, greedy, y);
      PlusExplores(m, a, back, cc, greedy, pc, len, y, stack, saved + ext);
    }
    BindExplores(m, Here(x, pc, stack, saved), l, pc + len, stack, saved, f, pc + len + 5, stack);
    ExactlyOne(m.ctx, a, back, cc, x);
  }

  lemma {:induction false} MoreAt(m: Ctx, a: Pattern, back: bool, cc: nat, min: nat, max: nat, greedy: bool, y: St)
    requires min <= max <= INFINITE
    ensures More(m, a, back, cc, min, max, greedy)(y)
         == if max == INFINITE then Star(m, a, back, cc, greedy, y) else UpTo(m, a, back, cc, max - min, greedy, y)
  {
    hide Star;
    hide UpTo;
  }

  // ----- the quantifier's code as a whole -----

  lemma {:induction false} MoreExplores(m: Machine, pc: int, a: Pattern, back: bool, cc: nat, min: nat, max: nat,
          greedy: bool, check: bool, x: St, stack: seq<int>, saved: seq<Saved>)
    requires Shaped(a) && Quantifiable(m, a, back, cc) && Fits(m.ctx, x) && min <= max <= INFINITE
    requires Room(m, pc, MoreCode(Code(m.ctx.flags, a, back, cc), min, max, greedy, check), |stack|)
    requires max == INFINITE ==> if check then greedy else Moves(m.ctx, a, back, cc)
    ensures Explores(m, Here(x, pc, stack, saved), More(m.ctx, a, back, cc, min, max, greedy)(x),
                     pc + Length(MoreCode(Code(m.ctx.flags, a, back, cc), min, max, greedy, check)), stack, saved)
  {
    hide Quantifiable;
    hide Room;
    hide Code;
    hide StarCode;
    hide CountedCode;
    hide Moves;
    hide Explores;
    hide Star;
    hide UpTo;
    hide Length;
    hide More;
    hide Here;
    MoreAt(m.ctx, a, back, cc, min, max, greedy, x);
    if max == INFINITE {
      StarCodeExplores(m, pc, a, back, cc, greedy, check, x, stack, saved);
    } else if max > min {
      CountedCodeExplores(m, pc, a, back, cc, greedy, max - min, x, stack, saved);
    } else {
      NoCode();
      UpToUnfold(m.ctx, a, back, cc, 0, greedy, x);
      HereOne(m, x, pc, stack, saved);
    }
  }

  lemma {:induction false} FirstExplores(m: Machine, pc: int, a: Pattern, back: bool, cc: nat, min: nat, x: St,
          stack: seq<int>, saved: seq<Saved>)
    requires Shaped(a) && Quantifiable(m, a, back, cc) && Fits(m.ctx, x) && 0 < min <= INFINITE
    requires Room(m, pc, FirstCode(Code(m.ctx.flags, a, back, cc), min), |stack|)
    ensures Explores(m, Here(x, pc, stack, saved), Exactly(m.ctx, a, back, cc, min, x),
                     pc + Length(FirstCode(Code(m.ctx.flags, a, back, cc), min)), stack, saved)
  {
    hide Quantifiable;
    hide Room;
    hide Code;
    hide Explores;
    hide Exactly;
    hide Length;
    hide RepeatCode;
    hide Works;
    hide Here;
    if min == 1 {
      QuantifiableParts(m, a, back, cc);
      WorksHere(m, a, back, cc, pc, |stack|);
      Use(m, a, back, cc, pc, pc + Length(Code(m.ctx.flags, a, back, cc)), x, stack, saved);
      ExactlyOne(m.ctx, a, back, cc, x);
    } else {
      RepeatCodeExplores(m, pc, a, back, cc, min, x, stack, saved);
    }
  }

  lemma {:induction false} FirstBalanced(f: Flags, a: Pattern, back: bool, cc: nat, min: nat)
    requires Shaped(a)
    ensures NetDepth(FirstCode(Code(f, a, back, cc), min)) == 0
  {
    hide NetDepth;
    hide Lowest;
    hide Code;
    hide RepeatCode;
    CodeSteady(f, a, back, cc);
    RepeatSteady(Code(f, a, back, cc), min);
  }

  /** Mandatory repetitions, then optional ones. */
  lemma {:induction false} FirstThenMore(m: Machine, pc: int, a: Pattern, back: bool, cc: nat, min: nat, max: nat,
          greedy: bool, check: bool, x: St, stack: seq<int>, saved: seq<Saved>, code: seq<Instr>)
    requires Shaped(a) && Quantifiable(m, a, back, cc) && Fits(m.ctx, x) && 0 < min <= max <= INFINITE
    requires var atom := Code(m.ctx.flags, a, back, cc);
             code == FirstCode(atom, min) + MoreCode(atom, min, max, greedy, check)
    requires Room(m, pc, code, |stack|)
    requires max == INFINITE ==> if check then greedy else Moves(m.ctx, a, back, cc)
    ensures Explores(m, Here(x, pc, stack, saved),
                     FlatMap(Exactly(m.ctx, a, back, cc, min, x), More(m.ctx, a, back, cc, min, max, greedy)),
                     pc + Length(code), stack, saved)
  {
    hide *;
    var atom := Code(m.ctx.flags, a, back, cc);
    var first, rest := FirstCode(atom, min), MoreCode(atom, min, max, greedy, check);
    var l, f := Exactly(m.ctx, a, back, cc, min, x), More(m.ctx, a, back, cc, min, max, greedy);
    QuantifiableParts(m, a, back, cc);
    FirstBalanced(m.ctx.flags, a, back, cc, min);
    NoCode();
    assert code == [] + first + rest;
    RoomParts(m, pc, [], first, rest, code, |stack|, |stack|, |stack|);
    var mid, end := pc + Length(first), pc + Length(code);
    FirstExplores(m, pc, a, back, cc, min, x, stack, saved);
    ExactlyOnward(m.ctx, a, back, cc, min, x);
    forall y, ext | y in l && Choices(ext)
      ensures Explores(m, Here(y, mid, stack, saved + ext), f(y), end, stack, saved + ext)
    {
      OnwardFits(m.ctx, back, x, l, y);
      MoreExplores(m, mid, a, back, cc, min, max, greedy, check, y, stack, saved + ext);
    }
    BindExplores(m, Here(x, pc, stack, saved), l, mid, stack, saved, f, end, stack);
  }

  ghost function QuantFrom(m: Ctx, a: Pattern, back: bool, cc: nat, min: nat, max: nat, greedy: bool, x: St): seq<St> {
    if max == 0 then [x]
    else FlatMap(Exactly(m, a, back, cc, min, x), More(m, a, back, cc, min, max, greedy))
  }

  lemma {:induction false} FromZero(m: Ctx, a: Pattern, back: bool, cc: nat, max: nat, greedy: bool, x: St)
    ensures QuantFrom(m, a, back, cc, 0, max, greedy, x)
         == if max == 0 then [x] else More(m, a, back, cc, 0, max, greedy)(x)
  {
    hide More;
    hide FlatMap;
    ExactlyNextAt(m, a, back, cc, 0, x);
    FlatMapOne(x, More(m, a, back, cc, 0, max, greedy));
  }

  lemma {:induction false} OptionalExplores(m: Machine, pc: int, a: Pattern, back: bool, cc: nat, max: nat,
          greedy: bool, check: bool, x: St, stack: seq<int>, saved: seq<Saved>)
    requires Shaped(a) && Quantifiable(m, a, back, cc) && Fits(m.ctx, x) && max <= INFINITE
    requires Room(m, pc, OptionalCode(Code(m.ctx.flags, a, back, cc), max, greedy, check), |stack|)
    requires max == INFINITE ==> if check then greedy else Moves(m.ctx, a, back, cc)
    ensures Explores(m, Here(x, pc, stack, saved), QuantFrom(m.ctx, a, back, cc, 0, max, greedy, x),
                     pc + Length(OptionalCode(Code(m.ctx.flags, a, back, cc), max, greedy, check)), stack, saved)
  {
    hide Quantifiable;
    hide Room;
    hide Code;
    hide Moves;
    hide Explores;
    hide Length;
    hide MoreCode;
    hide Here;
    hide QuantFrom;
    hide More;
    FromZero(m.ctx, a, back, cc, max, greedy, x);
    if max == 0 {
      NoCode();
      HereOne(m, x, pc, stack, saved);
    } else if max == 1 {
      MaybeExplores(m, pc, a, back, cc, max, greedy, x, stack, saved);
    } else {
      MoreExplores(m, pc, a, back, cc, 0, max, greedy, check, x, stack, saved);
    }
  }

  /** At most one repetition: a split over the atom. */
  lemma {:induction false} MaybeExplores(m: Machine, pc: int, a: Pattern, back: bool, cc: nat, max: nat, greedy: bool,
          x: St, stack: seq<int>, saved: seq<Saved>)
    requires Shaped(a) && Quantifiable(m, a, back, cc) && Fits(m.ctx, x) && max == 1
    requires var atom := Code(m.ctx.flags, a, back, cc);
             Room(m, pc, [Split(!greedy, Length(atom))] + atom, |stack|)
    ensures var atom := Code(m.ctx.flags, a, back, cc);
            Explores(m, Here(x, pc, stack, saved), More(m.ctx, a, back, cc, 0, max, greedy)(x),
                     pc + Length([Split(!greedy, Length(atom))] + atom), stack, saved)
  {
    hide *;
    var atom := Code(m.ctx.flags, a, back, cc);
    var len := Length(atom);
    var code := [Split(!greedy, len)] + atom;
    QuantifiableParts(m, a, back, cc);
    SplitLength(!greedy, len);
    assert code + [] == code;
    RoomParts(m, pc, [Split(!greedy, len)], atom, [], code, |stack|, |stack|, |stack|);
    NoCode();
    WorksHere(m, a, back, cc, pc + 5, |stack|);
    OffsetFits(pc, len);
    FitsPos(m.ctx, x);
    var end := pc + 5 + len;
    var s := if greedy then saved + [Saved(SplitState, end, x.pos, x.caps, stack, 0)] else saved;
    var s2 := if greedy then saved else saved + [Saved(SplitState, pc + 5, x.pos, x.caps, stack, 0)];
    Use(m, a, back, cc, pc + 5, end, x, stack, s);
    ReachesRefl(m, Here(x, end, stack, s2));
    var again := Ends(m.ctx, a, back, cc, x);
    ChooseExplores(m, pc, greedy, !greedy, len, pc + 5, end, x, stack, end, stack, saved, again);
    MaybeIs(m.ctx, a, back, cc, max, greedy, x);
  }

  lemma {:induction false} SplitLength(gotoFirst: bool, off: int)
    ensures Length([Split(gotoFirst, off)]) == 5 && NetDepth([Split(gotoFirst, off)]) == 0
  {
    LengthOne(Split(gotoFirst, off));
  }

  lemma {:induction false} OffsetFits(pc: int, n: nat)
    requires 0 <= pc && pc + n + 5 <= INT32_MAX
    ensures IsI32(n)
  {
  }

  lemma {:induction false} MaybeIs(m: Ctx, a: Pattern, back: bool, cc: nat, max: nat, greedy: bool, x: St)
    requires max == 1
    ensures More(m, a, back, cc, 0, max, greedy)(x) == Choose(greedy, Ends(m, a, back, cc, x), x)
  {
    hide Ends;
    hide FlatMap;
    hide Choose;
    var f := UpToNext(m, a, back, cc, 0, greedy);
    UpToUnfold(m, a, back, cc, 1, greedy, x);
    forall y ensures f(y) == [y] {
      UpToNextAt(m, a, back, cc, 0, greedy, y);
      UpToUnfold(m, a, back, cc, 0, greedy, y);
    }
    hide UpTo;
    FlatMapUnit(Ends(m, a, back, cc, x), f);
  }
}
