/** The pieces of the compiler's correctness: one character, one assertion, sequences,
    alternatives, captures and lookaround, given that their parts work where they are placed. */
module RePieces {
  import opened ReOpcode
  import opened RePattern
  import opened ReCode
  import opened ReMachine
  import opened ReSimple
  import opened RePlaced

  /** What the parser guarantees of a pattern with cc captures before it. */
  ghost predicate Sound(m: Ctx, p: Pattern, back: bool, cc: nat)
    requires Shaped(p)
  {
    WellFormed(m, p, back, cc) && GoodCtx(m) && cc + CapCount(p) <= m.captureCount
  }

  /** The code is at pc and its stack use fits above the given depth. */
  ghost predicate Room(m: Machine, pc: int, code: seq<Instr>, depth: nat) {
    AtCode(m, pc, code) && MaxDepth(code, depth) <= m.limit
  }

  lemma {:induction false} RoomParts(m: Machine, pc: int, head: seq<Instr>, body: seq<Instr>, tail: seq<Instr>,
          code: seq<Instr>, depth: nat, depth1: nat, depth2: nat)
    requires code == head + body + tail && Room(m, pc, code, depth)
    requires depth1 == depth + NetDepth(head) && depth2 == depth1 + NetDepth(body)
    ensures AtCode(m, pc, head) && Room(m, pc + Length(head), body, depth1)
    ensures Room(m, pc + Length(head) + Length(body), tail, depth2)
    ensures Length(code) == Length(head) + Length(body) + Length(tail) && 0 <= pc
    ensures pc + Length(code) <= INT32_MAX
  {
    hide AtCode;
    hide MaxDepth;
    hide Length;
    hide NetDepth;
    Layout(m, pc, head, body, tail, code, depth);
    AtCodeStarts(m, pc, code);
  }

  lemma {:induction false} AtCodeStarts(m: Machine, pc: int, code: seq<Instr>)
    requires AtCode(m, pc, code)
    ensures 0 <= pc
  {
  }

  /** The code of p works wherever there is room for it. */
  ghost predicate Everywhere(m: Machine, p: Pattern, back: bool, cc: nat)
    requires Shaped(p)
  {
    forall pc: int, depth: nat :: Room(m, pc, Code(m.ctx.flags, p, back, cc), depth) ==>
      Works(m, p, back, cc, pc, depth)
  }

  // ----- one character, one assertion -----

  lemma {:induction false} CharForward(m: Machine, p: Pattern, pc: int, x: St, stack: seq<int>, saved: seq<Saved>)
    requires IsCharPattern(p) && Shaped(p) && WellFormed(m.ctx, p, false, 0) && GoodCtx(m.ctx)
    requires AtCode(m, pc, [CharCode(m.ctx.flags, p)]) && x.pos <= |m.ctx.input|
    ensures Step(m, Here(x, pc, stack, saved)) ==
            if x.pos < |m.ctx.input| && Accepts(m.ctx, p, m.ctx.input[x.pos])
            then Here(x.(pos := x.pos + 1), pc + Length([CharCode(m.ctx.flags, p)]), stack, saved)
            else Failing(saved)
  {
    hide CharCode;
    hide Accepts;
    hide CharAccepts;
    hide WellFormed;
    hide Length;
    hide Encodable;
    hide AtCode;
    hide Size;
    hide Step;
    hide Exec;
    var i := CharCode(m.ctx.flags, p);
    CharEncodable(m.ctx, p);
    StepAt(m, pc, i, x, stack, saved);
    ExecChar(m, i, pc + Size(i), x, stack, saved);
    LengthOne(i);
    if x.pos < |m.ctx.input| {
      CharAgrees(m.ctx, p, m.ctx.input[x.pos]);
    }
  }

  lemma {:induction false} ExecChar(m: Machine, i: Instr, pc: int, x: St, stack: seq<int>, saved: seq<Saved>)
    requires IsCharInstr(i) && x.pos <= |m.ctx.input| && 0 <= pc
    ensures Exec(m, i, pc, x.pos, x.caps, stack, saved)
         == if x.pos < |m.ctx.input| && CharAccepts(m.ctx, i, m.ctx.input[x.pos])
            then Here(x.(pos := x.pos + 1), pc, stack, saved) else Failing(saved)
  {
    hide CharAccepts;
  }

  lemma {:induction false} CharAt(m: Machine, p: Pattern, back: bool, pc: int, x: St, stack: seq<int>,
          saved: seq<Saved>)
    requires IsCharPattern(p) && Shaped(p) && WellFormed(m.ctx, p, false, 0) && GoodCtx(m.ctx)
    requires AtCode(m, pc, Directed(back, CharCode(m.ctx.flags, p))) && x.pos <= |m.ctx.input|
    ensures Explores(m, Here(x, pc, stack, saved), OneChar(m.ctx, p, back, x),
                     pc + Length(Directed(back, CharCode(m.ctx.flags, p))), stack, saved)
  {
    hide *;
    if back {
      CharBackward(m, p, pc, x, stack, saved);
    } else {
      CharAhead(m, p, pc, x, stack, saved);
    }
  }

  lemma {:induction false} CharAhead(m: Machine, p: Pattern, pc: int, x: St, stack: seq<int>, saved: seq<Saved>)
    requires IsCharPattern(p) && Shaped(p) && WellFormed(m.ctx, p, false, 0) && GoodCtx(m.ctx)
    requires AtCode(m, pc, Directed(false, CharCode(m.ctx.flags, p))) && x.pos <= |m.ctx.input|
    ensures Explores(m, Here(x, pc, stack, saved), OneChar(m.ctx, p, false, x),
                     pc + Length(Directed(false, CharCode(m.ctx.flags, p))), stack, saved)
  {
    hide CharCode;
    hide Accepts;
    hide WellFormed;
    hide Length;
    hide AtCode;
    hide Step;
    hide Explores;
    CharForward(m, p, pc, x, stack, saved);
    var end := pc + Length([CharCode(m.ctx.flags, p)]);
    HereOne(m, x.(pos := x.pos + 1), end, stack, saved);
    ExploresNone(m, end, stack, saved);
    ExploresStep(m, Here(x, pc, stack, saved), OneChar(m.ctx, p, false, x), end, stack, saved);
  }

  lemma {:induction false} PrevStep(m: Machine, pc: int, x: St, stack: seq<int>, saved: seq<Saved>)
    requires AtCode(m, pc, [Prev]) && x.pos <= |m.ctx.input|
    ensures Step(m, Here(x, pc, stack, saved)) ==
            if x.pos == 0 then Failing(saved) else Here(x.(pos := x.pos - 1), pc + 1, stack, saved)
  {
    StepAt(m, pc, Prev, x, stack, saved);
    hide Step;
  }

  lemma {:induction false} CharBackward(m: Machine, p: Pattern, pc: int, x: St, stack: seq<int>, saved: seq<Saved>)
    requires IsCharPattern(p) && Shaped(p) && WellFormed(m.ctx, p, false, 0) && GoodCtx(m.ctx)
    requires AtCode(m, pc, Directed(true, CharCode(m.ctx.flags, p))) && x.pos <= |m.ctx.input|
    ensures Explores(m, Here(x, pc, stack, saved), OneChar(m.ctx, p, true, x),
                     pc + Length(Directed(true, CharCode(m.ctx.flags, p))), stack, saved)
  {
    hide CharCode;
    hide Accepts;
    hide WellFormed;
    hide Length;
    hide AtCode;
    hide Step;
    hide Explores;
    var i := CharCode(m.ctx.flags, p);
    var l := OneChar(m.ctx, p, true, x);
    BackwardLayout(m, pc, i);
    var n: int := Length([i]);
    var end := pc + 2 + n;
    PrevStep(m, pc, x, stack, saved);
    ExploresNone(m, end, stack, saved);
    if x.pos > 0 {
      var y := x.(pos := x.pos - 1);
      CharForward(m, p, pc + 1, y, stack, saved);
      PrevStep(m, pc + 1 + n, x, stack, saved);
      HereOne(m, y, end, stack, saved);
      ExploresStep(m, Here(x, pc + 1 + n, stack, saved), [y], end, stack, saved);
      ExploresStep(m, Here(y, pc + 1, stack, saved), l, end, stack, saved);
    }
    ExploresStep(m, Here(x, pc, stack, saved), l, end, stack, saved);
  }

  lemma {:induction false} BackwardLayout(m: Machine, pc: int, i: Instr)
    requires AtCode(m, pc, Directed(true, i))
    ensures AtCode(m, pc, [Prev]) && AtCode(m, pc + 1, [i]) && AtCode(m, pc + 1 + Length([i]), [Prev])
    ensures Length(Directed(true, i)) == Length([i]) + 2
  {
    hide AtCode;
    hide Length;
    assert Directed(true, i) == ([Prev] + [i]) + [Prev];
    BytesAppend([Prev] + [i], [Prev]);
    BytesAppend([Prev], [i]);
    LengthOne(Prev);
    AtCodeSplit(m, pc, [Prev] + [i], [Prev]);
    AtCodeSplit(m, pc, [Prev], [i]);
  }

  lemma {:induction false} TestAt(m: Machine, p: Pattern, pc: int, x: St, stack: seq<int>, saved: seq<Saved>)
    requires IsAssertion(p) && AtCode(m, pc, [TestCode(p)]) && x.pos <= |m.ctx.input|
    ensures Explores(m, Here(x, pc, stack, saved), Test(m.ctx, p, x), pc + Length([TestCode(p)]), stack, saved)
  {
    hide Length;
    hide AtCode;
    hide Explores;
    var i := TestCode(p);
    LengthOne(i);
    StepAt(m, pc, i, x, stack, saved);
    hide Step;
    assert TestHolds(m.ctx, i, x.pos) == Holds(m.ctx, p, x.pos);
    HereOne(m, x, pc + 1, stack, saved);
    ExploresNone(m, pc + 1, stack, saved);
    ExploresStep(m, Here(x, pc, stack, saved), Test(m.ctx, p, x), pc + 1, stack, saved);
  }

  // ----- sequences, alternatives, groups, lookaround -----

  lemma {:induction false} ConcatAt(m: Machine, p1: Pattern, c1: nat, p2: Pattern, c2: nat, back: bool, pc: int,
          mid: int, end: int, x: St, stack: seq<int>, saved: seq<Saved>)
    requires Shaped(p1) && Shaped(p2) && Fits(m.ctx, x)
    requires Works(m, p1, back, c1, pc, |stack|) && mid == pc + Length(Code(m.ctx.flags, p1, back, c1))
    requires Works(m, p2, back, c2, mid, |stack|) && end == mid + Length(Code(m.ctx.flags, p2, back, c2))
    ensures Explores(m, Here(x, pc, stack, saved), FlatMap(Ends(m.ctx, p1, back, c1, x), Then(m.ctx, p2, back, c2)),
                     end, stack, saved)
  {
    hide *;
    var l, f := Ends(m.ctx, p1, back, c1, x), Then(m.ctx, p2, back, c2);
    Use(m, p1, back, c1, pc, mid, x, stack, saved);
    EndsOnward(m.ctx, p1, back, c1, x);
    forall y, ext | y in l && Choices(ext)
      ensures Explores(m, Here(y, mid, stack, saved + ext), f(y), end, stack, saved + ext)
    {
      OnwardFits(m.ctx, back, x, l, y);
      ThenAt(m.ctx, p2, back, c2, y);
      Use(m, p2, back, c2, mid, end, y, stack, saved + ext);
    }
    BindExplores(m, Here(x, pc, stack, saved), l, mid, stack, saved, f, end, stack);
  }

  lemma {:induction false} AltAt(m: Machine, a: Pattern, b: Pattern, back: bool, cc: nat, cb: nat, pc: int, mid: int,
          end: int, la: int, lb: int, x: St, stack: seq<int>, saved: seq<Saved>)
    requires Shaped(a) && Shaped(b) && Fits(m.ctx, x)
    requires la == Length(Code(m.ctx.flags, a, back, cc)) && lb == Length(Code(m.ctx.flags, b, back, cb))
    requires mid == pc + 5 + la + 5 && end == mid + lb && 0 <= la && 0 <= lb && la + lb + 10 <= INT32_MAX
    requires AtCode(m, pc, [Split(false, la + 5)]) && AtCode(m, pc + 5 + la, [Goto(lb)])
    requires Works(m, a, back, cc, pc + 5, |stack|) && Works(m, b, back, cb, mid, |stack|)
    ensures Explores(m, Here(x, pc, stack, saved), Ends(m.ctx, a, back, cc, x) + Ends(m.ctx, b, back, cb, x),
                     end, stack, saved)
  {
    hide Step;
    hide Fits;
    hide Works;
    hide Code;
    hide Length;
    hide AtCode;
    hide Explores;
    hide Ends;
    hide Reaches;
    hide AllOnward;
    hide Choices;
    hide Onward;
    FitsPos(m.ctx, x);
    var l1, l2 := Ends(m.ctx, a, back, cc, x), Ends(m.ctx, b, back, cb, x);
    var later := Saved(SplitState, mid, x.pos, x.caps, stack, 0);
    SplitStep(m, pc, false, la + 5, x, stack, saved);
    var s := saved + [later];
    Use(m, a, back, cc, pc + 5, pc + 5 + la, x, stack, s);
    EndsOnward(m.ctx, a, back, cc, x);
    forall y, ext | y in l1 && Choices(ext)
      ensures Reaches(m, Here(y, pc + 5 + la, stack, s + ext), Here(y, end, stack, s + ext))
    {
      OnwardFits(m.ctx, back, x, l1, y);
      GotoReaches(m, pc + 5 + la, lb, y, stack, s + ext);
    }
    ExploresMove(m, Here(x, pc + 5, stack, s), l1, pc + 5 + la, stack, end, stack, s);
    Use(m, b, back, cb, mid, end, x, stack, saved);
    ExploresSplit(m, Here(x, pc + 5, stack, s), saved, later, l1, l2, end, stack);
    ExploresStep(m, Here(x, pc, stack, saved), l1 + l2, end, stack, saved);
  }

  lemma {:induction false} CaptureAt(m: Machine, b: Pattern, back: bool, cc: nat, pc: int, mid: int, x: St,
          stack: seq<int>, saved: seq<Saved>)
    requires Shaped(b) && Fits(m.ctx, x) && cc < m.ctx.captureCount <= 255
    requires mid == pc + 2 + Length(Code(m.ctx.flags, b, back, cc + 1))
    requires AtCode(m, pc, [Save(back, cc)]) && AtCode(m, mid, [Save(!back, cc)])
    requires Works(m, b, back, cc + 1, pc + 2, |stack|)
    ensures var x' := SetCap(x, if back then 2 * cc + 1 else 2 * cc);
            Explores(m, Here(x, pc, stack, saved),
                     FlatMap(Ends(m.ctx, b, back, cc + 1, x'), Close(if back then 2 * cc else 2 * cc + 1)),
                     mid + 2, stack, saved)
  {
    hide *;
    var x' := SetCap(x, if back then 2 * cc + 1 else 2 * cc);
    var k := if back then 2 * cc else 2 * cc + 1;
    var l, f := Ends(m.ctx, b, back, cc + 1, x'), Close(k);
    FitsPos(m.ctx, x);
    SaveReaches(m, pc, back, cc, x, stack, saved);
    Use(m, b, back, cc + 1, pc + 2, mid, x', stack, saved);
    EndsOnward(m.ctx, b, back, cc + 1, x');
    forall y, ext | y in l && Choices(ext)
      ensures Explores(m, Here(y, mid, stack, saved + ext), f(y), mid + 2, stack, saved + ext)
    {
      OnwardFits(m.ctx, back, x', l, y);
      SaveReaches(m, mid, !back, cc, y, stack, saved + ext);
      CloseAt(k, y);
      HereOne(m, SetCap(y, k), mid + 2, stack, saved + ext);
      ExploresPrepend(m, Here(y, mid, stack, saved + ext), Here(SetCap(y, k), mid + 2, stack, saved + ext), f(y),
                      mid + 2, stack, saved + ext);
    }
    BindExplores(m, Here(x', pc + 2, stack, saved), l, mid, stack, saved, f, mid + 2, stack);
    ExploresPrepend(m, Here(x, pc, stack, saved), Here(x', pc + 2, stack, saved), FlatMap(l, f), mid + 2, stack, saved);
  }

  lemma {:induction false} CloseAt(k: nat, y: St)
    ensures Close(k)(y) == [SetCap(y, k)]
  {
  }

  lemma {:induction false} LookAt(m: Machine, b: Pattern, negated: bool, backward: bool, cc: nat, pc: int, n: int,
          x: St, stack: seq<int>, saved: seq<Saved>)
    requires Shaped(b) && Fits(m.ctx, x) && n == Length(Code(m.ctx.flags, b, backward, cc))
    requires AtCode(m, pc, [Lookahead(negated, n + 1)]) && AtCode(m, pc + 5 + n, [Match]) && 0 <= n < INT32_MAX
    requires Works(m, b, backward, cc, pc + 5, |stack|)
    ensures Explores(m, Here(x, pc, stack, saved), Ahead(Ends(m.ctx, b, backward, cc, x), negated, x),
                     pc + n + 6, stack, saved)
  {
    hide *;
    var inner := Ends(m.ctx, b, backward, cc, x);
    var l := Ahead(inner, negated, x);
    var end := pc + n + 6;
    var look := Saved(if negated then NegLookState else LookState, end, x.pos, x.caps, stack, 0);
    LookEnters(m, pc, negated, n, x, stack, saved, look);
    Use(m, b, backward, cc, pc + 5, pc + 5 + n, x, stack, saved + [look]);
    EndsOnward(m.ctx, b, backward, cc, x);
    LookLeaves(m, backward, inner, negated, pc, n, x, stack, saved, look);
    ExploresPrepend(m, Here(x, pc, stack, saved), Here(x, pc + 5, stack, saved + [look]), l, end, stack, saved);
  }

  lemma {:induction false} LookEnters(m: Machine, pc: int, negated: bool, n: int, x: St, stack: seq<int>,
          saved: seq<Saved>, look: Saved)
    requires Fits(m.ctx, x) && AtCode(m, pc, [Lookahead(negated, n + 1)]) && 0 <= n < INT32_MAX
    requires look == Saved(if negated then NegLookState else LookState, pc + n + 6, x.pos, x.caps, stack, 0)
    ensures Reaches(m, Here(x, pc, stack, saved), Here(x, pc + 5, stack, saved + [look]))
  {
    hide AtCode;
    StepAt(m, pc, Lookahead(negated, n + 1), x, stack, saved);
    hide Step;
    ReachesStep(m, Here(x, pc, stack, saved));
  }

  /** The first match of the body, or its failure, is what the saved lookaround state sees. */
  lemma {:induction false} LookLeaves(m: Machine, backward: bool, inner: seq<St>, negated: bool, pc: int, n: int,
          x: St, stack: seq<int>, saved: seq<Saved>, look: Saved)
    requires Fits(m.ctx, x) && AllOnward(m.ctx, backward, x, inner) && AtCode(m, pc + 5 + n, [Match])
    requires look == Saved(if negated then NegLookState else LookState, pc + n + 6, x.pos, x.caps, stack, 0)
    requires Explores(m, Here(x, pc + 5, stack, saved + [look]), inner, pc + 5 + n, stack, saved + [look])
    ensures Explores(m, Here(x, pc + 5, stack, saved + [look]), Ahead(inner, negated, x), pc + n + 6, stack, saved)
  {
    hide AtCode;
    hide Reaches;
    hide Exec;
    hide AllOnward;
    hide Decode;
    hide Resume;
    var c := Here(x, pc + 5, stack, saved + [look]);
    var end := pc + n + 6;
    var l := Ahead(inner, negated, x);
    if inner == [] {
      LookFails(m, x, negated, end, stack, saved, look);
      hide Explores;
      ExploresPrepend(m, c, Failing(saved + [look]), l, end, stack, saved);
    } else {
      var y := inner[0];
      var ext :| Arrives(m, c, inner, pc + 5 + n, stack, saved + [look], ext)
                 && Explores(m, Failing(saved + [look] + ext), inner[1..], pc + 5 + n, stack, saved + [look]);
      hide Explores;
      assert y in inner;
      OnwardFits(m.ctx, backward, x, inner, y);
      LookSucceeds(m, x, y, negated, pc + 5 + n, end, stack, saved, look, ext);
      ExploresPrepend(m, c, Here(y, pc + 5 + n, stack, saved + [look] + ext), l, end, stack, saved);
    }
  }

  lemma {:induction false} LookFails(m: Machine, x: St, negated: bool, end: int, stack: seq<int>, saved: seq<Saved>,
          look: Saved)
    requires look == Saved(if negated then NegLookState else LookState, end, x.pos, x.caps, stack, 0)
    ensures Explores(m, Failing(saved + [look]), if negated then [x] else [], end, stack, saved)
  {
    hide Exec;
    hide Decode;
    hide Explores;
    var full := saved + [look];
    assert full[|full| - 1] == look && full[..|full| - 1] == saved;
    assert Step(m, Failing(full)) == Resume(m, look, saved);
    hide Step;
    ExploresNone(m, end, stack, saved);
    ExploresOne(m, x, end, stack, saved);
    ExploresStep(m, Failing(full), if negated then [x] else [], end, stack, saved);
  }

  lemma {:induction false} LookSucceeds(m: Machine, x: St, y: St, negated: bool, pc: int, end: int, stack: seq<int>,
          saved: seq<Saved>, look: Saved, ext: seq<Saved>)
    requires look == Saved(if negated then NegLookState else LookState, end, x.pos, x.caps, stack, 0)
    requires AtCode(m, pc, [Match]) && y.pos <= |m.ctx.input| && Choices(ext)
    ensures Explores(m, Here(y, pc, stack, saved + [look] + ext), if negated then [] else [x.(caps := y.caps)],
                     end, stack, saved)
  {
    hide AtCode;
    hide Decode;
    hide Explores;
    hide Choices;
    hide Reaches;
    var l := if negated then [] else [x.(caps := y.caps)];
    var full := saved + [look];
    assert full[|full| - 1] == look && full[..|full| - 1] == saved;
    StepAt(m, pc, Match, y, stack, full + ext);
    hide Exec;
    hide Resume;
    ExploresNone(m, end, stack, saved);
    ExploresOne(m, x.(caps := y.caps), end, stack, saved);
    ExploresStep(m, Succeeding(y.pos, y.caps, full), l, end, stack, saved);
    hide Step;
    DiscardChoices(m, y.pos, y.caps, full, ext);
    ExploresPrepend(m, Succeeding(y.pos, y.caps, full + ext), Succeeding(y.pos, y.caps, full), l, end, stack, saved);
    ExploresStep(m, Here(y, pc, stack, full + ext), l, end, stack, saved);
  }
}
