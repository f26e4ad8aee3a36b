/** Code placed at an address: its layout, its single steps, and what it means for the code of a
    pattern to work there. */
module RePlaced {
  import opened ReOpcode
  import opened RePattern
  import opened ReCode
  import opened ReMachine
  import opened ReSimple

  // ----- placed code -----

  lemma {:induction false} Layout(m: Machine, pc: int, head: seq<Instr>, body: seq<Instr>, tail: seq<Instr>,
          code: seq<Instr>, d: nat)
    requires code == head + body + tail
    requires AtCode(m, pc, code) && MaxDepth(code, d) <= m.limit
    ensures AtCode(m, pc, head)
    ensures AtCode(m, pc + Length(head), body)
    ensures AtCode(m, pc + Length(head) + Length(body), tail)
    ensures Length(code) == Length(head) + Length(body) + Length(tail)
    ensures pc + Length(code) <= INT32_MAX
    ensures MaxDepth(body, d + NetDepth(head)) <= m.limit
    ensures MaxDepth(tail, d + NetDepth(head) + NetDepth(body)) <= m.limit
  {
    hide *;
    BytesAppend(head + body, tail);
    BytesAppend(head, body);
    AtCodeSplit(m, pc, head + body, tail);
    AtCodeSplit(m, pc, head, body);
    DepthAppend(head + body, tail, d);
    DepthAppend(head, body, d);
  }

  lemma {:induction false} LengthOne(i: Instr)
    ensures Length([i]) == Size(i) && NetDepth([i]) == Effect(i)
  {
    hide *;
    BytesOne(i);
    DepthOne(i);
  }

  lemma {:induction false} LengthTwo(i: Instr, j: Instr)
    ensures Length([i, j]) == Size(i) + Size(j) && NetDepth([i, j]) == Effect(i) + Effect(j)
  {
    hide *;
    assert [i, j] == [i] + [j];
    BytesAppend([i], [j]);
    DepthOfSum([i], [j]);
    LengthOne(i);
    LengthOne(j);
  }

  lemma {:induction false} AtTwo(m: Machine, pc: int, i: Instr, j: Instr)
    requires AtCode(m, pc, [i, j])
    ensures AtCode(m, pc, [i]) && AtCode(m, pc + Size(i), [j])
  {
    hide *;
    assert [i, j] == [i] + [j];
    BytesOne(i);
    AtCodeSplit(m, pc, [i], [j]);
  }

  /** Running a placed instruction. */
  lemma {:induction false} StepAt(m: Machine, pc: int, i: Instr, x: St, stack: seq<int>, saved: seq<Saved>)
    requires AtCode(m, pc, [i]) && Encodable(i) && x.pos <= |m.ctx.input|
    ensures 0 <= pc
    ensures Step(m, Run(pc, x.pos, x.caps, stack, saved)) == Exec(m, i, pc + Size(i), x.pos, x.caps, stack, saved)
  {
    hide Encode;
    hide Encodable;
    hide Decode;
    hide Exec;
    hide Size;
    hide At;
    assert [i] + [] == [i];
    AtInstr(m, pc, i, []);
    DecodeEncode(m.code, pc, i);
  }

  // ----- one instruction at a time -----

  function Here(x: St, pc: int, stack: seq<int>, saved: seq<Saved>): Config {
    Run(pc, x.pos, x.caps, stack, saved)
  }

  lemma {:induction false} GotoReaches(m: Machine, pc: int, off: int, x: St, stack: seq<int>, saved: seq<Saved>)
    requires AtCode(m, pc, [Goto(off)]) && IsI32(off) && x.pos <= |m.ctx.input|
    ensures Reaches(m, Here(x, pc, stack, saved), Here(x, pc + 5 + off, stack, saved))
  {
    StepAt(m, pc, Goto(off), x, stack, saved);
    hide Step;
    ReachesStep(m, Here(x, pc, stack, saved));
  }

  lemma {:induction false} DropReaches(m: Machine, pc: int, x: St, stack: seq<int>, v: int, saved: seq<Saved>)
    requires AtCode(m, pc, [Drop]) && x.pos <= |m.ctx.input|
    ensures Reaches(m, Here(x, pc, stack + [v], saved), Here(x, pc + 1, stack, saved))
  {
    StepAt(m, pc, Drop, x, stack + [v], saved);
    hide Step;
    assert (stack + [v])[..|stack|] == stack;
    ReachesStep(m, Here(x, pc, stack + [v], saved));
  }

  lemma {:induction false} PushReaches(m: Machine, pc: int, i: Instr, x: St, stack: seq<int>, saved: seq<Saved>)
    requires AtCode(m, pc, [i]) && Encodable(i) && (i.PushI32? || i.PushCharPos?) && x.pos <= |m.ctx.input|
    requires |stack| < m.limit
    ensures Reaches(m, Here(x, pc, stack, saved),
                    Here(x, pc + Size(i), stack + [if i.PushI32? then i.v else x.pos], saved))
  {
    StepAt(m, pc, i, x, stack, saved);
    hide Step;
    ReachesStep(m, Here(x, pc, stack, saved));
  }

  lemma {:induction false} LoopReaches(m: Machine, pc: int, off: int, x: St, stack: seq<int>, v: int, saved: seq<Saved>)
    requires AtCode(m, pc, [Loop(off)]) && IsI32(off) && x.pos <= |m.ctx.input|
    ensures Reaches(m, Here(x, pc, stack + [v], saved),
                    Here(x, if v == 1 then pc + 5 else pc + 5 + off, stack + [v - 1], saved))
  {
    var s := stack + [v];
    StepAt(m, pc, Loop(off), x, s, saved);
    hide Step;
    assert s[|s| - 1 := v - 1] == stack + [v - 1];
    ReachesStep(m, Here(x, pc, s, saved));
  }

  lemma {:induction false} BneReaches(m: Machine, pc: int, off: int, x: St, stack: seq<int>, v: int, saved: seq<Saved>)
    requires AtCode(m, pc, [BneCharPos(off)]) && IsI32(off) && x.pos <= |m.ctx.input|
    ensures Reaches(m, Here(x, pc, stack + [v], saved),
                    Here(x, if v == x.pos then pc + 5 else pc + 5 + off, stack, saved))
  {
    var s := stack + [v];
    StepAt(m, pc, BneCharPos(off), x, s, saved);
    hide Step;
    assert s[..|stack|] == stack;
    ReachesStep(m, Here(x, pc, s, saved));
  }

  lemma {:induction false} SaveReaches(m: Machine, pc: int, isEnd: bool, index: nat, x: St, stack: seq<int>,
          saved: seq<Saved>)
    requires AtCode(m, pc, [Save(isEnd, index)]) && Fits(m.ctx, x) && index < m.ctx.captureCount <= 255
    ensures var y := SetCap(x, if isEnd then 2 * index + 1 else 2 * index);
            Fits(m.ctx, y) && Reaches(m, Here(x, pc, stack, saved), Here(y, pc + 2, stack, saved))
  {
    StepAt(m, pc, Save(isEnd, index), x, stack, saved);
    hide Step;
    ReachesStep(m, Here(x, pc, stack, saved));
  }

  lemma {:induction false} ResetReaches(m: Machine, pc: int, lo: nat, hi: nat, x: St, stack: seq<int>,
          saved: seq<Saved>)
    requires AtCode(m, pc, [SaveReset(lo, hi)]) && Fits(m.ctx, x) && lo <= hi < m.ctx.captureCount <= 255
    ensures var y := x.(caps := ResetCaps(x.caps, lo, hi));
            Fits(m.ctx, y) && Reaches(m, Here(x, pc, stack, saved), Here(y, pc + 3, stack, saved))
  {
    StepAt(m, pc, SaveReset(lo, hi), x, stack, saved);
    hide Step;
    hide ResetCaps;
    ReachesStep(m, Here(x, pc, stack, saved));
  }

  lemma {:induction false} SplitStep(m: Machine, pc: int, gotoFirst: bool, off: int, x: St, stack: seq<int>,
          saved: seq<Saved>)
    requires AtCode(m, pc, [Split(gotoFirst, off)]) && IsI32(off) && x.pos <= |m.ctx.input|
    ensures var (now, later) := if gotoFirst then (pc + 5 + off, pc + 5) else (pc + 5, pc + 5 + off);
            Step(m, Here(x, pc, stack, saved))
            == Here(x, now, stack, saved + [Saved(SplitState, later, x.pos, x.caps, stack, 0)])
  {
    hide AtCode;
    StepAt(m, pc, Split(gotoFirst, off), x, stack, saved);
    hide Step;
  }

  /** A split between repeating at A and skipping to K, from where the machine comes to end. */
  lemma {:induction false} ChooseExplores(m: Machine, pc: int, greedy: bool, gotoFirst: bool, off: int, A: int,
          K: int, x: St, stack1: seq<int>, end: int, stack2: seq<int>, saved: seq<Saved>, again: seq<St>)
    requires AtCode(m, pc, [Split(gotoFirst, off)]) && IsI32(off) && x.pos <= |m.ctx.input|
    requires (if greedy then A else K) == (if gotoFirst then pc + 5 + off else pc + 5)
    requires (if greedy then K else A) == (if gotoFirst then pc + 5 else pc + 5 + off)
    requires var s := if greedy then saved + [Saved(SplitState, K, x.pos, x.caps, stack1, 0)] else saved;
             Explores(m, Here(x, A, stack1, s), again, end, stack2, s)
    requires var s := if greedy then saved else saved + [Saved(SplitState, A, x.pos, x.caps, stack1, 0)];
             Reaches(m, Here(x, K, stack1, s), Here(x, end, stack2, s))
    ensures Explores(m, Here(x, pc, stack1, saved), Choose(greedy, again, x), end, stack2, saved)
  {
    hide *;
    SplitStep(m, pc, gotoFirst, off, x, stack1, saved);
    var later := Saved(SplitState, if greedy then K else A, x.pos, x.caps, stack1, 0);
    var s := if greedy then saved else saved + [later];
    HereOne(m, x, end, stack2, s);
    ExploresPrepend(m, Here(x, K, stack1, s), Here(x, end, stack2, s), [x], end, stack2, s);
    SplitExplores(m, x, A, K, greedy, stack1, saved, later, again, end, stack2);
    ExploresStep(m, Here(x, pc, stack1, saved), Choose(greedy, again, x), end, stack2, saved);
  }

  lemma {:induction false} HereOne(m: Machine, x: St, end: int, stack: seq<int>, saved: seq<Saved>)
    ensures Explores(m, Here(x, end, stack, saved), [x], end, stack, saved)
  {
    hide Explores;
    ExploresOne(m, x, end, stack, saved);
  }

  lemma {:induction false} SplitExplores(m: Machine, x: St, A: int, K: int, greedy: bool, stack1: seq<int>,
          saved: seq<Saved>, later: Saved, again: seq<St>, end: int, stack2: seq<int>)
    requires later == Saved(SplitState, if greedy then K else A, x.pos, x.caps, stack1, 0)
    requires Explores(m, Here(x, A, stack1, if greedy then saved + [later] else saved), again, end, stack2,
                      if greedy then saved + [later] else saved)
    requires Explores(m, Here(x, K, stack1, if greedy then saved else saved + [later]), [x], end, stack2,
                      if greedy then saved else saved + [later])
    ensures Explores(m, Here(x, if greedy then A else K, stack1, saved + [later]), Choose(greedy, again, x), end,
        stack2, saved)
  {
    hide Explores;
    if greedy {
      ExploresSplit(m, Here(x, A, stack1, saved + [later]), saved, later, again, [x], end, stack2);
    } else {
      ExploresSplit(m, Here(x, K, stack1, saved + [later]), saved, later, [x], again, end, stack2);
    }
  }

  /** Moving on without a choice after each outcome. */
  lemma {:induction false} ExploresMove(m: Machine, c: Config, l: seq<St>, mid: int, stack1: seq<int>, end: int,
          stack2: seq<int>, saved: seq<Saved>)
    requires Explores(m, c, l, mid, stack1, saved)
    requires forall y, ext :: y in l && Choices(ext) ==>
               Reaches(m, Here(y, mid, stack1, saved + ext), Here(y, end, stack2, saved + ext))
    ensures Explores(m, c, l, end, stack2, saved)
  {
    hide Explores;
    hide Reaches;
    hide Choices;
    var f := (y: St) => [y];
    forall y, ext | y in l && Choices(ext)
      ensures Explores(m, Run(mid, y.pos, y.caps, stack1, saved + ext), f(y), end, stack2, saved + ext)
    {
      ExploresOne(m, y, end, stack2, saved + ext);
      ExploresPrepend(m, Here(y, mid, stack1, saved + ext), Here(y, end, stack2, saved + ext), [y], end, stack2,
          saved + ext);
    }
    ExploresBind(m, c, l, mid, stack1, saved, f, end, stack2);
    FlatMapUnit(l, f);
  }

  /** Continuing after each outcome. */
  lemma {:induction false} BindExplores(m: Machine, c: Config, l: seq<St>, mid: int, stack1: seq<int>,
          saved: seq<Saved>, f: St -> seq<St>, end: int, stack2: seq<int>)
    requires Explores(m, c, l, mid, stack1, saved)
    requires forall y, ext :: y in l && Choices(ext) ==>
               Explores(m, Here(y, mid, stack1, saved + ext), f(y), end, stack2, saved + ext)
    ensures Explores(m, c, FlatMap(l, f), end, stack2, saved)
  {
    hide Explores;
    hide Choices;
    ExploresBind(m, c, l, mid, stack1, saved, f, end, stack2);
  }

  // ----- patterns that work where they are placed -----

  /** The code of p at pc goes through the matches of p in order and leaves the stack as it was. */
  ghost predicate WorksAt(m: Machine, p: Pattern, back: bool, cc: nat, pc: int, x: St, stack: seq<int>,
          saved: seq<Saved>)
    requires Shaped(p)
  {
    Explores(m, Here(x, pc, stack, saved), Ends(m.ctx, p, back, cc, x),
             pc + Length(Code(m.ctx.flags, p, back, cc)), stack, saved)
  }

  /** It does so from every point of the search, on stacks of the given depth. */
  ghost predicate Works(m: Machine, p: Pattern, back: bool, cc: nat, pc: int, depth: nat)
    requires Shaped(p)
  {
    forall x, stack, saved :: Fits(m.ctx, x) && |stack| == depth ==> WorksAt(m, p, back, cc, pc, x, stack, saved)
  }

  lemma {:induction false} Use(m: Machine, p: Pattern, back: bool, cc: nat, pc: int, end: int, x: St, stack: seq<int>,
          saved: seq<Saved>)
    requires Shaped(p) && Works(m, p, back, cc, pc, |stack|) && Fits(m.ctx, x)
    requires end == pc + Length(Code(m.ctx.flags, p, back, cc))
    ensures Explores(m, Here(x, pc, stack, saved), Ends(m.ctx, p, back, cc, x), end, stack, saved)
  {
    hide Explores;
    hide Ends;
    hide Code;
    hide Fits;
    assert WorksAt(m, p, back, cc, pc, x, stack, saved);
  }

  lemma {:induction false} OnwardFits(m: Ctx, back: bool, x: St, l: seq<St>, y: St)
    requires AllOnward(m, back, x, l) && y in l
    ensures Fits(m, y) && Onward(m, back, x, y) && y.pos <= |m.input|
  {
  }

  lemma {:induction false} ThenAt(m: Ctx, p: Pattern, back: bool, cc: nat, y: St)
    ensures Then(m, p, back, cc)(y) == Ends(m, p, back, cc, y)
  {
    hide Ends;
  }
}
