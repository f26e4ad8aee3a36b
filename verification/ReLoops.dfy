/** The loops that the compiler emits for quantifiers: each goes through the repetitions of its
    atom in the order of the search. */
module ReLoops {
  import opened ReOpcode
  import opened RePattern
  import opened ReCode
  import opened ReMachine
  import opened ReSimple
  import opened RePlaced

  /** Every match of the atom moves. */
  ghost predicate Moves(m: Ctx, a: Pattern, back: bool, cc: nat) {
    forall x :: Fits(m, x) ==> MovesFrom(m, a, back, cc, x)
  }

  ghost predicate MovesFrom(m: Ctx, a: Pattern, back: bool, cc: nat, x: St) {
    forall y :: y in Ends(m, a, back, cc, x) ==> Left(m, back, y) < Left(m, back, x)
  }

  // ----- any number of repetitions -----

  /** The loop at pc: a split, the atom, and a jump back to the split that is taken with the
      given stack unless the check finds that the atom did not move. */
  ghost predicate StarLoop(m: Machine, a: Pattern, back: bool, cc: nat, greedy: bool, check: bool, pc: int, len: int,
          depth: nat)
    requires Shaped(a)
  {
    && len == Length(Code(m.ctx.flags, a, back, cc))
    && 0 <= len && len + 10 <= INT32_MAX
    && (if check then
          && greedy && depth < m.limit
          && AtCode(m, pc, [Split(false, len + 6)]) && AtCode(m, pc + 5, [PushCharPos])
          && AtCode(m, pc + 6 + len, [BneCharPos(-(len + 11))])
          && Works(m, a, back, cc, pc + 6, depth + 1)
        else
          && AtCode(m, pc, [Split(!greedy, len + 5)]) && AtCode(m, pc + 5 + len, [Goto(-(len + 10))])
          && Works(m, a, back, cc, pc + 5, depth) && Moves(m.ctx, a, back, cc))
  }

  lemma {:induction false} StarExplores(m: Machine, a: Pattern, back: bool, cc: nat, greedy: bool, check: bool,
          pc: int, len: int, end: int, x: St, stack: seq<int>, saved: seq<Saved>)
    requires Shaped(a) && StarLoop(m, a, back, cc, greedy, check, pc, len, |stack|) && Fits(m.ctx, x)
    requires end == if check then pc + len + 11 else pc + len + 10
    ensures Explores(m, Here(x, pc, stack, saved), Star(m.ctx, a, back, cc, greedy, x), end, stack, saved)
    decreases Left(m.ctx, back, x), 2
  {
    hide *;
    var off := if check then len + 6 else len + 5;
    StarParts(m, a, back, cc, greedy, check, pc, len, |stack|);
    FitsPos(m.ctx, x);
    var later := Saved(SplitState, end, x.pos, x.caps, stack, 0);
    var s := if greedy then saved + [later] else saved;
    var again := FlatMap(Ends(m.ctx, a, back, cc, x), StarNext(m.ctx, a, back, cc, greedy, x));
    StarAgain(m, a, back, cc, greedy, check, pc, len, end, x, stack, s);
    var s2 := if greedy then saved else saved + [Saved(SplitState, pc + 5, x.pos, x.caps, stack, 0)];
    ReachesRefl(m, Here(x, end, stack, s2));
    ChooseExplores(m, pc, greedy, !greedy, off, pc + 5, end, x, stack, end, stack, saved, again);
    StarUnfold(m.ctx, a, back, cc, greedy, x);
  }

  lemma {:induction false} StarUnfold(m: Ctx, a: Pattern, back: bool, cc: nat, greedy: bool, x: St)
    ensures Star(m, a, back, cc, greedy, x)
         == Choose(greedy, FlatMap(Ends(m, a, back, cc, x), StarNext(m, a, back, cc, greedy, x)), x)
  {
    hide Ends;
    hide FlatMap;
    hide StarNext;
    hide Choose;
  }

  lemma {:induction false} StarParts(m: Machine, a: Pattern, back: bool, cc: nat, greedy: bool, check: bool, pc: int,
          len: int, depth: nat)
    requires Shaped(a) && StarLoop(m, a, back, cc, greedy, check, pc, len, depth)
    ensures AtCode(m, pc, [Split(!greedy, if check then len + 6 else len + 5)])
    ensures IsI32(len + 6) && IsI32(len + 5)
  {
    hide AtCode;
    hide Works;
    hide Moves;
    hide Code;
    hide Length;
  }

  /** The branch that repeats. */
  lemma {:induction false} StarAgain(m: Machine, a: Pattern, back: bool, cc: nat, greedy: bool, check: bool, pc: int,
          len: int, end: int, x: St, stack: seq<int>, saved: seq<Saved>)
    requires Shaped(a) && StarLoop(m, a, back, cc, greedy, check, pc, len, |stack|) && Fits(m.ctx, x)
    requires end == if check then pc + len + 11 else pc + len + 10
    ensures Explores(m, Here(x, pc + 5, stack, saved),
                     FlatMap(Ends(m.ctx, a, back, cc, x), StarNext(m.ctx, a, back, cc, greedy, x)), end, stack, saved)
    decreases Left(m.ctx, back, x), 1
  {
    hide *;
    var l := Ends(m.ctx, a, back, cc, x);
    var f := StarNext(m.ctx, a, back, cc, greedy, x);
    var start := if check then pc + 6 else pc + 5;
    var mid := start + len;
    var stack1 := if check then stack + [x.pos] else stack;
    StarEnter(m, a, back, cc, greedy, check, pc, len, x, stack, saved);
    EndsOnward(m.ctx, a, back, cc, x);
    forall y, ext | y in l && Choices(ext)
      ensures Explores(m, Here(y, mid, stack1, saved + ext), f(y), end, stack, saved + ext)
    {
      OnwardFits(m.ctx, back, x, l, y);
      StarMoves(m, a, back, cc, greedy, check, pc, len, |stack|, x, y);
      StarRepeat(m, a, back, cc, greedy, check, pc, len, end, x, y, stack, saved + ext);
    }
    BindExplores(m, Here(x, pc + 5, stack, saved), l, mid, stack1, saved, f, end, stack);
  }

  lemma {:induction false} StarMoves(m: Machine, a: Pattern, back: bool, cc: nat, greedy: bool, check: bool, pc: int,
          len: int, depth: nat, x: St, y: St)
    requires Shaped(a) && StarLoop(m, a, back, cc, greedy, check, pc, len, depth)
    requires Fits(m.ctx, x) && y in Ends(m.ctx, a, back, cc, x)
    ensures check || Left(m.ctx, back, y) < Left(m.ctx, back, x)
  {
    hide AtCode;
    hide Works;
    hide Code;
    hide Length;
    hide Ends;
    hide Fits;
    hide Left;
    if !check {
      assert MovesFrom(m.ctx, a, back, cc, x);
    }
  }

  lemma {:induction false} StarEnter(m: Machine, a: Pattern, back: bool, cc: nat, greedy: bool, check: bool, pc: int,
          len: int, x: St, stack: seq<int>, saved: seq<Saved>)
    requires Shaped(a) && StarLoop(m, a, back, cc, greedy, check, pc, len, |stack|) && Fits(m.ctx, x)
    ensures Explores(m, Here(x, pc + 5, stack, saved), Ends(m.ctx, a, back, cc, x),
                     if check then pc + 6 + len else pc + 5 + len, if check then stack + [x.pos] else stack, saved)
  {
    hide AtCode;
    hide Works;
    hide Code;
    hide Length;
    hide Ends;
    hide Explores;
    hide Reaches;
    hide Moves;
    if check {
      PushReaches(m, pc + 5, PushCharPos, x, stack, saved);
      var mid, stack1 := pc + 6 + len, stack + [x.pos];
      Use(m, a, back, cc, pc + 6, mid, x, stack1, saved);
      ExploresPrepend(m, Here(x, pc + 5, stack, saved), Here(x, pc + 6, stack1, saved),
                      Ends(m.ctx, a, back, cc, x), mid, stack1, saved);
    } else {
      Use(m, a, back, cc, pc + 5, pc + 5 + len, x, stack, saved);
    }
  }

  lemma {:induction false} StarNextAt(m: Ctx, a: Pattern, back: bool, cc: nat, greedy: bool, x: St, y: St)
    requires Onward(m, back, x, y) && Fits(m, x)
    ensures StarNext(m, a, back, cc, greedy, x)(y) == if y.pos != x.pos then Star(m, a, back, cc, greedy, y) else [y]
    ensures Left(m, back, y) < Left(m, back, x) <==> y.pos != x.pos
  {
    hide Star;
  }

  /** After one repetition from x to y: out of the loop, or around again. */
  lemma {:induction false} StarRepeat(m: Machine, a: Pattern, back: bool, cc: nat, greedy: bool, check: bool, pc: int,
          len: int, end: int, x: St, y: St, stack: seq<int>, saved: seq<Saved>)
    requires Shaped(a) && StarLoop(m, a, back, cc, greedy, check, pc, len, |stack|)
    requires Fits(m.ctx, x) && Fits(m.ctx, y) && Onward(m.ctx, back, x, y)
    requires check || Left(m.ctx, back, y) < Left(m.ctx, back, x)
    requires end == if check then pc + len + 11 else pc + len + 10
    ensures Explores(m, Here(y, if check then pc + 6 + len else pc + 5 + len,
                                if check then stack + [x.pos] else stack, saved),
                     StarNext(m.ctx, a, back, cc, greedy, x)(y), end, stack, saved)
    decreases Left(m.ctx, back, x), 0
  {
    hide *;
    StarNextAt(m.ctx, a, back, cc, greedy, x, y);
    StarJump(m, a, back, cc, greedy, check, pc, len, end, x, y, stack, saved);
    var mid := if check then pc + 6 + len else pc + 5 + len;
    var stack1 := if check then stack + [x.pos] else stack;
    var f := StarNext(m.ctx, a, back, cc, greedy, x);
    if y.pos != x.pos {
      StarExplores(m, a, back, cc, greedy, check, pc, len, end, y, stack, saved);
      ExploresPrepend(m, Here(y, mid, stack1, saved), Here(y, pc, stack, saved), f(y), end, stack, saved);
    } else {
      HereOne(m, y, end, stack, saved);
      ExploresPrepend(m, Here(y, mid, stack1, saved), Here(y, end, stack, saved), f(y), end, stack, saved);
    }
  }

  lemma {:induction false} StarJump(m: Machine, a: Pattern, back: bool, cc: nat, greedy: bool, check: bool, pc: int,
          len: int, end: int, x: St, y: St, stack: seq<int>, saved: seq<Saved>)
    requires Shaped(a) && StarLoop(m, a, back, cc, greedy, check, pc, len, |stack|) && Fits(m.ctx, y)
    requires end == if check then pc + len + 11 else pc + len + 10
    requires check || x.pos != y.pos
    ensures Reaches(m, Here(y, if check then pc + 6 + len else pc + 5 + len,
                               if check then stack + [x.pos] else stack, saved),
                    Here(y, if x.pos != y.pos then pc else end, stack, saved))
  {
    hide AtCode;
    hide Works;
    hide Code;
    hide Length;
    hide Reaches;
    hide Moves;
    if check {
      BneReaches(m, pc + 6 + len, -(len + 11), y, stack, x.pos, saved);
    } else {
      GotoReaches(m, pc + 5 + len, -(len + 10), y, stack, saved);
    }
  }

  // ----- one or more repetitions -----

  /** The atom at pc, then a split back to it. */
  ghost predicate PlusLoop(m: Machine, a: Pattern, back: bool, cc: nat, greedy: bool, pc: int, len: int, depth: nat)
    requires Shaped(a)
  {
    && len == Length(Code(m.ctx.flags, a, back, cc))
    && 0 <= len && len + 5 <= INT32_MAX
    && AtCode(m, pc + len, [Split(greedy, -(len + 5))])
    && Works(m, a, back, cc, pc, depth) && Moves(m.ctx, a, back, cc)
  }

  lemma {:induction false} PlusParts(m: Machine, a: Pattern, back: bool, cc: nat, greedy: bool, pc: int, len: int,
          depth: nat)
    requires Shaped(a) && PlusLoop(m, a, back, cc, greedy, pc, len, depth)
    ensures len == Length(Code(m.ctx.flags, a, back, cc)) && IsI32(-(len + 5))
    ensures AtCode(m, pc + len, [Split(greedy, -(len + 5))])
    ensures Works(m, a, back, cc, pc, depth) && Moves(m.ctx, a, back, cc)
  {
    hide AtCode;
    hide Works;
    hide Moves;
    hide Code;
    hide Length;
  }

  /** From the split after the first repetition. */
  lemma {:induction false} PlusExplores(m: Machine, a: Pattern, back: bool, cc: nat, greedy: bool, pc: int, len: int,
          x: St, stack: seq<int>, saved: seq<Saved>)
    requires Shaped(a) && PlusLoop(m, a, back, cc, greedy, pc, len, |stack|) && Fits(m.ctx, x)
    ensures Explores(m, Here(x, pc + len, stack, saved), Star(m.ctx, a, back, cc, greedy, x), pc + len + 5, stack,
        saved)
    decreases Left(m.ctx, back, x), 1
  {
    hide *;
    var end := pc + len + 5;
    PlusParts(m, a, back, cc, greedy, pc, len, |stack|);
    FitsPos(m.ctx, x);
    var s := if greedy then saved + [Saved(SplitState, end, x.pos, x.caps, stack, 0)] else saved;
    var again := FlatMap(Ends(m.ctx, a, back, cc, x), StarNext(m.ctx, a, back, cc, greedy, x));
    PlusAgain(m, a, back, cc, greedy, pc, len, x, stack, s);
    var s2 := if greedy then saved else saved + [Saved(SplitState, pc, x.pos, x.caps, stack, 0)];
    ReachesRefl(m, Here(x, end, stack, s2));
    ChooseExplores(m, pc + len, greedy, greedy, -(len + 5), pc, end, x, stack, end, stack, saved, again);
    StarUnfold(m.ctx, a, back, cc, greedy, x);
  }

  lemma {:induction false} PlusAgain(m: Machine, a: Pattern, back: bool, cc: nat, greedy: bool, pc: int, len: int,
          x: St, stack: seq<int>, saved: seq<Saved>)
    requires Shaped(a) && PlusLoop(m, a, back, cc, greedy, pc, len, |stack|) && Fits(m.ctx, x)
    ensures Explores(m, Here(x, pc, stack, saved),
                     FlatMap(Ends(m.ctx, a, back, cc, x), StarNext(m.ctx, a, back, cc, greedy, x)),
                     pc + len + 5, stack, saved)
    decreases Left(m.ctx, back, x), 0
  {
    hide *;
    var l := Ends(m.ctx, a, back, cc, x);
    var f := StarNext(m.ctx, a, back, cc, greedy, x);
    PlusParts(m, a, back, cc, greedy, pc, len, |stack|);
    Use(m, a, back, cc, pc, pc + len, x, stack, saved);
    EndsOnward(m.ctx, a, back, cc, x);
    forall y, ext | y in l && Choices(ext)
      ensures Explores(m, Here(y, pc + len, stack, saved + ext), f(y), pc + len + 5, stack, saved + ext)
    {
      OnwardFits(m.ctx, back, x, l, y);
      MovesAt(m.ctx, a, back, cc, x, y);
      StarNextAt(m.ctx, a, back, cc, greedy, x, y);
      PlusExplores(m, a, back, cc, greedy, pc, len, y, stack, saved + ext);
    }
    BindExplores(m, Here(x, pc, stack, saved), l, pc + len, stack, saved, f, pc + len + 5, stack);
  }

  lemma {:induction false} MovesAt(m: Ctx, a: Pattern, back: bool, cc: nat, x: St, y: St)
    requires Moves(m, a, back, cc) && Fits(m, x) && y in Ends(m, a, back, cc, x)
    ensures Left(m, back, y) < Left(m, back, x)
  {
    hide Ends;
    hide Left;
    hide Fits;
    assert MovesFrom(m, a, back, cc, x);
  }

  // ----- at most j repetitions, counted on the stack -----

  ghost predicate CountedLoop(m: Machine, a: Pattern, back: bool, cc: nat, greedy: bool, pc: int, len: int, depth: nat)
    requires Shaped(a)
  {
    && len == Length(Code(m.ctx.flags, a, back, cc))
    && 0 <= len && len + 11 <= INT32_MAX
    && AtCode(m, pc, [Split(!greedy, len + 5)])
    && AtCode(m, pc + 5 + len, [Loop(-(len + 10))]) && AtCode(m, pc + 10 + len, [Drop])
    && Works(m, a, back, cc, pc + 5, depth + 1)
  }

  lemma {:induction false} CountedParts(m: Machine, a: Pattern, back: bool, cc: nat, greedy: bool, pc: int, len: int,
          depth: nat)
    requires Shaped(a) && CountedLoop(m, a, back, cc, greedy, pc, len, depth)
    ensures len == Length(Code(m.ctx.flags, a, back, cc)) && IsI32(len + 5) && IsI32(-(len + 10))
    ensures AtCode(m, pc, [Split(!greedy, len + 5)])
    ensures AtCode(m, pc + 5 + len, [Loop(-(len + 10))]) && AtCode(m, pc + 10 + len, [Drop])
    ensures Works(m, a, back, cc, pc + 5, depth + 1)
  {
    hide AtCode;
    hide Works;
    hide Code;
    hide Length;
  }

  lemma {:induction false} CountedExplores(m: Machine, a: Pattern, back: bool, cc: nat, greedy: bool, pc: int,
          len: int, j: nat, x: St, stack: seq<int>, saved: seq<Saved>)
    requires Shaped(a) && CountedLoop(m, a, back, cc, greedy, pc, len, |stack|) && Fits(m.ctx, x) && j > 0
    ensures Explores(m, Here(x, pc, stack + [j], saved), UpTo(m.ctx, a, back, cc, j, greedy, x), pc + len + 11, stack,
        saved)
    decreases j, 1
  {
    hide *;
    var end := pc + len + 11;
    CountedParts(m, a, back, cc, greedy, pc, len, |stack|);
    FitsPos(m.ctx, x);
    var s := if greedy then saved + [Saved(SplitState, pc + 10 + len, x.pos, x.caps, stack + [j], 0)] else saved;
    var again := FlatMap(Ends(m.ctx, a, back, cc, x), UpToNext(m.ctx, a, back, cc, j - 1, greedy));
    CountedAgain(m, a, back, cc, greedy, pc, len, j, x, stack, s);
    var s2 := if greedy then saved else saved + [Saved(SplitState, pc + 5, x.pos, x.caps, stack + [j], 0)];
    DropReaches(m, pc + 10 + len, x, stack, j, s2);
    ChooseExplores(m, pc, greedy, !greedy, len + 5, pc + 5, pc + 10 + len, x, stack + [j], end, stack, saved, again);
    UpToUnfold(m.ctx, a, back, cc, j, greedy, x);
  }

  lemma {:induction false} UpToUnfold(m: Ctx, a: Pattern, back: bool, cc: nat, n: nat, greedy: bool, x: St)
    ensures UpTo(m, a, back, cc, n, greedy, x)
         == if n == 0 then [x]
            else Choose(greedy, FlatMap(Ends(m, a, back, cc, x), UpToNext(m, a, back, cc, n - 1, greedy)), x)
  {
    hide Ends;
    hide FlatMap;
    hide UpToNext;
    hide Choose;
  }

  lemma {:induction false} CountedAgain(m: Machine, a: Pattern, back: bool, cc: nat, greedy: bool, pc: int, len: int,
          j: nat, x: St, stack: seq<int>, saved: seq<Saved>)
    requires Shaped(a) && CountedLoop(m, a, back, cc, greedy, pc, len, |stack|) && Fits(m.ctx, x) && j > 0
    ensures Explores(m, Here(x, pc + 5, stack + [j], saved),
                     FlatMap(Ends(m.ctx, a, back, cc, x), UpToNext(m.ctx, a, back, cc, j - 1, greedy)),
                     pc + len + 11, stack, saved)
    decreases j, 0
  {
    hide *;
    var l := Ends(m.ctx, a, back, cc, x);
    var f := UpToNext(m.ctx, a, back, cc, j - 1, greedy);
    var mid, end := pc + 5 + len, pc + len + 11;
    CountedParts(m, a, back, cc, greedy, pc, len, |stack|);
    Use(m, a, back, cc, pc + 5, mid, x, stack + [j], saved);
    EndsOnward(m.ctx, a, back, cc, x);
    forall y, ext | y in l && Choices(ext)
      ensures Explores(m, Here(y, mid, stack + [j], saved + ext), f(y), end, stack, saved + ext)
    {
      OnwardFits(m.ctx, back, x, l, y);
      UpToNextAt(m.ctx, a, back, cc, j - 1, greedy, y);
      LoopReaches(m, mid, -(len + 10), y, stack, j, saved + ext);
      if j == 1 {
        DropReaches(m, mid + 5, y, stack, 0, saved + ext);
        UpToUnfold(m.ctx, a, back, cc, 0, greedy, y);
        HereOne(m, y, end, stack, saved + ext);
        ExploresPrepend(m, Here(y, mid + 5, stack + [0], saved + ext), Here(y, end, stack, saved + ext), f(y), end,
            stack, saved + ext);
        ExploresPrepend(m, Here(y, mid, stack + [j], saved + ext), Here(y, mid + 5, stack + [0], saved + ext), f(y),
            end, stack, saved + ext);
      } else {
        CountedExplores(m, a, back, cc, greedy, pc, len, j - 1, y, stack, saved + ext);
        ExploresPrepend(m, Here(y, mid, stack + [j], saved + ext), Here(y, pc, stack + [j - 1], saved + ext), f(y),
            end, stack, saved + ext);
      }
    }
    BindExplores(m, Here(x, pc + 5, stack + [j], saved), l, mid, stack + [j], saved, f, end, stack);
  }

  lemma {:induction false} UpToNextAt(m: Ctx, a: Pattern, back: bool, cc: nat, n: nat, greedy: bool, y: St)
    ensures UpToNext(m, a, back, cc, n, greedy)(y) == UpTo(m, a, back, cc, n, greedy, y)
  {
    hide UpTo;
  }

  // ----- exactly j repetitions, counted on the stack -----

  ghost predicate RepeatLoop(m: Machine, a: Pattern, back: bool, cc: nat, pc: int, len: int, depth: nat)
    requires Shaped(a)
  {
    && len == Length(Code(m.ctx.flags, a, back, cc))
    && 0 <= len && len + 11 <= INT32_MAX
    && AtCode(m, pc + len, [Loop(-(len + 5))]) && AtCode(m, pc + len + 5, [Drop])
    && Works(m, a, back, cc, pc, depth + 1)
  }

  lemma {:induction false} RepeatParts(m: Machine, a: Pattern, back: bool, cc: nat, pc: int, len: int, depth: nat)
    requires Shaped(a) && RepeatLoop(m, a, back, cc, pc, len, depth)
    ensures len == Length(Code(m.ctx.flags, a, back, cc)) && IsI32(-(len + 5))
    ensures AtCode(m, pc + len, [Loop(-(len + 5))]) && AtCode(m, pc + len + 5, [Drop])
    ensures Works(m, a, back, cc, pc, depth + 1)
  {
    hide AtCode;
    hide Works;
    hide Code;
    hide Length;
  }

  lemma {:induction false} RepeatExplores(m: Machine, a: Pattern, back: bool, cc: nat, pc: int, len: int, j: nat,
          x: St, stack: seq<int>, saved: seq<Saved>)
    requires Shaped(a) && RepeatLoop(m, a, back, cc, pc, len, |stack|) && Fits(m.ctx, x) && j > 0
    ensures Explores(m, Here(x, pc, stack + [j], saved), Exactly(m.ctx, a, back, cc, j, x), pc + len + 6, stack, saved)
    decreases j
  {
    hide *;
    var l := Ends(m.ctx, a, back, cc, x);
    var f := ExactlyNext(m.ctx, a, back, cc, j - 1);
    var mid, end := pc + len, pc + len + 6;
    RepeatParts(m, a, back, cc, pc, len, |stack|);
    Use(m, a, back, cc, pc, mid, x, stack + [j], saved);
    EndsOnward(m.ctx, a, back, cc, x);
    forall y, ext | y in l && Choices(ext)
      ensures Explores(m, Here(y, mid, stack + [j], saved + ext), f(y), end, stack, saved + ext)
    {
      OnwardFits(m.ctx, back, x, l, y);
      ExactlyNextAt(m.ctx, a, back, cc, j - 1, y);
      LoopReaches(m, mid, -(len + 5), y, stack, j, saved + ext);
      if j == 1 {
        DropReaches(m, mid + 5, y, stack, 0, saved + ext);
        HereOne(m, y, end, stack, saved + ext);
        ExploresPrepend(m, Here(y, mid + 5, stack + [0], saved + ext), Here(y, end, stack, saved + ext), f(y), end,
            stack, saved + ext);
        ExploresPrepend(m, Here(y, mid, stack + [j], saved + ext), Here(y, mid + 5, stack + [0], saved + ext), f(y),
            end, stack, saved + ext);
      } else {
        RepeatExplores(m, a, back, cc, pc, len, j - 1, y, stack, saved + ext);
        ExploresPrepend(m, Here(y, mid, stack + [j], saved + ext), Here(y, pc, stack + [j - 1], saved + ext), f(y),
            end, stack, saved + ext);
      }
    }
    BindExplores(m, Here(x, pc, stack + [j], saved), l, mid, stack + [j], saved, f, end, stack);
    ExactlyUnfold(m.ctx, a, back, cc, j, x);
  }

  lemma {:induction false} ExactlyNextAt(m: Ctx, a: Pattern, back: bool, cc: nat, n: nat, y: St)
    ensures ExactlyNext(m, a, back, cc, n)(y) == Exactly(m, a, back, cc, n, y)
    ensures n == 0 ==> Exactly(m, a, back, cc, n, y) == [y]
  {
    hide Ends;
    hide FlatMap;
  }

  lemma {:induction false} ExactlyUnfold(m: Ctx, a: Pattern, back: bool, cc: nat, n: nat, x: St)
    requires n > 0
    ensures Exactly(m, a, back, cc, n, x) == FlatMap(Ends(m, a, back, cc, x), ExactlyNext(m, a, back, cc, n - 1))
  {
    hide Ends;
    hide FlatMap;
    hide ExactlyNext;
  }
}
