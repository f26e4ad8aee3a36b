/** The whole program: a compiled pattern, searched for in an input, and what lre_exec answers. */
module ReProgram {
  import opened ReOpcode
  import opened RePattern
  import opened ReCode
  import opened ReMachine
  import opened ReSimple
  import opened RePlaced
  import opened RePieces
  import opened ReQuant
  import opened ReCorrect

  // ----- the search without a machine -----

  /** The matches of the whole pattern from x, with capture 0 around them. */
  ghost function Attempt(m: Ctx, p: Pattern, x: St): seq<St> {
    Ends(m, Capture(p), false, 0, x)
  }

  function NoCaptures(m: Ctx): (caps: seq<Option<nat>>)
    ensures |caps| == 2 * m.captureCount
  {
    seq(2 * m.captureCount, _ => None)
  }

  /** The captures of the preferred match: at start if sticky, else at the first position from
      start on where there is a match. */
  ghost function FirstMatch(m: Ctx, p: Pattern, sticky: bool, start: nat): Option<seq<Option<nat>>>
    requires start <= |m.input|
    decreases |m.input| - start
  {
    var l := Attempt(m, p, St(start, NoCaptures(m)));
    if l != [] then Some(l[0].caps)
    else if sticky || start == |m.input| then None
    else FirstMatch(m, p, sticky, start + 1)
  }

  // ----- the program -----

  /** The search loop in front of the pattern of a program that is not sticky. */
  function Prefix(sticky: bool): seq<Instr> {
    if sticky then [] else [Split(true, 6), AnyChar, Goto(-11)]
  }

  function Program(f: Flags, p: Pattern, sticky: bool): seq<Instr>
    requires Shaped(p)
  {
    Prefix(sticky) + Code(f, Capture(p), false, 0) + [Match]
  }

  const HEADER_LEN := 7

  /** A machine holding a compiled program after its header, with the stack it asked for. */
  ghost predicate Loaded(m: Machine, p: Pattern, sticky: bool) {
    && Shaped(p) && AtCode(m, HEADER_LEN, Program(m.ctx.flags, p, sticky))
    && MaxDepth(Program(m.ctx.flags, p, sticky), 0) <= m.limit
  }

  // ----- running it -----

  lemma {:induction false} PrefixSize(sticky: bool)
    ensures Length(Prefix(sticky)) == (if sticky then 0 else 11) && NetDepth(Prefix(sticky)) == 0
  {
    hide Length;
    hide NetDepth;
    if sticky {
      NoCode();
    } else {
      var s, a, g := Split(true, 6), AnyChar, Goto(-11);
      assert Prefix(sticky) == [s, a] + [g];
      LengthTwo(s, a);
      LengthOne(g);
      BytesAppend([s, a], [g]);
      DepthOfSum([s, a], [g]);
    }
  }

  lemma {:induction false} ProgramParts(m: Machine, p: Pattern, sticky: bool, body: int, end: int)
    requires Loaded(m, p, sticky)
    requires body == HEADER_LEN + (if sticky then 0 else 11)
    requires end == body + Length(Code(m.ctx.flags, Capture(p), false, 0))
    ensures AtCode(m, HEADER_LEN, Prefix(sticky)) && AtCode(m, end, [Match])
    ensures Room(m, body, Code(m.ctx.flags, Capture(p), false, 0), 0)
  {
    hide Prefix;
    hide Code;
    hide AtCode;
    hide MaxDepth;
    hide NetDepth;
    hide Length;
    PrefixSize(sticky);
    var code := Code(m.ctx.flags, Capture(p), false, 0);
    CodeBalanced(m.ctx.flags, Capture(p), false, 0);
    RoomParts(m, HEADER_LEN, Prefix(sticky), code, [Match], Program(m.ctx.flags, p, sticky), 0, 0, 0);
  }

  lemma {:induction false} PrefixParts(m: Machine)
    requires AtCode(m, HEADER_LEN, Prefix(false))
    ensures AtCode(m, HEADER_LEN, [Split(true, 6)]) && AtCode(m, HEADER_LEN + 5, [AnyChar])
    ensures AtCode(m, HEADER_LEN + 6, [Goto(-11)])
  {
    hide AtCode;
    hide Length;
    var s, a, g := Split(true, 6), AnyChar, Goto(-11);
    assert Prefix(false) == [s, a] + [g];
    AtCodeSplit(m, HEADER_LEN, [s, a], [g]);
    LengthTwo(s, a);
    AtTwo(m, HEADER_LEN, s, a);
  }

  lemma {:induction false} EmptyFits(m: Ctx, start: nat)
    requires start <= |m.input|
    ensures Fits(m, St(start, NoCaptures(m)))
  {
  }

  /** A match of the whole pattern ends the run, whatever choices were left. */
  lemma {:induction false} MatchEnds(m: Machine, end: int, y: St, ext: seq<Saved>)
    requires AtCode(m, end, [Match]) && y.pos <= |m.ctx.input| && Choices(ext)
    ensures Reaches(m, Here(y, end, [], ext), Done(Some(y.caps)))
  {
    hide AtCode;
    hide Decode;
    hide Reaches;
    hide Choices;
    StepAt(m, end, Match, y, [], ext);
    hide Exec;
    hide Resume;
    ReachesStep(m, Here(y, end, [], ext));
    assert [] + ext == ext;
    DiscardChoices(m, y.pos, y.caps, [], ext);
    ReachesStep(m, Succeeding(y.pos, y.caps, []));
    hide Step;
    ReachesTrans(m, Here(y, end, [], ext), Succeeding(y.pos, y.caps, ext), Succeeding(y.pos, y.caps, []));
    ReachesTrans(m, Here(y, end, [], ext), Succeeding(y.pos, y.caps, []), Done(Some(y.caps)));
  }

  /** An attempt at one position ends the run or falls back into the states saved below. */
  lemma {:induction false} AttemptRuns(m: Machine, p: Pattern, body: int, end: int, x: St, saved: seq<Saved>)
    requires Shaped(p) && Sound(m.ctx, Capture(p), false, 0) && Fits(m.ctx, x) && Choices(saved)
    requires Room(m, body, Code(m.ctx.flags, Capture(p), false, 0), 0) && AtCode(m, end, [Match])
    requires end == body + Length(Code(m.ctx.flags, Capture(p), false, 0))
    ensures var l := Attempt(m.ctx, p, x);
            Reaches(m, Here(x, body, [], saved), if l == [] then Failing(saved) else Done(Some(l[0].caps)))
  {
    hide Sound;
    hide Room;
    hide Code;
    hide AtCode;
    hide Length;
    hide Ends;
    hide Reaches;
    hide Works;
    hide Everywhere;
    hide Choices;
    hide AllOnward;
    CodeWorks(m, Capture(p), false, 0);
    WorksHere(m, Capture(p), false, 0, body, 0);
    Use(m, Capture(p), false, 0, body, end, x, [], saved);
    EndsOnward(m.ctx, Capture(p), false, 0, x);
    var l := Attempt(m.ctx, p, x);
    if l != [] {
      var ext :| Arrives(m, Here(x, body, [], saved), l, end, [], saved, ext)
                 && Explores(m, Failing(saved + ext), l[1..], end, [], saved);
      assert l[0] in l;
      OnwardFits(m.ctx, false, x, l, l[0]);
      ChoicesAppend(saved, ext);
      MatchEnds(m, end, l[0], saved + ext);
      ReachesTrans(m, Here(x, body, [], saved), Here(l[0], end, [], saved + ext), Done(Some(l[0].caps)));
    }
  }

  lemma {:induction false} FailsOut(m: Machine)
    ensures Reaches(m, Failing([]), Done(None))
  {
    ReachesStep(m, Failing([]));
  }

  /** Moving the search to the next position: the saved choice reads a character and loops. */
  lemma {:induction false} NextPosition(m: Machine, x: St, saved: seq<Saved>)
    requires AtCode(m, HEADER_LEN, Prefix(false)) && x.pos <= |m.ctx.input|
    requires saved == [Saved(SplitState, HEADER_LEN + 5, x.pos, x.caps, [], 0)]
    ensures Reaches(m, Failing(saved),
                    if x.pos < |m.ctx.input| then Here(x.(pos := x.pos + 1), HEADER_LEN, [], []) else Failing([]))
  {
    hide AtCode;
    hide Reaches;
    PrefixParts(m);
    assert saved[..0] == [];
    assert Step(m, Failing(saved)) == Here(x, HEADER_LEN + 5, [], []);
    ReachesStep(m, Failing(saved));
    StepAt(m, HEADER_LEN + 5, AnyChar, x, [], []);
    hide Step;
    var c := Here(x, HEADER_LEN + 5, [], []);
    ReachesStep(m, c);
    ReachesTrans(m, Failing(saved), c, Step(m, c));
    if x.pos < |m.ctx.input| {
      var y := x.(pos := x.pos + 1);
      GotoReaches(m, HEADER_LEN + 6, -11, y, [], []);
      ReachesTrans(m, Failing(saved), Here(y, HEADER_LEN + 6, [], []), Here(y, HEADER_LEN, [], []));
    }
  }

  lemma {:induction false} StickyRuns(m: Machine, p: Pattern, start: nat)
    requires Loaded(m, p, true) && Sound(m.ctx, Capture(p), false, 0) && start <= |m.ctx.input|
    ensures Reaches(m, Run(HEADER_LEN, start, NoCaptures(m.ctx), [], []), Done(FirstMatch(m.ctx, p, true, start)))
  {
    hide Sound;
    hide Room;
    hide Code;
    hide AtCode;
    hide Length;
    hide Reaches;
    hide MaxDepth;
    hide Attempt;
    hide Program;
    var body := HEADER_LEN;
    var end := body + Length(Code(m.ctx.flags, Capture(p), false, 0));
    ProgramParts(m, p, true, body, end);
    var x := St(start, NoCaptures(m.ctx));
    EmptyFits(m.ctx, start);
    AttemptRuns(m, p, body, end, x, []);
    FailsOut(m);
    if Attempt(m.ctx, p, x) == [] {
      ReachesTrans(m, Here(x, body, [], []), Failing([]), Done(None));
    }
  }

  lemma {:induction false} SearchRuns(m: Machine, p: Pattern, start: nat)
    requires Loaded(m, p, false) && Sound(m.ctx, Capture(p), false, 0) && start <= |m.ctx.input|
    ensures Reaches(m, Run(HEADER_LEN, start, NoCaptures(m.ctx), [], []), Done(FirstMatch(m.ctx, p, false, start)))
    decreases |m.ctx.input| - start
  {
    hide Sound;
    hide Room;
    hide Code;
    hide AtCode;
    hide Length;
    hide Reaches;
    hide MaxDepth;
    hide Attempt;
    hide Program;
    hide Step;
    hide Prefix;
    var body := HEADER_LEN + 11;
    var end := body + Length(Code(m.ctx.flags, Capture(p), false, 0));
    ProgramParts(m, p, false, body, end);
    var x := St(start, NoCaptures(m.ctx));
    var c := Here(x, HEADER_LEN, [], []);
    var saved := [Saved(SplitState, HEADER_LEN + 5, x.pos, x.caps, [], 0)];
    EmptyFits(m.ctx, start);
    PrefixParts(m);
    SplitStep(m, HEADER_LEN, true, 6, x, [], []);
    assert [] + saved == saved;
    ReachesStep(m, c);
    AttemptRuns(m, p, body, end, x, saved);
    var l := Attempt(m.ctx, p, x);
    ReachesTrans(m, c, Here(x, body, [], saved), if l == [] then Failing(saved) else Done(Some(l[0].caps)));
    if l == [] {
      NextPosition(m, x, saved);
      FailsOut(m);
      if start < |m.ctx.input| {
        SearchRuns(m, p, start + 1);
        var y := St(start + 1, NoCaptures(m.ctx));
        ReachesTrans(m, c, Failing(saved), Here(y, HEADER_LEN, [], []));
        ReachesTrans(m, c, Here(y, HEADER_LEN, [], []), Done(FirstMatch(m.ctx, p, false, start + 1)));
      } else {
        ReachesTrans(m, c, Failing(saved), Failing([]));
        ReachesTrans(m, c, Failing([]), Done(None));
      }
    }
  }

  /** A loaded program terminates, never leaves its stack or its code, and answers with the
      captures of the first match. */
  lemma {:induction false} ProgramCorrect(m: Machine, p: Pattern, sticky: bool, start: nat)
    requires Loaded(m, p, sticky) && Sound(m.ctx, Capture(p), false, 0) && start <= |m.ctx.input|
    ensures Reaches(m, Run(HEADER_LEN, start, NoCaptures(m.ctx), [], []), Done(FirstMatch(m.ctx, p, sticky, start)))
  {
    hide *;
    if sticky {
      StickyRuns(m, p, start);
    } else {
      SearchRuns(m, p, start);
    }
  }
}
