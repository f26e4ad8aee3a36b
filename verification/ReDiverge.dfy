/** Why the fragment asks that a non-greedy unbounded loop move: the compiler gives such loops no
    zero-advance check, so one whose body matches nothing can run for ever. */
module ReDiverge {
  import opened ReOpcode
  import opened RePattern
  import opened ReCode
  import opened ReMachine
  import opened ReSimple
  import opened RePlaced
  import opened ReQuant
  import opened ReProgram
  import opened ReParse
  import opened ReCompile

  /** (?:)*?a */
  function Idle(): Pattern {
    Concat(Concat(Empty, Quant(Group(Empty), 0, INFINITE, false)), Literal(97))
  }

  lemma {:induction false} IdleCode(f: Flags)
    requires !f.ignoreCase
    ensures IsDisjunction(Idle()) && Acceptable(Idle(), 1) && !InFragment(f, Idle())
    ensures Code(f, Idle(), false, 1) == [Split(true, 5), Goto(-10)] + [Instr.Char(97)]
  {
    var loop := Quant(Group(Empty), 0, INFINITE, false);
    var t := Concat(Empty, loop);
    IdleParsed(loop, t);
    LoopCode(f, loop);
    CodePairs(f, Empty, loop, false, 1);
    CodePairs(f, t, Literal(97), false, 1);
    assert [] + [Split(true, 5), Goto(-10)] == [Split(true, 5), Goto(-10)];
    LiteralCode(f);
    hide Code;
    hide QuantCode;
    hide IsDisjunction;
    hide Acceptable;
    OutsideFragment(f, loop, t);
  }

  lemma {:induction false} OutsideFragment(f: Flags, loop: Pattern, t: Pattern)
    requires loop == Quant(Group(Empty), 0, INFINITE, false) && t == Concat(Empty, loop)
    ensures !InFragment(f, Concat(t, Literal(97)))
  {
    assert !InFragment(f, loop);
    assert !InFragment(f, t);
  }

  lemma {:induction false} IdleParsed(loop: Pattern, t: Pattern)
    requires loop == Quant(Group(Empty), 0, INFINITE, false) && t == Concat(Empty, loop)
    ensures IsAlternative(Concat(t, Literal(97))) && Acceptable(Concat(t, Literal(97)), 1)
  {
    assert IsTerm(loop) && IsAlternative(Empty);
    assert IsAlternative(t) && IsTerm(Literal(97));
    assert Acceptable(loop, 1) && Acceptable(t, 1);
  }

  lemma {:induction false} LiteralCode(f: Flags)
    requires !f.ignoreCase
    ensures Code(f, Literal(97), false, 1) == [Instr.Char(97)]
    ensures CapCount(Literal(97)) == 0 && CapCount(Empty) == 0 && Code(f, Empty, false, 1) == []
  {
  }

  lemma {:induction false} LoopCode(f: Flags, loop: Pattern)
    requires loop == Quant(Group(Empty), 0, INFINITE, false)
    ensures Code(f, loop, false, 1) == [Split(true, 5), Goto(-10)] && CapCount(loop) == 0
  {
    CodeOuter(f, Empty, false, 1);
    CodeOuter(f, Group(Empty), false, 1);
    assert Code(f, Group(Empty), false, 1) == [];
    assert CapCount(Group(Empty)) == CapCount(Empty) == 0;
    EmptyLoop();
    hide QuantCode;
    hide Code;
  }

  lemma {:induction false} EmptyLoop()
    ensures QuantCode([], 1, 1, 0, INFINITE, false) == [Split(true, 5), Goto(-10)]
  {
    NoCode();
  }

  lemma {:induction false} IdleLayout(m: Machine)
    requires Loaded(m, Idle(), true) && !m.ctx.flags.ignoreCase
    ensures AtCode(m, 7, [Save(false, 0)]) && AtCode(m, 9, [Split(true, 5)])
    ensures AtCode(m, 14, [Goto(-10)]) && AtCode(m, 19, [Instr.Char(97)])
  {
    hide AtCode;
    hide Length;
    hide MaxDepth;
    hide Code;
    hide Idle;
    hide Acceptable;
    hide InFragment;
    hide IsDisjunction;
    var v, s, g, c := Save(false, 0), Split(true, 5), Goto(-10), Instr.Char(97);
    IdleProgram(m.ctx.flags, v, s, g, c);
    hide Program;
    var rest := [Save(true, 0)] + [Match];
    AtCodeSplit(m, 7, [v], [s, g] + ([c] + rest));
    LengthOne(v);
    AtCodeSplit(m, 9, [s, g], [c] + rest);
    LengthTwo(s, g);
    AtTwo(m, 9, s, g);
    AtCodeSplit(m, 19, [c], rest);
  }

  lemma {:induction false} IdleProgram(f: Flags, v: Instr, s: Instr, g: Instr, c: Instr)
    requires !f.ignoreCase && v == Save(false, 0) && s == Split(true, 5) && g == Goto(-10) && c == Instr.Char(97)
    ensures Shaped(Idle())
    ensures Program(f, Idle(), true) == [v] + ([s, g] + ([c] + ([Save(true, 0)] + [Match])))
  {
    IdleCode(f);
    CodeBodies(f, Idle(), false, false, false, 0);
    hide Code;
    hide Idle;
  }

  /** Four steps around the loop, back to where it was. */
  lemma {:induction false} Around(m: Machine, caps: seq<Option<nat>>)
    requires Loaded(m, Idle(), true) && !m.ctx.flags.ignoreCase && m.ctx.input == []
    ensures var x := St(0, caps);
            var saved := [Saved(SplitState, 14, 0, caps, [], 0)];
            && Step(m, Here(x, 9, [], [])) == Here(x, 19, [], saved)
            && Step(m, Here(x, 19, [], saved)) == Failing(saved)
            && Step(m, Failing(saved)) == Here(x, 14, [], [])
            && Step(m, Here(x, 14, [], [])) == Here(x, 9, [], [])
  {
    hide AtCode;
    hide Loaded;
    hide Decode;
    hide CharAccepts;
    IdleLayout(m);
    var x := St(0, caps);
    var saved := [Saved(SplitState, 14, 0, caps, [], 0)];
    SplitStep(m, 9, true, 5, x, [], []);
    assert [] + saved == saved;
    StepAt(m, 19, Instr.Char(97), x, [], saved);
    StepAt(m, 14, Goto(-10), x, [], []);
    assert saved[..0] == [];
  }

  lemma {:induction false} NeverDone(m: Machine, caps: seq<Option<nat>>, n: nat)
    requires Loaded(m, Idle(), true) && !m.ctx.flags.ignoreCase && m.ctx.input == []
    ensures !Steps(m, Here(St(0, caps), 9, [], []), n).Done?
    decreases n
  {
    hide Loaded;
    hide Step;
    var x := St(0, caps);
    var saved := [Saved(SplitState, 14, 0, caps, [], 0)];
    Around(m, caps);
    if n > 0 {
      assert Steps(m, Here(x, 9, [], []), n) == Steps(m, Here(x, 19, [], saved), n - 1);
      if n > 1 {
        assert Steps(m, Here(x, 19, [], saved), n - 1) == Steps(m, Failing(saved), n - 2);
        if n > 2 {
          assert Steps(m, Failing(saved), n - 2) == Steps(m, Here(x, 14, [], []), n - 3);
          if n > 3 {
            NeverDone(m, caps, n - 4);
          }
        }
      }
    }
  }

  lemma {:induction false} SaveGoes(m: Machine, x: St)
    requires AtCode(m, 7, [Save(false, 0)]) && Fits(m.ctx, x) && m.ctx.captureCount > 0
    ensures Step(m, Run(7, x.pos, x.caps, [], [])) == Here(SetCap(x, 0), 9, [], [])
  {
    hide AtCode;
    StepAt(m, 7, Save(false, 0), x, [], []);
    hide Step;
  }

  /** The pattern (?:)*?a compiles, and on the empty input its run never ends. */
  lemma {:induction false} NonGreedyRunsForever(m: Machine, n: nat)
    requires Loaded(m, Idle(), true) && !m.ctx.flags.ignoreCase && m.ctx.input == [] && m.ctx.captureCount == 1
    ensures IsDisjunction(Idle()) && Acceptable(Idle(), 1)
    ensures !Steps(m, Run(HEADER_LEN, 0, NoCaptures(m.ctx), [], []), n).Done?
  {
    hide Loaded;
    hide AtCode;
    hide Step;
    hide Idle;
    hide IsDisjunction;
    hide Acceptable;
    hide Code;
    hide InFragment;
    IdleCode(m.ctx.flags);
    IdleLayout(m);
    var x := St(0, NoCaptures(m.ctx));
    EmptyFits(m.ctx, 0);
    SaveGoes(m, x);
    hide NoCaptures;
    hide Fits;
    if n > 0 {
      NeverDone(m, SetCap(x, 0).caps, n - 1);
    }
  }
}
