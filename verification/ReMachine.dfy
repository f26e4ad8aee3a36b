/** The backtracking machine, one step at a time, and what it means for it to go through a list
    of outcomes in order. */
module ReMachine {
  import opened ReOpcode
  import opened RePattern
  import opened ReClass
  import opened ReCode

  datatype SaveKind = SplitState | LookState | NegLookState | GreedyState

  /** A saved state: where to resume, with which captures and stack. The count is only used by
      greedy quantifiers. */
  datatype Saved = Saved(kind: SaveKind, pc: int, pos: nat, caps: seq<Option<nat>>, stack: seq<int>, count: nat)

  /** The machine is running; unwinding its saved states after success or failure; finished; or
      stuck, where the C code would leave its buffers or meet an opcode it does not know. */
  datatype Config =
    | Run(pc: int, pos: nat, caps: seq<Option<nat>>, stack: seq<int>, saved: seq<Saved>)
    | Failing(saved: seq<Saved>)
    | Succeeding(pos: nat, caps: seq<Option<nat>>, saved: seq<Saved>)
    | Done(result: Option<seq<Option<nat>>>)
    | Stuck

  /** limit is the number of machine stack slots, from the header of the bytecode. */
  datatype Machine = Machine(code: seq<byte>, ctx: Ctx, limit: nat)

  // ----- straight-line code under a simple quantifier -----

  datatype Simple = Hit(pos: nat) | Miss | Odd

  /** Does a character instruction accept the (canonicalised) character c? */
  function CharAccepts(m: Ctx, i: Instr, c: int): bool
    requires IsCharInstr(i)
  {
    match i
    case Char(v) => Canon(m.flags, c) == v
    case Char32(v) => Canon(m.flags, c) == v
    case Dot => !IsLineTerminator(c)
    case AnyChar => true
    case Range(pairs) => Accepts16(pairs, Canon(m.flags, c))
    case Range32(pairs) => Accepts32(pairs, Canon(m.flags, c))
  }

  function TestHolds(m: Ctx, i: Instr, pos: nat): bool
    requires IsTestInstr(i) && pos <= |m.input|
  {
    match i
    case LineStart => pos == 0 || (m.flags.multiLine && IsLineTerminator(m.input[pos - 1]))
    case LineEnd => pos == |m.input| || (m.flags.multiLine && IsLineTerminator(m.input[pos]))
    case WordBoundary(negated) => (WordBefore(m, pos) != WordAt(m, pos)) != negated
  }

  /** The recursive call with no_recurse set: run to the match opcode without saving states. */
  function RunSimple(m: Machine, pc: nat, pos: nat): Simple
    decreases |m.code| - pc
  {
    match Decode(m.code, pc)
    case None => Odd
    case Some(i) =>
      if pos > |m.ctx.input| || pc >= |m.code| then Odd
      else if i.Match? then Hit(pos)
      else if IsCharInstr(i) then
        if pos < |m.ctx.input| && CharAccepts(m.ctx, i, m.ctx.input[pos]) then RunSimple(m, pc + Size(i), pos + 1)
        else Miss
      else if IsTestInstr(i) then
        if TestHolds(m.ctx, i, pos) then RunSimple(m, pc + Size(i), pos) else Miss
      else Odd
  }

  /** Runs the atom as often as it matches, up to max; the result is the position and the
      number of repetitions. */
  function RunGreedy(m: Machine, pc: nat, pos: nat, q: nat, max: int): Option<(nat, nat)>
    decreases |m.ctx.input| - pos
  {
    match RunSimple(m, pc, pos)
    case Odd => None
    case Miss => Some((pos, q))
    case Hit(pos') =>
      if !(pos < pos' <= |m.ctx.input|) then None
      else if q + 1 >= max && max != INT32_MAX then Some((pos', q + 1))
      else RunGreedy(m, pc, pos', q + 1, max)
  }

  // ----- one step -----

  function Step(m: Machine, c: Config): Config {
    match c
    case Run(pc, pos, caps, stack, saved) =>
      if pc < 0 || pos > |m.ctx.input| then Stuck
      else match Decode(m.code, pc) {
        case None => Stuck
        case Some(i) => Exec(m, i, pc + Size(i), pos, caps, stack, saved)
      }
    case Failing(saved) => if |saved| == 0 then Done(None) else Resume(m, saved[|saved| - 1], saved[..|saved| - 1])
    case Succeeding(pos, caps, saved) =>
      if |saved| == 0 then Done(Some(caps))
      else
        var top, rest := saved[|saved| - 1], saved[..|saved| - 1];
        (match top.kind
         case SplitState => Succeeding(pos, caps, rest)
         case GreedyState => Succeeding(pos, caps, rest)
         case LookState => Run(top.pc, top.pos, caps, top.stack, rest)
         case NegLookState => Failing(rest))
    case Done(_) => c
    case Stuck => Stuck
  }

  /** Failure with a saved state on top. */
  function Resume(m: Machine, top: Saved, rest: seq<Saved>): Config {
    match top.kind
    case SplitState => Run(top.pc, top.pos, top.caps, top.stack, rest)
    case LookState => Failing(rest)
    case NegLookState => Run(top.pc, top.pos, top.caps, top.stack, rest)
    case GreedyState =>
      // one repetition less: step back over its characters
      if top.pc < 1 || top.count == 0 then Stuck
      else match Decode(m.code, top.pc - 1) {
        case Some(SimpleGreedyQuant(next, _, _, count)) =>
          if top.pos < count || count < 0 then Stuck
          else
            var pos := top.pos - count;
            var again := top.(pos := pos, count := top.count - 1);
            Run(top.pc + 16 + next, pos, top.caps, top.stack, if again.count == 0 then rest else rest + [again])
        case _ => Stuck
      }
  }

  /** The effect of an instruction; pc is the address after it. */
  function Exec(m: Machine, i: Instr, pc: int, pos: nat, caps: seq<Option<nat>>, stack: seq<int>,
          saved: seq<Saved>): Config
    requires pos <= |m.ctx.input| && 0 <= pc
  {
    match i
    case Match => Succeeding(pos, caps, saved)
    case Goto(off) => Run(pc + off, pos, caps, stack, saved)
    case Split(gotoFirst, off) =>
      var (now, later) := if gotoFirst then (pc + off, pc) else (pc, pc + off);
      Run(now, pos, caps, stack, saved + [Saved(SplitState, later, pos, caps, stack, 0)])
    case Lookahead(negated, off) =>
      var kind := if negated then NegLookState else LookState;
      Run(pc, pos, caps, stack, saved + [Saved(kind, pc + off, pos, caps, stack, 0)])
    case Save(isEnd, index) =>
      var k := 2 * index + if isEnd then 1 else 0;
      if 0 <= k < |caps| then Run(pc, pos, caps[k := Some(pos)], stack, saved) else Stuck
    case SaveReset(first, last) =>
      if 0 <= first && 0 <= last && 2 * last + 1 < |caps| then Run(pc, pos, ResetCaps(caps, first, last), stack, saved)
      else Stuck
    case PushI32(v) => if |stack| < m.limit then Run(pc, pos, caps, stack + [v], saved) else Stuck
    case Drop => if |stack| > 0 then Run(pc, pos, caps, stack[..|stack| - 1], saved) else Stuck
    case Loop(off) =>
      if |stack| == 0 then Stuck
      else
        var v := stack[|stack| - 1] - 1;
        Run(if v != 0 then pc + off else pc, pos, caps, stack[|stack| - 1 := v], saved)
    case PushCharPos => if |stack| < m.limit then Run(pc, pos, caps, stack + [pos], saved) else Stuck
    case BneCharPos(off) =>
      if |stack| == 0 then Stuck
      else Run(if stack[|stack| - 1] != pos then pc + off else pc, pos, caps, stack[..|stack| - 1], saved)
    case Prev => if pos == 0 then Failing(saved) else Run(pc, pos - 1, caps, stack, saved)
    case SimpleGreedyQuant(next, min, max, count) =>
      (match RunGreedy(m, pc, pos, 0, max)
       case None => Stuck
       case Some((pos', q)) =>
         if q < min then Failing(saved)
         else Run(pc + next, pos', caps, stack,
                  if q > min then saved + [Saved(GreedyState, pc - 16, pos', caps, stack, q - min)] else saved))
    case LineStart => if TestHolds(m.ctx, i, pos) then Run(pc, pos, caps, stack, saved) else Failing(saved)
    case LineEnd => if TestHolds(m.ctx, i, pos) then Run(pc, pos, caps, stack, saved) else Failing(saved)
    case WordBoundary(_) => if TestHolds(m.ctx, i, pos) then Run(pc, pos, caps, stack, saved) else Failing(saved)
    case _ =>
      if pos < |m.ctx.input| && CharAccepts(m.ctx, i, m.ctx.input[pos]) then Run(pc, pos + 1, caps, stack, saved)
      else Failing(saved)
  }

  function Steps(m: Machine, c: Config, n: nat): Config
    decreases n
  {
    if n == 0 then c else Steps(m, Step(m, c), n - 1)
  }

  ghost predicate Reaches(m: Machine, c: Config, d: Config) {
    exists n: nat :: Steps(m, c, n) == d
  }

  lemma {:induction false} StepsAdd(m: Machine, c: Config, a: nat, b: nat)
    ensures Steps(m, c, a + b) == Steps(m, Steps(m, c, a), b)
    decreases a
  {
    if a > 0 {
      StepsAdd(m, Step(m, c), a - 1, b);
    }
  }

  lemma {:induction false} ReachesRefl(m: Machine, c: Config)
    ensures Reaches(m, c, c)
  {
    assert Steps(m, c, 0) == c;
  }

  lemma {:induction false} ReachesStep(m: Machine, c: Config)
    ensures Reaches(m, c, Step(m, c))
  {
    assert Steps(m, Step(m, c), 0) == Step(m, c);
    assert Steps(m, c, 1) == Step(m, c);
  }

  lemma {:induction false} ReachesTrans(m: Machine, c: Config, d: Config, e: Config)
    requires Reaches(m, c, d) && Reaches(m, d, e)
    ensures Reaches(m, c, e)
  {
    var a: nat :| Steps(m, c, a) == d;
    var b: nat :| Steps(m, d, b) == e;
    StepsAdd(m, c, a, b);
  }

  // ----- going through a list of outcomes -----

  /** Only states that success discards. */
  ghost predicate Choices(ext: seq<Saved>) {
    forall k :: 0 <= k < |ext| ==> ext[k].kind == SplitState || ext[k].kind == GreedyState
  }

  lemma {:induction false} ChoicesAppend(a: seq<Saved>, b: seq<Saved>)
    requires Choices(a) && Choices(b)
    ensures Choices(a + b)
  {
  }

  /** From c the machine arrives at end with each outcome of l in turn - the next one whenever the
      previous one is failed - and fails into saved after the last. On each arrival the stack is
      the given one and the states above saved are choice points. */
  ghost predicate Explores(m: Machine, c: Config, l: seq<St>, end: int, stack: seq<int>, saved: seq<Saved>)
    decreases |l|
  {
    if |l| == 0 then Reaches(m, c, Failing(saved))
    else
      exists ext ::
        Arrives(m, c, l, end, stack, saved, ext) && Explores(m, Failing(saved + ext), l[1..], end, stack, saved)
  }

  ghost predicate Arrives(m: Machine, c: Config, l: seq<St>, end: int, stack: seq<int>, saved: seq<Saved>,
          ext: seq<Saved>)
    requires |l| > 0
  {
    Choices(ext) && Reaches(m, c, Run(end, l[0].pos, l[0].caps, stack, saved + ext))
  }

  lemma {:induction false} ExploresPrepend(m: Machine, c: Config, d: Config, l: seq<St>, end: int, stack: seq<int>,
          saved: seq<Saved>)
    requires Reaches(m, c, d) && Explores(m, d, l, end, stack, saved)
    ensures Explores(m, c, l, end, stack, saved)
  {
    if |l| == 0 {
      ReachesTrans(m, c, d, Failing(saved));
    } else {
      var ext :| Arrives(m, d, l, end, stack, saved, ext)
                 && Explores(m, Failing(saved + ext), l[1..], end, stack, saved);
      ReachesTrans(m, c, d, Run(end, l[0].pos, l[0].caps, stack, saved + ext));
      assert Arrives(m, c, l, end, stack, saved, ext);
    }
  }

  lemma {:induction false} ExploresStep(m: Machine, c: Config, l: seq<St>, end: int, stack: seq<int>, saved: seq<Saved>)
    requires Explores(m, Step(m, c), l, end, stack, saved)
    ensures Explores(m, c, l, end, stack, saved)
  {
    ReachesStep(m, c);
    ExploresPrepend(m, c, Step(m, c), l, end, stack, saved);
  }

  /** Arriving at once, with nothing left to try. */
  lemma {:induction false} ExploresOne(m: Machine, x: St, end: int, stack: seq<int>, saved: seq<Saved>)
    ensures Explores(m, Run(end, x.pos, x.caps, stack, saved), [x], end, stack, saved)
  {
    var c := Run(end, x.pos, x.caps, stack, saved);
    assert saved + [] == saved;
    ReachesRefl(m, c);
    assert Arrives(m, c, [x], end, stack, saved, []);
    ReachesRefl(m, Failing(saved));
    assert [x][1..] == [];
    assert Explores(m, Failing(saved + []), [x][1..], end, stack, saved);
  }

  lemma {:induction false} ExploresNone(m: Machine, end: int, stack: seq<int>, saved: seq<Saved>)
    ensures Explores(m, Failing(saved), [], end, stack, saved)
  {
    ReachesRefl(m, Failing(saved));
  }

  /** After the outcomes of l1 above a choice point come those of l2. */
  lemma {:induction false} ExploresAppend(m: Machine, c: Config, l1: seq<St>, l2: seq<St>, end: int, stack: seq<int>,
          saved: seq<Saved>, ext: seq<Saved>)
    requires Choices(ext)
    requires Explores(m, c, l1, end, stack, saved + ext)
    requires Explores(m, Failing(saved + ext), l2, end, stack, saved)
    ensures Explores(m, c, l1 + l2, end, stack, saved)
    decreases |l1|
  {
    hide Step;
    hide Steps;
    hide Reaches;
    if |l1| == 0 {
      assert l1 + l2 == l2;
      ExploresPrepend(m, c, Failing(saved + ext), l2, end, stack, saved);
    } else {
      var more :| Arrives(m, c, l1, end, stack, saved + ext, more)
                  && Explores(m, Failing(saved + ext + more), l1[1..], end, stack, saved + ext);
      ExploresAppend(m, Failing(saved + ext + more), l1[1..], l2, end, stack, saved, ext);
      assert saved + ext + more == saved + (ext + more);
      ChoicesAppend(ext, more);
      var l := l1 + l2;
      assert l[0] == l1[0] && l[1..] == l1[1..] + l2;
      assert Arrives(m, c, l, end, stack, saved, ext + more);
    }
  }

  /** Continuing after each outcome: if from mid each outcome y leads on to the outcomes f(y). */
  ghost predicate LeadsOn(m: Machine, l: seq<St>, mid: int, stack1: seq<int>, saved: seq<Saved>, f: St -> seq<St>,
          end: int, stack2: seq<int>) {
    forall y, ext :: y in l && Choices(ext) ==>
      Explores(m, Run(mid, y.pos, y.caps, stack1, saved + ext), f(y), end, stack2, saved + ext)
  }

  lemma {:induction false} ExploresBind(m: Machine, c: Config, l: seq<St>, mid: int, stack1: seq<int>,
          saved: seq<Saved>, f: St -> seq<St>, end: int, stack2: seq<int>)
    requires Explores(m, c, l, mid, stack1, saved)
    requires LeadsOn(m, l, mid, stack1, saved, f, end, stack2)
    ensures Explores(m, c, FlatMap(l, f), end, stack2, saved)
    decreases |l|
  {
    if |l| > 0 {
      var ext :| Arrives(m, c, l, mid, stack1, saved, ext)
                 && Explores(m, Failing(saved + ext), l[1..], mid, stack1, saved);
      ExploresBind(m, Failing(saved + ext), l[1..], mid, stack1, saved, f, end, stack2);
      var y := l[0];
      ExploresAppend(m, Run(mid, y.pos, y.caps, stack1, saved + ext), f(y), FlatMap(l[1..], f), end, stack2,
                     saved, ext);
      ExploresPrepend(m, c, Run(mid, y.pos, y.caps, stack1, saved + ext), FlatMap(l, f), end, stack2, saved);
    }
  }

  /** A split whose first branch has the outcomes l1 and whose second has l2. */
  lemma {:induction false} ExploresSplit(m: Machine, first: Config, saved: seq<Saved>, later: Saved, l1: seq<St>,
          l2: seq<St>, end: int, stack: seq<int>)
    requires later.kind == SplitState
    requires Explores(m, first, l1, end, stack, saved + [later])
    requires Explores(m, Run(later.pc, later.pos, later.caps, later.stack, saved), l2, end, stack, saved)
    ensures Explores(m, first, l1 + l2, end, stack, saved)
  {
    var full := saved + [later];
    assert full[|full| - 1] == later && full[..|full| - 1] == saved;
    assert Step(m, Failing(full)) == Run(later.pc, later.pos, later.caps, later.stack, saved);
    ExploresStep(m, Failing(full), l2, end, stack, saved);
    ExploresAppend(m, first, l1, l2, end, stack, saved, [later]);
  }

  /** Success discards choice points. */
  lemma {:induction false} DiscardChoices(m: Machine, pos: nat, caps: seq<Option<nat>>, saved: seq<Saved>,
          ext: seq<Saved>)
    requires Choices(ext)
    ensures Reaches(m, Succeeding(pos, caps, saved + ext), Succeeding(pos, caps, saved))
    decreases |ext|
  {
    if |ext| == 0 {
      assert saved + ext == saved;
      ReachesRefl(m, Succeeding(pos, caps, saved));
    } else {
      var full := saved + ext;
      var ext' := ext[..|ext| - 1];
      assert full[|full| - 1] == ext[|ext| - 1] && full[..|full| - 1] == saved + ext';
      ReachesStep(m, Succeeding(pos, caps, full));
      DiscardChoices(m, pos, caps, saved, ext');
      ReachesTrans(m, Succeeding(pos, caps, full), Succeeding(pos, caps, saved + ext'), Succeeding(pos, caps, saved));
    }
  }
}
