/** The machine's stack during a run: for every pattern the parser accepts, whether or not its run
    ends, the stack is at every moment as deep as the linear scan says, so it never exceeds the
    size in the header. */
module ReStack {
  import opened ReOpcode
  import opened RePattern
  import opened ReClass
  import opened ReCode
  import opened ReMachine
  import opened ReSimple
  import opened RePlaced
  import opened ReProgram
  import opened ReParse
  import opened ReDepth
  import opened ReCompile

  // ----- operands fit their fields -----

  /** Literals fold to 32-bit code points, and classes are in normal form. */
  ghost predicate Lexical(f: Flags, p: Pattern) {
    match p
    case Literal(ch) => IsU32(Canon(f, ch))
    case Class(points) => NormalSet(points)
    case Concat(a, b) => Lexical(f, a) && Lexical(f, b)
    case Alt(a, b) => Lexical(f, a) && Lexical(f, b)
    case Group(b) => Lexical(f, b)
    case Capture(b) => Lexical(f, b)
    case Look(b, _, _) => Lexical(f, b)
    case Quant(a, _, _, _) => Lexical(f, a)
    case _ => true
  }

  /** Everything but the jump offset fits. */
  predicate Fitting(i: Instr) {
    if i.SimpleGreedyQuant? then IsU32(i.min) && IsU32(i.max) && IsU32(i.count)
    else IsJump(i) || Encodable(i)
  }

  predicate AllFitting(code: seq<Instr>) {
    forall k :: 0 <= k < |code| ==> Fitting(code[k])
  }

  lemma {:induction false} FittingAppend(a: seq<Instr>, b: seq<Instr>)
    requires AllFitting(a) && AllFitting(b)
    ensures AllFitting(a + b)
  {
    hide Fitting;
  }

  lemma {:induction false} QuantFitting(atom: seq<Instr>, lo: nat, hi: nat, min: nat, max: nat, greedy: bool)
    requires min <= max <= INFINITE && lo <= hi <= 255 && AllFitting(atom) && Length(atom) <= INT32_MAX
    ensures AllFitting(QuantCode(atom, lo, hi, min, max, greedy))
  {
    hide Length;
    hide SimpleCount;
    hide Advance;
    SimpleCountBound(atom);
    var check := greedy && Advance(atom) == 0;
    var reset := if lo != hi then [SaveReset(lo, hi - 1)] else [];
    assert AllFitting(reset);
    if greedy && max > 0 && SimpleCount(atom) > 0 {
      var q := SimpleGreedyQuant(Length(atom) + 1, min, max, SimpleCount(atom));
      assert Fitting(q) && Fitting(Match);
      hide Fitting;
    } else {
      QuantCodeIs(atom, lo, hi, min, max, greedy, check);
      LoopsFitting(atom, min, max, greedy, check);
      hide Fitting;
      hide StarCode;
      hide CountedCode;
      hide RepeatCode;
      hide PlusCode;
      FittingAppend(reset, OptionalCode(atom, max, greedy, check));
      FittingAppend(FirstCode(atom, min), MoreCode(atom, min, max, greedy, check));
    }
  }

  lemma {:induction false} LoopsFitting(atom: seq<Instr>, min: nat, max: nat, greedy: bool, check: bool)
    requires min <= max <= INFINITE && AllFitting(atom)
    ensures AllFitting(StarCode(atom, greedy, check)) && AllFitting(PlusCode(atom, greedy))
    ensures AllFitting(RepeatCode(atom, min))
    ensures AllFitting(OptionalCode(atom, max, greedy, check)) && AllFitting(MoreCode(atom, min, max, greedy, check))
  {
    hide Length;
    hide Fitting;
    assert Fitting(PushI32(min)) && Fitting(PushI32(max)) && Fitting(PushI32(max - min)) by {
      PushFits(min);
      PushFits(max);
      PushFits(max - min);
    }
    LoopInstrsFit();
  }

  lemma {:induction false} PushFits(n: nat)
    requires n <= INFINITE
    ensures Fitting(PushI32(n))
  {
  }

  lemma {:induction false} LoopInstrsFit()
    ensures Fitting(Drop) && Fitting(PushCharPos)
    ensures forall b, off :: Fitting(Split(b, off))
    ensures forall off :: Fitting(Goto(off)) && Fitting(Loop(off)) && Fitting(BneCharPos(off))
  {
  }

  lemma {:induction false} CodeFitting(f: Flags, p: Pattern, back: bool, cc: nat)
    requires Parsed(p) && Lexical(f, p) && Acceptable(p, cc)
    requires cc + CapCount(p) <= 255 && Length(Code(f, p, back, cc)) <= INT32_MAX
    ensures AllFitting(Code(f, p, back, cc))
  {
    hide Length;
    hide QuantCode;
    hide AltCode;
    hide LookCode;
    hide Fitting;
    hide Advance;
    hide NormalSet;
    hide CharCode;
    hide AllFitting;
    hide Code;
    hide Parsed;
    hide Canon;
    ParsedParts(p);
    match p
    case Concat(a, b) =>
      var ca, cb := Code(f, a, back, cc), Code(f, b, back, cc + CapCount(a));
      CodePairs(f, a, b, back, cc);
      PairSize(ca, cb, back);
      CodeFitting(f, a, back, cc);
      CodeFitting(f, b, back, cc + CapCount(a));
      PairFitting(ca, cb, back);
    case Alt(a, b) =>
      CodePairs(f, a, b, back, cc);
      AltSize(Code(f, a, back, cc), Code(f, b, back, cc + CapCount(a)));
      CodeFitting(f, a, back, cc);
      CodeFitting(f, b, back, cc + CapCount(a));
      AltFitting(Code(f, a, back, cc), Code(f, b, back, cc + CapCount(a)));
    case Group(b) =>
      CodeOuter(f, b, back, cc);
      CodeFitting(f, b, back, cc);
    case Capture(b) =>
      CodeBodies(f, b, false, false, back, cc);
      Around(Save(back, cc), Code(f, b, back, cc + 1), Save(!back, cc), Code(f, p, back, cc));
      CodeFitting(f, b, back, cc + 1);
      CaptureFitting(Code(f, b, back, cc + 1), back, cc);
    case Look(b, negated, backward) =>
      CodeBodies(f, b, negated, backward, back, cc);
      LookSize(Code(f, b, backward, cc), negated);
      CodeFitting(f, b, backward, cc);
      LookFitting(Code(f, b, backward, cc), negated);
    case Quant(a, min, max, greedy) =>
      CodeOuter(f, a, back, cc);
      QuantSize(Code(f, a, back, cc), cc, cc + CapCount(a), min, max, greedy);
      if max == 0 {
        ZeroFitting(Code(f, a, back, cc), cc, cc + CapCount(a), min, max, greedy);
      } else {
        CodeFitting(f, a, back, cc);
        QuantFitting(Code(f, a, back, cc), cc, cc + CapCount(a), min, max, greedy);
      }
    case _ => LeafFitting(f, p, back, cc);
  }

  lemma {:induction false} PairSize(a: seq<Instr>, b: seq<Instr>, back: bool)
    ensures Length(if back then b + a else a + b) == Length(a) + Length(b)
  {
    hide Length;
    BytesAppend(a, b);
    BytesAppend(b, a);
  }

  lemma {:induction false} PairFitting(a: seq<Instr>, b: seq<Instr>, back: bool)
    requires AllFitting(a) && AllFitting(b)
    ensures AllFitting(if back then b + a else a + b)
  {
    FittingAppend(a, b);
    FittingAppend(b, a);
  }

  lemma {:induction false} SaveFits(isEnd: bool, index: nat)
    requires index < 256
    ensures Fitting(Save(isEnd, index))
  {
  }

  lemma {:induction false} CaptureFitting(body: seq<Instr>, back: bool, cc: nat)
    requires AllFitting(body) && cc < 256
    ensures AllFitting([Save(back, cc)] + body + [Save(!back, cc)])
  {
    SaveFits(back, cc);
    SaveFits(!back, cc);
    hide Fitting;
  }

  lemma {:induction false} AltSize(a: seq<Instr>, b: seq<Instr>)
    ensures Length(AltCode(a, b)) == Length(a) + Length(b) + 10
  {
    hide Length;
    var s, g := Split(false, Length(a) + 5), Goto(Length(b));
    Around(s, a, g, [s] + a + [g]);
    BytesAppend([s] + a + [g], b);
    AltSizes(s, g);
  }

  lemma {:induction false} AltFitting(a: seq<Instr>, b: seq<Instr>)
    requires AllFitting(a) && AllFitting(b)
    ensures AllFitting(AltCode(a, b))
  {
    hide Fitting;
    hide Length;
    LoopInstrsFit();
  }

  lemma {:induction false} LookSize(body: seq<Instr>, negated: bool)
    ensures Length(LookCode(body, negated)) == Length(body) + 6
  {
    hide Length;
    var i := Lookahead(negated, Length(body) + 1);
    Around(i, body, Match, LookCode(body, negated));
  }

  lemma {:induction false} LookFitting(body: seq<Instr>, negated: bool)
    requires AllFitting(body)
    ensures AllFitting(LookCode(body, negated))
  {
    hide Length;
    assert Fitting(Lookahead(negated, Length(body) + 1)) && Fitting(Match);
    hide Fitting;
  }

  /** A quantifier that may repeat contains its atom. */
  lemma {:induction false} QuantSize(atom: seq<Instr>, lo: nat, hi: nat, min: nat, max: nat, greedy: bool)
    requires min <= max
    ensures max > 0 ==> Length(atom) <= Length(QuantCode(atom, lo, hi, min, max, greedy))
  {
    hide Length;
    hide SimpleCount;
    hide Advance;
    var check := greedy && Advance(atom) == 0;
    if max > 0 {
      if greedy && SimpleCount(atom) > 0 {
        Contains([SimpleGreedyQuant(Length(atom) + 1, min, max, SimpleCount(atom))], atom, [Match]);
      } else {
        QuantCodeIs(atom, lo, hi, min, max, greedy, check);
        LoopsContain(atom, min, max, greedy, check);
        hide StarCode;
        hide CountedCode;
        hide RepeatCode;
        hide PlusCode;
        var reset := if lo != hi then [SaveReset(lo, hi - 1)] else [];
        BytesAppend(reset, OptionalCode(atom, max, greedy, check));
        BytesAppend(FirstCode(atom, min), MoreCode(atom, min, max, greedy, check));
      }
    }
  }

  lemma {:induction false} Contains(pre: seq<Instr>, atom: seq<Instr>, post: seq<Instr>)
    ensures Length(pre + atom + post) >= Length(atom)
  {
    hide Length;
    BytesAppend(pre + atom, post);
    BytesAppend(pre, atom);
  }

  lemma {:induction false} LoopsContain(atom: seq<Instr>, min: nat, max: nat, greedy: bool, check: bool)
    requires min <= max && max > 0
    ensures Length(PlusCode(atom, greedy)) >= Length(atom)
    ensures Length(RepeatCode(atom, min)) >= Length(atom)
    ensures Length(OptionalCode(atom, max, greedy, check)) >= Length(atom)
  {
    hide Length;
    hide OptionalCode;
    var len: int := Length(atom);
    BytesAppend(atom, [Split(greedy, -(len + 5))]);
    Contains([PushI32(min)], atom, [Loop(-(len + 5)), Drop]);
    OptionalContains(atom, max, greedy, check);
  }

  lemma {:induction false} OptionalContains(atom: seq<Instr>, max: nat, greedy: bool, check: bool)
    requires max > 0
    ensures Length(OptionalCode(atom, max, greedy, check)) >= Length(atom)
  {
    hide Length;
    var len: int := Length(atom);
    Contains([PushI32(max), Split(!greedy, len + 5)], atom, [Loop(-(len + 10)), Drop]);
    Contains([Split(!greedy, len + 5)], atom, [Goto(-(len + 10))]);
    BytesAppend([Split(!greedy, len)], atom);
    var s, p := [Split(!greedy, len + 6)], [PushCharPos];
    Contains(s + p, atom, [BneCharPos(-(len + 11))]);
  }

  lemma {:induction false} ZeroFitting(atom: seq<Instr>, lo: nat, hi: nat, min: nat, max: nat, greedy: bool)
    requires min <= max == 0 && lo <= hi <= 255
    ensures AllFitting(QuantCode(atom, lo, hi, min, max, greedy))
  {
    hide Length;
    hide SimpleCount;
    hide Advance;
  }

  lemma {:induction false} LeafFitting(f: Flags, p: Pattern, back: bool, cc: nat)
    requires Shaped(p) && (p.Empty? || IsCharPattern(p) || IsAssertion(p)) && Lexical(f, p) && Acceptable(p, cc)
    ensures AllFitting(Code(f, p, back, cc))
  {
    hide NormalSet;
    if p.Class? {
      hide RangeCode;
      ClassRoundTrip(p.points, 0);
    }
  }

  // ----- the invariant of a run -----

  /** The program without the match opcode at its end, and what is known about it. */
  ghost predicate Typed(m: Machine, body: seq<Instr>) {
    && AtCode(m, HEADER_LEN, body + [Match])
    && JumpsOk(body) && AllFitting(body)
  }

  /** pc is the address of an instruction where the scan finds depth d. */
  ghost predicate AtPoint(body: seq<Instr>, pc: int, d: int) {
    Lands(body, pc - HEADER_LEN, d)
  }

  ghost predicate SavedOk(body: seq<Instr>, s: Saved) {
    if s.kind == GreedyState then
      exists k: nat :: k < |body| && body[k].SimpleGreedyQuant? && Point(body, k, s.pc - 1 - HEADER_LEN, |s.stack|)
    else AtPoint(body, s.pc, |s.stack|)
  }

  ghost predicate AllSavedOk(body: seq<Instr>, saved: seq<Saved>) {
    forall k :: 0 <= k < |saved| ==> SavedOk(body, saved[k])
  }

  ghost predicate DepthOk(body: seq<Instr>, c: Config) {
    match c
    case Run(pc, _, _, stack, saved) => AtPoint(body, pc, |stack|) && AllSavedOk(body, saved)
    case Failing(saved) => AllSavedOk(body, saved)
    case Succeeding(_, _, saved) => AllSavedOk(body, saved)
    case Done(_) => true
    case Stuck => true
  }

  lemma {:induction false} PointNext(body: seq<Instr>, k: nat, t: int, d: int)
    requires k < |body| && Point(body, k, t, d)
    ensures Point(body, k + 1, t + Size(body[k]), d + Effect(body[k]))
  {
    hide Length;
    hide NetDepth;
    hide Size;
    hide Effect;
    assert body[..k + 1] == body[..k] + [body[k]];
    BytesAppend(body[..k], [body[k]]);
    DepthOfSum(body[..k], [body[k]]);
    LengthOne(body[k]);
  }

  lemma {:induction false} PointJump(body: seq<Instr>, k: nat, t: int, d: int)
    requires JumpsOk(body) && k < |body| && Point(body, k, t, d) && IsJump(body[k])
    ensures Lands(body, t + Size(body[k]) + Offset(body[k]), d + if body[k].BneCharPos? then -1 else 0)
  {
    hide Length;
    hide NetDepth;
    hide Lands;
    hide Size;
    hide Offset;
    hide IsJump;
    assert JumpOk(body, k);
  }

  lemma {:induction false} LandsBound(body: seq<Instr>, t: int, d: int)
    requires Lands(body, t, d)
    ensures 0 <= t <= Length(body)
  {
    hide Length;
    var k: nat :| Point(body, k, t, d);
    assert body[..k] + body[k..] == body;
    BytesAppend(body[..k], body[k..]);
  }

  /** The operands of a placed instruction fit, so it is decoded as it was meant. */
  lemma {:induction false} DecodePoint(m: Machine, body: seq<Instr>, k: nat, t: int, d: int)
    requires Typed(m, body) && k < |body| && Point(body, k, t, d)
    ensures t >= 0 && Decode(m.code, HEADER_LEN + t) == Some(body[k])
  {
    hide Length;
    hide NetDepth;
    hide Encode;
    hide Decode;
    hide Encodable;
    hide JumpsOk;
    hide Lands;
    hide At;
    hide Fitting;
    var i := body[k];
    var program := body + [Match];
    assert program == body[..k] + ([i] + (body[k + 1..] + [Match]));
    AtCodeSplit(m, HEADER_LEN, body[..k], [i] + (body[k + 1..] + [Match]));
    AtInstr(m, HEADER_LEN + t, i, body[k + 1..] + [Match]);
    PlacedEncodable(m, body, k, t, d);
    DecodeEncode(m.code, HEADER_LEN + t, i);
  }

  lemma {:induction false} PlacedEncodable(m: Machine, body: seq<Instr>, k: nat, t: int, d: int)
    requires Typed(m, body) && k < |body| && Point(body, k, t, d)
    ensures Encodable(body[k])
  {
    hide Length;
    hide NetDepth;
    hide Lands;
    hide JumpsOk;
    hide Point;
    hide Size;
    var i := body[k];
    BodyLength(m, body);
    PointLands(body, k, t, d);
    LandsBound(body, t, d);
    PointNext(body, k, t, d);
    PointLands(body, k + 1, t + Size(i), d + Effect(i));
    LandsBound(body, t + Size(i), d + Effect(i));
    if IsJump(i) {
      PointJump(body, k, t, d);
      LandsBound(body, t + Size(i) + Offset(i), d + if i.BneCharPos? then -1 else 0);
    }
  }

  lemma {:induction false} BodyLength(m: Machine, body: seq<Instr>)
    requires Typed(m, body)
    ensures Length(body) <= INT32_MAX && AllFitting(body) && JumpsOk(body)
  {
    hide Length;
    hide JumpsOk;
    hide AllFitting;
    AtCodeSplit(m, HEADER_LEN, body, [Match]);
  }

  lemma {:induction false} PointLands(body: seq<Instr>, k: nat, t: int, d: int)
    requires Point(body, k, t, d)
    ensures Lands(body, t, d)
  {
    hide Point;
  }

  lemma {:induction false} SavedAppend(body: seq<Instr>, saved: seq<Saved>, s: Saved)
    requires AllSavedOk(body, saved) && SavedOk(body, s)
    ensures AllSavedOk(body, saved + [s])
  {
    hide SavedOk;
  }

  lemma {:induction false} SavedTop(body: seq<Instr>, saved: seq<Saved>)
    requires AllSavedOk(body, saved) && |saved| > 0
    ensures SavedOk(body, saved[|saved| - 1]) && AllSavedOk(body, saved[..|saved| - 1])
  {
    hide SavedOk;
  }

  /** An instruction keeps the invariant, given where it leads. */
  lemma {:induction false} ExecKeeps(m: Machine, body: seq<Instr>, k: nat, i: Instr, pc: int, pos: nat,
          caps: seq<Option<nat>>, stack: seq<int>, saved: seq<Saved>)
    requires pos <= |m.ctx.input| && 0 <= pc && AllSavedOk(body, saved)
    requires k < |body| && i == body[k] && Point(body, k, pc - Size(i) - HEADER_LEN, |stack|)
    requires AtPoint(body, pc, |stack| + Effect(i))
    requires IsJump(i) ==> AtPoint(body, pc + Offset(i), |stack| + if i.BneCharPos? then -1 else 0)
    ensures DepthOk(body, Exec(m, i, pc, pos, caps, stack, saved))
  {
    hide AtPoint;
    hide AllSavedOk;
    hide Point;
    hide RunGreedy;
    hide CharAccepts;
    hide TestHolds;
    hide ResetCaps;
    match i
    case Split(gotoFirst, off) =>
      SavedAppend(body, saved, Saved(SplitState, if gotoFirst then pc else pc + off, pos, caps, stack, 0));
    case Lookahead(negated, off) =>
      SavedAppend(body, saved, Saved(if negated then NegLookState else LookState, pc + off, pos, caps, stack, 0));
    case SimpleGreedyQuant(next, min, max, count) =>
      var r := RunGreedy(m, pc, pos, 0, max);
      if r.Some? && r.value.1 > min {
        SavedAppend(body, saved, Saved(GreedyState, pc - 16, r.value.0, caps, stack, r.value.1 - min));
      }
    case _ =>
  }

  lemma {:induction false} RunKeeps(m: Machine, body: seq<Instr>, pc: int, pos: nat, caps: seq<Option<nat>>,
          stack: seq<int>, saved: seq<Saved>)
    requires Typed(m, body) && DepthOk(body, Run(pc, pos, caps, stack, saved))
    ensures DepthOk(body, Step(m, Run(pc, pos, caps, stack, saved)))
  {
    hide Exec;
    hide Point;
    hide Decode;
    hide AllSavedOk;
    hide JumpsOk;
    hide AllFitting;
    hide AtCode;
    hide Size;
    hide Effect;
    hide IsJump;
    hide Offset;
    if 0 <= pc && pos <= |m.ctx.input| {
      var t, d := pc - HEADER_LEN, |stack|;
      var k: nat :| Point(body, k, t, d);
      PointBound(body, k, t, d);
      if k < |body| {
        DecodePoint(m, body, k, t, d);
        PointNext(body, k, t, d);
        if IsJump(body[k]) {
          PointJump(body, k, t, d);
        }
        hide Lands;
        PointLands(body, k + 1, t + Size(body[k]), d + Effect(body[k]));
        ExecKeeps(m, body, k, body[k], pc + Size(body[k]), pos, caps, stack, saved);
      } else {
        EndMatches(m, body, k, t, d);
        MatchKeeps(m, body, pc + 1, pos, caps, stack, saved);
        MatchSize();
      }
    }
  }

  lemma {:induction false} MatchSize()
    ensures Size(Match) == 1
  {
  }

  lemma {:induction false} PointBound(body: seq<Instr>, k: nat, t: int, d: int)
    requires Point(body, k, t, d)
    ensures k <= |body|
  {
  }

  /** At the end of the body comes the final match opcode. */
  lemma {:induction false} EndMatches(m: Machine, body: seq<Instr>, k: nat, t: int, d: int)
    requires Typed(m, body) && k == |body| && Point(body, k, t, d)
    ensures t >= 0 && Decode(m.code, HEADER_LEN + t) == Some(Match)
  {
    hide Length;
    hide NetDepth;
    hide Decode;
    hide JumpsOk;
    hide AllFitting;
    hide At;
    assert body[..k] == body;
    AtCodeSplit(m, HEADER_LEN, body, [Match]);
    assert [Match] + [] == [Match];
    AtInstr(m, HEADER_LEN + t, Match, []);
    DecodeEncode(m.code, HEADER_LEN + t, Match);
  }

  lemma {:induction false} MatchKeeps(m: Machine, body: seq<Instr>, pc: int, pos: nat, caps: seq<Option<nat>>,
          stack: seq<int>, saved: seq<Saved>)
    requires pos <= |m.ctx.input| && 0 <= pc && AllSavedOk(body, saved)
    ensures DepthOk(body, Exec(m, Match, pc, pos, caps, stack, saved))
  {
    hide AllSavedOk;
  }

  lemma {:induction false} ResumeKeeps(m: Machine, body: seq<Instr>, top: Saved, rest: seq<Saved>)
    requires Typed(m, body) && SavedOk(body, top) && AllSavedOk(body, rest)
    ensures DepthOk(body, Resume(m, top, rest))
  {
    hide AllSavedOk;
    hide Decode;
    hide Point;
    hide Lands;
    hide Typed;
    if top.kind == GreedyState && top.pc >= 1 && top.count > 0 {
      var k: nat :| k < |body| && body[k].SimpleGreedyQuant? && Point(body, k, top.pc - 1 - HEADER_LEN, |top.stack|);
      DecodePoint(m, body, k, top.pc - 1 - HEADER_LEN, |top.stack|);
      BodyLength(m, body);
      PointJump(body, k, top.pc - 1 - HEADER_LEN, |top.stack|);
      var quant := body[k];
      if quant.count >= 0 && top.pos >= quant.count {
        var again := top.(pos := top.pos - quant.count, count := top.count - 1);
        SavedAppend(body, rest, again);
      }
    }
  }

  lemma {:induction false} StepKeeps(m: Machine, body: seq<Instr>, c: Config)
    requires Typed(m, body) && DepthOk(body, c)
    ensures DepthOk(body, Step(m, c))
  {
    hide Typed;
    hide AllSavedOk;
    hide SavedOk;
    hide AtPoint;
    hide Exec;
    hide Resume;
    hide Decode;
    match c
    case Run(pc, pos, caps, stack, saved) => RunKeeps(m, body, pc, pos, caps, stack, saved);
    case Failing(saved) =>
      if |saved| > 0 {
        SavedTop(body, saved);
        ResumeKeeps(m, body, saved[|saved| - 1], saved[..|saved| - 1]);
      }
    case Succeeding(pos, caps, saved) =>
      if |saved| > 0 {
        SavedTop(body, saved);
        SavedLook(body, saved[|saved| - 1]);
      }
    case Done(_) =>
    case Stuck =>
  }

  lemma {:induction false} SavedLook(body: seq<Instr>, s: Saved)
    requires SavedOk(body, s)
    ensures s.kind != GreedyState ==> AtPoint(body, s.pc, |s.stack|)
  {
    hide AtPoint;
  }

  lemma {:induction false} StepsKeep(m: Machine, body: seq<Instr>, c: Config, n: nat)
    requires Typed(m, body) && DepthOk(body, c)
    ensures DepthOk(body, Steps(m, c, n))
    decreases n
  {
    hide Typed;
    hide DepthOk;
    hide Step;
    if n > 0 {
      StepKeeps(m, body, c);
      StepsKeep(m, body, Step(m, c), n - 1);
    }
  }

  // ----- the theorem -----

  lemma {:induction false} DepthBelowMax(code: seq<Instr>, k: nat, d: int)
    requires k <= |code|
    ensures d + NetDepth(code[..k]) <= MaxDepth(code, d)
  {
    if k == 0 {
      assert code[..0] == [];
    } else {
      DepthBelowMax(code[1..], k - 1, d + Effect(code[0]));
      assert code[..k][1..] == code[1..][..k - 1];
    }
  }

  lemma {:induction false} ProgramTyped(m: Machine, p: Pattern, sticky: bool)
    requires Loaded(m, p, sticky) && IsDisjunction(p) && Acceptable(p, 1) && Lexical(m.ctx.flags, p)
    ensures Typed(m, Prefix(sticky) + Code(m.ctx.flags, Capture(p), false, 0))
  {
    hide Length;
    hide NetDepth;
    hide JumpsOk;
    hide Code;
    hide Acceptable;
    hide IsDisjunction;
    hide Lexical;
    hide MaxDepth;
    hide AllFitting;
    var f := m.ctx.flags;
    var code := Code(f, Capture(p), false, 0);
    CodeJumps(f, Capture(p), false, 0);
    PrefixTyped(sticky);
    JumpsAppend(Prefix(sticky), code);
    AtCodeSplit(m, HEADER_LEN, Prefix(sticky) + code, [Match]);
    BytesAppend(Prefix(sticky), code);
    WholeFitting(f, p);
    FittingAppend(Prefix(sticky), code);
  }

  lemma {:induction false} PrefixTyped(sticky: bool)
    ensures JumpsOk(Prefix(sticky)) && AllFitting(Prefix(sticky))
  {
    hide JumpsOk;
    hide Length;
    hide NetDepth;
    hide Lands;
    NoJumps([]);
    if !sticky {
      var s, a, g := Split(true, 6), AnyChar, Goto(-11);
      var code := [s] + [a] + [g];
      assert Prefix(sticky) == code;
      NoJumps([a]);
      LengthOne(a);
      Around(s, [a], g, code);
      LandsEnd(code, 11, 0);
      LandsStart(code);
      JumpsBetween(s, [a], g, code);
    }
  }

  lemma {:induction false} WholeFitting(f: Flags, p: Pattern)
    requires IsDisjunction(p) && Acceptable(p, 1) && Lexical(f, p)
    requires Length(Code(f, Capture(p), false, 0)) <= INT32_MAX
    ensures AllFitting(Code(f, Capture(p), false, 0))
  {
    hide IsDisjunction;
    hide Length;
    hide Fitting;
    hide Acceptable;
    hide Lexical;
    hide Code;
    CodeBodies(f, p, false, false, false, 0);
    var body := Code(f, p, false, 1);
    AcceptedCaptures(p, 1);
    Around(Save(false, 0), body, Save(true, 0), Code(f, Capture(p), false, 0));
    CodeFitting(f, p, false, 1);
    SaveFits(false, 0);
    SaveFits(true, 0);
  }

  /** The machine is about to run the k-th instruction, with the stack that the scan finds there. */
  ghost predicate Executes(program: seq<Instr>, k: nat, c: Config)
    requires c.Run?
  {
    k < |program| && Point(program, k, c.pc - HEADER_LEN, |c.stack|)
  }

  /** At every moment of every run the stack is as deep as the scan says for the instruction about
      to be executed, which is at most what the scan reports as the stack size. */
  lemma {:induction false} StackAsScanned(m: Machine, p: Pattern, sticky: bool, start: nat, n: nat)
    requires Loaded(m, p, sticky) && IsDisjunction(p) && Acceptable(p, 1) && Lexical(m.ctx.flags, p)
    ensures var c := Steps(m, Run(HEADER_LEN, start, NoCaptures(m.ctx), [], []), n);
            var program := Program(m.ctx.flags, p, sticky);
            c.Run? ==> |c.stack| <= MaxDepth(program, 0) && exists k: nat :: Executes(program, k, c)
  {
    hide Typed;
    hide Loaded;
    hide Steps;
    hide Code;
    hide NoCaptures;
    hide Prefix;
    hide Length;
    hide NetDepth;
    hide MaxDepth;
    var c0 := Run(HEADER_LEN, start, NoCaptures(m.ctx), [], []);
    ProgramTyped(m, p, sticky);
    var body := Prefix(sticky) + Code(m.ctx.flags, Capture(p), false, 0);
    LandsStart(body);
    StepsKeep(m, body, c0, n);
    var c := Steps(m, c0, n);
    if c.Run? {
      var t, d := c.pc - HEADER_LEN, |c.stack|;
      var k: nat :| Point(body, k, t, d);
      var program := Program(m.ctx.flags, p, sticky);
      assert program[..k] == body[..k];
      DepthBelowMax(program, k, 0);
      assert Executes(program, k, c);
    }
  }
}
