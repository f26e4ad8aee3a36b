/** lre_compile: the header, the search loop, the pattern's code, and the stack size that the
    linear scan finds. */
module ReCompile {
  import opened ReOpcode
  import opened RePattern
  import opened ReClass
  import opened ReCode
  import opened ReScan
  import opened ReMachine
  import opened RePieces
  import opened ReProgram
  import opened DynBuffer
  import opened ReEmit
  import opened ReParse

  // ----- the fragment -----

  /** Patterns whose run is known to end: every unbounded loop either is greedy, so that it carries
      the zero-advance check when it needs it, or has a body that reads at least one character.
      Literals fold to code points, and classes are in normal form. */
  ghost predicate InFragment(f: Flags, p: Pattern) {
    match p
    case Literal(ch) => IsU32(Canon(f, ch))
    case Class(points) => NormalSet(points)
    case Concat(a, b) => InFragment(f, a) && InFragment(f, b)
    case Alt(a, b) => InFragment(f, a) && InFragment(f, b)
    case Group(b) => InFragment(f, b)
    case Capture(b) => InFragment(f, b)
    case Look(b, _, _) => InFragment(f, b)
    case Quant(a, _, max, greedy) => InFragment(f, a) && (greedy || max < INFINITE || MinWidth(a) > 0)
    case _ => true
  }

  /** What the parser accepts is well-formed. */
  lemma {:induction false} AcceptedIsWellFormed(m: Ctx, p: Pattern, back: bool, cc: nat)
    requires Parsed(p) && InFragment(m.flags, p)
    requires Acceptable(p, cc) && cc + CapCount(p) <= m.captureCount
    ensures WellFormed(m, p, back, cc)
  {
    hide Code;
    hide Advance;
    hide NormalSet;
    hide Canon;
    hide Parsed;
    ParsedParts(p);
    match p
    case Concat(a, b) =>
      AcceptedIsWellFormed(m, a, back, cc);
      AcceptedIsWellFormed(m, b, back, cc + CapCount(a));
    case Alt(a, b) =>
      AcceptedIsWellFormed(m, a, back, cc);
      AcceptedIsWellFormed(m, b, back, cc + CapCount(a));
    case Group(b) => AcceptedIsWellFormed(m, b, back, cc);
    case Capture(b) => AcceptedIsWellFormed(m, b, back, cc + 1);
    case Look(b, _, backward) => AcceptedIsWellFormed(m, b, backward, cc);
    case Quant(a, _, _, _) => AcceptedIsWellFormed(m, a, back, cc);
    case _ =>
  }

  // ----- the compiler -----

  const LRE_FLAG_IGNORECASE := 2
  const LRE_FLAG_MULTILINE := 4
  const LRE_FLAG_DOTALL := 8
  const LRE_FLAG_STICKY := 32

  predicate HasFlag(reFlags: byte, flag: nat)
    requires flag > 0
  {
    reFlags / flag % 2 == 1
  }

  /** The flags in the form that the search uses; canon is the case folding. */
  function FlagsOf(reFlags: byte, canon: int -> int): Flags {
    Flags(HasFlag(reFlags, LRE_FLAG_MULTILINE), HasFlag(reFlags, LRE_FLAG_IGNORECASE),
        HasFlag(reFlags, LRE_FLAG_DOTALL), canon)
  }

  predicate IsSticky(reFlags: byte) {
    HasFlag(reFlags, LRE_FLAG_STICKY)
  }

  /** The seven bytes before the code: flags, number of captures, stack size, code length. */
  function Header(flagBits: byte, captureCount: nat, stackSize: nat, length: nat): (h: seq<byte>)
    ensures |h| == HEADER_LEN
  {
    [flagBits, captureCount % 256, stackSize % 256] + U32(length)
  }

  /** Bytecode, unless the pattern has too many captures, too many intervals in a class, or loops
      nested too deeply. */
  ghost predicate Compiles(f: Flags, p: Pattern, sticky: bool)
    requires Shaped(p)
  {
    Acceptable(p, 1) && MaxDepth(Program(f, p, sticky), 0) <= STACK_SIZE_MAX
  }

  function Bytecode(reFlags: byte, canon: int -> int, p: Pattern): seq<byte>
    requires Shaped(p)
  {
    var program := Program(FlagsOf(reFlags, canon), p, IsSticky(reFlags));
    Header(reFlags, 1 + CapCount(p), MaxDepth(program, 0), Length(program)) + Bytes(program)
  }

  lemma {:induction false} ProgramSteady(f: Flags, p: Pattern, sticky: bool)
    requires Shaped(p)
    ensures Steady(Program(f, p, sticky))
  {
    hide Steady;
    hide Code;
    CodeSteady(f, Capture(p), false, 0);
    SteadyOne(Match);
    SteadyNone();
    var s, a, g := Split(true, 6), AnyChar, Goto(-11);
    SteadyOne(a);
    SteadyBetween(s, [a], g);
    assert [s] + [a] + [g] == [s, a, g];
    SteadyAppend(Prefix(sticky), Code(f, Capture(p), false, 0));
    SteadyAppend(Prefix(sticky) + Code(f, Capture(p), false, 0), [Match]);
  }

  lemma {:induction false} ProgramReadable(f: Flags, p: Pattern, sticky: bool)
    requires Shaped(p) && Acceptable(p, 1)
    ensures AllReadable(Program(f, p, sticky))
  {
    hide Code;
    CodeReadable(f, Capture(p), false, 0);
  }

  lemma {:induction false} ProgramBytes(f: Flags, p: Pattern, sticky: bool)
    requires Shaped(p)
    ensures Bytes(Program(f, p, sticky))
         == Bytes(Prefix(sticky)) + [11, 0] + Bytes(Code(f, p, false, 1)) + [12, 0] + [10]
  {
    hide Bytes;
    hide Code;
    hide U32;
    hide Encode;
    hide Prefix;
    var body := Code(f, p, false, 1);
    CodeBodies(f, p, false, false, false, 0);
    BytesAround(Save(false, 0), body, Save(true, 0));
    SaveBytes(false, 0);
    SaveBytes(true, 0);
    var core := [Save(false, 0)] + body + [Save(true, 0)];
    BytesAppend(Prefix(sticky) + core, [Match]);
    BytesAppend(Prefix(sticky), core);
    BytesOne(Match);
    MatchBytes();
  }

  lemma {:induction false} MatchBytes()
    ensures Encode(Match) == [10] && Encode(AnyChar) == [4]
  {
  }

  lemma {:induction false} PrefixBytes(sticky: bool)
    ensures Bytes(Prefix(sticky)) == if sticky then [] else [8] + U32(6) + [4] + ([7] + U32(-11))
  {
    hide Bytes;
    hide U32;
    hide Encode;
    if sticky {
      NoBytes();
    } else {
      var s, a, g := Split(true, 6), AnyChar, Goto(-11);
      assert Prefix(sticky) == [s] + [a] + [g];
      BytesAround(s, [a], g);
      BytesOne(a);
      MatchBytes();
      SplitBytes(false, 6);
      JumpBytes(-11);
    }
  }

  /** The placeholder header and, unless sticky, the search loop. */
  method EmitStart(s: REParseState, sticky: bool, flagBits: byte)
    requires s.Valid() && s.Out() == []
    modifies s.byteCode
    ensures s.Valid() && s.Out() == [flagBits, 0, 0] + U32(0) + Bytes(Prefix(sticky)) + [11, 0]
  {
    hide Bytes;
    hide U32;
    hide Prefix;
    PrefixBytes(sticky);
    s.byteCode.Putc(flagBits);
    s.byteCode.Putc(0);
    s.byteCode.Putc(0);
    s.byteCode.PutU32(0);
    assert s.Out() == [flagBits, 0, 0] + U32(0);
    if !sticky {
      var _ := s.EmitOpU32(8, 6);
      s.EmitOp(4);
      var _ := s.EmitOpU32(7, -11);
    }
    assert s.Out() == [flagBits, 0, 0] + U32(0) + Bytes(Prefix(sticky));
    s.EmitOpU8(11, 0);
  }

  /** Header, search loop, pattern and the end of the program. */
  method EmitProgram(s: REParseState, p: Pattern, sticky: bool, flagBits: byte) returns (ok: bool)
    requires s.Valid() && s.Out() == [] && s.captureCount == 1 && IsDisjunction(p)
    modifies s`captureCount, s.byteCode
    ensures s.Valid() && ok == Acceptable(p, 1)
    ensures ok ==> s.captureCount == 1 + CapCount(p)
    ensures ok ==> s.Out() == [flagBits, 0, 0] + U32(0) + Bytes(Program(s.flags, p, sticky))
  {
    hide Bytes;
    hide Code;
    hide U32;
    hide IsDisjunction;
    hide Acceptable;
    hide CapCount;
    hide Program;
    hide Prefix;
    ghost var header := [flagBits, 0, 0] + U32(0);
    EmitStart(s, sticky, flagBits);
    ok := ParseDisjunction(s, p, false);
    if ok {
      s.EmitOpU8(12, 0);
      s.EmitOp(10);
      ProgramBytes(s.flags, p, sticky);
      Assoc6(header, Bytes(Prefix(sticky)), [11, 0], Bytes(Code(s.flags, p, false, 1)), [12, 0], [10]);
    }
  }

  lemma {:induction false} Assoc6(a: seq<byte>, b: seq<byte>, c: seq<byte>, d: seq<byte>, e: seq<byte>, f: seq<byte>)
    ensures a + b + c + d + e + f == a + (b + c + d + e + f)
  {
  }

  /** lre_compile, for a pattern without named groups. */
  method Compile(reFlags: byte, canon: int -> int, p: Pattern) returns (r: Option<seq<byte>>)
    requires IsDisjunction(p)
    ensures r.Some? <==> Compiles(FlagsOf(reFlags, canon), p, IsSticky(reFlags))
    ensures r.Some? ==> r.value == Bytecode(reFlags, canon, p)
  {
    hide FlagsOf;
    hide IsSticky;
    hide Bytes;
    hide U32;
    hide IsDisjunction;
    hide Acceptable;
    hide CapCount;
    hide Program;
    hide Lowest;
    hide NetDepth;
    hide MaxDepth;
    hide AllReadable;
    hide Length;
    hide Header;
    var f, sticky := FlagsOf(reFlags, canon), IsSticky(reFlags);
    var s := new REParseState(f);
    var ok := EmitProgram(s, p, sticky, reFlags);
    if !ok {
      return None;
    }
    ghost var program := Program(f, p, sticky);
    ProgramReadable(f, p, sticky);
    ProgramSteady(f, p, sticky);
    assert s.byteCode.buf[HEADER_LEN..s.byteCode.size] == Bytes(program);
    var stackSize := ComputeStackSize(s.byteCode.buf[HEADER_LEN..s.byteCode.size], program);
    if stackSize < 0 {
      return None;
    }
    PatchHeader(s, reFlags, stackSize, Bytes(program));
    r := Some(s.byteCode.buf[..s.byteCode.size]);
  }

  /** Filling in the header once the code is complete. */
  method PatchHeader(s: REParseState, flagBits: byte, stackSize: nat, ghost code: seq<byte>)
    requires s.Valid() && s.Out() == [flagBits, 0, 0] + U32(0) + code
    modifies s.byteCode
    ensures s.Valid() && s.Out() == Header(flagBits, s.captureCount, stackSize, |code|) + code
  {
    hide U32;
    hide Overwrite;
    assert s.Out() == [flagBits] + [0] + ([0] + U32(0) + code);
    OverwriteGap([flagBits], [0], [0] + U32(0) + code, [s.captureCount % 256]);
    s.byteCode.Set(1, [s.captureCount % 256]);
    ghost var done := [flagBits, s.captureCount % 256];
    assert s.Out() == done + [0] + (U32(0) + code);
    OverwriteGap(done, [0], U32(0) + code, [stackSize % 256]);
    s.byteCode.Set(2, [stackSize % 256]);
    done := [flagBits, s.captureCount % 256, stackSize % 256];
    assert s.Out() == done + U32(0) + code;
    OverwriteGap(done, U32(0), code, U32(s.byteCode.size - HEADER_LEN));
    s.byteCode.SetU32(3, s.byteCode.size - HEADER_LEN);
  }

  // ----- compiled programs run correctly -----

  /** The bytecode of a pattern in the fragment, run on any input from any position with the flags,
      captures and stack that its header asks for, ends with the captures of the first match. */
  lemma {:induction false} CompiledCorrect(reFlags: byte, canon: int -> int, p: Pattern, m: Machine, start: nat)
    requires IsDisjunction(p) && Compiles(FlagsOf(reFlags, canon), p, IsSticky(reFlags))
    requires InFragment(FlagsOf(reFlags, canon), p)
    requires m.code == Bytecode(reFlags, canon, p) && |m.code| <= INT32_MAX
    requires m.ctx.flags == FlagsOf(m.code[0], canon) && m.ctx.captureCount == m.code[1] && m.limit == m.code[2]
    requires GoodCtx(m.ctx) && start <= |m.ctx.input|
    ensures Reaches(m, Run(HEADER_LEN, start, NoCaptures(m.ctx), [], []),
                    Done(FirstMatch(m.ctx, p, IsSticky(reFlags), start)))
  {
    hide Bytes;
    hide Code;
    hide U32;
    hide Program;
    hide MaxDepth;
    hide Reaches;
    hide IsDisjunction;
    hide FirstMatch;
    hide GoodCtx;
    hide CapCount;
    hide Acceptable;
    hide InFragment;
    hide FlagsOf;
    hide IsSticky;
    var program := Program(FlagsOf(reFlags, canon), p, IsSticky(reFlags));
    AcceptedCaptures(p, 1);
    var h := Header(reFlags, 1 + CapCount(p), MaxDepth(program, 0), Length(program));
    assert m.code[0] == h[0] && m.code[1] == h[1] && m.code[2] == h[2];
    assert m.code[HEADER_LEN..HEADER_LEN + |Bytes(program)|] == Bytes(program);
    AcceptedIsWellFormed(m.ctx, p, false, 1);
    hide Header;
    SoundWhole(m.ctx, p);
    ProgramCorrect(m, p, IsSticky(reFlags), start);
  }

  lemma {:induction false} AcceptedCaptures(p: Pattern, cc: nat)
    requires Acceptable(p, cc) && cc <= CAPTURE_COUNT_MAX
    ensures cc + CapCount(p) <= CAPTURE_COUNT_MAX
  {
    match p
    case Concat(a, b) =>
      AcceptedCaptures(a, cc);
      AcceptedCaptures(b, cc + CapCount(a));
    case Alt(a, b) =>
      AcceptedCaptures(a, cc);
      AcceptedCaptures(b, cc + CapCount(a));
    case Group(b) => AcceptedCaptures(b, cc);
    case Capture(b) => AcceptedCaptures(b, cc + 1);
    case Look(b, _, _) => AcceptedCaptures(b, cc);
    case Quant(a, _, _, _) => AcceptedCaptures(a, cc);
    case _ =>
  }

  lemma {:induction false} SoundWhole(m: Ctx, p: Pattern)
    requires Shaped(p) && WellFormed(m, p, false, 1) && GoodCtx(m) && m.captureCount == 1 + CapCount(p)
    ensures Sound(m, Capture(p), false, 0)
  {
    hide GoodCtx;
  }
}
