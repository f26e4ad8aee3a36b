/** The answer of a search in literal terms: the entries of its list of captures, the characters that
    patterns accept, the flag bits, and the limits beyond which nothing is compiled. */
module AnswerLaws {
  import opened ReOpcode
  import opened RePattern
  import opened ReCode
  import opened ReProgram
  import opened ReEmit
  import opened ReParse
  import opened ReCompile
  import opened PatternLaws

  // ----- the captures of an answer -----

  /** Capture 0 is the whole match, every capture is unset or an interval of the input, and captures
      that the pattern does not have are unset. */
  ghost predicate Captured(m: Ctx, p: Pattern, caps: seq<Option<nat>>) {
    && |caps| == 2 * m.captureCount >= 2
    && caps[0].Some? && caps[1].Some? && caps[0].value <= caps[1].value <= |m.input|
    && (forall k :: 0 <= k < m.captureCount ==> Paired(m, caps, k))
    && (forall k :: 2 * (1 + CapCount(p)) <= k < 2 * m.captureCount ==> caps[k].None?)
  }

  /** The captures of an answer; the match starts at the asked position if sticky, and not before it
      otherwise. */
  lemma {:induction false} AnswerCaptures(m: Ctx, p: Pattern, sticky: bool, start: nat)
    requires start <= |m.input| && 1 + CapCount(p) <= m.captureCount
    ensures match FirstMatch(m, p, sticky, start)
            case None => true
            case Some(caps) => Captured(m, p, caps) && start <= caps[0].value && (sticky ==> caps[0].value == start)
    decreases |m.input| - start
  {
    hide Attempt, Captured, NoCaptures, CapCount;
    var x := St(start, NoCaptures(m));
    var l := Attempt(m, p, x);
    if l != [] {
      AttemptCaptures(m, p, x, l[0]);
    } else if !sticky && start < |m.input| {
      AnswerCaptures(m, p, sticky, start + 1);
    }
  }

  lemma {:induction false} AttemptCaptures(m: Ctx, p: Pattern, x: St, y: St)
    requires x.pos <= |m.input| && 1 + CapCount(p) <= m.captureCount
    requires x.caps == NoCaptures(m) && y in Attempt(m, p, x)
    ensures Captured(m, p, y.caps) && y.caps[0] == Some(x.pos)
  {
    hide Ends, CapCount;
    EndsOnward(m, Capture(p), false, 0, x);
    var z := CaptureRecords(m, p, false, 0, x, y);
    assert y.caps[0..2][0] == y.caps[0] && y.caps[0..2][1] == y.caps[1];
    forall k | 0 <= k < m.captureCount
      ensures Paired(m, y.caps, k)
    {
      assert Paired(m, x.caps, k);
    }
  }

  // ----- characters and positions -----

  /** A word character, in letters. */
  predicate Word(s: seq<int>, i: int) {
    && 0 <= i < |s|
    && ('0' as int <= s[i] <= '9' as int || 'A' as int <= s[i] <= 'Z' as int || s[i] == '_' as int
        || 'a' as int <= s[i] <= 'z' as int)
  }

  predicate Newline(s: seq<int>, i: int) {
    0 <= i < |s| && (s[i] == '\n' as int || s[i] == '\r' as int || s[i] == 0x2028 || s[i] == 0x2029)
  }

  /** A word boundary has a word character on one side only; ^ and $ match at the ends of the input
      and, with the multiline flag, after and before a line terminator. */
  lemma {:induction false} AssertionsMean(m: Ctx, negated: bool, back: bool, cc: nat, x: St)
    requires x.pos <= |m.input|
    ensures Ends(m, AssertWord(negated), back, cc, x)
         == if (Word(m.input, x.pos - 1) == Word(m.input, x.pos)) == negated then [x] else []
    ensures Ends(m, AssertStart, back, cc, x)
         == if x.pos == 0 || (m.flags.multiLine && Newline(m.input, x.pos - 1)) then [x] else []
    ensures Ends(m, AssertEnd, back, cc, x)
         == if x.pos == |m.input| || (m.flags.multiLine && Newline(m.input, x.pos)) then [x] else []
  {
    var p := AssertWord(negated);
    assert Ends(m, p, back, cc, x) == Test(m, p, x);
  }

  /** The end of a match of one character at index at. */
  function Read(back: bool, x: St): St {
    if back && x.pos > 0 then x.(pos := x.pos - 1) else x.(pos := x.pos + 1)
  }

  /** A pattern of one character reads the character before or after the position: a literal reads
      itself, or what folds like it when case is ignored; the dot any character but the four line
      terminators, or any at all; a class the characters that fold to a member. */
  lemma {:induction false} CharactersMean(m: Ctx, ch: int, points: seq<int>, back: bool, cc: nat, x: St)
    requires x.pos <= |m.input|
    ensures var at := if back then x.pos - 1 else x.pos;
            var inside := 0 <= at < |m.input|;
            && Ends(m, Literal(ch), back, cc, x)
            == (if inside && (if m.flags.ignoreCase then m.flags.canon(m.input[at]) == m.flags.canon(ch)
                              else m.input[at] == ch) then [Read(back, x)] else [])
            && Ends(m, Wildcard, back, cc, x)
            == (if inside && (m.flags.dotAll || !Newline(m.input, at)) then [Read(back, x)] else [])
            && Ends(m, Class(points), back, cc, x)
            == (if inside && InSet(points, if m.flags.ignoreCase then m.flags.canon(m.input[at]) else m.input[at])
                then [Read(back, x)] else [])
  {
    hide InSet;
    var l, c := Literal(ch), Class(points);
    assert Ends(m, l, back, cc, x) == OneChar(m, l, back, x);
    assert Ends(m, Wildcard, back, cc, x) == OneChar(m, Wildcard, back, x);
    assert Ends(m, c, back, cc, x) == OneChar(m, c, back, x);
  }

  // ----- flags -----

  /** The flags by their bits: 1 ignores case, 2 is multiline, 3 lets the dot match everything, and 5 is
      sticky. */
  lemma {:induction false} FlagBits(canon: int -> int, b0: nat, b1: nat, b2: nat, b3: nat, b4: nat, b5: nat, rest: nat)
    requires b0 <= 1 && b1 <= 1 && b2 <= 1 && b3 <= 1 && b4 <= 1 && b5 <= 1 && rest <= 3
    ensures var reFlags := b0 + 2 * b1 + 4 * b2 + 8 * b3 + 16 * b4 + 32 * b5 + 64 * rest;
            && FlagsOf(reFlags, canon) == Flags(b2 == 1, b1 == 1, b3 == 1, canon)
            && (IsSticky(reFlags) <==> b5 == 1)
  {
    var reFlags := b0 + 2 * b1 + 4 * b2 + 8 * b3 + 16 * b4 + 32 * b5 + 64 * rest;
    assert reFlags / 2 == b1 + 2 * (b2 + 2 * b3 + 4 * b4 + 8 * b5 + 16 * rest);
    assert reFlags / 4 == b2 + 2 * (b3 + 2 * b4 + 4 * b5 + 8 * rest);
    assert reFlags / 8 == b3 + 2 * (b4 + 2 * b5 + 4 * rest);
    assert reFlags / 32 == b5 + 2 * rest;
  }

  // ----- limits -----

  predicate ClassesFit(p: Pattern) {
    match p
    case Class(points) => |points| / 2 < 65535
    case Concat(a, b) => ClassesFit(a) && ClassesFit(b)
    case Alt(a, b) => ClassesFit(a) && ClassesFit(b)
    case Group(b) => ClassesFit(b)
    case Capture(b) => ClassesFit(b)
    case Look(b, _, _) => ClassesFit(b)
    case Quant(a, _, _, _) => ClassesFit(a)
    case _ => true
  }

  /** The parser accepts a pattern exactly if all captures, the match itself included, are at most 255
      and every class has fewer than 65535 intervals. */
  lemma {:induction false} AcceptableExactly(p: Pattern, cc: nat)
    requires cc <= 255
    ensures Acceptable(p, cc) <==> cc + CapCount(p) <= 255 && ClassesFit(p)
  {
    match p
    case Concat(a, b) =>
      AcceptableExactly(a, cc);
      if cc + CapCount(a) <= 255 {
        AcceptableExactly(b, cc + CapCount(a));
      }
    case Alt(a, b) =>
      AcceptableExactly(a, cc);
      if cc + CapCount(a) <= 255 {
        AcceptableExactly(b, cc + CapCount(a));
      }
    case Group(b) => AcceptableExactly(b, cc);
    case Capture(b) =>
      if cc < 255 {
        AcceptableExactly(b, cc + 1);
      }
    case Look(b, _, _) => AcceptableExactly(b, cc);
    case Quant(a, _, _, _) => AcceptableExactly(a, cc);
    case _ =>
  }

  /** A literal in n counted loops. */
  function Nested(n: nat): Pattern {
    if n == 0 then Literal(97) else Quant(Group(Nested(n - 1)), 2, 2, false)
  }

  lemma {:induction false} NestedShape(n: nat, cc: nat)
    ensures Shaped(Nested(n)) && CapCount(Nested(n)) == 0 && ClassesFit(Nested(n))
  {
    if n > 0 {
      NestedShape(n - 1, cc);
    }
  }

  /** The code leaves the stack as it was and rises n above it in between. */
  predicate Rises(code: seq<Instr>, d: nat, n: nat) {
    NetDepth(code) == 0 && MaxDepth(code, d) == d + n
  }

  lemma {:induction false} RisesAppend(a: seq<Instr>, b: seq<Instr>, d: nat, n: nat, k: nat)
    requires Rises(a, d, n) && Rises(b, d, k)
    ensures Rises(a + b, d, if n >= k then n else k)
  {
    hide NetDepth, MaxDepth;
    DepthAppend(a, b, d);
  }

  lemma {:induction false} RisesOne(i: Instr, d: nat)
    requires Effect(i) == 0
    ensures Rises([i], d, 0)
  {
    assert [i][1..] == [];
  }

  lemma {:induction false} OneDepth(i: Instr, d: nat)
    ensures NetDepth([i]) == Effect(i) && MaxDepth([i], d) == if Effect(i) > 0 then d + Effect(i) else d
  {
    assert [i][1..] == [];
  }

  lemma {:induction false} LoopRises(atom: seq<Instr>, d: nat, n: nat)
    requires Rises(atom, d + 1, n)
    ensures Rises(RepeatCode(atom, 2), d, n + 1)
  {
    var push, end := [PushI32(2)], [Loop(-(Length(atom) + 5)), Drop];
    OneDepth(PushI32(2), d);
    OneDepth(end[0], d + 1);
    OneDepth(Drop, d + 1);
    hide NetDepth, MaxDepth;
    assert end == [end[0]] + [Drop];
    DepthAppend([end[0]], [Drop], d + 1);
    DepthAppend(push, atom, d);
    DepthAppend(push + atom, end, d);
  }

  /** Every loop around takes one place on the machine stack. */
  lemma {:induction false} NestedRises(f: Flags, n: nat, cc: nat, d: nat)
    ensures Shaped(Nested(n)) && Rises(Code(f, Nested(n), false, cc), d, n)
  {
    NestedShape(n, cc);
    if n == 0 {
      RisesOne(CharCode(f, Literal(97)), d);
    } else {
      NestedRises(f, n - 1, cc, d + 1);
      var atom := Code(f, Nested(n - 1), false, cc);
      CodeOuter(f, Nested(n - 1), false, cc);
      CodeOuter(f, Group(Nested(n - 1)), false, cc);
      LoopRises(atom, d, n - 1);
      hide Rises, Code, SimpleCount, Advance, RepeatCode;
      assert RepeatCode(atom, 2) + [] == RepeatCode(atom, 2);
    }
  }

  lemma {:induction false} ProgramRises(f: Flags, p: Pattern, sticky: bool, n: nat)
    requires Shaped(p) && Rises(Code(f, p, false, 1), 0, n)
    ensures Rises(Program(f, p, sticky), 0, n)
  {
    var code := Code(f, p, false, 1);
    var s, e, t := Save(false, 0), Save(true, 0), Match;
    RisesOne(s, 0);
    RisesOne(e, 0);
    RisesOne(t, 0);
    PrefixRises(sticky);
    CodeBodies(f, p, false, false, false, 0);
    hide Rises, Code, Prefix;
    RisesAppend([s], code, 0, 0, n);
    RisesAppend([s] + code, [e], 0, n, 0);
    RisesAppend(Prefix(sticky), [s] + code + [e], 0, 0, n);
    RisesAppend(Prefix(sticky) + ([s] + code + [e]), [t], 0, n, 0);
  }

  lemma {:induction false} PrefixRises(sticky: bool)
    ensures Rises(Prefix(sticky), 0, 0)
  {
    var s, a, g := Split(true, 6), AnyChar, Goto(-11);
    RisesOne(s, 0);
    RisesOne(a, 0);
    RisesOne(g, 0);
    RisesAppend([s], [a], 0, 0, 0);
    RisesAppend([s] + [a], [g], 0, 0, 0);
    assert [s] + [a] + [g] == [s, a, g];
  }

  /** The loops of a pattern may be nested 255 deep and no deeper. */
  lemma {:induction false} NestingLimit(f: Flags, n: nat, sticky: bool)
    ensures Shaped(Nested(n)) && (Compiles(f, Nested(n), sticky) <==> n <= 255)
  {
    NestedShape(n, 0);
    AcceptableExactly(Nested(n), 1);
    NestedRises(f, n, 1, 0);
    ProgramRises(f, Nested(n), sticky, n);
    hide Program, Acceptable, MaxDepth;
  }
}
