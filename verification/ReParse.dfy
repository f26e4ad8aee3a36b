/** The one-pass compiler: terms, alternatives and disjunctions append their code to the output,
    rewriting what was already emitted. The pattern tree stands for the text that is parsed. */
module ReParse {
  import opened ReOpcode
  import opened RePattern
  import opened ReClass
  import opened ReCode
  import opened ReScan
  import opened DynBuffer
  import opened ReEmit

  // ----- quantifiers -----

  /** The quantifier on the atom that ends the output, which starts at start. */
  method Quantify(s: REParseState, start: nat, lastCaptureCount: nat, min: nat, max: nat, greedy: bool,
          ghost atom: seq<Instr>)
    requires s.Valid() && start <= |s.Out()| && s.Out()[start..] == Bytes(atom) && AllReadable(atom)
    requires min <= max && lastCaptureCount <= s.captureCount
    modifies s.byteCode
    ensures s.Valid()
    ensures s.Out()
         == old(s.Out())[..start] + Bytes(QuantCode(atom, lastCaptureCount, s.captureCount, min, max, greedy))
  {
    hide Bytes;
    hide AllReadable;
    hide QuantCode;
    hide SimpleCode;
    hide SimpleCount;
    hide Advance;
    hide OptionalCode;
    hide MoreCode;
    hide FirstCode;
    hide PlusCode;
    ghost var pre := s.Out()[..start];
    var check := false;
    assert s.byteCode.buf[start..s.byteCode.size] == s.Out()[start..];
    if greedy {
      if max > 0 {
        var len := IsSimpleQuantifier(s.byteCode.buf[start..s.byteCode.size], atom);
        if len > 0 {
          s.MakeSimple(start, min, max, len, atom);
          QuantCodeSimple(atom, lastCaptureCount, s.captureCount, min, max);
          return;
        }
      }
      var advance := CheckAdvance(s.byteCode.buf[start..s.byteCode.size], atom);
      check := advance == 0;
    }
    QuantCodeIs(atom, lastCaptureCount, s.captureCount, min, max, greedy, check);
    if min == 0 {
      QuantifyOptional(s, start, lastCaptureCount, max, greedy, check, atom);
    } else if min == 1 && max == INT32_MAX && !check {
      s.MakePlus(start, greedy, atom);
    } else {
      QuantifyMandatory(s, start, min, max, greedy, check, atom);
    }
  }

  lemma {:induction false} QuantCodeSimple(atom: seq<Instr>, lo: nat, hi: nat, min: nat, max: nat)
    requires min <= max && max > 0 && SimpleCount(atom) > 0
    ensures QuantCode(atom, lo, hi, min, max, true) == SimpleCode(atom, min, max)
  {
    hide SimpleCount;
    hide SimpleCode;
  }

  method QuantifyOptional(s: REParseState, start: nat, lastCaptureCount: nat, max: nat, greedy: bool, check: bool,
          ghost atom: seq<Instr>)
    requires s.Valid() && start <= |s.Out()| && s.Out()[start..] == Bytes(atom)
    requires lastCaptureCount <= s.captureCount
    modifies s.byteCode
    ensures s.Valid()
    ensures var reset :=
              if lastCaptureCount != s.captureCount then [SaveReset(lastCaptureCount, s.captureCount - 1)] else [];
            s.Out() == old(s.Out())[..start] + Bytes(reset + OptionalCode(atom, max, greedy, check))
  {
    hide Bytes;
    hide Length;
    hide Encode;
    hide StarCode;
    hide CountedCode;
    ghost var pre := s.Out()[..start];
    ghost var code := OptionalCode(atom, max, greedy, check);
    var len := s.byteCode.size - start;
    var lastAtomStart := start;
    if lastCaptureCount != s.captureCount {
      s.InsertReset(lastAtomStart, lastCaptureCount, s.captureCount - 1);
      lastAtomStart := lastAtomStart + 3;
      pre := pre + Encode(SaveReset(lastCaptureCount, s.captureCount - 1));
      BytesAround(SaveReset(lastCaptureCount, s.captureCount - 1), code, Drop);
    } else {
      assert [] + code == code;
    }
    assert s.Out() == pre + Bytes(atom) && |pre| == lastAtomStart;
    if max == 0 {
      s.byteCode.Truncate(lastAtomStart);
      NoBytes();
    } else if max == 1 {
      s.MakeMaybe(lastAtomStart, greedy, len, atom);
    } else if max == INT32_MAX {
      s.MakeStar(lastAtomStart, greedy, check, len, atom);
    } else {
      s.MakeCounted(lastAtomStart, max, greedy, len, atom);
    }
  }

  method QuantifyMandatory(s: REParseState, start: nat, min: nat, max: nat, greedy: bool, check: bool,
          ghost atom: seq<Instr>)
    requires s.Valid() && start <= |s.Out()| && s.Out()[start..] == Bytes(atom)
    requires 0 < min <= max
    modifies s.byteCode
    ensures s.Valid()
    ensures s.Out() == old(s.Out())[..start] + Bytes(FirstCode(atom, min) + MoreCode(atom, min, max, greedy, check))
  {
    hide Bytes;
    hide Length;
    hide RepeatCode;
    hide MoreCode;
    ghost var pre := s.Out()[..start];
    assert s.Out() == pre + Bytes(atom);
    var len := s.byteCode.size - start;
    var lastAtomStart := start;
    if min != 1 {
      s.MakeRepeat(lastAtomStart, min, atom);
      lastAtomStart := lastAtomStart + 5;
    } else {
      assert s.Out()[start..start + len] == s.Out()[start..];
    }
    assert s.Out() == pre + Bytes(FirstCode(atom, min));
    s.AppendMore(lastAtomStart, len, min, max, greedy, check, atom);
    BytesAppend(FirstCode(atom, min), MoreCode(atom, min, max, greedy, check));
  }

  // ----- which trees the grammar produces, and which of them compile -----

  /** A term: an atom, an assertion, or a quantified atom. Lookahead can be quantified, lookbehind
      cannot. */
  predicate IsTerm(p: Pattern): (b: bool)
    ensures b ==> Shaped(p)
    decreases p, 0
  {
    match p
    case Literal(_) => true
    case Wildcard => true
    case Class(points) => |points| % 2 == 0
    case AssertStart => true
    case AssertEnd => true
    case AssertWord(_) => true
    case Group(b) => IsDisjunction(b)
    case Capture(b) => IsDisjunction(b)
    case Look(b, _, _) => IsDisjunction(b)
    case Quant(a, min, max, _) => IsTerm(a) && IsAtom(a) && min <= max <= INFINITE
    case _ => false
  }

  predicate IsAtom(p: Pattern) {
    IsCharPattern(p) || p.Group? || p.Capture? || (p.Look? && !p.backward)
  }

  /** A sequence of terms, the last one outermost. */
  predicate IsAlternative(p: Pattern): (b: bool)
    ensures b ==> Shaped(p)
    decreases p, 1
  {
    p.Empty? || (p.Concat? && IsAlternative(p.first) && IsTerm(p.rest))
  }

  /** Alternatives, the last one outermost. */
  predicate IsDisjunction(p: Pattern): (b: bool)
    ensures b ==> Shaped(p)
    decreases p, 2
  {
    if p.Alt? then IsDisjunction(p.left) && IsAlternative(p.right) else IsAlternative(p)
  }

  /** A tree of the grammar, at any level. */
  predicate Parsed(p: Pattern): (b: bool)
    ensures b ==> Shaped(p)
  {
    IsTerm(p) || IsAlternative(p) || IsDisjunction(p)
  }

  /** What stands in parentheses is a disjunction. */
  lemma {:induction false} EnclosedBody(p: Pattern)
    requires Parsed(p) && (p.Group? || p.Capture? || p.Look?)
    ensures Parsed(p.body)
  {
    assert !IsAlternative(p);
    assert !IsDisjunction(p);
    assert IsTerm(p);
    TermBody(p);
  }

  lemma {:induction false} TermBody(p: Pattern)
    requires IsTerm(p) && (p.Group? || p.Capture? || p.Look?)
    ensures IsDisjunction(p.body)
  {
  }

  lemma {:induction false} ParsedParts(p: Pattern)
    requires Parsed(p)
    ensures p.Concat? ==> Parsed(p.first) && Parsed(p.rest)
    ensures p.Alt? ==> Parsed(p.left) && Parsed(p.right)
    ensures p.Group? || p.Capture? || p.Look? ==> Parsed(p.body)
    ensures p.Quant? ==> Parsed(p.atom) && p.min <= p.max <= INFINITE
  {
    match p
    case Group(b) => EnclosedBody(p);
    case Capture(b) => EnclosedBody(p);
    case Look(b, _, _) => EnclosedBody(p);
    case Concat(a, b) =>
      assert IsAlternative(p) by { assert !IsTerm(p); }
      assert Parsed(a) && Parsed(b);
    case Alt(a, b) =>
      assert IsDisjunction(p) by { assert !IsTerm(p) && !IsAlternative(p); }
      assert Parsed(a) && Parsed(b);
    case Quant(a, _, _, _) =>
      assert IsTerm(p) by { assert IsDisjunction(p) ==> IsAlternative(p); }
      assert Parsed(a);
    case _ =>
  }

  /** No class with too many intervals, and not too many captures. */
  predicate Acceptable(p: Pattern, cc: nat) {
    match p
    case Class(points) => |points| / 2 < MAX_RANGES
    case Concat(a, b) => Acceptable(a, cc) && Acceptable(b, cc + CapCount(a))
    case Alt(a, b) => Acceptable(a, cc) && Acceptable(b, cc + CapCount(a))
    case Group(b) => Acceptable(b, cc)
    case Capture(b) => cc < CAPTURE_COUNT_MAX && Acceptable(b, cc + 1)
    case Look(b, _, _) => Acceptable(b, cc)
    case Quant(a, _, _, _) => Acceptable(a, cc)
    case _ => true
  }

  function Terms(p: Pattern): seq<Pattern> {
    if p.Concat? then Terms(p.first) + [p.rest] else []
  }

  function Sequence(ts: seq<Pattern>): Pattern {
    if |ts| == 0 then Empty else Concat(Sequence(ts[..|ts| - 1]), ts[|ts| - 1])
  }

  lemma {:induction false} SequenceTerms(p: Pattern)
    requires IsAlternative(p)
    ensures Sequence(Terms(p)) == p
    ensures forall k :: 0 <= k < |Terms(p)| ==> IsTerm(Terms(p)[k]) && Terms(p)[k] < p
  {
    if p.Concat? {
      SequenceTerms(p.first);
      var ts := Terms(p);
      assert ts[..|ts| - 1] == Terms(p.first);
    }
  }

  lemma {:induction false} SequenceNext(ts: seq<Pattern>, k: nat)
    requires k < |ts|
    ensures Sequence(ts[..k + 1]) == Concat(Sequence(ts[..k]), ts[k])
  {
    assert ts[..k + 1][..k] == ts[..k];
  }

  lemma {:induction false} SequencePrefix(ts: seq<Pattern>, k: nat, cc: nat)
    requires k <= |ts| && Acceptable(Sequence(ts), cc)
    ensures Acceptable(Sequence(ts[..k]), cc)
    decreases |ts| - k
  {
    if k == |ts| {
      assert ts[..k] == ts;
    } else {
      SequencePrefix(ts, k + 1, cc);
      SequenceNext(ts, k);
    }
  }

  function Alternatives(p: Pattern): (alts: seq<Pattern>)
    ensures |alts| > 0
  {
    if p.Alt? then Alternatives(p.left) + [p.right] else [p]
  }

  function Choice(alts: seq<Pattern>): Pattern
    requires |alts| > 0
  {
    if |alts| == 1 then alts[0] else Alt(Choice(alts[..|alts| - 1]), alts[|alts| - 1])
  }

  lemma {:induction false} ChoiceAlternatives(p: Pattern)
    requires IsDisjunction(p)
    ensures Choice(Alternatives(p)) == p
    ensures forall k :: 0 <= k < |Alternatives(p)| ==>
              IsAlternative(Alternatives(p)[k]) && (Alternatives(p)[k] == p || Alternatives(p)[k] < p)
  {
    if p.Alt? {
      ChoiceAlternatives(p.left);
      var alts := Alternatives(p);
      assert alts[..|alts| - 1] == Alternatives(p.left);
    }
  }

  lemma {:induction false} ChoiceNext(alts: seq<Pattern>, k: nat)
    requires 0 < k < |alts|
    ensures Choice(alts[..k + 1]) == Alt(Choice(alts[..k]), alts[k])
  {
    assert alts[..k + 1][..k] == alts[..k];
  }

  lemma {:induction false} ChoicePrefix(alts: seq<Pattern>, k: nat, cc: nat)
    requires 0 < k <= |alts| && Acceptable(Choice(alts), cc)
    ensures Acceptable(Choice(alts[..k]), cc)
    decreases |alts| - k
  {
    if k == |alts| {
      assert alts[..k] == alts;
    } else {
      ChoicePrefix(alts, k + 1, cc);
      ChoiceNext(alts, k);
    }
  }

  // ----- the code of acceptable patterns can be scanned -----

  lemma {:induction false} CodeReadable(f: Flags, p: Pattern, back: bool, cc: nat)
    requires Shaped(p) && Acceptable(p, cc)
    ensures AllReadable(Code(f, p, back, cc))
  {
    hide Code;
    hide QuantCode;
    hide AltCode;
    hide LookCode;
    hide AllReadable;
    match p
    case Concat(a, b) =>
      CodeReadable(f, a, back, cc);
      CodeReadable(f, b, back, cc + CapCount(a));
      CodePairs(f, a, b, back, cc);
      PairReadable(Code(f, a, back, cc), Code(f, b, back, cc + CapCount(a)));
    case Alt(a, b) =>
      CodeReadable(f, a, back, cc);
      CodeReadable(f, b, back, cc + CapCount(a));
      CodePairs(f, a, b, back, cc);
      PairReadable(Code(f, a, back, cc), Code(f, b, back, cc + CapCount(a)));
    case Group(b) =>
      CodeReadable(f, b, back, cc);
      CodeOuter(f, b, back, cc);
    case Capture(b) =>
      CodeReadable(f, b, back, cc + 1);
      CodeBodies(f, b, false, false, back, cc);
      BodyReadable(Code(f, b, back, cc + 1), back, cc, false);
    case Look(b, negated, backward) =>
      CodeReadable(f, b, backward, cc);
      CodeBodies(f, b, negated, backward, back, cc);
      BodyReadable(Code(f, b, backward, cc), back, cc, negated);
    case Quant(a, min, max, greedy) =>
      CodeReadable(f, a, back, cc);
      CodeOuter(f, a, back, cc);
      QuantReadable(Code(f, a, back, cc), cc, cc + CapCount(a), min, max, greedy);
    case _ => LeafReadable(f, p, back, cc);
  }

  lemma {:induction false} LeafReadable(f: Flags, p: Pattern, back: bool, cc: nat)
    requires Shaped(p) && (p.Empty? || IsCharPattern(p) || IsAssertion(p)) && Acceptable(p, cc)
    ensures AllReadable(Code(f, p, back, cc))
  {
    hide Table16;
    hide Table32;
  }

  lemma {:induction false} PairReadable(a: seq<Instr>, b: seq<Instr>)
    requires AllReadable(a) && AllReadable(b)
    ensures AllReadable(a + b) && AllReadable(b + a) && AllReadable(AltCode(a, b))
  {
    hide Length;
  }

  lemma {:induction false} BodyReadable(body: seq<Instr>, back: bool, cc: nat, negated: bool)
    requires AllReadable(body)
    ensures AllReadable([Save(back, cc)] + body + [Save(!back, cc)]) && AllReadable(LookCode(body, negated))
  {
    hide Length;
  }

  lemma {:induction false} QuantReadable(atom: seq<Instr>, lo: nat, hi: nat, min: nat, max: nat, greedy: bool)
    requires min <= max && AllReadable(atom)
    ensures AllReadable(QuantCode(atom, lo, hi, min, max, greedy))
  {
    hide Length;
    hide SimpleCount;
    hide Advance;
    var check := greedy && Advance(atom) == 0;
    var reset := if lo != hi then [SaveReset(lo, hi - 1)] else [];
    assert AllReadable(reset);
    LoopsReadable(atom, min, max, greedy, check);
    hide StarCode;
    hide CountedCode;
    hide RepeatCode;
    if !(greedy && max > 0 && SimpleCount(atom) > 0) {
      QuantCodeIs(atom, lo, hi, min, max, greedy, check);
      ReadableAppend(reset, OptionalCode(atom, max, greedy, check));
      ReadableAppend(FirstCode(atom, min), MoreCode(atom, min, max, greedy, check));
    }
  }

  lemma {:induction false} LoopsReadable(atom: seq<Instr>, min: nat, max: nat, greedy: bool, check: bool)
    requires min <= max && AllReadable(atom)
    ensures AllReadable(StarCode(atom, greedy, check)) && AllReadable(RepeatCode(atom, min))
    ensures AllReadable(CountedCode(atom, max, greedy)) && AllReadable(CountedCode(atom, max - min, greedy))
  {
    hide Length;
  }

  // ----- terms, alternatives, disjunctions -----

  lemma {:induction false} AltBytes(a: seq<Instr>, b: seq<Instr>)
    ensures Bytes(AltCode(a, b))
         == [9] + U32(Length(a) as int + 5) + Bytes(a) + ([7] + U32(Length(b))) + Bytes(b)
  {
    hide Bytes;
    hide Length;
    hide U32;
    hide Encode;
    var s, g := Split(false, Length(a) + 5), Goto(Length(b));
    BytesAround(s, a, g);
    BytesAppend([s] + a + [g], b);
    SplitBytes(true, Length(a) + 5);
    JumpBytes(Length(b));
  }

  lemma {:induction false} LookBytes(body: seq<Instr>, negated: bool)
    ensures Bytes(LookCode(body, negated))
         == [if negated then 24 else 23] + U32(Length(body) as int + 1) + Bytes(body) + [10]
  {
    hide Bytes;
    hide Length;
    hide U32;
    var i := Lookahead(negated, Length(body) + 1);
    BytesAround(i, body, Match);
    assert Encode(i) == [if negated then 24 else 23] + U32(Length(body) as int + 1);
    assert Encode(Match) == [10];
    hide Encode;
  }

  lemma {:induction false} DirectedBytes(back: bool, i: Instr)
    ensures Bytes(Directed(back, i)) == if back then [27] + Encode(i) + [27] else Encode(i)
  {
    hide Bytes;
    BytesOne(i);
    if back {
      assert [Prev, i, Prev] == [Prev] + [i] + [Prev];
      BytesAround(Prev, [i], Prev);
      assert Encode(Prev) == [27];
      hide Encode;
    }
  }

  /** One character, read in the direction of matching. */
  method EmitChar(s: REParseState, p: Pattern, back: bool) returns (ok: bool)
    requires s.Valid() && IsCharPattern(p) && Shaped(p)
    modifies s.byteCode
    ensures s.Valid() && ok == Acceptable(p, 0)
    ensures ok ==> s.Out() == old(s.Out()) + Bytes(Directed(back, CharCode(s.flags, p)))
  {
    hide Bytes;
    hide Encode;
    hide U16;
    hide U32;
    hide RangeCode;
    DirectedBytes(back, CharCode(s.flags, p));
    hide Directed;
    ok := true;
    if back {
      s.EmitOp(27);
    }
    match p {
      case Wildcard =>
        s.EmitOp(if s.flags.dotAll then 4 else 3);
        DotBytes();
      case Class(points) =>
        ok := s.EmitRange(points);
        if !ok { return; }
      case Literal(ch) =>
        var c := if s.flags.ignoreCase then s.flags.canon(ch) else ch;
        CharBytes(c);
        if c <= 0xffff {
          s.EmitOpU16(1, c);
        } else {
          var _ := s.EmitOpU32(2, c);
        }
    }
    if back {
      s.EmitOp(27);
    }
  }

  lemma {:induction false} DotBytes()
    ensures Encode(Dot) == [3] && Encode(AnyChar) == [4]
  {
  }

  lemma {:induction false} CharBytes(c: int)
    ensures Encode(Instr.Char(c)) == [1] + U16(c) && Encode(Char32(c)) == [2] + U32(c)
  {
    hide U16;
    hide U32;
  }

  /** Assertions are one opcode. */
  method EmitAssertion(s: REParseState, p: Pattern, back: bool, ghost cc: nat)
    requires s.Valid() && IsAssertion(p)
    modifies s.byteCode
    ensures s.Valid() && s.Out() == old(s.Out()) + Bytes(Code(s.flags, p, back, cc))
  {
    var op := match p case AssertStart => 5 case AssertEnd => 6 case AssertWord(negated) => if negated then 18 else 17;
    s.EmitOp(op);
    assert Bytes(Code(s.flags, p, back, cc)) == [op] by {
      BytesOne(Code(s.flags, p, back, cc)[0]);
    }
  }

  /** re_parse_term. */
  method ParseTerm(s: REParseState, p: Pattern, back: bool) returns (ok: bool)
    requires s.Valid() && IsTerm(p)
    modifies s`captureCount, s.byteCode
    ensures s.Valid() && ok == Acceptable(p, old(s.captureCount))
    ensures ok ==> s.captureCount == old(s.captureCount) + CapCount(p)
    ensures ok ==> s.Out() == old(s.Out()) + Bytes(Code(s.flags, p, back, old(s.captureCount)))
    decreases p, 0
  {
    hide Bytes;
    hide QuantCode;
    hide LookCode;
    hide CharCode;
    hide Directed;
    hide AllReadable;
    hide IsDisjunction;
    match p {
      case Group(b) =>
        ok := ParseDisjunction(s, b, back);
      case Capture(b) =>
        ok := ParseCapture(s, b, back);
      case Look(b, negated, backward) =>
        ok := ParseLook(s, b, negated, backward);
      case Quant(a, min, max, greedy) =>
        var start, lastCaptureCount := s.byteCode.size, s.captureCount;
        ghost var pre := s.Out();
        ok := ParseTerm(s, a, back);
        if ok {
          CodeReadable(s.flags, a, back, lastCaptureCount);
          assert s.Out()[..start] == pre;
          Quantify(s, start, lastCaptureCount, min, max, greedy, Code(s.flags, a, back, lastCaptureCount));
        }
      case AssertStart =>
        EmitAssertion(s, p, back, s.captureCount);
        ok := true;
      case AssertEnd =>
        EmitAssertion(s, p, back, s.captureCount);
        ok := true;
      case AssertWord(_) =>
        EmitAssertion(s, p, back, s.captureCount);
        ok := true;
      case Literal(_) =>
        ok := EmitChar(s, p, back);
      case Wildcard =>
        ok := EmitChar(s, p, back);
      case Class(_) =>
        ok := EmitChar(s, p, back);
    }
  }

  method ParseCapture(s: REParseState, b: Pattern, back: bool) returns (ok: bool)
    requires s.Valid() && IsDisjunction(b)
    modifies s`captureCount, s.byteCode
    ensures s.Valid() && ok == (old(s.captureCount) < CAPTURE_COUNT_MAX && Acceptable(b, old(s.captureCount) + 1))
    ensures ok ==> s.captureCount == old(s.captureCount) + 1 + CapCount(b)
    ensures ok ==> var cc := old(s.captureCount);
                   s.Out() == old(s.Out()) + Bytes([Save(back, cc)] + Code(s.flags, b, back,
                   cc + 1) + [Save(!back, cc)])
    decreases b, 4
  {
    hide Bytes;
    hide Code;
    if s.captureCount >= CAPTURE_COUNT_MAX {
      return false;
    }
    var captureIndex := s.captureCount;
    s.captureCount := s.captureCount + 1;
    s.EmitOpU8(if back then 12 else 11, captureIndex);
    ok := ParseDisjunction(s, b, back);
    if ok {
      s.EmitOpU8(if back then 11 else 12, captureIndex);
      SaveBytes(back, captureIndex);
      SaveBytes(!back, captureIndex);
      BytesAround(Save(back, captureIndex), Code(s.flags, b, back, captureIndex + 1), Save(!back, captureIndex));
    }
  }

  lemma {:induction false} SaveBytes(isEnd: bool, index: nat)
    ensures Encode(Save(isEnd, index)) == [if isEnd then 12 else 11, index % 256]
  {
  }

  method ParseLook(s: REParseState, b: Pattern, negated: bool, backward: bool) returns (ok: bool)
    requires s.Valid() && IsDisjunction(b)
    modifies s`captureCount, s.byteCode
    ensures s.Valid() && ok == Acceptable(b, old(s.captureCount))
    ensures ok ==> s.captureCount == old(s.captureCount) + CapCount(b)
    ensures ok ==> s.Out() == old(s.Out()) + Bytes(LookCode(Code(s.flags, b, backward, old(s.captureCount)), negated))
    decreases b, 4
  {
    hide Bytes;
    hide Code;
    hide LookCode;
    hide U32;
    hide Overwrite;
    ghost var body := Code(s.flags, b, backward, s.captureCount);
    var op: byte := if negated then 24 else 23;
    ghost var pre := s.Out() + [op];
    var pos := s.EmitOpU32(op, 0);
    ok := ParseDisjunction(s, b, backward);
    if ok {
      s.EmitOp(10);
      LookBytes(body, negated);
      PatchJump(s, pos, pre, Bytes(body) + [10]);
    }
  }

  /** Fills in a jump over all that was emitted after its operand. */
  method PatchJump(s: REParseState, pos: nat, ghost pre: seq<byte>, ghost post: seq<byte>)
    requires s.Valid() && s.Out() == pre + U32(0) + post && pos == |pre|
    modifies s.byteCode
    ensures s.Valid() && s.Out() == pre + U32(|post|) + post
  {
    hide U32;
    hide Overwrite;
    OverwriteGap(pre, U32(0), post, U32(s.byteCode.size - (pos + 4)));
    s.byteCode.SetU32(pos, s.byteCode.size - (pos + 4));
  }

  /** The next term of an alternative; backwards, it is moved in front of the terms before it. */
  method NextTerm(s: REParseState, start: nat, t: Pattern, back: bool, ghost pre: seq<byte>, ghost before: seq<Instr>)
    returns (ok: bool)
    requires s.Valid() && IsTerm(t) && s.Out() == pre + Bytes(before) && start == |pre|
    modifies s`captureCount, s.byteCode
    ensures s.Valid() && ok == Acceptable(t, old(s.captureCount))
    ensures ok ==> s.captureCount == old(s.captureCount) + CapCount(t)
    ensures ok ==> var term := Code(s.flags, t, back, old(s.captureCount));
                   s.Out() == pre + Bytes(if back then term + before else before + term)
    decreases t, 1
  {
    hide Bytes;
    hide Code;
    hide IsTerm;
    hide Acceptable;
    hide CapCount;
    ghost var term := Code(s.flags, t, back, s.captureCount);
    ghost var a, b := Bytes(before), Bytes(term);
    var termStart := s.byteCode.size;
    ok := ParseTerm(s, t, back);
    if ok {
      BytesAppend(before, term);
      BytesAppend(term, before);
      Rotate(pre, a, b);
      if back {
        s.byteCode.MoveLastBlock(start, termStart);
      }
    }
  }

  /** re_parse_alternative. */
  method ParseAlternative(s: REParseState, p: Pattern, back: bool) returns (ok: bool)
    requires s.Valid() && IsAlternative(p)
    modifies s`captureCount, s.byteCode
    ensures s.Valid() && ok == Acceptable(p, old(s.captureCount))
    ensures ok ==> s.captureCount == old(s.captureCount) + CapCount(p)
    ensures ok ==> s.Out() == old(s.Out()) + Bytes(Code(s.flags, p, back, old(s.captureCount)))
    decreases p, 1
  {
    hide Bytes;
    hide Code;
    hide IsTerm;
    hide Sequence;
    hide CapCount;
    hide Acceptable;
    hide Terms;
    hide IsAlternative;
    var start := s.byteCode.size;
    var ts := Terms(p);
    SequenceTerms(p);
    ghost var cc := s.captureCount;
    ghost var pre := s.Out();
    var k := 0;
    EmptySequence(s.flags, back, cc);
    assert ts[..0] == [];
    while k < |ts|
      invariant 0 <= k <= |ts| && s.Valid()
      invariant Shaped(Sequence(ts[..k])) && Acceptable(Sequence(ts[..k]), cc)
      invariant s.captureCount == cc + CapCount(Sequence(ts[..k]))
      invariant s.Out() == pre + Bytes(Code(s.flags, Sequence(ts[..k]), back, cc))
    {
      ghost var before := Sequence(ts[..k]);
      SequenceNext(ts, k);
      AcceptNext(before, ts[k], cc);
      CodePairs(s.flags, before, ts[k], back, cc);
      ok := NextTerm(s, start, ts[k], back, pre, Code(s.flags, before, back, cc));
      if !ok {
        if Acceptable(p, cc) {
          SequencePrefix(ts, k + 1, cc);
        }
        return;
      }
      k := k + 1;
    }
    assert ts[..k] == ts;
    ok := true;
  }

  lemma {:induction false} EmptySequence(f: Flags, back: bool, cc: nat)
    ensures Sequence([]) == Empty && CapCount(Empty) == 0 && Acceptable(Empty, cc)
    ensures Bytes(Code(f, Empty, back, cc)) == []
  {
  }

  lemma {:induction false} AcceptNext(a: Pattern, b: Pattern, cc: nat)
    ensures Acceptable(Concat(a, b), cc) == (Acceptable(a, cc) && Acceptable(b, cc + CapCount(a)))
    ensures CapCount(Concat(a, b)) == CapCount(a) + CapCount(b)
    ensures Acceptable(Alt(a, b), cc) == (Acceptable(a, cc) && Acceptable(b, cc + CapCount(a)))
    ensures CapCount(Alt(a, b)) == CapCount(a) + CapCount(b)
  {
  }

  lemma {:induction false} Rotate(pre: seq<byte>, a: seq<byte>, b: seq<byte>)
    ensures var s := pre + a + b;
            && s == pre + (a + b)
            && s[..|pre|] + s[|pre| + |a|..] + s[|pre|..|pre| + |a|] == pre + (b + a)
  {
    var s := pre + a + b;
    assert s[..|pre|] == pre && s[|pre| + |a|..] == b && s[|pre|..|pre| + |a|] == a;
  }

  /** re_parse_disjunction: each new alternative puts a split in front of all previous ones. */
  method ParseDisjunction(s: REParseState, p: Pattern, back: bool) returns (ok: bool)
    requires s.Valid() && IsDisjunction(p)
    modifies s`captureCount, s.byteCode
    ensures s.Valid() && ok == Acceptable(p, old(s.captureCount))
    ensures ok ==> s.captureCount == old(s.captureCount) + CapCount(p)
    ensures ok ==> s.Out() == old(s.Out()) + Bytes(Code(s.flags, p, back, old(s.captureCount)))
    decreases p, 3
  {
    hide Bytes;
    hide Code;
    hide Alternatives;
    hide IsDisjunction;
    hide AltCode;
    hide IsAlternative;
    hide Choice;
    hide CapCount;
    hide Acceptable;
    var start := s.byteCode.size;
    var alts := Alternatives(p);
    ChoiceAlternatives(p);
    ghost var cc := s.captureCount;
    ghost var pre := s.Out();
    ok := ParseAlternative(s, alts[0], back);
    OneChoice(alts);
    if !ok {
      if Acceptable(p, cc) {
        ChoicePrefix(alts, 1, cc);
      }
      return;
    }
    var k := 1;
    while k < |alts|
      invariant 1 <= k <= |alts| && s.Valid()
      invariant Shaped(Choice(alts[..k])) && Acceptable(Choice(alts[..k]), cc)
      invariant s.captureCount == cc + CapCount(Choice(alts[..k]))
      invariant s.Out() == pre + Bytes(Code(s.flags, Choice(alts[..k]), back, cc))
    {
      ghost var a := Choice(alts[..k]);
      ChoiceNext(alts, k);
      AcceptNext(a, alts[k], cc);
      CodePairs(s.flags, a, alts[k], back, cc);
      ok := NextAlternative(s, start, alts[k], back, pre, Code(s.flags, a, back, cc));
      if !ok {
        if Acceptable(p, cc) {
          ChoicePrefix(alts, k + 1, cc);
        }
        return;
      }
      k := k + 1;
    }
    assert alts[..k] == alts;
    ok := true;
  }

  lemma {:induction false} OneChoice(alts: seq<Pattern>)
    requires |alts| > 0
    ensures Choice(alts[..1]) == alts[0]
  {
  }

  method NextAlternative(s: REParseState, start: nat, b: Pattern, back: bool, ghost pre: seq<byte>, ghost a: seq<Instr>)
    returns (ok: bool)
    requires s.Valid() && IsAlternative(b) && s.Out() == pre + Bytes(a) && start == |pre|
    modifies s`captureCount, s.byteCode
    ensures s.Valid() && ok == Acceptable(b, old(s.captureCount))
    ensures ok ==> s.captureCount == old(s.captureCount) + CapCount(b)
    ensures ok ==> s.Out() == pre + Bytes(AltCode(a, Code(s.flags, b, back, old(s.captureCount))))
    decreases b, 2
  {
    hide Bytes;
    hide Code;
    hide AltCode;
    hide U32;
    hide Overwrite;
    hide Length;
    ghost var code := Code(s.flags, b, back, s.captureCount);
    var len := s.byteCode.size - start;
    ghost var gap := s.InsertOpU32(start, 9, len + 5, 0);
    ghost var head := pre + ([9] + U32(len + 5)) + Bytes(a) + [7];
    var pos := s.EmitOpU32(7, 0);
    assert s.Out() == head + U32(0);
    ok := ParseAlternative(s, b, back);
    if ok {
      PatchJump(s, pos, head, Bytes(code));
      AltBytes(a, code);
    }
  }
}
