/** The instructions that the compiler emits for each pattern, and its two linear analyses of
    emitted code. */
module ReCode {
  import opened ReOpcode
  import opened RePattern
  import opened ReClass

  // ----- the analyses -----

  predicate IsCharInstr(i: Instr) {
    i.Char? || i.Char32? || i.Dot? || i.AnyChar? || i.Range? || i.Range32?
  }

  predicate IsTestInstr(i: Instr) {
    i.LineStart? || i.LineEnd? || i.WordBoundary?
  }

  /** re_is_simple_quantifier: the number of characters of straight-line code, or -1. */
  function SimpleCount(code: seq<Instr>): (n: int)
    ensures n >= -1
  {
    if |code| == 0 then 0
    else
      var rest := SimpleCount(code[1..]);
      if rest < 0 then -1
      else if IsCharInstr(code[0]) then rest + 1
      else if IsTestInstr(code[0]) then rest
      else -1
  }

  /** Instructions that re_check_advance passes over. */
  predicate IsNeutral(i: Instr) {
    IsTestInstr(i) || i.PushI32? || i.PushCharPos? || i.Drop? || i.Prev? || i.Save? || i.SaveReset?
  }

  /** re_check_advance on code without back references: 1 if the first instruction that matters
      reads a character, else 0. */
  function Advance(code: seq<Instr>): int {
    if |code| == 0 then 0
    else if IsCharInstr(code[0]) then 1
    else if IsNeutral(code[0]) then Advance(code[1..])
    else 0
  }

  /** The depth of the machine stack after a linear scan. */
  function NetDepth(code: seq<Instr>): int {
    if |code| == 0 then 0 else Effect(code[0]) + NetDepth(code[1..])
  }

  function Effect(i: Instr): int {
    if i.PushI32? || i.PushCharPos? then 1 else if i.Drop? || i.BneCharPos? then -1 else 0
  }

  /** The largest depth that the scan meets, starting from depth d. */
  function MaxDepth(code: seq<Instr>, d: int): (r: int)
    ensures r >= d
  {
    if |code| == 0 then d
    else
      var rest := MaxDepth(code[1..], d + Effect(code[0]));
      if rest >= d then rest else d
  }

  lemma {:induction false} DepthAppend(a: seq<Instr>, b: seq<Instr>, d: int)
    ensures NetDepth(a + b) == NetDepth(a) + NetDepth(b)
    ensures MaxDepth(a + b, d) >= MaxDepth(a, d)
    ensures MaxDepth(a + b, d) >= MaxDepth(b, d + NetDepth(a))
    ensures MaxDepth(a + b, d) == MaxDepth(a, d) || MaxDepth(a + b, d) == MaxDepth(b, d + NetDepth(a))
  {
    if |a| == 0 {
      assert a + b == b;
    } else {
      assert (a + b)[1..] == a[1..] + b;
      DepthAppend(a[1..], b, d + Effect(a[0]));
    }
  }

  lemma {:induction false} SimpleAppend(a: seq<Instr>, b: seq<Instr>)
    ensures SimpleCount(a + b)
         == if SimpleCount(a) < 0 || SimpleCount(b) < 0 then -1 else SimpleCount(a) + SimpleCount(b)
  {
    if |a| == 0 {
      assert a + b == b;
    } else {
      assert (a + b)[1..] == a[1..] + b;
      SimpleAppend(a[1..], b);
    }
  }

  /** Nothing in the code matters to re_check_advance. */
  predicate AllNeutral(code: seq<Instr>) {
    forall i :: 0 <= i < |code| ==> IsNeutral(code[i])
  }

  lemma {:induction false} AdvanceAppend(a: seq<Instr>, b: seq<Instr>)
    ensures Advance(a + b) == if AllNeutral(a) then Advance(b) else Advance(a)
    ensures AllNeutral(a + b) <==> AllNeutral(a) && AllNeutral(b)
  {
    var ab := a + b;
    if |a| == 0 {
      assert ab == b;
    } else {
      assert ab[1..] == a[1..] + b;
      AdvanceAppend(a[1..], b);
      assert AllNeutral(a) <==> IsNeutral(a[0]) && AllNeutral(a[1..]) by { NeutralCons(a); }
      NeutralCons(ab);
    }
  }

  lemma {:induction false} NeutralCons(a: seq<Instr>)
    requires |a| > 0
    ensures AllNeutral(a) <==> IsNeutral(a[0]) && AllNeutral(a[1..])
  {
    if IsNeutral(a[0]) && AllNeutral(a[1..]) {
      forall i | 0 <= i < |a| ensures IsNeutral(a[i]) {
        if i > 0 { assert a[i] == a[1..][i - 1]; }
      }
    }
  }

  // ----- emitted code -----

  function CharCode(f: Flags, p: Pattern): Instr
    requires IsCharPattern(p) && (p.Class? ==> |p.points| % 2 == 0)
  {
    match p
    case Literal(ch) => if Canon(f, ch) <= 0xffff then Instr.Char(Canon(f, ch)) else Char32(Canon(f, ch))
    case Wildcard => if f.dotAll then AnyChar else Dot
    case Class(points) => RangeCode(points)
  }

  predicate Shaped(p: Pattern) {
    match p
    case Class(points) => |points| % 2 == 0
    case Concat(a, b) => Shaped(a) && Shaped(b)
    case Alt(a, b) => Shaped(a) && Shaped(b)
    case Group(b) => Shaped(b)
    case Capture(b) => Shaped(b)
    case Look(b, _, _) => Shaped(b)
    case Quant(a, min, max, _) => Shaped(a) && min <= max
    case _ => true
  }

  /** The code of a pattern compiled in direction back, with cc captures before it. */
  function Code(f: Flags, p: Pattern, back: bool, cc: nat): seq<Instr>
    requires Shaped(p)
  {
    match p
    case Empty => []
    case Literal(_) => Directed(back, CharCode(f, p))
    case Wildcard => Directed(back, CharCode(f, p))
    case Class(_) => Directed(back, CharCode(f, p))
    case AssertStart => [LineStart]
    case AssertEnd => [LineEnd]
    case AssertWord(negated) => [WordBoundary(negated)]
    case Concat(a, b) =>
      var ca, cb := Code(f, a, back, cc), Code(f, b, back, cc + CapCount(a));
      if back then cb + ca else ca + cb
    case Alt(a, b) => AltCode(Code(f, a, back, cc), Code(f, b, back, cc + CapCount(a)))
    case Group(b) => Code(f, b, back, cc)
    case Capture(b) => [Save(back, cc)] + Code(f, b, back, cc + 1) + [Save(!back, cc)]
    case Look(b, negated, backward) => LookCode(Code(f, b, backward, cc), negated)
    case Quant(a, min, max, greedy) =>
      QuantCode(Code(f, a, back, cc), cc, cc + CapCount(a), min, max, greedy)
  }

  /** Backwards, a character is read by stepping back, reading forward and stepping back again. */
  function Directed(back: bool, i: Instr): seq<Instr> {
    if back then [Prev, i, Prev] else [i]
  }

  function AltCode(a: seq<Instr>, b: seq<Instr>): seq<Instr> {
    [Split(false, Length(a) + 5)] + a + [Goto(Length(b))] + b
  }

  function LookCode(body: seq<Instr>, negated: bool): seq<Instr> {
    [Lookahead(negated, Length(body) + 1)] + body + [Match]
  }

  /** Quantified code. lo to hi - 1 are the captures inside the atom. */
  function QuantCode(atom: seq<Instr>, lo: nat, hi: nat, min: nat, max: nat, greedy: bool): seq<Instr>
    requires min <= max
  {
    if greedy && max > 0 && SimpleCount(atom) > 0 then SimpleCode(atom, min, max)
    else
      var check := greedy && Advance(atom) == 0;
      if min == 0 then
        (if lo != hi then [SaveReset(lo, hi - 1)] else [])
        + (if max == 0 then []
           else if max == 1 then [Split(!greedy, Length(atom))] + atom
           else if max == INFINITE then StarCode(atom, greedy, check)
           else CountedCode(atom, max, greedy))
      else if min == 1 && max == INFINITE && !check then PlusCode(atom, greedy)
      else
        (if min == 1 then atom else RepeatCode(atom, min))
        + (if max == INFINITE then StarCode(atom, greedy, check)
           else if max > min then CountedCode(atom, max - min, greedy)
           else [])
  }

  function SimpleCode(atom: seq<Instr>, min: nat, max: nat): seq<Instr> {
    [SimpleGreedyQuant(Length(atom) + 1, min, max, SimpleCount(atom))] + atom + [Match]
  }

  /** An unbounded loop; with the check, an iteration that does not move leaves it. */
  function StarCode(atom: seq<Instr>, greedy: bool, check: bool): seq<Instr> {
    var len := Length(atom);
    if check then [Split(!greedy, len + 6)] + [PushCharPos] + atom + [BneCharPos(-(len + 11))]
    else [Split(!greedy, len + 5)] + atom + [Goto(-(len + 10))]
  }

  function PlusCode(atom: seq<Instr>, greedy: bool): seq<Instr> {
    atom + [Split(greedy, -(Length(atom) + 5))]
  }

  /** At most n iterations, counted on the machine stack. */
  function CountedCode(atom: seq<Instr>, n: nat, greedy: bool): seq<Instr> {
    var len := Length(atom);
    [PushI32(n), Split(!greedy, len + 5)] + atom + [Loop(-(len + 10)), Drop]
  }

  /** Exactly n iterations. */
  function RepeatCode(atom: seq<Instr>, n: nat): seq<Instr> {
    [PushI32(n)] + atom + [Loop(-(Length(atom) + 5)), Drop]
  }

  /** The optional repetitions after the mandatory ones. */
  function MoreCode(atom: seq<Instr>, min: nat, max: nat, greedy: bool, check: bool): seq<Instr>
    requires min <= max
  {
    if max == INFINITE then StarCode(atom, greedy, check)
    else if max > min then CountedCode(atom, max - min, greedy)
    else []
  }

  /** The mandatory repetitions. */
  function FirstCode(atom: seq<Instr>, min: nat): seq<Instr> {
    if min == 1 then atom else RepeatCode(atom, min)
  }

  /** The code of a quantifier with no mandatory repetitions, after the capture reset. */
  function OptionalCode(atom: seq<Instr>, max: nat, greedy: bool, check: bool): seq<Instr> {
    if max == 0 then []
    else if max == 1 then [Split(!greedy, Length(atom))] + atom
    else MoreCode(atom, 0, max, greedy, check)
  }

  /** Quantified code by its parts. */
  lemma {:induction false} QuantCodeIs(atom: seq<Instr>, lo: nat, hi: nat, min: nat, max: nat, greedy: bool,
          check: bool)
    requires min <= max && !(greedy && max > 0 && SimpleCount(atom) > 0)
    requires check == (greedy && Advance(atom) == 0)
    ensures QuantCode(atom, lo, hi, min, max, greedy)
         == if min == 0 then (if lo != hi then [SaveReset(lo, hi - 1)] else []) + OptionalCode(atom, max, greedy, check)
            else if min == 1 && max == INFINITE && !check then PlusCode(atom, greedy)
            else FirstCode(atom, min) + MoreCode(atom, min, max, greedy, check)
  {
    hide Advance;
    hide SimpleCount;
    hide Length;
  }

  /** The code of sequences and alternatives, one level at a time. */
  lemma {:induction false} CodePairs(f: Flags, a: Pattern, b: Pattern, back: bool, cc: nat)
    requires Shaped(a) && Shaped(b)
    ensures var ca, cb := Code(f, a, back, cc), Code(f, b, back, cc + CapCount(a));
            && Code(f, Concat(a, b), back, cc) == (if back then cb + ca else ca + cb)
            && Code(f, Alt(a, b), back, cc) == AltCode(ca, cb)
  {
    hide QuantCode;
    hide AltCode;
    hide LookCode;
    hide CharCode;
    hide Directed;
    hide CapCount;
  }

  /** The code of captures and lookaround, one level at a time. */
  lemma {:induction false} CodeBodies(f: Flags, b: Pattern, negated: bool, backward: bool, back: bool, cc: nat)
    requires Shaped(b)
    ensures Code(f, Capture(b), back, cc) == [Save(back, cc)] + Code(f, b, back, cc + 1) + [Save(!back, cc)]
    ensures Code(f, Look(b, negated, backward), back, cc) == LookCode(Code(f, b, backward, cc), negated)
  {
    hide QuantCode;
    hide AltCode;
    hide LookCode;
    hide CharCode;
    hide Directed;
    hide CapCount;
  }

  /** The code of groups and quantifiers, one level at a time. */
  lemma {:induction false} CodeOuter(f: Flags, a: Pattern, back: bool, cc: nat)
    requires Shaped(a)
    ensures Code(f, Group(a), back, cc) == Code(f, a, back, cc)
    ensures forall min, max, greedy :: min <= max ==>
              Code(f, Quant(a, min, max, greedy), back, cc)
              == QuantCode(Code(f, a, back, cc), cc, cc + CapCount(a), min, max, greedy)
  {
    hide QuantCode;
    hide AltCode;
    hide LookCode;
    hide CharCode;
    hide Directed;
    hide CapCount;
  }

  // ----- well-formed patterns -----

  ghost predicate GoodCtx(m: Ctx) {
    && m.captureCount <= 255
    && (forall k :: 0 <= k < |m.input| ==> 0 <= Canon(m.flags, m.input[k]) < UINT32_MAX)
  }

  /** Patterns that the parser accepts, except that an unbounded loop must either carry the
      zero-advance check (greedy) or have a body that reads at least one character. */
  ghost predicate WellFormed(m: Ctx, p: Pattern, back: bool, cc: nat)
    requires Shaped(p)
  {
    match p
    case Literal(ch) => IsU32(Canon(m.flags, ch))
    case Class(points) => NormalSet(points) && |points| / 2 < MAX_RANGES
    case Concat(a, b) => WellFormed(m, a, back, cc) && WellFormed(m, b, back, cc + CapCount(a))
    case Alt(a, b) => WellFormed(m, a, back, cc) && WellFormed(m, b, back, cc + CapCount(a))
    case Group(b) => WellFormed(m, b, back, cc)
    case Capture(b) => cc < m.captureCount && WellFormed(m, b, back, cc + 1)
    case Look(b, _, backward) => WellFormed(m, b, backward, cc)
    case Quant(a, min, max, greedy) =>
      && max <= INFINITE && cc + CapCount(a) <= m.captureCount
      && (greedy || max < INFINITE || MinWidth(a) > 0)
      && WellFormed(m, a, back, cc)
    case _ => true
  }

  // ----- the stack is balanced -----

  /** The least depth that a scan meets, starting from 0. */
  function Lowest(code: seq<Instr>): (r: int)
    ensures r <= 0
  {
    if |code| == 0 then 0
    else
      var rest := Effect(code[0]) + Lowest(code[1..]);
      if rest <= 0 then rest else 0
  }

  /** Code that leaves the machine stack as deep as it found it and never reaches below. */
  predicate Steady(code: seq<Instr>) {
    NetDepth(code) == 0 && Lowest(code) == 0
  }

  lemma {:induction false} DepthOne(i: Instr)
    ensures NetDepth([i]) == Effect(i)
    ensures Lowest([i]) == if Effect(i) < 0 then Effect(i) else 0
  {
    assert [i][1..] == [];
  }

  lemma {:induction false} DepthOfSum(a: seq<Instr>, b: seq<Instr>)
    ensures NetDepth(a + b) == NetDepth(a) + NetDepth(b)
  {
    DepthAppend(a, b, 0);
  }

  lemma {:induction false} LowestAppend(a: seq<Instr>, b: seq<Instr>)
    ensures Lowest(a + b) == if Lowest(a) <= NetDepth(a) + Lowest(b) then Lowest(a) else NetDepth(a) + Lowest(b)
  {
    hide Effect;
    if |a| == 0 {
      assert a + b == b;
    } else {
      assert (a + b)[1..] == a[1..] + b;
      LowestAppend(a[1..], b);
    }
  }

  lemma {:induction false} SteadyAppend(a: seq<Instr>, b: seq<Instr>)
    requires Steady(a) && Steady(b)
    ensures Steady(a + b)
  {
    hide NetDepth;
    hide Lowest;
    DepthOfSum(a, b);
    LowestAppend(a, b);
  }

  lemma {:induction false} SteadyOne(i: Instr)
    requires Effect(i) == 0
    ensures Steady([i])
  {
    DepthOne(i);
  }

  lemma {:induction false} SteadyNone()
    ensures Steady([])
  {
  }

  /** Something pushed before a steady body and popped after it. */
  lemma {:induction false} SteadyAround(push: Instr, body: seq<Instr>, pop: Instr)
    requires Steady(body) && Effect(push) == 1 && Effect(pop) == -1
    ensures Steady([push] + body + [pop])
  {
    hide NetDepth;
    hide Lowest;
    DepthOne(push);
    DepthOne(pop);
    DepthOfSum([push], body);
    LowestAppend([push], body);
    DepthOfSum([push] + body, [pop]);
    LowestAppend([push] + body, [pop]);
  }

  lemma {:induction false} SteadyBetween(i: Instr, body: seq<Instr>, j: Instr)
    requires Steady(body) && Effect(i) == 0 && Effect(j) == 0
    ensures Steady([i] + body + [j])
  {
    hide Steady;
    SteadyOne(i);
    SteadyOne(j);
    SteadyAppend([i], body);
    SteadyAppend([i] + body, [j]);
  }

  /** Every pattern's code is steady. */
  lemma {:induction false} CodeSteady(f: Flags, p: Pattern, back: bool, cc: nat)
    requires Shaped(p)
    ensures Steady(Code(f, p, back, cc))
  {
    hide Steady;
    hide Length;
    hide AltCode;
    hide QuantCode;
    hide CharCode;
    hide Directed;
    hide LookCode;
    match p
    case Empty => SteadyNone();
    case Literal(_) => CharSteady(f, p, back);
    case Wildcard => CharSteady(f, p, back);
    case Class(_) => CharSteady(f, p, back);
    case AssertStart => SteadyOne(LineStart);
    case AssertEnd => SteadyOne(LineEnd);
    case AssertWord(negated) => SteadyOne(WordBoundary(negated));
    case Concat(a, b) =>
      CodeSteady(f, a, back, cc);
      CodeSteady(f, b, back, cc + CapCount(a));
      SteadyAppend(Code(f, a, back, cc), Code(f, b, back, cc + CapCount(a)));
      SteadyAppend(Code(f, b, back, cc + CapCount(a)), Code(f, a, back, cc));
    case Alt(a, b) =>
      CodeSteady(f, a, back, cc);
      CodeSteady(f, b, back, cc + CapCount(a));
      AltSteady(Code(f, a, back, cc), Code(f, b, back, cc + CapCount(a)));
    case Group(b) => CodeSteady(f, b, back, cc);
    case Capture(b) =>
      CodeSteady(f, b, back, cc + 1);
      SteadyBetween(Save(back, cc), Code(f, b, back, cc + 1), Save(!back, cc));
    case Look(b, negated, backward) =>
      CodeSteady(f, b, backward, cc);
      LookSteady(Code(f, b, backward, cc), negated);
    case Quant(a, min, max, greedy) =>
      CodeSteady(f, a, back, cc);
      QuantSteady(Code(f, a, back, cc), cc, cc + CapCount(a), min, max, greedy);
  }

  lemma {:induction false} CodeBalanced(f: Flags, p: Pattern, back: bool, cc: nat)
    requires Shaped(p)
    ensures NetDepth(Code(f, p, back, cc)) == 0
  {
    hide NetDepth;
    hide Lowest;
    hide Code;
    CodeSteady(f, p, back, cc);
  }

  lemma {:induction false} CharSteady(f: Flags, p: Pattern, back: bool)
    requires IsCharPattern(p) && Shaped(p)
    ensures Steady(Directed(back, CharCode(f, p)))
  {
    hide Steady;
    var i := CharCode(f, p);
    SteadyOne(i);
    if back {
      SteadyBetween(Prev, [i], Prev);
      assert [Prev] + [i] + [Prev] == [Prev, i, Prev];
    }
  }

  lemma {:induction false} AltSteady(a: seq<Instr>, b: seq<Instr>)
    requires Steady(a) && Steady(b)
    ensures Steady(AltCode(a, b))
  {
    hide Steady;
    hide Length;
    var s, g := Split(false, Length(a) + 5), Goto(Length(b));
    SteadyBetween(s, a, g);
    SteadyAppend([s] + a + [g], b);
  }

  lemma {:induction false} LookSteady(body: seq<Instr>, negated: bool)
    requires Steady(body)
    ensures Steady(LookCode(body, negated))
  {
    hide Steady;
    hide Length;
    SteadyBetween(Lookahead(negated, Length(body) + 1), body, Match);
  }

  lemma {:induction false} StarSteady(atom: seq<Instr>, greedy: bool, check: bool)
    requires Steady(atom)
    ensures Steady(StarCode(atom, greedy, check))
  {
    hide Steady;
    hide Length;
    var len: int := Length(atom);
    if check {
      var s, inner := [Split(!greedy, len + 6)], [PushCharPos] + atom + [BneCharPos(-(len + 11))];
      SteadyAround(PushCharPos, atom, BneCharPos(-(len + 11)));
      SteadyOne(s[0]);
      SteadyAppend(s, inner);
      assert s + inner == StarCode(atom, greedy, check);
    } else {
      SteadyBetween(Split(!greedy, len + 5), atom, Goto(-(len + 10)));
    }
  }

  lemma {:induction false} CountedSteady(atom: seq<Instr>, n: nat, greedy: bool)
    requires Steady(atom)
    ensures Steady(CountedCode(atom, n, greedy))
  {
    hide Steady;
    hide Length;
    var len: int := Length(atom);
    var s, l := Split(!greedy, len + 5), Loop(-(len + 10));
    SteadyBetween(s, atom, l);
    SteadyAround(PushI32(n), [s] + atom + [l], Drop);
    assert [PushI32(n)] + ([s] + atom + [l]) + [Drop] == CountedCode(atom, n, greedy);
  }

  lemma {:induction false} RepeatSteady(atom: seq<Instr>, n: nat)
    requires Steady(atom)
    ensures Steady(RepeatCode(atom, n))
  {
    hide Steady;
    hide Length;
    var l := Loop(-(Length(atom) as int + 5));
    SteadyOne(l);
    SteadyAppend(atom, [l]);
    SteadyAround(PushI32(n), atom + [l], Drop);
    assert [PushI32(n)] + (atom + [l]) + [Drop] == RepeatCode(atom, n);
  }

  lemma {:induction false} QuantSteady(atom: seq<Instr>, lo: nat, hi: nat, min: nat, max: nat, greedy: bool)
    requires min <= max && Steady(atom)
    ensures Steady(QuantCode(atom, lo, hi, min, max, greedy))
  {
    hide Steady;
    hide StarCode;
    hide CountedCode;
    hide RepeatCode;
    hide Length;
    hide SimpleCount;
    hide Advance;
    var check := greedy && Advance(atom) == 0;
    SteadyNone();
    StarSteady(atom, greedy, check);
    if greedy && max > 0 && SimpleCount(atom) > 0 {
      SteadyBetween(SimpleGreedyQuant(Length(atom) + 1, min, max, SimpleCount(atom)), atom, Match);
    } else if min == 0 {
      var reset := if lo != hi then [SaveReset(lo, hi - 1)] else [];
      SteadyOne(SaveReset(lo, hi - 1));
      var s := [Split(!greedy, Length(atom))];
      SteadyOne(s[0]);
      SteadyAppend(s, atom);
      CountedSteady(atom, max, greedy);
      SteadyAppend(reset, if max == 0 then [] else if max == 1 then s + atom
                          else if max == INFINITE then StarCode(atom, greedy, check) else CountedCode(atom, max,
                              greedy));
    } else if min == 1 && max == INFINITE && !check {
      var s := Split(greedy, -(Length(atom) as int + 5));
      SteadyOne(s);
      SteadyAppend(atom, [s]);
    } else {
      RepeatSteady(atom, min);
      CountedSteady(atom, max - min, greedy);
      SteadyAppend(if min == 1 then atom else RepeatCode(atom, min),
                   if max == INFINITE then StarCode(atom, greedy, check)
                   else if max > min then CountedCode(atom, max - min, greedy) else []);
    }
  }
}
