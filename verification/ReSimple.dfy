/** The fast path for greedy quantifiers over straight-line code: it tries the same positions in
    the same order as the general search. */
module ReSimple {
  import opened ReOpcode
  import opened RePattern
  import opened ReClass
  import opened ReCode
  import opened ReMachine

  lemma {:induction false} SimpleCountBound(code: seq<Instr>)
    ensures SimpleCount(code) <= Length(code)
  {
    if |code| > 0 {
      SimpleCountBound(code[1..]);
    }
  }

  ghost predicate AtCode(m: Machine, pc: int, code: seq<Instr>) {
    0 <= pc && At(m.code, pc, Bytes(code)) && |m.code| <= INT32_MAX
  }

  lemma {:induction false} AtCodeSplit(m: Machine, pc: int, a: seq<Instr>, b: seq<Instr>)
    requires AtCode(m, pc, a + b)
    ensures AtCode(m, pc, a) && AtCode(m, pc + Length(a), b)
    ensures pc + Length(a) + Length(b) <= INT32_MAX
  {
    hide Bytes;
    hide Length;
    BytesAppend(a, b);
    AtSplit(m.code, pc, Bytes(a), Bytes(b));
  }

  lemma {:induction false} AtInstr(m: Machine, pc: int, i: Instr, rest: seq<Instr>)
    requires AtCode(m, pc, [i] + rest)
    ensures At(m.code, pc, Encode(i)) && AtCode(m, pc + Size(i), rest)
    ensures pc + Size(i) + Length(rest) <= INT32_MAX
  {
    hide Bytes;
    hide Encode;
    hide Length;
    hide Size;
    AtCodeSplit(m, pc, [i], rest);
    BytesOne(i);
  }

  /** The instruction of a one-character pattern accepts what the pattern accepts. */
  lemma {:induction false} CharAgrees(m: Ctx, p: Pattern, c: int)
    requires IsCharPattern(p) && Shaped(p) && WellFormed(m, p, false, 0)
    requires 0 <= Canon(m.flags, c) < UINT32_MAX
    ensures IsCharInstr(CharCode(m.flags, p)) && Encodable(CharCode(m.flags, p))
    ensures CharAccepts(m, CharCode(m.flags, p), c) <==> Accepts(m, p, c)
  {
    match p
    case Literal(_) =>
    case Wildcard =>
    case Class(points) => ClassRoundTrip(points, Canon(m.flags, c));
  }

  lemma {:induction false} CharEncodable(m: Ctx, p: Pattern)
    requires IsCharPattern(p) && Shaped(p) && WellFormed(m, p, false, 0)
    ensures IsCharInstr(CharCode(m.flags, p)) && Encodable(CharCode(m.flags, p))
  {
    match p
    case Literal(_) =>
    case Wildcard =>
    case Class(points) => ClassRoundTrip(points, 0);
  }

  function TestCode(p: Pattern): Instr
    requires IsAssertion(p)
  {
    match p
    case AssertStart => LineStart
    case AssertEnd => LineEnd
    case AssertWord(negated) => WordBoundary(negated)
  }

  // ----- straight-line patterns -----

  /** Matching backwards is never straight-line code that reads characters. */
  lemma {:induction false} BackwardNotSimple(m: Ctx, p: Pattern, cc: nat)
    requires Shaped(p)
    ensures SimpleCount(Code(m.flags, p, true, cc)) <= 0
  {
    hide SimpleCount;
    hide QuantCode;
    hide CharCode;
    hide Length;
    var code := Code(m.flags, p, true, cc);
    match p
    case Empty => NoReads(code);
    case Literal(_) => NotSimple(code);
    case Wildcard => NotSimple(code);
    case Class(_) => NotSimple(code);
    case AssertStart => NoReads(code);
    case AssertEnd => NoReads(code);
    case AssertWord(_) => NoReads(code);
    case Concat(a, b) =>
      BackwardNotSimple(m, a, cc);
      BackwardNotSimple(m, b, cc + CapCount(a));
      SimpleAppend(Code(m.flags, b, true, cc + CapCount(a)), Code(m.flags, a, true, cc));
    case Alt(_, _) => NotSimple(code);
    case Group(b) => BackwardNotSimple(m, b, cc);
    case Capture(_) => NotSimple(code);
    case Look(_, _, _) => NotSimple(code);
    case Quant(a, min, max, greedy) =>
      BackwardNotSimple(m, a, cc);
      if SimpleCount(code) >= 0 {
        QuantSimple(Code(m.flags, a, true, cc), cc, cc + CapCount(a), min, max, greedy);
        NoReads([]);
      }
  }

  lemma {:induction false} NotSimple(code: seq<Instr>)
    requires |code| > 0 && !IsCharInstr(code[0]) && !IsTestInstr(code[0])
    ensures SimpleCount(code) == -1
  {
  }

  lemma {:induction false} NoReads(code: seq<Instr>)
    requires |code| <= 1 && (|code| == 1 ==> IsTestInstr(code[0]))
    ensures SimpleCount(code) == 0
  {
  }

  /** Quantified code is straight-line only when the quantifier vanishes. */
  lemma {:induction false} QuantSimple(atom: seq<Instr>, lo: nat, hi: nat, min: nat, max: nat, greedy: bool)
    requires min <= max && SimpleCount(QuantCode(atom, lo, hi, min, max, greedy)) >= 0
    ensures (max == 0 && lo == hi && QuantCode(atom, lo, hi, min, max, greedy) == [])
         || (min == 1 && max == 1 && QuantCode(atom, lo, hi, min, max, greedy) == atom)
  {
    var code := QuantCode(atom, lo, hi, min, max, greedy);
    var check := greedy && Advance(atom) == 0;
    if min == 1 && !(greedy && max > 0 && SimpleCount(atom) > 0) {
      if max == 1 {
        assert code == atom + [];
        assert code == atom;
      } else if max == INFINITE {
        SimpleAppend(atom, StarCode(atom, greedy, check));
        SimpleAppend(atom, [Split(greedy, -(Length(atom) as int + 5))]);
      } else {
        SimpleAppend(atom, CountedCode(atom, max - min, greedy));
      }
    }
  }

  /** What straight-line code does at x: nothing, or k characters further on. */
  ghost predicate Straight(m: Machine, p: Pattern, cc: nat, x: St, k: nat)
    requires Shaped(p)
  {
    var l := Ends(m.ctx, p, false, cc, x);
    l == [] || (x.pos + k <= |m.ctx.input| && l == [x.(pos := x.pos + k)])
  }

  /** Straight-line code, run in place, agrees with the pattern. */
  lemma {:induction false} SimpleStraight(m: Machine, p: Pattern, cc: nat, pc: int, x: St)
    requires Shaped(p) && WellFormed(m.ctx, p, false, cc) && GoodCtx(m.ctx)
    requires AtCode(m, pc, Code(m.ctx.flags, p, false, cc)) && SimpleCount(Code(m.ctx.flags, p, false, cc)) >= 0
    requires x.pos <= |m.ctx.input|
    ensures var code := Code(m.ctx.flags, p, false, cc);
            var k := SimpleCount(code);
            && Straight(m, p, cc, x, k)
            && RunSimple(m, pc, x.pos) ==
               if Ends(m.ctx, p, false, cc, x) == [] then Miss else RunSimple(m, pc + Length(code), x.pos + k)
    decreases p, 1
  {
    hide SimpleCount;
    hide Length;
    hide RunSimple;
    hide Bytes;
    hide CharCode;
    hide Accepts;
    hide Holds;
    hide At;
    hide GoodCtx;
    hide QuantCode;
    hide FlatMap;
    hide Exactly;
    hide More;
    hide Encode;
    var c := m.ctx;
    var code := Code(c.flags, p, false, cc);
    match p
    case Empty => NoReads(code); LengthOf(code);
    case Literal(_) => OneCharStraight(m, p, pc, x);
    case Wildcard => OneCharStraight(m, p, pc, x);
    case Class(_) => OneCharStraight(m, p, pc, x);
    case AssertStart => TestStraight(m, p, pc, x);
    case AssertEnd => TestStraight(m, p, pc, x);
    case AssertWord(_) => TestStraight(m, p, pc, x);
    case Concat(a, b) => ConcatStraight(m, a, b, cc, pc, x);
    case Alt(_, _) => NotSimple(code);
    case Group(b) => SimpleStraight(m, b, cc, pc, x);
    case Capture(_) => NotSimple(code);
    case Look(_, _, _) => NotSimple(code);
    case Quant(a, min, max, greedy) => QuantStraight(m, a, cc, min, max, greedy, pc, x);
  }

  lemma {:induction false} LengthOf(code: seq<Instr>)
    ensures |code| == 0 ==> Length(code) == 0
    ensures |code| == 1 ==> Length(code) == Size(code[0])
  {
    if |code| == 1 {
      assert code == [code[0]];
      BytesOne(code[0]);
    }
  }

  lemma {:induction false} OneCharStraight(m: Machine, p: Pattern, pc: int, x: St)
    requires IsCharPattern(p) && Shaped(p) && WellFormed(m.ctx, p, false, 0) && GoodCtx(m.ctx)
    requires AtCode(m, pc, [CharCode(m.ctx.flags, p)]) && x.pos <= |m.ctx.input|
    ensures SimpleCount([CharCode(m.ctx.flags, p)]) == 1
    ensures RunSimple(m, pc, x.pos) ==
            if OneChar(m.ctx, p, false, x) == [] then Miss
            else RunSimple(m, pc + Length([CharCode(m.ctx.flags, p)]), x.pos + 1)
  {
    hide CharCode;
    hide Accepts;
    hide CharAccepts;
    hide WellFormed;
    hide Decode;
    hide Length;
    hide Bytes;
    hide Encode;
    hide Encodable;
    var i := CharCode(m.ctx.flags, p);
    CharEncodable(m.ctx, p);
    assert [i] + [] == [i] && [i][1..] == [];
    AtInstr(m, pc, i, []);
    DecodeEncode(m.code, pc, i);
    LengthOf([i]);
    if x.pos < |m.ctx.input| {
      CharAgrees(m.ctx, p, m.ctx.input[x.pos]);
    }
  }

  lemma {:induction false} TestStraight(m: Machine, p: Pattern, pc: int, x: St)
    requires IsAssertion(p) && AtCode(m, pc, [TestCode(p)]) && x.pos <= |m.ctx.input|
    ensures SimpleCount([TestCode(p)]) == 0
    ensures RunSimple(m, pc, x.pos) ==
            if Test(m.ctx, p, x) == [] then Miss else RunSimple(m, pc + Length([TestCode(p)]), x.pos)
  {
    var i := TestCode(p);
    assert [i] + [] == [i] && [i][1..] == [];
    AtInstr(m, pc, i, []);
    DecodeEncode(m.code, pc, i);
    LengthOf([i]);
    hide Decode;
    assert TestHolds(m.ctx, i, x.pos) == Holds(m.ctx, p, x.pos);
  }

  lemma {:induction false} FlatMapOne(x: St, f: St -> seq<St>)
    ensures FlatMap([x], f) == f(x)
  {
    assert [x][1..] == [];
    assert FlatMap([], f) == [];
  }

  lemma {:induction false} ConcatStraight(m: Machine, a: Pattern, b: Pattern, cc: nat, pc: int, x: St)
    requires Shaped(Concat(a, b)) && WellFormed(m.ctx, Concat(a, b), false, cc) && GoodCtx(m.ctx)
    requires var code := Code(m.ctx.flags, Concat(a, b), false, cc); AtCode(m, pc, code) && SimpleCount(code) >= 0
    requires x.pos <= |m.ctx.input|
    ensures var code := Code(m.ctx.flags, Concat(a, b), false, cc);
            var k := SimpleCount(code);
            && Straight(m, Concat(a, b), cc, x, k)
            && RunSimple(m, pc, x.pos) ==
               if Ends(m.ctx, Concat(a, b), false, cc, x) == [] then Miss else RunSimple(m, pc + Length(code),
               x.pos + k)
    decreases Concat(a, b), 0
  {
    hide SimpleCount;
    hide Length;
    hide RunSimple;
    hide Bytes;
    hide Ends;
    hide Code;
    hide CapCount;
    hide FlatMap;
    ConcatParts(m.ctx, a, b, cc, x);
    var ca, cb := Code(m.ctx.flags, a, false, cc), Code(m.ctx.flags, b, false, cc + CapCount(a));
    SimpleAppend(ca, cb);
    BytesAppend(ca, cb);
    AtCodeSplit(m, pc, ca, cb);
    SimpleStraight(m, a, cc, pc, x);
    var f := Then(m.ctx, b, false, cc + CapCount(a));
    if Ends(m.ctx, a, false, cc, x) != [] {
      var y := x.(pos := x.pos + SimpleCount(ca));
      SimpleStraight(m, b, cc + CapCount(a), pc + Length(ca), y);
      FlatMapOne(y, f);
    } else {
      FlatMapNone(f);
    }
  }

  lemma {:induction false} ConcatParts(m: Ctx, a: Pattern, b: Pattern, cc: nat, x: St)
    requires Shaped(Concat(a, b))
    ensures Code(m.flags, Concat(a, b), false, cc)
         == Code(m.flags, a, false, cc) + Code(m.flags, b, false, cc + CapCount(a))
    ensures Ends(m, Concat(a, b), false, cc, x)
         == FlatMap(Ends(m, a, false, cc, x), Then(m, b, false, cc + CapCount(a)))
  {
    hide Ends;
    hide Code;
    hide CapCount;
    EndsConcat(m, a, b, false, cc, x);
    CodePairs(m.flags, a, b, false, cc);
  }

  lemma {:induction false} FlatMapNone(f: St -> seq<St>)
    ensures FlatMap([], f) == []
  {
  }

  lemma {:induction false} QuantStraight(m: Machine, a: Pattern, cc: nat, min: nat, max: nat, greedy: bool, pc: int,
          x: St)
    requires var p := Quant(a, min, max, greedy);
             Shaped(p) && WellFormed(m.ctx, p, false, cc) && GoodCtx(m.ctx)
    requires var code := Code(m.ctx.flags, Quant(a, min, max, greedy), false, cc);
             AtCode(m, pc, code) && SimpleCount(code) >= 0
    requires x.pos <= |m.ctx.input|
    ensures var p := Quant(a, min, max, greedy);
            var code := Code(m.ctx.flags, p, false, cc);
            var k := SimpleCount(code);
            && Straight(m, p, cc, x, k)
            && RunSimple(m, pc, x.pos) ==
               if Ends(m.ctx, p, false, cc, x) == [] then Miss else RunSimple(m, pc + Length(code), x.pos + k)
    decreases Quant(a, min, max, greedy), 0
  {
    hide SimpleCount;
    hide Length;
    hide RunSimple;
    hide Bytes;
    hide QuantCode;
    hide Ends;
    hide Code;
    hide CapCount;
    hide FlatMap;
    QuantParts(m.ctx, a, cc, min, max, greedy, x);
    var atom := Code(m.ctx.flags, a, false, cc);
    QuantSimple(atom, cc, cc + CapCount(a), min, max, greedy);
    if max == 0 {
      NoReads([]);
      LengthOf([]);
    } else {
      SimpleStraight(m, a, cc, pc, x);
      QuantEnds(m.ctx, a, cc, min, max, greedy, x);
      ExactlyOne(m.ctx, a, false, cc, x);
      MoreNothing(m.ctx, a, false, cc, greedy, Ends(m.ctx, a, false, cc, x));
    }
  }

  lemma {:induction false} QuantParts(m: Ctx, a: Pattern, cc: nat, min: nat, max: nat, greedy: bool, x: St)
    requires Shaped(Quant(a, min, max, greedy))
    ensures Code(m.flags, Quant(a, min, max, greedy), false, cc)
         == QuantCode(Code(m.flags, a, false, cc), cc, cc + CapCount(a), min, max, greedy)
    ensures max == 0 && CapCount(a) == 0 ==> Ends(m, Quant(a, min, max, greedy), false, cc, x) == [x]
  {
    hide QuantCode;
    hide Exactly;
    hide More;
    hide FlatMap;
  }

  lemma {:induction false} QuantEnds(m: Ctx, a: Pattern, cc: nat, min: nat, max: nat, greedy: bool, x: St)
    requires 0 < min <= max
    ensures Ends(m, Quant(a, min, max, greedy), false, cc, x)
         == FlatMap(Exactly(m, a, false, cc, min, x), More(m, a, false, cc, min, max, greedy))
  {
    hide Exactly;
    hide More;
    hide FlatMap;
  }

  /** One repetition is the atom itself. */
  lemma {:induction false} ExactlyOne(m: Ctx, a: Pattern, back: bool, cc: nat, x: St)
    ensures Exactly(m, a, back, cc, 1, x) == Ends(m, a, back, cc, x)
  {
    hide Ends;
    hide FlatMap;
    var f := ExactlyNext(m, a, back, cc, 0);
    forall y
      ensures f(y) == [y]
    {
      assert f(y) == Exactly(m, a, back, cc, 0, y);
    }
    FlatMapUnit(Ends(m, a, back, cc, x), f);
  }

  lemma {:induction false} FlatMapUnit(l: seq<St>, f: St -> seq<St>)
    requires forall y :: y in l ==> f(y) == [y]
    ensures FlatMap(l, f) == l
  {
    if |l| > 0 {
      FlatMapUnit(l[1..], f);
      assert l == [l[0]] + l[1..];
    }
  }

  lemma {:induction false} MoreNothing(m: Ctx, a: Pattern, back: bool, cc: nat, greedy: bool, l: seq<St>)
    ensures forall n: nat :: n < INFINITE ==> FlatMap(l, More(m, a, back, cc, n, n, greedy)) == l
  {
    forall n: nat | n < INFINITE
      ensures FlatMap(l, More(m, a, back, cc, n, n, greedy)) == l
    {
      var f := More(m, a, back, cc, n, n, greedy);
      forall y
        ensures f(y) == [y]
      {
        assert f(y) == UpTo(m, a, back, cc, 0, greedy, y);
      }
      FlatMapUnit(l, f);
    }
  }

  // ----- the fast path -----

  /** How many times a straight-line atom matches from x, at most n times unless unbounded. */
  ghost function Reps(m: Ctx, a: Pattern, cc: nat, unbounded: bool, n: nat, x: St): nat
    decreases Left(m, false, x)
  {
    if !unbounded && n == 0 then 0
    else
      var l := Ends(m, a, false, cc, x);
      if |l| == 1 && Left(m, false, l[0]) < Left(m, false, x)
      then 1 + Reps(m, a, cc, unbounded, if n == 0 then 0 else n - 1, l[0])
      else 0
  }

  /** The length of j repetitions of k characters. */
  function Times(k: nat, j: nat): nat {
    if j == 0 then 0 else k + Times(k, j - 1)
  }

  /** x after j repetitions of k characters. */
  function Hop(x: St, k: nat, j: nat): St {
    x.(pos := x.pos + Times(k, j))
  }

  /** Positions hi, hi - 1, ..., lo repetitions of k characters after x. */
  function Down(x: St, k: nat, hi: int, lo: nat): seq<St>
    decreases hi - lo + 1
  {
    if hi < lo then [] else [Hop(x, k, hi)] + Down(x, k, hi - 1, lo)
  }

  lemma {:induction false} DownShift(x: St, k: nat, hi: int, lo: nat)
    requires hi >= -1
    ensures Down(x.(pos := x.pos + k), k, hi, lo) == Down(x, k, hi + 1, lo + 1)
    decreases hi - lo + 1
  {
    if hi >= lo {
      DownShift(x, k, hi - 1, lo);
    }
  }

  lemma {:induction false} DownLast(x: St, k: nat, hi: nat, lo: nat)
    requires hi >= lo
    ensures Down(x, k, hi, lo) == Down(x, k, hi, lo + 1) + [Hop(x, k, lo)]
    decreases hi - lo
  {
    if hi > lo {
      DownLast(x, k, hi - 1, lo);
    }
  }

  /** A straight-line atom of k characters. */
  ghost predicate StraightAtom(m: Ctx, a: Pattern, cc: nat, k: nat) {
    k > 0 && forall x: St :: x.pos <= |m.input| ==>
      var l := Ends(m, a, false, cc, x);
      l == [] || (x.pos + k <= |m.input| && l == [x.(pos := x.pos + k)])
  }

  /** What a straight-line atom does at x. */
  ghost predicate AtomHops(m: Ctx, a: Pattern, cc: nat, k: nat, x: St) {
    var l := Ends(m, a, false, cc, x);
    l == [] || (Hop(x, k, 1).pos <= |m.input| && l == [Hop(x, k, 1)])
  }

  lemma {:induction false} StraightHops(m: Ctx, a: Pattern, cc: nat, k: nat, x: St)
    requires StraightAtom(m, a, cc, k) && x.pos <= |m.input|
    ensures k > 0 && AtomHops(m, a, cc, k, x)
    ensures Hop(x, k, 0) == x
    ensures Hop(x, k, 1).pos <= |m.input| ==> Left(m, false, Hop(x, k, 1)) < Left(m, false, x)
  {
    hide Ends;
    assert Times(k, 1) == k + Times(k, 0);
  }

  lemma {:induction false} RepsStep(m: Ctx, a: Pattern, cc: nat, k: nat, unbounded: bool, n: nat, x: St)
    requires AtomHops(m, a, cc, k, x) && k > 0
    requires Hop(x, k, 1).pos <= |m.input| ==> Left(m, false, Hop(x, k, 1)) < Left(m, false, x)
    requires unbounded || n > 0
    ensures Reps(m, a, cc, unbounded, n, x) ==
            if Ends(m, a, false, cc, x) == [] then 0
            else 1 + Reps(m, a, cc, unbounded, if n == 0 then 0 else n - 1, Hop(x, k, 1))
  {
    hide Ends;
    hide Hop;
    hide Left;
  }

  /** The general search over a straight-line atom, unbounded. */
  lemma {:induction false} StarDown(m: Ctx, a: Pattern, cc: nat, k: nat, x: St)
    requires StraightAtom(m, a, cc, k) && x.pos <= |m.input|
    ensures Star(m, a, false, cc, true, x) == Down(x, k, Reps(m, a, cc, true, 0, x), 0)
    decreases Left(m, false, x)
  {
    hide Ends;
    hide Reps;
    hide Left;
    hide Hop;
    hide StraightAtom;
    hide Down;
    var t := Reps(m, a, cc, true, 0, x);
    var y := Hop(x, k, 1);
    var f := StarNext(m, a, false, cc, true, x);
    StraightHops(m, a, cc, k, x);
    RepsStep(m, a, cc, k, true, 0, x);
    DownEnds(x, k, t);
    if Ends(m, a, false, cc, x) != [] {
      StarDown(m, a, cc, k, y);
      FlatMapOne(y, f);
      DownNext(x, k, t - 1, 0);
    }
  }

  lemma {:induction false} UpToDown(m: Ctx, a: Pattern, cc: nat, k: nat, n: nat, x: St)
    requires StraightAtom(m, a, cc, k) && x.pos <= |m.input|
    ensures UpTo(m, a, false, cc, n, true, x) == Down(x, k, Reps(m, a, cc, false, n, x), 0)
    decreases n
  {
    hide Ends;
    hide Left;
    hide Hop;
    hide StraightAtom;
    hide Down;
    var t := Reps(m, a, cc, false, n, x);
    var y := Hop(x, k, 1);
    StraightHops(m, a, cc, k, x);
    DownEnds(x, k, t);
    if n == 0 {
      assert t == 0;
    } else {
      RepsStep(m, a, cc, k, false, n, x);
      hide Reps;
      if Ends(m, a, false, cc, x) != [] {
        UpToDown(m, a, cc, k, n - 1, y);
        FlatMapOne(y, UpToNext(m, a, false, cc, n - 1, true));
        DownNext(x, k, t - 1, 0);
      }
    }
  }

  lemma {:induction false} DownEnds(x: St, k: nat, hi: nat)
    ensures Down(x, k, hi, 0) == Down(x, k, hi, 1) + [x]
    ensures Down(x, k, 0, 1) == []
  {
    assert Hop(x, k, 0) == x;
    DownLast(x, k, hi, 0);
  }

  lemma {:induction false} DownNext(x: St, k: nat, hi: nat, lo: nat)
    ensures Down(Hop(x, k, 1), k, hi, lo) == Down(x, k, hi + 1, lo + 1)
  {
    assert Times(k, 1) == k + Times(k, 0);
    DownShift(x, k, hi, lo);
  }

  /** As many repetitions as the bound allows. */
  ghost function Most(m: Ctx, a: Pattern, cc: nat, max: nat, x: St): nat {
    Reps(m, a, cc, max == INFINITE, if max == INFINITE then 0 else max, x)
  }

  /** The general search for min to max repetitions, from the most to the fewest. */
  lemma {:induction false} QuantDown(m: Ctx, a: Pattern, cc: nat, k: nat, min: nat, max: nat, x: St)
    requires StraightAtom(m, a, cc, k) && x.pos <= |m.input| && min <= max <= INFINITE
    ensures FlatMap(Exactly(m, a, false, cc, min, x), More(m, a, false, cc, min, max, true))
         == Down(x, k, Most(m, a, cc, max, x), min)
    decreases min, 1
  {
    hide Ends;
    hide Left;
    hide Hop;
    hide StraightAtom;
    hide Star;
    hide UpTo;
    if min == 0 {
      hide Reps;
      FlatMapOne(x, More(m, a, false, cc, min, max, true));
      if max == INFINITE {
        StarDown(m, a, cc, k, x);
      } else {
        UpToDown(m, a, cc, k, max, x);
      }
    } else if Ends(m, a, false, cc, x) == [] {
      StraightHops(m, a, cc, k, x);
      RepsStep(m, a, cc, k, max == INFINITE, if max == INFINITE then 0 else max, x);
      hide Reps;
      assert Most(m, a, cc, max, x) == 0;
    } else {
      QuantDownNext(m, a, cc, k, min, max, x);
    }
  }

  /** One repetition, and the rest from where it leads. */
  lemma {:induction false} QuantDownNext(m: Ctx, a: Pattern, cc: nat, k: nat, min: nat, max: nat, x: St)
    requires StraightAtom(m, a, cc, k) && x.pos <= |m.input| && 0 < min <= max <= INFINITE
    requires Ends(m, a, false, cc, x) != []
    ensures FlatMap(Exactly(m, a, false, cc, min, x), More(m, a, false, cc, min, max, true))
         == Down(x, k, Most(m, a, cc, max, x), min)
    decreases min, 0
  {
    hide Ends;
    hide Left;
    hide Hop;
    hide StraightAtom;
    hide Star;
    hide UpTo;
    StraightHops(m, a, cc, k, x);
    RepsStep(m, a, cc, k, max == INFINITE, if max == INFINITE then 0 else max, x);
    hide Reps;
    var y := Hop(x, k, 1);
    var max' := if max == INFINITE then max else max - 1;
    FlatMapOne(y, ExactlyNext(m, a, false, cc, min - 1));
    QuantDown(m, a, cc, k, min - 1, max', y);
    hide FlatMap;
    hide Down;
    FlatMapCong(Exactly(m, a, false, cc, min - 1, y), More(m, a, false, cc, min, max, true),
                More(m, a, false, cc, min - 1, max', true));
    DownNext(x, k, Most(m, a, cc, max', y), min - 1);
  }

  lemma {:induction false} FlatMapCong(l: seq<St>, f: St -> seq<St>, g: St -> seq<St>)
    requires forall y :: y in l ==> f(y) == g(y)
    ensures FlatMap(l, f) == FlatMap(l, g)
  {
    if |l| > 0 {
      FlatMapCong(l[1..], f, g);
    }
  }

  // ----- the machine on the fast path -----

  /** The atom and the match opcode after it, run in place at pc, agree with the pattern. */
  ghost predicate RunsAtom(m: Machine, a: Pattern, cc: nat, k: nat, pc: int) {
    && 0 <= pc && StraightAtom(m.ctx, a, cc, k)
    && forall y: St :: y.pos <= |m.ctx.input| ==> RunsAt(m, a, cc, k, pc, y)
  }

  ghost predicate RunsAt(m: Machine, a: Pattern, cc: nat, k: nat, pc: nat, y: St) {
    RunSimple(m, pc, y.pos) == if Ends(m.ctx, a, false, cc, y) == [] then Miss else Hit(Hop(y, k, 1).pos)
  }

  /** The loop over the atom stops after as many repetitions as the search can make. */
  lemma {:induction false} GreedyCount(m: Machine, a: Pattern, cc: nat, k: nat, pc: int, x: St, q: nat, max: nat,
          n: nat, t: nat)
    requires RunsAtom(m, a, cc, k, pc) && x.pos <= |m.ctx.input|
    requires if max == INFINITE then n == 0 else q + n == max && n > 0
    requires t == Reps(m.ctx, a, cc, max == INFINITE, n, x)
    ensures Hop(x, k, t).pos <= |m.ctx.input|
    ensures RunGreedy(m, pc, x.pos, q, max) == Some((Hop(x, k, t).pos, q + t))
    decreases Left(m.ctx, false, x)
  {
    hide Ends;
    hide RunSimple;
    hide StraightAtom;
    hide Left;
    StraightHops(m.ctx, a, cc, k, x);
    RepsStep(m.ctx, a, cc, k, max == INFINITE, n, x);
    assert RunsAt(m, a, cc, k, pc, x);
    if Ends(m.ctx, a, false, cc, x) != [] {
      var y := Hop(x, k, 1);
      HopNext(x, k, t - 1);
      if max == INFINITE {
        hide Reps;
        GreedyCount(m, a, cc, k, pc, y, q + 1, max, 0, t - 1);
      } else if n > 1 {
        hide Reps;
        GreedyCount(m, a, cc, k, pc, y, q + 1, max, n - 1, t - 1);
      } else {
        assert Reps(m.ctx, a, cc, false, 0, y) == 0;
      }
    }
  }

  lemma {:induction false} HopNext(x: St, k: nat, j: nat)
    ensures Hop(Hop(x, k, 1), k, j) == Hop(x, k, j + 1)
    ensures Hop(x, k, 1).pos == x.pos + k && Hop(x, k, 0) == x
  {
    assert Times(k, 1) == k + Times(k, 0);
    if j > 0 {
      HopNext(x, k, j - 1);
    }
  }

  /** Giving back one repetition at a time, down to the minimum. */
  lemma {:induction false} GiveBack(m: Machine, pc: nat, next: int, min: nat, max: int, k: nat, x: St, j: nat,
          stack: seq<int>, saved: seq<Saved>)
    requires Decode(m.code, pc) == Some(SimpleGreedyQuant(next, min, max, k)) && min < j
    ensures Explores(m, Failing(saved + [Saved(GreedyState, pc + 1, Hop(x, k, j).pos, x.caps, stack, j - min)]),
                     Down(x, k, j - 1, min), pc + 17 + next, stack, saved)
    decreases j
  {
    hide Decode;
    hide Steps;
    hide Reaches;
    hide RunGreedy;
    var end := pc + 17 + next;
    var full := saved + [Saved(GreedyState, pc + 1, Hop(x, k, j).pos, x.caps, stack, j - min)];
    var y := Hop(x, k, j - 1);
    var again := Saved(GreedyState, pc + 1, y.pos, x.caps, stack, j - 1 - min);
    var ext := if j - 1 == min then [] else [again];
    GiveBackOnce(m, pc, next, min, max, k, x, j, stack, saved, ext);
    hide Step;
    var l := Down(x, k, j - 1, min);
    assert l[0] == y && l[1..] == Down(x, k, j - 2, min);
    ReachesStep(m, Failing(full));
    assert Arrives(m, Failing(full), l, end, stack, saved, ext);
    if j - 1 == min {
      assert saved + ext == saved;
      ExploresNone(m, end, stack, saved);
    } else {
      GiveBack(m, pc, next, min, max, k, x, j - 1, stack, saved);
    }
  }

  lemma {:induction false} GiveBackOnce(m: Machine, pc: nat, next: int, min: nat, max: int, k: nat, x: St, j: nat,
          stack: seq<int>, saved: seq<Saved>, ext: seq<Saved>)
    requires Decode(m.code, pc) == Some(SimpleGreedyQuant(next, min, max, k)) && min < j
    requires var y := Hop(x, k, j - 1);
             ext == if j - 1 == min then [] else [Saved(GreedyState, pc + 1, y.pos, x.caps, stack, j - 1 - min)]
    ensures var y := Hop(x, k, j - 1);
            Step(m, Failing(saved + [Saved(GreedyState, pc + 1, Hop(x, k, j).pos, x.caps, stack, j - min)]))
            == Run(pc + 17 + next, y.pos, y.caps, stack, saved + ext)
  {
    hide Decode;
    hide RunGreedy;
    var top := Saved(GreedyState, pc + 1, Hop(x, k, j).pos, x.caps, stack, j - min);
    var full := saved + [top];
    assert full[|full| - 1] == top && full[..|full| - 1] == saved;
    assert Step(m, Failing(full)) == Resume(m, top, saved);
    assert saved + [] == saved;
  }

  /** The fast path goes through the same outcomes as the general search, in the same order. */
  lemma {:induction false} SimpleQuantExplores(m: Machine, a: Pattern, cc: nat, min: nat, max: nat, pc: int, x: St,
          stack: seq<int>, saved: seq<Saved>)
    requires Shaped(a) && WellFormed(m.ctx, a, false, cc) && GoodCtx(m.ctx) && Fits(m.ctx, x)
    requires SimpleCount(Code(m.ctx.flags, a, false, cc)) > 0 && 0 < max <= INFINITE && min <= max
    requires AtCode(m, pc, SimpleCode(Code(m.ctx.flags, a, false, cc), min, max))
    ensures Explores(m, Run(pc, x.pos, x.caps, stack, saved),
                     FlatMap(Exactly(m.ctx, a, false, cc, min, x), More(m.ctx, a, false, cc, min, max, true)),
                     pc + Length(SimpleCode(Code(m.ctx.flags, a, false, cc), min, max)), stack, saved)
  {
    hide *;
    var atom := Code(m.ctx.flags, a, false, cc);
    var k := SimpleCount(atom);
    SimpleLayout(m, pc, atom, min, max);
    AtomRuns(m, a, cc, pc + 17);
    AtomStraight(m, a, cc, k, pc + 17);
    FitsPos(m.ctx, x);
    QuantDown(m.ctx, a, cc, k, min, max, x);
    var t := Most(m.ctx, a, cc, max, x);
    MostIs(m.ctx, a, cc, max, x);
    GreedyCount(m, a, cc, k, pc + 17, x, 0, max, if max == INFINITE then 0 else max, t);
    GreedyExplores(m, pc, Length(atom) + 1, min, max, k, x, t, stack, saved);
  }

  lemma {:induction false} FitsPos(m: Ctx, x: St)
    requires Fits(m, x)
    ensures x.pos <= |m.input|
  {
  }

  lemma {:induction false} MostIs(m: Ctx, a: Pattern, cc: nat, max: nat, x: St)
    ensures Most(m, a, cc, max, x) == Reps(m, a, cc, max == INFINITE, if max == INFINITE then 0 else max, x)
  {
  }

  lemma {:induction false} AtomStraight(m: Machine, a: Pattern, cc: nat, k: nat, pc: int)
    requires RunsAtom(m, a, cc, k, pc)
    ensures StraightAtom(m.ctx, a, cc, k)
  {
  }

  /** From a count of t repetitions the machine gives back down to min, or fails below it. */
  lemma {:induction false} GreedyExplores(m: Machine, pc: nat, next: int, min: nat, max: nat, k: nat, x: St, t: nat,
          stack: seq<int>, saved: seq<Saved>)
    requires Decode(m.code, pc) == Some(SimpleGreedyQuant(next, min, max, k)) && x.pos <= |m.ctx.input|
    requires RunGreedy(m, pc + 17, x.pos, 0, max) == Some((Hop(x, k, t).pos, t))
    ensures Explores(m, Run(pc, x.pos, x.caps, stack, saved), Down(x, k, t, min), pc + 17 + next, stack, saved)
  {
    hide Decode;
    hide RunGreedy;
    hide Steps;
    hide Reaches;
    hide Hop;
    var end := pc + 17 + next;
    var c := Run(pc, x.pos, x.caps, stack, saved);
    var l := Down(x, k, t, min);
    ReachesStep(m, c);
    if t < min {
      assert Step(m, c) == Failing(saved);
    } else {
      var y := Hop(x, k, t);
      var ext := if t > min then [Saved(GreedyState, pc + 1, y.pos, x.caps, stack, t - min)] else [];
      assert saved + [] == saved;
      assert Step(m, c) == Run(end, y.pos, x.caps, stack, saved + ext);
      hide Step;
      HopCaps(x, k, t);
      assert l[0] == y && l[1..] == Down(x, k, t - 1, min);
      assert Arrives(m, c, l, end, stack, saved, ext);
      if t > min {
        GiveBack(m, pc, next, min, max, k, x, t, stack, saved);
      } else {
        ExploresNone(m, end, stack, saved);
      }
    }
  }

  lemma {:induction false} HopCaps(x: St, k: nat, t: nat)
    ensures Hop(x, k, t).caps == x.caps
  {
  }

  lemma {:induction false} SimpleLayout(m: Machine, pc: int, atom: seq<Instr>, min: nat, max: nat)
    requires AtCode(m, pc, SimpleCode(atom, min, max)) && min <= max <= INFINITE && SimpleCount(atom) > 0
    ensures pc >= 0
    ensures Decode(m.code, pc) == Some(SimpleGreedyQuant(Length(atom) + 1, min, max, SimpleCount(atom)))
    ensures AtCode(m, pc + 17, atom + [Match])
    ensures Length(SimpleCode(atom, min, max)) == Length(atom) + 18
  {
    hide SimpleCount;
    hide Bytes;
    hide Length;
    hide Decode;
    hide Encode;
    hide At;
    var i := SimpleGreedyQuant(Length(atom) + 1, min, max, SimpleCount(atom));
    SimpleCountBound(atom);
    assert SimpleCode(atom, min, max) == [i] + (atom + [Match]);
    AtInstr(m, pc, i, atom + [Match]);
    BytesAppend(atom, [Match]);
    BytesAppend([i], atom + [Match]);
    BytesOne(i);
    BytesOne(Match);
    DecodeEncode(m.code, pc, i);
  }

  /** The atom followed by the match opcode, run in place, agrees with the pattern everywhere. */
  lemma {:induction false} AtomRuns(m: Machine, a: Pattern, cc: nat, pc: int)
    requires Shaped(a) && WellFormed(m.ctx, a, false, cc) && GoodCtx(m.ctx)
    requires SimpleCount(Code(m.ctx.flags, a, false, cc)) > 0
    requires AtCode(m, pc, Code(m.ctx.flags, a, false, cc) + [Match])
    ensures RunsAtom(m, a, cc, SimpleCount(Code(m.ctx.flags, a, false, cc)), pc)
  {
    hide SimpleCount;
    hide Length;
    hide Bytes;
    hide Ends;
    hide RunSimple;
    hide RunsAt;
    hide Code;
    hide WellFormed;
    hide Shaped;
    hide At;
    var atom := Code(m.ctx.flags, a, false, cc);
    var k := SimpleCount(atom);
    AtCodeSplit(m, pc, atom, [Match]);
    assert [Match] + [] == [Match];
    AtInstr(m, pc + Length(atom), Match, []);
    forall y: St | y.pos <= |m.ctx.input|
      ensures Straight(m, a, cc, y, k)
      ensures RunsAt(m, a, cc, k, pc, y)
    {
      AtomRunsAt(m, a, cc, k, pc, y);
    }
  }

  lemma {:induction false} AtomRunsAt(m: Machine, a: Pattern, cc: nat, k: nat, pc: nat, y: St)
    requires Shaped(a) && WellFormed(m.ctx, a, false, cc) && GoodCtx(m.ctx)
    requires k == SimpleCount(Code(m.ctx.flags, a, false, cc))
    requires AtCode(m, pc, Code(m.ctx.flags, a, false, cc)) && y.pos <= |m.ctx.input|
    requires At(m.code, pc + Length(Code(m.ctx.flags, a, false, cc)), Encode(Match))
    ensures Straight(m, a, cc, y, k) && RunsAt(m, a, cc, k, pc, y)
  {
    hide SimpleCount;
    hide Length;
    hide Bytes;
    hide Ends;
    hide RunSimple;
    hide Code;
    hide WellFormed;
    hide Shaped;
    hide At;
    hide GoodCtx;
    SimpleStraight(m, a, cc, pc, y);
    HopNext(y, k, 0);
    if Ends(m.ctx, a, false, cc, y) != [] {
      MatchHits(m, pc + Length(Code(m.ctx.flags, a, false, cc)), y.pos + k);
    }
  }

  lemma {:induction false} MatchHits(m: Machine, pc: nat, pos: nat)
    requires At(m.code, pc, Encode(Match)) && pos <= |m.ctx.input|
    ensures RunSimple(m, pc, pos) == Hit(pos)
  {
    DecodeEncode(m.code, pc, Match);
    hide Decode;
  }
}
