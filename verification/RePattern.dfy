/** Patterns and their meaning: the ordered list of the ways a pattern can match at a position,
    first choice first. This is the backtracking search without a machine. */
module RePattern {
  import opened ReOpcode

  /** An upper bound of INT32_MAX stands for "no bound". */
  const INFINITE := INT32_MAX

  datatype Pattern =
    | Empty
    | Literal(ch: int)
    | Wildcard
    | Class(points: seq<int>)
    | AssertStart
    | AssertEnd
    | AssertWord(negated: bool)
    | Concat(first: Pattern, rest: Pattern)
    | Alt(left: Pattern, right: Pattern)
    | Group(body: Pattern)
    | Capture(body: Pattern)
    | Look(body: Pattern, negated: bool, backward: bool)
    | Quant(atom: Pattern, min: nat, max: nat, greedy: bool)

  /** The flags. canon is the case folding applied when ignoreCase is set. */
  datatype Flags = Flags(multiLine: bool, ignoreCase: bool, dotAll: bool, canon: int -> int)

  /** What a match depends on besides the pattern: the input, one unit per character, the number
      of captures and the flags. */
  datatype Ctx = Ctx(input: seq<int>, captureCount: nat, flags: Flags)

  /** A point of the search: the position in the input and the captures (start and end of each). */
  datatype St = St(pos: nat, caps: seq<Option<nat>>)

  function CapCount(p: Pattern): nat {
    match p
    case Concat(a, b) => CapCount(a) + CapCount(b)
    case Alt(a, b) => CapCount(a) + CapCount(b)
    case Group(b) => CapCount(b)
    case Capture(b) => 1 + CapCount(b)
    case Look(b, _, _) => CapCount(b)
    case Quant(a, _, _, _) => CapCount(a)
    case _ => 0
  }

  /** The least number of characters that a match reads. */
  function MinWidth(p: Pattern): nat {
    match p
    case Literal(_) => 1
    case Wildcard => 1
    case Class(_) => 1
    case Concat(a, b) => MinWidth(a) + MinWidth(b)
    case Alt(a, b) => if MinWidth(a) <= MinWidth(b) then MinWidth(a) else MinWidth(b)
    case Group(b) => MinWidth(b)
    case Capture(b) => MinWidth(b)
    case Quant(a, min, _, _) => min * MinWidth(a)
    case _ => 0
  }

  // ----- characters and assertions -----

  predicate IsLineTerminator(c: int) {
    c == 10 || c == 13 || c == 0x2028 || c == 0x2029
  }

  predicate IsWordChar(c: int) {
    48 <= c <= 57 || 97 <= c <= 122 || 65 <= c <= 90 || c == 95
  }

  function Canon(f: Flags, c: int): int {
    if f.ignoreCase then f.canon(c) else c
  }

  /** Membership in a set given by its sorted boundary points: [points[0], points[1]), ... */
  ghost predicate InSet(points: seq<int>, c: int) {
    exists i :: 0 <= 2 * i && 2 * i + 1 < |points| && InInterval(points, i, c)
  }

  predicate InInterval(points: seq<int>, i: int, c: int)
    requires 0 <= 2 * i && 2 * i + 1 < |points|
  {
    points[2 * i] <= c < points[2 * i + 1]
  }

  predicate IsCharPattern(p: Pattern) {
    p.Literal? || p.Wildcard? || p.Class?
  }

  ghost predicate Accepts(m: Ctx, p: Pattern, c: int)
    requires IsCharPattern(p)
  {
    match p
    case Literal(ch) => Canon(m.flags, c) == Canon(m.flags, ch)
    case Wildcard => m.flags.dotAll || !IsLineTerminator(c)
    case Class(points) => InSet(points, Canon(m.flags, c))
  }

  predicate WordAt(m: Ctx, pos: nat) {
    pos < |m.input| && IsWordChar(m.input[pos])
  }

  predicate WordBefore(m: Ctx, pos: nat) {
    0 < pos <= |m.input| && IsWordChar(m.input[pos - 1])
  }

  predicate IsAssertion(p: Pattern) {
    p.AssertStart? || p.AssertEnd? || p.AssertWord?
  }

  predicate Holds(m: Ctx, p: Pattern, pos: nat)
    requires IsAssertion(p) && pos <= |m.input|
  {
    match p
    case AssertStart => pos == 0 || (m.flags.multiLine && IsLineTerminator(m.input[pos - 1]))
    case AssertEnd => pos == |m.input| || (m.flags.multiLine && IsLineTerminator(m.input[pos]))
    case AssertWord(negated) => (WordBefore(m, pos) != WordAt(m, pos)) != negated
  }

  // ----- captures -----

  function SetCap(x: St, i: nat): St {
    if i < |x.caps| then x.(caps := x.caps[i := Some(x.pos)]) else x
  }

  /** Forgets captures lo to hi inclusive. */
  function ResetCaps(caps: seq<Option<nat>>, lo: nat, hi: nat): (r: seq<Option<nat>>)
    ensures |r| == |caps|
  {
    seq(|caps|, i requires 0 <= i < |caps| => if 2 * lo <= i < 2 * hi + 2 then None else caps[i])
  }

  // ----- the ordered list of matches -----

  ghost function FlatMap(l: seq<St>, f: St -> seq<St>): seq<St> {
    if |l| == 0 then [] else f(l[0]) + FlatMap(l[1..], f)
  }

  /** How much input is left in the direction of matching. */
  function Left(m: Ctx, back: bool, x: St): nat {
    if back then x.pos else if x.pos <= |m.input| then |m.input| - x.pos else 0
  }

  /** All ways pattern p can match from x, in the order of preference. cc is the number of
      captures before p; a pattern matched backwards consumes towards the start. */
  ghost function Ends(m: Ctx, p: Pattern, back: bool, cc: nat, x: St): seq<St>
    decreases p, 0, 0, 0
  {
    match p
    case Empty => [x]
    case Literal(_) => OneChar(m, p, back, x)
    case Wildcard => OneChar(m, p, back, x)
    case Class(_) => OneChar(m, p, back, x)
    case AssertStart => Test(m, p, x)
    case AssertEnd => Test(m, p, x)
    case AssertWord(_) => Test(m, p, x)
    case Concat(a, b) =>
      if back then FlatMap(Ends(m, b, back, cc + CapCount(a), x), Then(m, a, back, cc))
      else FlatMap(Ends(m, a, back, cc, x), Then(m, b, back, cc + CapCount(a)))
    case Alt(a, b) => Ends(m, a, back, cc, x) + Ends(m, b, back, cc + CapCount(a), x)
    case Group(b) => Ends(m, b, back, cc, x)
    case Capture(b) =>
      FlatMap(Ends(m, b, back, cc + 1, SetCap(x, if back then 2 * cc + 1 else 2 * cc)),
              Close(if back then 2 * cc else 2 * cc + 1))
    case Look(b, negated, backward) => Ahead(Ends(m, b, backward, cc, x), negated, x)
    case Quant(a, min, max, greedy) =>
      var x0 := if min == 0 && CapCount(a) > 0 then x.(caps := ResetCaps(x.caps, cc, cc + CapCount(a) - 1)) else x;
      if max == 0 then [x0]
      else FlatMap(Exactly(m, a, back, cc, min, x0), More(m, a, back, cc, min, max, greedy))
  }

  ghost function OneChar(m: Ctx, p: Pattern, back: bool, x: St): seq<St>
    requires IsCharPattern(p)
  {
    if back then
      if 0 < x.pos <= |m.input| && Accepts(m, p, m.input[x.pos - 1]) then [x.(pos := x.pos - 1)] else []
    else
      if x.pos < |m.input| && Accepts(m, p, m.input[x.pos]) then [x.(pos := x.pos + 1)] else []
  }

  ghost function Test(m: Ctx, p: Pattern, x: St): seq<St>
    requires IsAssertion(p)
  {
    if x.pos <= |m.input| && Holds(m, p, x.pos) then [x] else []
  }

  ghost function Then(m: Ctx, p: Pattern, back: bool, cc: nat): St -> seq<St>
    decreases p, 0, 0, 1
  {
    y => Ends(m, p, back, cc, y)
  }

  ghost function Close(i: nat): St -> seq<St> {
    y => [SetCap(y, i)]
  }

  /** A lookaround succeeds at most once and does not move; a positive one keeps the captures of
      its first way to match. */
  ghost function Ahead(inner: seq<St>, negated: bool, x: St): seq<St> {
    if negated then if inner == [] then [x] else []
    else if inner == [] then [] else [x.(caps := inner[0].caps)]
  }

  /** n repetitions. */
  ghost function Exactly(m: Ctx, p: Pattern, back: bool, cc: nat, n: nat, x: St): seq<St>
    decreases p, 1, n, 1
  {
    if n == 0 then [x]
    else FlatMap(Ends(m, p, back, cc, x), ExactlyNext(m, p, back, cc, n - 1))
  }

  ghost function ExactlyNext(m: Ctx, p: Pattern, back: bool, cc: nat, n: nat): St -> seq<St>
    decreases p, 1, n, 2
  {
    y => Exactly(m, p, back, cc, n, y)
  }

  /** Skipping the repetition and repeating, in the order that greediness asks for. */
  ghost function Choose(greedy: bool, again: seq<St>, x: St): seq<St> {
    if greedy then again + [x] else [x] + again
  }

  /** At most n repetitions. */
  ghost function UpTo(m: Ctx, p: Pattern, back: bool, cc: nat, n: nat, greedy: bool, x: St): seq<St>
    decreases p, 1, n, 1
  {
    if n == 0 then [x]
    else Choose(greedy, FlatMap(Ends(m, p, back, cc, x), UpToNext(m, p, back, cc, n - 1, greedy)), x)
  }

  ghost function UpToNext(m: Ctx, p: Pattern, back: bool, cc: nat, n: nat, greedy: bool): St -> seq<St>
    decreases p, 1, n, 2
  {
    y => UpTo(m, p, back, cc, n, greedy, y)
  }

  /** Any number of repetitions. A repetition that does not move leaves the loop. */
  ghost function Star(m: Ctx, p: Pattern, back: bool, cc: nat, greedy: bool, x: St): seq<St>
    decreases p, 1, Left(m, back, x), 1
  {
    Choose(greedy, FlatMap(Ends(m, p, back, cc, x), StarNext(m, p, back, cc, greedy, x)), x)
  }

  ghost function StarNext(m: Ctx, p: Pattern, back: bool, cc: nat, greedy: bool, x: St): St -> seq<St>
    decreases p, 1, Left(m, back, x), 0
  {
    y => if Left(m, back, y) < Left(m, back, x) then Star(m, p, back, cc, greedy, y) else [y]
  }

  /** The optional repetitions after the mandatory ones. */
  ghost function More(m: Ctx, p: Pattern, back: bool, cc: nat, min: nat, max: nat, greedy: bool): St -> seq<St>
    decreases p, 2, 0, 0
  {
    if max == INFINITE then (y => Star(m, p, back, cc, greedy, y))
    else (y => UpTo(m, p, back, cc, if min <= max then max - min else 0, greedy, y))
  }

  // ----- one level at a time -----

  lemma {:induction false} EndsConcat(m: Ctx, a: Pattern, b: Pattern, back: bool, cc: nat, x: St)
    ensures Ends(m, Concat(a, b), back, cc, x)
         == if back then FlatMap(Ends(m, b, back, cc + CapCount(a), x), Then(m, a, back, cc))
            else FlatMap(Ends(m, a, back, cc, x), Then(m, b, back, cc + CapCount(a)))
  {
    hide FlatMap;
    hide OneChar;
    hide Test;
    hide Ahead;
    hide Exactly;
    hide More;
    hide Then;
    hide Close;
    hide CapCount;
  }

  lemma {:induction false} EndsAlt(m: Ctx, a: Pattern, b: Pattern, back: bool, cc: nat, x: St)
    ensures Ends(m, Alt(a, b), back, cc, x) == Ends(m, a, back, cc, x) + Ends(m, b, back, cc + CapCount(a), x)
  {
    hide FlatMap;
    hide OneChar;
    hide Test;
    hide Ahead;
    hide Exactly;
    hide More;
    hide Then;
    hide Close;
    hide CapCount;
  }

  lemma {:induction false} EndsCapture(m: Ctx, b: Pattern, back: bool, cc: nat, x: St)
    ensures Ends(m, Capture(b), back, cc, x)
         == FlatMap(Ends(m, b, back, cc + 1, SetCap(x, if back then 2 * cc + 1 else 2 * cc)),
                    Close(if back then 2 * cc else 2 * cc + 1))
  {
    hide FlatMap;
    hide OneChar;
    hide Test;
    hide Ahead;
    hide Exactly;
    hide More;
    hide Then;
    hide Close;
    hide SetCap;
  }

  lemma {:induction false} EndsLook(m: Ctx, b: Pattern, negated: bool, backward: bool, back: bool, cc: nat, x: St)
    ensures Ends(m, Look(b, negated, backward), back, cc, x) == Ahead(Ends(m, b, backward, cc, x), negated, x)
  {
    hide FlatMap;
    hide OneChar;
    hide Test;
    hide Ahead;
    hide Exactly;
    hide More;
    hide Then;
    hide Close;
  }

  // ----- matches stay inside the input and move one way -----

  ghost predicate Fits(m: Ctx, x: St) {
    x.pos <= |m.input| && |x.caps| == 2 * m.captureCount
  }

  /** y is x or further on in the direction of matching. */
  ghost predicate Onward(m: Ctx, back: bool, x: St, y: St) {
    Fits(m, y) && if back then y.pos <= x.pos else y.pos >= x.pos
  }

  ghost predicate AllOnward(m: Ctx, back: bool, x: St, l: seq<St>) {
    forall y :: y in l ==> Onward(m, back, x, y)
  }

  lemma {:induction false} InFlatMap(l: seq<St>, f: St -> seq<St>, y: St) returns (z: St)
    requires y in FlatMap(l, f)
    ensures z in l && y in f(z)
  {
    if y in f(l[0]) {
      z := l[0];
    } else {
      z := InFlatMap(l[1..], f, y);
    }
  }

  lemma {:induction false} FlatMapOnward(m: Ctx, back: bool, x: St, l: seq<St>, f: St -> seq<St>)
    requires AllOnward(m, back, x, l)
    requires forall z :: z in l ==> AllOnward(m, back, z, f(z))
    ensures AllOnward(m, back, x, FlatMap(l, f))
  {
    forall y | y in FlatMap(l, f)
      ensures Onward(m, back, x, y)
    {
      var z := InFlatMap(l, f, y);
    }
  }

  /** Every match ends inside the input, with as many captures, and never moves against the
      direction of matching. */
  lemma {:induction false} EndsOnward(m: Ctx, p: Pattern, back: bool, cc: nat, x: St)
    requires Fits(m, x)
    ensures AllOnward(m, back, x, Ends(m, p, back, cc, x))
    decreases p, 0, 0
  {
    hide FlatMap;
    hide Exactly;
    hide More;
    hide Accepts;
    hide Holds;
    match p
    case Empty =>
    case Literal(_) =>
    case Wildcard =>
    case Class(_) =>
    case AssertStart =>
    case AssertEnd =>
    case AssertWord(_) =>
    case Concat(a, b) =>
      var (p1, c1, p2, c2) := if back then (b, cc + CapCount(a), a, cc) else (a, cc, b, cc + CapCount(a));
      EndsOnward(m, p1, back, c1, x);
      forall z | z in Ends(m, p1, back, c1, x)
        ensures AllOnward(m, back, z, Then(m, p2, back, c2)(z))
      {
        EndsOnward(m, p2, back, c2, z);
      }
      FlatMapOnward(m, back, x, Ends(m, p1, back, c1, x), Then(m, p2, back, c2));
    case Alt(a, b) =>
      EndsOnward(m, a, back, cc, x);
      EndsOnward(m, b, back, cc + CapCount(a), x);
    case Group(b) => EndsOnward(m, b, back, cc, x);
    case Capture(b) =>
      var x' := SetCap(x, if back then 2 * cc + 1 else 2 * cc);
      EndsOnward(m, b, back, cc + 1, x');
      FlatMapOnward(m, back, x', Ends(m, b, back, cc + 1, x'), Close(if back then 2 * cc else 2 * cc + 1));
    case Look(b, _, backward) =>
      EndsOnward(m, b, backward, cc, x);
      var inner := Ends(m, b, backward, cc, x);
      assert inner != [] ==> inner[0] in inner;
    case Quant(a, min, max, greedy) =>
      if max != 0 {
        QuantOnward(m, a, back, cc, min, max, greedy,
                    if min == 0 && CapCount(a) > 0 then x.(caps := ResetCaps(x.caps, cc, cc + CapCount(a) - 1)) else x);
      }
  }

  lemma {:induction false} QuantOnward(m: Ctx, a: Pattern, back: bool, cc: nat, min: nat, max: nat, greedy: bool, x: St)
    requires Fits(m, x)
    ensures AllOnward(m, back, x, FlatMap(Exactly(m, a, back, cc, min, x), More(m, a, back, cc, min, max, greedy)))
    decreases a, 2, 0
  {
    ExactlyOnward(m, a, back, cc, min, x);
    forall z | z in Exactly(m, a, back, cc, min, x)
      ensures AllOnward(m, back, z, More(m, a, back, cc, min, max, greedy)(z))
    {
      if max == INFINITE {
        StarOnward(m, a, back, cc, greedy, z);
      } else {
        UpToOnward(m, a, back, cc, if min <= max then max - min else 0, greedy, z);
      }
    }
    FlatMapOnward(m, back, x, Exactly(m, a, back, cc, min, x), More(m, a, back, cc, min, max, greedy));
  }

  lemma {:induction false} ExactlyOnward(m: Ctx, p: Pattern, back: bool, cc: nat, n: nat, x: St)
    requires Fits(m, x)
    ensures AllOnward(m, back, x, Exactly(m, p, back, cc, n, x))
    decreases p, 1, n
  {
    if n > 0 {
      EndsOnward(m, p, back, cc, x);
      forall z | z in Ends(m, p, back, cc, x)
        ensures AllOnward(m, back, z, ExactlyNext(m, p, back, cc, n - 1)(z))
      {
        ExactlyOnward(m, p, back, cc, n - 1, z);
      }
      FlatMapOnward(m, back, x, Ends(m, p, back, cc, x), ExactlyNext(m, p, back, cc, n - 1));
    }
  }

  lemma {:induction false} UpToOnward(m: Ctx, p: Pattern, back: bool, cc: nat, n: nat, greedy: bool, x: St)
    requires Fits(m, x)
    ensures AllOnward(m, back, x, UpTo(m, p, back, cc, n, greedy, x))
    decreases p, 1, n
  {
    if n > 0 {
      EndsOnward(m, p, back, cc, x);
      forall z | z in Ends(m, p, back, cc, x)
        ensures AllOnward(m, back, z, UpToNext(m, p, back, cc, n - 1, greedy)(z))
      {
        UpToOnward(m, p, back, cc, n - 1, greedy, z);
      }
      FlatMapOnward(m, back, x, Ends(m, p, back, cc, x), UpToNext(m, p, back, cc, n - 1, greedy));
    }
  }

  lemma {:induction false} StarOnward(m: Ctx, p: Pattern, back: bool, cc: nat, greedy: bool, x: St)
    requires Fits(m, x)
    ensures AllOnward(m, back, x, Star(m, p, back, cc, greedy, x))
    decreases p, 1, Left(m, back, x)
  {
    EndsOnward(m, p, back, cc, x);
    forall z | z in Ends(m, p, back, cc, x)
      ensures AllOnward(m, back, z, StarNext(m, p, back, cc, greedy, x)(z))
    {
      if Left(m, back, z) < Left(m, back, x) {
        StarOnward(m, p, back, cc, greedy, z);
      }
    }
    FlatMapOnward(m, back, x, Ends(m, p, back, cc, x), StarNext(m, p, back, cc, greedy, x));
  }
}
