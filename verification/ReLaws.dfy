/** What a match records: which captures it may change, what a capture holds afterwards, and what a
    quantifier forgets. Stated in entries of the list of captures, and in literal characters, flag
    bits and limits. */
module PatternLaws {
  import opened ReOpcode
  import opened RePattern

  // ----- only the captures inside a pattern change, and they stay intervals -----

  /** y has the captures of x except those from lo up to hi. */
  ghost predicate ChangesOnly(x: St, y: St, lo: nat, hi: nat) {
    && |y.caps| == |x.caps|
    && forall k :: 0 <= k < |x.caps| && !(2 * lo <= k < 2 * hi) ==> y.caps[k] == x.caps[k]
  }

  /** Capture k is unset or an interval of the input. */
  predicate Paired(m: Ctx, caps: seq<Option<nat>>, k: nat)
    requires 2 * k + 1 < |caps|
  {
    match (caps[2 * k], caps[2 * k + 1])
    case (None, None) => true
    case (Some(first), Some(last)) => first <= last <= |m.input|
    case _ => false
  }

  /** From x to y only captures lo to hi - 1 change, and those that are unset or intervals stay so. */
  ghost predicate Records(m: Ctx, x: St, y: St, lo: nat, hi: nat) {
    && ChangesOnly(x, y, lo, hi)
    && (Fits(m, x) ==> Fits(m, y)
                       && forall k :: lo <= k < hi && 2 * k + 1 < |x.caps| && Paired(m, x.caps, k) ==>
                            Paired(m, y.caps, k))
  }

  ghost predicate AllRecord(m: Ctx, x: St, l: seq<St>, lo: nat, hi: nat) {
    forall y :: y in l ==> Records(m, x, y, lo, hi)
  }

  lemma {:induction false} RecordsTrans(m: Ctx, x: St, y: St, z: St, lo: nat, hi: nat)
    requires Records(m, x, y, lo, hi) && Records(m, y, z, lo, hi)
    ensures Records(m, x, z, lo, hi)
  {
  }

  lemma {:induction false} RecordsChain(m: Ctx, x: St, y: St, l: seq<St>, lo: nat, hi: nat)
    requires Records(m, x, y, lo, hi) && AllRecord(m, y, l, lo, hi)
    ensures AllRecord(m, x, l, lo, hi)
  {
    hide Records;
    forall z | z in l
      ensures Records(m, x, z, lo, hi)
    {
      RecordsTrans(m, x, y, z, lo, hi);
    }
  }

  lemma {:induction false} FlatMapRecords(m: Ctx, x: St, l: seq<St>, f: St -> seq<St>, lo: nat, hi: nat)
    requires AllRecord(m, x, l, lo, hi)
    requires forall z :: z in l ==> AllRecord(m, z, f(z), lo, hi)
    ensures AllRecord(m, x, FlatMap(l, f), lo, hi)
  {
    hide Records, FlatMap;
    forall y | y in FlatMap(l, f)
      ensures Records(m, x, y, lo, hi)
    {
      var z := InFlatMap(l, f, y);
      RecordsTrans(m, x, z, y, lo, hi);
    }
  }

  lemma {:induction false} Widened(m: Ctx, x: St, l: seq<St>, lo: nat, hi: nat, lo': nat, hi': nat)
    requires AllRecord(m, x, l, lo, hi) && lo' <= lo && hi <= hi'
    ensures AllRecord(m, x, l, lo', hi')
  {
    forall y | y in l
      ensures Records(m, x, y, lo', hi')
    {
      assert Records(m, x, y, lo, hi);
    }
  }

  lemma {:induction false} SelfRecords(m: Ctx, x: St, lo: nat, hi: nat)
    ensures AllRecord(m, x, [x], lo, hi)
  {
  }

  lemma {:induction false} ChooseRecords(m: Ctx, greedy: bool, again: seq<St>, x: St, lo: nat, hi: nat)
    requires AllRecord(m, x, again, lo, hi)
    ensures AllRecord(m, x, Choose(greedy, again, x), lo, hi)
  {
    SelfRecords(m, x, lo, hi);
    hide Records;
  }

  /** Reading a character or testing a position records nothing, and a lookaround keeps at most what
      its body recorded. */
  lemma {:induction false} LeafRecords(m: Ctx, p: Pattern, back: bool, x: St, inner: seq<St>, negated: bool, lo: nat,
          hi: nat)
    ensures AllRecord(m, x, [x], lo, hi)
    ensures IsCharPattern(p) ==> AllRecord(m, x, OneChar(m, p, back, x), lo, hi)
    ensures IsAssertion(p) ==> AllRecord(m, x, Test(m, p, x), lo, hi)
    ensures AllRecord(m, x, inner, lo, hi) ==> AllRecord(m, x, Ahead(inner, negated, x), lo, hi)
  {
    hide Accepts, Holds;
    if inner != [] {
      assert inner[0] in inner;
    }
  }

  /** A match changes no capture outside its pattern. */
  lemma {:induction false} EndsRecord(m: Ctx, p: Pattern, back: bool, cc: nat, x: St)
    ensures AllRecord(m, x, Ends(m, p, back, cc, x), cc, cc + CapCount(p))
    decreases p, 0, 1
  {
    var hi := cc + CapCount(p);
    LeafRecords(m, p, back, x, [], false, cc, hi);
    hide FlatMap, Exactly, More, OneChar, Test, Ahead, Then, Close, SetCap, ResetCaps, AllRecord, Records;
    match p
    case Concat(a, b) => ConcatRecords(m, a, b, back, cc, x);
    case Alt(a, b) => AltRecords(m, a, b, back, cc, x);
    case Group(b) => EndsRecord(m, b, back, cc, x);
    case Capture(b) => CaptureInside(m, b, back, cc, x);
    case Look(b, negated, backward) =>
      EndsRecord(m, b, backward, cc, x);
      LeafRecords(m, p, back, x, Ends(m, b, backward, cc, x), negated, cc, hi);
    case Quant(a, min, max, greedy) => QuantifierRecords(m, a, back, cc, min, max, greedy, x);
    case _ =>
  }

  lemma {:induction false} ResetRecords(m: Ctx, x: St, cc: nat, n: nat)
    ensures Records(m, x, x, cc, cc + n)
    ensures n > 0 ==> Records(m, x, x.(caps := ResetCaps(x.caps, cc, cc + n - 1)), cc, cc + n)
  {
  }

  /** A quantifier, one level at a time. */
  lemma {:induction false} EndsQuant(m: Ctx, a: Pattern, back: bool, cc: nat, min: nat, max: nat, greedy: bool, x: St,
          x0: St)
    requires x0 == if min == 0 && CapCount(a) > 0 then x.(caps := ResetCaps(x.caps, cc, cc + CapCount(a) - 1)) else x
    ensures Ends(m, Quant(a, min, max, greedy), back, cc, x)
         == if max == 0 then [x0] else FlatMap(Exactly(m, a, back, cc, min, x0), More(m, a, back, cc, min, max, greedy))
  {
    hide FlatMap, Exactly, More, OneChar, Test, Ahead, Then, Close, SetCap, ResetCaps, CapCount;
  }

  lemma {:induction false} QuantifierRecords(m: Ctx, a: Pattern, back: bool, cc: nat, min: nat, max: nat, greedy: bool,
          x: St)
    ensures AllRecord(m, x, Ends(m, Quant(a, min, max, greedy), back, cc, x), cc, cc + CapCount(a))
    decreases Quant(a, min, max, greedy), 0, 0
  {
    hide FlatMap, Exactly, More, Ends, ResetCaps, AllRecord, Records, CapCount;
    var hi := cc + CapCount(a);
    var x0 := if min == 0 && CapCount(a) > 0 then x.(caps := ResetCaps(x.caps, cc, cc + CapCount(a) - 1)) else x;
    ResetRecords(m, x, cc, CapCount(a));
    EndsQuant(m, a, back, cc, min, max, greedy, x, x0);
    var l := FlatMap(Exactly(m, a, back, cc, min, x0), More(m, a, back, cc, min, max, greedy));
    QuantRecords(m, a, back, cc, min, max, greedy, x0);
    SelfRecords(m, x0, cc, hi);
    RecordsChain(m, x, x0, [x0], cc, hi);
    RecordsChain(m, x, x0, l, cc, hi);
  }

  lemma {:induction false} ConcatRecords(m: Ctx, a: Pattern, b: Pattern, back: bool, cc: nat, x: St)
    ensures AllRecord(m, x, Ends(m, Concat(a, b), back, cc, x), cc, cc + CapCount(a) + CapCount(b))
    decreases Concat(a, b), 0, 0
  {
    EndsConcat(m, a, b, back, cc, x);
    hide FlatMap, Ends, CapCount, AllRecord;
    var hi := cc + CapCount(a) + CapCount(b);
    var (p1, c1, p2, c2) := if back then (b, cc + CapCount(a), a, cc) else (a, cc, b, cc + CapCount(a));
    EndsRecord(m, p1, back, c1, x);
    Widened(m, x, Ends(m, p1, back, c1, x), c1, c1 + CapCount(p1), cc, hi);
    forall z | z in Ends(m, p1, back, c1, x)
      ensures AllRecord(m, z, Then(m, p2, back, c2)(z), cc, hi)
    {
      EndsRecord(m, p2, back, c2, z);
      Widened(m, z, Ends(m, p2, back, c2, z), c2, c2 + CapCount(p2), cc, hi);
    }
    FlatMapRecords(m, x, Ends(m, p1, back, c1, x), Then(m, p2, back, c2), cc, hi);
  }

  lemma {:induction false} AltRecords(m: Ctx, a: Pattern, b: Pattern, back: bool, cc: nat, x: St)
    ensures AllRecord(m, x, Ends(m, Alt(a, b), back, cc, x), cc, cc + CapCount(a) + CapCount(b))
    decreases Alt(a, b), 0, 0
  {
    EndsAlt(m, a, b, back, cc, x);
    hide Ends, CapCount, Records;
    var mid, hi := cc + CapCount(a), cc + CapCount(a) + CapCount(b);
    EndsRecord(m, a, back, cc, x);
    EndsRecord(m, b, back, mid, x);
    Widened(m, x, Ends(m, a, back, cc, x), cc, mid, cc, hi);
    Widened(m, x, Ends(m, b, back, mid, x), mid, hi, cc, hi);
  }

  lemma {:induction false} CaptureInside(m: Ctx, b: Pattern, back: bool, cc: nat, x: St)
    ensures AllRecord(m, x, Ends(m, Capture(b), back, cc, x), cc, cc + 1 + CapCount(b))
    decreases Capture(b), 0, 0
  {
    hide Ends, CapCount, Records;
    forall y | y in Ends(m, Capture(b), back, cc, x)
      ensures Records(m, x, y, cc, cc + 1 + CapCount(b))
    {
      var z := CaptureRecords(m, b, back, cc, x, y);
    }
  }

  /** The start and the end of a capture are the positions before and after the match of its body,
      the smaller one first; every capture outside keeps its value. */
  lemma {:induction false} CaptureRecords(m: Ctx, b: Pattern, back: bool, cc: nat, x: St, y: St) returns (z: St)
    requires y in Ends(m, Capture(b), back, cc, x)
    ensures z in Ends(m, b, back, cc + 1, SetCap(x, if back then 2 * cc + 1 else 2 * cc)) && y.pos == z.pos
    ensures 2 * cc + 1 < |x.caps| ==>
              |y.caps| == |x.caps| && y.caps[2 * cc..2 * cc + 2] == if back then [Some(y.pos), Some(x.pos)]
                                                                    else [Some(x.pos), Some(y.pos)]
    ensures Records(m, x, y, cc, cc + 1 + CapCount(b))
    ensures ChangesOnly(z, y, cc, cc + 1)
    decreases b, 3, 0
  {
    EndsCapture(m, b, back, cc, x);
    hide FlatMap, Ends, CapCount, Records;
    var (first, last) := if back then (2 * cc + 1, 2 * cc) else (2 * cc, 2 * cc + 1);
    var x1 := SetCap(x, first);
    z := InFlatMap(Ends(m, b, back, cc + 1, x1), Close(last), y);
    EndsRecord(m, b, back, cc + 1, x1);
    if Fits(m, x) {
      EndsOnward(m, b, back, cc + 1, x1);
    }
    CaptureCloses(m, back, cc, CapCount(b), x, x1, z, y);
  }

  lemma {:induction false} CaptureCloses(m: Ctx, back: bool, cc: nat, n: nat, x: St, x1: St, z: St, y: St)
    requires x1 == SetCap(x, if back then 2 * cc + 1 else 2 * cc) && y == SetCap(z, if back then 2 * cc else 2 * cc + 1)
    requires Records(m, x1, z, cc + 1, cc + 1 + n) && (Fits(m, x) ==> Onward(m, back, x1, z))
    ensures 2 * cc + 1 < |x.caps| ==>
              |y.caps| == |x.caps| && y.caps[2 * cc..2 * cc + 2] == if back then [Some(y.pos), Some(x.pos)]
                                                                    else [Some(x.pos), Some(y.pos)]
    ensures Records(m, x, y, cc, cc + 1 + n) && ChangesOnly(z, y, cc, cc + 1)
  {
    forall k | cc < k < cc + 1 + n && 2 * k + 1 < |x.caps| && Fits(m, x) && Paired(m, x.caps, k)
      ensures Paired(m, y.caps, k)
    {
      assert Paired(m, x1.caps, k);
      assert Paired(m, z.caps, k);
    }
  }

  lemma {:induction false} QuantRecords(m: Ctx, a: Pattern, back: bool, cc: nat, min: nat, max: nat, greedy: bool,
          x: St)
    ensures AllRecord(m, x, FlatMap(Exactly(m, a, back, cc, min, x), More(m, a, back, cc, min, max, greedy)),
                          cc, cc + CapCount(a))
    decreases a, 2, 0
  {
    hide FlatMap, AllRecord, CapCount, Ends;
    ExactlyRecords(m, a, back, cc, min, x);
    forall z | z in Exactly(m, a, back, cc, min, x)
      ensures AllRecord(m, z, More(m, a, back, cc, min, max, greedy)(z), cc, cc + CapCount(a))
    {
      if max == INFINITE {
        StarRecords(m, a, back, cc, greedy, z);
      } else {
        UpToRecords(m, a, back, cc, if min <= max then max - min else 0, greedy, z);
      }
    }
    FlatMapRecords(m, x, Exactly(m, a, back, cc, min, x), More(m, a, back, cc, min, max, greedy), cc, cc + CapCount(a));
  }

  lemma {:induction false} ExactlyRecords(m: Ctx, p: Pattern, back: bool, cc: nat, n: nat, x: St)
    ensures AllRecord(m, x, Exactly(m, p, back, cc, n, x), cc, cc + CapCount(p))
    decreases p, 1, n
  {
    hide FlatMap, AllRecord, CapCount, Ends;
    var hi := cc + CapCount(p);
    if n == 0 {
      SelfRecords(m, x, cc, hi);
    } else {
      var l, f := Ends(m, p, back, cc, x), ExactlyNext(m, p, back, cc, n - 1);
      EndsRecord(m, p, back, cc, x);
      forall z | z in l
        ensures AllRecord(m, z, f(z), cc, hi)
      {
        ExactlyRecords(m, p, back, cc, n - 1, z);
      }
      FlatMapRecords(m, x, l, f, cc, hi);
    }
  }

  lemma {:induction false} UpToRecords(m: Ctx, p: Pattern, back: bool, cc: nat, n: nat, greedy: bool, x: St)
    ensures AllRecord(m, x, UpTo(m, p, back, cc, n, greedy, x), cc, cc + CapCount(p))
    decreases p, 1, n
  {
    hide FlatMap, AllRecord, CapCount, Ends, Choose;
    var hi := cc + CapCount(p);
    if n == 0 {
      SelfRecords(m, x, cc, hi);
    } else {
      var l, f := Ends(m, p, back, cc, x), UpToNext(m, p, back, cc, n - 1, greedy);
      EndsRecord(m, p, back, cc, x);
      forall z | z in l
        ensures AllRecord(m, z, f(z), cc, hi)
      {
        UpToRecords(m, p, back, cc, n - 1, greedy, z);
      }
      FlatMapRecords(m, x, l, f, cc, hi);
      ChooseRecords(m, greedy, FlatMap(l, f), x, cc, hi);
    }
  }

  lemma {:induction false} StarRecords(m: Ctx, p: Pattern, back: bool, cc: nat, greedy: bool, x: St)
    ensures AllRecord(m, x, Star(m, p, back, cc, greedy, x), cc, cc + CapCount(p))
    decreases p, 1, Left(m, back, x)
  {
    hide FlatMap, AllRecord, CapCount, Ends, Choose;
    var hi := cc + CapCount(p);
    var l, f := Ends(m, p, back, cc, x), StarNext(m, p, back, cc, greedy, x);
    EndsRecord(m, p, back, cc, x);
    forall z | z in l
      ensures AllRecord(m, z, f(z), cc, hi)
    {
      if Left(m, back, z) < Left(m, back, x) {
        StarRecords(m, p, back, cc, greedy, z);
      } else {
        SelfRecords(m, z, cc, hi);
      }
    }
    FlatMapRecords(m, x, l, f, cc, hi);
    ChooseRecords(m, greedy, FlatMap(l, f), x, cc, hi);
  }

  // ----- what a quantifier forgets -----

  /** With no repetition the captures inside the atom are unset: a quantifier that may match nothing
      always has that end, last if it is greedy and first if it is not; it is where the quantifier
      started, with exactly the captures of the atom unset. */
  lemma {:induction false} SkippedQuantifier(m: Ctx, a: Pattern, max: nat, greedy: bool, back: bool, cc: nat, x: St)
    ensures var l := Ends(m, Quant(a, 0, max, greedy), back, cc, x);
            |l| > 0 &&
            var y := if greedy then l[|l| - 1] else l[0];
            && y.pos == x.pos && |y.caps| == |x.caps|
            && forall k :: 0 <= k < |x.caps| ==>
                 y.caps[k] == if 2 * cc <= k < 2 * (cc + CapCount(a)) then None else x.caps[k]
  {
    var n := CapCount(a);
    var x0 := if n > 0 then x.(caps := ResetCaps(x.caps, cc, cc + n - 1)) else x;
    QuantifierEnd(m, a, max, greedy, back, cc, x, x0);
    hide Ends, CapCount;
  }

  lemma {:induction false} QuantifierEnd(m: Ctx, a: Pattern, max: nat, greedy: bool, back: bool, cc: nat, x: St, x0: St)
    requires x0 == if CapCount(a) > 0 then x.(caps := ResetCaps(x.caps, cc, cc + CapCount(a) - 1)) else x
    ensures var l := Ends(m, Quant(a, 0, max, greedy), back, cc, x);
            |l| > 0 && (if greedy then l[|l| - 1] else l[0]) == x0
  {
    var f := More(m, a, back, cc, 0, max, greedy);
    EndsQuant(m, a, back, cc, 0, max, greedy, x, x0);
    OneFlatMap(x0, f);
    hide FlatMap, CapCount, Ends, UpTo, Star, ResetCaps;
    if max == INFINITE {
      StarEnds(m, a, back, cc, greedy, x0);
    } else if max > 0 {
      UpToEnds(m, a, back, cc, max, greedy, x0);
    }
  }

  lemma {:induction false} OneFlatMap(x: St, f: St -> seq<St>)
    ensures FlatMap([x], f) == f(x)
  {
    assert [x][1..] == [];
    assert FlatMap([], f) == [];
  }

  lemma {:induction false} StarEnds(m: Ctx, p: Pattern, back: bool, cc: nat, greedy: bool, x: St)
    ensures var l := Star(m, p, back, cc, greedy, x); |l| > 0 && (if greedy then l[|l| - 1] else l[0]) == x
  {
    hide FlatMap, Ends;
  }

  lemma {:induction false} UpToEnds(m: Ctx, p: Pattern, back: bool, cc: nat, n: nat, greedy: bool, x: St)
    ensures var l := UpTo(m, p, back, cc, n, greedy, x); |l| > 0 && (if greedy then l[|l| - 1] else l[0]) == x
  {
    hide FlatMap, Ends;
  }
}
