/** Exactly when a loop without a zero-advance check ends: non-greedy unbounded quantifiers get no
    such check, so the search of one whose atom can match without moving never ends. */
module ReLazy {
  import opened ReOpcode
  import opened RePattern
  import opened ReCode
  import opened ReMachine
  import opened ReSimple
  import opened RePlaced
  import opened ReLoops
  import opened RePieces
  import opened ReQuant
  import opened ReAlike

  // ----- the condition -----

  /** Some number of repetitions of the atom leads to a point where the atom can also match
      without moving. */
  ghost predicate Stalls(m: Ctx, a: Pattern, back: bool, cc: nat, x: St) {
    exists n: nat, y, z :: StallsAfter(m, a, back, cc, x, n, y, z)
  }

  ghost predicate StallsAfter(m: Ctx, a: Pattern, back: bool, cc: nat, x: St, n: nat, y: St, z: St) {
    y in Exactly(m, a, back, cc, n, x) && z in Ends(m, a, back, cc, y) && z.pos == y.pos
  }

  lemma {:induction false} IntoFlatMap(l: seq<St>, f: St -> seq<St>, z: St, y: St)
    requires z in l && y in f(z)
    ensures y in FlatMap(l, f)
    decreases |l|
  {
    if z != l[0] {
      IntoFlatMap(l[1..], f, z, y);
    }
  }

  /** An atom that does not move can fail to move again. */
  lemma {:induction false} StallsAgain(m: Ctx, a: Pattern, back: bool, cc: nat, x: St, z: St)
    requires z in Ends(m, a, back, cc, x) && z.pos == x.pos
    ensures Stalls(m, a, back, cc, z)
  {
    hide Ends;
    var l, r := Ends(m, a, back, cc, x), Ends(m, a, back, cc, z);
    EndsAlike(m, a, back, cc, x, z);
    var i :| 0 <= i < |l| && l[i] == z;
    ExactlyNextAt(m, a, back, cc, 0, z);
    assert StallsAfter(m, a, back, cc, z, 0, z, r[i]);
  }

  /** If the loop stalls from x, it stalls after one of the ways to repeat. */
  lemma {:induction false} StallsOn(m: Ctx, a: Pattern, back: bool, cc: nat, x: St) returns (w: St)
    requires Stalls(m, a, back, cc, x)
    ensures w in Ends(m, a, back, cc, x) && Stalls(m, a, back, cc, w)
  {
    hide Ends;
    hide FlatMap;
    hide Exactly;
    var n: nat, y, z :| StallsAfter(m, a, back, cc, x, n, y, z);
    if n == 0 {
      ExactlyNextAt(m, a, back, cc, 0, x);
      StallsAgain(m, a, back, cc, x, z);
      w := z;
    } else {
      ExactlyUnfold(m, a, back, cc, n, x);
      w := InFlatMap(Ends(m, a, back, cc, x), ExactlyNext(m, a, back, cc, n - 1), y);
      ExactlyNextAt(m, a, back, cc, n - 1, w);
      assert StallsAfter(m, a, back, cc, w, n - 1, y, z);
    }
  }

  /** If it does not, every repetition moves and leads to a point from which it does not. */
  lemma {:induction false} StallsBefore(m: Ctx, a: Pattern, back: bool, cc: nat, x: St, w: St)
    requires w in Ends(m, a, back, cc, x) && (w.pos == x.pos || Stalls(m, a, back, cc, w))
    ensures Stalls(m, a, back, cc, x)
  {
    hide Ends;
    hide FlatMap;
    hide Exactly;
    if w.pos == x.pos {
      ExactlyNextAt(m, a, back, cc, 0, x);
      assert StallsAfter(m, a, back, cc, x, 0, x, w);
    } else {
      var n: nat, y, z :| StallsAfter(m, a, back, cc, w, n, y, z);
      ExactlyNextAt(m, a, back, cc, n, w);
      IntoFlatMap(Ends(m, a, back, cc, x), ExactlyNext(m, a, back, cc, n), w, y);
      ExactlyUnfold(m, a, back, cc, n + 1, x);
      assert StallsAfter(m, a, back, cc, x, n + 1, y, z);
    }
  }

  /** An atom that always moves never stalls. */
  lemma {:induction false} MovingNeverStalls(m: Ctx, a: Pattern, back: bool, cc: nat, x: St)
    requires Moves(m, a, back, cc) && Fits(m, x)
    ensures !Stalls(m, a, back, cc, x)
  {
    hide Ends;
    hide Exactly;
    forall n: nat, y, z
      ensures !StallsAfter(m, a, back, cc, x, n, y, z)
    {
      ExactlyOnward(m, a, back, cc, n, x);
      assert y in Exactly(m, a, back, cc, n, x) ==> MovesFrom(m, a, back, cc, y);
    }
  }

  // ----- the loop -----

  /** The head of the loop is a split that goes on first and keeps the atom for later; after the
      atom the machine comes back to the head without any check. */
  ghost predicate LazyLoop(m: Machine, a: Pattern, back: bool, cc: nat, head: int, start: int, mid: int, end: int,
          gotoFirst: bool, off: int, depth: nat)
    requires Shaped(a)
  {
    && mid == start + Length(Code(m.ctx.flags, a, back, cc)) && Works(m, a, back, cc, start, depth)
    && AtCode(m, head, [Split(gotoFirst, off)]) && IsI32(off)
    && (end, start) == (if gotoFirst then (head + 5 + off, head + 5) else (head + 5, head + 5 + off))
    && (mid == head || (AtCode(m, mid, [Goto(head - mid - 5)]) && IsI32(head - mid - 5)))
  }

  /** The atom, saved for later by the head. */
  function Later(start: int, x: St, stack: seq<int>): Saved {
    Saved(SplitState, start, x.pos, x.caps, stack, 0)
  }

  lemma {:induction false} LazyParts(m: Machine, a: Pattern, back: bool, cc: nat, head: int, start: int, mid: int,
          end: int, gotoFirst: bool, off: int, depth: nat)
    requires Shaped(a) && LazyLoop(m, a, back, cc, head, start, mid, end, gotoFirst, off, depth)
    ensures AtCode(m, head, [Split(gotoFirst, off)]) && IsI32(off)
    ensures (end, start) == (if gotoFirst then (head + 5 + off, head + 5) else (head + 5, head + 5 + off))
    ensures mid == start + Length(Code(m.ctx.flags, a, back, cc)) && Works(m, a, back, cc, start, depth)
  {
    hide AtCode;
    hide Works;
    hide Code;
    hide Length;
  }

  lemma {:induction false} BackToHead(m: Machine, a: Pattern, back: bool, cc: nat, head: int, start: int, mid: int,
          end: int, gotoFirst: bool, off: int, y: St, stack: seq<int>, saved: seq<Saved>)
    requires Shaped(a) && LazyLoop(m, a, back, cc, head, start, mid, end, gotoFirst, off, |stack|) && Fits(m.ctx, y)
    ensures Reaches(m, Here(y, mid, stack, saved), Here(y, head, stack, saved))
  {
    hide AtCode;
    hide Works;
    hide Code;
    hide Length;
    hide Reaches;
    if mid == head {
      ReachesRefl(m, Here(y, mid, stack, saved));
    } else {
      GotoReaches(m, mid, head - mid - 5, y, stack, saved);
    }
  }

  // ----- without a stall the loop goes through finitely many outcomes -----

  lemma {:induction false} LazyExplores(m: Machine, a: Pattern, back: bool, cc: nat, head: int, start: int, mid: int,
          end: int, gotoFirst: bool, off: int, x: St, stack: seq<int>, saved: seq<Saved>)
    requires Shaped(a) && LazyLoop(m, a, back, cc, head, start, mid, end, gotoFirst, off, |stack|) && Fits(m.ctx, x)
    requires !Stalls(m.ctx, a, back, cc, x)
    ensures Explores(m, Here(x, head, stack, saved), Star(m.ctx, a, back, cc, false, x), end, stack, saved)
    decreases Left(m.ctx, back, x)
  {
    hide *;
    LazyParts(m, a, back, cc, head, start, mid, end, gotoFirst, off, |stack|);
    FitsPos(m.ctx, x);
    var l, f := Ends(m.ctx, a, back, cc, x), StarNext(m.ctx, a, back, cc, false, x);
    Use(m, a, back, cc, start, mid, x, stack, saved);
    EndsOnward(m.ctx, a, back, cc, x);
    forall y, ext | y in l && Choices(ext)
      ensures Explores(m, Here(y, mid, stack, saved + ext), f(y), end, stack, saved + ext)
    {
      OnwardFits(m.ctx, back, x, l, y);
      if y.pos == x.pos || Stalls(m.ctx, a, back, cc, y) {
        StallsBefore(m.ctx, a, back, cc, x, y);
        assert false;
      }
      StarNextAt(m.ctx, a, back, cc, false, x, y);
      LazyExplores(m, a, back, cc, head, start, mid, end, gotoFirst, off, y, stack, saved + ext);
      BackToHead(m, a, back, cc, head, start, mid, end, gotoFirst, off, y, stack, saved + ext);
      var s := saved + ext;
      ExploresPrepend(m, Here(y, mid, stack, s), Here(y, head, stack, s), f(y), end, stack, s);
    }
    BindExplores(m, Here(x, start, stack, saved), l, mid, stack, saved, f, end, stack);
    var s := saved + [Saved(SplitState, start, x.pos, x.caps, stack, 0)];
    ReachesRefl(m, Here(x, end, stack, s));
    ChooseExplores(m, head, false, gotoFirst, off, start, end, x, stack, end, stack, saved, FlatMap(l, f));
    StarUnfold(m.ctx, a, back, cc, false, x);
  }

  // ----- with a stall it goes on for ever -----

  /** Whatever follows the loop fails, from every point. */
  ghost predicate FailsAt(m: Machine, pc: int, stack: seq<int>) {
    forall y, saved :: Fits(m.ctx, y) ==> Reaches(m, Here(y, pc, stack, saved), Failing(saved))
  }

  ghost predicate AllFit(m: Ctx, l: seq<St>) {
    forall y :: y in l ==> Fits(m, y)
  }

  /** Going through a list of outcomes, all of which fail, is failing. */
  lemma {:induction false} ExploresFails(m: Machine, c: Config, l: seq<St>, end: int, stack: seq<int>,
          saved: seq<Saved>)
    requires Explores(m, c, l, end, stack, saved) && FailsAt(m, end, stack) && AllFit(m.ctx, l)
    ensures Reaches(m, c, Failing(saved))
    decreases |l|
  {
    hide Reaches;
    hide Fits;
    if |l| > 0 {
      var ext :| Arrives(m, c, l, end, stack, saved, ext)
                 && Explores(m, Failing(saved + ext), l[1..], end, stack, saved);
      assert l[0] in l;
      ReachesTrans(m, c, Here(l[0], end, stack, saved + ext), Failing(saved + ext));
      ExploresFails(m, Failing(saved + ext), l[1..], end, stack, saved);
      ReachesTrans(m, c, Failing(saved + ext), Failing(saved));
    }
  }

  ghost predicate NeverDone(m: Machine, c: Config, n: nat) {
    forall j: nat :: j <= n ==> !Steps(m, c, j).Done?
  }

  lemma {:induction false} DoneStays(m: Machine, c: Config, j: nat, k: nat)
    requires Steps(m, c, j).Done? && j <= k
    ensures Steps(m, c, k).Done?
    decreases k
  {
    if j < k {
      StepsAdd(m, c, j, k - j);
      StillDone(m, Steps(m, c, j), k - j);
    }
  }

  lemma {:induction false} StillDone(m: Machine, c: Config, n: nat)
    requires c.Done?
    ensures Steps(m, c, n) == c
  {
    if n > 0 {
      assert Step(m, c) == c;
      StillDone(m, c, n - 1);
    }
  }

  /** A run that leads to a run without end has none. */
  lemma {:induction false} LegForever(m: Machine, c: Config, d: Config, n: nat)
    requires Reaches(m, c, d) && NeverDone(m, d, n)
    ensures NeverDone(m, c, n)
  {
    hide Step;
    var k: nat :| Steps(m, c, k) == d;
    assert !d.Done? by { assert Steps(m, d, 0) == d; }
    forall j: nat | j <= n
      ensures !Steps(m, c, j).Done?
    {
      if j <= k {
        if Steps(m, c, j).Done? {
          DoneStays(m, c, j, k);
        }
      } else {
        StepsAdd(m, c, k, j - k);
      }
    }
  }

  lemma {:induction false} StepForever(m: Machine, c: Config, n: nat)
    requires !c.Done? && (n > 0 ==> NeverDone(m, Step(m, c), n - 1))
    ensures NeverDone(m, c, n)
  {
    hide Step;
    forall j: nat | j <= n
      ensures !Steps(m, c, j).Done?
    {
      if j > 0 {
        assert Steps(m, c, j) == Steps(m, Step(m, c), j - 1);
      }
    }
  }

  lemma {:induction false} ResumeAtom(m: Machine, start: int, x: St, stack: seq<int>, saved: seq<Saved>)
    ensures Step(m, Failing(saved + [Later(start, x, stack)])) == Here(x, start, stack, saved)
  {
    var s := saved + [Later(start, x, stack)];
    assert s[|s| - 1] == Later(start, x, stack) && s[..|s| - 1] == saved;
  }

  /** One turn: from the head through the failure of what follows to the atom. */
  lemma {:induction false} HeadToAtom(m: Machine, a: Pattern, back: bool, cc: nat, head: int, start: int, mid: int,
          end: int, gotoFirst: bool, off: int, x: St, stack: seq<int>, saved: seq<Saved>)
    requires Shaped(a) && LazyLoop(m, a, back, cc, head, start, mid, end, gotoFirst, off, |stack|)
    requires Fits(m.ctx, x) && FailsAt(m, end, stack)
    ensures Reaches(m, Step(m, Here(x, head, stack, saved)), Here(x, start, stack, saved))
  {
    hide AtCode;
    hide Works;
    hide Code;
    hide Length;
    hide Reaches;
    hide Step;
    var s := saved + [Later(start, x, stack)];
    FitsPos(m.ctx, x);
    SplitStep(m, head, gotoFirst, off, x, stack, saved);
    ResumeAtom(m, start, x, stack, saved);
    ReachesStep(m, Failing(s));
    ReachesTrans(m, Here(x, end, stack, s), Failing(s), Here(x, start, stack, saved));
  }

  /** From a point that stalls, the machine never halts if what follows the loop fails. */
  lemma {:induction false} LazyForever(m: Machine, a: Pattern, back: bool, cc: nat, head: int, start: int, mid: int,
          end: int, gotoFirst: bool, off: int, x: St, stack: seq<int>, saved: seq<Saved>, n: nat)
    requires Shaped(a) && LazyLoop(m, a, back, cc, head, start, mid, end, gotoFirst, off, |stack|)
    requires Fits(m.ctx, x) && FailsAt(m, end, stack) && Stalls(m.ctx, a, back, cc, x)
    ensures NeverDone(m, Here(x, head, stack, saved), n)
    decreases n, 0
  {
    hide LazyLoop;
    hide Stalls;
    hide FailsAt;
    hide Fits;
    hide Ends;
    hide Explores;
    hide Reaches;
    hide NeverDone;
    hide Step;
    hide Works;
    var c := Here(x, head, stack, saved);
    if n > 0 {
      LazyParts(m, a, back, cc, head, start, mid, end, gotoFirst, off, |stack|);
      Use(m, a, back, cc, start, mid, x, stack, saved);
      EndsOnward(m.ctx, a, back, cc, x);
      OnwardAllFit(m.ctx, back, x, Ends(m.ctx, a, back, cc, x));
      var w := StallsOn(m.ctx, a, back, cc, x);
      ListForever(m, a, back, cc, head, start, mid, end, gotoFirst, off, Here(x, start, stack, saved),
                  Ends(m.ctx, a, back, cc, x), w, stack, saved, n - 1);
      HeadToAtom(m, a, back, cc, head, start, mid, end, gotoFirst, off, x, stack, saved);
      LegForever(m, Step(m, c), Here(x, start, stack, saved), n - 1);
    }
    StepForever(m, c, n);
  }

  lemma {:induction false} OnwardAllFit(m: Ctx, back: bool, x: St, l: seq<St>)
    requires AllOnward(m, back, x, l)
    ensures AllFit(m, l)
  {
  }

  /** The same while going through the ways to repeat, one of which, w, stalls. */
  lemma {:induction false} ListForever(m: Machine, a: Pattern, back: bool, cc: nat, head: int, start: int, mid: int,
          end: int, gotoFirst: bool, off: int, c: Config, l: seq<St>, w: St, stack: seq<int>, saved: seq<Saved>,
          n: nat)
    requires Shaped(a) && LazyLoop(m, a, back, cc, head, start, mid, end, gotoFirst, off, |stack|)
    requires FailsAt(m, end, stack)
    requires Explores(m, c, l, mid, stack, saved) && AllFit(m.ctx, l) && w in l && Stalls(m.ctx, a, back, cc, w)
    ensures NeverDone(m, c, n)
    decreases n, |l|
  {
    hide LazyLoop;
    hide Stalls;
    hide FailsAt;
    hide Fits;
    hide Reaches;
    hide NeverDone;
    hide Star;
    var ext :| Arrives(m, c, l, mid, stack, saved, ext) && Explores(m, Failing(saved + ext), l[1..], mid, stack, saved);
    var y, s := l[0], saved + ext;
    assert y in l;
    BackToHead(m, a, back, cc, head, start, mid, end, gotoFirst, off, y, stack, s);
    ReachesTrans(m, c, Here(y, mid, stack, s), Here(y, head, stack, s));
    if Stalls(m.ctx, a, back, cc, y) {
      LazyForever(m, a, back, cc, head, start, mid, end, gotoFirst, off, y, stack, s, n);
      LegForever(m, c, Here(y, head, stack, s), n);
    } else {
      LazyFails(m, a, back, cc, head, start, mid, end, gotoFirst, off, y, stack, s);
      ReachesTrans(m, c, Here(y, head, stack, s), Failing(s));
      assert w in l[1..];
      ListForever(m, a, back, cc, head, start, mid, end, gotoFirst, off, Failing(s), l[1..], w, stack, saved, n);
      LegForever(m, c, Failing(s), n);
    }
  }

  /** Without a stall the loop gives up. */
  lemma {:induction false} LazyFails(m: Machine, a: Pattern, back: bool, cc: nat, head: int, start: int, mid: int,
          end: int, gotoFirst: bool, off: int, x: St, stack: seq<int>, saved: seq<Saved>)
    requires Shaped(a) && LazyLoop(m, a, back, cc, head, start, mid, end, gotoFirst, off, |stack|)
    requires Fits(m.ctx, x) && FailsAt(m, end, stack) && !Stalls(m.ctx, a, back, cc, x)
    ensures Reaches(m, Here(x, head, stack, saved), Failing(saved))
    ensures AllFit(m.ctx, Star(m.ctx, a, back, cc, false, x))
  {
    hide *;
    var l := Star(m.ctx, a, back, cc, false, x);
    LazyExplores(m, a, back, cc, head, start, mid, end, gotoFirst, off, x, stack, saved);
    StarOnward(m.ctx, a, back, cc, false, x);
    OnwardAllFit(m.ctx, back, x, l);
    ExploresFails(m, Here(x, head, stack, saved), l, end, stack, saved);
  }

  // ----- the exact condition -----

  /** The machine halts at some time. */
  ghost predicate Halts(m: Machine, c: Config) {
    exists n: nat :: Steps(m, c, n).Done?
  }

  /** The machine goes through some finite list of outcomes. */
  ghost predicate Finite(m: Machine, c: Config, end: int, stack: seq<int>) {
    exists l :: AllFit(m.ctx, l) && Explores(m, c, l, end, stack, [])
  }

  lemma {:induction false} FailingHalts(m: Machine, c: Config)
    requires Reaches(m, c, Failing([]))
    ensures Halts(m, c)
  {
    assert Step(m, Failing([])) == Done(None);
    ReachesStep(m, Failing([]));
    ReachesTrans(m, c, Failing([]), Done(None));
    var n: nat :| Steps(m, c, n) == Done(None);
  }

  lemma {:induction false} ForeverNotHalts(m: Machine, c: Config)
    requires forall n: nat :: NeverDone(m, c, n)
    ensures !Halts(m, c)
  {
    forall n: nat
      ensures !Steps(m, c, n).Done?
    {
      assert NeverDone(m, c, n);
    }
  }

  /** The search of an unchecked loop, when all that follows fails, goes through finitely many
      outcomes, and ends, exactly if no repetitions lead to a point where the atom can match
      without moving. */
  lemma {:induction false} LazyExact(m: Machine, a: Pattern, back: bool, cc: nat, head: int, start: int, mid: int,
          end: int, gotoFirst: bool, off: int, x: St, stack: seq<int>)
    requires Shaped(a) && LazyLoop(m, a, back, cc, head, start, mid, end, gotoFirst, off, |stack|)
    requires Fits(m.ctx, x) && FailsAt(m, end, stack)
    ensures Finite(m, Here(x, head, stack, []), end, stack) <==> !Stalls(m.ctx, a, back, cc, x)
    ensures Halts(m, Here(x, head, stack, [])) <==> !Stalls(m.ctx, a, back, cc, x)
  {
    hide LazyLoop;
    hide Stalls;
    hide FailsAt;
    hide Fits;
    hide Explores;
    hide Reaches;
    hide NeverDone;
    hide Star;
    hide Halts;
    hide AllFit;
    var c := Here(x, head, stack, []);
    if Stalls(m.ctx, a, back, cc, x) {
      forall n: nat ensures NeverDone(m, c, n) {
        LazyForever(m, a, back, cc, head, start, mid, end, gotoFirst, off, x, stack, [], n);
      }
      ForeverNotHalts(m, c);
      if Finite(m, c, end, stack) {
        var l :| AllFit(m.ctx, l) && Explores(m, c, l, end, stack, []);
        ExploresFails(m, c, l, end, stack, []);
        FailingHalts(m, c);
      }
    } else {
      LazyExplores(m, a, back, cc, head, start, mid, end, gotoFirst, off, x, stack, []);
      LazyFails(m, a, back, cc, head, start, mid, end, gotoFirst, off, x, stack, []);
      FailingHalts(m, c);
    }
  }

  // ----- the loops that the compiler emits -----

  lemma {:induction false} StarIsLazy(m: Machine, pc: int, a: Pattern, back: bool, cc: nat, depth: nat, len: int)
    requires Shaped(a) && Quantifiable(m, a, back, cc) && len == Length(Code(m.ctx.flags, a, back, cc))
    requires Room(m, pc, StarCode(Code(m.ctx.flags, a, back, cc), false, false), depth)
    ensures LazyLoop(m, a, back, cc, pc, pc + 5, pc + 5 + len, pc + 10 + len, true, len + 5, depth)
  {
    hide Code;
    hide Works;
    hide Everywhere;
    hide AtCode;
    hide MaxDepth;
    hide Length;
    hide NetDepth;
    var atom := Code(m.ctx.flags, a, back, cc);
    var s, g := Split(true, len + 5), Goto(-(len + 10));
    LengthOne(s);
    LengthOne(g);
    RoomParts(m, pc, [s], atom, [g], StarCode(atom, false, false), depth, depth, depth);
    WorksHere(m, a, back, cc, pc + 5, depth);
  }

  lemma {:induction false} PlusIsLazy(m: Machine, pc: int, a: Pattern, back: bool, cc: nat, depth: nat, len: int)
    requires Shaped(a) && Quantifiable(m, a, back, cc) && len == Length(Code(m.ctx.flags, a, back, cc))
    requires Room(m, pc, PlusCode(Code(m.ctx.flags, a, back, cc), false), depth)
    ensures LazyLoop(m, a, back, cc, pc + len, pc, pc + len, pc + len + 5, false, -(len + 5), depth)
  {
    hide Code;
    hide Works;
    hide Everywhere;
    hide AtCode;
    hide MaxDepth;
    hide Length;
    hide NetDepth;
    var atom := Code(m.ctx.flags, a, back, cc);
    var s := Split(false, -(len + 5));
    LengthOne(s);
    NoCode();
    assert PlusCode(atom, false) == [] + atom + [s];
    RoomParts(m, pc, [], atom, [s], PlusCode(atom, false), depth, depth, depth);
    WorksHere(m, a, back, cc, pc, depth);
  }

  /** A pattern without any match, placed after the loop, makes all that follows fail. */
  lemma {:induction false} NoMatchFails(m: Machine, p: Pattern, back: bool, cc: nat, pc: int, stack: seq<int>)
    requires Shaped(p) && Works(m, p, back, cc, pc, |stack|)
    requires forall y :: Fits(m.ctx, y) ==> Ends(m.ctx, p, back, cc, y) == []
    ensures FailsAt(m, pc, stack)
  {
    hide Works;
    hide Ends;
    hide Code;
    hide Length;
    hide Fits;
    hide Reaches;
    forall y, saved | Fits(m.ctx, y)
      ensures Reaches(m, Here(y, pc, stack, saved), Failing(saved))
    {
      Use(m, p, back, cc, pc, pc + Length(Code(m.ctx.flags, p, back, cc)), y, stack, saved);
    }
  }

  /** The loop of x*? or of the optional part of x{n,}?, for any atom that works: it ends exactly
      if it does not stall. */
  lemma {:induction false} StarLazyExact(m: Machine, pc: int, a: Pattern, back: bool, cc: nat, x: St, stack: seq<int>)
    requires Shaped(a) && Quantifiable(m, a, back, cc) && Fits(m.ctx, x)
    requires Room(m, pc, StarCode(Code(m.ctx.flags, a, back, cc), false, false), |stack|)
    requires FailsAt(m, pc + 10 + Length(Code(m.ctx.flags, a, back, cc)), stack)
    ensures Finite(m, Here(x, pc, stack, []), pc + 10 + Length(Code(m.ctx.flags, a, back, cc)), stack)
       <==> !Stalls(m.ctx, a, back, cc, x)
    ensures Halts(m, Here(x, pc, stack, [])) <==> !Stalls(m.ctx, a, back, cc, x)
  {
    hide *;
    var len := Length(Code(m.ctx.flags, a, back, cc));
    StarIsLazy(m, pc, a, back, cc, |stack|, len);
    LazyExact(m, a, back, cc, pc, pc + 5, pc + 5 + len, pc + 10 + len, true, len + 5, x, stack);
  }

  /** The loop of x+?, from the split after its first repetition. */
  lemma {:induction false} PlusLazyExact(m: Machine, pc: int, a: Pattern, back: bool, cc: nat, x: St, stack: seq<int>)
    requires Shaped(a) && Quantifiable(m, a, back, cc) && Fits(m.ctx, x)
    requires Room(m, pc, PlusCode(Code(m.ctx.flags, a, back, cc), false), |stack|)
    requires FailsAt(m, pc + Length(Code(m.ctx.flags, a, back, cc)) + 5, stack)
    ensures var head := pc + Length(Code(m.ctx.flags, a, back, cc));
            && (Finite(m, Here(x, head, stack, []), head + 5, stack) <==> !Stalls(m.ctx, a, back, cc, x))
            && (Halts(m, Here(x, head, stack, [])) <==> !Stalls(m.ctx, a, back, cc, x))
  {
    hide *;
    var len: int := Length(Code(m.ctx.flags, a, back, cc));
    PlusIsLazy(m, pc, a, back, cc, |stack|, len);
    LazyExact(m, a, back, cc, pc + len, pc, pc + len, pc + len + 5, false, -(len + 5), x, stack);
  }
}
