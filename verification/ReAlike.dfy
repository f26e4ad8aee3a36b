/** Captures are recorded, never consulted: the positions at which a pattern can end depend on the
    position where it starts alone. */
module ReAlike {
  import opened RePattern

  /** Two lists of points with the same positions. */
  ghost predicate Alike(l: seq<St>, r: seq<St>) {
    |l| == |r| && forall i :: 0 <= i < |l| ==> l[i].pos == r[i].pos
  }

  lemma {:induction false} AlikeAppend(l1: seq<St>, r1: seq<St>, l2: seq<St>, r2: seq<St>)
    requires Alike(l1, r1) && Alike(l2, r2)
    ensures Alike(l1 + l2, r1 + r2)
  {
  }

  lemma {:induction false} FlatMapAlike(l: seq<St>, r: seq<St>, f: St -> seq<St>, g: St -> seq<St>)
    requires Alike(l, r) && forall i :: 0 <= i < |l| ==> Alike(f(l[i]), g(r[i]))
    ensures Alike(FlatMap(l, f), FlatMap(r, g))
    decreases |l|
  {
    if |l| > 0 {
      FlatMapAlike(l[1..], r[1..], f, g);
      AlikeAppend(f(l[0]), g(r[0]), FlatMap(l[1..], f), FlatMap(r[1..], g));
    }
  }

  lemma {:induction false} EndsAlike(m: Ctx, p: Pattern, back: bool, cc: nat, x: St, y: St)
    requires x.pos == y.pos
    ensures Alike(Ends(m, p, back, cc, x), Ends(m, p, back, cc, y))
    decreases p, 1
  {
    hide FlatMap;
    hide Exactly;
    hide More;
    hide Accepts;
    hide Holds;
    match p
    case Concat(a, b) =>
      var (p1, c1, p2, c2) := if back then (b, cc + CapCount(a), a, cc) else (a, cc, b, cc + CapCount(a));
      var l, r, f := Ends(m, p1, back, c1, x), Ends(m, p1, back, c1, y), Then(m, p2, back, c2);
      EndsAlike(m, p1, back, c1, x, y);
      forall i | 0 <= i < |l|
        ensures Alike(f(l[i]), f(r[i]))
      {
        EndsAlike(m, p2, back, c2, l[i], r[i]);
      }
      FlatMapAlike(l, r, f, f);
    case Alt(a, b) =>
      EndsAlike(m, a, back, cc, x, y);
      EndsAlike(m, b, back, cc + CapCount(a), x, y);
      AlikeAppend(Ends(m, a, back, cc, x), Ends(m, a, back, cc, y),
                  Ends(m, b, back, cc + CapCount(a), x), Ends(m, b, back, cc + CapCount(a), y));
    case Group(b) => EndsAlike(m, b, back, cc, x, y);
    case Capture(b) =>
      var i := if back then 2 * cc + 1 else 2 * cc;
      var l, r := Ends(m, b, back, cc + 1, SetCap(x, i)), Ends(m, b, back, cc + 1, SetCap(y, i));
      var f := Close(if back then 2 * cc else 2 * cc + 1);
      EndsAlike(m, b, back, cc + 1, SetCap(x, i), SetCap(y, i));
      FlatMapAlike(l, r, f, f);
    case Look(b, _, backward) => EndsAlike(m, b, backward, cc, x, y);
    case Quant(a, min, max, greedy) =>
      if max != 0 {
        var reset := min == 0 && CapCount(a) > 0;
        QuantAlike(m, a, back, cc, min, max, greedy,
                   if reset then x.(caps := ResetCaps(x.caps, cc, cc + CapCount(a) - 1)) else x,
                   if reset then y.(caps := ResetCaps(y.caps, cc, cc + CapCount(a) - 1)) else y);
      }
    case _ =>
  }

  lemma {:induction false} QuantAlike(m: Ctx, a: Pattern, back: bool, cc: nat, min: nat, max: nat, greedy: bool,
          x: St, y: St)
    requires x.pos == y.pos
    ensures Alike(FlatMap(Exactly(m, a, back, cc, min, x), More(m, a, back, cc, min, max, greedy)),
                  FlatMap(Exactly(m, a, back, cc, min, y), More(m, a, back, cc, min, max, greedy)))
    decreases a, 3
  {
    hide FlatMap;
    hide Exactly;
    hide Star;
    hide UpTo;
    var l, r := Exactly(m, a, back, cc, min, x), Exactly(m, a, back, cc, min, y);
    var f := More(m, a, back, cc, min, max, greedy);
    ExactlyAlike(m, a, back, cc, min, x, y);
    forall i | 0 <= i < |l|
      ensures Alike(f(l[i]), f(r[i]))
    {
      StarAlike(m, a, back, cc, greedy, l[i], r[i]);
      UpToAlike(m, a, back, cc, if min <= max then max - min else 0, greedy, l[i], r[i]);
    }
    FlatMapAlike(l, r, f, f);
  }

  lemma {:induction false} ExactlyAlike(m: Ctx, a: Pattern, back: bool, cc: nat, n: nat, x: St, y: St)
    requires x.pos == y.pos
    ensures Alike(Exactly(m, a, back, cc, n, x), Exactly(m, a, back, cc, n, y))
    decreases a, 2, n
  {
    hide FlatMap;
    hide Ends;
    if n > 0 {
      var l, r, f := Ends(m, a, back, cc, x), Ends(m, a, back, cc, y), ExactlyNext(m, a, back, cc, n - 1);
      EndsAlike(m, a, back, cc, x, y);
      forall i | 0 <= i < |l|
        ensures Alike(f(l[i]), f(r[i]))
      {
        ExactlyAlike(m, a, back, cc, n - 1, l[i], r[i]);
      }
      FlatMapAlike(l, r, f, f);
    }
  }

  lemma {:induction false} UpToAlike(m: Ctx, a: Pattern, back: bool, cc: nat, n: nat, greedy: bool, x: St, y: St)
    requires x.pos == y.pos
    ensures Alike(UpTo(m, a, back, cc, n, greedy, x), UpTo(m, a, back, cc, n, greedy, y))
    decreases a, 2, n
  {
    hide FlatMap;
    hide Ends;
    if n > 0 {
      var l, r, f := Ends(m, a, back, cc, x), Ends(m, a, back, cc, y), UpToNext(m, a, back, cc, n - 1, greedy);
      EndsAlike(m, a, back, cc, x, y);
      forall i | 0 <= i < |l|
        ensures Alike(f(l[i]), f(r[i]))
      {
        UpToAlike(m, a, back, cc, n - 1, greedy, l[i], r[i]);
      }
      FlatMapAlike(l, r, f, f);
      ChooseAlike(greedy, FlatMap(l, f), FlatMap(r, f), x, y);
    }
  }

  lemma {:induction false} StarAlike(m: Ctx, a: Pattern, back: bool, cc: nat, greedy: bool, x: St, y: St)
    requires x.pos == y.pos
    ensures Alike(Star(m, a, back, cc, greedy, x), Star(m, a, back, cc, greedy, y))
    decreases a, 2, Left(m, back, x)
  {
    hide FlatMap;
    hide Ends;
    var l, r := Ends(m, a, back, cc, x), Ends(m, a, back, cc, y);
    var f, g := StarNext(m, a, back, cc, greedy, x), StarNext(m, a, back, cc, greedy, y);
    EndsAlike(m, a, back, cc, x, y);
    forall i | 0 <= i < |l|
      ensures Alike(f(l[i]), g(r[i]))
    {
      if Left(m, back, l[i]) < Left(m, back, x) {
        StarAlike(m, a, back, cc, greedy, l[i], r[i]);
      }
    }
    FlatMapAlike(l, r, f, g);
    ChooseAlike(greedy, FlatMap(l, f), FlatMap(r, g), x, y);
  }

  lemma {:induction false} ChooseAlike(greedy: bool, l: seq<St>, r: seq<St>, x: St, y: St)
    requires Alike(l, r) && x.pos == y.pos
    ensures Alike(Choose(greedy, l, x), Choose(greedy, r, y))
  {
  }
}
