/** The linear scan for the stack size is right: whatever the pattern and the input, the machine's
    stack is, at every point of every run, as deep as the scan says for that point. */
module ReDepth {
  import opened ReOpcode
  import opened RePattern
  import opened ReCode
  import opened RePlaced
  import opened ReQuant

  // ----- points of the code and the jumps between them -----

  /** The k-th instruction starts t bytes into the code, where the scan has reached depth d. */
  ghost predicate Point(code: seq<Instr>, k: nat, t: int, d: int) {
    k <= |code| && Length(code[..k]) == t && NetDepth(code[..k]) == d
  }

  ghost predicate Lands(code: seq<Instr>, t: int, d: int) {
    exists k: nat :: Point(code, k, t, d)
  }

  predicate IsJump(i: Instr) {
    i.Goto? || i.Split? || i.Lookahead? || i.Loop? || i.BneCharPos? || i.SimpleGreedyQuant?
  }

  function Offset(i: Instr): int
    requires IsJump(i)
  {
    if i.SimpleGreedyQuant? then i.next else i.off
  }

  /** The jump of the k-th instruction, if it is one, lands on an instruction where the scan has the
      depth that the jump leaves. */
  ghost predicate JumpOk(code: seq<Instr>, k: nat)
    requires k < |code|
  {
    IsJump(code[k]) ==>
      Lands(code, Length(code[..k]) + Size(code[k]) + Offset(code[k]),
            NetDepth(code[..k]) + if code[k].BneCharPos? then -1 else 0)
  }

  ghost predicate JumpsOk(code: seq<Instr>) {
    forall k: nat :: k < |code| ==> JumpOk(code, k)
  }

  lemma {:induction false} TakeInside(pre: seq<Instr>, a: seq<Instr>, post: seq<Instr>, k: nat)
    requires k <= |a|
    ensures (pre + a + post)[..|pre| + k] == pre + a[..k]
  {
  }

  lemma {:induction false} PointInside(pre: seq<Instr>, a: seq<Instr>, post: seq<Instr>, whole: seq<Instr>, k: nat,
          t: int, d: int)
    requires whole == pre + a + post && Point(a, k, t, d)
    ensures Point(whole, |pre| + k, Length(pre) + t, NetDepth(pre) + d)
  {
    hide *;
    PointIs(a, k, t, d);
    TakeInside(pre, a, post, k);
    BytesAppend(pre, a[..k]);
    DepthOfSum(pre, a[..k]);
    PointSelf(whole, |pre| + k);
  }

  lemma {:induction false} LandsInside(pre: seq<Instr>, a: seq<Instr>, post: seq<Instr>, whole: seq<Instr>, t: int,
          d: int)
    requires whole == pre + a + post && Lands(a, t, d)
    ensures Lands(whole, Length(pre) + t, NetDepth(pre) + d)
  {
    hide Point;
    var k: nat :| Point(a, k, t, d);
    PointInside(pre, a, post, whole, k, t, d);
  }

  /** Relocation: the jumps of a block stay right wherever the block is put. */
  lemma {:induction false} JumpsInside(pre: seq<Instr>, a: seq<Instr>, post: seq<Instr>, whole: seq<Instr>, k: nat)
    requires whole == pre + a + post && JumpsOk(a) && |pre| <= k < |pre| + |a|
    ensures JumpOk(whole, k)
  {
    hide Length;
    hide NetDepth;
    hide Lands;
    hide Size;
    var j := k - |pre|;
    assert JumpOk(a, j);
    assert whole[k] == a[j];
    if IsJump(a[j]) {
      PointSelf(a, j);
      PointInside(pre, a, post, whole, j, Length(a[..j]), NetDepth(a[..j]));
      PointIs(whole, k, Length(pre) + Length(a[..j]), NetDepth(pre) + NetDepth(a[..j]));
      LandsInside(pre, a, post, whole, Length(a[..j]) + Size(a[j]) + Offset(a[j]),
                  NetDepth(a[..j]) + if a[j].BneCharPos? then -1 else 0);
    }
  }

  lemma {:induction false} PointSelf(code: seq<Instr>, k: nat)
    requires k <= |code|
    ensures Point(code, k, Length(code[..k]), NetDepth(code[..k]))
  {
  }

  lemma {:induction false} PointIs(code: seq<Instr>, k: nat, t: int, d: int)
    requires Point(code, k, t, d)
    ensures k <= |code| && Length(code[..k]) == t && NetDepth(code[..k]) == d
  {
  }

  lemma {:induction false} JumpsAppend(a: seq<Instr>, b: seq<Instr>)
    requires JumpsOk(a) && JumpsOk(b)
    ensures JumpsOk(a + b)
  {
    hide JumpOk;
    forall k: nat | k < |a + b|
      ensures JumpOk(a + b, k)
    {
      if k < |a| {
        assert a + b == [] + a + b;
        JumpsInside([], a, b, a + b, k);
      } else {
        assert a + b == a + b + [];
        JumpsInside(a, b, [], a + b, k);
      }
    }
  }

  lemma {:induction false} NoJumps(code: seq<Instr>)
    requires forall k :: 0 <= k < |code| ==> !IsJump(code[k])
    ensures JumpsOk(code)
  {
  }

  /** The instruction after a block. */
  lemma {:induction false} PointAfter(pre: seq<Instr>, i: Instr, post: seq<Instr>, code: seq<Instr>)
    requires code == pre + [i] + post
    ensures |pre| < |code| && code[|pre|] == i && Point(code, |pre|, Length(pre), NetDepth(pre))
  {
    hide Length;
    hide NetDepth;
    assert code[..|pre|] == pre;
  }

  lemma {:induction false} JumpLands(code: seq<Instr>, k: nat, t: int, d: int)
    requires k < |code| && Point(code, k, t, d)
    requires IsJump(code[k]) ==>
               Lands(code, t + Size(code[k]) + Offset(code[k]), d + if code[k].BneCharPos? then -1 else 0)
    ensures JumpOk(code, k)
  {
    hide Length;
    hide NetDepth;
    hide Lands;
    hide Size;
    hide IsJump;
    hide Offset;
  }

  /** A block between two instructions of which each, if it jumps, lands. */
  lemma {:induction false} JumpsBetween(i: Instr, a: seq<Instr>, j: Instr, whole: seq<Instr>)
    requires whole == [i] + a + [j] && JumpsOk(a)
    requires IsJump(i) ==> !i.BneCharPos? && Lands(whole, Size(i) + Offset(i), 0)
    requires IsJump(j) ==> Lands(whole, Length(whole) + Offset(j),
                                 Effect(i) + NetDepth(a) + if j.BneCharPos? then -1 else 0)
    ensures JumpsOk(whole)
  {
    hide *;
    var n := |whole| - 1;
    assert whole == [] + [i] + (a + [j]) && whole == ([i] + a) + [j] + [];
    PointAfter([], i, a + [j], whole);
    PointAfter([i] + a, j, [], whole);
    NoCode();
    BytesAppend([i] + a, [j]);
    DepthOfSum([i], a);
    LengthOne(i);
    LengthOne(j);
    JumpLands(whole, 0, 0, 0);
    JumpLands(whole, n, Length([i] + a), NetDepth([i] + a));
    forall k: nat | k < |whole|
      ensures JumpOk(whole, k)
    {
      if k != 0 && k != n {
        JumpsInside([i], a, [j], whole, k);
      }
    }
    JumpsIntro(whole);
  }

  lemma {:induction false} JumpsIntro(code: seq<Instr>)
    requires forall k: nat :: k < |code| ==> JumpOk(code, k)
    ensures JumpsOk(code)
  {
    hide JumpOk;
  }

  lemma {:induction false} LandsAt(code: seq<Instr>, k: nat, t: int, d: int)
    requires Point(code, k, t, d)
    ensures Lands(code, t, d)
  {
    hide Point;
  }

  lemma {:induction false} LandsEnd(code: seq<Instr>, t: int, d: int)
    requires t == Length(code) && d == NetDepth(code)
    ensures Lands(code, t, d)
  {
    hide Length;
    hide NetDepth;
    assert code[..|code|] == code;
    LandsAt(code, |code|, t, d);
  }

  lemma {:induction false} LandsStart(code: seq<Instr>)
    ensures Lands(code, 0, 0)
  {
    assert code[..0] == [];
    assert Point(code, 0, 0, 0);
  }

  // ----- the jumps of the code shapes -----

  /** The length and depth of a block between two instructions. */
  lemma {:induction false} Around(i: Instr, a: seq<Instr>, j: Instr, whole: seq<Instr>)
    requires whole == [i] + a + [j]
    ensures Length(whole) == Size(i) + Length(a) + Size(j)
    ensures NetDepth(whole) == Effect(i) + NetDepth(a) + Effect(j)
  {
    hide *;
    BytesAppend([i] + a, [j]);
    BytesAppend([i], a);
    DepthOfSum([i] + a, [j]);
    DepthOfSum([i], a);
    LengthOne(i);
    LengthOne(j);
  }

  lemma {:induction false} StarJumps(atom: seq<Instr>, greedy: bool, check: bool)
    requires JumpsOk(atom) && NetDepth(atom) == 0
    ensures JumpsOk(StarCode(atom, greedy, check))
  {
    hide JumpsOk;
    hide Length;
    hide NetDepth;
    hide Lands;
    hide Point;
    var len: int := Length(atom);
    var code := StarCode(atom, greedy, check);
    LandsStart(code);
    if check {
      CheckedJumps(atom, Split(!greedy, len + 6), BneCharPos(-(len + 11)), code);
    } else {
      var s, g := Split(!greedy, len + 5), Goto(-(len + 10));
      Around(s, atom, g, code);
      LandsEnd(code, len + 10, 0);
      JumpsBetween(s, atom, g, code);
    }
  }

  lemma {:induction false} CheckedJumps(atom: seq<Instr>, s: Instr, b: Instr, code: seq<Instr>)
    requires JumpsOk(atom) && NetDepth(atom) == 0 && code == [s] + [PushCharPos] + atom + [b]
    requires s.Split? && s.off == Length(atom) + 6 && b == BneCharPos(-(Length(atom) as int + 11))
    ensures JumpsOk(code)
  {
    hide JumpsOk;
    hide Length;
    hide NetDepth;
    hide Lands;
    hide Point;
    var head := [PushCharPos];
    var body := head + atom;
    assert code == [s] + body + [b];
    LandsStart(code);
    NoJumps(head);
    JumpsAppend(head, atom);
    BytesAppend(head, atom);
    DepthOfSum(head, atom);
    LengthOne(PushCharPos);
    Around(s, body, b, code);
    LandsEnd(code, Length(atom) + 11, 0);
    JumpsBetween(s, body, b, code);
  }

  lemma {:induction false} PlusJumps(atom: seq<Instr>, greedy: bool)
    requires JumpsOk(atom) && NetDepth(atom) == 0
    ensures JumpsOk(PlusCode(atom, greedy))
  {
    hide Length;
    hide NetDepth;
    hide Lands;
    hide Size;
    var s := Split(greedy, -(Length(atom) as int + 5));
    var code := PlusCode(atom, greedy);
    LengthOne(s);
    SplitSize(greedy, s.off);
    LandsStart(code);
    assert code == [] + atom + [s];
    assert code[..|atom|] == atom && code[|atom|] == s;
    forall k: nat | k < |code|
      ensures JumpOk(code, k)
    {
      if k < |atom| {
        JumpsInside([], atom, [s], code, k);
      }
    }
  }

  lemma {:induction false} SplitSize(gotoFirst: bool, off: int)
    ensures Size(Split(gotoFirst, off)) == 5 && Offset(Split(gotoFirst, off)) == off
  {
  }

  lemma {:induction false} CountedJumps(atom: seq<Instr>, n: nat, greedy: bool)
    requires JumpsOk(atom) && NetDepth(atom) == 0
    ensures JumpsOk(CountedCode(atom, n, greedy))
  {
    hide JumpsOk;
    hide Length;
    hide NetDepth;
    hide Lands;
    hide Point;
    var len: int := Length(atom);
    var s, l := Split(!greedy, len + 5), Loop(-(len + 10));
    var loop := [s] + atom + [l];
    var code := CountedCode(atom, n, greedy);
    Around(s, atom, l, loop);
    LandsStart(loop);
    LandsEnd(loop, len + 10, 0);
    JumpsBetween(s, atom, l, loop);
    assert code == [PushI32(n)] + loop + [Drop];
    JumpsBetween(PushI32(n), loop, Drop, code);
  }

  lemma {:induction false} RepeatJumps(atom: seq<Instr>, n: nat)
    requires JumpsOk(atom) && NetDepth(atom) == 0
    ensures JumpsOk(RepeatCode(atom, n))
  {
    hide JumpsOk;
    hide Length;
    hide NetDepth;
    var len: int := Length(atom);
    var l := Loop(-(len + 5));
    var loop := atom + [l];
    var code := RepeatCode(atom, n);
    BackJump(atom, l);
    assert code == [PushI32(n)] + loop + [Drop];
    JumpsBetween(PushI32(n), loop, Drop, code);
  }

  lemma {:induction false} BackJump(atom: seq<Instr>, l: Instr)
    requires JumpsOk(atom) && NetDepth(atom) == 0 && l == Loop(-(Length(atom) as int + 5))
    ensures JumpsOk(atom + [l])
  {
    hide Length;
    hide NetDepth;
    hide Lands;
    hide Size;
    var code := atom + [l];
    LengthOne(l);
    LoopSize(l);
    LandsStart(code);
    assert code == [] + atom + [l];
    assert code[..|atom|] == atom && code[|atom|] == l;
    forall k: nat | k < |code|
      ensures JumpOk(code, k)
    {
      if k < |atom| {
        JumpsInside([], atom, [l], code, k);
      }
    }
  }

  lemma {:induction false} LoopSize(l: Instr)
    requires l.Loop?
    ensures Size(l) == 5
  {
  }

  lemma {:induction false} SimpleJumps(atom: seq<Instr>, min: nat, max: nat)
    requires JumpsOk(atom) && NetDepth(atom) == 0
    ensures JumpsOk(SimpleCode(atom, min, max))
  {
    hide JumpsOk;
    hide Length;
    hide NetDepth;
    hide Lands;
    hide Point;
    hide SimpleCount;
    var len: int := Length(atom);
    var i := SimpleGreedyQuant(len + 1, min, max, SimpleCount(atom));
    var code := SimpleCode(atom, min, max);
    Around(i, atom, Match, code);
    LandsEnd(code, len + 18, 0);
    JumpsBetween(i, atom, Match, code);
  }

  lemma {:induction false} MaybeJumps(atom: seq<Instr>, greedy: bool)
    requires JumpsOk(atom) && NetDepth(atom) == 0
    ensures JumpsOk([Split(!greedy, Length(atom))] + atom)
  {
    hide *;
    var s := Split(!greedy, Length(atom));
    var code := [s] + atom;
    LengthOne(s);
    SplitSize(!greedy, Length(atom));
    SplitEffect(!greedy, Length(atom));
    BytesAppend([s], atom);
    DepthOfSum([s], atom);
    LandsEnd(code, 5 + Length(atom), 0);
    NoCode();
    assert code == [s] + atom + [] && code == [] + [s] + atom;
    PointAfter([], s, atom, code);
    JumpLands(code, 0, 0, 0);
    forall k: nat | k < |code|
      ensures JumpOk(code, k)
    {
      if k > 0 {
        JumpsInside([s], atom, [], code, k);
      }
    }
    JumpsIntro(code);
  }

  lemma {:induction false} SplitEffect(gotoFirst: bool, off: int)
    ensures Effect(Split(gotoFirst, off)) == 0
  {
  }

  lemma {:induction false} LookJumps(body: seq<Instr>, negated: bool)
    requires JumpsOk(body) && NetDepth(body) == 0
    ensures JumpsOk(LookCode(body, negated))
  {
    hide JumpsOk;
    hide Length;
    hide NetDepth;
    hide Lands;
    hide Point;
    var i := Lookahead(negated, Length(body) + 1);
    var code := LookCode(body, negated);
    Around(i, body, Match, code);
    LandsEnd(code, Length(body) + 6, 0);
    JumpsBetween(i, body, Match, code);
  }

  lemma {:induction false} AltJumps(a: seq<Instr>, b: seq<Instr>)
    requires JumpsOk(a) && JumpsOk(b) && NetDepth(a) == 0 && NetDepth(b) == 0
    ensures JumpsOk(AltCode(a, b))
  {
    hide Length;
    hide NetDepth;
    hide Lands;
    hide Size;
    var s, g := Split(false, Length(a) + 5), Goto(Length(b));
    var front := [s] + a + [g];
    var code := AltCode(a, b);
    var n := 1 + |a|;
    AltEnds(a, b, s, g, front, code);
    assert code == [s] + a + ([g] + b) && code == front + b + [];
    forall k: nat | k < |code|
      ensures JumpOk(code, k)
    {
      if 0 < k < n {
        JumpsInside([s], a, [g] + b, code, k);
      } else if k > n {
        JumpsInside(front, b, [], code, k);
      }
    }
  }

  /** The split lands on the second alternative, the jump over it on the end. */
  lemma {:induction false} AltEnds(a: seq<Instr>, b: seq<Instr>, s: Instr, g: Instr, front: seq<Instr>,
          code: seq<Instr>)
    requires NetDepth(a) == 0 && NetDepth(b) == 0
    requires s == Split(false, Length(a) + 5) && g == Goto(Length(b))
    requires front == [s] + a + [g] && code == front + b
    ensures |code| > 1 + |a| && code[0] == s && code[1 + |a|] == g
    ensures JumpOk(code, 0) && JumpOk(code, 1 + |a|)
  {
    hide *;
    Around(s, a, g, front);
    AltSizes(s, g);
    BytesAppend(front, b);
    DepthOfSum(front, b);
    LandsEnd(front, Length(a) + 10, 0);
    NoCode();
    assert code == [] + front + b && code == [] + [s] + (a + [g] + b) && code == ([s] + a) + [g] + b;
    LandsInside([], front, b, code, Length(a) + 10, 0);
    LandsEnd(code, Length(a) + 10 + Length(b), 0);
    PointAfter([], s, a + [g] + b, code);
    PointAfter([s] + a, g, b, code);
    BytesAppend([s], a);
    DepthOfSum([s], a);
    LengthOne(s);
    JumpLands(code, 0, 0, 0);
    JumpLands(code, 1 + |a|, 5 + Length(a), 0);
  }

  lemma {:induction false} AltSizes(s: Instr, g: Instr)
    requires s.Split? && g.Goto?
    ensures Size(s) == 5 && Size(g) == 5 && Effect(s) == 0 && Effect(g) == 0
    ensures Offset(s) == s.off && Offset(g) == g.off
  {
  }

  lemma {:induction false} QuantJumps(atom: seq<Instr>, lo: nat, hi: nat, min: nat, max: nat, greedy: bool)
    requires min <= max && JumpsOk(atom) && NetDepth(atom) == 0
    ensures JumpsOk(QuantCode(atom, lo, hi, min, max, greedy))
  {
    hide JumpsOk;
    hide StarCode;
    hide CountedCode;
    hide RepeatCode;
    hide PlusCode;
    hide Length;
    hide NetDepth;
    hide SimpleCount;
    hide Advance;
    var check := greedy && Advance(atom) == 0;
    if greedy && max > 0 && SimpleCount(atom) > 0 {
      SimpleJumps(atom, min, max);
    } else {
      QuantCodeIs(atom, lo, hi, min, max, greedy, check);
      StarJumps(atom, greedy, check);
      NoJumps([]);
      if min == 0 {
        var reset := if lo != hi then [SaveReset(lo, hi - 1)] else [];
        NoJumps(reset);
        MaybeJumps(atom, greedy);
        CountedJumps(atom, max, greedy);
        JumpsAppend(reset, OptionalCode(atom, max, greedy, check));
      } else if min == 1 && max == INFINITE && !check {
        PlusJumps(atom, greedy);
      } else {
        RepeatJumps(atom, min);
        CountedJumps(atom, max - min, greedy);
        JumpsAppend(FirstCode(atom, min), MoreCode(atom, min, max, greedy, check));
      }
    }
  }

  /** Every jump in the code of a pattern lands on an instruction with the right depth. */
  lemma {:induction false} CodeJumps(f: Flags, p: Pattern, back: bool, cc: nat)
    requires Shaped(p)
    ensures JumpsOk(Code(f, p, back, cc))
  {
    hide JumpsOk;
    hide Length;
    hide NetDepth;
    hide AltCode;
    hide QuantCode;
    hide LookCode;
    match p
    case Concat(a, b) =>
      CodeJumps(f, a, back, cc);
      CodeJumps(f, b, back, cc + CapCount(a));
      JumpsAppend(Code(f, a, back, cc), Code(f, b, back, cc + CapCount(a)));
      JumpsAppend(Code(f, b, back, cc + CapCount(a)), Code(f, a, back, cc));
    case Alt(a, b) =>
      CodeJumps(f, a, back, cc);
      CodeJumps(f, b, back, cc + CapCount(a));
      CodeBalanced(f, a, back, cc);
      CodeBalanced(f, b, back, cc + CapCount(a));
      AltJumps(Code(f, a, back, cc), Code(f, b, back, cc + CapCount(a)));
    case Group(b) => CodeJumps(f, b, back, cc);
    case Capture(b) =>
      CodeJumps(f, b, back, cc + 1);
      NoJumps([Save(back, cc)]);
      NoJumps([Save(!back, cc)]);
      JumpsAppend([Save(back, cc)], Code(f, b, back, cc + 1));
      JumpsAppend([Save(back, cc)] + Code(f, b, back, cc + 1), [Save(!back, cc)]);
    case Look(b, negated, backward) =>
      CodeJumps(f, b, backward, cc);
      CodeBalanced(f, b, backward, cc);
      LookJumps(Code(f, b, backward, cc), negated);
    case Quant(a, min, max, greedy) =>
      CodeJumps(f, a, back, cc);
      CodeBalanced(f, a, back, cc);
      QuantJumps(Code(f, a, back, cc), cc, cc + CapCount(a), min, max, greedy);
    case _ => LeafJumps(f, p, back, cc);
  }

  lemma {:induction false} LeafJumps(f: Flags, p: Pattern, back: bool, cc: nat)
    requires Shaped(p) && (p.Empty? || IsCharPattern(p) || IsAssertion(p))
    ensures JumpsOk(Code(f, p, back, cc))
  {
    hide JumpsOk;
    NoJumps(Code(f, p, back, cc));
  }
}
