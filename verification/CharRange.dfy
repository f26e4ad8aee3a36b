/** Sets of code points kept in a growing buffer of boundary points, and the operations that
    merge, normalise and complement them. */
module CharRanges {
  import opened CharSets
  import opened ReClass

  const POINT_MAX := 0xffff_ffff

  datatype SetOp = Union | Inter | Xor

  predicate Combine(op: SetOp, x: bool, y: bool) {
    match op
    case Union => x || y
    case Inter => x && y
    case Xor => x != y
  }

  // ----- one step of the merge -----

  ghost predicate Below(s: seq<U32>, v: int) {
    forall i :: 0 <= i < |s| ==> s[i] <= v
  }

  /** out is the combination of the points taken so far, none of which is above v. */
  ghost predicate Merged(op: SetOp, a: seq<U32>, b: seq<U32>, out: seq<U32>, v: int) {
    && Below(a, v) && Below(b, v) && Below(out, v) && Sorted(out)
    && forall c: int :: Member(out, c) <==> Combine(op, Member(a, c), Member(b, c))
  }

  /** Above every point, being a member is having an odd number of points. */
  lemma {:induction false} MemberAbove(s: seq<U32>, c: int)
    requires Below(s, c)
    ensures Member(s, c) <==> |s| % 2 == 1
  {
    CountAll(s, c);
  }

  /** A further point changes nothing below itself. */
  lemma {:induction false} MemberUnder(s: seq<U32>, v: U32, c: int)
    requires c < v
    ensures Member(s + [v], c) <==> Member(s, c)
  {
    CountSnoc(s, v, c);
  }

  lemma {:induction false} BelowGrows(s: seq<U32>, t: seq<U32>, v0: int, v: U32)
    requires Below(s, v0) && v0 <= v && (t == s || t == s + [v])
    ensures Below(t, v)
    ensures Sorted(s) ==> Sorted(t)
    ensures forall c: int :: c < v ==> (Member(t, c) <==> Member(s, c))
  {
    forall c: int | c < v
      ensures Member(t, c) <==> Member(s, c)
    {
      MemberUnder(s, v, c);
    }
  }

  /** Adding a point exactly when the in/out status changes keeps the result combined. */
  lemma {:induction false} MergeStep(op: SetOp, a: seq<U32>, b: seq<U32>, out: seq<U32>, v0: int, a': seq<U32>,
          b': seq<U32>, out': seq<U32>, v: U32)
    requires Merged(op, a, b, out, v0) && v0 <= v
    requires a' == a || a' == a + [v]
    requires b' == b || b' == b + [v]
    requires out' == if Combine(op, |a'| % 2 == 1, |b'| % 2 == 1) != (|out| % 2 == 1) then out + [v] else out
    ensures Merged(op, a', b', out', v)
  {
    hide Combine, Member;
    BelowGrows(a, a', v0, v);
    BelowGrows(b, b', v0, v);
    BelowGrows(out, out', v0, v);
    forall c: int
      ensures Member(out', c) <==> Combine(op, Member(a', c), Member(b', c))
    {
      if c >= v {
        MemberAbove(a', c);
        MemberAbove(b', c);
        MemberAbove(out', c);
      }
    }
  }

  lemma {:induction false} MergeStart(op: SetOp, v: int)
    ensures Merged(op, [], [], [], v)
  {
  }

  /** Two even lists combine to an even list. */
  lemma {:induction false} MergeEven(op: SetOp, a: seq<U32>, b: seq<U32>, out: seq<U32>, v: int)
    requires Merged(op, a, b, out, v) && |a| % 2 == 0 && |b| % 2 == 0
    ensures |out| % 2 == 0
  {
    MemberAbove(a, v);
    MemberAbove(b, v);
    MemberAbove(out, v);
  }

  // ----- what the operations are -----

  /** What cr_op leaves for the operands a and b. */
  ghost predicate Result(op: SetOp, a: seq<U32>, b: seq<U32>, out: seq<U32>) {
    NormalSet(out) && forall c: int :: Member(out, c) <==> Combine(op, Member(a, c), Member(b, c))
  }

  /** The union has the members of either, the intersection those of both, and the symmetric
      difference those that lie in one and not in the other. */
  lemma {:induction false} OpMembers(a: seq<U32>, b: seq<U32>, out: seq<U32>, c: int)
    ensures Result(Union, a, b, out) ==> (Member(out, c) <==> Member(a, c) || Member(b, c))
    ensures Result(Inter, a, b, out) ==> (Member(out, c) <==> Member(a, c) && Member(b, c))
    ensures Result(Xor, a, b, out) ==>
              (Member(out, c) <==> (Member(a, c) && !Member(b, c)) || (Member(b, c) && !Member(a, c)))
  {
    hide Member;
  }

  /** Exchanging the operands gives the same points. */
  lemma {:induction false} OpCommutes(op: SetOp, a: seq<U32>, b: seq<U32>, s: seq<U32>, t: seq<U32>)
    requires Result(op, a, b, s) && Result(op, b, a, t)
    ensures s == t
  {
    hide Member;
    NormalUnique(s, t);
  }

  /** A second symmetric difference with the same operand gives back the normal form of the first. */
  lemma {:induction false} XorTwice(a: seq<U32>, b: seq<U32>, s: seq<U32>, t: seq<U32>, n: seq<U32>)
    requires Result(Xor, a, b, s) && Result(Xor, s, b, t) && NormalSet(n) && SameSet(n, a)
    ensures t == n
  {
    hide Member;
    forall c: int
      ensures Member(t, c) <==> Member(n, c)
    {
      OpMembers(a, b, s, c);
      OpMembers(s, b, t, c);
    }
    NormalUnique(t, n);
  }

  /** The symmetric difference of two lists is that of their union and their intersection: the union
      without the intersection. */
  lemma {:induction false} XorOfParts(a: seq<U32>, b: seq<U32>, u: seq<U32>, i: seq<U32>, s: seq<U32>, t: seq<U32>)
    requires Result(Union, a, b, u) && Result(Inter, a, b, i) && Result(Xor, a, b, s) && Result(Xor, u, i, t)
    ensures t == s
    ensures forall c: int :: Member(s, c) <==> Member(u, c) && !Member(i, c)
  {
    hide Member;
    forall c: int
      ensures Member(t, c) <==> Member(s, c)
      ensures Member(s, c) <==> Member(u, c) && !Member(i, c)
    {
      OpMembers(a, b, u, c);
      OpMembers(a, b, i, c);
      OpMembers(a, b, s, c);
      OpMembers(u, i, t, c);
    }
    NormalUnique(t, s);
  }

  // ----- normalising -----

  /** done is the normal form of the first i points of s. */
  ghost predicate Compressed(s: seq<U32>, i: nat, done: seq<U32>)
    requires i <= |s|
  {
    && NormalSet(done) && |done| <= i
    && SameSet(done, s[..i])
    && (|done| > 0 && i < |s| ==> done[|done| - 1] < s[i])
  }

  lemma {:induction false} CompressSkip(s: seq<U32>, i: nat, done: seq<U32>)
    requires i + 1 < |s| && Sorted(s) && Compressed(s, i, done) && s[i] == s[i + 1]
    ensures Compressed(s, i + 2, done)
  {
    hide Member;
    assert s[..i + 2] == s[..i] + [s[i]] + [s[i]] + [];
    DropPair(s[..i], s[i], []);
    assert s[..i] + [] == s[..i];
  }

  /** The points from i up to and including j + 1 are one interval. */
  ghost predicate OneInterval(s: seq<U32>, i: nat, j: nat)
    requires i <= j && j + 1 < |s|
  {
    SameSet([s[i], s[j + 1]], s[i..j + 2])
  }

  lemma {:induction false} IntervalStart(s: seq<U32>, i: nat)
    requires i + 1 < |s| && Sorted(s) && s[i] != s[i + 1]
    ensures OneInterval(s, i, i) && s[i] < s[i + 1]
  {
    assert s[i..i + 2] == [s[i], s[i + 1]];
  }

  lemma {:induction false} IntervalGrows(s: seq<U32>, i: nat, j: nat)
    requires i <= j && j + 3 < |s| && Sorted(s) && OneInterval(s, i, j) && s[j + 1] == s[j + 2]
    requires s[i] < s[j + 1]
    ensures OneInterval(s, i, j + 2) && s[i] < s[j + 3]
  {
    hide Member;
    var p, q, v := s[i..j + 2], s[j + 2..j + 4], s[j + 1];
    SameAppend([s[i], v], p, q, q);
    assert [s[i], v] + q == [s[i]] + [v] + [v] + [s[j + 3]];
    DropPair([s[i]], v, [s[j + 3]]);
    assert [s[i]] + [s[j + 3]] == [s[i], s[j + 3]];
    assert p + q == s[i..j + 4];
  }

  lemma {:induction false} CompressTake(s: seq<U32>, i: nat, j: nat, done: seq<U32>)
    requires i <= j && j + 1 < |s| && Sorted(s) && Compressed(s, i, done)
    requires OneInterval(s, i, j) && s[i] < s[j + 1]
    requires j + 2 < |s| ==> s[j + 1] != s[j + 2]
    ensures Compressed(s, j + 2, done + [s[i]] + [s[j + 1]])
  {
    hide Member;
    var p := [s[i], s[j + 1]];
    SameAppend(done, s[..i], p, s[i..j + 2]);
    assert s[..i] + s[i..j + 2] == s[..j + 2];
    assert done + p == done + [s[i]] + [s[j + 1]];
  }

  lemma {:induction false} CompressStart(s: seq<U32>)
    ensures Compressed(s, 0, [])
  {
    assert s[..0] == [];
  }

  lemma {:induction false} CompressEnd(s: seq<U32>, done: seq<U32>)
    requires Compressed(s, |s|, done)
    ensures NormalSet(done) && SameSet(done, s)
  {
    assert s[..|s|] == s;
  }

  function Half(n: nat): (h: nat)
    requires n % 2 == 0
    ensures n == 2 * h
  {
    n / 2
  }

  lemma {:induction false} TwiceEven(h: nat, n: nat)
    requires n == 2 * h
    ensures n % 2 == 0
  {
  }

  lemma {:induction false} MergedMembers(op: SetOp, a: seq<U32>, b: seq<U32>, out: seq<U32>, v: int)
    requires Merged(op, a, b, out, v)
    ensures Sorted(out)
    ensures forall c: int :: Member(out, c) <==> Combine(op, Member(a, c), Member(b, c))
  {
  }

  // ----- complement -----

  /** u has exactly the members that t lacks. */
  ghost predicate Complements(t: seq<U32>, u: seq<U32>) {
    forall c: int :: Member(u, c) <==> 0 <= c < 0xffff_ffff && !Member(t, c)
  }

  /** Framing a list by the least and the greatest point complements it. */
  lemma {:induction false} ComplementMembers(s: seq<U32>)
    requires Sorted(s) && |s| % 2 == 0
    ensures Sorted([0] + s + [POINT_MAX])
    ensures Complements(s, [0] + s + [POINT_MAX])
  {
    hide CountLe;
    forall c: int
      ensures Member([0] + s + [POINT_MAX], c) <==> 0 <= c < 0xffff_ffff && !Member(s, c)
    {
      CountSnoc([0] + s, POINT_MAX, c);
      CountAppend([0], s, c);
      CountHead([0], c);
      CountNone([], c);
      assert [0][1..] == [];
      if c < 0 {
        CountNone(s, c);
      } else if c >= POINT_MAX {
        CountAll(s, c);
      }
    }
  }

  lemma {:induction false} SameComplement(s: seq<U32>, t: seq<U32>, u: seq<U32>)
    requires SameSet(u, t) && Complements(s, t)
    ensures Complements(s, u)
  {
    hide Member;
  }

  lemma {:induction false} MemberRange(s: seq<U32>, c: int)
    requires |s| % 2 == 0 && Member(s, c)
    ensures 0 <= c < POINT_MAX
  {
    if c < 0 {
      CountNone(s, c);
    } else if c >= POINT_MAX {
      CountAll(s, c);
    }
  }

  /** On normal forms complementing twice gives back the same points. */
  lemma {:induction false} ComplementInvolution(s: seq<U32>, t: seq<U32>, u: seq<U32>)
    requires NormalSet(s) && NormalSet(u) && Complements(s, t) && Complements(t, u)
    ensures u == s
  {
    hide Member;
    forall c: int
      ensures Member(s, c) <==> Member(u, c)
    {
      if Member(s, c) {
        MemberRange(s, c);
      }
    }
    NormalUnique(s, u);
  }

  // ----- classes in bytecode -----

  /** The class instruction emitted for a normal list accepts exactly its members. */
  lemma {:induction false} ClassAcceptsMembers(s: seq<U32>, c: int)
    requires NormalSet(s) && |s| / 2 < MAX_RANGES && 0 <= c < POINT_MAX
    ensures RangeAccepts(RangeCode(s), c) <==> Member(s, c)
  {
    hide Member, RangeCode, RangeAccepts;
    ClassRoundTrip(s, c);
    MemberInterval(s, c);
  }

  // ----- folding letters -----

  const LOWER_FIRST := 97
  const LOWER_END := 123
  const CASE_SHIFT := 32

  predicate IsLower(c: int) {
    LOWER_FIRST <= c < LOWER_END
  }

  /** The two points of the interval of c1 up to and including c2. */
  lemma {:induction false} PairMembers(p: seq<U32>)
    requires |p| == 2 && p[0] <= p[1]
    ensures Sorted(p)
    ensures forall c: int :: Member(p, c) <==> p[0] <= c < p[1]
  {
    forall c: int
      ensures Member(p, c) <==> p[0] <= c < p[1]
    {
      CountHead(p, c);
      CountHead(p[1..], c);
      assert p[1..][1..] == [];
    }
  }

  lemma {:induction false} LastMember(s: seq<U32>)
    requires NormalSet(s) && |s| > 0
    ensures Member(s, (s[|s| - 1] as int) - 1)
  {
    var n := |s| - 1;
    var c: int := s[n];
    assert s[..n] + [s[n]] == s;
    CountSnoc(s[..n], s[n], c - 1);
    CountAll(s[..n], c - 1);
  }

  /** The points of a normal list stay within the bounds of its members. */
  lemma {:induction false} PointsWithin(s: seq<U32>, lo: int, hi: int)
    requires NormalSet(s) && forall c: int :: Member(s, c) ==> lo <= c < hi
    ensures forall i :: 0 <= i < |s| ==> lo <= s[i] <= hi
  {
    hide Member, CountLe;
    if |s| > 0 {
      FirstPoint(s);
      LastMember(s);
    }
  }

  /** Lowering every point by d shifts the set by d. */
  lemma {:induction false} ShiftedMembers(s: seq<U32>, t: seq<U32>, d: int, c: int)
    requires |t| == |s| && forall i :: 0 <= i < |s| ==> t[i] == s[i] - d
    ensures CountLe(t, c) == CountLe(s, c + d)
  {
    if |s| > 0 {
      ShiftedMembers(s[..|s| - 1], t[..|s| - 1], d, c);
    }
  }

  lemma {:induction false} ShiftedCase(s: seq<U32>, t: seq<U32>, c: int)
    requires |t| == |s| && forall i :: 0 <= i < |s| ==> t[i] == s[i] - CASE_SHIFT
    ensures Member(t, c) <==> Member(s, c + CASE_SHIFT)
  {
    ShiftedMembers(s, t, CASE_SHIFT, c);
  }

  class CharRange {
    var points: array<U32>
    var len: nat

    ghost predicate Valid()
      reads this
    {
      len <= points.Length
    }

    ghost function Contents(): (s: seq<U32>)
      requires Valid()
      reads this, points
    {
      points[..len]
    }

    constructor ()
      ensures Valid() && fresh(points) && Contents() == []
    {
      points := new U32[0];
      len := 0;
    }

    /** Room for size points; the contents stay. */
    method Realloc(size: nat)
      requires Valid()
      modifies this`points
      ensures Valid() && points.Length >= size
      ensures points == old(points) || fresh(points)
      ensures Contents() == old(Contents())
    {
      if size > points.Length {
        var newSize := if size > points.Length * 3 / 2 then size else points.Length * 3 / 2;
        var newBuf := new U32[newSize];
        var i := 0;
        while i < len
          invariant 0 <= i <= len <= points.Length <= newBuf.Length
          invariant newBuf[..i] == points[..i]
          modifies newBuf
        {
          newBuf[i] := points[i];
          i := i + 1;
        }
        assert newBuf[..len] == points[..len];
        points := newBuf;
      }
    }

    method AddPoint(v: U32)
      requires Valid()
      modifies this, points
      ensures Valid() && (points == old(points) || fresh(points))
      ensures Contents() == old(Contents()) + [v]
    {
      if len >= points.Length {
        Realloc(len + 1);
      }
      points[len] := v;
      len := len + 1;
    }

    method AddInterval(c1: U32, c2: U32)
      requires Valid()
      modifies this, points
      ensures Valid() && (points == old(points) || fresh(points))
      ensures Contents() == old(Contents()) + [c1] + [c2]
    {
      if len + 2 > points.Length {
        Realloc(len + 2);
      }
      points[len] := c1;
      len := len + 1;
      points[len] := c2;
      len := len + 1;
    }

    /** Where the interval that starts at i ends, touching intervals joined. */
    method IntervalEnd(i: nat, ghost s: seq<U32>, ghost half: nat) returns (j: nat, ghost steps: nat)
      requires Valid() && i + 1 < len == |s| && i == 2 * half && Sorted(s) && s[i] != s[i + 1]
      requires forall x :: i <= x < len ==> points[x] == s[x]
      ensures i <= j && j + 1 < len && j == 2 * steps
      ensures OneInterval(s, i, j) && s[i] < s[j + 1]
      ensures j + 3 < len ==> s[j + 1] != s[j + 2]
    {
      hide OneInterval, Sorted;
      j, steps := i, half;
      IntervalStart(s, i);
      while j + 3 < len && points[j + 1] == points[j + 2]
        invariant i <= j && j + 1 < len && j == 2 * steps
        invariant OneInterval(s, i, j) && s[i] < s[j + 1]
      {
        IntervalGrows(s, i, j);
        j, steps := j + 2, steps + 1;
      }
    }

    /** cr_compress: the normal form of a sorted list, in place. */
    method Compress()
      requires Valid() && len % 2 == 0 && Sorted(Contents())
      modifies this`len, points
      ensures Valid() && len <= old(len)
      ensures NormalSet(Contents()) && SameSet(Contents(), old(Contents()))
    {
      hide Member, SameSet, Compressed, OneInterval, Sorted, NormalSet;
      ghost var s := Contents();
      var i, k := 0, 0;
      ghost var half := 0;
      CompressStart(s);
      ghost var n := Half(|s|);
      assert points[..0] == [];
      while i + 1 < len
        invariant 0 <= k <= i <= len && i == 2 * half && len == |s| == old(len) == 2 * n
        invariant forall x :: i <= x < len ==> points[x] == s[x]
        invariant Compressed(s, i, points[..k])
      {
        ghost var done := points[..k];
        if points[i] == points[i + 1] {
          CompressSkip(s, i, done);
          i, half := i + 2, half + 1;
        } else {
          var j, steps := IntervalEnd(i, s, half);
          CompressTake(s, i, j, done);
          points[k] := points[i];
          points[k + 1] := points[j + 1];
          assert points[..k] == done;
          assert points[..k + 2] == points[..k] + [s[i]] + [s[j + 1]];
          k := k + 2;
          i, half := j + 2, steps + 1;
        }
      }
      CompressEnd(s, points[..k]);
      len := k;
    }

    /** cr_op: union, intersection or symmetric difference of two sorted lists. */
    method Op(a: array<U32>, aLen: nat, b: array<U32>, bLen: nat, op: SetOp)
      requires Valid() && len == 0 && points != a && points != b
      requires aLen <= a.Length && aLen % 2 == 0 && Sorted(a[..aLen])
      requires bLen <= b.Length && bLen % 2 == 0 && Sorted(b[..bLen])
      modifies this, points
      ensures Valid() && (points == old(points) || fresh(points))
      ensures NormalSet(Contents())
      ensures forall c: int :: Member(Contents(), c) <==> Combine(op, Member(a[..aLen], c), Member(b[..bLen], c))
    {
      hide Member, Combine, Merged;
      ghost var sa, sb := a[..aLen], b[..bLen];
      var aIdx, bIdx := 0, 0;
      ghost var last: U32 := 0;
      MergeStart(op, 0);
      assert sa[..0] == [] && sb[..0] == [] && Contents() == [];
      while aIdx < aLen || bIdx < bLen
        invariant Valid() && (points == old(points) || fresh(points)) && points != a && points != b
        invariant aIdx <= aLen && bIdx <= bLen && a[..aLen] == sa && b[..bLen] == sb
        invariant Merged(op, sa[..aIdx], sb[..bIdx], Contents(), last)
        invariant (aIdx < aLen ==> last <= sa[aIdx]) && (bIdx < bLen ==> last <= sb[bIdx])
        decreases aLen - aIdx + bLen - bIdx
      {
        ghost var a0, b0, out := sa[..aIdx], sb[..bIdx], Contents();
        var v: U32;
        if aIdx < aLen && bIdx < bLen {
          if a[aIdx] < b[bIdx] {
            v := a[aIdx];
            aIdx := aIdx + 1;
          } else if a[aIdx] == b[bIdx] {
            v := a[aIdx];
            aIdx := aIdx + 1;
            bIdx := bIdx + 1;
          } else {
            v := b[bIdx];
            bIdx := bIdx + 1;
          }
        } else if aIdx < aLen {
          v := a[aIdx];
          aIdx := aIdx + 1;
        } else {
          v := b[bIdx];
          bIdx := bIdx + 1;
        }
        var isIn := Combine(op, aIdx % 2 == 1, bIdx % 2 == 1);
        if isIn != (len % 2 == 1) {
          AddPoint(v);
        }
        MergeStep(op, a0, b0, out, last, sa[..aIdx], sb[..bIdx], Contents(), v);
        last := v;
      }
      assert sa[..aIdx] == sa && sb[..bIdx] == sb;
      MergeEven(op, sa, sb, Contents(), last);
      MergedMembers(op, sa, sb, Contents(), last);
      Compress();
    }

    /** cr_union1: the union with a further sorted list, into a new buffer. */
    method Union1(b: array<U32>, bLen: nat)
      requires Valid() && points != b && Sorted(Contents()) && len % 2 == 0
      requires bLen <= b.Length && bLen % 2 == 0 && Sorted(b[..bLen])
      modifies this
      ensures Valid() && fresh(points)
      ensures NormalSet(Contents())
      ensures forall c: int :: Member(Contents(), c) <==> Member(old(Contents()), c) || Member(b[..bLen], c)
    {
      hide Member;
      var a, aLen := points, len;
      len := 0;
      points := new U32[0];
      Op(a, aLen, b, bLen, Union);
    }

    /** memmove of the contents up by one place. */
    method MoveUp()
      requires len + 2 <= points.Length
      modifies points
      ensures points[1..len + 1] == old(points[..len])
    {
      var i := len;
      while i > 0
        invariant 0 <= i <= len
        invariant forall x :: 0 <= x < i ==> points[x] == old(points[x])
        invariant forall x :: i < x <= len ==> points[x] == old(points[x - 1])
      {
        points[i] := points[i - 1];
        i := i - 1;
      }
    }

    /** cr_invert: the complement within the code points below UINT32_MAX, in place. */
    method Invert()
      requires Valid() && Sorted(Contents()) && len % 2 == 0
      modifies this, points
      ensures Valid() && (points == old(points) || fresh(points))
      ensures NormalSet(Contents())
      ensures Complements(old(Contents()), Contents())
    {
      hide Member, NormalSet, Complements;
      ghost var s, h := Contents(), Half(len);
      Realloc(len + 2);
      MoveUp();
      points[0] := 0;
      points[len + 1] := POINT_MAX;
      len := len + 2;
      assert Contents() == [0] + s + [POINT_MAX] by {
        assert Contents() == [0] + points[1..len - 1] + [POINT_MAX];
      }
      ComplementMembers(s);
      ghost var t := Contents();
      TwiceEven(h + 1, len);
      Compress();
      SameComplement(s, t, Contents());
    }

    /** cr_union_interval: adds the code points from c1 up to and including c2. */
    method UnionInterval(c1: U32, c2: U32)
      requires Valid() && Sorted(Contents()) && len % 2 == 0
      requires c1 <= c2 < POINT_MAX
      modifies this
      ensures Valid() && fresh(points)
      ensures NormalSet(Contents())
      ensures forall c: int :: Member(Contents(), c) <==> Member(old(Contents()), c) || c1 <= c <= c2
    {
      hide Member, Sorted, NormalSet;
      var b := new U32[2];
      b[0] := c1;
      b[1] := c2 + 1;
      PairMembers(b[..2]);
      Union1(b, 2);
    }

    /** cr_canonicalize: adds the upper-case form of every lower-case letter in the set. */
    method Canonicalize()
      requires Valid() && Sorted(Contents()) && len % 2 == 0
      modifies this
      ensures Valid() && fresh(points)
      ensures NormalSet(Contents())
      ensures forall c: int ::
                Member(Contents(), c) <==>
                Member(old(Contents()), c)
                || ('A' as int <= c <= 'Z' as int && Member(old(Contents()), c - 'A' as int + 'a' as int))
    {
      hide Member, Sorted, NormalSet;
      var pt := new U32[2];
      pt[0] := LOWER_FIRST;
      pt[1] := LOWER_END;
      PairMembers(pt[..2]);
      var a := new CharRange();
      a.Op(points, len, pt, 2, Inter);
      a.LowerPoints();
      Union1(a.points, a.len);
    }

    /** Moves a set of lower-case letters to the upper-case ones. */
    method LowerPoints()
      requires Valid() && NormalSet(Contents())
      requires forall c: int :: Member(Contents(), c) ==> IsLower(c)
      modifies points
      ensures Sorted(Contents()) && len % 2 == 0
      ensures forall c: int :: Member(Contents(), c) <==> Member(old(Contents()), c + CASE_SHIFT)
    {
      hide Member, CountLe;
      ghost var t := Contents();
      PointsWithin(t, LOWER_FIRST, LOWER_END);
      var i := 0;
      while i < len
        invariant 0 <= i <= len
        invariant forall x :: 0 <= x < i ==> points[x] == t[x] - CASE_SHIFT
        invariant forall x :: i <= x < len ==> points[x] == t[x]
        modifies points
      {
        points[i] := points[i] - CASE_SHIFT;
        i := i + 1;
      }
      forall c: int
        ensures Member(Contents(), c) <==> Member(t, c + CASE_SHIFT)
      {
        ShiftedCase(t, Contents(), c);
      }
    }
  }
}
