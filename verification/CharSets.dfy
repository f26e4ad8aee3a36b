/** Sets of code points as sorted lists of boundary points: c is in the set when an odd number of
    points is not above it. */
module CharSets {
  import opened RePattern
  import opened ReClass

  type U32 = x: int | 0 <= x <= 0xffff_ffff

  predicate Sorted(s: seq<U32>) {
    forall i, j :: 0 <= i < j < |s| ==> s[i] <= s[j]
  }

  /** How many points are not above c. */
  function CountLe(s: seq<U32>, c: int): (n: nat)
    ensures n <= |s|
  {
    if |s| == 0 then 0 else CountLe(s[..|s| - 1], c) + if s[|s| - 1] <= c then 1 else 0
  }

  predicate Member(s: seq<U32>, c: int) {
    CountLe(s, c) % 2 == 1
  }

  lemma {:induction false} CountSnoc(s: seq<U32>, v: U32, c: int)
    ensures CountLe(s + [v], c) == CountLe(s, c) + if v <= c then 1 else 0
  {
    assert (s + [v])[..|s|] == s;
  }

  lemma {:induction false} CountAppend(s: seq<U32>, t: seq<U32>, c: int)
    ensures CountLe(s + t, c) == CountLe(s, c) + CountLe(t, c)
    decreases |t|
  {
    if |t| == 0 {
      assert s + t == s;
    } else {
      var n := |t| - 1;
      assert (s + t)[..|s + t| - 1] == s + t[..n];
      CountAppend(s, t[..n], c);
    }
  }

  lemma {:induction false} CountAll(s: seq<U32>, c: int)
    requires forall i :: 0 <= i < |s| ==> s[i] <= c
    ensures CountLe(s, c) == |s|
  {
    if |s| > 0 {
      CountAll(s[..|s| - 1], c);
    }
  }

  lemma {:induction false} CountNone(s: seq<U32>, c: int)
    requires forall i :: 0 <= i < |s| ==> s[i] > c
    ensures CountLe(s, c) == 0
  {
    if |s| > 0 {
      CountNone(s[..|s| - 1], c);
    }
  }

  // ----- the normal form is unique -----

  lemma {:induction false} CountHead(s: seq<U32>, c: int)
    requires |s| > 0
    ensures CountLe(s, c) == (if s[0] <= c then 1 else 0) + CountLe(s[1..], c)
  {
    assert s == [s[0]] + s[1..];
    CountAppend([s[0]], s[1..], c);
    assert [s[0]][..0] == [];
  }

  /** A strictly increasing list is determined by its members. */
  lemma {:induction false} NormalUnique(s: seq<U32>, t: seq<U32>)
    requires Strict(s) && Strict(t) && forall c :: Member(s, c) <==> Member(t, c)
    ensures s == t
    decreases |s| + |t|
  {
    hide CountLe;
    if |s| == 0 && |t| == 0 {
    } else if |s| == 0 || (|t| > 0 && t[0] < s[0]) {
      FirstPoint(t);
      NothingBelow(s, t[0]);
      assert false;
    } else if |t| == 0 || s[0] < t[0] {
      FirstPoint(s);
      NothingBelow(t, s[0]);
      assert false;
    } else {
      forall c
        ensures Member(s[1..], c) <==> Member(t[1..], c)
      {
        CountHead(s, c);
        CountHead(t, c);
        assert Member(s, c) <==> Member(t, c);
      }
      NormalUnique(s[1..], t[1..]);
      assert s == [s[0]] + s[1..] && t == [t[0]] + t[1..];
    }
  }

  lemma {:induction false} FirstPoint(s: seq<U32>)
    requires Strict(s) && |s| > 0
    ensures Member(s, s[0])
  {
    CountHead(s, s[0]);
    CountNone(s[1..], s[0]);
  }

  lemma {:induction false} NothingBelow(s: seq<U32>, c: int)
    requires Strict(s) && (|s| == 0 || c < s[0])
    ensures !Member(s, c)
  {
    CountNone(s, c);
  }

  // ----- the two readings of a set agree -----

  /** Whether c lies in the last interval or in one of those before it. */
  lemma {:induction false} InSetSnoc(s: seq<U32>, c: int)
    requires |s| % 2 == 0 && |s| >= 2
    ensures InSet(s, c) <==> InSet(s[..|s| - 2], c) || s[|s| - 2] <= c < s[|s| - 1]
  {
    var n := |s| - 2;
    var t := s[..n];
    if InSet(s, c) {
      var i :| 0 <= 2 * i && 2 * i + 1 < |s| && InInterval(s, i, c);
      assert 2 * i < n ==> InInterval(t, i, c);
    }
    if InSet(t, c) {
      var i :| 0 <= 2 * i && 2 * i + 1 < |t| && InInterval(t, i, c);
      assert InInterval(s, i, c);
    }
    assert s[n] <= c < s[n + 1] ==> InInterval(s, n / 2, c);
  }

  lemma {:induction false} NotInSetBelow(s: seq<U32>, c: int)
    requires |s| % 2 == 0 && forall i :: 0 <= i < |s| ==> s[i] <= c
    ensures !InSet(s, c)
  {
  }

  /** For a sorted set, membership is lying in one of its intervals. */
  lemma {:induction false} MemberInterval(s: seq<U32>, c: int)
    requires Sorted(s) && |s| % 2 == 0
    ensures Member(s, c) <==> InSet(s, c)
    decreases |s|
  {
    hide CountLe, InSet;
    if |s| == 0 {
      CountNone(s, c);
      NotInSetBelow(s, c);
    } else {
      var n := |s| - 2;
      var t := s[..n];
      assert s == (t + [s[n]]) + [s[n + 1]];
      CountSnoc(t + [s[n]], s[n + 1], c);
      CountSnoc(t, s[n], c);
      MemberInterval(t, c);
      InSetSnoc(s, c);
      if s[n] <= c {
        assert forall i :: 0 <= i < |t| ==> t[i] <= s[n];
        CountAll(t, c);
        NotInSetBelow(t, c);
      }
    }
  }

  // ----- lists with the same members -----

  ghost predicate SameSet(s: seq<U32>, t: seq<U32>) {
    forall c: int :: Member(s, c) <==> Member(t, c)
  }

  lemma {:induction false} SameAppend(s: seq<U32>, s': seq<U32>, t: seq<U32>, t': seq<U32>)
    requires SameSet(s, s') && SameSet(t, t')
    ensures SameSet(s + t, s' + t')
  {
    hide CountLe;
    forall c: int
      ensures Member(s + t, c) <==> Member(s' + t', c)
    {
      CountAppend(s, t, c);
      CountAppend(s', t', c);
      assert Member(s, c) <==> Member(s', c);
      assert Member(t, c) <==> Member(t', c);
    }
  }

  /** A point listed twice in a row changes nothing. */
  lemma {:induction false} DropPair(s: seq<U32>, v: U32, t: seq<U32>)
    ensures SameSet(s + [v] + [v] + t, s + t)
  {
    hide CountLe;
    forall c: int
      ensures Member(s + [v] + [v] + t, c) <==> Member(s + t, c)
    {
      CountAppend(s + [v] + [v], t, c);
      CountSnoc(s + [v], v, c);
      CountSnoc(s, v, c);
      CountAppend(s, t, c);
    }
  }
}
