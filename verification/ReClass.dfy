/** Character classes in bytecode: how a set of code points becomes a table of intervals, and
    how the machine searches the table. */
module ReClass {
  import opened ReOpcode
  import opened RePattern

  /** Strictly increasing. */
  predicate Strict(points: seq<int>) {
    forall i, j :: 0 <= i < j < |points| ==> points[i] < points[j]
  }

  /** A set in normal form: strictly increasing boundary points, an even number of them.
      UINT32_MAX as the last point stands for "no upper end". */
  ghost predicate NormalSet(points: seq<int>) {
    && |points| % 2 == 0
    && (forall i :: 0 <= i < |points| ==> IsU32(points[i]))
    && Strict(points)
  }

  const MAX_RANGES := 65535

  // ----- the table -----

  /** Last characters of the intervals, cut to 16 bits with 0xffff for "no upper end". */
  function High16(p: int): int {
    var high := p - 1;
    if high == UINT32_MAX - 1 then 0xffff else high
  }

  function Table16(points: seq<int>): (pairs: seq<(int, int)>)
    requires |points| % 2 == 0
    ensures |pairs| == |points| / 2
    ensures forall k :: 0 <= k < |pairs| ==> pairs[k] == (points[2 * k], High16(points[2 * k + 1]))
  {
    if |points| == 0 then []
    else
      var rest := Table16(points[2..]);
      assert forall k :: 0 <= k < |rest| ==> rest[k] == (points[2 * (k + 1)], High16(points[2 * (k + 1) + 1]));
      [(points[0], High16(points[1]))] + rest
  }

  function Table32(points: seq<int>): (pairs: seq<(int, int)>)
    requires |points| % 2 == 0
    ensures |pairs| == |points| / 2
    ensures forall k :: 0 <= k < |pairs| ==> pairs[k] == (points[2 * k], points[2 * k + 1] - 1)
  {
    if |points| == 0 then []
    else
      var rest := Table32(points[2..]);
      assert forall k :: 0 <= k < |rest| ==> rest[k] == (points[2 * (k + 1)], points[2 * (k + 1) + 1] - 1);
      [(points[0], points[1] - 1)] + rest
  }

  /** The largest point that has to be represented. */
  function HighestPoint(points: seq<int>): int
    requires |points| >= 2
  {
    var high := points[|points| - 1];
    if high == UINT32_MAX then points[|points| - 2] else high
  }

  /** re_emit_range: a never-matching character for the empty set, else a table in 16 or 32 bits. */
  function RangeCode(points: seq<int>): Instr
    requires |points| % 2 == 0
  {
    if |points| == 0 then Char32(UINT32_MAX)
    else if HighestPoint(points) <= 0xffff then Range(Table16(points))
    else Range32(Table32(points))
  }

  // ----- the search -----

  /** Bisection between the entries lo and hi. */
  function Bisect(pairs: seq<(int, int)>, c: int, lo: nat, hi: int): bool
    requires -1 <= hi < |pairs| && |pairs| > 0 && pairs[0].0 <= c
    decreases hi - lo + 1
  {
    if lo > hi then false
    else
      var idx := (lo + hi) / 2;
      if c < pairs[idx].0 then Bisect(pairs, c, lo, idx - 1)
      else if c > pairs[idx].1 then Bisect(pairs, c, idx + 1, hi)
      else true
  }

  /** What REOP_range accepts: 0xffff as the last end means no upper end. */
  function Accepts16(pairs: seq<(int, int)>, c: int): bool {
    if |pairs| == 0 || c < pairs[0].0 then false
    else
      var high := pairs[|pairs| - 1].1;
      if c >= 0xffff && high == 0xffff then true
      else c <= high && Bisect(pairs, c, 0, |pairs| - 1)
  }

  /** What REOP_range32 accepts. */
  function Accepts32(pairs: seq<(int, int)>, c: int): bool {
    if |pairs| == 0 || c < pairs[0].0 then false
    else c <= pairs[|pairs| - 1].1 && Bisect(pairs, c, 0, |pairs| - 1)
  }

  ghost predicate InPairs(pairs: seq<(int, int)>, c: int, lo: int, hi: int) {
    exists k :: 0 <= k < |pairs| && lo <= k <= hi && pairs[k].0 <= c <= pairs[k].1
  }

  /** Intervals in increasing order, none empty. */
  ghost predicate SortedPairs(pairs: seq<(int, int)>) {
    && (forall k :: 0 <= k < |pairs| ==> pairs[k].0 <= pairs[k].1)
    && (forall j, k :: 0 <= j < k < |pairs| ==> pairs[j].1 < pairs[k].0)
  }

  /** On a sorted table bisection finds c exactly when some interval holds it. */
  lemma {:induction false} BisectFinds(pairs: seq<(int, int)>, c: int, lo: nat, hi: int)
    requires SortedPairs(pairs)
    requires -1 <= hi < |pairs| && |pairs| > 0 && pairs[0].0 <= c
    ensures Bisect(pairs, c, lo, hi) <==> InPairs(pairs, c, lo, hi)
    decreases hi - lo + 1
  {
    if lo <= hi {
      var idx := (lo + hi) / 2;
      if c < pairs[idx].0 {
        BisectFinds(pairs, c, lo, idx - 1);
        assert forall k :: idx < k < |pairs| ==> pairs[idx].1 < pairs[k].0;
      } else if c > pairs[idx].1 {
        BisectFinds(pairs, c, idx + 1, hi);
        assert forall k :: 0 <= k < idx ==> pairs[k].1 < pairs[idx].0;
      }
    }
  }

  // ----- the round trip -----

  /** What the machine accepts for a class instruction. */
  function RangeAccepts(i: Instr, c: int): bool
    requires i.Char32? || i.Range? || i.Range32?
  {
    match i
    case Char32(v) => c == v
    case Range(pairs) => Accepts16(pairs, c)
    case Range32(pairs) => Accepts32(pairs, c)
  }

  lemma {:induction false} NormalInterval(points: seq<int>, k: nat)
    requires NormalSet(points) && 2 * k + 1 < |points|
    ensures 0 <= points[2 * k] < points[2 * k + 1] <= UINT32_MAX
    ensures 2 * k + 2 < |points| ==> points[2 * k + 1] < points[2 * k + 2]
  {
  }

  lemma {:induction false} Table32Sorted(points: seq<int>)
    requires NormalSet(points)
    ensures SortedPairs(Table32(points))
  {
    var t := Table32(points);
    forall k | 0 <= k < |t| ensures t[k].0 <= t[k].1 { NormalInterval(points, k); }
    forall j, k | 0 <= j < k < |t| ensures t[j].1 < t[k].0 {
      assert points[2 * j + 1] < points[2 * k];
    }
  }

  /** In the 16-bit form only the last end can stand for "no upper end". */
  lemma {:induction false} Small(points: seq<int>, i: nat)
    requires NormalSet(points) && |points| > 0 && HighestPoint(points) <= 0xffff && i < |points|
    ensures points[i] <= 0xffff || (i == |points| - 1 && points[i] == UINT32_MAX)
  {
    var n := |points|;
    if i < n - 1 {
      if points[n - 1] == UINT32_MAX {
        assert i < n - 2 ==> points[i] < points[n - 2];
      } else {
        assert points[i] < points[n - 1];
      }
    }
  }

  lemma {:induction false} Table16Entry(points: seq<int>, k: nat)
    requires NormalSet(points) && |points| > 0 && HighestPoint(points) <= 0xffff && k < |points| / 2
    ensures points[2 * k] <= High16(points[2 * k + 1])
    ensures IsU16(points[2 * k]) && IsU16(High16(points[2 * k + 1]))
    ensures 2 * k + 2 < |points| ==> High16(points[2 * k + 1]) == points[2 * k + 1] - 1
  {
    NormalInterval(points, k);
    Small(points, 2 * k);
    Small(points, 2 * k + 1);
  }

  lemma {:induction false} Table16Sorted(points: seq<int>)
    requires NormalSet(points) && |points| > 0 && HighestPoint(points) <= 0xffff
    ensures SortedPairs(Table16(points))
    ensures forall k :: 0 <= k < |points| / 2 ==> IsU16(points[2 * k]) && IsU16(High16(points[2 * k + 1]))
  {
    hide High16;
    hide HighestPoint;
    var t := Table16(points);
    forall k | 0 <= k < |t|
      ensures t[k].0 <= t[k].1 && IsU16(t[k].0) && IsU16(t[k].1)
    {
      Table16Entry(points, k);
    }
    forall j, k | 0 <= j < k < |t| ensures t[j].1 < t[k].0 {
      Table16Entry(points, j);
      assert points[2 * j + 1] < points[2 * k];
    }
  }

  /** The instruction emitted for a normal set accepts exactly the members of the set, for every
      code point; the empty set accepts nothing. */
  lemma {:induction false} ClassRoundTrip(points: seq<int>, c: int)
    requires NormalSet(points) && |points| / 2 < MAX_RANGES
    requires 0 <= c < UINT32_MAX
    ensures Encodable(RangeCode(points))
    ensures RangeAccepts(RangeCode(points), c) <==> InSet(points, c)
  {
    if |points| > 0 {
      if HighestPoint(points) <= 0xffff {
        Narrow(points, c);
      } else {
        Wide(points, c);
      }
    }
  }

  /** Search of a sorted table, without the 16-bit exception. */
  lemma {:induction false} AcceptsSorted(t: seq<(int, int)>, c: int)
    requires SortedPairs(t) && |t| > 0
    ensures Accepts32(t, c) <==> InPairs(t, c, 0, |t| - 1)
    ensures Accepts16(t, c) <==>
            (t[0].0 <= c && c >= 0xffff && t[|t| - 1].1 == 0xffff) || InPairs(t, c, 0, |t| - 1)
  {
    hide Bisect;
    if t[0].0 <= c {
      BisectFinds(t, c, 0, |t| - 1);
    }
    if InPairs(t, c, 0, |t| - 1) {
      var k :| 0 <= k < |t| && t[k].0 <= c <= t[k].1;
      assert k == 0 || t[0].1 < t[k].0;
      assert k == |t| - 1 || t[k].1 < t[|t| - 1].0;
    }
  }

  lemma {:induction false} Wide(points: seq<int>, c: int)
    requires NormalSet(points) && 0 < |points| / 2 < MAX_RANGES && 0 <= c < UINT32_MAX
    ensures Encodable(Range32(Table32(points)))
    ensures Accepts32(Table32(points), c) <==> InSet(points, c)
  {
    var t := Table32(points);
    Table32Sorted(points);
    forall k | 0 <= k < |t| ensures IsU32(t[k].0) && IsU32(t[k].1) { NormalInterval(points, k); }
    AcceptsSorted(t, c);
    hide Accepts32;
    WideSet(points, t, c);
  }

  lemma {:induction false} WideSet(points: seq<int>, t: seq<(int, int)>, c: int)
    requires |points| % 2 == 0 && t == Table32(points)
    ensures InSet(points, c) <==> InPairs(t, c, 0, |t| - 1)
  {
    hide Table32;
    if InSet(points, c) {
      var i :| 0 <= 2 * i && 2 * i + 1 < |points| && InInterval(points, i, c);
      assert t[i].0 <= c <= t[i].1;
    }
    if InPairs(t, c, 0, |t| - 1) {
      var k :| 0 <= k < |t| && t[k].0 <= c <= t[k].1;
      assert InInterval(points, k, c);
    }
  }

  lemma {:induction false} Narrow(points: seq<int>, c: int)
    requires NormalSet(points) && 0 < |points| / 2 < MAX_RANGES && 0 <= c < UINT32_MAX
    requires HighestPoint(points) <= 0xffff
    ensures Encodable(Range(Table16(points)))
    ensures Accepts16(Table16(points), c) <==> InSet(points, c)
  {
    var t := Table16(points);
    Table16Sorted(points);
    AcceptsSorted(t, c);
    NarrowEncodable(points);
    hide Accepts16;
    hide Encodable;
    NarrowSet(points, t, c);
  }

  lemma {:induction false} NarrowEncodable(points: seq<int>)
    requires NormalSet(points) && 0 < |points| / 2 < MAX_RANGES && HighestPoint(points) <= 0xffff
    ensures Encodable(Range(Table16(points)))
  {
    hide Table16;
    Table16Sorted(points);
  }

  lemma {:induction false} NarrowMember(points: seq<int>, t: seq<(int, int)>, c: int)
    requires NormalSet(points) && |points| > 0 && HighestPoint(points) <= 0xffff && 0 <= c < UINT32_MAX
    requires t == Table16(points) && InSet(points, c)
    ensures (t[0].0 <= c && c >= 0xffff && t[|t| - 1].1 == 0xffff) || InPairs(t, c, 0, |t| - 1)
  {
    hide HighestPoint;
    hide Table16;
    var i :| 0 <= 2 * i && 2 * i + 1 < |points| && InInterval(points, i, c);
    Small(points, 2 * i + 1);
    assert points[0] <= points[2 * i];
    assert t[i] == (points[2 * i], High16(points[2 * i + 1]));
  }

  lemma {:induction false} NarrowSet(points: seq<int>, t: seq<(int, int)>, c: int)
    requires NormalSet(points) && |points| > 0 && HighestPoint(points) <= 0xffff && 0 <= c < UINT32_MAX
    requires t == Table16(points)
    ensures InSet(points, c) <==>
            (t[0].0 <= c && c >= 0xffff && t[|t| - 1].1 == 0xffff) || InPairs(t, c, 0, |t| - 1)
  {
    hide Table16;
    var n := |t|;
    Small(points, |points| - 1);
    if InSet(points, c) {
      NarrowMember(points, t, c);
    }
    hide NormalSet;
    if t[0].0 <= c && c >= 0xffff && t[n - 1].1 == 0xffff {
      Small(points, 2 * n - 2);
      assert InInterval(points, n - 1, c);
    }
    if InPairs(t, c, 0, n - 1) {
      var k :| 0 <= k < n && t[k].0 <= c <= t[k].1;
      Small(points, 2 * k + 1);
      assert InInterval(points, k, c);
    }
  }

  // ----- the loops of the machine -----

  /** Arithmetic of unsigned 32-bit words. */
  function Wrap32(v: int): (r: int)
    ensures 0 <= v < 0x1_0000_0000 ==> r == v
  {
    v % 0x1_0000_0000
  }

  /** The bisection loop, with the index arithmetic of 32-bit words: the decrement of an index
      never wraps, because an index of 0 cannot have a larger first character. */
  method SearchTable(pairs: seq<(int, int)>, c: int) returns (found: bool)
    requires 0 < |pairs| <= 0xffff && pairs[0].0 <= c
    ensures found == Bisect(pairs, c, 0, |pairs| - 1)
  {
    hide Wrap32;
    var idxMin, idxMax := 0, |pairs| - 1;
    while idxMin <= idxMax
      invariant 0 <= idxMin <= 0xffff && -1 <= idxMax < |pairs|
      invariant Bisect(pairs, c, 0, |pairs| - 1) == Bisect(pairs, c, idxMin, idxMax)
      decreases idxMax - idxMin + 1
    {
      var idx := (idxMin + idxMax) / 2;
      if c < pairs[idx].0 {
        idxMax := Wrap32(idx - 1);
      } else if c > pairs[idx].1 {
        idxMin := Wrap32(idx + 1);
      } else {
        return true;
      }
    }
    return false;
  }

  method MatchRange(pairs: seq<(int, int)>, c: int) returns (b: bool)
    requires |pairs| <= 0xffff
    ensures b == Accepts16(pairs, c)
  {
    if |pairs| == 0 || c < pairs[0].0 { return false; }
    var high := pairs[|pairs| - 1].1;
    if c >= 0xffff && high == 0xffff { return true; }
    if c > high { return false; }
    b := SearchTable(pairs, c);
  }

  method MatchRange32(pairs: seq<(int, int)>, c: int) returns (b: bool)
    requires |pairs| <= 0xffff
    ensures b == Accepts32(pairs, c)
  {
    if |pairs| == 0 || c < pairs[0].0 { return false; }
    if c > pairs[|pairs| - 1].1 { return false; }
    b := SearchTable(pairs, c);
  }
}
