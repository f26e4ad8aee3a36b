/** What a comparison function and a sort promise: total preorders, ordered sequences, and
    rearrangements confined to a range. */
module SortSpec {
  /** The comparison returns a negative number, zero or a positive number for before, equal or
      after, consistently. */
  ghost predicate TotalPreorder<T(!new)>(cmp: (T, T) -> int) {
    && (forall x: T, y: T :: cmp(x, y) > 0 <==> cmp(y, x) < 0)
    && (forall x: T, y: T, z: T :: cmp(x, y) <= 0 && cmp(y, z) <= 0 ==> cmp(x, z) <= 0)
  }

  lemma {:induction false} CmpFlip<T(!new)>(cmp: (T, T) -> int, x: T, y: T)
    requires TotalPreorder(cmp)
    ensures cmp(x, y) > 0 <==> cmp(y, x) < 0
    ensures cmp(x, y) == 0 <==> cmp(y, x) == 0
  {
    assert cmp(x, y) > 0 <==> cmp(y, x) < 0;
    assert cmp(y, x) > 0 <==> cmp(x, y) < 0;
  }

  lemma {:induction false} CmpTrans<T(!new)>(cmp: (T, T) -> int, x: T, y: T, z: T)
    requires TotalPreorder(cmp)
    requires cmp(x, y) <= 0 && cmp(y, z) <= 0
    ensures cmp(x, z) <= 0
  {
  }

  lemma {:induction false} CmpSelf<T(!new)>(cmp: (T, T) -> int, x: T)
    requires TotalPreorder(cmp)
    ensures cmp(x, x) == 0
  {
    CmpFlip(cmp, x, x);
  }

  ghost predicate OrderedIn<T>(cmp: (T, T) -> int, s: seq<T>, lo: nat, hi: nat)
    requires lo <= hi <= |s|
  {
    forall i, j :: lo <= i < j < hi ==> cmp(s[i], s[j]) <= 0
  }

  /** Every element of the first range is not after any element of the second. */
  ghost predicate Before<T>(cmp: (T, T) -> int, s: seq<T>, a: nat, b: nat, c: nat, d: nat)
    requires a <= b <= |s| && c <= d <= |s|
  {
    forall i, j :: a <= i < b && c <= j < d ==> cmp(s[i], s[j]) <= 0
  }

  function Swapped<T>(s: seq<T>, i: nat, j: nat): (t: seq<T>)
    requires i < |s| && j < |s|
    ensures |t| == |s|
  {
    s[i := s[j]][j := s[i]]
  }

  /** t is s with the elements from lo to hi rearranged. */
  ghost predicate Shuffled<T>(s: seq<T>, t: seq<T>, lo: nat, hi: nat) {
    && |s| == |t| && lo <= hi <= |s|
    && s[..lo] == t[..lo] && s[hi..] == t[hi..]
    && multiset(s[lo..hi]) == multiset(t[lo..hi])
  }

  lemma {:induction false} ShuffledSelf<T>(s: seq<T>, lo: nat, hi: nat)
    requires lo <= hi <= |s|
    ensures Shuffled(s, s, lo, hi)
  {
  }

  lemma {:induction false} ShuffledTrans<T>(s: seq<T>, t: seq<T>, u: seq<T>, lo: nat, hi: nat)
    requires Shuffled(s, t, lo, hi) && Shuffled(t, u, lo, hi)
    ensures Shuffled(s, u, lo, hi)
  {
  }

  lemma {:induction false} ShuffledSwap<T>(s: seq<T>, i: nat, j: nat, lo: nat, hi: nat)
    requires lo <= i < hi <= |s| && lo <= j < hi
    ensures Shuffled(s, Swapped(s, i, j), lo, hi)
  {
    var t := Swapped(s, i, j);
    var p := s[lo..hi];
    assert t[lo..hi] == p[i - lo := s[j]][j - lo := s[i]];
    assert t[..lo] == s[..lo] && t[hi..] == s[hi..];
    assert p[i - lo] == s[i] && p[i - lo := s[j]][j - lo] == s[j];
  }

  lemma {:induction false} ShuffledWiden<T>(s: seq<T>, t: seq<T>, lo: nat, hi: nat, lo': nat, hi': nat)
    requires Shuffled(s, t, lo, hi) && lo' <= lo && hi <= hi' <= |s|
    ensures Shuffled(s, t, lo', hi')
  {
    assert s[lo'..lo] == s[..lo][lo'..] == t[lo'..lo];
    assert s[hi..hi'] == s[hi..][..hi' - hi] == t[hi..hi'];
    assert s[lo'..hi'] == s[lo'..lo] + s[lo..hi] + s[hi..hi'];
    assert t[lo'..hi'] == t[lo'..lo] + t[lo..hi] + t[hi..hi'];
    assert s[..lo'] == s[..lo][..lo'] == t[..lo'];
    assert s[hi'..] == s[hi..][hi' - hi..] == t[hi'..];
  }

  /** A rearranged element was already in the range. */
  lemma {:induction false} ShuffledFrom<T>(s: seq<T>, t: seq<T>, lo: nat, hi: nat, k: nat) returns (k': nat)
    requires Shuffled(s, t, lo, hi) && lo <= k < hi
    ensures lo <= k' < hi && t[k] == s[k']
  {
    assert t[lo..hi][k - lo] == t[k];
    assert t[k] in multiset(t[lo..hi]);
    assert t[k] in s[lo..hi];
    var j :| 0 <= j < |s[lo..hi]| && s[lo..hi][j] == t[k];
    k' := lo + j;
  }

  lemma {:induction false} ShuffledOutside<T>(s: seq<T>, t: seq<T>, lo: nat, hi: nat, k: nat)
    requires Shuffled(s, t, lo, hi) && k < |s| && (k < lo || k >= hi)
    ensures t[k] == s[k]
  {
    if k < lo {
      assert s[..lo][k] == t[..lo][k];
    } else {
      assert s[hi..][k - hi] == t[hi..][k - hi];
    }
  }

  /** Exchanges two elements of the range from lo to hi. */
  method Swap<T>(a: array<T>, i: nat, j: nat, ghost lo: nat, ghost hi: nat)
    requires lo <= i < hi <= a.Length && lo <= j < hi
    modifies a
    ensures a[..] == Swapped(old(a[..]), i, j)
    ensures Shuffled(old(a[..]), a[..], lo, hi)
  {
    ShuffledSwap(a[..], i, j, lo, hi);
    a[i], a[j] := a[j], a[i];
  }

  /** A rearrangement so far, followed by one more. */
  lemma {:induction false} ShuffledStep<T>(s: seq<T>, t: seq<T>, u: seq<T>, lo: nat, hi: nat, lo': nat, hi': nat)
    requires Shuffled(s, t, lo', hi') && Shuffled(t, u, lo, hi) && lo' <= lo && hi <= hi'
    ensures Shuffled(s, u, lo', hi')
  {
    ShuffledWiden(t, u, lo, hi, lo', hi');
  }
}
