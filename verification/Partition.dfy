/** Three-way partitioning around a pivot, as the quick sort does it: elements equal to the pivot
    are gathered at both ends, then moved to the middle in two block exchanges. */
module Partitioning {
  import opened SortSpec

  // ----- choosing the pivot -----

  /** y lies between x and z, one way or the other. */
  ghost predicate Between<T>(cmp: (T, T) -> int, x: T, y: T, z: T) {
    (cmp(x, y) <= 0 && cmp(y, z) <= 0) || (cmp(z, y) <= 0 && cmp(y, x) <= 0)
  }

  /** The middle one of three elements. */
  method Med3<T(!new)>(s: array<T>, a: nat, b: nat, c: nat, cmp: (T, T) -> int) returns (m: nat)
    requires TotalPreorder(cmp) && a < s.Length && b < s.Length && c < s.Length
    ensures (m == a && Between(cmp, s[b], s[a], s[c])) || (m == b && Between(cmp, s[a], s[b], s[c]))
            || (m == c && Between(cmp, s[a], s[c], s[b]))
  {
    hide TotalPreorder;
    CmpFlip(cmp, s[a], s[b]);
    CmpFlip(cmp, s[b], s[c]);
    CmpFlip(cmp, s[a], s[c]);
    if cmp(s[a], s[b]) < 0 {
      m := if cmp(s[b], s[c]) < 0 then b else if cmp(s[a], s[c]) < 0 then c else a;
    } else {
      m := if cmp(s[b], s[c]) > 0 then b else if cmp(s[a], s[c]) < 0 then a else c;
    }
  }

  // ----- the four parts -----

  /** From lo: equal to the pivot, smaller, not yet seen, greater, equal; hi ends the range. */
  ghost predicate Parted<T>(cmp: (T, T) -> int, s: seq<T>, lo: nat, plt: nat, pi: nat, pj: nat, pgt: nat, hi: nat) {
    && lo < plt <= pi <= pj <= pgt <= hi <= |s|
    && (forall k :: lo <= k < plt ==> cmp(s[lo], s[k]) == 0)
    && (forall k :: plt <= k < pi ==> cmp(s[lo], s[k]) > 0)
    && (forall k :: pj <= k < pgt ==> cmp(s[lo], s[k]) < 0)
    && (forall k :: pgt <= k < hi ==> cmp(s[lo], s[k]) == 0)
  }

  lemma {:induction false} PartStart<T(!new)>(cmp: (T, T) -> int, s: seq<T>, lo: nat, hi: nat)
    requires TotalPreorder(cmp) && lo < hi <= |s|
    ensures Parted(cmp, s, lo, lo + 1, lo + 1, hi, hi, hi)
  {
    CmpSelf(cmp, s[lo]);
  }

  /** An element found equal from below joins the equal ones at the start. */
  lemma {:induction false} EqualBelow<T>(cmp: (T, T) -> int, s: seq<T>, lo: nat, plt: nat, pi: nat, pj: nat, pgt: nat,
          hi: nat)
    requires Parted(cmp, s, lo, plt, pi, pj, pgt, hi) && pi < pj && cmp(s[lo], s[pi]) == 0
    ensures Parted(cmp, Swapped(s, plt, pi), lo, plt + 1, pi + 1, pj, pgt, hi)
  {
  }

  lemma {:induction false} SmallerBelow<T>(cmp: (T, T) -> int, s: seq<T>, lo: nat, plt: nat, pi: nat, pj: nat,
          pgt: nat, hi: nat)
    requires Parted(cmp, s, lo, plt, pi, pj, pgt, hi) && pi < pj && cmp(s[lo], s[pi]) > 0
    ensures Parted(cmp, s, lo, plt, pi + 1, pj, pgt, hi)
  {
  }

  /** An element found equal from above joins the equal ones at the end. */
  lemma {:induction false} EqualAbove<T>(cmp: (T, T) -> int, s: seq<T>, lo: nat, plt: nat, pi: nat, pj: nat, pgt: nat,
          hi: nat)
    requires Parted(cmp, s, lo, plt, pi, pj + 1, pgt, hi) && pi <= pj && cmp(s[lo], s[pj]) == 0
    ensures Parted(cmp, Swapped(s, pgt - 1, pj), lo, plt, pi, pj, pgt - 1, hi)
  {
  }

  lemma {:induction false} GreaterAbove<T>(cmp: (T, T) -> int, s: seq<T>, lo: nat, plt: nat, pi: nat, pj: nat,
          pgt: nat, hi: nat)
    requires Parted(cmp, s, lo, plt, pi, pj + 1, pgt, hi) && pi <= pj && cmp(s[lo], s[pj]) < 0
    ensures Parted(cmp, s, lo, plt, pi, pj, pgt, hi)
  {
  }

  /** A greater element below and a smaller one above change places. */
  lemma {:induction false} Exchange<T>(cmp: (T, T) -> int, s: seq<T>, lo: nat, plt: nat, pi: nat, pj: nat, pgt: nat,
          hi: nat)
    requires Parted(cmp, s, lo, plt, pi, pj + 1, pgt, hi) && pi < pj
    requires cmp(s[lo], s[pi]) < 0 && cmp(s[lo], s[pj]) > 0
    ensures Parted(cmp, Swapped(s, pi, pj), lo, plt, pi + 1, pj, pgt, hi)
  {
  }

  lemma {:induction false} PartBounds<T>(cmp: (T, T) -> int, s: seq<T>, lo: nat, plt: nat, pi: nat, pj: nat, pgt: nat,
          hi: nat)
    requires Parted(cmp, s, lo, plt, pi, pj, pgt, hi)
    ensures lo < plt <= pi <= pj <= pgt <= hi <= |s|
  {
  }

  method Partition<T(!new)>(a: array<T>, lo: nat, hi: nat, cmp: (T, T) -> int) returns (plt: nat, pi: nat, pgt: nat)
    requires TotalPreorder(cmp) && lo < hi <= a.Length
    modifies a
    ensures Parted(cmp, a[..], lo, plt, pi, pi, pgt, hi)
    ensures Shuffled(old(a[..]), a[..], lo, hi)
  {
    hide TotalPreorder, Parted, Shuffled, Swapped;
    ghost var s := a[..];
    ShuffledSelf(s, lo, hi);
    PartStart(cmp, s, lo, hi);
    plt, pi, pgt := lo + 1, lo + 1, hi;
    var pj: nat := hi;
    while true
      invariant lo < plt <= pi <= pj <= pgt <= hi
      invariant Parted(cmp, a[..], lo, plt, pi, pj, pgt, hi)
      invariant Shuffled(s, a[..], lo, hi)
      decreases pj - pi
    {
      plt, pi := ScanBelow(a, lo, plt, pi, pj, pgt, hi, cmp, s);
      ghost var pj0 := pj;
      pj, pgt := ScanAbove(a, lo, plt, pi, pj, pgt, hi, cmp, s);
      if pi >= pj {
        Finish(cmp, a[..], lo, plt, pi, pj, pgt, hi);
        break;
      }
      ghost var t := a[..];
      Exchange(cmp, t, lo, plt, pi, pj, pgt, hi);
      Swap(a, pi, pj, lo, hi);
      ShuffledTrans(s, t, a[..], lo, hi);
      pi := pi + 1;
    }
  }

  /** Passes over elements that are not greater than the pivot, gathering the equal ones. */
  method ScanBelow<T(!new)>(a: array<T>, lo: nat, plt0: nat, pi0: nat, pj: nat, pgt: nat, hi: nat, cmp: (T, T) -> int,
          ghost s: seq<T>)
    returns (plt: nat, pi: nat)
    requires lo < plt0 <= pi0 <= pj <= pgt <= hi <= a.Length
    requires Parted(cmp, a[..], lo, plt0, pi0, pj, pgt, hi)
    requires Shuffled(s, a[..], lo, hi)
    modifies a
    ensures pi0 <= pi <= pj && lo < plt <= pi
    ensures Parted(cmp, a[..], lo, plt, pi, pj, pgt, hi)
    ensures pi < pj ==> cmp(a[lo], a[pi]) < 0
    ensures Shuffled(s, a[..], lo, hi)
  {
    hide Parted, Shuffled, Swapped;
    plt, pi := plt0, pi0;
    while pi < pj && cmp(a[lo], a[pi]) >= 0
      invariant lo < plt <= pi && pi0 <= pi <= pj
      invariant Parted(cmp, a[..], lo, plt, pi, pj, pgt, hi)
      invariant Shuffled(s, a[..], lo, hi)
    {
      ghost var t := a[..];
      if cmp(a[lo], a[pi]) == 0 {
        EqualBelow(cmp, t, lo, plt, pi, pj, pgt, hi);
        Swap(a, plt, pi, lo, hi);
        ShuffledTrans(s, t, a[..], lo, hi);
        plt := plt + 1;
      } else {
        SmallerBelow(cmp, t, lo, plt, pi, pj, pgt, hi);
      }
      pi := pi + 1;
    }
  }

  /** Passes over elements that are not smaller than the pivot, from the end, gathering the equal
      ones. The result is one below the greater elements found. */
  method ScanAbove<T(!new)>(a: array<T>, lo: nat, plt: nat, pi: nat, pj0: nat, pgt0: nat, hi: nat, cmp: (T, T) -> int,
          ghost s: seq<T>)
    returns (pj: nat, pgt: nat)
    requires lo < plt <= pi <= pj0 <= pgt0 <= hi <= a.Length
    requires Parted(cmp, a[..], lo, plt, pi, pj0, pgt0, hi)
    requires Shuffled(s, a[..], lo, hi)
    requires pi < pj0 ==> cmp(a[lo], a[pi]) < 0
    modifies a
    ensures pi <= pj + 1 <= pj0 && pj < pgt <= hi
    ensures Parted(cmp, a[..], lo, plt, pi, pj + 1, pgt, hi)
    ensures pi <= pj ==> cmp(a[lo], a[pi]) < 0
    ensures pi < pj ==> cmp(a[lo], a[pj]) > 0
    ensures Shuffled(s, a[..], lo, hi)
  {
    hide Parted, Shuffled, Swapped;
    pj, pgt := pj0 - 1, pgt0;
    while pi < pj && cmp(a[lo], a[pj]) <= 0
      invariant pi <= pj + 1 <= pj0 && pj < pgt <= hi
      invariant Parted(cmp, a[..], lo, plt, pi, pj + 1, pgt, hi)
      invariant pi <= pj ==> cmp(a[lo], a[pi]) < 0
      invariant Shuffled(s, a[..], lo, hi)
    {
      ghost var t := a[..];
      if cmp(a[lo], a[pj]) == 0 {
        EqualAbove(cmp, t, lo, plt, pi, pj, pgt, hi);
        pgt := pgt - 1;
        Swap(a, pgt, pj, lo, hi);
        UntouchedBy(t, pgt, pj, lo);
        UntouchedBy(t, pgt, pj, pi);
        ShuffledTrans(s, t, a[..], lo, hi);
      } else {
        GreaterAbove(cmp, t, lo, plt, pi, pj, pgt, hi);
      }
      PartBounds(cmp, a[..], lo, plt, pi, pj, pgt, hi);
      pj := pj - 1;
    }
  }

  lemma {:induction false} UntouchedBy<T>(s: seq<T>, i: nat, j: nat, k: nat)
    requires i < |s| && j < |s| && k < |s| && k != i && k != j
    ensures Swapped(s, i, j)[k] == s[k]
  {
  }

  /** When the scans meet, nothing is left unseen. */
  lemma {:induction false} Finish<T>(cmp: (T, T) -> int, s: seq<T>, lo: nat, plt: nat, pi: nat, pj: nat, pgt: nat,
          hi: nat)
    requires pj <= pi && Parted(cmp, s, lo, plt, pi, pj + 1, pgt, hi)
    requires pi <= pj ==> cmp(s[lo], s[pi]) < 0
    ensures Parted(cmp, s, lo, plt, pi, pi, pgt, hi)
  {
  }

  // ----- moving the equal elements to the middle -----

  /** t is s with the span elements at p and those at q exchanged. */
  ghost predicate Exchanged<T>(s: seq<T>, t: seq<T>, p: nat, q: nat, span: nat)
    requires p + span <= q && q + span <= |s|
  {
    && |t| == |s|
    && (forall x :: p <= x < p + span ==> t[x] == s[x + (q - p)])
    && (forall x :: q <= x < q + span ==> t[x] == s[x - (q - p)])
    && (forall x :: 0 <= x < |s| && !(p <= x < p + span) && !(q <= x < q + span) ==> t[x] == s[x])
  }

  lemma {:induction false} ExchangeStep<T>(s: seq<T>, t: seq<T>, p: nat, q: nat, x: nat)
    requires p + x < q && q + x < |s| && Exchanged(s, t, p, q, x)
    ensures Exchanged(s, Swapped(t, p + x, q + x), p, q, x + 1)
  {
  }

  lemma {:induction false} ExchangeNone<T>(s: seq<T>, p: nat, q: nat)
    requires p <= q <= |s|
    ensures Exchanged(s, s, p, q, 0)
  {
  }

  method SwapBlock<T>(a: array<T>, p: nat, q: nat, span: nat, ghost lo: nat, ghost hi: nat)
    requires lo <= p && p + span <= q && q + span <= hi <= a.Length
    modifies a
    ensures Exchanged(old(a[..]), a[..], p, q, span)
    ensures Shuffled(old(a[..]), a[..], lo, hi)
  {
    hide Exchanged, Shuffled, Swapped;
    ghost var s := a[..];
    ShuffledSelf(s, lo, hi);
    ExchangeNone(s, p, q);
    var x := 0;
    while x < span
      invariant 0 <= x <= span
      invariant Exchanged(s, a[..], p, q, x)
      invariant Shuffled(s, a[..], lo, hi)
    {
      ghost var t := a[..];
      Swap(a, p + x, q + x, lo, hi);
      ExchangeStep(s, t, p, q, x);
      ShuffledTrans(s, t, a[..], lo, hi);
      x := x + 1;
    }
  }

  /** How the elements of a range compare with v: from lo smaller, from x equal, from y greater. */
  ghost predicate ThreeParts<T>(cmp: (T, T) -> int, s: seq<T>, v: T, lo: nat, x: nat, y: nat, hi: nat)
    requires hi <= |s|
  {
    && lo <= x <= y <= hi
    && (forall k :: lo <= k < x ==> cmp(v, s[k]) > 0)
    && (forall k :: x <= k < y ==> cmp(v, s[k]) == 0)
    && (forall k :: y <= k < hi ==> cmp(v, s[k]) < 0)
  }

  function Min(x: nat, y: nat): nat {
    if x > y then y else x
  }

  /** The first exchange: smaller elements first, then those equal, up to pi. */
  lemma {:induction false} MoveLower<T>(cmp: (T, T) -> int, s: seq<T>, t: seq<T>, lo: nat, plt: nat, pi: nat,
          pgt: nat, hi: nat, span: nat)
    requires Parted(cmp, s, lo, plt, pi, pi, pgt, hi) && span == Min(plt - lo, pi - plt)
    requires Exchanged(s, t, lo, pi - span, span)
    ensures ThreeParts(cmp, t, s[lo], lo, lo + (pi - plt), pi, pi)
    ensures forall k :: pi <= k < pgt ==> cmp(s[lo], t[k]) < 0
    ensures forall k :: pgt <= k < hi ==> cmp(s[lo], t[k]) == 0
  {
  }

  /** The second exchange: those equal from pi on, then the greater ones. */
  lemma {:induction false} MoveUpper<T>(cmp: (T, T) -> int, t: seq<T>, u: seq<T>, v: T, lo: nat, m: nat, pi: nat,
          pgt: nat, hi: nat, span: nat)
    requires lo <= m <= pi <= pgt <= hi <= |t| && span == Min(hi - pgt, pgt - pi)
    requires ThreeParts(cmp, t, v, lo, m, pi, pi)
    requires forall k :: pi <= k < pgt ==> cmp(v, t[k]) < 0
    requires forall k :: pgt <= k < hi ==> cmp(v, t[k]) == 0
    requires Exchanged(t, u, pi, hi - span, span)
    ensures ThreeParts(cmp, u, v, lo, m, hi - (pgt - pi), hi)
  {
  }

  /** Moves the equal elements from both ends of the range to the middle. */
  method Regroup<T(!new)>(a: array<T>, lo: nat, plt: nat, pi: nat, pgt: nat, top: nat, cmp: (T, T) -> int)
    returns (lt: nat, gt: nat)
    requires top <= a.Length && Parted(cmp, a[..], lo, plt, pi, pi, pgt, top)
    modifies a
    ensures lt < gt <= top - lo
    ensures ThreeParts(cmp, a[..], old(a[lo]), lo, lo + lt, lo + gt, top)
    ensures Shuffled(old(a[..]), a[..], lo, top)
  {
    hide Parted, Exchanged, Shuffled, Swapped, ThreeParts;
    ghost var s := a[..];
    PartBounds(cmp, s, lo, plt, pi, pi, pgt, top);
    lt := pi - plt;
    gt := top - lo - (pgt - pi);
    var span := Min(plt - lo, pi - plt);
    SwapBlock(a, lo, pi - span, span, lo, top);
    ghost var t := a[..];
    MoveLower(cmp, s, t, lo, plt, pi, pgt, top, span);
    span := Min(top - pgt, pgt - pi);
    SwapBlock(a, pi, top - span, span, lo, top);
    MoveUpper(cmp, t, a[..], s[lo], lo, lo + lt, pi, pgt, top, span);
    ShuffledTrans(s, t, a[..], lo, top);
  }

  /** One round of the quick sort on n elements at lo: afterwards those before lt are smaller than
      the pivot, those from gt on greater, and at least the pivot lies between. */
  method Split<T(!new)>(a: array<T>, lo: nat, n: nat, cmp: (T, T) -> int) returns (lt: nat, gt: nat, ghost v: T)
    requires TotalPreorder(cmp) && n > 6 && lo + n <= a.Length
    modifies a
    ensures lt < gt <= n && ThreeParts(cmp, a[..], v, lo, lo + lt, lo + gt, lo + n)
    ensures Shuffled(old(a[..]), a[..], lo, lo + n)
  {
    hide TotalPreorder, Parted, Exchanged, Shuffled, Swapped, ThreeParts;
    ghost var s := a[..];
    var m4 := n / 4;
    var m := Med3(a, lo + m4, lo + 2 * m4, lo + 3 * m4, cmp);
    Swap(a, lo, m, lo, lo + n);
    ghost var s1 := a[..];
    var plt, pi, pgt := Partition(a, lo, lo + n, cmp);
    ghost var s2 := a[..];
    v := a[lo];
    lt, gt := Regroup(a, lo, plt, pi, pgt, lo + n, cmp);
    ShuffledTrans(s, s1, s2, lo, lo + n);
    ShuffledTrans(s, s2, a[..], lo, lo + n);
  }
}
