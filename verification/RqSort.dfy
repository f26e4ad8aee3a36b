/** The hybrid sort: quick sort with an explicit stack of 50 segments, heap sort below depth 50,
    insertion sort for at most six elements. */
module RqSorting {
  import opened SortSpec
  import HeapSorting
  import opened Partitioning

  // ----- insertion sort -----

  /** From lo up to and including pi in order, but for the element at pj, which precedes all
      that follow it. */
  ghost predicate Inserting<T>(cmp: (T, T) -> int, s: seq<T>, lo: nat, pj: nat, pi: nat)
    requires pi < |s|
  {
    && lo <= pj <= pi
    && (forall i, j :: lo <= i < j <= pi && i != pj && j != pj ==> cmp(s[i], s[j]) <= 0)
    && (forall j :: pj < j <= pi ==> cmp(s[pj], s[j]) <= 0)
  }

  lemma {:induction false} InsertStart<T>(cmp: (T, T) -> int, s: seq<T>, lo: nat, pi: nat)
    requires lo <= pi < |s| && OrderedIn(cmp, s, lo, pi)
    ensures Inserting(cmp, s, lo, pi, pi)
  {
  }

  lemma {:induction false} InsertStep<T(!new)>(cmp: (T, T) -> int, s: seq<T>, lo: nat, pj: nat, pi: nat)
    requires TotalPreorder(cmp) && pi < |s| && lo < pj && Inserting(cmp, s, lo, pj, pi)
    requires cmp(s[pj - 1], s[pj]) > 0
    ensures Inserting(cmp, Swapped(s, pj, pj - 1), lo, pj - 1, pi)
  {
    hide TotalPreorder;
    CmpFlip(cmp, s[pj - 1], s[pj]);
  }

  lemma {:induction false} InsertEnd<T(!new)>(cmp: (T, T) -> int, s: seq<T>, lo: nat, pj: nat, pi: nat)
    requires TotalPreorder(cmp) && pi < |s| && Inserting(cmp, s, lo, pj, pi)
    requires lo < pj ==> cmp(s[pj - 1], s[pj]) <= 0
    ensures OrderedIn(cmp, s, lo, pi + 1)
  {
    hide TotalPreorder;
    forall i | lo <= i < pj
      ensures cmp(s[i], s[pj]) <= 0
    {
      if i < pj - 1 {
        CmpTrans(cmp, s[i], s[pj - 1], s[pj]);
      }
    }
  }

  method InsertionSort<T(!new)>(a: array<T>, lo: nat, n: nat, cmp: (T, T) -> int)
    requires TotalPreorder(cmp) && lo + n <= a.Length
    modifies a
    ensures OrderedIn(cmp, a[..], lo, lo + n)
    ensures Shuffled(old(a[..]), a[..], lo, lo + n)
  {
    hide TotalPreorder, Inserting, Shuffled, Swapped;
    ghost var s := a[..];
    ShuffledSelf(s, lo, lo + n);
    var pi, top := lo + 1, lo + n;
    while pi < top
      invariant lo < pi && (n > 0 ==> pi <= top)
      invariant OrderedIn(cmp, a[..], lo, if pi <= top then pi else top)
      invariant Shuffled(s, a[..], lo, top)
    {
      InsertStart(cmp, a[..], lo, pi);
      var pj := pi;
      while pj > lo && cmp(a[pj - 1], a[pj]) > 0
        invariant lo <= pj <= pi
        invariant Inserting(cmp, a[..], lo, pj, pi)
        invariant Shuffled(s, a[..], lo, top)
      {
        ghost var t := a[..];
        InsertStep(cmp, t, lo, pj, pi);
        Swap(a, pj, pj - 1, lo, top);
        ShuffledTrans(s, t, a[..], lo, top);
        pj := pj - 1;
      }
      InsertEnd(cmp, a[..], lo, pj, pi);
      pi := pi + 1;
    }
  }

  // ----- the segments still to be sorted -----

  datatype Frame = Frame(base: nat, count: nat, depth: nat)

  ghost predicate Holds(f: Frame, i: int) {
    f.base <= i < f.base + f.count
  }

  ghost predicate Pending(work: seq<Frame>, i: int, j: int) {
    exists k :: 0 <= k < |work| && Holds(work[k], i) && Holds(work[k], j)
  }

  ghost predicate Apart(f: Frame, g: Frame) {
    f.base + f.count <= g.base || g.base + g.count <= f.base
  }

  ghost predicate AllApart(work: seq<Frame>, n: nat) {
    && (forall k :: 0 <= k < |work| ==> work[k].base + work[k].count <= n)
    && (forall j, k :: 0 <= j < k < |work| ==> Apart(work[j], work[k]))
  }

  /** Two of the first n elements are in order unless one pending segment holds both. */
  ghost predicate Settled<T>(cmp: (T, T) -> int, s: seq<T>, n: nat, work: seq<Frame>)
    requires n <= |s|
  {
    forall i, j :: 0 <= i < j < n ==> cmp(s[i], s[j]) <= 0 || Pending(work, i, j)
  }

  ghost predicate Progress<T>(cmp: (T, T) -> int, s0: seq<T>, s: seq<T>, n: nat, work: seq<Frame>)
    requires n <= |s|
  {
    Settled(cmp, s, n, work) && AllApart(work, n) && Shuffled(s0, s, 0, n)
  }

  /** Within f the elements of u are in order unless a segment of news holds both. */
  ghost predicate Refined<T>(cmp: (T, T) -> int, u: seq<T>, f: Frame, news: seq<Frame>)
    requires f.base + f.count <= |u|
  {
    && (forall i, j :: f.base <= i < j < f.base + f.count ==> cmp(u[i], u[j]) <= 0 || Pending(news, i, j))
    && (forall k :: 0 <= k < |news| ==> f.base <= news[k].base && news[k].base + news[k].count <= f.base + f.count)
    && (forall j, k :: 0 <= j < k < |news| ==> Apart(news[j], news[k]))
  }

  lemma {:induction false} PendingRight(rest: seq<Frame>, news: seq<Frame>, i: int, j: int)
    requires Pending(news, i, j)
    ensures Pending(rest + news, i, j)
  {
    var k :| 0 <= k < |news| && Holds(news[k], i) && Holds(news[k], j);
    assert (rest + news)[|rest| + k] == news[k];
  }

  lemma {:induction false} PendingLeft(rest: seq<Frame>, news: seq<Frame>, i: int, j: int)
    requires Pending(rest, i, j)
    ensures Pending(rest + news, i, j)
  {
    var k :| 0 <= k < |rest| && Holds(rest[k], i) && Holds(rest[k], j);
    assert (rest + news)[k] == rest[k];
  }

  lemma {:induction false} PendingSplit(rest: seq<Frame>, f: Frame, i: int, j: int)
    requires Pending(rest + [f], i, j)
    ensures Pending(rest, i, j) || (Holds(f, i) && Holds(f, j))
  {
    var w := rest + [f];
    var k :| 0 <= k < |w| && Holds(w[k], i) && Holds(w[k], j);
    if k < |rest| {
      assert w[k] == rest[k];
    }
  }

  /** A frame apart from all others shares no element with them. */
  lemma {:induction false} OtherFrame(rest: seq<Frame>, f: Frame, n: nat, i: int, j: int)
    requires AllApart(rest + [f], n) && Holds(f, i)
    ensures !Pending(rest, i, j)
  {
    var w := rest + [f];
    assert w[|rest|] == f;
    forall k | 0 <= k < |rest|
      ensures !Holds(rest[k], i)
    {
      assert w[k] == rest[k] && Apart(w[k], w[|rest|]);
    }
  }

  /** The element now at i was at its like in s: inside f somewhere in f, elsewhere in place. */
  lemma {:induction false} Origin<T>(s: seq<T>, u: seq<T>, f: Frame, i: nat) returns (i': nat)
    requires |u| == |s| && f.base + f.count <= |s| && Shuffled(s, u, f.base, f.base + f.count) && i < |s|
    ensures i' < |s| && u[i] == s[i'] && (Holds(f, i) <==> Holds(f, i')) && (!Holds(f, i) ==> i' == i)
  {
    hide Shuffled;
    if Holds(f, i) {
      i' := ShuffledFrom(s, u, f.base, f.base + f.count, i);
    } else {
      ShuffledOutside(s, u, f.base, f.base + f.count, i);
      i' := i;
    }
  }

  /** An ordered pair with one element outside f stays ordered or pending. */
  lemma {:induction false} PairStays<T>(cmp: (T, T) -> int, s: seq<T>, u: seq<T>, n: nat, rest: seq<Frame>, f: Frame,
          i: nat, j: nat)
    requires n <= |s| == |u| && Settled(cmp, s, n, rest + [f]) && AllApart(rest + [f], n)
    requires Shuffled(s, u, f.base, f.base + f.count) && i < j < n && !(Holds(f, i) && Holds(f, j))
    requires f.base + f.count <= n
    ensures cmp(u[i], u[j]) <= 0 || Pending(rest, i, j)
  {
    hide Shuffled, Pending, AllApart;
    var i' := Origin(s, u, f, i);
    var j' := Origin(s, u, f, j);
    assert i' < j';
    if cmp(s[i'], s[j']) > 0 {
      assert Pending(rest + [f], i', j');
      PendingSplit(rest, f, i', j');
      if Holds(f, i) {
        OtherFrame(rest, f, n, i', j');
      } else if Holds(f, j) {
        PendingSwap(rest, i', j');
        OtherFrame(rest, f, n, j', i');
      }
    }
  }

  lemma {:induction false} PendingSwap(work: seq<Frame>, i: int, j: int)
    requires Pending(work, i, j)
    ensures Pending(work, j, i)
  {
  }

  /** Working on the last segment alone leaves the rest settled. */
  lemma {:induction false} SettledStep<T>(cmp: (T, T) -> int, s: seq<T>, u: seq<T>, n: nat, rest: seq<Frame>,
          f: Frame, news: seq<Frame>)
    requires n <= |s| == |u| && Settled(cmp, s, n, rest + [f]) && AllApart(rest + [f], n)
    requires f.base + f.count <= n && Shuffled(s, u, f.base, f.base + f.count)
    requires Refined(cmp, u, f, news)
    ensures Settled(cmp, u, n, rest + news)
  {
    hide Shuffled, Pending, AllApart;
    forall i, j | 0 <= i < j < n
      ensures cmp(u[i], u[j]) <= 0 || Pending(rest + news, i, j)
    {
      if Holds(f, i) && Holds(f, j) {
        if Pending(news, i, j) {
          PendingRight(rest, news, i, j);
        }
      } else {
        PairStays(cmp, s, u, n, rest, f, i, j);
        if Pending(rest, i, j) {
          PendingLeft(rest, news, i, j);
        }
      }
    }
  }

  lemma {:induction false} ApartStep<T>(cmp: (T, T) -> int, u: seq<T>, n: nat, rest: seq<Frame>, f: Frame,
          news: seq<Frame>)
    requires f.base + f.count <= |u| && AllApart(rest + [f], n) && Refined(cmp, u, f, news)
    ensures AllApart(rest + news, n)
  {
    hide Pending;
    var w, w' := rest + [f], rest + news;
    assert w[|rest|] == f;
    forall j, k | 0 <= j < k < |w'|
      ensures Apart(w'[j], w'[k])
    {
      if k < |rest| {
        assert Apart(w[j], w[k]);
      } else if j < |rest| {
        assert Apart(w[j], w[|rest|]);
        assert w'[k] == news[k - |rest|];
      } else {
        assert Apart(news[j - |rest|], news[k - |rest|]);
      }
    }
    forall k | 0 <= k < |w'|
      ensures w'[k].base + w'[k].count <= n
    {
      if k < |rest| {
        assert w[k] == w'[k];
      } else {
        assert w'[k] == news[k - |rest|];
      }
    }
  }

  lemma {:induction false} ProgressStep<T>(cmp: (T, T) -> int, s0: seq<T>, s: seq<T>, u: seq<T>, n: nat,
          rest: seq<Frame>, f: Frame, news: seq<Frame>)
    requires n <= |s| == |u| && Progress(cmp, s0, s, n, rest + [f])
    requires f.base + f.count <= n && Shuffled(s, u, f.base, f.base + f.count)
    requires Refined(cmp, u, f, news)
    ensures Progress(cmp, s0, u, n, rest + news)
  {
    hide Shuffled, Refined, Settled, AllApart;
    SettledStep(cmp, s, u, n, rest, f, news);
    ApartStep(cmp, u, n, rest, f, news);
    ShuffledStep(s0, s, u, f.base, f.base + f.count, 0, n);
  }

  lemma {:induction false} ProgressStart<T>(cmp: (T, T) -> int, s: seq<T>, n: nat)
    requires n <= |s|
    ensures Progress(cmp, s, s, n, [Frame(0, n, 0)])
  {
    var w := [Frame(0, n, 0)];
    ShuffledSelf(s, 0, n);
    forall i, j | 0 <= i < j < n
      ensures Pending(w, i, j)
    {
      assert Holds(w[0], i) && Holds(w[0], j);
    }
  }

  lemma {:induction false} ProgressEnd<T>(cmp: (T, T) -> int, s0: seq<T>, s: seq<T>, n: nat)
    requires n <= |s| && Progress(cmp, s0, s, n, [])
    ensures OrderedIn(cmp, s, 0, n) && Shuffled(s0, s, 0, n)
  {
  }

  lemma {:induction false} ProgressBounds<T>(cmp: (T, T) -> int, s0: seq<T>, s: seq<T>, n: nat, rest: seq<Frame>,
          f: Frame)
    requires n <= |s| && Progress(cmp, s0, s, n, rest + [f])
    ensures f.base + f.count <= n
  {
    assert (rest + [f])[|rest|] == f;
  }

  lemma {:induction false} RefinedSorted<T>(cmp: (T, T) -> int, u: seq<T>, f: Frame, news: seq<Frame>)
    requires f.base + f.count <= |u| && OrderedIn(cmp, u, f.base, f.base + f.count)
    requires news == [] || (|news| == 1 && news[0].base == f.base && news[0].count == 0)
    ensures Refined(cmp, u, f, news)
  {
  }

  /** Around the pivot every pair is in order but within the smaller or the greater part. */
  lemma {:induction false} SplitPair<T(!new)>(cmp: (T, T) -> int, u: seq<T>, v: T, lo: nat, x: nat, y: nat, hi: nat,
          i: nat, j: nat)
    requires TotalPreorder(cmp) && hi <= |u| && ThreeParts(cmp, u, v, lo, x, y, hi)
    requires lo <= i < j < hi && !(i < x && j < x) && !(i >= y && j >= y)
    ensures cmp(u[i], u[j]) <= 0
  {
    hide TotalPreorder;
    CmpFlip(cmp, v, u[i]);
    CmpTrans(cmp, u[i], v, u[j]);
  }

  lemma {:induction false} RefinedSplit<T(!new)>(cmp: (T, T) -> int, u: seq<T>, v: T, f: Frame, lt: nat, gt: nat,
          left: Frame, right: Frame)
    requires TotalPreorder(cmp) && f.base + f.count <= |u| && lt <= gt <= f.count
    requires ThreeParts(cmp, u, v, f.base, f.base + lt, f.base + gt, f.base + f.count)
    requires left.base == f.base && left.count == lt && right.base == f.base + gt && right.count == f.count - gt
    ensures Refined(cmp, u, f, [left] + [right]) && Refined(cmp, u, f, [right] + [left])
  {
    hide TotalPreorder, ThreeParts;
    var x, y := f.base + lt, f.base + gt;
    var w, w' := [left] + [right], [right] + [left];
    forall i, j | f.base <= i < j < f.base + f.count
      ensures cmp(u[i], u[j]) <= 0 || (Pending(w, i, j) && Pending(w', i, j))
    {
      if i < x && j < x {
        assert Holds(w[0], i) && Holds(w[0], j) && Holds(w'[1], i) && Holds(w'[1], j);
      } else if i >= y && j >= y {
        assert Holds(w[1], i) && Holds(w[1], j) && Holds(w'[0], i) && Holds(w'[0], j);
      } else {
        SplitPair(cmp, u, v, f.base, x, y, f.base + f.count, i, j);
      }
    }
  }

  // ----- the stack -----

  const STACK_SIZE := 50
  const DEPTH_MAX := 50

  /** Depths grow strictly along the stack; so an entry is at least as deep as its position. */
  ghost predicate DepthsGrow(work: seq<Frame>) {
    && (forall k :: 0 <= k < |work| ==> k <= work[k].depth <= DEPTH_MAX)
    && (forall j, k :: 0 <= j < k < |work| ==> work[j].depth < work[k].depth)
  }

  /** No entry is deeper than d, and there are at most d of them. */
  ghost predicate WithinDepth(work: seq<Frame>, d: nat) {
    DepthsGrow(work) && |work| <= d <= DEPTH_MAX && forall k :: 0 <= k < |work| ==> work[k].depth <= d
  }

  /** Pushing a segment one level down: there is room, and the depths still grow. */
  lemma {:induction false} PushFits(work: seq<Frame>, d: nat, f: Frame)
    requires WithinDepth(work, d) && f.depth == d + 1 <= DEPTH_MAX
    ensures |work| < STACK_SIZE
    ensures WithinDepth(work + [f], d + 1)
  {
  }

  function TotalCount(work: seq<Frame>): nat {
    if |work| == 0 then 0 else TotalCount(work[..|work| - 1]) + work[|work| - 1].count
  }

  lemma {:induction false} TotalSnoc(work: seq<Frame>, f: Frame)
    ensures TotalCount(work + [f]) == TotalCount(work) + f.count
  {
    assert (work + [f])[..|work|] == work;
  }

  lemma {:induction false} FirstFrame(n: nat)
    ensures DepthsGrow([Frame(0, n, 0)])
  {
  }

  lemma {:induction false} Popped(work: seq<Frame>, f: Frame)
    requires DepthsGrow(work + [f])
    ensures WithinDepth(work, f.depth)
  {
    var w := work + [f];
    assert w[|work|] == f;
    forall k | 0 <= k < |work|
      ensures k <= work[k].depth < f.depth
      ensures forall j :: 0 <= j < k ==> work[j].depth < work[k].depth
    {
      assert w[k] == work[k];
      forall j | 0 <= j < k
        ensures work[j].depth < work[k].depth
      {
        assert w[j] == work[j];
      }
    }
  }

  lemma {:induction false} DepthsOf(work: seq<Frame>, d: nat)
    requires WithinDepth(work, d)
    ensures DepthsGrow(work) && d <= DEPTH_MAX
  {
  }

  /** Sorts the segment just popped, pushing the larger part of every split. Either fewer
      elements are pending than before, or the segment was empty. */
  method SortSegment<T(!new)>(a: array<T>, n: nat, stack: array<Frame>, sp0: nat, f: Frame, cmp: (T, T) -> int,
          ghost s0: seq<T>)
    returns (sp: nat)
    requires TotalPreorder(cmp) && n <= a.Length && (a as object) != (stack as object)
    requires sp0 <= stack.Length == STACK_SIZE && WithinDepth(stack[..sp0], f.depth)
    requires Progress(cmp, s0, a[..], n, stack[..sp0] + [f])
    modifies a, stack
    ensures sp <= STACK_SIZE && DepthsGrow(stack[..sp])
    ensures Progress(cmp, s0, a[..], n, stack[..sp])
    ensures var before := old(TotalCount(stack[..sp0])) + f.count;
            TotalCount(stack[..sp]) < before || (TotalCount(stack[..sp]) == before && sp == sp0)
  {
    hide TotalPreorder, Progress, Shuffled, ThreeParts, Refined, WithinDepth, DepthsGrow, TotalCount, OrderedIn;
    sp := sp0;
    var ptr: nat, nmemb: nat, depth: nat := f.base, f.count, f.depth;
    ghost var before := TotalCount(stack[..sp0]) + f.count;
    DepthsOf(stack[..sp0], depth);
    while nmemb > 6
      invariant sp <= STACK_SIZE && depth <= DEPTH_MAX && WithinDepth(stack[..sp], depth)
      invariant Progress(cmp, s0, a[..], n, stack[..sp] + [Frame(ptr, nmemb, depth)])
      invariant TotalCount(stack[..sp]) + nmemb < before || (TotalCount(stack[..sp]) + nmemb == before && sp == sp0)
    {
      ghost var work, s, g := stack[..sp], a[..], Frame(ptr, nmemb, depth);
      ProgressBounds(cmp, s0, s, n, work, g);
      DepthsOf(work, depth);
      depth := depth + 1;
      if depth > DEPTH_MAX {
        HeapSorting.Sort(a, ptr, nmemb, cmp);
        RefinedSorted(cmp, a[..], g, [Frame(ptr, 0, depth)]);
        ProgressStep(cmp, s0, s, a[..], n, work, g, [Frame(ptr, 0, depth)]);
        nmemb := 0;
        break;
      }
      var lt, gt, v := Split(a, ptr, nmemb, cmp);
      var left, right := Frame(ptr, lt, depth), Frame(ptr + gt, nmemb - gt, depth);
      RefinedSplit(cmp, a[..], v, g, lt, gt, left, right);
      if lt > nmemb - gt {
        PushFits(work, depth - 1, left);
        TotalSnoc(work, left);
        ProgressStep(cmp, s0, s, a[..], n, work, g, [left] + [right]);
        assert work + ([left] + [right]) == (work + [left]) + [right];
        stack[sp] := left;
        sp := sp + 1;
        assert stack[..sp] == work + [left];
        ptr := ptr + gt;
        nmemb := nmemb - gt;
      } else {
        PushFits(work, depth - 1, right);
        TotalSnoc(work, right);
        ProgressStep(cmp, s0, s, a[..], n, work, g, [right] + [left]);
        assert work + ([right] + [left]) == (work + [right]) + [left];
        stack[sp] := right;
        sp := sp + 1;
        assert stack[..sp] == work + [right];
        nmemb := lt;
      }
    }
    ghost var work, s, g := stack[..sp], a[..], Frame(ptr, nmemb, depth);
    ProgressBounds(cmp, s0, s, n, work, g);
    if depth <= DEPTH_MAX {
      DepthsOf(work, depth);
    }
    InsertionSort(a, ptr, nmemb, cmp);
    RefinedSorted(cmp, a[..], g, []);
    ProgressStep(cmp, s0, s, a[..], n, work, g, []);
    assert work + [] == work;
  }

  /** rqsort: the first n elements end up in order and rearranged, the others untouched. No entry
      is ever pushed beyond the fixed size of the stack. */
  method RqSort<T(!new)>(a: array<T>, n: nat, cmp: (T, T) -> int)
    requires TotalPreorder(cmp) && n <= a.Length
    modifies a
    ensures OrderedIn(cmp, a[..], 0, n)
    ensures Shuffled(old(a[..]), a[..], 0, n)
  {
    hide TotalPreorder, Progress, Shuffled, ThreeParts, Refined, DepthsGrow, TotalCount;
    if n < 2 {
      ShuffledSelf(a[..], 0, n);
      return;
    }
    ghost var s0 := a[..];
    var stack := new Frame[STACK_SIZE];
    var sp := 0;
    stack[sp] := Frame(0, n, 0);
    sp := sp + 1;
    ProgressStart(cmp, s0, n);
    FirstFrame(n);
    assert stack[..sp] == [Frame(0, n, 0)];
    while sp > 0
      invariant 0 <= sp <= STACK_SIZE
      invariant DepthsGrow(stack[..sp]) && Progress(cmp, s0, a[..], n, stack[..sp])
      decreases TotalCount(stack[..sp]), sp
    {
      sp := sp - 1;
      ghost var work := stack[..sp];
      ghost var f := stack[sp];
      assert stack[..sp + 1] == work + [f];
      Popped(work, f);
      TotalSnoc(work, f);
      sp := SortSegment(a, n, stack, sp, stack[sp], cmp, s0);
    }
    ProgressEnd(cmp, s0, a[..], n);
  }
}
