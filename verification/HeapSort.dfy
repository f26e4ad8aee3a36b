/** The in-place heap sort that bounds the work of the quick sort. */
module HeapSorting {
  import opened SortSpec

  /** Node k of the heap of n elements that starts at lo is not below its children. */
  ghost predicate HeapAt<T>(cmp: (T, T) -> int, s: seq<T>, lo: nat, n: nat, k: nat)
    requires lo + n <= |s|
  {
    && (2 * k + 1 < n ==> cmp(s[lo + k], s[lo + (2 * k + 1)]) >= 0)
    && (2 * k + 2 < n ==> cmp(s[lo + k], s[lo + (2 * k + 2)]) >= 0)
  }

  ghost predicate HeapFrom<T>(cmp: (T, T) -> int, s: seq<T>, lo: nat, n: nat, i: nat)
    requires lo + n <= |s|
  {
    forall k: nat :: i <= k < n ==> HeapAt(cmp, s, lo, n, k)
  }

  predicate IsChild(k: nat, c: nat) {
    c == 2 * k + 1 || c == 2 * k + 2
  }

  /** k is not below node c, if there is one. */
  ghost predicate Tops<T>(cmp: (T, T) -> int, s: seq<T>, lo: nat, n: nat, k: nat, c: nat)
    requires lo + n <= |s| && k < n
  {
    c < n ==> cmp(s[lo + k], s[lo + c]) >= 0
  }

  /** A heap from node i on, except that node r may be below its children, which its parent is not. */
  ghost predicate HeapHole<T>(cmp: (T, T) -> int, s: seq<T>, lo: nat, n: nat, i: nat, r: nat)
    requires lo + n <= |s|
  {
    && (forall k: nat :: i <= k < n && k != r ==> HeapAt(cmp, s, lo, n, k))
    && (forall k: nat :: i <= k < n && IsChild(k, r) ==>
          Tops(cmp, s, lo, n, k, 2 * r + 1) && Tops(cmp, s, lo, n, k, 2 * r + 2))
  }

  /** c is a child of r that is not below the other one. */
  ghost predicate LargerChild<T>(cmp: (T, T) -> int, s: seq<T>, lo: nat, n: nat, r: nat, c: nat)
    requires lo + n <= |s| && c < n
  {
    IsChild(r, c) && Tops(cmp, s, lo, n, c, 2 * r + 1) && Tops(cmp, s, lo, n, c, 2 * r + 2)
  }

  lemma {:induction false} ChooseChild<T(!new)>(cmp: (T, T) -> int, s: seq<T>, lo: nat, n: nat, r: nat, c: nat)
    requires TotalPreorder(cmp) && lo + n <= |s| && 2 * r + 1 < n
    requires c == if 2 * r + 1 < n - 1 && cmp(s[lo + (2 * r + 1)],
        s[lo + (2 * r + 1) + 1]) <= 0 then 2 * r + 2 else 2 * r + 1
    ensures LargerChild(cmp, s, lo, n, r, c)
  {
    hide TotalPreorder;
    CmpSelf(cmp, s[lo + c]);
    if 2 * r + 2 < n {
      CmpFlip(cmp, s[lo + (2 * r + 1)], s[lo + (2 * r + 2)]);
    }
  }

  /** Exchanging the misplaced node with its larger child moves the hole down. */
  lemma {:induction false} HoleSinks<T(!new)>(cmp: (T, T) -> int, s: seq<T>, lo: nat, n: nat, i: nat, r: nat, c: nat)
    requires TotalPreorder(cmp) && lo + n <= |s| && i <= r && c < n
    requires HeapHole(cmp, s, lo, n, i, r) && LargerChild(cmp, s, lo, n, r, c)
    requires cmp(s[lo + r], s[lo + c]) <= 0
    ensures HeapHole(cmp, Swapped(s, lo + r, lo + c), lo, n, i, c)
  {
    hide TotalPreorder;
    var t := Swapped(s, lo + r, lo + c);
    CmpFlip(cmp, s[lo + r], s[lo + c]);
    assert HeapAt(cmp, s, lo, n, c);
    forall k: nat | i <= k < n && k != c
      ensures HeapAt(cmp, t, lo, n, k)
    {
      if k == r {
      } else if IsChild(k, r) {
        assert HeapAt(cmp, s, lo, n, k);
        assert Tops(cmp, s, lo, n, k, c);
      } else {
        assert HeapAt(cmp, s, lo, n, k);
      }
    }
    forall k: nat | i <= k < n && IsChild(k, c)
      ensures Tops(cmp, t, lo, n, k, 2 * c + 1) && Tops(cmp, t, lo, n, k, 2 * c + 2)
    {
      assert k == r;
    }
  }

  /** The hole is filled when it has no child or is above the larger one. */
  lemma {:induction false} HoleFilled<T(!new)>(cmp: (T, T) -> int, s: seq<T>, lo: nat, n: nat, i: nat, r: nat)
    requires TotalPreorder(cmp) && lo + n <= |s|
    requires HeapHole(cmp, s, lo, n, i, r) && HeapAt(cmp, s, lo, n, r)
    ensures HeapFrom(cmp, s, lo, n, i)
  {
  }

  lemma {:induction false} AboveBoth<T(!new)>(cmp: (T, T) -> int, s: seq<T>, lo: nat, n: nat, r: nat, c: nat)
    requires TotalPreorder(cmp) && lo + n <= |s| && c < n
    requires LargerChild(cmp, s, lo, n, r, c) && cmp(s[lo + r], s[lo + c]) > 0
    ensures HeapAt(cmp, s, lo, n, r)
  {
    hide TotalPreorder;
    forall d: nat | IsChild(r, d) && d < n
      ensures cmp(s[lo + r], s[lo + d]) >= 0
    {
      assert Tops(cmp, s, lo, n, c, d);
      CmpFlip(cmp, s[lo + r], s[lo + c]);
      CmpFlip(cmp, s[lo + c], s[lo + d]);
      CmpTrans(cmp, s[lo + d], s[lo + c], s[lo + r]);
      CmpFlip(cmp, s[lo + r], s[lo + d]);
    }
    assert IsChild(r, 2 * r + 1) && IsChild(r, 2 * r + 2);
  }

  lemma {:induction false} HeapStart<T>(cmp: (T, T) -> int, s: seq<T>, lo: nat, n: nat, i: nat)
    requires lo + n <= |s| && HeapFrom(cmp, s, lo, n, i + 1)
    ensures HeapHole(cmp, s, lo, n, i, i)
  {
    assert forall k: nat :: IsChild(k, i) ==> k < i;
  }

  /** Sinks node i until the heap from i on is restored. */
  method SiftDown<T(!new)>(a: array<T>, lo: nat, n: nat, i: nat, cmp: (T, T) -> int)
    requires TotalPreorder(cmp) && lo + n <= a.Length && i < n
    requires HeapFrom(cmp, a[..], lo, n, i + 1)
    modifies a
    ensures HeapFrom(cmp, a[..], lo, n, i)
    ensures Shuffled(old(a[..]), a[..], lo, lo + n)
  {
    hide TotalPreorder, HeapFrom, HeapHole, HeapAt, LargerChild, Shuffled, Swapped;
    var r := i;
    ghost var s := a[..];
    HeapStart(cmp, s, lo, n, i);
    ShuffledSelf(s, lo, lo + n);
    while 2 * r + 1 < n
      invariant i <= r < n
      invariant HeapHole(cmp, a[..], lo, n, i, r)
      invariant Shuffled(s, a[..], lo, lo + n)
      decreases n - r
    {
      ghost var t := a[..];
      var c := 2 * r + 1;
      if c < n - 1 && cmp(a[lo + c], a[lo + c + 1]) <= 0 {
        c := c + 1;
      }
      ChooseChild(cmp, t, lo, n, r, c);
      if cmp(a[lo + r], a[lo + c]) > 0 {
        AboveBoth(cmp, t, lo, n, r, c);
        break;
      }
      HoleSinks(cmp, t, lo, n, i, r, c);
      Swap(a, lo + r, lo + c, lo, lo + n);
      ShuffledTrans(s, t, a[..], lo, lo + n);
      r := c;
    }
    if 2 * r + 1 >= n {
      Leaf(cmp, a[..], lo, n, r);
    }
    HoleFilled(cmp, a[..], lo, n, i, r);
  }

  lemma {:induction false} Leaf<T>(cmp: (T, T) -> int, s: seq<T>, lo: nat, n: nat, r: nat)
    requires lo + n <= |s| && 2 * r + 1 >= n
    ensures HeapAt(cmp, s, lo, n, r)
  {
  }

  lemma {:induction false} Leaves<T>(cmp: (T, T) -> int, s: seq<T>, lo: nat, n: nat)
    requires lo + n <= |s|
    ensures HeapFrom(cmp, s, lo, n, n / 2)
  {
    forall k: nat | n / 2 <= k < n
      ensures HeapAt(cmp, s, lo, n, k)
    {
      Leaf(cmp, s, lo, n, k);
    }
  }

  /** The root of a heap is not below any element. */
  lemma {:induction false} RootIsLargest<T(!new)>(cmp: (T, T) -> int, s: seq<T>, lo: nat, n: nat, k: nat)
    requires TotalPreorder(cmp) && lo + n <= |s| && HeapFrom(cmp, s, lo, n, 0) && k < n
    ensures cmp(s[lo + k], s[lo]) <= 0
  {
    hide TotalPreorder;
    if k == 0 {
      CmpSelf(cmp, s[lo]);
    } else {
      var p := (k - 1) / 2;
      assert HeapAt(cmp, s, lo, n, p) && IsChild(p, k);
      RootIsLargest(cmp, s, lo, n, p);
      CmpFlip(cmp, s[lo + p], s[lo + k]);
      CmpTrans(cmp, s[lo + k], s[lo + p], s[lo]);
    }
  }

  /** The largest m elements are gone to the end in order; the others form a heap. */
  ghost predicate Extracted<T>(cmp: (T, T) -> int, s: seq<T>, lo: nat, m: nat, n: nat)
    requires m <= n && lo + n <= |s|
  {
    && HeapFrom(cmp, s, lo, m, 0)
    && OrderedIn(cmp, s, lo + m, lo + n)
    && Before(cmp, s, lo, lo + m, lo + m, lo + n)
  }

  /** Taking the root out of a heap of m elements: t has it at the end, u is repaired. */
  lemma {:induction false} ExtractStep<T(!new)>(cmp: (T, T) -> int, s: seq<T>, u: seq<T>, lo: nat, m: nat, n: nat)
    requires TotalPreorder(cmp) && 1 < m <= n && lo + n <= |s| == |u|
    requires Extracted(cmp, s, lo, m, n)
    requires Shuffled(Swapped(s, lo, lo + m - 1), u, lo, lo + m - 1)
    requires HeapFrom(cmp, u, lo, m - 1, 0)
    ensures Extracted(cmp, u, lo, m - 1, n)
  {
    hide TotalPreorder, HeapFrom, Shuffled;
    var t := Swapped(s, lo, lo + m - 1);
    forall j | lo + m - 1 <= j < lo + n
      ensures u[j] == t[j]
    {
      ShuffledOutside(t, u, lo, lo + m - 1, j);
    }
    forall i, j | lo <= i < j < lo + n && lo + m - 1 <= j
      ensures cmp(u[i], u[j]) <= 0
    {
      var i' := i;
      if i < lo + m - 1 {
        i' := ShuffledFrom(t, u, lo, lo + m - 1, i);
      }
      if j == lo + m - 1 {
        RootIsLargest(cmp, s, lo, m, if i' == lo then m - 1 else i' - lo);
      }
    }
  }

  /** Makes a heap of n elements, from the last inner node back to the root. */
  method BuildHeap<T(!new)>(a: array<T>, lo: nat, n: nat, cmp: (T, T) -> int)
    requires TotalPreorder(cmp) && lo + n <= a.Length
    modifies a
    ensures HeapFrom(cmp, a[..], lo, n, 0)
    ensures Shuffled(old(a[..]), a[..], lo, lo + n)
  {
    hide TotalPreorder, HeapFrom, Shuffled, Swapped;
    ghost var s := a[..];
    ShuffledSelf(s, lo, lo + n);
    var i := n / 2;
    Leaves(cmp, s, lo, n);
    while i > 0
      invariant 0 <= i <= n / 2
      invariant HeapFrom(cmp, a[..], lo, n, i)
      invariant Shuffled(s, a[..], lo, lo + n)
    {
      i := i - 1;
      ghost var t := a[..];
      SiftDown(a, lo, n, i, cmp);
      ShuffledTrans(s, t, a[..], lo, lo + n);
    }
  }

  method Sort<T(!new)>(a: array<T>, lo: nat, n: nat, cmp: (T, T) -> int)
    requires TotalPreorder(cmp) && lo + n <= a.Length
    modifies a
    ensures OrderedIn(cmp, a[..], lo, lo + n)
    ensures Shuffled(old(a[..]), a[..], lo, lo + n)
  {
    hide TotalPreorder, HeapFrom, Shuffled, Swapped, Extracted, OrderedIn;
    ghost var s := a[..];
    if n > 1 {
      BuildHeap(a, lo, n, cmp);
      var i := n - 1;
      ExtractStart(cmp, a[..], lo, n);
      while i > 0
        invariant 0 <= i < n
        invariant Extracted(cmp, a[..], lo, i + 1, n)
        invariant Shuffled(s, a[..], lo, lo + n)
      {
        ghost var t := a[..];
        Swap(a, lo, lo + i, lo, lo + n);
        ghost var t' := a[..];
        HeapShrinks(cmp, t, lo, i, n);
        SiftDown(a, lo, i, 0, cmp);
        ExtractStep(cmp, t, a[..], lo, i + 1, n);
        ShuffledTrans(s, t, t', lo, lo + n);
        ShuffledStep(s, t', a[..], lo, lo + i, lo, lo + n);
        i := i - 1;
      }
      ExtractEnd(cmp, a[..], lo, n);
    } else {
      ShuffledSelf(s, lo, lo + n);
      OrderedOne(cmp, s, lo, n);
    }
  }

  lemma {:induction false} OrderedOne<T>(cmp: (T, T) -> int, s: seq<T>, lo: nat, n: nat)
    requires n <= 1 && lo + n <= |s|
    ensures OrderedIn(cmp, s, lo, lo + n)
  {
  }

  lemma {:induction false} ExtractStart<T>(cmp: (T, T) -> int, s: seq<T>, lo: nat, n: nat)
    requires lo + n <= |s| && HeapFrom(cmp, s, lo, n, 0)
    ensures Extracted(cmp, s, lo, n, n)
  {
  }

  lemma {:induction false} ExtractEnd<T>(cmp: (T, T) -> int, s: seq<T>, lo: nat, n: nat)
    requires 1 <= n && lo + n <= |s| && Extracted(cmp, s, lo, 1, n)
    ensures OrderedIn(cmp, s, lo, lo + n)
  {
  }

  /** Without its last element, and with another root, only the root may be out of place. */
  lemma {:induction false} HeapShrinks<T>(cmp: (T, T) -> int, s: seq<T>, lo: nat, m: nat, n: nat)
    requires m < n && lo + n <= |s| && Extracted(cmp, s, lo, m + 1, n)
    ensures HeapFrom(cmp, Swapped(s, lo, lo + m), lo, m, 1)
  {
    var t := Swapped(s, lo, lo + m);
    forall k: nat | 1 <= k < m
      ensures HeapAt(cmp, t, lo, m, k)
    {
      assert HeapAt(cmp, s, lo, m + 1, k);
    }
  }
}
