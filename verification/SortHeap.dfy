/** The heapsort that bounds the worst case of the quicksort. */
module SortHeap {
  import opened SortBase

  /** The heap starts at `lo`; child `c` does not exceed its parent. */
  ghost predicate UnderParent<T(!new)>(cmp: Cmp<T>, s: seq<T>, lo: nat, c: nat)
    requires 0 < c && lo + c < |s|
  {
    Le(cmp, s[lo + c], s[lo + (c - 1) / 2])
  }

  /** Every child whose parent is at `from` or later, apart from the children of `r`, is under its parent. */
  ghost predicate HeapBut<T(!new)>(cmp: Cmp<T>, s: seq<T>, lo: nat, n: nat, from: nat, r: int)
    requires lo + n <= |s|
  {
    forall c :: 0 < c < n && from <= (c - 1) / 2 != r ==> UnderParent(cmp, s, lo, c)
  }

  ghost predicate Heap<T(!new)>(cmp: Cmp<T>, s: seq<T>, lo: nat, n: nat, from: nat)
    requires lo + n <= |s|
  {
    HeapBut(cmp, s, lo, n, from, -1)
  }

  /** Child `c` of `r` does not exceed the parent of `r`. */
  ghost predicate UnderGrandparent<T(!new)>(cmp: Cmp<T>, s: seq<T>, lo: nat, n: nat, r: nat, c: nat)
    requires lo + n <= |s|
  {
    0 < r < c < n ==> Le(cmp, s[lo + c], s[lo + (r - 1) / 2])
  }

  /** A heap from `from` on, except that the element at `r` may still be too small for its place. */
  ghost predicate Sifting<T(!new)>(cmp: Cmp<T>, s: seq<T>, lo: nat, n: nat, from: nat, r: nat)
    requires lo + n <= |s|
  {
    && from <= r < n && HeapBut(cmp, s, lo, n, from, r)
    && (r > from ==> from <= (r - 1) / 2)
    && (r > from ==> UnderGrandparent(cmp, s, lo, n, r, 2 * r + 1) && UnderGrandparent(cmp, s, lo, n, r, 2 * r + 2))
  }

  lemma StartSifting<T(!new)>(cmp: Cmp<T>, s: seq<T>, lo: nat, n: nat, from: nat)
    requires lo + n <= |s| && from < n && Heap(cmp, s, lo, n, from + 1)
    ensures Sifting(cmp, s, lo, n, from, from)
  {
  }

  /** `c` is the child of `r` that the code compares it with. */
  ghost predicate LargerChild<T(!new)>(cmp: Cmp<T>, s: seq<T>, lo: nat, n: nat, r: nat, c: nat)
    requires lo + n <= |s|
  {
    && 2 * r + 1 <= c <= 2 * r + 2 && c < n
    && Le(cmp, s[lo + 2 * r + 1], s[lo + c])
    && (2 * r + 2 < n ==> Le(cmp, s[lo + 2 * r + 2], s[lo + c]))
  }

  lemma SiftStep<T(!new)>(cmp: Cmp<T>, s: seq<T>, lo: nat, n: nat, from: nat, r: nat, c: nat)
    requires TotalPreorder(cmp) && lo + n <= |s| && Sifting(cmp, s, lo, n, from, r)
    requires LargerChild(cmp, s, lo, n, r, c) && Le(cmp, s[lo + r], s[lo + c])
    ensures Sifting(cmp, Exchanged(s, lo + r, lo + c), lo, n, from, c)
  {
    hide TotalPreorder, Le;
    var t := Exchanged(s, lo + r, lo + c);
    forall d | 0 < d < n && from <= (d - 1) / 2 != c
      ensures UnderParent(cmp, t, lo, d)
    {
      if d == r {
      } else if (d - 1) / 2 == r {
      } else {
        assert UnderParent(cmp, s, lo, d);
      }
    }
    if 2 * c + 1 < n {
      assert UnderParent(cmp, s, lo, 2 * c + 1);
    }
    if 2 * c + 2 < n {
      assert UnderParent(cmp, s, lo, 2 * c + 2);
    }
  }

  lemma SiftDone<T(!new)>(cmp: Cmp<T>, s: seq<T>, lo: nat, n: nat, from: nat, r: nat)
    requires TotalPreorder(cmp) && lo + n <= |s| && Sifting(cmp, s, lo, n, from, r)
    requires 2 * r + 1 < n ==> exists c: nat :: LargerChild(cmp, s, lo, n, r, c) && Le(cmp, s[lo + c], s[lo + r])
    ensures Heap(cmp, s, lo, n, from)
  {
    forall d | 0 < d < n && from <= (d - 1) / 2
      ensures UnderParent(cmp, s, lo, d)
    {
      if (d - 1) / 2 == r {
        var c: nat :| LargerChild(cmp, s, lo, n, r, c) && Le(cmp, s[lo + c], s[lo + r]);
        LeTrans(cmp, s[lo + d], s[lo + c], s[lo + r]);
      }
    }
  }

  /** Picks the larger child of `r`, the second one of two equal children. */
  method PickChild<T(!new)>(cmp: Cmp<T>, a: array<T>, lo: nat, n: nat, r: nat, ghost s: seq<T>) returns (c: nat)
    requires TotalPreorder(cmp) && Holds(a, s) && lo + n <= |s| == a.Length && 2 * r + 1 < n
    ensures r < c && LargerChild(cmp, s, lo, n, r, c)
  {
    c := r * 2 + 1;
    LeFacts(cmp, s[lo + c], s[lo + c]);
    if c < n - 1 {
      var order := CompareAt(cmp, a, lo + c, lo + c + 1, s);
      LeFacts(cmp, s[lo + c], s[lo + c + 1]);
      if order <= 0 {
        c := c + 1;
      }
    }
  }

  lemma ChildWithin<T(!new)>(cmp: Cmp<T>, s: seq<T>, lo: nat, n: nat, r: nat, c: nat)
    requires lo + n <= |s| && LargerChild(cmp, s, lo, n, r, c)
    ensures c < n
  {
  }

  /** One sift-down: `lo[from]` sinks until the part from `from` on is a heap. */
  method SiftDown<T(!new)>(cmp: Cmp<T>, a: array<T>, lo: nat, n: nat, from: nat, ghost was: seq<T>)
    returns (ghost next: seq<T>)
    requires TotalPreorder(cmp) && Holds(a, was) && lo + n <= |was| == a.Length && from < n && Heap(cmp, was, lo, n, from + 1)
    modifies a
    ensures Holds(a, next) && |next| == |was| && Rearranged(was, next, lo, lo + n) && Heap(cmp, next, lo, n, from)
  {
    hide Holds, Rearranged, Heap, HeapBut, Sifting, Exchanged, TotalPreorder, LargerChild, Compare, Le;
    next := was;
    RearrangedRefl(was, lo, lo + n);
    StartSifting(cmp, was, lo, n, from);
    var r := from;
    while r * 2 + 1 < n
      invariant Holds(a, next) && |next| == |was| && r < n
      invariant Rearranged(was, next, lo, lo + n) && Sifting(cmp, next, lo, n, from, r)
      decreases n - r
    {
      var c := PickChild(cmp, a, lo, n, r, next);
      ChildWithin(cmp, next, lo, n, r, c);
      var order := CompareAt(cmp, a, lo + r, lo + c, next);
      LeFacts(cmp, next[lo + r], next[lo + c]);
      if order > 0 {
        break;
      }
      SiftStep(cmp, next, lo, n, from, r, c);
      next := Exchange(a, lo + r, lo + c, was, next, lo, lo + n);
      r := c;
    }
    SiftDone(cmp, next, lo, n, from, r);
  }

  /** The root of a heap is its largest element. */
  lemma {:induction false} RootLargest<T(!new)>(cmp: Cmp<T>, s: seq<T>, lo: nat, n: nat, c: nat)
    requires TotalPreorder(cmp) && lo + n <= |s| && Heap(cmp, s, lo, n, 0) && c < n
    ensures Le(cmp, s[lo + c], s[lo])
  {
    if c == 0 {
      LeFacts(cmp, s[lo], s[lo]);
    } else {
      assert UnderParent(cmp, s, lo, c);
      RootLargest(cmp, s, lo, n, (c - 1) / 2);
      LeTrans(cmp, s[lo + c], s[lo + (c - 1) / 2], s[lo]);
    }
  }

  /** Of the `n` elements at `lo`, those from `i` on are in order and none before `i` exceeds them. */
  ghost predicate TailSorted<T(!new)>(cmp: Cmp<T>, s: seq<T>, lo: nat, n: nat, i: nat)
    requires lo + n <= |s|
  {
    forall j, k :: lo <= j < k < lo + n && lo + i <= k ==> Le(cmp, s[j], s[k])
  }

  /** Moving the root behind the heap extends the sorted tail. */
  lemma RootMoved<T(!new)>(cmp: Cmp<T>, s: seq<T>, lo: nat, n: nat, i: nat)
    requires TotalPreorder(cmp) && lo + n <= |s| && 0 < i < n
    requires Heap(cmp, s, lo, i + 1, 0) && TailSorted(cmp, s, lo, n, i + 1)
    ensures TailSorted(cmp, Exchanged(s, lo, lo + i), lo, n, i)
    ensures Heap(cmp, Exchanged(s, lo, lo + i), lo, i, 1)
  {
    var t := Exchanged(s, lo, lo + i);
    forall c | 0 < c < i && 1 <= (c - 1) / 2
      ensures UnderParent(cmp, t, lo, c)
    {
      assert UnderParent(cmp, s, lo, c);
    }
    RootFirst(cmp, s, lo, n, i);
  }

  lemma RootFirst<T(!new)>(cmp: Cmp<T>, s: seq<T>, lo: nat, n: nat, i: nat)
    requires TotalPreorder(cmp) && lo + n <= |s| && 0 < i < n
    requires Heap(cmp, s, lo, i + 1, 0) && TailSorted(cmp, s, lo, n, i + 1)
    ensures TailSorted(cmp, Exchanged(s, lo, lo + i), lo, n, i)
  {
    var t := Exchanged(s, lo, lo + i);
    forall j, k | lo <= j < k < lo + n && lo + i <= k
      ensures Le(cmp, t[j], t[k])
    {
      if k == lo + i {
        RootLargest(cmp, s, lo, i + 1, if j == lo then i else j - lo);
      }
    }
  }

  /** What is rearranged before the tail stays below it. */
  lemma TailKept<T(!new)>(cmp: Cmp<T>, s: seq<T>, t: seq<T>, lo: nat, n: nat, i: nat)
    requires lo + n <= |s| && i <= n && TailSorted(cmp, s, lo, n, i) && Rearranged(s, t, lo, lo + i)
    ensures TailSorted(cmp, t, lo, n, i)
  {
    forall j, k | lo <= j < k < lo + n && lo + i <= k
      ensures Le(cmp, t[j], t[k])
    {
      assert t[k] == t[lo + i..][k - lo - i] == s[lo + i..][k - lo - i] == s[k];
      if j < lo + i {
        var j' := CameFrom(s, t, lo, lo + i, j);
      } else {
        assert t[j] == t[lo + i..][j - lo - i] == s[lo + i..][j - lo - i] == s[j];
      }
    }
  }

  lemma TailIsAll<T(!new)>(cmp: Cmp<T>, s: seq<T>, lo: nat, n: nat)
    requires lo + n <= |s|
    requires n <= 1 || TailSorted(cmp, s, lo, n, 1)
    ensures Sorted(cmp, s[lo..lo + n])
  {
  }

  lemma NoTail<T(!new)>(cmp: Cmp<T>, s: seq<T>, lo: nat, n: nat)
    requires lo + n <= |s|
    ensures TailSorted(cmp, s, lo, n, n)
  {
  }

  lemma NoParents<T(!new)>(cmp: Cmp<T>, s: seq<T>, lo: nat, n: nat, i: nat)
    requires lo + n <= |s| && n / 2 <= i
    ensures Heap(cmp, s, lo, n, i)
  {
  }

  /** Sifting the rearranged front keeps the tail. */
  lemma FrontSifted<T(!new)>(cmp: Cmp<T>, was: seq<T>, s: seq<T>, t: seq<T>, lo: nat, n: nat, i: nat)
    requires Rearranged(was, s, lo, lo + n) && i <= n && Rearranged(s, t, lo, lo + i)
    requires lo + n <= |s| && TailSorted(cmp, s, lo, n, i)
    ensures TailSorted(cmp, t, lo, n, i) && Rearranged(was, t, lo, lo + n)
  {
    TailKept(cmp, s, t, lo, n, i);
    RearrangedWider(s, t, lo, lo + i, lo, lo + n);
    RearrangedTrans(was, s, t, lo, lo + n);
  }

  /** Turns the `n` elements at `lo` into a heap, from the last parent to the first. */
  method MakeHeap<T(!new)>(cmp: Cmp<T>, a: array<T>, lo: nat, n: nat, ghost was: seq<T>)
    returns (ghost next: seq<T>)
    requires TotalPreorder(cmp) && Holds(a, was) && lo + n <= |was| == a.Length
    modifies a
    ensures Holds(a, next) && |next| == |was| && Rearranged(was, next, lo, lo + n) && Heap(cmp, next, lo, n, 0)
  {
    hide Holds, Rearranged, Heap, TotalPreorder;
    next := was;
    RearrangedRefl(was, lo, lo + n);
    var i: nat := n / 2;
    NoParents(cmp, next, lo, n, i);
    while i > 0
      invariant Holds(a, next) && |next| == |was| && i <= n / 2
      invariant Rearranged(was, next, lo, lo + n) && Heap(cmp, next, lo, n, i)
    {
      i := i - 1;
      ghost var sifted := SiftDown(cmp, a, lo, n, i, next);
      RearrangedTrans(was, next, sifted, lo, lo + n);
      next := sifted;
    }
  }

  /** Moves the root behind the heap over and over. */
  method TakeRoots<T(!new)>(cmp: Cmp<T>, a: array<T>, lo: nat, n: nat, ghost was: seq<T>)
    returns (ghost next: seq<T>)
    requires TotalPreorder(cmp) && Holds(a, was) && lo + n <= |was| == a.Length && 0 < n && Heap(cmp, was, lo, n, 0)
    modifies a
    ensures Holds(a, next) && |next| == |was| && Rearranged(was, next, lo, lo + n) && TailSorted(cmp, next, lo, n, 1)
  {
    hide Holds, Rearranged, Heap, TailSorted, Exchanged, TotalPreorder, Le;
    next := was;
    RearrangedRefl(was, lo, lo + n);
    NoTail(cmp, next, lo, n);
    for i := n - 1 downto 0
      invariant Holds(a, next) && |next| == |was|
      invariant Rearranged(was, next, lo, lo + n)
      invariant Heap(cmp, next, lo, i + 1, 0) && TailSorted(cmp, next, lo, n, i + 1)
    {
      RootMoved(cmp, next, lo, n, i + 1);
      next := Exchange(a, lo, lo + i + 1, was, next, lo, lo + n);
      ghost var sifted := SiftDown(cmp, a, lo, i + 1, 0, next);
      FrontSifted(cmp, was, next, sifted, lo, n, i + 1);
      next := sifted;
    }
  }

  /** First the whole becomes a heap, then its elements are taken from the root. */
  method HeapSort<T(!new)>(cmp: Cmp<T>, a: array<T>, lo: nat, n: nat, ghost was: seq<T>)
    returns (ghost next: seq<T>)
    requires TotalPreorder(cmp) && Holds(a, was) && lo + n <= |was| == a.Length
    modifies a
    ensures Holds(a, next) && |next| == |was| && Rearranged(was, next, lo, lo + n) && Sorted(cmp, next[lo..lo + n])
  {
    hide Holds, Rearranged, Heap, TailSorted, TotalPreorder, Sorted;
    next := was;
    RearrangedRefl(was, lo, lo + n);
    if n > 1 {
      next := MakeHeap(cmp, a, lo, n, was);
      ghost var heap := next;
      next := TakeRoots(cmp, a, lo, n, heap);
      RearrangedTrans(was, heap, next, lo, lo + n);
    }
    TailIsAll(cmp, next, lo, n);
  }
}
