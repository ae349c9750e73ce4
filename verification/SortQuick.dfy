/**
 * The quicksort: a three-way partition around a median of three, an explicit stack of pending
 * segments, heapsort when a segment has been split too often and insertion sort for short ones.
 */
module SortQuick {
  import opened SortBase
  import SortHeap

  ghost predicate Between<T(!new)>(cmp: Cmp<T>, x: T, m: T, y: T) {
    Le(cmp, x, m) && Le(cmp, m, y)
  }

  /** The middle one of the three, whatever their order. */
  ghost predicate Median<T(!new)>(cmp: Cmp<T>, x: T, y: T, z: T, m: T) {
    || (m == x && (Between(cmp, y, x, z) || Between(cmp, z, x, y)))
    || (m == y && (Between(cmp, x, y, z) || Between(cmp, z, y, x)))
    || (m == z && (Between(cmp, x, z, y) || Between(cmp, y, z, x)))
  }

  /** The index, out of the three, of an element between the other two. */
  method Med3<T(!new)>(cmp: Cmp<T>, a: array<T>, x: nat, y: nat, z: nat, ghost s: seq<T>) returns (m: nat)
    requires TotalPreorder(cmp) && Holds(a, s) && |s| == a.Length && x < |s| && y < |s| && z < |s|
    ensures (m == x || m == y || m == z) && Median(cmp, s[x], s[y], s[z], s[m])
  {
    var xy := CompareAt(cmp, a, x, y, s);
    var yz := CompareAt(cmp, a, y, z, s);
    var xz := CompareAt(cmp, a, x, z, s);
    LeFacts(cmp, s[x], s[y]);
    LeFacts(cmp, s[y], s[z]);
    LeFacts(cmp, s[x], s[z]);
    m := if xy < 0 then (if yz < 0 then y else if xz < 0 then z else x)
         else if yz > 0 then y else if xz < 0 then x else z;
  }

  // ----- partition -----

  ghost predicate Same<T(!new)>(cmp: Cmp<T>, p: T, x: T) { Le(cmp, p, x) && Le(cmp, x, p) }

  ghost predicate Less<T(!new)>(cmp: Cmp<T>, p: T, x: T) { !Le(cmp, p, x) }

  ghost predicate Greater<T(!new)>(cmp: Cmp<T>, p: T, x: T) { !Le(cmp, x, p) }

  ghost predicate AllSame<T(!new)>(cmp: Cmp<T>, p: T, s: seq<T>, from: int, to: int) {
    forall k :: 0 <= k < |s| && from <= k < to ==> Same(cmp, p, s[k])
  }

  ghost predicate AllLess<T(!new)>(cmp: Cmp<T>, p: T, s: seq<T>, from: int, to: int) {
    forall k :: 0 <= k < |s| && from <= k < to ==> Less(cmp, p, s[k])
  }

  ghost predicate AllGreater<T(!new)>(cmp: Cmp<T>, p: T, s: seq<T>, from: int, to: int) {
    forall k :: 0 <= k < |s| && from <= k < to ==> Greater(cmp, p, s[k])
  }

  /** While scanning: equal, smaller, not looked at, greater, equal; the pivot stays first. */
  ghost predicate Scanned<T(!new)>(cmp: Cmp<T>, p: T, s: seq<T>, b: nat, lt: int, i: int, j: int, gt: int, e: nat) {
    && b < lt <= i <= j <= gt <= e <= |s| && s[b] == p
    && AllSame(cmp, p, s, b, lt) && AllLess(cmp, p, s, lt, i)
    && AllGreater(cmp, p, s, j, gt) && AllSame(cmp, p, s, gt, e)
  }

  lemma StartScan<T(!new)>(cmp: Cmp<T>, s: seq<T>, b: nat, e: nat)
    requires TotalPreorder(cmp) && b < e <= |s|
    ensures Scanned(cmp, s[b], s, b, b + 1, b + 1, e, e, e)
  {
    LeFacts(cmp, s[b], s[b]);
  }

  /** An element smaller than the pivot: the left part grows. */
  lemma SmallerLeft<T(!new)>(cmp: Cmp<T>, p: T, s: seq<T>, b: nat, lt: int, i: int, j: int, gt: int, e: nat)
    requires Scanned(cmp, p, s, b, lt, i, j, gt, e) && i < j && Less(cmp, p, s[i])
    ensures Scanned(cmp, p, s, b, lt, i + 1, j, gt, e)
  {
  }

  lemma GreaterRight<T(!new)>(cmp: Cmp<T>, p: T, s: seq<T>, b: nat, lt: int, i: int, j: int, gt: int, e: nat)
    requires Scanned(cmp, p, s, b, lt, i, j + 1, gt, e) && i <= j < |s| && Greater(cmp, p, s[j])
    ensures Scanned(cmp, p, s, b, lt, i, j, gt, e)
  {
  }

  /** An element equal to the pivot on the left goes to the equal ones at the left end. */
  lemma EqualLeft<T(!new)>(cmp: Cmp<T>, p: T, s: seq<T>, b: nat, lt: int, i: int, j: int, gt: int, e: nat)
    requires Scanned(cmp, p, s, b, lt, i, j, gt, e) && i < j && Same(cmp, p, s[i])
    ensures Scanned(cmp, p, Exchanged(s, lt, i), b, lt + 1, i + 1, j, gt, e)
  {
    hide Same, Less, Greater;
  }

  lemma EqualRight<T(!new)>(cmp: Cmp<T>, p: T, s: seq<T>, b: nat, lt: int, i: int, j: int, gt: int, e: nat)
    requires Scanned(cmp, p, s, b, lt, i, j + 1, gt, e) && i < j && j < gt && Same(cmp, p, s[j])
    ensures Scanned(cmp, p, Exchanged(s, gt - 1, j), b, lt, i, j, gt - 1, e)
  {
    hide Same, Less, Greater;
  }

  /** Two misplaced elements change sides. */
  lemma SidesExchanged<T(!new)>(cmp: Cmp<T>, p: T, s: seq<T>, b: nat, lt: int, i: int, j: int, gt: int, e: nat)
    requires Scanned(cmp, p, s, b, lt, i, j + 1, gt, e) && i < j < gt && Greater(cmp, p, s[i]) && Less(cmp, p, s[j])
    ensures Scanned(cmp, p, Exchanged(s, i, j), b, lt, i + 1, j, gt, e)
  {
    hide Same, Less, Greater;
  }

  lemma SignOf<T(!new)>(cmp: Cmp<T>, p: T, x: T, c: int)
    requires TotalPreorder(cmp) && (c <= 0 <==> Le(cmp, p, x)) && (c >= 0 <==> Le(cmp, x, p))
    ensures c == 0 <==> Same(cmp, p, x)
    ensures c > 0 <==> Less(cmp, p, x)
    ensures c < 0 <==> Greater(cmp, p, x)
  {
  }

  lemma ScanBounds<T(!new)>(cmp: Cmp<T>, p: T, s: seq<T>, b: nat, lt: int, i: int, j: int, gt: int, e: nat)
    requires Scanned(cmp, p, s, b, lt, i, j, gt, e)
    ensures b < lt <= i <= j <= gt <= e <= |s| && s[b] == p
  {
  }

  /** From `i` up: stops at the first element greater than the pivot. */
  method ScanLeft<T(!new)>(cmp: Cmp<T>, a: array<T>, b: nat, lt0: nat, i0: nat, j: nat, ghost gt: nat, ghost e: nat,
                           ghost p: T, ghost was: seq<T>)
    returns (lt: nat, i: nat, ghost next: seq<T>)
    requires TotalPreorder(cmp) && Holds(a, was) && |was| == a.Length && Scanned(cmp, p, was, b, lt0, i0, j, gt, e)
    modifies a
    ensures Holds(a, next) && |next| == |was| && Rearranged(was, next, b, e)
    ensures Scanned(cmp, p, next, b, lt, i, j, gt, e)
    ensures i < j ==> i < |next| && Greater(cmp, p, next[i])
  {
    hide Holds, Rearranged, Scanned, Exchanged, TotalPreorder, Same, Less, Greater, Le;
    ScanBounds(cmp, p, was, b, lt0, i0, j, gt, e);
    RearrangedRefl(was, b, e);
    lt, i, next := lt0, i0, was;
    while i < j
      invariant Holds(a, next) && |next| == |was| && Rearranged(was, next, b, e)
      invariant b < lt <= i <= j <= gt <= e <= |next| && Scanned(cmp, p, next, b, lt, i, j, gt, e)
    {
      ScanBounds(cmp, p, next, b, lt, i, j, gt, e);
      var c := CompareAt(cmp, a, b, i, next);
      SignOf(cmp, p, next[i], c);
      if c < 0 {
        break;
      }
      if c == 0 {
        EqualLeft(cmp, p, next, b, lt, i, j, gt, e);
        next := Exchange(a, lt, i, was, next, b, e);
        lt := lt + 1;
      } else {
        SmallerLeft(cmp, p, next, b, lt, i, j, gt, e);
      }
      i := i + 1;
    }
  }

  /** From `j0` down: stops at the first element smaller than the pivot, or at `i`. */
  method ScanRight<T(!new)>(cmp: Cmp<T>, a: array<T>, b: nat, ghost lt: nat, i: nat, j0: nat, gt0: nat, ghost e: nat,
                            ghost p: T, ghost was: seq<T>)
    returns (j: int, gt: nat, ghost next: seq<T>)
    requires TotalPreorder(cmp) && Holds(a, was) && |was| == a.Length && Scanned(cmp, p, was, b, lt, i, j0, gt0, e)
    requires i < j0 ==> i < |was| && Greater(cmp, p, was[i])
    modifies a
    ensures Holds(a, next) && |next| == |was| && Rearranged(was, next, b, e)
    ensures j < j0
    ensures i < j ==> j < gt && Scanned(cmp, p, next, b, lt, i, j + 1, gt, e)
    ensures i < j ==> i < j < |next| && Greater(cmp, p, next[i]) && Less(cmp, p, next[j])
    ensures i >= j ==> Scanned(cmp, p, next, b, lt, i, i, gt, e)
  {
    hide Holds, Rearranged, Scanned, TotalPreorder, Same, Less, Greater, Le;
    ScanBounds(cmp, p, was, b, lt, i, j0, gt0, e);
    RearrangedRefl(was, b, e);
    j, gt, next := j0 - 1, gt0, was;
    while i < j
      invariant Holds(a, next) && |next| == |was| && Rearranged(was, next, b, e)
      invariant i - 1 <= j < gt <= e <= |next| && Scanned(cmp, p, next, b, lt, i, j + 1, gt, e)
      invariant i <= j ==> Greater(cmp, p, next[i])
      decreases j
    {
      ScanBounds(cmp, p, next, b, lt, i, j + 1, gt, e);
      var c := CompareAt(cmp, a, b, j, next);
      SignOf(cmp, p, next[j], c);
      if c > 0 {
        break;
      }
      if c == 0 {
        EqualRight(cmp, p, next, b, lt, i, j, gt, e);
        gt := gt - 1;
        next := Exchange(a, gt, j, was, next, b, e);
      } else {
        GreaterRight(cmp, p, next, b, lt, i, j, gt, e);
      }
      j := j - 1;
    }
    if i == j {
      GreaterRight(cmp, p, next, b, lt, i, j, gt, e);
    }
  }

  /** Smaller, equal and greater elements, in this order. */
  ghost predicate Parted<T(!new)>(cmp: Cmp<T>, p: T, s: seq<T>, b: nat, lt: nat, gt: nat, e: nat) {
    && b <= lt < gt <= e <= |s|
    && AllLess(cmp, p, s, b, lt) && AllSame(cmp, p, s, lt, gt) && AllGreater(cmp, p, s, gt, e)
  }

  /** After the equal ones of the left end moved to the middle. */
  ghost predicate LeftDone<T(!new)>(cmp: Cmp<T>, p: T, s: seq<T>, b: nat, lt: nat, i: nat, gt: nat, e: nat) {
    && b <= lt < i <= gt <= e <= |s|
    && AllLess(cmp, p, s, b, lt) && AllSame(cmp, p, s, lt, i)
    && AllGreater(cmp, p, s, i, gt) && AllSame(cmp, p, s, gt, e)
  }

  lemma LeftGathered<T(!new)>(cmp: Cmp<T>, p: T, s: seq<T>, t: seq<T>, b: nat, lt: nat, i: nat, gt: nat, e: nat, span: nat)
    requires Scanned(cmp, p, s, b, lt, i, i, gt, e) && span == Min(lt - b, i - lt)
    requires BlocksExchanged(s, t, b, i - span, span)
    ensures LeftDone(cmp, p, t, b, b + (i - lt), i, gt, e)
  {
    hide Same, Less, Greater;
  }

  lemma RightGathered<T(!new)>(cmp: Cmp<T>, p: T, s: seq<T>, t: seq<T>, b: nat, lt: nat, i: nat, gt: nat, e: nat, span: nat)
    requires LeftDone(cmp, p, s, b, lt, i, gt, e) && span == Min(e - gt, gt - i)
    requires BlocksExchanged(s, t, i, e - span, span)
    ensures Parted(cmp, p, t, b, lt, e - (gt - i), e)
  {
    hide Same, Less, Greater;
  }

  function Min(x: int, y: int): int { if x > y then y else x }

  /** The four parts of a finished scan. */
  method Scan<T(!new)>(cmp: Cmp<T>, a: array<T>, b: nat, e: nat, ghost was: seq<T>)
    returns (lt: nat, i: nat, gt: nat, ghost next: seq<T>)
    requires TotalPreorder(cmp) && Holds(a, was) && |was| == a.Length && b < e <= |was|
    modifies a
    ensures Holds(a, next) && |next| == |was| && Rearranged(was, next, b, e)
    ensures b < lt <= i <= gt <= e && Scanned(cmp, was[b], next, b, lt, i, i, gt, e)
  {
    hide Holds, Rearranged, Scanned, TotalPreorder, Same, Less, Greater, Le;
    ghost var p := was[b];
    RearrangedRefl(was, b, e);
    StartScan(cmp, was, b, e);
    lt, i, gt, next := b + 1, b + 1, e, was;
    var j: int := e;
    while true
      invariant Holds(a, next) && |next| == |was| && Rearranged(was, next, b, e)
      invariant b < lt <= i <= j <= gt <= e && Scanned(cmp, p, next, b, lt, i, j, gt, e)
      decreases j
    {
      ghost var before := next;
      ghost var j0 := j;
      lt, i, next := ScanLeft(cmp, a, b, lt, i, j, gt, e, p, before);
      RearrangedTrans(was, before, next, b, e);
      before := next;
      j, gt, next := ScanRight(cmp, a, b, lt, i, j, gt, e, p, before);
      RearrangedTrans(was, before, next, b, e);
      if i >= j {
        break;
      }
      SidesExchanged(cmp, p, next, b, lt, i, j, gt, e);
      ScanBounds(cmp, p, next, b, lt, i, j + 1, gt, e);
      next := Exchange(a, i, j, was, next, b, e);
      i := i + 1;
    }
    ScanBounds(cmp, p, next, b, lt, i, i, gt, e);
  }

  /** Partitions the part from `b` to `e` around the median of three of its elements. */
  method Partition<T(!new)>(cmp: Cmp<T>, a: array<T>, b: nat, e: nat, ghost was: seq<T>)
    returns (lt': nat, gt': nat, ghost next: seq<T>, ghost p: T)
    requires TotalPreorder(cmp) && Holds(a, was) && |was| == a.Length && b + 6 < e <= |was|
    modifies a
    ensures Holds(a, next) && |next| == |was| && Rearranged(was, next, b, e)
    ensures Parted(cmp, p, next, b, lt', gt', e)
    ensures var m4 := (e - b) / 4; Median(cmp, was[b + m4], was[b + 2 * m4], was[b + 3 * m4], p)
  {
    hide Holds, Rearranged, Scanned, TotalPreorder, BlocksExchanged, LeftDone, Median;
    var m4 := (e - b) / 4;
    var m := Med3(cmp, a, b + m4, b + 2 * m4, b + 3 * m4, was);
    RearrangedRefl(was, b, e);
    next := Exchange(a, b, m, was, was, b, e);
    p := next[b];
    ghost var before := next;
    var lt, i, gt;
    lt, i, gt, next := Scan(cmp, a, b, e, before);
    RearrangedTrans(was, before, next, b, e);
    var span := Min(lt - b, i - lt);
    before := next;
    next := SwapBlock(a, b, i - span, span, before, b, e);
    RearrangedTrans(was, before, next, b, e);
    LeftGathered(cmp, p, before, next, b, lt, i, gt, e, span);
    span := Min(e - gt, gt - i);
    before := next;
    lt' := b + (i - lt);
    gt' := e - (gt - i);
    next := SwapBlock(a, i, e - span, span, before, b, e);
    RearrangedTrans(was, before, next, b, e);
    RightGathered(cmp, p, before, next, b, lt', i, gt, e, span);
  }

  // ----- insertion sort -----

  /** All pairs from `b` to `e` in order, except those whose second element is at `j`. */
  ghost predicate Inserting<T(!new)>(cmp: Cmp<T>, s: seq<T>, b: nat, j: nat, e: nat) {
    && b <= j < e <= |s|
    && (forall k, l :: b <= k < l < e && l != j ==> Le(cmp, s[k], s[l]))
  }

  ghost predicate Ordered<T(!new)>(cmp: Cmp<T>, s: seq<T>, b: nat, e: nat) {
    && b <= e <= |s|
    && (forall k, l :: b <= k < l < e ==> Le(cmp, s[k], s[l]))
  }

  lemma StartInsert<T(!new)>(cmp: Cmp<T>, s: seq<T>, b: nat, e: nat)
    requires Ordered(cmp, s, b, e) && e < |s|
    ensures Inserting(cmp, s, b, e, e + 1)
  {
  }

  lemma InsertStep<T(!new)>(cmp: Cmp<T>, s: seq<T>, b: nat, j: nat, e: nat)
    requires TotalPreorder(cmp) && Inserting(cmp, s, b, j, e) && b < j && !Le(cmp, s[j - 1], s[j])
    ensures Inserting(cmp, Exchanged(s, j, j - 1), b, j - 1, e)
  {
    LeFacts(cmp, s[j - 1], s[j]);
    hide Le;
  }

  lemma InsertDone<T(!new)>(cmp: Cmp<T>, s: seq<T>, b: nat, j: nat, e: nat)
    requires TotalPreorder(cmp) && Inserting(cmp, s, b, j, e) && (b < j ==> Le(cmp, s[j - 1], s[j]))
    ensures Ordered(cmp, s, b, e)
  {
    forall k, l | b <= k < l < e
      ensures Le(cmp, s[k], s[l])
    {
      if l == j && k < j - 1 {
        LeTrans(cmp, s[k], s[j - 1], s[j]);
      }
    }
  }

  lemma OneOrdered<T(!new)>(cmp: Cmp<T>, s: seq<T>, b: nat)
    requires b < |s|
    ensures Ordered(cmp, s, b, b + 1)
  {
  }

  lemma OrderedIsSorted<T(!new)>(cmp: Cmp<T>, s: seq<T>, b: nat, e: nat)
    requires Ordered(cmp, s, b, e)
    ensures Sorted(cmp, s[b..e])
  {
  }

  /** Sorts the `n` elements at `b` by moving each one down to its place. */
  method InsertionSort<T(!new)>(cmp: Cmp<T>, a: array<T>, b: nat, n: nat, ghost was: seq<T>)
    returns (ghost next: seq<T>)
    requires TotalPreorder(cmp) && Holds(a, was) && b + n <= |was| == a.Length
    modifies a
    ensures Holds(a, next) && |next| == |was| && Rearranged(was, next, b, b + n)
    ensures Sorted(cmp, next[b..b + n])
  {
    hide Holds, Rearranged, Exchanged, TotalPreorder, Le, Inserting, Ordered, Sorted;
    next := was;
    RearrangedRefl(was, b, b + n);
    if n == 0 {
      NothingSorted(cmp, next, b);
      return;
    }
    OneOrdered(cmp, next, b);
    var i := b + 1;
    while i < b + n
      invariant Holds(a, next) && |next| == |was| && Rearranged(was, next, b, b + n)
      invariant b < i <= b + n && Ordered(cmp, next, b, i)
    {
      StartInsert(cmp, next, b, i);
      next := Insert(cmp, a, b, i, b + n, was, next);
      i := i + 1;
    }
    OrderedIsSorted(cmp, next, b, b + n);
  }

  lemma NothingSorted<T(!new)>(cmp: Cmp<T>, s: seq<T>, b: nat)
    requires b <= |s|
    ensures Sorted(cmp, s[b..b])
  {
  }

  method Insert<T(!new)>(cmp: Cmp<T>, a: array<T>, b: nat, i: nat, ghost e: nat, ghost was: seq<T>, ghost now: seq<T>)
    returns (ghost next: seq<T>)
    requires TotalPreorder(cmp) && Holds(a, now) && |now| == |was| == a.Length && Rearranged(was, now, b, e)
    requires Inserting(cmp, now, b, i, i + 1) && b <= i < e <= |was|
    modifies a
    ensures Holds(a, next) && |next| == |was| && Rearranged(was, next, b, e) && Ordered(cmp, next, b, i + 1)
  {
    hide Holds, Rearranged, Exchanged, TotalPreorder, Le, Inserting, Ordered;
    next := now;
    var j := i;
    while j > b
      invariant Holds(a, next) && |next| == |was| && Rearranged(was, next, b, e)
      invariant b <= j <= i && Inserting(cmp, next, b, j, i + 1)
    {
      var c := CompareAt(cmp, a, j - 1, j, next);
      if c <= 0 {
        break;
      }
      InsertStep(cmp, next, b, j, i + 1);
      next := Exchange(a, j, j - 1, was, next, b, e);
      j := j - 1;
    }
    InsertDone(cmp, next, b, j, i + 1);
  }

  // ----- the pending segments -----

  datatype Segment = Segment(base: nat, count: nat, depth: nat)

  ghost predicate Inside(g: Segment, i: int) { g.base <= i < g.base + g.count }

  ghost predicate Together(segs: seq<Segment>, i: int, j: int) {
    exists k :: 0 <= k < |segs| && Inside(segs[k], i) && Inside(segs[k], j)
  }

  /** Any two elements are in order, unless they are in the same pending segment. */
  ghost predicate Nearly<T(!new)>(cmp: Cmp<T>, s: seq<T>, segs: seq<Segment>) {
    forall i, j :: 0 <= i < j < |s| ==> Le(cmp, s[i], s[j]) || Together(segs, i, j)
  }

  /** No index is in two segments, and all are below `n`. */
  ghost predicate Separate(segs: seq<Segment>, n: nat) {
    && (forall k :: 0 <= k < |segs| ==> segs[k].base + segs[k].count <= n)
    && (forall k, l, i :: 0 <= k < l < |segs| && Inside(segs[k], i) ==> !Inside(segs[l], i))
  }

  lemma WholePending<T(!new)>(cmp: Cmp<T>, s: seq<T>, g: Segment)
    requires g.base == 0 && g.count == |s|
    ensures Nearly(cmp, s, [g]) && Separate([g], |s|)
  {
    hide Le;
    assert [g][0] == g;
    forall i, j | 0 <= i < j < |s|
      ensures Together([g], i, j)
    {
      assert Inside([g][0], i) && Inside([g][0], j);
    }
  }

  lemma NoneSorted<T(!new)>(cmp: Cmp<T>, s: seq<T>)
    requires Nearly(cmp, s, [])
    ensures Sorted(cmp, s)
  {
    hide Le;
    forall i, j | 0 <= i < j < |s|
      ensures Le(cmp, s[i], s[j])
    {
      assert !Together([], i, j);
    }
  }

  /** Two indices that are together in `segs + [g]`, one of them not in `g`, are together in `segs`. */
  lemma TogetherElsewhere(segs: seq<Segment>, g: Segment, n: nat, i: int, j: int)
    requires Separate(segs + [g], n) && Together(segs + [g], i, j)
    ensures Inside(g, i) ==> Inside(g, j)
    ensures Inside(g, j) ==> Inside(g, i)
    ensures !Inside(g, i) ==> Together(segs, i, j)
  {
    var all := segs + [g];
    var k :| 0 <= k < |all| && Inside(all[k], i) && Inside(all[k], j);
    assert all[|segs|] == g;
    if k < |segs| {
      assert segs[k] == all[k];
    }
  }

  lemma StillTogether(segs: seq<Segment>, more: seq<Segment>, i: int, j: int)
    requires Together(segs, i, j)
    ensures Together(segs + more, i, j)
  {
    var k :| 0 <= k < |segs| && Inside(segs[k], i) && Inside(segs[k], j);
    assert (segs + more)[k] == segs[k];
  }

  lemma BothIn(segs: seq<Segment>, g: Segment, i: int, j: int)
    requires Inside(g, i) && Inside(g, j)
    ensures Together(segs + [g], i, j)
  {
    assert (segs + [g])[|segs|] == g;
  }

  /** An index outside the rearranged part keeps its element. */
  lemma Untouched<T>(s: seq<T>, t: seq<T>, lo: nat, hi: nat, i: nat)
    requires Rearranged(s, t, lo, hi) && i < |s| && !(lo <= i < hi)
    ensures t[i] == s[i]
  {
    if i < lo {
      assert s[..lo][i] == t[..lo][i];
    } else {
      assert s[hi..][i - hi] == t[hi..][i - hi];
    }
  }

  /** Rearranging a pending segment changes nothing for the pairs that are already in order. */
  lemma SegmentRearranged<T(!new)>(cmp: Cmp<T>, s: seq<T>, t: seq<T>, segs: seq<Segment>, g: Segment)
    requires Separate(segs + [g], |s|) && Nearly(cmp, s, segs + [g]) && Rearranged(s, t, g.base, g.base + g.count)
    ensures |t| == |s| && Nearly(cmp, t, segs + [g])
  {
    hide Le, Separate, Together;
    forall i, j | 0 <= i < j < |t|
      ensures Le(cmp, t[i], t[j]) || Together(segs + [g], i, j)
    {
      if Inside(g, i) && Inside(g, j) {
        BothIn(segs, g, i, j);
      } else {
        PairKept(cmp, s, t, segs, g, i, j);
      }
    }
  }

  lemma PairKept<T(!new)>(cmp: Cmp<T>, s: seq<T>, t: seq<T>, segs: seq<Segment>, g: Segment, i: nat, j: nat)
    requires Separate(segs + [g], |s|) && Nearly(cmp, s, segs + [g]) && Rearranged(s, t, g.base, g.base + g.count)
    requires i < j < |t| && !(Inside(g, i) && Inside(g, j))
    ensures Le(cmp, t[i], t[j]) || Together(segs + [g], i, j)
  {
    hide Le, Separate, Together;
    var i', j' := i, j;
    if Inside(g, i) {
      i' := CameFrom(s, t, g.base, g.base + g.count, i);
    } else {
      Untouched(s, t, g.base, g.base + g.count, i);
    }
    if Inside(g, j) {
      j' := CameFrom(s, t, g.base, g.base + g.count, j);
    } else {
      Untouched(s, t, g.base, g.base + g.count, j);
    }
    assert i' < j' && s[i'] == t[i] && s[j'] == t[j];
    if Together(segs + [g], i', j') {
      TogetherElsewhere(segs, g, |s|, i', j');
    }
  }

  lemma SegmentSorted<T(!new)>(cmp: Cmp<T>, s: seq<T>, segs: seq<Segment>, g: Segment)
    requires Separate(segs + [g], |s|) && Nearly(cmp, s, segs + [g])
    requires g.base + g.count <= |s| && Sorted(cmp, s[g.base..g.base + g.count])
    ensures Nearly(cmp, s, segs)
  {
    hide Le, Separate, Together;
    forall i, j | 0 <= i < j < |s|
      ensures Le(cmp, s[i], s[j]) || Together(segs, i, j)
    {
      if Inside(g, i) && Inside(g, j) {
        var part := s[g.base..g.base + g.count];
        assert Le(cmp, part[i - g.base], part[j - g.base]);
      } else if Together(segs + [g], i, j) {
        TogetherElsewhere(segs, g, |s|, i, j);
      }
    }
  }

  /** Two elements of a partitioned segment are in order unless both are smaller or both greater ones. */
  lemma PartedPair<T(!new)>(cmp: Cmp<T>, p: T, s: seq<T>, b: nat, lt: nat, gt: nat, e: nat, i: nat, j: nat)
    requires TotalPreorder(cmp) && Parted(cmp, p, s, b, lt, gt, e) && b <= i < j < e
    requires !(j < lt) && !(gt <= i)
    ensures Le(cmp, s[i], s[j])
  {
    LeFacts(cmp, p, s[i]);
    LeFacts(cmp, p, s[j]);
    LeTrans(cmp, s[i], p, s[j]);
  }

  ghost predicate Halves(g: Segment, lt: nat, gt: nat, first: Segment, second: Segment) {
    var e := g.base + g.count;
    && g.base <= lt <= gt <= e
    && ((first.base == g.base && first.base + first.count == lt && second.base == gt && second.base + second.count == e)
        || (second.base == g.base && second.base + second.count == lt && first.base == gt && first.base + first.count == e))
  }

  lemma SegmentParted<T(!new)>(cmp: Cmp<T>, p: T, s: seq<T>, segs: seq<Segment>, g: Segment, lt: nat, gt: nat,
                               first: Segment, second: Segment)
    requires TotalPreorder(cmp) && Separate(segs + [g], |s|) && Nearly(cmp, s, segs + [g])
    requires Parted(cmp, p, s, g.base, lt, gt, g.base + g.count) && Halves(g, lt, gt, first, second)
    ensures Nearly(cmp, s, segs + [first] + [second])
  {
    hide TotalPreorder, Le, Separate, Together, Parted;
    var now := segs + [first] + [second];
    forall i, j | 0 <= i < j < |s|
      ensures Le(cmp, s[i], s[j]) || Together(now, i, j)
    {
      if Inside(g, i) && Inside(g, j) {
        if Inside(first, i) && Inside(first, j) {
          BothIn(segs, first, i, j);
          StillTogether(segs + [first], [second], i, j);
        } else if Inside(second, i) && Inside(second, j) {
          BothIn(segs + [first], second, i, j);
        } else {
          PartedPair(cmp, p, s, g.base, lt, gt, g.base + g.count, i, j);
        }
      } else if Together(segs + [g], i, j) {
        TogetherElsewhere(segs, g, |s|, i, j);
        StillTogether(segs, [first], i, j);
        StillTogether(segs + [first], [second], i, j);
      }
    }
  }

  lemma SeparateParted(segs: seq<Segment>, g: Segment, n: nat, lt: nat, gt: nat, first: Segment, second: Segment)
    requires Separate(segs + [g], n) && Halves(g, lt, gt, first, second)
    ensures Separate(segs + [first] + [second], n)
  {
    var all, now := segs + [g], segs + [first] + [second];
    assert all[|segs|] == g && now[|segs|] == first && now[|segs| + 1] == second;
    assert forall k :: 0 <= k < |segs| ==> all[k] == segs[k] && now[k] == segs[k];
    forall k, l, i | 0 <= k < l < |now| && Inside(now[k], i)
      ensures !Inside(now[l], i)
    {
      if l < |segs| {
        assert !Inside(all[l], i);
      } else if k < |segs| {
        assert Inside(all[k], i) && !Inside(all[|segs|], i);
      }
    }
  }

  lemma SeparateFewer(segs: seq<Segment>, g: Segment, n: nat)
    requires Separate(segs + [g], n)
    ensures Separate(segs, n) && g.base + g.count <= n
  {
    var all := segs + [g];
    assert all[|segs|] == g;
    assert forall k :: 0 <= k < |segs| ==> all[k] == segs[k];
    forall k, l, i | 0 <= k < l < |segs| && Inside(segs[k], i)
      ensures !Inside(segs[l], i)
    {
      assert Inside(all[k], i) && !Inside(all[l], i);
    }
  }

  // ----- the sort -----

  /** The first `sp` entries of the stack are the segments `segs`. */
  ghost predicate Stacked(stack: array<Segment>, sp: nat, segs: seq<Segment>)
    reads stack
  {
    stack.Length == 50 && sp <= 50 && stack[..sp] == segs
  }

  /** The depths increase along the stack, starting from 0 and ending at `limit` at most. */
  ghost predicate Deep(segs: seq<Segment>, limit: int) {
    && (forall k :: 0 <= k < |segs| ==> k <= segs[k].depth <= limit)
    && (forall k, l :: 0 <= k < l < |segs| ==> segs[k].depth < segs[l].depth)
  }

  lemma DeepPushed(segs: seq<Segment>, g: Segment)
    requires Deep(segs, g.depth - 1) && |segs| < g.depth
    ensures Deep(segs + [g], g.depth)
  {
  }

  lemma DeepPopped(segs: seq<Segment>, g: Segment, limit: int)
    requires Deep(segs + [g], limit)
    ensures Deep(segs, g.depth) && |segs| <= g.depth <= limit
  {
    var all := segs + [g];
    assert all[|segs|] == g;
    assert forall k :: 0 <= k < |segs| ==> all[k] == segs[k];
  }

  lemma DeepWithin(segs: seq<Segment>, limit: int, higher: int)
    requires Deep(segs, limit) && limit <= higher
    ensures Deep(segs, higher)
  {
  }

  function Total(segs: seq<Segment>): nat {
    if segs == [] then 0 else Total(segs[..|segs| - 1]) + segs[|segs| - 1].count
  }

  lemma TotalPushed(segs: seq<Segment>, g: Segment)
    ensures Total(segs + [g]) == Total(segs) + g.count
  {
    assert (segs + [g])[..|segs|] == segs;
  }

  method Push(stack: array<Segment>, sp: nat, g: Segment, ghost segs: seq<Segment>)
    requires Stacked(stack, sp, segs) && sp < 50
    modifies stack
    ensures Stacked(stack, sp + 1, segs + [g])
  {
    stack[sp] := g;
  }

  /** What is left to sort: the stacked segments and the current one. */
  ghost predicate Pending<T(!new)>(cmp: Cmp<T>, s: seq<T>, segs: seq<Segment>, g: Segment) {
    Separate(segs + [g], |s|) && Nearly(cmp, s, segs + [g])
  }

  lemma PendingParted<T(!new)>(cmp: Cmp<T>, p: T, s: seq<T>, t: seq<T>, segs: seq<Segment>, g: Segment, lt: nat, gt: nat,
                               first: Segment, second: Segment)
    requires TotalPreorder(cmp) && Pending(cmp, s, segs, g) && Rearranged(s, t, g.base, g.base + g.count)
    requires Parted(cmp, p, t, g.base, lt, gt, g.base + g.count) && Halves(g, lt, gt, first, second)
    ensures |t| == |s| && Pending(cmp, t, segs + [first], second)
    ensures first.count + second.count < g.count
  {
    SegmentRearranged(cmp, s, t, segs, g);
    SegmentParted(cmp, p, t, segs, g, lt, gt, first, second);
    SeparateParted(segs, g, |s|, lt, gt, first, second);
  }

  /** Sorting the current segment leaves the stacked ones; an empty one may stand for it. */
  lemma PendingSorted<T(!new)>(cmp: Cmp<T>, s: seq<T>, t: seq<T>, segs: seq<Segment>, g: Segment)
    requires Pending(cmp, s, segs, g) && Rearranged(s, t, g.base, g.base + g.count)
    requires Sorted(cmp, t[g.base..g.base + g.count])
    ensures |t| == |s| && Separate(segs, |t|) && Nearly(cmp, t, segs)
    ensures Pending(cmp, t, segs, Segment(g.base, 0, g.depth))
  {
    SegmentRearranged(cmp, s, t, segs, g);
    SegmentSorted(cmp, t, segs, g);
    SeparateFewer(segs, g, |s|);
    EmptyPending(cmp, t, segs, Segment(g.base, 0, g.depth));
  }

  lemma EmptyPending<T(!new)>(cmp: Cmp<T>, s: seq<T>, segs: seq<Segment>, g: Segment)
    requires Separate(segs, |s|) && Nearly(cmp, s, segs) && g.count == 0 && g.base <= |s|
    ensures Pending(cmp, s, segs, g)
  {
    hide Le, Together;
    forall i, j | 0 <= i < j < |s|
      ensures Le(cmp, s[i], s[j]) || Together(segs + [g], i, j)
    {
      if Together(segs, i, j) {
        StillTogether(segs, [g], i, j);
      }
    }
  }

  lemma PendingBounds<T(!new)>(cmp: Cmp<T>, s: seq<T>, segs: seq<Segment>, g: Segment)
    requires Pending(cmp, s, segs, g)
    ensures g.base + g.count <= |s|
  {
    SeparateFewer(segs, g, |s|);
  }

  lemma RearrangedInside<T>(was: seq<T>, s: seq<T>, t: seq<T>, lo: nat, hi: nat)
    requires Rearranged(was, s, 0, |was|) && Rearranged(s, t, lo, hi)
    ensures Rearranged(was, t, 0, |was|)
  {
    RearrangedWider(s, t, lo, hi, 0, |s|);
    RearrangedTrans(was, s, t, 0, |was|);
  }

  /** One partition: the larger side goes to the stack, the smaller one becomes the current segment. */
  method SplitSegment<T(!new)>(cmp: Cmp<T>, a: array<T>, stack: array<Segment>, sp: nat, g: Segment,
                               ghost was: seq<T>, ghost now: seq<T>, ghost segs: seq<Segment>)
    returns (h: Segment, ghost next: seq<T>, ghost segs': seq<Segment>)
    requires TotalPreorder(cmp) && a as object != stack && Holds(a, now) && |now| == |was| == a.Length
    requires Rearranged(was, now, 0, |was|)
    requires Stacked(stack, sp, segs) && sp < 50 && g.count > 6 && Pending(cmp, now, segs, g)
    requires Deep(segs, g.depth - 1) && |segs| == sp < g.depth
    modifies a, stack
    ensures Holds(a, next) && |next| == |was| && Rearranged(was, next, 0, |was|)
    ensures Stacked(stack, sp + 1, segs') && |segs'| == sp + 1 && Pending(cmp, next, segs', h)
    ensures h.count < g.count && h.depth == g.depth
    ensures Deep(segs', g.depth) && Total(segs') + h.count < Total(segs) + g.count
  {
    hide Holds, Rearranged, TotalPreorder, Parted, Pending, Stacked, Deep, Total, Median;
    PendingBounds(cmp, now, segs, g);
    var b, e := g.base, g.base + g.count;
    var lt, gt;
    ghost var p;
    lt, gt, next, p := Partition(cmp, a, b, e, now);
    PartedBounds(cmp, p, next, b, lt, gt, e);
    RearrangedInside(was, now, next, b, e);
    var left, right := Segment(b, lt - b, g.depth), Segment(gt, e - gt, g.depth);
    var larger;
    if lt - b > e - gt {
      larger, h := left, right;
    } else {
      larger, h := right, left;
    }
    PendingParted(cmp, p, now, next, segs, g, lt, gt, larger, h);
    Push(stack, sp, larger, segs);
    segs' := segs + [larger];
    DeepPushed(segs, larger);
    TotalPushed(segs, larger);
  }

  lemma PartedBounds<T(!new)>(cmp: Cmp<T>, p: T, s: seq<T>, b: nat, lt: nat, gt: nat, e: nat)
    requires Parted(cmp, p, s, b, lt, gt, e)
    ensures b <= lt < gt <= e <= |s|
  {
  }

  /** Works on one segment until it is sorted, stacking the parts it leaves for later. */
  method SortSegment<T(!new)>(cmp: Cmp<T>, a: array<T>, stack: array<Segment>, sp: nat, g: Segment,
                              ghost was: seq<T>, ghost now: seq<T>, ghost segs: seq<Segment>)
    returns (sp': nat, ghost next: seq<T>, ghost segs': seq<Segment>)
    requires TotalPreorder(cmp) && a as object != stack && Holds(a, now) && |now| == |was| == a.Length
    requires Rearranged(was, now, 0, |was|)
    requires Stacked(stack, sp, segs) && sp == |segs| <= g.depth <= 50 && Pending(cmp, now, segs, g)
    requires Deep(segs, g.depth)
    modifies a, stack
    ensures Holds(a, next) && |next| == |was| && Rearranged(was, next, 0, |was|)
    ensures Stacked(stack, sp', segs') && sp' == |segs'| && Separate(segs', |next|) && Nearly(cmp, next, segs')
    ensures Deep(segs', 50)
    ensures Total(segs') < Total(segs) + g.count || (Total(segs') == Total(segs) + g.count && sp' == sp)
  {
    hide Holds, Rearranged, TotalPreorder, Pending, Stacked, Deep, Total, Separate, Nearly, Sorted;
    sp', next, segs' := sp, now, segs;
    var h := g;
    DeepWithin(segs, g.depth, 50);
    while h.count > 6
      invariant Holds(a, next) && |next| == |was| && Rearranged(was, next, 0, |was|)
      invariant Stacked(stack, sp', segs') && sp' == |segs'| && Pending(cmp, next, segs', h)
      invariant Deep(segs', 50) && h.depth <= 51
      invariant h.count == 0 || (sp' <= h.depth <= 50 && Deep(segs', h.depth))
      invariant Total(segs') + h.count < Total(segs) + g.count
             || (Total(segs') + h.count <= Total(segs) + g.count && sp' == sp)
      decreases h.count
    {
      var depth := h.depth + 1;
      if depth > 50 {
        PendingBounds(cmp, next, segs', h);
        ghost var before := next;
        next := SortHeap.HeapSort(cmp, a, h.base, h.count, before);
        PendingSorted(cmp, before, next, segs', h);
        RearrangedInside(was, before, next, h.base, h.base + h.count);
        h := Segment(h.base, 0, h.depth);
        break;
      }
      PendingDeeper(cmp, next, segs', h, depth);
      h, next, segs' := SplitSegment(cmp, a, stack, sp', h.(depth := depth), was, next, segs');
      sp' := sp' + 1;
      DeepWithin(segs', depth, 50);
    }
    PendingBounds(cmp, next, segs', h);
    ghost var before := next;
    next := InsertionSort(cmp, a, h.base, h.count, before);
    PendingSorted(cmp, before, next, segs', h);
    RearrangedInside(was, before, next, h.base, h.base + h.count);
  }

  lemma PendingDeeper<T(!new)>(cmp: Cmp<T>, s: seq<T>, segs: seq<Segment>, g: Segment, depth: nat)
    requires Pending(cmp, s, segs, g)
    ensures Pending(cmp, s, segs, g.(depth := depth))
  {
    SeparateFewer(segs, g, |s|);
    var all, now := segs + [g], segs + [g.(depth := depth)];
    assert forall k :: 0 <= k < |all| ==> all[k].base == now[k].base && all[k].count == now[k].count;
    forall k, l, i | 0 <= k < l < |now| && Inside(now[k], i)
      ensures !Inside(now[l], i)
    {
      assert Inside(all[k], i) && !Inside(all[l], i);
    }
    forall i, j | 0 <= i < j < |s|
      ensures Le(cmp, s[i], s[j]) || Together(now, i, j)
    {
      if Together(all, i, j) {
        var k :| 0 <= k < |all| && Inside(all[k], i) && Inside(all[k], j);
        assert Inside(now[k], i) && Inside(now[k], j);
      }
    }
  }

  /** Sorts the array in place; the stack of 50 segments is always large enough. */
  method RqSort<T(!new)>(cmp: Cmp<T>, a: array<T>)
    requires TotalPreorder(cmp)
    modifies a
    ensures Sorted(cmp, a[..]) && multiset(a[..]) == multiset(old(a[..]))
  {
    if a.Length < 2 {
      return;
    }
    ghost var was := a[..];
    ghost var sorted := SortAll(cmp, a, was);
    RearrangedAll(was, sorted, 0, |was|);
  }

  method SortAll<T(!new)>(cmp: Cmp<T>, a: array<T>, ghost was: seq<T>)
    returns (ghost next: seq<T>)
    requires TotalPreorder(cmp) && Holds(a, was) && |was| == a.Length
    modifies a
    ensures Holds(a, next) && Rearranged(was, next, 0, |was|) && Sorted(cmp, next)
  {
    hide Holds, Rearranged, TotalPreorder, Pending, Stacked, Deep, Total, Separate, Nearly, Sorted;
    var stack := new Segment[50](_ => Segment(0, 0, 0));
    NothingStacked(stack);
    var whole := Segment(0, a.Length, 0);
    Push(stack, 0, whole, []);
    var sp: nat := 1;
    next := was;
    ghost var segs := [] + [whole];
    FirstPending(cmp, was, whole, segs);
    while sp > 0
      invariant Holds(a, next) && |next| == |was| && Rearranged(was, next, 0, |was|)
      invariant Stacked(stack, sp, segs) && sp == |segs| && Separate(segs, |next|) && Nearly(cmp, next, segs)
      invariant Deep(segs, 50)
      decreases Total(segs), sp
    {
      sp := sp - 1;
      ghost var rest := segs[..sp];
      Popped(stack, sp, segs);
      var g := stack[sp];
      TotalPushed(rest, g);
      DeepPopped(rest, g, 50);
      CurrentPending(cmp, next, segs, rest, g);
      sp, next, segs := SortSegment(cmp, a, stack, sp, g, was, next, rest);
    }
    NoneSorted(cmp, next);
  }

  lemma CurrentPending<T(!new)>(cmp: Cmp<T>, s: seq<T>, segs: seq<Segment>, rest: seq<Segment>, g: Segment)
    requires segs == rest + [g] && Separate(segs, |s|) && Nearly(cmp, s, segs)
    ensures Pending(cmp, s, rest, g)
  {
  }

  lemma NothingStacked(stack: array<Segment>)
    requires stack.Length == 50
    ensures Stacked(stack, 0, [])
  {
  }

  lemma FirstPending<T(!new)>(cmp: Cmp<T>, s: seq<T>, whole: Segment, segs: seq<Segment>)
    requires segs == [whole] && whole.base == 0 && whole.count == |s| && whole.depth == 0
    ensures Separate(segs, |s|) && Nearly(cmp, s, segs) && Deep(segs, 50) && Rearranged(s, s, 0, |s|)
  {
    WholePending(cmp, s, whole);
  }

  lemma Popped(stack: array<Segment>, sp: nat, segs: seq<Segment>)
    requires Stacked(stack, sp + 1, segs)
    ensures stack.Length == 50 && sp < 50 && |segs| == sp + 1
    ensures Stacked(stack, sp, segs[..sp]) && segs == segs[..sp] + [stack[sp]]
  {
  }
}
