/** Character classes: the range opcodes accept exactly the intervals they were emitted for. */
module ReRange {
  import opened ReCode
  import opened ReVM
  import opened ReMatch
  import opened ReCompile

  function Low(bs: seq<int>, j: nat): int
    requires 2 * j + 1 < |bs|
  {
    bs[2 * j]
  }

  function High(bs: seq<int>, j: nat): int
    requires 2 * j + 1 < |bs|
  {
    bs[2 * j + 1]
  }

  ghost predicate InBounds(bs: seq<int>, c: int, lo: nat, hi: nat)
    requires 2 * hi + 1 < |bs|
  {
    exists j: nat :: lo <= j <= hi && Low(bs, j) <= c <= High(bs, j)
  }

  ghost predicate SortedBounds(bs: seq<int>) {
    && (forall i: nat :: 2 * i + 1 < |bs| ==> Low(bs, i) <= High(bs, i))
    && (forall i: nat, j: nat :: i < j && 2 * j + 1 < |bs| ==> High(bs, i) < Low(bs, j))
  }

  /** The search loop answers membership. */
  lemma {:induction false} BinarySearchCorrect(bs: seq<int>, c: int, lo: nat, hi: nat)
    requires 2 * hi + 1 < |bs| && bs[0] <= c && SortedBounds(bs)
    ensures BinarySearch(bs, c, lo, hi) <==> InBounds(bs, c, lo, hi)
    decreases hi + 1 - lo
  {
    if lo <= hi {
      var idx := (lo + hi) / 2;
      assert Low(bs, idx) == bs[2 * idx] && High(bs, idx) == bs[2 * idx + 1];
      if c < bs[2 * idx] {
        BinarySearchCorrect(bs, c, lo, idx - 1);
        forall j: nat | idx <= j <= hi ensures Low(bs, j) > c { assert idx < j ==> High(bs, idx) < Low(bs, j); }
      } else if c > bs[2 * idx + 1] {
        BinarySearchCorrect(bs, c, idx + 1, hi);
        forall j: nat | lo <= j <= idx ensures High(bs, j) < c { assert j < idx ==> High(bs, j) < Low(bs, idx); }
      }
    }
  }

  function Inclusive(v: int, wide: bool): int {
    if !wide && v == UINT32_MAX then 0xffff else v - 1
  }

  lemma {:induction false} BoundsAt(points: seq<int>, wide: bool, j: nat)
    requires 2 * j + 1 < |points|
    ensures 2 * j + 1 < |Bounds(points, wide)|
    ensures Low(Bounds(points, wide), j) == Low(points, j)
    ensures High(Bounds(points, wide), j) == Inclusive(High(points, j), wide)
  {
    if j > 0 {
      BoundsAt(points[2..], wide, j - 1);
      assert Low(points[2..], j - 1) == Low(points, j) && High(points[2..], j - 1) == High(points, j);
    }
  }

  /** The 16 bit form is chosen only where it loses nothing. */
  ghost predicate Fits(points: seq<int>, wide: bool) {
    wide || forall j: nat :: 2 * j + 1 < |points| ==>
      Low(points, j) <= 0xffff && (High(points, j) <= 0xffff || (High(points, j) == UINT32_MAX && 2 * j + 2 == |points|))
  }

  lemma WidthFits(points: seq<int>)
    requires ValidPoints(points) && |points| >= 2
    ensures RangeInstr(points).Range? || RangeInstr(points).Range32?
    ensures Fits(points, RangeInstr(points).Range32?)
  {
    if RangeInstr(points).Range? {
      var n := |points|;
      forall j: nat | 2 * j + 1 < n
        ensures Low(points, j) <= 0xffff && (High(points, j) <= 0xffff || (High(points, j) == UINT32_MAX && 2 * j + 2 == n))
      {
        assert 2 * j < n - 2 ==> points[2 * j] < points[n - 2];
        assert 2 * j + 1 < n - 2 ==> points[2 * j + 1] < points[n - 2];
        assert points[n - 2] < points[n - 1];
      }
    }
  }

  lemma BoundsSorted(points: seq<int>, wide: bool)
    requires ValidPoints(points) && Fits(points, wide)
    ensures SortedBounds(Bounds(points, wide))
  {
    var bs := Bounds(points, wide);
    forall i: nat | 2 * i + 1 < |bs| ensures Low(bs, i) <= High(bs, i) {
      BoundsAt(points, wide, i);
      assert points[2 * i] < points[2 * i + 1];
    }
    forall i: nat, j: nat | i < j && 2 * j + 1 < |bs| ensures High(bs, i) < Low(bs, j) {
      BoundsAt(points, wide, i);
      BoundsAt(points, wide, j);
      assert points[2 * i + 1] < points[2 * j];
      assert High(points, i) < Low(points, j);
    }
  }

  lemma BoundsMembership(points: seq<int>, wide: bool, c: int, hi: nat)
    requires ValidPoints(points) && Fits(points, wide) && |points| == 2 * hi + 2 && 0 <= c <= 0x10_ffff
    ensures wide || c < 0xffff || High(Bounds(points, wide), hi) != 0xffff ==>
              (InBounds(Bounds(points, wide), c, 0, hi) <==> ClassHas(points, c))
    ensures !wide && c >= 0xffff && High(Bounds(points, wide), hi) == 0xffff ==> ClassHas(points, c)
  {
    var bs := Bounds(points, wide);
    forall j: nat | j <= hi
      ensures Low(bs, j) == Low(points, j) && High(bs, j) == Inclusive(High(points, j), wide)
      ensures InInterval(points, j, c) <==> Low(points, j) <= c < High(points, j)
    {
      BoundsAt(points, wide, j);
    }
    if InBounds(bs, c, 0, hi) {
      var j: nat :| j <= hi && Low(bs, j) <= c <= High(bs, j);
      assert InInterval(points, j, c);
    }
    if ClassHas(points, c) && (wide || c < 0xffff || High(bs, hi) != 0xffff) {
      var j: nat :| InInterval(points, j, c);
      assert j <= hi;
      assert Low(bs, j) <= c <= High(bs, j);
    }
    if !wide && c >= 0xffff && High(bs, hi) == 0xffff {
      assert InInterval(points, hi, c);
    }
  }

  lemma BoundsEnclose(bs: seq<int>, c: int, hi: nat)
    requires 2 * hi + 1 < |bs| && SortedBounds(bs)
    ensures InBounds(bs, c, 0, hi) ==> Low(bs, 0) <= c <= High(bs, hi)
  {
    forall j: nat | j <= hi && Low(bs, j) <= c <= High(bs, j) ensures Low(bs, 0) <= c <= High(bs, hi) {
      assert 0 < j ==> High(bs, 0) < Low(bs, j);
      assert j < hi ==> High(bs, j) < Low(bs, hi);
    }
  }

  /** Either test, on the bounds emitted for a class. */
  lemma BoundsTest(points: seq<int>, wide: bool, c: int)
    requires ValidPoints(points) && |points| >= 2 && Fits(points, wide) && 0 <= c <= 0x10_ffff
    ensures (if wide then Range32Test(Bounds(points, wide), c) else Range16Test(Bounds(points, wide), c)) <==> ClassHas(points, c)
  {
    assert |points| % 2 == 0;
    var hi: nat := |points| / 2 - 1;
    var bs := Bounds(points, wide);
    hide ValidPoints, Fits, ClassHas, BinarySearch, Bounds, SortedBounds, InBounds;
    BoundsSorted(points, wide);
    BoundsMembership(points, wide, c, hi);
    assert bs[0] == Low(bs, 0) && bs[|bs| - 1] == High(bs, hi);
    if bs[0] <= c { BinarySearchCorrect(bs, c, 0, hi); }
    BoundsEnclose(bs, c, hi);
  }

  /** With the width chosen as in re_emit_range, the opcode's test is membership in the class. */
  lemma RangeInstrCorrect(points: seq<int>, c: int)
    requires ValidPoints(points) && |points| >= 2 && 0 <= c <= 0x10_ffff
    ensures IsCharOp(RangeInstr(points))
    ensures (if RangeInstr(points).Range? then Range16Test(RangeInstr(points).bounds, c)
             else Range32Test(RangeInstr(points).bounds, c)) <==> ClassHas(points, c)
  {
    WidthFits(points);
    BoundsTest(points, RangeInstr(points).Range32?, c);
    hide Range16Test, Range32Test, Bounds, ClassHas, Fits;
  }
}
