/** Character ranges: a growing array of points and the set operations on it. */
module CrRange {
  import opened CrSets
  import opened CrPairs
  import SortBase
  import SortQuick

  datatype Op = Union | Inter | Xor

  /** The in/out status after combining the two sides. */
  predicate Combined(op: Op, a: bool, b: bool) {
    match op
    case Union => a || b
    case Inter => a && b
    case Xor => a != b
  }

  ghost predicate Means(op: Op, a: seq<U32>, b: seq<U32>, r: seq<U32>) {
    forall c :: In(r, c) <==> Combined(op, In(a, c), In(b, c))
  }

  /** The same statement about parities, for the parts of the two lists that were read. */
  ghost predicate OddMeans(op: Op, a: seq<U32>, b: seq<U32>, r: seq<U32>) {
    forall c :: Odd(r, c) <==> Combined(op, Odd(a, c), Odd(b, c))
  }

  ghost predicate Below(s: seq<U32>, v: int) {
    forall i :: 0 <= i < |s| ==> s[i] <= v
  }

  /** Everything read and written so far is in order and not above what is still to come. */
  ghost predicate Merging(a: seq<U32>, ai: nat, b: seq<U32>, bi: nat, r: seq<U32>) {
    && ai <= |a| && bi <= |b| && Nondecreasing(r)
    && (ai < |a| ==> Below(a[..ai], a[ai]) && Below(b[..bi], a[ai]) && Below(r, a[ai]))
    && (bi < |b| ==> Below(a[..ai], b[bi]) && Below(b[..bi], b[bi]) && Below(r, b[bi]))
  }

  /** One more point `v`, from either list or from both, and whether it is added to the result. */
  lemma PointRead(op: Op, a: seq<U32>, b: seq<U32>, a': seq<U32>, b': seq<U32>, r: seq<U32>, v: U32)
    requires OddMeans(op, a, b, r) && Below(a, v) && Below(b, v) && Below(r, v)
    requires (a' == a || a' == a + [v]) && (b' == b || b' == b + [v])
    ensures var r' := if Combined(op, |a'| % 2 == 1, |b'| % 2 == 1) != (|r| % 2 == 1) then r + [v] else r;
      OddMeans(op, a', b', r')
  {
    var r' := if Combined(op, |a'| % 2 == 1, |b'| % 2 == 1) != (|r| % 2 == 1) then r + [v] else r;
    forall c
      ensures Odd(r', c) <==> Combined(op, Odd(a', c), Odd(b', c))
    {
      if c < v {
        OddAppend(a, v, c);
        OddAppend(b, v, c);
        OddAppend(r, v, c);
      } else {
        OddAbove(a', c);
        OddAbove(b', c);
        OddAbove(r', c);
      }
    }
  }

  /** Whether the point at hand comes from the first list, and whether from the second. */
  predicate FromFirst(a: seq<U32>, ai: nat, b: seq<U32>, bi: nat) {
    ai < |a| && (bi < |b| ==> a[ai] <= b[bi])
  }

  lemma Advance(op: Op, a: seq<U32>, ai: nat, b: seq<U32>, bi: nat, r: seq<U32>, v: U32, ai': nat, bi': nat, r': seq<U32>)
    requires Nondecreasing(a) && Nondecreasing(b) && Merging(a, ai, b, bi, r)
    requires ai' == (if FromFirst(a, ai, b, bi) then ai + 1 else ai)
    requires bi' == (if FromFirst(b, bi, a, ai) then bi + 1 else bi)
    requires if FromFirst(a, ai, b, bi) then v == a[ai] else FromFirst(b, bi, a, ai) && v == b[bi]
    requires r' == r || r' == r + [v]
    ensures Merging(a, ai', b, bi', r')
    ensures Below(a[..ai], v) && Below(b[..bi], v) && Below(r, v)
    ensures a[..ai'] == a[..ai] || a[..ai'] == a[..ai] + [v]
    ensures b[..bi'] == b[..bi] || b[..bi'] == b[..bi] + [v]
  {
  }

  /** All points of both lists read: the parities are the sets. */
  lemma AllRead(op: Op, a: seq<U32>, b: seq<U32>, r: seq<U32>)
    requires Nondecreasing(a) && Nondecreasing(b) && Nondecreasing(r)
    requires |a| % 2 == 0 && |b| % 2 == 0 && |r| % 2 == 0 && OddMeans(op, a, b, r)
    ensures Means(op, a, b, Compress(r)) && Strict(Compress(r))
  {
    hide Odd, Compress, Nondecreasing, Strict, In;
    CompressMeans(r);
    forall c
      ensures In(Compress(r), c) <==> Combined(op, In(a, c), In(b, c))
    {
      OddIsIn(a, c);
      OddIsIn(b, c);
      OddIsIn(r, c);
    }
  }

  // ----- complement -----

  /** The points with a first and a last one added. */
  lemma InvertMeans(s: seq<U32>, r: seq<U32>)
    requires Nondecreasing(s) && |s| % 2 == 0 && r == [0] + s + [UINT32_MAX]
    ensures Nondecreasing(r)
    ensures forall c :: In(Compress(r), c) <==> 0 <= c < UINT32_MAX && !In(s, c)
    ensures Strict(Compress(r))
  {
    hide Odd, Compress, Strict, In;
    CompressMeans(r);
    forall c
      ensures In(Compress(r), c) <==> 0 <= c < UINT32_MAX && !In(s, c)
    {
      OddIsIn(s, c);
      OddIsIn(r, c);
      NotInOutside(s, c);
      OddShift(s, c);
      OddAppend([0] + s, UINT32_MAX, c);
      assert r == ([0] + s) + [UINT32_MAX];
    }
  }

  lemma NotInOutside(s: seq<U32>, c: int)
    ensures c < 0 || c >= UINT32_MAX ==> !In(s, c)
  {
  }

  lemma {:induction false} OddShift(s: seq<U32>, c: int)
    ensures Odd([0] + s, c) <==> ((0 <= c) != Odd(s, c))
  {
    if s == [] {
      assert ([0] + s)[..0] == [];
    } else {
      OddShift(s[..|s| - 1], c);
      assert ([0] + s)[..|s|] == [0] + s[..|s| - 1];
    }
  }

  // ----- the data structure -----

  class CharRange {
    var points: array<U32>
    var len: nat

    ghost predicate Valid()
      reads this
    {
      len <= points.Length
    }

    ghost function Contents(): (s: seq<U32>)
      requires Valid()
      reads this, points
      ensures |s| == len
    {
      points[..len]
    }

    constructor ()
      ensures Valid() && Contents() == [] && fresh(points)
    {
      points := new U32[0];
      len := 0;
    }

    /** Makes room for `size` points. */
    method Realloc(size: nat)
      requires Valid()
      modifies this`points
      ensures Valid() && Contents() == old(Contents()) && size <= points.Length
      ensures points == old(points) || fresh(points)
    {
      if size > points.Length {
        var newSize := if size > points.Length * 3 / 2 then size else points.Length * 3 / 2;
        var buf := new U32[newSize](_ => 0);
        var pt, n := points, len;
        for i := 0 to n
          invariant pt == points && buf[..i] == pt[..i]
        {
          buf[i] := pt[i];
        }
        points := buf;
      }
    }

    method AddPoint(v: U32)
      requires Valid()
      modifies this, points
      ensures Valid() && Contents() == old(Contents()) + [v]
      ensures points == old(points) || fresh(points)
    {
      if len >= points.Length {
        Realloc(len + 1);
      }
      points[len] := v;
      len := len + 1;
    }

    method AddInterval(c1: U32, c2: U32)
      requires Valid()
      modifies this, points
      ensures Valid() && Contents() == old(Contents()) + [c1, c2]
      ensures points == old(points) || fresh(points)
    {
      if len + 2 > points.Length {
        Realloc(len + 2);
      }
      points[len] := c1;
      points[len + 1] := c2;
      len := len + 2;
    }

    /** Merges adjacent intervals and removes empty ones, in place. */
    method CompressPoints()
      requires Valid()
      modifies this`len, points
      ensures Valid() && Contents() == Compress(old(Contents()))
    {
      hide Compress, Extend, Joined;
      ghost var was, out := Contents(), [];
      var pt, n := points, len;
      var i, k := 0, 0;
      CompressEnds(was, n);
      while i + 1 < n
        invariant pt == points && k <= i <= n == |was| <= pt.Length
        invariant forall x :: i <= x < n ==> pt[x] == was[x]
        invariant pt[..k] == out && out + Compress(was[i..]) == Compress(was)
      {
        CompressFrom(was, i);
        if pt[i] == pt[i + 1] {
          i := i + 2;
        } else {
          var j := i;
          while j + 3 < n && pt[j + 1] == pt[j + 2]
            modifies {}
            invariant i <= j && j + 1 < n
            invariant Extend(Joined(was, i, j)) == Compress(was[i..])
          {
            ExtendFrom(was, i, j);
            j := j + 2;
          }
          ExtendFrom(was, i, j);
          ghost var before: seq<U32> := pt[..];
          pt[k] := pt[i];
          pt[k + 1] := pt[j + 1];
          assert pt[..] == Put(before, k, was[i], was[j + 1]);
          TwoMore(before, out, k, was[i], was[j + 1]);
          Rejoin(out, was[i], was[j + 1], Compress(was[j + 2..]));
          out := out + [was[i], was[j + 1]];
          k := k + 2;
          i := j + 2;
        }
      }
      CompressEnds(was, i);
      len := k;
    }

    static lemma CompressEnds(was: seq<U32>, i: nat)
      requires |was| - 1 <= i <= |was|
      ensures Compress(was[i..]) == [] && was[0..] == was
    {
    }

    static lemma TwoMore(now: seq<U32>, out: seq<U32>, k: nat, x: U32, y: U32)
      requires k + 2 <= |now| && now[..k] == out
      ensures Put(now, k, x, y)[..k + 2] == out + [x, y]
    {
    }

    static ghost function Put(now: seq<U32>, k: nat, x: U32, y: U32): (r: seq<U32>)
      requires k + 2 <= |now|
      ensures |r| == |now|
    {
      var one: seq<U32> := now[k := x];
      one[k + 1 := y]
    }

    /** What is left when the interval that starts at `i` has been extended to the one at `j`. */
    static ghost function Joined(was: seq<U32>, i: nat, j: nat): (x: seq<U32>)
      requires i < |was| && j + 1 < |was|
      ensures |x| >= 2
    {
      [was[i]] + was[j + 1..]
    }

    static lemma Rejoin(out: seq<U32>, x: U32, y: U32, rest: seq<U32>)
      ensures out + ([x, y] + rest) == (out + [x, y]) + rest
    {
    }

    static lemma CompressFrom(was: seq<U32>, i: nat)
      requires i + 1 < |was|
      ensures was[i] == was[i + 1] ==> Compress(was[i..]) == Compress(was[i + 2..])
      ensures was[i] != was[i + 1] ==> Compress(was[i..]) == Extend(Joined(was, i, i))
    {
      assert was[i..][2..] == was[i + 2..];
      assert [was[i]] + was[i + 1..] == was[i..];
    }

    static lemma ExtendFrom(was: seq<U32>, i: nat, j: nat)
      requires i <= j && j + 1 < |was|
      ensures j + 3 < |was| && was[j + 1] == was[j + 2] ==> Extend(Joined(was, i, j)) == Extend(Joined(was, i, j + 2))
      ensures !(j + 3 < |was| && was[j + 1] == was[j + 2])
          ==> Extend(Joined(was, i, j)) == [was[i], was[j + 1]] + Compress(was[j + 2..])
    {
      var x := [was[i]] + was[j + 1..];
      assert x[2..] == was[j + 2..];
      assert x[..2] == [was[i], was[j + 1]];
      if j + 3 < |was| {
        assert x[3..] == was[j + 3..];
      }
    }

    /** The union, intersection or symmetric difference of two ranges, into an empty one. */
    method CrOp(a: seq<U32>, b: seq<U32>, op: Op)
      requires Valid() && len == 0
      requires Nondecreasing(a) && Nondecreasing(b) && |a| % 2 == 0 && |b| % 2 == 0
      modifies this, points
      ensures Valid() && (points == old(points) || fresh(points))
      ensures Means(op, a, b, Contents()) && Strict(Contents())
    {
      hide Merging, OddMeans, Means, Strict, Odd, Nondecreasing, Below, Compress;
      var ai, bi := 0, 0;
      StartMerge(op, a, b, Contents());
      while ai < |a| || bi < |b|
        invariant Valid() && (points == old(points) || fresh(points)) && ai <= |a| && bi <= |b|
        invariant Merging(a, ai, b, bi, Contents())
        invariant OddMeans(op, a[..ai], b[..bi], Contents())
        invariant (len % 2 == 1) == Combined(op, ai % 2 == 1, bi % 2 == 1)
        decreases |a| - ai + |b| - bi
      {
        ghost var ai0, bi0, r := ai, bi, Contents();
        var v;
        v, ai, bi := NextPoint(a, ai, b, bi);
        var isIn := Combined(op, ai % 2 == 1, bi % 2 == 1);
        Advance(op, a, ai0, b, bi0, r, v, ai, bi, if isIn != (|r| % 2 == 1) then r + [v] else r);
        PointRead(op, a[..ai0], b[..bi0], a[..ai], b[..bi], r, v);
        if isIn != (len % 2 == 1) {
          AddPoint(v);
        }
      }
      EndMerge(op, a, b, Contents(), ai, bi);
      CompressPoints();
    }

    /** One more point from either list, in increasing order; a point of both is read from both. */
    static method NextPoint(a: seq<U32>, ai: nat, b: seq<U32>, bi: nat) returns (v: U32, ai': nat, bi': nat)
      requires ai <= |a| && bi <= |b| && (ai < |a| || bi < |b|)
      ensures ai' == if FromFirst(a, ai, b, bi) then ai + 1 else ai
      ensures bi' == if FromFirst(b, bi, a, ai) then bi + 1 else bi
      ensures if FromFirst(a, ai, b, bi) then v == a[ai] else FromFirst(b, bi, a, ai) && v == b[bi]
    {
      ai', bi' := ai, bi;
      if ai < |a| && bi < |b| {
        if a[ai] < b[bi] {
          v := a[ai];
          ai' := ai + 1;
        } else if a[ai] == b[bi] {
          v := a[ai];
          ai' := ai + 1;
          bi' := bi + 1;
        } else {
          v := b[bi];
          bi' := bi + 1;
        }
      } else if ai < |a| {
        v := a[ai];
        ai' := ai + 1;
      } else {
        v := b[bi];
        bi' := bi + 1;
      }
    }

    static lemma StartMerge(op: Op, a: seq<U32>, b: seq<U32>, r: seq<U32>)
      requires r == []
      ensures Merging(a, 0, b, 0, r) && OddMeans(op, a[..0], b[..0], r)
    {
    }

    static lemma EndMerge(op: Op, a: seq<U32>, b: seq<U32>, r: seq<U32>, ai: nat, bi: nat)
      requires Nondecreasing(a) && Nondecreasing(b) && |a| % 2 == 0 && |b| % 2 == 0
      requires ai == |a| && bi == |b| && Merging(a, ai, b, bi, r) && OddMeans(op, a[..ai], b[..bi], r)
      requires (|r| % 2 == 1) == Combined(op, ai % 2 == 1, bi % 2 == 1)
      ensures Means(op, a, b, Compress(r)) && Strict(Compress(r))
    {
      assert a[..ai] == a && b[..bi] == b;
      AllRead(op, a, b, r);
    }

    /** Adds `b` to the range. */
    method Union1(b: seq<U32>)
      requires Valid() && Nondecreasing(Contents()) && len % 2 == 0 && Nondecreasing(b) && |b| % 2 == 0
      modifies this
      ensures Valid() && fresh(points) && Means(Union, old(Contents()), b, Contents()) && Strict(Contents())
    {
      var a := points[..len];
      points, len := new U32[0], 0;
      CrOp(a, b, Union);
    }

    /** The characters below UINT32_MAX that are not in the range. */
    method Invert()
      requires Valid() && Nondecreasing(Contents()) && len % 2 == 0
      modifies this, points
      ensures Valid() && (points == old(points) || fresh(points)) && Strict(Contents())
      ensures forall c :: In(Contents(), c) <==> 0 <= c < UINT32_MAX && !In(old(Contents()), c)
    {
      ghost var was := Contents();
      Realloc(len + 2);
      forall i | 0 <= i < len {
        points[i + 1] := points[i];
      }
      points[0] := 0;
      points[len + 1] := UINT32_MAX;
      len := len + 2;
      assert Contents() == [0] + was + [UINT32_MAX];
      InvertMeans(was, Contents());
      CompressPoints();
    }

    /** The points, seen as an array of intervals. */
    method AsPairs() returns (pairs: array<Pair>)
      requires Valid() && len % 2 == 0
      ensures fresh(pairs) && pairs[..] == PairsOf(Contents())
    {
      pairs := new Pair[len / 2](_ => (0, 0));
      var n := len / 2;
      for k := 0 to n
        invariant n == pairs.Length == len / 2 && pairs[..k] == PairsOf(Contents()[..2 * k])
      {
        pairs[k] := (points[2 * k], points[2 * k + 1]);
        OnePairMore(Contents(), k);
      }
      assert pairs[..n] == pairs[..] && Contents()[..2 * n] == Contents();
    }

    static lemma OnePairMore(s: seq<U32>, k: nat)
      requires 2 * k + 2 <= |s|
      ensures PairsOf(s[..2 * k + 2]) == PairsOf(s[..2 * k]) + [(s[2 * k], s[2 * k + 1])]
    {
      var t := s[..2 * k + 2];
      assert t[..2 * k] == s[..2 * k];
    }

    /** Makes intervals in any order into the points of their union. */
    method SortAndRemoveOverlap()
      requires Valid() && len % 2 == 0
      modifies this`len, points
      ensures Valid()
      ensures forall c :: In(Contents(), c) <==> In(old(Contents()), c)
      ensures Proper(PairsOf(old(Contents()))) ==> Nondecreasing(Contents())
      ensures Proper(PairsOf(old(Contents()))) ==> (Strict(Contents()) <==> NoStray(PairsOf(old(Contents()))))
    {
      hide PairsOf, Join, In, Proper, NoStray, Strict, Nondecreasing, Flatten;
      ghost var was := Contents();
      var pairs := AsPairs();
      PointCmpRanks();
      SortQuick.RqSort(PointCmp, pairs);
      ghost var sorted := pairs[..];
      SortedJoined(was, sorted);
      Store(pairs);
      JoinPoints(sorted);
    }

    /** Puts the sorted intervals back. */
    method Store(pairs: array<Pair>)
      requires Valid() && len == 2 * pairs.Length && pairs as object != points
      modifies points
      ensures Valid() && Contents() == Flatten(pairs[..])
    {
      hide Flatten;
      var pt := points;
      assert pairs[..0] == [] && pt[..0] == [];
      EmptyFlat();
      for k := 0 to pairs.Length
        invariant pt[..2 * k] == Flatten(pairs[..k])
      {
        pt[2 * k], pt[2 * k + 1] := pairs[k].0, pairs[k].1;
        assert pairs[..k + 1] == pairs[..k] + [pairs[k]];
        FlattenMore(pairs[..k], pairs[k]);
      }
      assert pairs[..pairs.Length] == pairs[..];
    }

    static lemma EmptyFlat()
      ensures Flatten([]) == []
    {
    }

    static lemma FlattenMore(ps: seq<Pair>, p: Pair)
      ensures Flatten(ps + [p]) == Flatten(ps) + [p.0, p.1]
    {
      assert (ps + [p])[..|ps|] == ps;
    }

    /** The loop that joins overlapping intervals, in place. */
    method JoinPoints(ghost ps: seq<Pair>)
      requires Valid() && Contents() == Flatten(ps)
      modifies this`len, points
      ensures Valid() && Contents() == Flatten(Join(ps))
    {
      hide Flatten, Join, Absorb;
      var pt, n := points, len;
      ghost var out: seq<Pair> := [];
      var i, j := 0, 0;
      EmptyFlat();
      JoinStarts(ps);
      while i < n
        invariant pt == points && j <= i <= n == 2 * |ps| <= pt.Length && i % 2 == 0
        invariant forall k :: i <= k < n ==> pt[k] == Flatten(ps)[k]
        invariant pt[..j] == Flatten(out) && out + Join(ps[i / 2..]) == Join(ps)
      {
        FlattenAt(ps, i / 2);
        var start, end := pt[i], pt[i + 1];
        JoinFrom(ps, i / 2);
        end, i := ReachEnd(pt, n, i + 2, start, end, ps);
        ghost var before: seq<U32> := pt[..];
        pt[j] := start;
        pt[j + 1] := end;
        assert pt[..] == Put(before, j, start, end);
        TwoMore(before, Flatten(out), j, start, end);
        FlattenMore(out, (start, end));
        Regroup(out, (start, end), Join(ps[i / 2..]));
        out := out + [(start, end)];
        j := j + 2;
      }
      JoinEnds(ps, i / 2, out);
      len := j;
    }

    /** Extends the interval over all that start in it or at its end. */
    static method ReachEnd(pt: array<U32>, n: nat, i0: nat, start: U32, end0: U32, ghost ps: seq<Pair>)
      returns (end: U32, i: nat)
      requires i0 <= n == 2 * |ps| <= pt.Length && i0 % 2 == 0
      requires forall k :: i0 <= k < n ==> pt[k] == Flatten(ps)[k]
      ensures i0 <= i <= n && i % 2 == 0
      ensures Absorb((start, end0), ps[i0 / 2..]) == [(start, end)] + Join(ps[i / 2..])
    {
      hide Flatten, Join, Absorb;
      i, end := i0, end0;
      while i < n
        invariant i0 <= i <= n && i % 2 == 0
        invariant Absorb((start, end), ps[i / 2..]) == Absorb((start, end0), ps[i0 / 2..])
      {
        FlattenAt(ps, i / 2);
        var start1, end1 := pt[i], pt[i + 1];
        AbsorbFrom((start, end), ps, i / 2);
        if start1 > end {
          break;
        } else if end1 <= end {
          i := i + 2;
        } else {
          end := end1;
          i := i + 2;
        }
      }
      AbsorbFrom((start, end), ps, i / 2);
    }

    static lemma JoinStarts(ps: seq<Pair>)
      ensures [] + Join(ps[0..]) == Join(ps)
    {
      assert ps[0..] == ps;
    }

    static lemma JoinFrom(ps: seq<Pair>, k: nat)
      requires k < |ps|
      ensures Join(ps[k..]) == Absorb(ps[k], ps[k + 1..])
    {
      assert ps[k..][1..] == ps[k + 1..];
    }

    static lemma AbsorbFrom(p: Pair, ps: seq<Pair>, k: nat)
      requires k <= |ps|
      ensures k == |ps| || ps[k].0 > p.1 ==> Absorb(p, ps[k..]) == [p] + Join(ps[k..])
      ensures k < |ps| && ps[k].0 <= p.1 ==> Absorb(p, ps[k..]) == Absorb((p.0, Larger(p.1, ps[k].1)), ps[k + 1..])
    {
      if k < |ps| {
        assert ps[k..][1..] == ps[k + 1..];
      }
    }

    static lemma Regroup(out: seq<Pair>, p: Pair, rest: seq<Pair>)
      ensures out + ([p] + rest) == (out + [p]) + rest
    {
    }

    static lemma JoinEnds(ps: seq<Pair>, k: nat, out: seq<Pair>)
      requires k == |ps|
      ensures out + Join(ps[k..]) == out
    {
    }
  }
}
