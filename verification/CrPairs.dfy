/** Intervals in any order, and what is left after sorting them and joining those that overlap. */
module CrPairs {
  import opened CrSets
  import opened SortBase

  type Pair = (U32, U32)

  /** point_cmp: only the start of an interval counts. */
  const PointCmp: Cmp<Pair> :=
    (p: Pair, q: Pair) => (if p.0 > q.0 then 1 else 0) - (if p.0 < q.0 then 1 else 0)

  lemma PointCmpRanks()
    ensures TotalPreorder(PointCmp)
  {
  }

  function Flatten(ps: seq<Pair>): (s: seq<U32>)
    ensures |s| == 2 * |ps|
  {
    if ps == [] then [] else Flatten(ps[..|ps| - 1]) + [ps[|ps| - 1].0, ps[|ps| - 1].1]
  }

  lemma {:induction false} FlattenAt(ps: seq<Pair>, k: nat)
    requires k < |ps|
    ensures Flatten(ps)[2 * k] == ps[k].0 && Flatten(ps)[2 * k + 1] == ps[k].1
  {
    if k < |ps| - 1 {
      FlattenAt(ps[..|ps| - 1], k);
    }
  }

  ghost predicate Within(ps: seq<Pair>, c: int) {
    exists p :: p in ps && p.0 <= c < p.1
  }

  lemma WithinIsIn(ps: seq<Pair>, c: int)
    ensures Within(ps, c) <==> In(Flatten(ps), c)
  {
    if Within(ps, c) {
      var p :| p in ps && p.0 <= c < p.1;
      var k :| 0 <= k < |ps| && ps[k] == p;
      FlattenAt(ps, k);
      assert At(Flatten(ps), k, c);
    }
    if In(Flatten(ps), c) {
      var k :| At(Flatten(ps), k, c);
      FlattenAt(ps, k);
      assert ps[k] in ps;
    }
  }

  /** Sorted by their starts. */
  ghost predicate ByStart(ps: seq<Pair>) {
    forall i, j :: 0 <= i < j < |ps| ==> ps[i].0 <= ps[j].0
  }

  /** No interval ends before it starts. */
  ghost predicate Proper(ps: seq<Pair>) {
    forall p :: p in ps ==> p.0 <= p.1
  }

  function Larger(x: U32, y: U32): U32 { if y <= x then x else y }

  /** Joins each interval with the ones that start in it or where it ends. */
  function Join(ps: seq<Pair>): (r: seq<Pair>)
    ensures |r| <= |ps|
    decreases |ps|, 0
  {
    if ps == [] then [] else Absorb(ps[0], ps[1..])
  }

  function Absorb(p: Pair, rest: seq<Pair>): (r: seq<Pair>)
    ensures 1 <= |r| <= |rest| + 1
    decreases |rest|, 1
  {
    if rest == [] then [p]
    else if rest[0].0 > p.1 then [p] + Join(rest)
    else Absorb((p.0, Larger(p.1, rest[0].1)), rest[1..])
  }

  lemma WithinFirst(p: Pair, ps: seq<Pair>, c: int)
    ensures Within([p] + ps, c) <==> p.0 <= c < p.1 || Within(ps, c)
  {
    if Within([p] + ps, c) {
      var q :| q in [p] + ps && q.0 <= c < q.1;
    }
    if Within(ps, c) {
      var q :| q in ps && q.0 <= c < q.1;
      assert q in [p] + ps;
    }
    if p.0 <= c < p.1 {
      assert p in [p] + ps;
    }
  }

  lemma ByStartTail(p: Pair, rest: seq<Pair>)
    requires ByStart([p] + rest)
    ensures ByStart(rest)
  {
    assert ([p] + rest)[1..] == rest;
    assert forall i :: 0 <= i < |rest| ==> ([p] + rest)[i + 1] == rest[i];
  }

  lemma ByStartJoined(p: Pair, q: Pair, more: seq<Pair>, joined: Pair)
    requires ByStart([p] + ([q] + more)) && joined.0 == p.0
    ensures ByStart([joined] + more) && p.0 <= q.0
  {
    var all, now := [p] + ([q] + more), [joined] + more;
    assert all[0] == p && all[1] == q;
    assert forall i :: 0 < i < |now| ==> now[i] == all[i + 1];
  }

  lemma ProperParts(p: Pair, rest: seq<Pair>)
    ensures Proper([p] + rest) <==> p.0 <= p.1 && Proper(rest)
  {
    if Proper([p] + rest) {
      assert p in [p] + rest;
      assert forall q :: q in rest ==> q in [p] + rest;
    }
  }

  /** Joining keeps the set, whatever the intervals, as long as they come in the order of their starts. */
  lemma {:induction false} JoinMeans(ps: seq<Pair>, c: int)
    requires ByStart(ps)
    ensures Within(Join(ps), c) <==> Within(ps, c)
    decreases |ps|, 0
  {
    hide Within;
    if ps != [] {
      assert ps == [ps[0]] + ps[1..];
      AbsorbMeans(ps[0], ps[1..], c);
    }
  }

  lemma {:induction false} AbsorbMeans(p: Pair, rest: seq<Pair>, c: int)
    requires ByStart([p] + rest)
    ensures Within(Absorb(p, rest), c) <==> Within([p] + rest, c)
    decreases |rest|, 1
  {
    hide Within, ByStart;
    if rest == [] {
      assert [p] + rest == [p];
    } else if rest[0].0 > p.1 {
      ByStartTail(p, rest);
      JoinMeans(rest, c);
      WithinFirst(p, Join(rest), c);
      WithinFirst(p, rest, c);
    } else {
      var q, more := rest[0], rest[1..];
      var joined := (p.0, Larger(p.1, q.1));
      assert rest == [q] + more;
      ByStartJoined(p, q, more, joined);
      AbsorbMeans(joined, more, c);
      WithinFirst(joined, more, c);
      WithinFirst(p, rest, c);
      WithinFirst(q, more, c);
    }
  }

  /** The results follow each other with gaps between them. */
  ghost predicate Apart(ps: seq<Pair>) {
    forall i, j :: 0 <= i < j < |ps| ==> ps[i].1 < ps[j].0
  }

  ghost predicate StartsFrom(ps: seq<Pair>, x: int) {
    forall i :: 0 <= i < |ps| ==> x <= ps[i].0
  }

  lemma {:induction false} JoinApart(ps: seq<Pair>)
    requires ByStart(ps) && Proper(ps)
    ensures Apart(Join(ps)) && Proper(Join(ps)) && (ps != [] ==> StartsFrom(Join(ps), ps[0].0))
    decreases |ps|, 0
  {
    if ps != [] {
      assert ps == [ps[0]] + ps[1..];
      AbsorbApart(ps[0], ps[1..]);
    }
  }

  lemma {:induction false} AbsorbApart(p: Pair, rest: seq<Pair>)
    requires ByStart([p] + rest) && Proper([p] + rest)
    ensures Apart(Absorb(p, rest)) && Proper(Absorb(p, rest)) && StartsFrom(Absorb(p, rest), p.0)
    decreases |rest|, 1
  {
    hide ByStart, Proper;
    ProperParts(p, rest);
    if rest == [] {
      assert [p] + rest == [p];
    } else if rest[0].0 > p.1 {
      ByStartTail(p, rest);
      JoinApart(rest);
      ProperParts(p, Join(rest));
    } else {
      var q, more := rest[0], rest[1..];
      var joined := (p.0, Larger(p.1, q.1));
      assert rest == [q] + more;
      ByStartJoined(p, q, more, joined);
      ProperParts(q, more);
      ProperParts(joined, more);
      AbsorbApart(joined, more);
    }
  }

  ghost predicate Inside(p: Pair, q: Pair) { q.0 <= p.0 && p.1 <= q.1 }

  /** Every interval is inside a result. */
  lemma {:induction false} JoinCovers(ps: seq<Pair>, p: Pair) returns (q: Pair)
    requires ByStart(ps) && p in ps
    ensures q in Join(ps) && Inside(p, q)
    decreases |ps|, 0
  {
    assert ps == [ps[0]] + ps[1..];
    q := AbsorbCovers(ps[0], ps[1..], p);
  }

  lemma {:induction false} AbsorbCovers(f: Pair, rest: seq<Pair>, p: Pair) returns (q: Pair)
    requires ByStart([f] + rest) && (p in rest || Inside(p, f))
    ensures q in Absorb(f, rest) && Inside(p, q)
    decreases |rest|, 1
  {
    hide ByStart;
    if rest == [] {
      q := f;
    } else if rest[0].0 > f.1 {
      if Inside(p, f) {
        q := f;
      } else {
        ByStartTail(f, rest);
        q := JoinCovers(rest, p);
      }
    } else {
      var next, more := rest[0], rest[1..];
      var joined := (f.0, Larger(f.1, next.1));
      assert rest == [next] + more;
      ByStartJoined(f, next, more, joined);
      q := AbsorbCovers(joined, more, p);
    }
  }

  /** Every result starts where one of the intervals inside it starts. */
  lemma {:induction false} JoinStarts(ps: seq<Pair>, q: Pair) returns (p: Pair)
    requires q in Join(ps)
    ensures p in ps && p.0 == q.0 && p.1 <= q.1
    decreases |ps|, 0
  {
    p := AbsorbStarts(ps[0], ps[0], ps[1..], q);
    if p != ps[0] {
      assert p in ps[1..];
    }
  }

  lemma {:induction false} AbsorbStarts(first: Pair, f: Pair, rest: seq<Pair>, q: Pair) returns (p: Pair)
    requires q in Absorb(f, rest) && first.0 == f.0 && first.1 <= f.1
    ensures (p == first || p in rest) && p.0 == q.0 && p.1 <= q.1
    decreases |rest|, 1
  {
    if rest == [] {
      p := first;
    } else if rest[0].0 > f.1 {
      if q == f {
        p := first;
      } else {
        p := JoinStarts(rest, q);
      }
    } else {
      p := AbsorbStarts(first, (f.0, Larger(f.1, rest[0].1)), rest[1..], q);
    }
  }

  /** Every empty interval touches one that is not empty. */
  ghost predicate NoStray(ps: seq<Pair>) {
    forall p :: p in ps && p.0 == p.1 ==> exists q :: q in ps && q.0 < q.1 && q.0 <= p.0 <= q.1
  }

  ghost predicate NoneEmpty(ps: seq<Pair>) {
    forall p :: p in ps ==> p.0 < p.1
  }

  lemma NoStrayNoneEmpty(ps: seq<Pair>)
    requires ByStart(ps) && Proper(ps) && NoStray(ps)
    ensures NoneEmpty(Join(ps))
  {
    hide Join, Apart;
    JoinApart(ps);
    forall e | e in Join(ps)
      ensures e.0 < e.1
    {
      if e.0 == e.1 {
        var p := JoinStarts(ps, e);
        var q :| q in ps && q.0 < q.1 && q.0 <= p.0 <= q.1;
        var big := JoinCovers(ps, q);
        ApartSame(Join(ps), e, big, p.0);
      }
    }
  }

  /** Two results that meet are the same. */
  lemma ApartSame(rs: seq<Pair>, e: Pair, f: Pair, x: int)
    requires Apart(rs) && e in rs && f in rs && e.0 <= x <= e.1 && f.0 <= x <= f.1
    ensures e == f
  {
    var i :| 0 <= i < |rs| && rs[i] == e;
    var j :| 0 <= j < |rs| && rs[j] == f;
  }

  lemma NoneEmptyNoStray(ps: seq<Pair>)
    requires ByStart(ps) && Proper(ps) && NoneEmpty(Join(ps))
    ensures NoStray(ps)
  {
    forall p | p in ps && p.0 == p.1
      ensures exists q :: q in ps && q.0 < q.1 && q.0 <= p.0 <= q.1
    {
      var big := JoinCovers(ps, p);
      var c := if p.0 < big.1 then p.0 as int else big.1 as int - 1;
      assert big.0 <= c < big.1;
      assert Within(Join(ps), c);
      JoinMeans(ps, c);
      var q :| q in ps && q.0 <= c < q.1;
      if p.0 == big.1 {
        InsideSame(ps, big, q, c);
      }
    }
  }

  /** An interval that shares a character with a result is inside it. */
  lemma InsideSame(ps: seq<Pair>, big: Pair, q: Pair, c: int)
    requires ByStart(ps) && Proper(ps) && big in Join(ps) && q in ps && big.0 <= c < big.1 && q.0 <= c < q.1
    ensures Inside(q, big)
  {
    JoinApart(ps);
    var other := JoinCovers(ps, q);
    ApartSame(Join(ps), big, other, c);
  }

  lemma FlatPair(ps: seq<Pair>, i: nat, j: nat)
    requires Apart(ps) && Proper(ps) && i < j < 2 * |ps|
    ensures var s := Flatten(ps);
      && s[i] <= s[j] && (i / 2 < j / 2 ==> s[i] < s[j])
      && (i / 2 == j / 2 ==> s[i] == ps[i / 2].0 && s[j] == ps[i / 2].1)
  {
    hide Flatten;
    var k, l := i / 2, j / 2;
    FlattenAt(ps, k);
    FlattenAt(ps, l);
    assert ps[k] in ps && ps[l] in ps;
    assert i == 2 * k || i == 2 * k + 1;
    assert j == 2 * l || j == 2 * l + 1;
  }

  lemma FlatOrder(ps: seq<Pair>)
    requires Apart(ps) && Proper(ps)
    ensures Nondecreasing(Flatten(ps))
    ensures Strict(Flatten(ps)) <==> NoneEmpty(ps)
  {
    hide Flatten, Apart, Proper;
    var s := Flatten(ps);
    forall i, j | 0 <= i < j < |s|
      ensures s[i] <= s[j] && (NoneEmpty(ps) ==> s[i] < s[j])
    {
      FlatPair(ps, i, j);
      assert ps[i / 2] in ps;
    }
    if Strict(s) {
      forall p | p in ps
        ensures p.0 < p.1
      {
        var k :| 0 <= k < |ps| && ps[k] == p;
        FlatPair(ps, 2 * k, 2 * k + 1);
      }
    }
  }

  // ----- the sorted intervals -----

  function PairsOf(s: seq<U32>): (ps: seq<Pair>)
    ensures |ps| == |s| / 2
  {
    if |s| < 2 then [] else PairsOf(s[..2 * (|s| / 2) - 2]) + [(s[2 * (|s| / 2) - 2], s[2 * (|s| / 2) - 1])]
  }

  lemma {:induction false} PairsFlatten(s: seq<U32>)
    requires |s| % 2 == 0
    ensures Flatten(PairsOf(s)) == s
  {
    if s != [] {
      var t := s[..|s| - 2];
      PairsFlatten(t);
      var ps := PairsOf(s);
      assert ps[..|ps| - 1] == PairsOf(t);
      assert s == t + [s[|s| - 2], s[|s| - 1]];
    }
  }

  lemma SortedByStart(ps: seq<Pair>)
    requires Sorted(PointCmp, ps)
    ensures ByStart(ps)
  {
    forall i, j | 0 <= i < j < |ps|
      ensures ps[i].0 <= ps[j].0
    {
      assert Le(PointCmp, ps[i], ps[j]);
    }
  }

  lemma SameElements(ps: seq<Pair>, qs: seq<Pair>)
    requires multiset(ps) == multiset(qs)
    ensures forall p :: p in ps <==> p in qs
    ensures Proper(ps) <==> Proper(qs)
    ensures NoStray(ps) <==> NoStray(qs)
    ensures forall c :: Within(ps, c) <==> Within(qs, c)
  {
    forall p
      ensures p in ps <==> p in qs
    {
      assert p in ps <==> p in multiset(ps);
      assert p in qs <==> p in multiset(qs);
    }
  }

  /** What the result of sorting and joining means for the points it started from. */
  lemma SortedJoined(s: seq<U32>, sorted: seq<Pair>)
    requires |s| % 2 == 0 && multiset(sorted) == multiset(PairsOf(s)) && Sorted(PointCmp, sorted)
    ensures forall c :: In(Flatten(Join(sorted)), c) <==> In(s, c)
    ensures Proper(PairsOf(s)) ==> Nondecreasing(Flatten(Join(sorted)))
    ensures Proper(PairsOf(s)) ==> (Strict(Flatten(Join(sorted))) <==> NoStray(PairsOf(s)))
  {
    hide Sorted, Flatten, PairsOf, Join, In, Within, Proper, NoStray, Strict, Nondecreasing, ByStart;
    SortedByStart(sorted);
    SameElements(sorted, PairsOf(s));
    PairsFlatten(s);
    forall c
      ensures In(Flatten(Join(sorted)), c) <==> In(s, c)
    {
      WithinIsIn(Join(sorted), c);
      JoinMeans(sorted, c);
      WithinIsIn(PairsOf(s), c);
    }
    if Proper(sorted) {
      JoinApart(sorted);
      FlatOrder(Join(sorted));
      if NoStray(sorted) {
        NoStrayNoneEmpty(sorted);
      }
      if NoneEmpty(Join(sorted)) {
        NoneEmptyNoStray(sorted);
      }
    }
  }

  /** One empty interval on its own: sorting and joining leave it as two equal points. */
  lemma StrayExample()
    ensures Proper(PairsOf([5, 5])) && !NoStray(PairsOf([5, 5]))
    ensures Flatten(Join(PairsOf([5, 5]))) == [5, 5] && !Strict([5, 5])
  {
    var s: seq<U32> := [5, 5];
    assert s[..0] == [];
    assert PairsOf(s) == [(5, 5)];
    var ps: seq<Pair> := [(5, 5)];
    assert ps[..0] == [];
    assert (5, 5) in ps;
    assert s[0] == s[1];
  }
}
