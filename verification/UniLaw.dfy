/** The law of composition: which characters join a starter, and that none is left that could. */
module UniLaw {
  import opened UniOrder
  import opened UniHangul
  import opened UniNorm

  /** `k` is the last starter of `done`, behind which a character of class `last` may stand: everything between is no starter,
      and the nearest of it, if there is any, has a smaller class. */
  predicate Reaches(done: seq<int>, k: nat, last: nat, tb: Tables) {
    && k < |done| && tb.cc(done[k]) == 0 && (forall i :: k < i < |done| ==> tb.cc(done[i]) > 0)
    && (k < |done| - 1 ==> tb.cc(done[|done| - 1]) < last)
  }

  /** The search for the starter finds it, if it is there. */
  lemma {:induction false} StarterIs(done: seq<int>, n: nat, last: nat, tb: Tables)
    requires WellFormed(tb) && n <= |done|
    ensures var k := Starter(done, n, last, tb);
            if k >= 0 then Reaches(done[..n], k, last, tb) else forall j: nat :: !Reaches(done[..n], j, last, tb)
    decreases n
  {
    hide WellFormed;
    if n > 0 {
      var s, t, c := done[..n], done[..n - 1], done[n - 1];
      TableAt(c, tb);
      assert s == t + [c];
      if tb.cc(c) != 0 && tb.cc(c) < last {
        StarterIs(done, n - 1, 256, tb);
        if n > 1 { TableAt(done[n - 2], tb); }
        forall j: nat ensures Reaches(s, j, last, tb) <==> Reaches(t, j, 256, tb) { NextReaches(t, c, j, last, tb); }
      }
    }
  }

  lemma {:induction false} NextReaches(t: seq<int>, c: int, j: nat, last: nat, tb: Tables)
    requires 0 < tb.cc(c) < last && (t != [] ==> tb.cc(t[|t| - 1]) < 256)
    ensures Reaches(t + [c], j, last, tb) <==> Reaches(t, j, 256, tb)
  {
    var s := t + [c];
    if Reaches(s, j, last, tb) {
      forall i | j < i < |t| ensures tb.cc(t[i]) > 0 { assert s[i] == t[i]; }
    }
  }

  /** One round of the composition. */
  lemma {:induction false} RoundLaw(done: seq<int>, c: int, tb: Tables)
    requires WellFormed(tb)
    ensures forall k: nat :: Reaches(done, k, tb.cc(c), tb) && ComposePair(done[k], c, tb) != 0 ==>
              Joined(done, c, tb) == done[k := ComposePair(done[k], c, tb)]
    ensures (forall k: nat :: Reaches(done, k, tb.cc(c), tb) ==> ComposePair(done[k], c, tb) == 0) ==>
              Joined(done, c, tb) == done + [c]
  {
    hide WellFormed, Starter, ComposePair;
    StarterIs(done, |done|, tb.cc(c), tb);
    assert done[..|done|] == done;
  }

  /** A character between, a starter or of no smaller class, blocks `s[i]` from `s[k]` (definition D115 of the Unicode Standard). */
  predicate Blocked(s: seq<int>, k: nat, i: nat, cc: int -> nat)
    requires i < |s|
  {
    exists j :: k < j < i && (cc(s[j]) == 0 || cc(s[j]) >= cc(s[i]))
  }

  /** No starter composes with a character behind it that is not blocked from it. */
  predicate Settled(s: seq<int>, tb: Tables) {
    forall k: nat, i: nat :: k < i < |s| ==> SettledAt(s, k, i, tb)
  }

  predicate SettledAt(s: seq<int>, k: nat, i: nat, tb: Tables)
    requires k < i < |s|
  {
    tb.cc(s[k]) == 0 && !Blocked(s, k, i, tb.cc) ==> ComposePair(s[k], s[i], tb) == 0
  }

  /** What the tables must hold beyond that: the last part of a composite does not decompose, and full decompositions are in
      canonical order. */
  ghost predicate Closed(tb: Tables)
    requires WellFormed(tb)
  {
    && (forall a, b :: tb.pair(a, b) != 0 ==> Plain(b, tb))
    && (forall c :: Ordered(Nfd1(c, tb), tb.cc))
  }

  /** A character that stays is settled with what stands before it. */
  lemma {:induction false} StaysSettled(done: seq<int>, c: int, k: nat, tb: Tables)
    requires WellFormed(tb) && k < |done| && Joined(done, c, tb) == done + [c]
    ensures SettledAt(done + [c], k, |done|, tb)
  {
    hide WellFormed, ComposePair, Joined;
    var s, n := done + [c], |done|;
    if tb.cc(s[k]) == 0 && !Blocked(s, k, n, tb.cc) {
      forall i | k < i < n ensures 0 < tb.cc(done[i]) < tb.cc(c) { assert s[i] == done[i]; }
      assert Reaches(done, k, tb.cc(c), tb);
      RoundLaw(done, c, tb);
    }
  }

  lemma {:induction false} SameBlocked(s: seq<int>, r: seq<int>, k: nat, i: nat, cc: int -> nat)
    requires i < |s| && i < |r| && forall j :: 0 <= j <= i ==> cc(s[j]) == cc(r[j])
    ensures Blocked(s, k, i, cc) <==> Blocked(r, k, i, cc)
  {
    if Blocked(s, k, i, cc) {
      var j :| k < j < i && (cc(s[j]) == 0 || cc(s[j]) >= cc(s[i]));
      assert cc(r[j]) == cc(s[j]);
    }
    if Blocked(r, k, i, cc) {
      var j :| k < j < i && (cc(r[j]) == 0 || cc(r[j]) >= cc(r[i]));
      assert cc(r[j]) == cc(s[j]);
    }
  }

  lemma {:induction false} AppendSettled(done: seq<int>, c: int, tb: Tables)
    requires WellFormed(tb) && Settled(done, tb) && Joined(done, c, tb) == done + [c]
    ensures Settled(done + [c], tb)
  {
    hide WellFormed, ComposePair, Joined, SettledAt, Blocked;
    var s, n := done + [c], |done|;
    forall k: nat, i: nat | k < i < |s| ensures SettledAt(s, k, i, tb) {
      if i < n {
        assert SettledAt(done, k, i, tb);
        SettledSame(done, s, k, i, tb);
      } else {
        StaysSettled(done, c, k, tb);
      }
    }
  }

  lemma {:induction false} SettledSame(s: seq<int>, r: seq<int>, k: nat, i: nat, tb: Tables)
    requires k < i < |s| && i < |r| && SettledAt(s, k, i, tb) && s[k] == r[k] && s[i] == r[i]
    requires forall j :: 0 <= j <= i ==> tb.cc(s[j]) == tb.cc(r[j])
    ensures SettledAt(r, k, i, tb)
  {
    SameBlocked(s, r, k, i, tb.cc);
  }

  /** A composite is not the last part of another one. */
  lemma {:induction false} CompositeNotLast(x: int, a: int, c: int, tb: Tables)
    requires WellFormed(tb) && Closed(tb) && ComposePair(a, c, tb) != 0 && c != NO_TRAILING
    ensures ComposePair(x, ComposePair(a, c, tb), tb) == 0
  {
    var p := ComposePair(a, c, tb);
    hide Nfd1, Ordered;
    if IsLeading(a) && IsVowel(c) {
      LeadingVowel(a, c, tb);
      assert !Plain(p, tb);
    } else if IsOpen(a) && IsTrailing(c) {
      OpenTrailing(a, c);
      assert !Plain(p, tb);
    } else {
      assert Composite(a, c, p, tb);
      assert !Plain(p, tb);
    }
  }

  /** Behind a composite nothing that stood there before composes with it: it has a smaller class than the last part. */
  lemma {:induction false} CompositeSettled(a: int, c: int, d: int, tb: Tables)
    requires WellFormed(tb) && Closed(tb) && ComposePair(a, c, tb) != 0 && Plain(c, tb) && Plain(d, tb)
    requires 0 < tb.cc(d) < tb.cc(c)
    ensures ComposePair(ComposePair(a, c, tb), d, tb) == 0
  {
    hide Nfd1, Ordered, ComposePair, Nfd;
    var p := ComposePair(a, c, tb);
    TableAt(c, tb);
    TableAt(d, tb);
    PairsBack(a, c, tb);
    if ComposePair(p, d, tb) != 0 {
      var q := ComposePair(p, d, tb);
      PairsBack(p, d, tb);
      var s := Nfd1(q, tb);
      assert s == Nfd1(a, tb) + [c] + [d];
      assert Ordered(s, tb.cc);
      LastTwo(Nfd1(a, tb), c, d, tb.cc);
    }
  }

  lemma {:induction false} LastTwo(s: seq<int>, c: int, d: int, cc: int -> nat)
    requires 0 < cc(d) < cc(c)
    ensures !Ordered(s + [c] + [d], cc)
  {
    var r := s + [c] + [d];
    assert r[|s|] == c && r[|s| + 1] == d && Reorderable(r[|s|], r[|s| + 1], cc);
  }

  lemma {:induction false} JoinSettled(done: seq<int>, todo: seq<int>, k: nat, tb: Tables)
    requires WellFormed(tb) && Closed(tb) && todo != [] && Good(done, todo, tb) && Settled(done, tb)
    requires k < |done| && Starter(done, |done|, tb.cc(todo[0]), tb) == k && ComposePair(done[k], todo[0], tb) != 0
    ensures Settled(done[k := ComposePair(done[k], todo[0], tb)], tb)
  {
    hide WellFormed, Closed, ComposePair, Starter, SettledAt, Blocked, Ordered;
    var c := todo[0];
    var p := ComposePair(done[k], c, tb);
    var r := done[k := p];
    if c == NO_TRAILING {
      GoodParts(done, todo, tb);
      PairsBack(done[k], c, tb);
      assert r == done;
    } else {
      GoodParts(done, todo, tb);
      StarterFound(done, |done|, tb.cc(c), tb);
      StarterStays(done[k], c, tb);
      BehindStarter(done, todo, k, tb);
      forall j: nat, i: nat | j < i < |r| ensures SettledAt(r, j, i, tb) {
        assert SettledAt(done, j, i, tb);
        if j == k {
          assert done[i] == done[k + 1..][i - k - 1];
          CompositeSettled(done[k], c, done[i], tb);
          NoPairSettled(r, j, i, tb);
        } else if i == k {
          CompositeNotLast(done[j], done[k], c, tb);
          NoPairSettled(r, j, i, tb);
        } else {
          SettledSame(done, r, j, i, tb);
        }
      }
    }
  }

  lemma NoPairSettled(s: seq<int>, k: nat, i: nat, tb: Tables)
    requires k < i < |s| && ComposePair(s[k], s[i], tb) == 0
    ensures SettledAt(s, k, i, tb)
  {
  }

  lemma {:induction false} ComposeSettled(done: seq<int>, todo: seq<int>, tb: Tables)
    requires WellFormed(tb) && Closed(tb) && Good(done, todo, tb) && Settled(done, tb)
    ensures Settled(ComposeFrom(done, todo, tb), tb)
    decreases |todo|
  {
    hide WellFormed, Closed, ComposePair, Starter, Good, Settled;
    if todo != [] {
      var c := todo[0];
      var k := Starter(done, |done|, tb.cc(c), tb);
      if k >= 0 && ComposePair(done[k], c, tb) != 0 {
        JoinSettled(done, todo, k, tb);
      } else {
        AppendSettled(done, c, tb);
      }
      RoundGood(done, todo, tb);
      ComposeSettled(Joined(done, c, tb), todo[1..], tb);
    }
  }

  /** The composition leaves no character that is not blocked from its starter and composes with it. */
  lemma {:induction false} NfcSettled(s: seq<int>, tb: Tables)
    requires WellFormed(tb) && Closed(tb)
    ensures Settled(Nfc(s, tb), tb)
  {
    hide WellFormed, Closed, Nfd, Order, ComposeFrom, Ordered, AllPlain, Settled;
    var d := Order(Nfd(s, tb), tb.cc);
    NfdPlain(s, tb);
    OrderPlain(Nfd(s, tb), tb);
    OrderIs(Nfd(s, tb), tb.cc);
    assert [] + d == d;
    NothingSettled(tb);
    ComposeSettled([], d, tb);
  }

  lemma NothingSettled(tb: Tables)
    ensures Settled([], tb)
  {
  }
}
