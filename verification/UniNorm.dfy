/** Normalization (unicode_normalize): what its composition keeps, and what it loses. */
module UniNorm {
  import opened UniOrder
  import opened UniHangul

  /** The starter that a character of class `last` can compose with: the last one in `done[..n]`, or -1 if there is none or
      the character is blocked. */
  function Starter(done: seq<int>, n: nat, last: nat, tb: Tables): (k: int)
    requires n <= |done|
    ensures -1 <= k < n
  {
    if n == 0 then -1
    else if tb.cc(done[n - 1]) == 0 then n - 1
    else if tb.cc(done[n - 1]) >= last then -1
    else Starter(done, n - 1, 256, tb)
  }

  /** One round of the composition: `c` joins a starter, or stays. */
  function Joined(done: seq<int>, c: int, tb: Tables): (r: seq<int>)
    ensures |r| <= |done| + 1
  {
    var k := Starter(done, |done|, tb.cc(c), tb);
    if k >= 0 && ComposePair(done[k], c, tb) != 0 then done[k := ComposePair(done[k], c, tb)] else done + [c]
  }

  function ComposeFrom(done: seq<int>, todo: seq<int>, tb: Tables): seq<int>
    decreases |todo|
  {
    if todo == [] then done else ComposeFrom(Joined(done, todo[0], tb), todo[1..], tb)
  }

  /** The composition of a decomposed text in canonical order. */
  function Compose(s: seq<int>, tb: Tables): seq<int> { ComposeFrom([], s, tb) }

  ghost function Nfc(s: seq<int>, tb: Tables): seq<int>
    requires WellFormed(tb)
  {
    Compose(Order(Nfd(s, tb), tb.cc), tb)
  }

  // ---- one round ----

  /** What is composed so far and what is left: decomposed but for the starters composed so far, and in canonical order. */
  ghost predicate Good(done: seq<int>, todo: seq<int>, tb: Tables) {
    && Ordered(done + todo, tb.cc) && AllPlain(todo, tb)
    && forall i :: 0 <= i < |done| && tb.cc(done[i]) != 0 ==> Plain(done[i], tb)
  }

  /** The characters behind the starter found: no starters, and all of smaller classes than the one that composes. */
  lemma {:induction false} StarterFound(done: seq<int>, n: nat, last: nat, tb: Tables)
    requires WellFormed(tb) && n <= |done| && Ordered(done, tb.cc) && Starter(done, n, last, tb) >= 0
    ensures var k := Starter(done, n, last, tb);
            && tb.cc(done[k]) == 0
            && (forall i :: k < i < n ==> 0 < tb.cc(done[i]) < 256 && tb.cc(done[i]) <= tb.cc(done[n - 1]))
            && (k < n - 1 ==> tb.cc(done[n - 1]) < last)
    decreases n
  {
    var c := done[n - 1];
    TableAt(c, tb);
    if tb.cc(c) != 0 {
      StarterFound(done, n - 1, 256, tb);
      if n >= 2 { assert !Reorderable(done[n - 2], done[n - 1], tb.cc); }
    }
  }

  /** A character of a larger class may stand in front of others that are no starters. */
  lemma {:induction false} Slide(stuff: seq<int>, c: int, cc: int -> nat)
    requires forall i :: 0 <= i < |stuff| ==> 0 < cc(stuff[i]) < cc(c)
    ensures Equivalent(stuff + [c], [c] + stuff, cc)
    decreases |stuff|
  {
    hide Only, Equivalent;
    if stuff == [] {
      assert stuff + [c] == [c] + stuff;
      Reflexive([c] + stuff, cc);
    } else {
      var x, rest := stuff[0], stuff[1..];
      Slide(rest, c, cc);
      Reflexive([x], cc);
      EquivalentConcat([x], [x], rest + [c], [c] + rest, cc);
      PairSwaps(x, c, cc);
      Reflexive(rest, cc);
      EquivalentConcat([x, c], [c, x], rest, rest, cc);
      assert stuff + [c] == [x] + (rest + [c]) && [x] + ([c] + rest) == [x, c] + rest && [c, x] + rest == [c] + stuff;
      Transitive(stuff + [c], [x, c] + rest, [c] + stuff, cc);
    }
  }

  /** Behind a starter that takes in `c`, the text decomposes into an equivalent one. */
  lemma {:induction false} RoundKeeps(pre: seq<int>, a: int, stuff: seq<int>, c: int, p: int, rest: seq<int>, tb: Tables)
    requires WellFormed(tb) && AllPlain(stuff, tb) && Nfd1(p, tb) == Nfd1(a, tb) + [c]
    requires forall i :: 0 <= i < |stuff| ==> 0 < tb.cc(stuff[i]) < tb.cc(c)
    ensures Equivalent(Nfd(pre + [a] + stuff, tb) + [c] + rest, Nfd(pre + [p] + stuff, tb) + rest, tb.cc)
  {
    hide Only, Equivalent, Nfd, Nfd1, WellFormed, AllPlain;
    var x, y := Nfd(pre, tb), Nfd1(a, tb);
    NfdParts(pre, a, stuff, tb);
    NfdParts(pre, p, stuff, tb);
    Slide(stuff, c, tb.cc);
    Reflexive(x + y, tb.cc);
    Reflexive(rest, tb.cc);
    EquivalentConcat(x + y, x + y, stuff + [c], [c] + stuff, tb.cc);
    EquivalentConcat(x + y + (stuff + [c]), x + y + ([c] + stuff), rest, rest, tb.cc);
    assert x + y + stuff + [c] + rest == x + y + (stuff + [c]) + rest;
    assert x + (y + [c]) + stuff + rest == x + y + ([c] + stuff) + rest;
  }

  lemma {:induction false} NfdParts(pre: seq<int>, a: int, stuff: seq<int>, tb: Tables)
    requires WellFormed(tb) && AllPlain(stuff, tb)
    ensures Nfd(pre + [a] + stuff, tb) == Nfd(pre, tb) + Nfd1(a, tb) + stuff
  {
    hide Nfd, Nfd1, WellFormed, AllPlain;
    NfdConcat(pre + [a], stuff, tb);
    NfdConcat(pre, [a], tb);
    NfdOne(a, tb);
    PlainStays(stuff, tb);
  }

  /** The round loses a character. */
  predicate Loses(done: seq<int>, c: int, tb: Tables) {
    c == NO_TRAILING && |Joined(done, c, tb)| == |done|
  }

  lemma {:induction false} RoundGood(done: seq<int>, todo: seq<int>, tb: Tables)
    requires WellFormed(tb) && todo != [] && Good(done, todo, tb)
    ensures Good(Joined(done, todo[0], tb), todo[1..], tb)
  {
    hide Starter, ComposePair, WellFormed, Nfd;
    var c, rest := todo[0], todo[1..];
    var k := Starter(done, |done|, tb.cc(c), tb);
    if k >= 0 && ComposePair(done[k], c, tb) != 0 {
      Front(done, todo, tb.cc);
      StarterFound(done, |done|, tb.cc(c), tb);
      StarterStays(done[k], c, tb);
      JoinedOrdered(done, todo, k, ComposePair(done[k], c, tb), tb);
    } else {
      assert (done + [c]) + rest == done + todo;
    }
  }

  lemma {:induction false} Front(s: seq<int>, t: seq<int>, cc: int -> nat)
    requires Ordered(s + t, cc)
    ensures Ordered(s, cc)
  {
    forall i | 0 <= i < |s| - 1 ensures !Reorderable(s[i], s[i + 1], cc) {
      assert !Reorderable((s + t)[i], (s + t)[i + 1], cc);
    }
  }

  lemma StarterStays(a: int, c: int, tb: Tables)
    requires WellFormed(tb) && tb.cc(a) == 0 && ComposePair(a, c, tb) != 0
    ensures tb.cc(ComposePair(a, c, tb)) == 0
  {
    var p := ComposePair(a, c, tb);
    TableAt(p, tb);
    if IsLeading(a) && IsVowel(c) {
      LeadingVowel(a, c, tb);
    } else if IsOpen(a) && IsTrailing(c) {
      OpenTrailing(a, c);
    } else {
      assert Composite(a, c, tb.pair(a, c), tb);
    }
  }

  lemma {:induction false} JoinedOrdered(done: seq<int>, todo: seq<int>, k: nat, p: int, tb: Tables)
    requires todo != [] && Ordered(done + todo, tb.cc) && k < |done| && tb.cc(done[k]) == 0 && tb.cc(p) == 0
    requires k < |done| - 1 ==> tb.cc(todo[0]) > 0
    ensures Ordered(done[k := p] + todo[1..], tb.cc)
  {
    var s, r := done + todo, done[k := p] + todo[1..];
    var n := |done|;
    forall i | 0 <= i < |r| - 1 ensures !Reorderable(r[i], r[i + 1], tb.cc) {
      if i + 1 < n {
        assert !Reorderable(s[i], s[i + 1], tb.cc);
        assert r[i] == (if i == k then p else s[i]) && r[i + 1] == if i + 1 == k then p else s[i + 1];
      } else if i + 1 == n {
        assert !Reorderable(s[n - 1], s[n], tb.cc) && !Reorderable(s[n], s[n + 1], tb.cc);
        assert r[i] == (if i == k then p else s[i]) && r[i + 1] == s[n + 1];
      } else {
        assert !Reorderable(s[i + 1], s[i + 2], tb.cc);
        assert r[i] == s[i + 1] && r[i + 1] == s[i + 2];
      }
    }
  }

  /** One round keeps the text up to equivalence, or loses a character. */
  lemma {:induction false} RoundEquivalent(done: seq<int>, todo: seq<int>, tb: Tables)
    requires WellFormed(tb) && todo != [] && Good(done, todo, tb)
    ensures var next := Joined(done, todo[0], tb);
            if Loses(done, todo[0], tb) then Nfd(next, tb) == Nfd(done, tb)
            else Equivalent(Nfd(done, tb) + todo, Nfd(next, tb) + todo[1..], tb.cc)
  {
    hide Starter, ComposePair, WellFormed, Nfd, Equivalent, Good, Ordered;
    var c := todo[0];
    var k := Starter(done, |done|, tb.cc(c), tb);
    if k >= 0 && ComposePair(done[k], c, tb) != 0 {
      RoundComposes(done, todo, k, tb);
    } else {
      RoundCopies(done, todo, tb);
    }
  }

  lemma {:induction false} RoundComposes(done: seq<int>, todo: seq<int>, k: nat, tb: Tables)
    requires WellFormed(tb) && todo != [] && Good(done, todo, tb)
    requires k < |done| && k == Starter(done, |done|, tb.cc(todo[0]), tb) && ComposePair(done[k], todo[0], tb) != 0
    ensures var next := done[k := ComposePair(done[k], todo[0], tb)];
            if todo[0] == NO_TRAILING then Nfd(next, tb) == Nfd(done, tb)
            else Equivalent(Nfd(done, tb) + todo, Nfd(next, tb) + todo[1..], tb.cc)
  {
    hide Starter, ComposePair, WellFormed, Nfd, Nfd1, Equivalent, Good, Ordered, AllPlain;
    var c, rest := todo[0], todo[1..];
    var pre, a, stuff, p := done[..k], done[k], done[k + 1..], ComposePair(done[k], c, tb);
    GoodParts(done, todo, tb);
    PairsBack(a, c, tb);
    if c == NO_TRAILING {
      assert done[k := p] == done;
    } else {
      StarterFound(done, |done|, tb.cc(c), tb);
      BehindStarter(done, todo, k, tb);
      RoundKeeps(pre, a, stuff, c, p, rest, tb);
      SplitAt(done, todo, k, p, Nfd(done, tb));
    }
  }

  lemma SplitAt(done: seq<int>, todo: seq<int>, k: nat, p: int, x: seq<int>)
    requires k < |done| && todo != []
    ensures done == done[..k] + [done[k]] + done[k + 1..] && done[k := p] == done[..k] + [p] + done[k + 1..]
    ensures x + todo == x + [todo[0]] + todo[1..]
  {
  }

  lemma {:induction false} GoodParts(done: seq<int>, todo: seq<int>, tb: Tables)
    requires todo != [] && Good(done, todo, tb)
    ensures Ordered(done, tb.cc) && Plain(todo[0], tb)
  {
    hide Ordered, Plain;
    Front(done, todo, tb.cc);
  }

  lemma {:induction false} RoundCopies(done: seq<int>, todo: seq<int>, tb: Tables)
    requires WellFormed(tb) && todo != [] && Good(done, todo, tb)
    ensures Equivalent(Nfd(done, tb) + todo, Nfd(done + [todo[0]], tb) + todo[1..], tb.cc)
  {
    hide WellFormed, Nfd, Equivalent, Good;
    var c := todo[0];
    GoodParts(done, todo, tb);
    NfdConcat(done, [c], tb);
    PlainStays([c], tb);
    assert Nfd(done, tb) + todo == Nfd(done, tb) + [c] + todo[1..];
    Reflexive(Nfd(done, tb) + todo, tb.cc);
  }

  lemma {:induction false} BehindStarter(done: seq<int>, todo: seq<int>, k: nat, tb: Tables)
    requires WellFormed(tb) && todo != [] && Good(done, todo, tb) && k < |done|
    requires forall i :: k < i < |done| ==> 0 < tb.cc(done[i]) < 256 && tb.cc(done[i]) <= tb.cc(done[|done| - 1])
    requires k < |done| - 1 ==> tb.cc(done[|done| - 1]) < tb.cc(todo[0])
    ensures var stuff := done[k + 1..];
            AllPlain(stuff, tb) && forall i :: 0 <= i < |stuff| ==> 0 < tb.cc(stuff[i]) < tb.cc(todo[0])
  {
    hide WellFormed, Ordered, Plain;
    var stuff := done[k + 1..];
    forall i | 0 <= i < |stuff| ensures Plain(stuff[i], tb) && 0 < tb.cc(stuff[i]) < tb.cc(todo[0]) {
      assert stuff[i] == done[k + 1 + i];
    }
  }

  // ---- the whole composition ----

  predicate LosesAny(done: seq<int>, todo: seq<int>, tb: Tables)
    decreases |todo|
  {
    todo != [] && (Loses(done, todo[0], tb) || LosesAny(Joined(done, todo[0], tb), todo[1..], tb))
  }

  lemma {:induction false} SameLength(s: seq<int>, r: seq<int>, cc: int -> nat)
    requires Equivalent(s, r, cc)
    ensures |s| == |r|
  {
    hide Equivalent, Order;
    SameOrder(s, r, cc);
  }

  lemma {:induction false} ComposeKeeps(done: seq<int>, todo: seq<int>, tb: Tables)
    requires WellFormed(tb) && Good(done, todo, tb)
    ensures var s, r := Nfd(done, tb) + todo, Nfd(ComposeFrom(done, todo, tb), tb);
            && |r| <= |s| && (LosesAny(done, todo, tb) ==> |r| < |s|)
            && (!LosesAny(done, todo, tb) ==> Equivalent(s, r, tb.cc))
    decreases |todo|
  {
    hide WellFormed, Nfd, Joined, Loses, Equivalent, Good;
    var s, r := Nfd(done, tb) + todo, Nfd(ComposeFrom(done, todo, tb), tb);
    if todo == [] {
      assert s == r;
      Reflexive(s, tb.cc);
    } else {
      var next, rest := Joined(done, todo[0], tb), todo[1..];
      RoundGood(done, todo, tb);
      RoundEquivalent(done, todo, tb);
      ComposeKeeps(next, rest, tb);
      var t := Nfd(next, tb) + rest;
      if !Loses(done, todo[0], tb) {
        SameLength(s, t, tb.cc);
        if !LosesAny(next, rest, tb) { Transitive(s, t, r, tb.cc); }
      }
    }
  }

  /** A leading consonant, a vowel, and the trailing consonant that is none. */
  predicate TripleAt(s: seq<int>, i: nat) {
    i + 2 < |s| && IsLeading(s[i]) && IsVowel(s[i + 1]) && s[i + 2] == NO_TRAILING
  }

  ghost predicate HasTriple(s: seq<int>) { exists i: nat :: TripleAt(s, i) }

  lemma TripleStep(s: seq<int>)
    requires s != []
    ensures HasTriple(s) <==> TripleAt(s, 0) || HasTriple(s[1..])
  {
    if HasTriple(s) {
      var i: nat :| TripleAt(s, i);
      if i > 0 { assert TripleAt(s[1..], i - 1); }
    }
    if HasTriple(s[1..]) {
      var i: nat :| TripleAt(s[1..], i);
      assert TripleAt(s, i + 1);
    }
  }

  /** The loss that the last composed character and what is left lead to. */
  ghost predicate Threatens(done: seq<int>, todo: seq<int>) {
    || (done != [] && todo != [] && IsOpen(done[|done| - 1]) && todo[0] == NO_TRAILING)
    || (done != [] && |todo| >= 2 && IsLeading(done[|done| - 1]) && IsVowel(todo[0]) && todo[1] == NO_TRAILING)
    || HasTriple(todo)
  }

  /** A Hangul character composes with a Hangul character that stands last, or not at all. */
  lemma {:induction false} HangulJoins(done: seq<int>, c: int, tb: Tables)
    requires WellFormed(tb) && IsHangul(c)
    ensures var last := if done == [] then 0 else done[|done| - 1];
            Joined(done, c, tb) == if done != [] && ((IsLeading(last) && IsVowel(c)) || (IsOpen(last) && IsTrailing(c)))
                                   then done[|done| - 1 := ComposePair(last, c, tb)] else done + [c]
  {
    TableAt(c, tb);
    if done != [] {
      var last := done[|done| - 1];
      TableAt(last, tb);
      assert tb.pair(last, c) == 0;
    }
  }

  /** Any other character leaves no Hangul character last. */
  lemma {:induction false} OtherJoins(done: seq<int>, c: int, tb: Tables)
    requires WellFormed(tb) && !IsHangul(c)
    ensures var r := Joined(done, c, tb); r != [] && !IsHangul(r[|r| - 1])
  {
    hide Starter;
    var k := Starter(done, |done|, tb.cc(c), tb);
    if k >= 0 && ComposePair(done[k], c, tb) != 0 {
      assert Composite(done[k], c, tb.pair(done[k], c), tb);
      if k < |done| - 1 {
        LastBehind(done, tb.cc(c), tb);
        TableAt(done[|done| - 1], tb);
      }
    }
  }

  lemma LastBehind(done: seq<int>, last: nat, tb: Tables)
    requires 0 <= Starter(done, |done|, last, tb) < |done| - 1
    ensures tb.cc(done[|done| - 1]) != 0
  {
  }

  /** A character is lost exactly where a triple stands. */
  lemma {:induction false} LosesIff(done: seq<int>, todo: seq<int>, tb: Tables)
    requires WellFormed(tb) && AllPlain(todo, tb)
    ensures LosesAny(done, todo, tb) <==> Threatens(done, todo)
    decreases |todo|
  {
    hide WellFormed, Joined, HasTriple, ComposePair;
    if todo != [] {
      var c, rest := todo[0], todo[1..];
      var next := Joined(done, c, tb);
      assert Plain(todo[0], tb);
      forall i | 0 <= i < |rest| ensures Plain(rest[i], tb) { assert rest[i] == todo[i + 1]; }
      LosesIff(next, rest, tb);
      TripleStep(todo);
      if IsHangul(c) {
        HangulJoins(done, c, tb);
        if done != [] { HangulPairs(done[|done| - 1], c, tb); }
      } else {
        OtherJoins(done, c, tb);
      }
    } else {
      NoTriple();
    }
  }

  lemma NoTriple()
    ensures !HasTriple([])
  {
  }

  lemma {:induction false} HangulPairs(last: int, c: int, tb: Tables)
    requires IsHangul(c) && !IsSyllable(c)
    ensures IsLeading(last) && IsVowel(c) ==> IsOpen(ComposePair(last, c, tb))
    ensures IsOpen(last) && IsTrailing(c) ==>
              IsSyllable(ComposePair(last, c, tb)) && (IsOpen(ComposePair(last, c, tb)) <==> c == NO_TRAILING)
  {
  }

  // ---- the order does not touch what starters decide ----

  lemma {:induction false} PutPlain(c: int, s: seq<int>, tb: Tables)
    requires Plain(c, tb) && AllPlain(s, tb)
    ensures AllPlain(Put(c, s, tb.cc), tb)
    decreases |s|
  {
    if s != [] && Reorderable(c, s[0], tb.cc) {
      assert Plain(s[0], tb);
      PutPlain(c, s[1..], tb);
    }
  }

  lemma {:induction false} OrderPlain(s: seq<int>, tb: Tables)
    requires AllPlain(s, tb)
    ensures AllPlain(Order(s, tb.cc), tb)
    decreases |s|
  {
    if s != [] {
      assert Plain(s[0], tb);
      OrderPlain(s[1..], tb);
      PutPlain(s[0], Order(s[1..], tb.cc), tb);
    }
  }

  lemma {:induction false} SortedAlready(s: seq<int>, cc: int -> nat)
    requires Ordered(s, cc)
    ensures Order(s, cc) == s
  {
    hide Order, Ordered;
    NothingYet(s, cc);
    SortedIsOrder(s, [], s, cc);
  }

  /** A starter that comes first stays first; behind another character none gets there. */
  lemma {:induction false} OrderFirst(s: seq<int>, cc: int -> nat)
    requires s != []
    ensures cc(s[0]) == 0 ==> Order(s, cc) == [s[0]] + Order(s[1..], cc)
    ensures cc(s[0]) != 0 ==> cc(Order(s, cc)[0]) != 0
  {
  }

  lemma {:induction false} PutTriple(c: int, s: seq<int>, tb: Tables)
    requires WellFormed(tb) && tb.cc(c) != 0
    ensures HasTriple(Put(c, s, tb.cc)) <==> HasTriple(s)
    decreases |s|
  {
    hide HasTriple;
    TableAt(c, tb);
    var r := Put(c, s, tb.cc);
    TripleStep(r);
    if s == [] || !Reorderable(c, s[0], tb.cc) {
      assert r[1..] == s;
    } else {
      TableAt(s[0], tb);
      TripleStep(s);
      PutTriple(c, s[1..], tb);
      assert r[1..] == Put(c, s[1..], tb.cc);
    }
  }

  /** A triple stands in the ordered text where it stood before. */
  lemma {:induction false} OrderTriple(s: seq<int>, tb: Tables)
    requires WellFormed(tb)
    ensures HasTriple(Order(s, tb.cc)) <==> HasTriple(s)
    decreases |s|
  {
    hide HasTriple, Order;
    if s == [] {
      assert |Order(s, tb.cc)| == 0;
    } else {
      var r := Order(s, tb.cc);
      OrderTriple(s[1..], tb);
      TripleStep(s);
      TableAt(s[0], tb);
      OrderStep(s, tb.cc);
      OrderFirst(s, tb.cc);
      if tb.cc(s[0]) == 0 {
        TripleStep(r);
        assert r[1..] == Order(s[1..], tb.cc);
        FirstTriple(s, tb);
      } else {
        PutTriple(s[0], Order(s[1..], tb.cc), tb);
      }
    }
  }

  lemma OrderStep(s: seq<int>, cc: int -> nat)
    requires s != []
    ensures Order(s, cc) == Put(s[0], Order(s[1..], cc), cc)
  {
  }

  lemma {:induction false} FirstTriple(s: seq<int>, tb: Tables)
    requires WellFormed(tb) && s != [] && tb.cc(s[0]) == 0
    ensures TripleAt(Order(s, tb.cc), 0) <==> TripleAt(s, 0)
  {
    hide Order;
    var r := Order(s, tb.cc);
    OrderFirst(s, tb.cc);
    if |s| > 1 {
      var t := s[1..];
      OrderFirst(t, tb.cc);
      TableAt(t[0], tb);
      TableAt(r[1], tb);
      if |s| > 2 && tb.cc(t[0]) == 0 {
        OrderFirst(t[1..], tb.cc);
        TableAt(t[1], tb);
        TableAt(r[2], tb);
      }
    }
  }

  // ---- the theorems ----

  /** The composition of a text decomposes into the same canonical order again, exactly when no leading consonant, vowel and
      U+11A7 stand in a row in its decomposition. */
  lemma {:induction false} NfcKeeps(s: seq<int>, tb: Tables)
    requires WellFormed(tb)
    ensures Order(Nfd(Nfc(s, tb), tb), tb.cc) == Order(Nfd(s, tb), tb.cc) <==> !HasTriple(Nfd(s, tb))
  {
    hide WellFormed, Nfd, Order, ComposeFrom, Equivalent, HasTriple, AllPlain, Ordered;
    var d := Order(Nfd(s, tb), tb.cc);
    var r := Nfd(Compose(d, tb), tb);
    NfdPlain(s, tb);
    OrderPlain(Nfd(s, tb), tb);
    OrderIs(Nfd(s, tb), tb.cc);
    OrderTriple(Nfd(s, tb), tb);
    NfdNone(tb);
    assert [] + d == d;
    ComposeKeeps([], d, tb);
    LosesIff([], d, tb);
    SameOrder(d, r, tb.cc);
    SortedAlready(d, tb.cc);
    if LosesAny([], d, tb) { assert |Order(r, tb.cc)| == |r| < |d|; }
  }

  /** What is left, without the characters that get lost. */
  function Lasting(done: seq<int>, todo: seq<int>, tb: Tables): (r: seq<int>)
    ensures |r| <= |todo|
    decreases |todo|
  {
    if todo == [] then []
    else (if Loses(done, todo[0], tb) then [] else [todo[0]]) + Lasting(Joined(done, todo[0], tb), todo[1..], tb)
  }

  lemma {:induction false} LostNothing(done: seq<int>, c: int, tb: Tables)
    requires WellFormed(tb) && Loses(done, c, tb)
    ensures Joined(done, c, tb) == done
  {
    hide Starter, WellFormed;
    HangulJoins(done, c, tb);
  }

  /** Behind a character that is no starter nothing gets lost. */
  lemma {:induction false} NextLasts(done: seq<int>, c: int, rest: seq<int>, tb: Tables)
    requires WellFormed(tb) && tb.cc(c) != 0 && rest != []
    ensures Lasting(Joined(done, c, tb), rest, tb) != [] && Lasting(Joined(done, c, tb), rest, tb)[0] == rest[0]
  {
    hide Joined, WellFormed;
    TableAt(c, tb);
    OtherJoins(done, c, tb);
    if rest[0] == NO_TRAILING { HangulJoins(Joined(done, c, tb), rest[0], tb); }
  }

  lemma {:induction false} LastingOrdered(done: seq<int>, c: int, rest: seq<int>, next: seq<int>, k: seq<int>, cc: int -> nat)
    requires Ordered(done + ([c] + rest), cc) && Ordered(next + k, cc)
    requires cc(c) != 0 && rest != [] ==> k != [] && k[0] == rest[0]
    requires |k| <= |rest|
    ensures Ordered(done + ([c] + k), cc)
  {
    var s, t, r := done + ([c] + rest), next + k, done + ([c] + k);
    var n := |done|;
    forall i | 0 <= i < |r| - 1 ensures !Reorderable(r[i], r[i + 1], cc) {
      if i < n {
        assert !Reorderable(s[i], s[i + 1], cc);
      } else if i == n {
        assert r[i] == c && r[i + 1] == k[0];
        if cc(c) != 0 { assert !Reorderable(s[n], s[n + 1], cc); }
      } else {
        var j := |next| + (i - n - 1);
        assert !Reorderable(t[j], t[j + 1], cc);
        assert t[j] == r[i] && t[j + 1] == r[i + 1];
      }
    }
  }

  lemma {:induction false} LastingSame(done: seq<int>, todo: seq<int>, tb: Tables)
    requires WellFormed(tb) && Good(done, todo, tb)
    ensures var k := Lasting(done, todo, tb);
            && Good(done, k, tb) && !LosesAny(done, k, tb) && ComposeFrom(done, k, tb) == ComposeFrom(done, todo, tb)
    decreases |todo|
  {
    hide WellFormed, Joined, Loses, Ordered;
    if todo != [] {
      var c, rest := todo[0], todo[1..];
      var next := Joined(done, c, tb);
      RoundGood(done, todo, tb);
      LastingSame(next, rest, tb);
      var k := Lasting(next, rest, tb);
      if Loses(done, c, tb) {
        LostNothing(done, c, tb);
        assert Lasting(done, todo, tb) == k;
      } else {
        var all := [c] + k;
        assert Lasting(done, todo, tb) == all && all[0] == c && all[1..] == k && todo == [c] + rest;
        if tb.cc(c) != 0 && rest != [] { NextLasts(done, c, rest, tb); }
        LastingOrdered(done, c, rest, next, k, tb.cc);
        forall i | 0 <= i < |all| ensures Plain(all[i], tb) { if i == 0 { assert Plain(todo[0], tb); } else { assert Plain(k[i - 1], tb); } }
      }
    }
  }

  /** Normalizing twice is normalizing once, whatever gets lost. */
  lemma {:induction false} NfcAgain(s: seq<int>, tb: Tables)
    requires WellFormed(tb)
    ensures Nfc(Nfc(s, tb), tb) == Nfc(s, tb)
  {
    hide WellFormed, Nfd, Order, ComposeFrom, Equivalent, AllPlain, Ordered, LosesAny, Lasting;
    var d := Order(Nfd(s, tb), tb.cc);
    var k := Lasting([], d, tb);
    NfdPlain(s, tb);
    OrderPlain(Nfd(s, tb), tb);
    OrderIs(Nfd(s, tb), tb.cc);
    NfdNone(tb);
    assert [] + d == d && [] + k == k;
    LastingSame([], d, tb);
    ComposeKeeps([], k, tb);
    SameOrder(k, Nfd(Compose(k, tb), tb), tb.cc);
    SortedAlready(k, tb.cc);
  }

  // ---- texts that are in composed form ----

  /** What the tables hold on characters below 0x100: starters that decompose into a starter and a mark at most, that compose
      again, and that do not compose with what stands before. */
  ghost predicate Latin1Tables(tb: Tables) {
    forall c :: 0 <= c < 0x100 ==> Latin1At(c, tb)
  }

  ghost predicate Latin1At(c: int, tb: Tables) {
    && tb.cc(c) == 0 && (forall a :: tb.pair(a, c) == 0)
    && (tb.decomp(c) != [] ==>
          && |tb.decomp(c)| == 2 && c != 0
          && var b, m := tb.decomp(c)[0], tb.decomp(c)[1];
             0 <= b < 0x100 && Plain(b, tb) && Plain(m, tb) && tb.cc(m) > 0 && tb.pair(b, m) == c)
  }

  /** The decomposition of the character begins with a starter, is in canonical order, and composes to it behind anything. */
  ghost predicate ComesBack(c: int, tb: Tables)
    requires WellFormed(tb)
  {
    var d := Nfd1(c, tb);
    && d != [] && tb.cc(d[0]) == 0 && Ordered(d, tb.cc)
    && forall done, rest :: ComposeFrom(done, d + rest, tb) == ComposeFrom(done + [c], rest, tb)
  }

  lemma ComposeStep(done: seq<int>, c: int, rest: seq<int>, tb: Tables)
    ensures ComposeFrom(done, [c] + rest, tb) == ComposeFrom(Joined(done, c, tb), rest, tb)
  {
    assert ([c] + rest)[1..] == rest;
  }

  lemma {:induction false} SyllableComesBack(c: int, tb: Tables)
    requires WellFormed(tb) && IsSyllable(c)
    ensures ComesBack(c, tb)
  {
    hide Joined, ComposeFrom, WellFormed;
    JamoParts(c);
    SyllableBack(c, tb);
    var d := Jamo(c);
    forall i | 0 <= i < |d| ensures tb.cc(d[i]) == 0 { TableAt(d[i], tb); }
    forall done, rest ensures ComposeFrom(done, d + rest, tb) == ComposeFrom(done + [c], rest, tb) {
      JamoCompose(c, done, rest, tb);
    }
  }

  lemma {:induction false} JamoCompose(c: int, done: seq<int>, rest: seq<int>, tb: Tables)
    requires WellFormed(tb) && IsSyllable(c)
    ensures ComposeFrom(done, Jamo(c) + rest, tb) == ComposeFrom(done + [c], rest, tb)
  {
    hide Joined, ComposeFrom, WellFormed, ComposePair;
    JamoParts(c);
    SyllableBack(c, tb);
    var d := Jamo(c);
    var l, v := d[0], d[1];
    var open := ComposePair(l, v, tb);
    HangulJoins(done, l, tb);
    HangulJoins(done + [l], v, tb);
    assert (done + [l])[|done| := open] == done + [open];
    if |d| == 2 {
      assert d + rest == [l] + ([v] + rest);
      ComposeStep(done, l, [v] + rest, tb);
      ComposeStep(done + [l], v, rest, tb);
    } else {
      var t := d[2];
      HangulJoins(done + [open], t, tb);
      assert (done + [open])[|done| := c] == done + [c];
      assert d + rest == [l] + ([v] + ([t] + rest));
      ComposeStep(done, l, [v] + ([t] + rest), tb);
      ComposeStep(done + [l], v, [t] + rest, tb);
      ComposeStep(done + [open], t, rest, tb);
    }
  }

  lemma {:induction false} Latin1ComesBack(c: int, tb: Tables)
    requires WellFormed(tb) && Latin1Tables(tb) && 0 <= c < 0x100
    ensures ComesBack(c, tb)
  {
    hide Joined, ComposeFrom, WellFormed;
    Latin1Nfd(c, tb);
    var d := Nfd1(c, tb);
    forall done, rest ensures ComposeFrom(done, d + rest, tb) == ComposeFrom(done + [c], rest, tb) {
      Latin1Joins(done, d[0], tb);
      if |d| == 1 {
        assert d + rest == [c] + rest;
        ComposeStep(done, c, rest, tb);
      } else {
        var b, m := d[0], d[1];
        MarkJoins(done, b, m, c, tb);
        assert d + rest == [b] + ([m] + rest);
        ComposeStep(done, b, [m] + rest, tb);
        ComposeStep(done + [b], m, rest, tb);
      }
    }
  }

  lemma {:induction false} Latin1Nfd(c: int, tb: Tables)
    requires WellFormed(tb) && Latin1Tables(tb) && 0 <= c < 0x100
    ensures var d := Nfd1(c, tb);
            && 1 <= |d| <= 2 && 0 <= d[0] < 0x100 && tb.cc(d[0]) == 0
            && (if |d| == 1 then d == [c] else tb.cc(d[1]) > 0 && c != 0 && tb.pair(d[0], d[1]) == c)
  {
    assert Latin1At(c, tb);
    if tb.decomp(c) != [] {
      var d := tb.decomp(c);
      assert Latin1At(d[0], tb);
      assert AllPlain(d, tb);
      PlainStays(d, tb);
    }
  }

  lemma {:induction false} Latin1Joins(done: seq<int>, c: int, tb: Tables)
    requires Latin1Tables(tb) && 0 <= c < 0x100
    ensures Joined(done, c, tb) == done + [c]
  {
    assert Latin1At(c, tb);
    if done != [] { NoPair(done[|done| - 1], c, tb); }
  }

  lemma NoPair(a: int, c: int, tb: Tables)
    requires Latin1Tables(tb) && 0 <= c < 0x100
    ensures tb.pair(a, c) == 0
  {
    assert Latin1At(c, tb);
  }

  lemma {:induction false} MarkJoins(done: seq<int>, b: int, m: int, c: int, tb: Tables)
    requires WellFormed(tb) && 0 <= b < 0x100 && tb.cc(b) == 0 && tb.cc(m) > 0 && c != 0 && tb.pair(b, m) == c
    ensures Joined(done + [b], m, tb) == done + [c]
  {
    TableAt(m, tb);
    assert (done + [b])[|done|] == b && (done + [b])[|done| := c] == done + [c];
  }

  lemma {:induction false} OrderedJoin(s: seq<int>, t: seq<int>, cc: int -> nat)
    requires Ordered(s, cc) && Ordered(t, cc) && (t == [] || cc(t[0]) == 0)
    ensures Ordered(s + t, cc)
  {
    var r, n := s + t, |s|;
    forall i | 0 <= i < |r| - 1 ensures !Reorderable(r[i], r[i + 1], cc) {
      if i + 1 < n {
        assert !Reorderable(s[i], s[i + 1], cc);
      } else if i >= n {
        assert !Reorderable(t[i - n], t[i - n + 1], cc);
      }
    }
  }

  /** A text of such characters decomposes in canonical order, and composes to itself. */
  lemma {:induction false} TextComesBack(s: seq<int>, done: seq<int>, tb: Tables)
    requires WellFormed(tb) && forall i :: 0 <= i < |s| ==> ComesBack(s[i], tb)
    ensures var d := Nfd(s, tb);
            Ordered(d, tb.cc) && (d == [] || tb.cc(d[0]) == 0) && ComposeFrom(done, d, tb) == done + s
    decreases |s|
  {
    hide WellFormed, Nfd, Nfd1, Joined, Ordered;
    if s == [] {
      NfdNone(tb);
      NothingOrdered(tb.cc);
    } else {
      NfdStep(s, tb);
      assert ComesBack(s[0], tb);
      forall i | 0 <= i < |s[1..]| ensures ComesBack(s[1..][i], tb) { assert s[1..][i] == s[i + 1]; }
      TextComesBack(s[1..], done + [s[0]], tb);
      OrderedJoin(Nfd1(s[0], tb), Nfd(s[1..], tb), tb.cc);
      assert done + [s[0]] + s[1..] == done + s;
    }
  }

  lemma NothingOrdered(cc: int -> nat)
    ensures Ordered([], cc)
  {
  }

  /** Hangul syllables and the characters below 0x100 are in composed form. */
  lemma {:induction false} ComposedStays(s: seq<int>, tb: Tables)
    requires WellFormed(tb)
    requires forall i :: 0 <= i < |s| ==> IsSyllable(s[i]) || (0 <= s[i] < 0x100 && Latin1Tables(tb))
    ensures Nfc(s, tb) == s
  {
    hide WellFormed, Latin1Tables, Nfd, ComposeFrom, Order, Ordered, ComesBack;
    forall i | 0 <= i < |s| ensures ComesBack(s[i], tb) {
      if IsSyllable(s[i]) { SyllableComesBack(s[i], tb); } else { Latin1ComesBack(s[i], tb); }
    }
    TextComesBack(s, [], tb);
    SortedAlready(Nfd(s, tb), tb.cc);
    assert [] + s == s;
  }

  /** A syllable without a trailing consonant, in front of U+11A7, is what the composition loses. */
  lemma {:induction false} LostExample(tb: Tables)
    requires WellFormed(tb)
    ensures Nfc([0xac00, 0x11a7], tb) == [0xac00] && HasTriple(Nfd([0xac00, 0x11a7], tb))
  {
    hide WellFormed, Nfd, Order, Ordered, Joined, ComposeFrom, Compose;
    var d := [0x1100, 0x1161, 0x11a7];
    ExampleNfd(tb);
    assert TripleAt(d, 0);
    ExampleOrdered(tb);
    SortedAlready(d, tb.cc);
    ExampleComposes(tb);
  }

  lemma {:induction false} ExampleNfd(tb: Tables)
    requires WellFormed(tb)
    ensures Nfd([0xac00, 0x11a7], tb) == [0x1100, 0x1161, 0x11a7]
  {
    hide WellFormed, Nfd;
    TableAt(0x11a7, tb);
    assert [0xac00, 0x11a7] == [0xac00] + [0x11a7];
    NfdConcat([0xac00], [0x11a7], tb);
    NfdOne(0xac00, tb);
    NfdOne(0x11a7, tb);
  }

  lemma {:induction false} ExampleOrdered(tb: Tables)
    requires WellFormed(tb)
    ensures Ordered([0x1100, 0x1161, 0x11a7], tb.cc)
  {
    hide WellFormed;
    TableAt(0x1161, tb);
    TableAt(0x11a7, tb);
  }

  lemma {:induction false} ExampleComposes(tb: Tables)
    requires WellFormed(tb)
    ensures Compose([0x1100, 0x1161, 0x11a7], tb) == [0xac00]
  {
    hide WellFormed, Joined, ComposeFrom;
    JamoCompose(0xac00, [], [0x11a7], tb);
    assert [0x1100, 0x1161, 0x11a7] == Jamo(0xac00) + [0x11a7];
    ComposeStep([0xac00], 0x11a7, [], tb);
    HangulJoins([0xac00], 0x11a7, tb);
    assert [0x11a7] + [] == [0x11a7] && [] + [0xac00] == [0xac00];
    assert ComposePair(0xac00, 0x11a7, tb) == 0xac00 && [0xac00][0 := 0xac00] == [0xac00];
    assert Joined([0xac00], 0x11a7, tb) == [0xac00];
    ComposeNothing([0xac00], tb);
  }

  lemma ComposeNothing(done: seq<int>, tb: Tables)
    ensures ComposeFrom(done, [], tb) == done
  {
  }
}
