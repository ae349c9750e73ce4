/** The canonical order of combining marks: exchanging neighbours (section 3.11 of the Unicode Standard), and the
    insertion sort of sort_cc. `cc` gives the combining class of a character, 0 for a starter. */
module UniOrder {
  function Part(c: int, cc: int -> nat, k: nat): seq<int> { if cc(c) == 0 || cc(c) == k then [c] else [] }

  /** The characters of class `k` and the starters, in their order. */
  function Only(s: seq<int>, cc: int -> nat, k: nat): (r: seq<int>)
    ensures |r| <= |s|
  {
    if s == [] then [] else Part(s[0], cc, k) + Only(s[1..], cc, k)
  }

  /** The same characters; those of one class in the same order, and none has crossed a starter. */
  ghost predicate Equivalent(s: seq<int>, r: seq<int>, cc: int -> nat) {
    forall k: nat :: Only(s, cc, k) == Only(r, cc, k)
  }

  /** Two neighbours that the canonical order exchanges. */
  predicate Reorderable(a: int, b: int, cc: int -> nat) { cc(a) > cc(b) > 0 }

  predicate Ordered(s: seq<int>, cc: int -> nat) {
    forall i :: 0 <= i < |s| - 1 ==> !Reorderable(s[i], s[i + 1], cc)
  }

  function Exchange(s: seq<int>, i: nat): (r: seq<int>)
    requires i + 1 < |s|
    ensures |r| == |s|
  {
    s[..i] + [s[i + 1], s[i]] + s[i + 2..]
  }

  /** `r` comes from `s` by exchanging reorderable pairs, at these places one after the other. */
  ghost predicate Exchanged(s: seq<int>, places: seq<nat>, r: seq<int>, cc: int -> nat)
    decreases |places|
  {
    if places == [] then r == s
    else
      var i := places[0];
      i + 1 < |s| && Reorderable(s[i], s[i + 1], cc) && Exchanged(Exchange(s, i), places[1..], r, cc)
  }

  // ---- what exchanging keeps ----

  lemma {:induction false} OnlyConcat(s: seq<int>, t: seq<int>, cc: int -> nat, k: nat)
    ensures Only(s + t, cc, k) == Only(s, cc, k) + Only(t, cc, k)
    decreases |s|
  {
    if s == [] {
      assert s + t == t;
    } else {
      assert (s + t)[1..] == s[1..] + t;
      OnlyConcat(s[1..], t, cc, k);
      JoinAssoc(Part(s[0], cc, k), Only(s[1..], cc, k), Only(t, cc, k));
    }
  }

  lemma JoinAssoc(a: seq<int>, b: seq<int>, c: seq<int>)
    ensures (a + b) + c == a + (b + c)
  {
  }

  lemma {:induction false} EquivalentConcat(s: seq<int>, r: seq<int>, t: seq<int>, u: seq<int>, cc: int -> nat)
    requires Equivalent(s, r, cc) && Equivalent(t, u, cc)
    ensures Equivalent(s + t, r + u, cc)
  {
    hide Only;
    forall k: nat ensures Only(s + t, cc, k) == Only(r + u, cc, k) {
      OnlyConcat(s, t, cc, k);
      OnlyConcat(r, u, cc, k);
    }
  }

  lemma {:induction false} OnlyPair(a: int, b: int, cc: int -> nat, k: nat)
    ensures Only([a], cc, k) == if cc(a) == 0 || cc(a) == k then [a] else []
    ensures Only([a, b], cc, k) == Only([a], cc, k) + Only([b], cc, k)
  {
    OnlyConcat([a], [b], cc, k);
    assert [a] + [b] == [a, b];
  }

  /** Two characters of different classes, neither a starter, can stand either way round. */
  lemma {:induction false} PairSwaps(a: int, b: int, cc: int -> nat)
    requires cc(a) != cc(b) && cc(a) > 0 && cc(b) > 0
    ensures Equivalent([a, b], [b, a], cc)
  {
    forall k: nat ensures Only([a, b], cc, k) == Only([b, a], cc, k) {
      OnlyPair(a, b, cc, k);
      OnlyPair(b, a, cc, k);
    }
  }

  lemma {:induction false} ExchangeKeeps(s: seq<int>, i: nat, cc: int -> nat)
    requires i + 1 < |s| && Reorderable(s[i], s[i + 1], cc)
    ensures Equivalent(s, Exchange(s, i), cc)
  {
    hide Only, Equivalent;
    var a, b := s[i], s[i + 1];
    PairSwaps(a, b, cc);
    Reflexive(s[..i], cc);
    Reflexive(s[i + 2..], cc);
    EquivalentConcat(s[..i], s[..i], [a, b], [b, a], cc);
    EquivalentConcat(s[..i] + [a, b], s[..i] + [b, a], s[i + 2..], s[i + 2..], cc);
    assert s == s[..i] + [a, b] + s[i + 2..];
  }

  lemma {:induction false} Reflexive(s: seq<int>, cc: int -> nat)
    ensures Equivalent(s, s, cc)
  {
  }

  lemma {:induction false} Transitive(s: seq<int>, r: seq<int>, t: seq<int>, cc: int -> nat)
    requires Equivalent(s, r, cc) && Equivalent(r, t, cc)
    ensures Equivalent(s, t, cc)
  {
    hide Only;
  }

  lemma {:induction false} Symmetric(s: seq<int>, r: seq<int>, cc: int -> nat)
    requires Equivalent(s, r, cc)
    ensures Equivalent(r, s, cc)
  {
    hide Only;
  }

  lemma {:induction false} ExchangedEquivalent(s: seq<int>, places: seq<nat>, r: seq<int>, cc: int -> nat)
    requires Exchanged(s, places, r, cc)
    ensures Equivalent(s, r, cc)
    decreases |places|
  {
    hide Only, Equivalent;
    if places == [] {
      Reflexive(s, cc);
    } else {
      ExchangeKeeps(s, places[0], cc);
      ExchangedEquivalent(Exchange(s, places[0]), places[1..], r, cc);
      Transitive(s, Exchange(s, places[0]), r, cc);
    }
  }

  lemma {:induction false} ExchangedMore(s: seq<int>, places: seq<nat>, r: seq<int>, i: nat, cc: int -> nat)
    requires Exchanged(s, places, r, cc) && i + 1 < |r| && Reorderable(r[i], r[i + 1], cc)
    ensures Exchanged(s, places + [i], Exchange(r, i), cc)
    decreases |places|
  {
    if places == [] {
      assert places + [i] == [i] && [i][1..] == [];
    } else {
      ExchangedMore(Exchange(s, places[0]), places[1..], r, i, cc);
      assert (places + [i])[1..] == places[1..] + [i];
    }
  }

  // ---- the canonical order is unique ----

  /** The first character of the class, or a starter, found in an ordered text. */
  lemma {:induction false} FirstOf(s: seq<int>, cc: int -> nat, k: nat)
    requires Only(s, cc, k) != []
    ensures exists p :: 0 <= p < |s| && s[p] == Only(s, cc, k)[0] && forall i :: 0 <= i < p ==> cc(s[i]) != 0 && cc(s[i]) != k
    decreases |s|
  {
    if cc(s[0]) == 0 || cc(s[0]) == k {
      assert s[0] == Only(s, cc, k)[0];
    } else {
      FirstOf(s[1..], cc, k);
      var p :| 0 <= p < |s[1..]| && s[1..][p] == Only(s[1..], cc, k)[0] && forall i :: 0 <= i < p ==> cc(s[1..][i]) != 0 && cc(s[1..][i]) != k;
      assert s[p + 1] == Only(s, cc, k)[0];
      forall i | 0 <= i < p + 1 ensures cc(s[i]) != 0 && cc(s[i]) != k { if i > 0 { assert s[i] == s[1..][i - 1]; } }
    }
  }

  /** Classes do not fall before the first starter. */
  lemma {:induction false} Rising(s: seq<int>, cc: int -> nat, p: nat)
    requires Ordered(s, cc) && p < |s| && forall i :: 0 <= i <= p ==> cc(s[i]) != 0
    ensures cc(s[0]) <= cc(s[p])
    decreases p
  {
    if p > 0 {
      Rising(s, cc, p - 1);
      assert !Reorderable(s[p - 1], s[p], cc);
    }
  }

  /** The first character of an ordered text has no larger class than the first of any class in an equivalent one. */
  lemma {:induction false} FirstSmallest(s: seq<int>, x: int, cc: int -> nat)
    requires Ordered(s, cc) && s != [] && cc(x) > 0 && cc(s[0]) > 0 && Only(s, cc, cc(x)) != [] && Only(s, cc, cc(x))[0] == x
    ensures cc(s[0]) <= cc(x)
  {
    FirstOf(s, cc, cc(x));
    var p :| 0 <= p < |s| && s[p] == Only(s, cc, cc(x))[0] && forall i :: 0 <= i < p ==> cc(s[i]) != 0 && cc(s[i]) != cc(x);
    Rising(s, cc, p);
  }

  lemma {:induction false} SameFirst(s: seq<int>, r: seq<int>, cc: int -> nat)
    requires Equivalent(s, r, cc) && Ordered(s, cc) && Ordered(r, cc) && s != [] && r != []
    ensures s[0] == r[0]
  {
    var x, y := s[0], r[0];
    OnlyFirst(s, cc);
    OnlyFirst(r, cc);
    hide Only;
    assert Only(s, cc, cc(x)) == Only(r, cc, cc(x)) && Only(s, cc, cc(y)) == Only(r, cc, cc(y));
    if cc(x) > 0 && cc(y) > 0 {
      FirstSmallest(r, x, cc);
      FirstSmallest(s, y, cc);
    }
  }

  lemma {:induction false} OnlyFirst(s: seq<int>, cc: int -> nat)
    requires s != []
    ensures forall k: nat :: cc(s[0]) == 0 || k == cc(s[0]) ==> Only(s, cc, k) != [] && Only(s, cc, k)[0] == s[0]
  {
  }

  lemma {:induction false} NotEmpty(s: seq<int>, r: seq<int>, cc: int -> nat)
    requires s == [] && r != []
    ensures !Equivalent(s, r, cc) && !Equivalent(r, s, cc)
  {
    OnlyFirst(r, cc);
    assert Only(s, cc, cc(r[0])) != Only(r, cc, cc(r[0]));
  }

  /** Equivalent texts in canonical order are equal. */
  lemma {:induction false} OrderUnique(s: seq<int>, r: seq<int>, cc: int -> nat)
    requires Equivalent(s, r, cc) && Ordered(s, cc) && Ordered(r, cc)
    ensures s == r
    decreases |s|
  {
    if s == [] {
      if r != [] { NotEmpty(s, r, cc); }
    } else if r == [] {
      NotEmpty(r, s, cc);
    } else {
      SameFirst(s, r, cc);
      TailsEquivalent(s, r, cc);
      TailOrdered(s, cc);
      TailOrdered(r, cc);
      OrderUnique(s[1..], r[1..], cc);
      assert s == [s[0]] + s[1..] && r == [r[0]] + r[1..];
    }
  }

  lemma {:induction false} TailOrdered(s: seq<int>, cc: int -> nat)
    requires s != [] && Ordered(s, cc)
    ensures Ordered(s[1..], cc)
  {
    forall i | 0 <= i < |s[1..]| - 1 ensures !Reorderable(s[1..][i], s[1..][i + 1], cc) {
      assert !Reorderable(s[i + 1], s[i + 2], cc);
    }
  }

  lemma {:induction false} TailsEquivalent(s: seq<int>, r: seq<int>, cc: int -> nat)
    requires Equivalent(s, r, cc) && s != [] && r != [] && s[0] == r[0]
    ensures Equivalent(s[1..], r[1..], cc)
  {
    forall k: nat ensures Only(s[1..], cc, k) == Only(r[1..], cc, k) {
      assert Only(s, cc, k) == Only(r, cc, k);
      assert Only(s[1..], cc, k) == Only(s, cc, k)[(if cc(s[0]) == 0 || cc(s[0]) == k then 1 else 0)..];
      assert Only(r[1..], cc, k) == Only(r, cc, k)[(if cc(r[0]) == 0 || cc(r[0]) == k then 1 else 0)..];
    }
  }

  // ---- the canonical order as a function ----

  /** `c` in front of an ordered text, behind those it has to let pass. */
  function Put(c: int, s: seq<int>, cc: int -> nat): (r: seq<int>)
    ensures |r| == |s| + 1 && (r[0] == c || (s != [] && r[0] == s[0]))
  {
    if s == [] || !Reorderable(c, s[0], cc) then [c] + s else [s[0]] + Put(c, s[1..], cc)
  }

  function Order(s: seq<int>, cc: int -> nat): (r: seq<int>)
    ensures |r| == |s|
  {
    if s == [] then [] else Put(s[0], Order(s[1..], cc), cc)
  }

  lemma {:induction false} PutOrdered(c: int, s: seq<int>, cc: int -> nat)
    requires Ordered(s, cc)
    ensures Ordered(Put(c, s, cc), cc)
    decreases |s|
  {
    var r := Put(c, s, cc);
    if s == [] || !Reorderable(c, s[0], cc) {
      forall i | 0 <= i < |r| - 1 ensures !Reorderable(r[i], r[i + 1], cc) {
        if i > 0 { assert !Reorderable(s[i - 1], s[i], cc); }
      }
    } else {
      TailOrdered(s, cc);
      PutOrdered(c, s[1..], cc);
      var t := Put(c, s[1..], cc);
      if |s| > 1 { assert !Reorderable(s[0], s[1], cc); }
      forall i | 0 <= i < |r| - 1 ensures !Reorderable(r[i], r[i + 1], cc) {
        if i > 0 { assert !Reorderable(t[i - 1], t[i], cc); }
      }
    }
  }

  lemma {:induction false} PutKeeps(c: int, s: seq<int>, cc: int -> nat)
    ensures Equivalent([c] + s, Put(c, s, cc), cc)
    decreases |s|
  {
    hide Only, Equivalent;
    if s == [] || !Reorderable(c, s[0], cc) {
      Reflexive([c] + s, cc);
    } else {
      var x, t := s[0], s[1..];
      PairSwaps(c, x, cc);
      Reflexive(t, cc);
      EquivalentConcat([c, x], [x, c], t, t, cc);
      PutKeeps(c, t, cc);
      Reflexive([x], cc);
      EquivalentConcat([x], [x], [c] + t, Put(c, t, cc), cc);
      assert [c] + s == [c, x] + t && [x, c] + t == [x] + ([c] + t);
      Transitive([c] + s, [x, c] + t, Put(c, s, cc), cc);
    }
  }

  lemma {:induction false} OrderIs(s: seq<int>, cc: int -> nat)
    ensures Ordered(Order(s, cc), cc) && Equivalent(s, Order(s, cc), cc)
    decreases |s|
  {
    hide Only, Equivalent;
    if s == [] {
      Reflexive(s, cc);
    } else {
      var t := Order(s[1..], cc);
      OrderIs(s[1..], cc);
      PutOrdered(s[0], t, cc);
      PutKeeps(s[0], t, cc);
      Reflexive([s[0]], cc);
      EquivalentConcat([s[0]], [s[0]], s[1..], t, cc);
      assert s == [s[0]] + s[1..];
      Transitive(s, [s[0]] + t, Put(s[0], t, cc), cc);
    }
  }

  /** Texts are equivalent exactly when their canonical orders are the same. */
  lemma {:induction false} SameOrder(s: seq<int>, r: seq<int>, cc: int -> nat)
    ensures Equivalent(s, r, cc) <==> Order(s, cc) == Order(r, cc)
  {
    hide Only, Equivalent, Order;
    OrderIs(s, cc);
    OrderIs(r, cc);
    Symmetric(s, Order(s, cc), cc);
    Symmetric(r, Order(r, cc), cc);
    if Equivalent(s, r, cc) {
      Transitive(Order(s, cc), s, r, cc);
      Transitive(Order(s, cc), r, Order(r, cc), cc);
      OrderUnique(Order(s, cc), Order(r, cc), cc);
    }
    if Order(s, cc) == Order(r, cc) {
      Transitive(s, Order(s, cc), r, cc);
    }
  }

  // ---- sort_cc ----

  /** Between `start` and `j` stand no starters, and the classes rise. */
  ghost predicate Run(s: seq<int>, start: nat, j: nat, cc: int -> nat) {
    && start <= j <= |s|
    && (forall x :: start <= x < j ==> cc(s[x]) > 0)
    && forall x, y :: start <= x < y < j ==> cc(s[x]) <= cc(s[y])
  }

  /** The character at `j` moved down to `p`. */
  function Moved(s: seq<int>, p: nat, j: nat): (r: seq<int>)
    requires p <= j < |s|
    ensures |r| == |s|
  {
    s[..p] + [s[j]] + s[p..j] + s[j + 1..]
  }

  lemma MovedAt(s: seq<int>, p: nat, j: nat)
    requires p <= j < |s|
    ensures forall x :: 0 <= x < |s| ==> Moved(s, p, j)[x] == if x < p || x > j then s[x] else if x == p then s[j] else s[x - 1]
  {
    forall x | 0 <= x < |s| ensures Moved(s, p, j)[x] == if x < p || x > j then s[x] else if x == p then s[j] else s[x - 1] {
      var front := s[..p] + [s[j]];
      var most := front + s[p..j];
      assert Moved(s, p, j) == most + s[j + 1..];
      if x <= p {
        assert most[x] == front[x];
      } else if x <= j {
        assert most[x] == s[p..j][x - (p + 1)];
      } else {
        assert (most + s[j + 1..])[x] == s[j + 1..][x - (j + 1)];
      }
    }
  }

  lemma MovedOne(s: seq<int>, p: nat, j: nat)
    requires 0 < p <= j < |s|
    ensures Moved(s, p - 1, j) == Exchange(Moved(s, p, j), p - 1)
    ensures Moved(s, p, j)[p - 1] == s[p - 1] && Moved(s, p, j)[p] == s[j]
    ensures Moved(s, j, j) == s
  {
  }

  /** The innermost loop: the character at `j` moves down behind the last one whose class is not larger. */
  method Insert(buf: array<int>, len: nat, start: nat, j: nat, cc: int -> nat, ghost s0: seq<int>, ghost places0: seq<nat>)
    returns (ghost places: seq<nat>)
    requires start < j < len <= buf.Length && Run(buf[..len], start, j, cc) && cc(buf[j]) > 0
    requires Exchanged(s0, places0, buf[..len], cc)
    modifies buf
    ensures forall x :: 0 <= x < buf.Length && !(start <= x <= j) ==> buf[x] == old(buf[x])
    ensures Run(buf[..len], start, j + 1, cc) && Exchanged(s0, places, buf[..len], cc)
  {
    hide Exchanged, Moved, Run, Sliding;
    ghost var was := buf[..len];
    RunParts(was, start, j, cc);
    SlideStart(was, j);
    var ch1 := buf[j];
    var cc1 := cc(ch1);
    var k: int := j - 1;
    places := places0;
    MovedOne(was, j, j);
    while k >= start
      invariant start - 1 <= k < j
      invariant forall x :: 0 <= x < buf.Length && !(start <= x <= j) ==> buf[x] == old(buf[x])
      invariant Sliding(buf[..len], was, k + 1, j) && forall x :: k + 1 <= x < j ==> cc(was[x]) > cc1
      invariant Exchanged(s0, places, Moved(was, k + 1, j), cc)
    {
      ghost var now := buf[..len];
      SlideDown(now, was, k + 1, j);
      if cc(buf[k]) <= cc1 {
        break;
      }
      MovedOne(was, k + 1, j);
      ExchangedMore(s0, places, Moved(was, k + 1, j), k, cc);
      places := places + [k];
      buf[k + 1] := buf[k];
      assert buf[..len] == now[k + 1 := now[k]];
      k := k - 1;
    }
    ghost var now := buf[..len];
    SlideEnd(now, was, k + 1, j);
    buf[k + 1] := ch1;
    assert buf[..len] == now[k + 1 := ch1];
    RunGrows(was, start, k + 1, j, cc);
  }

  /** The characters from `p` on stand one place up, and the place `p` is to be filled. */
  ghost predicate Sliding(s: seq<int>, was: seq<int>, p: nat, j: nat) {
    && p <= j < |was| && |s| == |was|
    && (forall x :: 0 <= x < |s| && !(p < x <= j) ==> s[x] == was[x])
    && forall x :: p <= x < j ==> s[x + 1] == was[x]
  }

  lemma SlideStart(was: seq<int>, j: nat)
    requires j < |was|
    ensures Sliding(was, was, j, j)
  {
  }

  lemma SlideDown(s: seq<int>, was: seq<int>, p: nat, j: nat)
    requires Sliding(s, was, p, j) && p > 0
    ensures p < |s| && s[p - 1] == was[p - 1] && Sliding(s[p := s[p - 1]], was, p - 1, j)
  {
  }

  lemma SlideEnd(s: seq<int>, was: seq<int>, p: nat, j: nat)
    requires Sliding(s, was, p, j)
    ensures p < |s| && s[p := was[j]] == Moved(was, p, j) && (p > 0 ==> s[p - 1] == was[p - 1])
  {
  }

  lemma RunParts(s: seq<int>, start: nat, j: nat, cc: int -> nat)
    requires Run(s, start, j, cc)
    ensures start <= j <= |s| && forall x :: start <= x < j ==> cc(s[x]) > 0
  {
  }

  lemma {:induction false} RunGrows(s: seq<int>, start: nat, p: nat, j: nat, cc: int -> nat)
    requires j < |s| && Run(s, start, j, cc) && start <= p <= j && cc(s[j]) > 0
    requires p > start ==> cc(s[p - 1]) <= cc(s[j])
    requires forall x :: p <= x < j ==> cc(s[x]) > cc(s[j])
    ensures Run(Moved(s, p, j), start, j + 1, cc)
  {
    hide Moved;
    MovedAt(s, p, j);
    var r := Moved(s, p, j);
    forall x | start <= x < j + 1 ensures cc(r[x]) > 0 {
      assert r[x] == if x < p then s[x] else if x == p then s[j] else s[x - 1];
    }
    forall x, y | start <= x < y < j + 1 ensures cc(r[x]) <= cc(r[y]) {
      assert r[x] == if x < p then s[x] else if x == p then s[j] else s[x - 1];
      assert r[y] == if y < p then s[y] else if y == p then s[j] else s[y - 1];
      if x < p && y == p { assert cc(s[x]) <= cc(s[p - 1]); }
    }
  }

  /** The prefix up to `i` is in canonical order. */
  ghost predicate OrderedTo(s: seq<int>, i: nat, cc: int -> nat) {
    forall x :: 0 <= x < |s| - 1 && x + 1 < i ==> !Reorderable(s[x], s[x + 1], cc)
  }

  /** One run: from the character after `start` to the next starter or the end. */
  method SortRun(buf: array<int>, len: nat, start: nat, cc: int -> nat, ghost s0: seq<int>, ghost places0: seq<nat>)
    returns (j: nat, ghost places: seq<nat>)
    requires start < len <= buf.Length && cc(buf[start]) > 0 && Exchanged(s0, places0, buf[..len], cc)
    modifies buf
    ensures start < j <= len && (j < len ==> cc(buf[j]) == 0)
    ensures forall x :: 0 <= x < buf.Length && !(start <= x < j) ==> buf[x] == old(buf[x])
    ensures forall x :: start <= x < j ==> cc(old(buf[x])) > 0
    ensures Run(buf[..len], start, j, cc) && Exchanged(s0, places, buf[..len], cc)
  {
    places := places0;
    j := start + 1;
    while j < len
      invariant start < j <= len
      invariant forall x :: 0 <= x < buf.Length && !(start <= x < j) ==> buf[x] == old(buf[x])
      invariant forall x :: start <= x < j ==> cc(old(buf[x])) > 0
      invariant Run(buf[..len], start, j, cc) && Exchanged(s0, places, buf[..len], cc)
    {
      if cc(buf[j]) == 0 {
        break;
      }
      places := Insert(buf, len, start, j, cc, s0, places);
      j := j + 1;
    }
  }

  /** sort_cc: the text comes into canonical order by exchanges of neighbours, and every starter stays where it is. */
  method SortCc(buf: array<int>, len: nat, cc: int -> nat) returns (ghost places: seq<nat>)
    requires len <= buf.Length
    modifies buf
    ensures buf[len..] == old(buf[len..])
    ensures buf[..len] == Order(old(buf[..len]), cc) && Exchanged(old(buf[..len]), places, buf[..len], cc)
    ensures forall i :: 0 <= i < len && cc(old(buf[i])) == 0 ==> buf[i] == old(buf[i])
  {
    hide Exchanged, Ordered, Run, OrderedTo, Order;
    ghost var s0 := buf[..len];
    places := [];
    NothingYet(s0, cc);
    var i := 0;
    while i < len
      invariant 0 <= i <= len + 1 && (0 < i <= len ==> cc(buf[i - 1]) == 0)
      invariant forall x :: i <= x < buf.Length || len <= x < buf.Length ==> buf[x] == old(buf[x])
      invariant forall x :: 0 <= x < len && cc(old(buf[x])) == 0 ==> buf[x] == old(buf[x])
      invariant OrderedTo(buf[..len], i, cc) && Exchanged(s0, places, buf[..len], cc)
    {
      ghost var was := buf[..len];
      if cc(buf[i]) != 0 {
        var j;
        j, places := SortRun(buf, len, i, cc, s0, places);
        RunOrdered(was, buf[..len], i, j, cc);
        i := j;
      } else {
        StarterOrdered(was, i, cc);
      }
      i := i + 1;
    }
    AllOrdered(buf[..len], i, cc);
    SortedIsOrder(s0, places, buf[..len], cc);
  }

  lemma {:induction false} SortedIsOrder(s: seq<int>, places: seq<nat>, r: seq<int>, cc: int -> nat)
    requires Exchanged(s, places, r, cc) && Ordered(r, cc)
    ensures r == Order(s, cc)
  {
    hide Exchanged, Ordered, Equivalent, Order;
    ExchangedEquivalent(s, places, r, cc);
    Symmetric(s, r, cc);
    OrderIs(s, cc);
    Transitive(r, s, Order(s, cc), cc);
    OrderUnique(r, Order(s, cc), cc);
  }

  lemma NothingYet(s: seq<int>, cc: int -> nat)
    ensures Exchanged(s, [], s, cc) && OrderedTo(s, 0, cc)
  {
  }

  lemma StarterOrdered(s: seq<int>, i: nat, cc: int -> nat)
    requires OrderedTo(s, i, cc) && i < |s| && cc(s[i]) == 0
    ensures OrderedTo(s, i + 1, cc)
  {
  }

  lemma AllOrdered(s: seq<int>, i: nat, cc: int -> nat)
    requires OrderedTo(s, i, cc) && i >= |s|
    ensures Ordered(s, cc)
  {
  }

  lemma {:induction false} RunOrdered(was: seq<int>, s: seq<int>, start: nat, j: nat, cc: int -> nat)
    requires |was| == |s| && OrderedTo(was, start, cc) && Run(s, start, j, cc) && start < j && (start > 0 ==> cc(was[start - 1]) == 0)
    requires forall x :: 0 <= x < start ==> s[x] == was[x]
    requires j < |s| ==> cc(s[j]) == 0
    ensures OrderedTo(s, j + 1, cc)
  {
    forall x | 0 <= x < |s| - 1 && x + 1 < j + 1 ensures !Reorderable(s[x], s[x + 1], cc) {
      if x + 1 < start { assert !Reorderable(was[x], was[x + 1], cc); }
    }
  }

  /** Wherever exchanging neighbours comes to an end, it is with the canonical order. */
  lemma {:induction false} CanonicalOrder(s: seq<int>, places: seq<nat>, r: seq<int>, cc: int -> nat)
    requires Exchanged(s, places, r, cc)
    ensures Ordered(r, cc) <==> r == Order(s, cc)
  {
    hide Exchanged, Ordered, Order;
    OrderIs(s, cc);
    if Ordered(r, cc) { SortedIsOrder(s, places, r, cc); }
  }
}
