/** Full decomposition and the composition of two characters, with the arithmetic of Hangul syllables (section 3.12 of the
    Unicode Standard). */
module UniHangul {
  import opened UniOrder

  /** The compressed tables, as functions: combining class, one step of decomposition (empty without one), primary composite
      (0 without one), and a number that falls with every step of decomposition. */
  datatype Tables = Tables(cc: int -> nat, decomp: int -> seq<int>, pair: (int, int) -> int, size: int -> nat)

  predicate IsLeading(c: int) { 0x1100 <= c < 0x1100 + 19 }

  predicate IsVowel(c: int) { 0x1161 <= c < 0x1161 + 21 }

  /** A trailing consonant as compose_pair takes it: from index 0 on, which the standard leaves out. */
  predicate IsTrailing(c: int) { 0x11a7 <= c < 0x11a7 + 28 }

  const NO_TRAILING := 0x11a7

  predicate IsSyllable(c: int) { 0xac00 <= c < 0xd7a4 }

  /** A syllable without a trailing consonant. */
  predicate IsOpen(c: int) { IsSyllable(c) && (c - 0xac00) % 28 == 0 }

  predicate IsHangul(c: int) { IsLeading(c) || IsVowel(c) || IsTrailing(c) || IsSyllable(c) }

  function Weight(s: seq<int>, size: int -> nat): nat {
    if s == [] then 0 else size(s[0]) + Weight(s[1..], size)
  }

  /** What the tables hold: decomposition ends; Hangul is left to the arithmetic; a composite is a starter when its first part
      is one, and decomposes into its parts. */
  ghost predicate WellFormed(tb: Tables) {
    && (forall c :: tb.size(c) >= 1)
    && (forall c :: tb.cc(c) < 256)
    && (forall c :: tb.decomp(c) != [] ==> Weight(tb.decomp(c), tb.size) < tb.size(c))
    && (forall c :: IsHangul(c) ==> tb.cc(c) == 0 && tb.decomp(c) == [])
    && (forall c :: NO_TRAILING !in tb.decomp(c))
    && (forall a, b :: IsHangul(a) || IsHangul(b) ==> tb.pair(a, b) == 0)
    && (forall a, b :: tb.pair(a, b) != 0 ==> Composite(a, b, tb.pair(a, b), tb))
  }

  predicate Composite(a: int, b: int, p: int, tb: Tables) {
    !IsHangul(p) && tb.decomp(p) == [a, b] && (tb.cc(a) == 0 ==> tb.cc(p) == 0)
  }

  /** The jamo of a syllable. */
  function Jamo(c: int): seq<int>
    requires IsSyllable(c)
  {
    var n := c - 0xac00;
    [0x1100 + n / 588, 0x1161 + n % 588 / 28] + (if n % 28 != 0 then [0x11a7 + n % 28] else [])
  }

  lemma {:induction false} WeightOf(s: seq<int>, size: int -> nat, i: nat)
    requires i < |s|
    ensures size(s[i]) <= Weight(s, size)
    decreases i
  {
    if i > 0 { WeightOf(s[1..], size, i - 1); }
  }

  /** What the tables hold, for one character. */
  lemma TableAt(c: int, tb: Tables)
    requires WellFormed(tb)
    ensures tb.size(c) >= 1 && tb.cc(c) < 256 && NO_TRAILING !in tb.decomp(c)
    ensures tb.decomp(c) != [] ==> Weight(tb.decomp(c), tb.size) < tb.size(c)
    ensures IsHangul(c) ==> tb.cc(c) == 0 && tb.decomp(c) == []
  {
  }

  /** The full decomposition. */
  ghost function Nfd(s: seq<int>, tb: Tables): seq<int>
    requires WellFormed(tb)
    decreases Weight(s, tb.size)
  {
    if s == [] then []
    else
      TableAt(s[0], tb);
      (if IsSyllable(s[0]) then Jamo(s[0]) else if tb.decomp(s[0]) == [] then [s[0]] else Nfd(tb.decomp(s[0]), tb))
      + Nfd(s[1..], tb)
  }

  ghost function Nfd1(c: int, tb: Tables): seq<int>
    requires WellFormed(tb)
  {
    if IsSyllable(c) then Jamo(c) else if tb.decomp(c) == [] then [c] else Nfd(tb.decomp(c), tb)
  }

  lemma NfdStep(s: seq<int>, tb: Tables)
    requires WellFormed(tb) && s != []
    ensures Nfd(s, tb) == Nfd1(s[0], tb) + Nfd(s[1..], tb)
  {
  }

  lemma {:induction false} NfdConcat(s: seq<int>, t: seq<int>, tb: Tables)
    requires WellFormed(tb)
    ensures Nfd(s + t, tb) == Nfd(s, tb) + Nfd(t, tb)
    decreases |s|
  {
    hide WellFormed, Nfd1, Nfd;
    if s == [] {
      NfdNone(tb);
      assert s + t == t;
    } else {
      NfdStep(s, tb);
      NfdStep(s + t, tb);
      assert (s + t)[1..] == s[1..] + t;
      NfdConcat(s[1..], t, tb);
      JoinAssoc(Nfd1(s[0], tb), Nfd(s[1..], tb), Nfd(t, tb));
    }
  }

  lemma NfdNone(tb: Tables)
    requires WellFormed(tb)
    ensures Nfd([], tb) == []
  {
  }

  lemma {:induction false} NfdOne(c: int, tb: Tables)
    requires WellFormed(tb)
    ensures Nfd([c], tb) == Nfd1(c, tb)
  {
    hide WellFormed, Nfd1, Nfd;
    NfdStep([c], tb);
    NfdNone(tb);
    assert [c][1..] == [];
  }

  /** One step of decomposition leaves the full decomposition the same. */
  lemma {:induction false} NfdStepwise(pre: seq<int>, c: int, post: seq<int>, tb: Tables)
    requires WellFormed(tb) && !Plain(c, tb)
    ensures Nfd(pre + [c] + post, tb) == Nfd(pre + (if IsSyllable(c) then Jamo(c) else tb.decomp(c)) + post, tb)
  {
    hide WellFormed, Nfd;
    var step := if IsSyllable(c) then Jamo(c) else tb.decomp(c);
    NfdConcat(pre + [c], post, tb);
    NfdConcat(pre, [c], tb);
    NfdOne(c, tb);
    NfdConcat(pre + step, post, tb);
    NfdConcat(pre, step, tb);
    if IsSyllable(c) {
      JamoPlain(c, tb);
      PlainStays(step, tb);
    }
  }

  lemma JamoPlain(c: int, tb: Tables)
    requires WellFormed(tb) && IsSyllable(c)
    ensures AllPlain(Jamo(c), tb)
  {
    JamoParts(c);
  }

  /** Nothing is left to decompose. */
  predicate Plain(c: int, tb: Tables) { !IsSyllable(c) && tb.decomp(c) == [] }

  predicate AllPlain(s: seq<int>, tb: Tables) { forall i :: 0 <= i < |s| ==> Plain(s[i], tb) }

  lemma {:induction false} NfdPlain(s: seq<int>, tb: Tables)
    requires WellFormed(tb)
    ensures AllPlain(Nfd(s, tb), tb)
    decreases Weight(s, tb.size)
  {
    if s != [] {
      TableAt(s[0], tb);
      NfdPlain(s[1..], tb);
      if IsSyllable(s[0]) {
        JamoParts(s[0]);
      } else if tb.decomp(s[0]) != [] {
        NfdPlain(tb.decomp(s[0]), tb);
      }
    }
  }

  lemma {:induction false} PlainStays(s: seq<int>, tb: Tables)
    requires WellFormed(tb) && AllPlain(s, tb)
    ensures Nfd(s, tb) == s
    decreases |s|
  {
    if s != [] {
      hide WellFormed, Nfd;
      NfdStep(s, tb);
      assert Plain(s[0], tb);
      assert AllPlain(s[1..], tb);
      PlainStays(s[1..], tb);
      assert s == [s[0]] + s[1..];
    } else {
      NfdNone(tb);
    }
  }

  // ---- Hangul ----

  /** The parts of a syllable, and how it is made of them. */
  lemma JamoParts(c: int)
    requires IsSyllable(c)
    ensures var n, j := c - 0xac00, Jamo(c);
            && |j| == (if n % 28 == 0 then 2 else 3) && IsLeading(j[0]) && IsVowel(j[1]) && (n % 28 != 0 ==> IsTrailing(j[2]) && j[2] != NO_TRAILING)
            && c == 0xac00 + (j[0] - 0x1100) * 588 + (j[1] - 0x1161) * 28 + (if n % 28 == 0 then 0 else j[2] - 0x11a7)
  {
  }

  /** compose_pair: the composite, 0 if there is none. */
  function ComposePair(c0: int, c1: int, tb: Tables): int {
    if IsLeading(c0) && IsVowel(c1) then 0xac00 + (c0 - 0x1100) * 588 + (c1 - 0x1161) * 28
    else if IsOpen(c0) && IsTrailing(c1) then c0 + c1 - 0x11a7
    else tb.pair(c0, c1)
  }

  /** Composing the jamo of a syllable gives it back. */
  lemma {:induction false} SyllableBack(c: int, tb: Tables)
    requires IsSyllable(c)
    ensures var j := Jamo(c);
            var open := ComposePair(j[0], j[1], tb);
            IsOpen(open) && (if |j| == 2 then c == open else c == ComposePair(open, j[2], tb))
  {
    JamoParts(c);
  }

  /** What Hangul composition takes apart again: everything but the trailing consonant that is none, which is lost. */
  lemma {:induction false} PairsBack(c0: int, c1: int, tb: Tables)
    requires WellFormed(tb) && ComposePair(c0, c1, tb) != 0 && Plain(c1, tb)
    ensures var p := ComposePair(c0, c1, tb);
            && (c1 == NO_TRAILING ==> IsOpen(c0) && p == c0)
            && (c1 != NO_TRAILING ==> Nfd1(p, tb) == Nfd1(c0, tb) + [c1])
  {
    if IsLeading(c0) && IsVowel(c1) {
      LeadingVowel(c0, c1, tb);
    } else if IsOpen(c0) && IsTrailing(c1) {
      OpenTrailing(c0, c1);
    } else {
      hide Nfd1;
      assert Composite(c0, c1, tb.pair(c0, c1), tb);
      PairNfd(c0, c1, tb.pair(c0, c1), tb);
    }
  }

  lemma LeadingVowel(c0: int, c1: int, tb: Tables)
    requires WellFormed(tb) && IsLeading(c0) && IsVowel(c1)
    ensures var p := ComposePair(c0, c1, tb); IsOpen(p) && Jamo(p) == [c0, c1] && Nfd1(c0, tb) == [c0]
  {
    var n := (c0 - 0x1100) * 588 + (c1 - 0x1161) * 28;
    assert n / 588 == c0 - 0x1100 && n % 588 == (c1 - 0x1161) * 28;
    assert n == 28 * ((c0 - 0x1100) * 21 + (c1 - 0x1161));
    assert n % 28 == 0;
  }

  lemma OpenTrailing(c0: int, c1: int)
    requires IsOpen(c0) && IsTrailing(c1)
    ensures var p := c0 + c1 - 0x11a7; IsSyllable(p) && (c1 != NO_TRAILING ==> Jamo(p) == Jamo(c0) + [c1])
  {
    var n, t := c0 - 0xac00, c1 - 0x11a7;
    assert (n + t) % 28 == t;
    assert (n + t) / 588 == n / 588 && (n + t) % 588 / 28 == n % 588 / 28;
  }

  lemma {:induction false} PairNfd(a: int, b: int, p: int, tb: Tables)
    requires WellFormed(tb) && Composite(a, b, p, tb) && Plain(b, tb)
    ensures Nfd1(p, tb) == Nfd1(a, tb) + [b]
  {
    NfdConcat([a], [b], tb);
    NfdOne(a, tb);
    NfdOne(b, tb);
    hide Nfd;
    assert [a] + [b] == [a, b];
  }
}
