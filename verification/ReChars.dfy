/** What the reading of the subject means: the characters of a stretch, and the positions that assertions look at. */
module ReChars {
  import opened ReInput

  // ---- characters ----

  /** The characters of the units from `i` to `e`. */
  function Chars(c: Ctx, i: nat, e: nat): seq<int>
    requires i <= e <= |c.units|
    decreases e - i
  {
    if i == e then [] else [GetChar(c, i, e).0] + Chars(c, GetChar(c, i, e).1, e)
  }

  /** UTF-16 of a character (section 2.1 of RFC 2781). */
  function Utf16(ch: int): seq<int> {
    if ch < 0x1_0000 then [ch] else [0xd800 + (ch - 0x1_0000) / 0x400, 0xdc00 + (ch - 0x1_0000) % 0x400]
  }

  function AllUtf16(s: seq<int>): seq<int> { if s == [] then [] else Utf16(s[0]) + AllUtf16(s[1..]) }

  /** Without the UTF-16 mode the characters are the units; with it their UTF-16 form is the units, and no pair is left apart. */
  lemma {:induction false} CharsAre(c: Ctx, i: nat, e: nat)
    requires ValidCtx(c) && i <= e <= |c.units|
    ensures !c.wide ==> Chars(c, i, e) == c.units[i..e]
    ensures c.wide ==> AllUtf16(Chars(c, i, e)) == c.units[i..e]
    ensures c.wide ==> forall k :: 0 <= k < |Chars(c, i, e)| - 1 ==>
                         !(IsHiSurrogate(Chars(c, i, e)[k]) && IsLoSurrogate(Chars(c, i, e)[k + 1]))
    decreases e - i
  {
    if i < e {
      var (ch, j) := GetChar(c, i, e);
      CharsAre(c, j, e);
      var s := Chars(c, j, e);
      assert Chars(c, i, e) == [ch] + s && ([ch] + s)[1..] == s;
      assert c.units[i..e] == c.units[i..j] + c.units[j..e];
      if c.wide {
        PairUnits(c, i, e);
        if s != [] && IsHiSurrogate(ch) {
          assert s[0] == GetChar(c, j, e).0;
        }
      }
    }
  }

  lemma PairUnits(c: Ctx, i: nat, e: nat)
    requires ValidCtx(c) && i < e <= |c.units| && c.wide
    ensures Utf16(GetChar(c, i, e).0) == c.units[i..GetChar(c, i, e).1]
    ensures var (ch, j) := GetChar(c, i, e); IsHiSurrogate(ch) ==> j == i + 1 && (j < e ==> !IsLoSurrogate(c.units[j]))
    ensures IsLoSurrogate(GetChar(c, i, e).0) ==> IsLoSurrogate(c.units[i])
  {
  }

  // ---- back references ----

  /** The same characters, up to case when case is ignored. */
  predicate SameChars(c: Ctx, s: seq<int>, t: seq<int>) {
    |s| == |t| && forall k :: 0 <= k < |s| ==> Canon(c, s[k]) == Canon(c, t[k])
  }

  /** The characters from `i` to `e` stand from `lo` to `hi` again. */
  predicate Repeats(c: Ctx, i: nat, e: nat, lo: nat, hi: nat)
    requires i <= e <= |c.units| && lo <= hi <= |c.units|
  {
    SameChars(c, Chars(c, i, e), Chars(c, lo, hi))
  }

  /** The end of such a repetition that starts, or with `back` ends, at `p`; it splits no pair. */
  predicate RepeatsTo(c: Ctx, i: nat, e: nat, back: bool, p: nat, r: nat)
    requires i <= e <= |c.units| && p <= |c.units|
  {
    && r <= |c.units| && (r == p || !MidPair(c, r))
    && if back then r <= p && Repeats(c, i, e, r, p) else p <= r && Repeats(c, i, e, p, r)
  }

  lemma ConsSame(c: Ctx, x: int, s: seq<int>, y: int, t: seq<int>)
    ensures SameChars(c, [x] + s, [y] + t) <==> Canon(c, x) == Canon(c, y) && SameChars(c, s, t)
  {
    var u, v := [x] + s, [y] + t;
    if SameChars(c, u, v) {
      assert u[0] == x && v[0] == y;
      forall k | 0 <= k < |s| ensures Canon(c, s[k]) == Canon(c, t[k]) { assert u[k + 1] == s[k] && v[k + 1] == t[k]; }
    }
  }

  lemma SnocSame(c: Ctx, x: int, s: seq<int>, y: int, t: seq<int>)
    ensures SameChars(c, s + [x], t + [y]) <==> Canon(c, x) == Canon(c, y) && SameChars(c, s, t)
  {
    var u, v := s + [x], t + [y];
    if SameChars(c, u, v) {
      assert u[|s|] == x && v[|t|] == y;
      forall k | 0 <= k < |s| ensures Canon(c, s[k]) == Canon(c, t[k]) { assert u[k] == s[k] && v[k] == t[k]; }
    }
  }

  /** The last character, read backward. */
  lemma {:induction false} CharsSnoc(c: Ctx, i: nat, e: nat)
    requires i < e <= |c.units|
    ensures Chars(c, i, e) == Chars(c, i, GetPrevChar(c, e, i).1) + [GetPrevChar(c, e, i).0]
    decreases e - i
  {
    var (ch, j) := GetChar(c, i, e);
    var (last, f) := GetPrevChar(c, e, i);
    if j < e {
      CharsSnoc(c, j, e);
      SameLast(c, i, e);
      assert Chars(c, i, e) == [ch] + (Chars(c, j, f) + [last]);
      assert Chars(c, i, f) == [ch] + Chars(c, j, f);
    } else {
      assert Chars(c, j, e) == [] && Chars(c, i, i) == [];
    }
  }

  lemma SameLast(c: Ctx, i: nat, e: nat)
    requires i < e <= |c.units| && GetChar(c, i, e).1 < e
    ensures var j := GetChar(c, i, e).1;
            && GetPrevChar(c, e, j) == GetPrevChar(c, e, i) && j <= GetPrevChar(c, e, i).1
            && (i < GetPrevChar(c, e, i).1 ==> GetChar(c, i, GetPrevChar(c, e, i).1) == GetChar(c, i, e))
  {
  }

  /** The loop over a back reference finds the end of the repetition, if there is one. */
  lemma {:induction false} ForwardIff(c: Ctx, i: nat, e: nat, p: nat, r: nat)
    requires i <= e <= |c.units| && p <= |c.units|
    ensures BackRefForward(c, i, e, p) == r <==> RepeatsTo(c, i, e, false, p, r)
    decreases e - i
  {
    if i == e {
      assert Chars(c, i, e) == [];
      if p < r <= |c.units| { assert |Chars(c, p, r)| > 0; }
      if r == p { assert Chars(c, p, r) == []; }
    } else {
      assert |Chars(c, i, e)| > 0;
      if p < |c.units| {
        var (c1, i') := GetChar(c, i, e);
        var (c2, p') := GetChar(c, p, |c.units|);
        ForwardIff(c, i', e, p', r);
        if r == p {
          assert Chars(c, p, r) == [];
        } else if p < r <= |c.units| && !MidPair(c, r) {
          assert GetChar(c, p, r) == (c2, p');
          ConsSame(c, c1, Chars(c, i', e), c2, Chars(c, p', r));
        }
      } else if r == p {
        assert Chars(c, p, r) == [];
      }
    }
  }

  lemma {:induction false} BackwardIff(c: Ctx, i: nat, e: nat, p: nat, r: nat)
    requires i <= e <= |c.units| && p <= |c.units|
    ensures BackRefBackward(c, i, e, p) == r <==> RepeatsTo(c, i, e, true, p, r)
    decreases e - i
  {
    if i == e {
      assert Chars(c, i, e) == [];
      if r < p { assert |Chars(c, r, p)| > 0; }
      if r == p { assert Chars(c, r, p) == []; }
    } else {
      assert |Chars(c, i, e)| > 0;
      if p > 0 {
        var (c1, e') := GetPrevChar(c, e, i);
        var (c2, p') := GetPrevChar(c, p, 0);
        BackwardIff(c, i, e', p', r);
        CharsSnoc(c, i, e);
        if r == p {
          assert Chars(c, r, p) == [];
        } else if r < p && !MidPair(c, r) {
          assert GetPrevChar(c, p, r) == (c2, p');
          CharsSnoc(c, r, p);
          SnocSame(c, c1, Chars(c, i, e'), c2, Chars(c, r, p'));
        }
      } else if r == p {
        assert Chars(c, r, p) == [];
      }
    }
  }

  /** Where a back reference to the units from `i` to `e` leads, or -1. An empty or unordered stretch leads nowhere. */
  ghost function RepeatEnd(c: Ctx, i: int, e: int, back: bool, p: nat): (r: int)
    requires p <= |c.units|
    ensures r == -1 || if back then 0 <= r <= p else p <= r <= |c.units|
  {
    if i >= e then p
    else if !(0 <= i && e <= |c.units|) then -1
    else if exists r: nat :: RepeatsTo(c, i, e, back, p, r) then (var r: nat :| RepeatsTo(c, i, e, back, p, r); r)
    else -1
  }

  lemma {:induction false} RepeatEndIs(c: Ctx, i: int, e: int, p: nat)
    requires p <= |c.units|
    ensures RepeatEnd(c, i, e, false, p) == BackRefForward(c, i, e, p)
    ensures RepeatEnd(c, i, e, true, p) == BackRefBackward(c, i, e, p)
  {
    hide RepeatsTo;
    if i < e && 0 <= i && e <= |c.units| {
      var f, b := BackRefForward(c, i, e, p), BackRefBackward(c, i, e, p);
      forall r: nat ensures (f == r <==> RepeatsTo(c, i, e, false, p, r)) && (b == r <==> RepeatsTo(c, i, e, true, p, r)) {
        ForwardIff(c, i, e, p, r);
        BackwardIff(c, i, e, p, r);
      }
      if f >= 0 { assert RepeatsTo(c, i, e, false, p, f); }
      if b >= 0 { assert RepeatsTo(c, i, e, true, p, b); }
    }
  }

  /** Without the UTF-16 mode, and minding case, the units are the same. */
  lemma {:induction false} UnitsRepeat(c: Ctx, i: nat, e: nat, lo: nat, hi: nat)
    requires ValidCtx(c) && i <= e <= |c.units| && lo <= hi <= |c.units| && !c.wide && !c.ignoreCase
    ensures Repeats(c, i, e, lo, hi) <==> c.units[i..e] == c.units[lo..hi]
  {
    CharsAre(c, i, e);
    CharsAre(c, lo, hi);
  }

  // ---- assertions ----

  /** LineTerminator of section 12.3 of ECMA-262. */
  const LINE_TERMINATORS: set<int> := {0x0a, 0x0d, 0x2028, 0x2029}

  /** WordCharacters of section 22.2.2.7.3 of ECMA-262, without case folding. */
  predicate IsWord(x: char) { 'a' <= x <= 'z' || 'A' <= x <= 'Z' || '0' <= x <= '9' || x == '_' }

  predicate InWord(c: Ctx, p: int) { 0 <= p < |c.units| && 0 <= c.units[p] < 0x80 && IsWord(c.units[p] as char) }

  predicate EndsLine(c: Ctx, p: int) { 0 <= p < |c.units| && c.units[p] in LINE_TERMINATORS }

  lemma WordChars(ch: int)
    ensures IsWordChar(ch) <==> 0 <= ch < 0x80 && IsWord(ch as char)
  {
  }

  /** The assertions look at the units next to the position: none of the characters they ask for is part of a pair. */
  lemma AssertionsAre(c: Ctx, p: nat)
    requires p <= |c.units|
    ensures AtLineStart(c, p) <==> p == 0 || (c.multiLine && EndsLine(c, p - 1))
    ensures AtLineEnd(c, p) <==> p == |c.units| || (c.multiLine && EndsLine(c, p))
    ensures AtWordBoundary(c, p) <==> InWord(c, p - 1) != InWord(c, p)
  {
    if p > 0 { WordChars(c.units[p - 1]); }
    if p < |c.units| { WordChars(c.units[p]); }
  }
}
