/** The subject string as the regexp engine walks it, one character forward or backward at a time. */
module ReInput {

  /** `wide` is the UTF-16 mode (cbuf_type 2); without it every unit is a character of its own. */
  datatype Ctx = Ctx(units: seq<int>, wide: bool, multiLine: bool, ignoreCase: bool, canon: int -> int)

  const MAX_CODE_POINT := 0x10_ffff

  predicate IsHiSurrogate(c: int) { 0xd800 <= c < 0xdc00 }

  predicate IsLoSurrogate(c: int) { 0xdc00 <= c < 0xe000 }

  function FromSurrogate(hi: int, lo: int): int {
    65536 + 1024 * (hi % 1024) + lo % 1024
  }

  ghost predicate ValidCtx(c: Ctx) {
    && (forall i :: 0 <= i < |c.units| ==> 0 <= c.units[i] < 65536)
    && (forall ch :: 0 <= ch <= MAX_CODE_POINT ==> 0 <= c.canon(ch) <= MAX_CODE_POINT)
  }

  /** Character at `p` and the position after it, with the string ending at `end` (GET_CHAR). */
  function GetChar(c: Ctx, p: nat, end: nat): (r: (int, nat))
    requires p < end <= |c.units|
    ensures p < r.1 <= end
    ensures end == |c.units| ==> !MidPair(c, r.1)
  {
    var ch := c.units[p];
    if c.wide && IsHiSurrogate(ch) && p + 1 < end && IsLoSurrogate(c.units[p + 1]) then
      (FromSurrogate(ch, c.units[p + 1]), p + 2)
    else (ch, p + 1)
  }

  /** Character before `p` and the position it starts at, with the string starting at `start` (GET_PREV_CHAR). */
  function GetPrevChar(c: Ctx, p: nat, start: nat): (r: (int, nat))
    requires start < p <= |c.units|
    ensures start <= r.1 < p
    ensures start == 0 ==> !MidPair(c, r.1)
  {
    var ch := c.units[p - 1];
    if c.wide && IsLoSurrogate(ch) && p - 1 > start && IsHiSurrogate(c.units[p - 2]) then
      (FromSurrogate(c.units[p - 2], ch), p - 2)
    else (ch, p - 1)
  }

  /** The position lies between the two halves of a surrogate pair. */
  predicate MidPair(c: Ctx, p: nat) {
    c.wide && 0 < p < |c.units| && IsHiSurrogate(c.units[p - 1]) && IsLoSurrogate(c.units[p])
  }

  function Canon(c: Ctx, ch: int): int {
    if c.ignoreCase then c.canon(ch) else ch
  }

  predicate IsLineTerminator(c: int) { c == 10 || c == 13 || c == 0x2028 || c == 0x2029 }

  predicate IsWordChar(c: int) {
    48 <= c <= 57 || 97 <= c <= 122 || 65 <= c <= 90 || c == 95
  }

  predicate AtLineStart(c: Ctx, p: nat)
    requires p <= |c.units|
  {
    p == 0 || (c.multiLine && IsLineTerminator(GetPrevChar(c, p, 0).0))
  }

  predicate AtLineEnd(c: Ctx, p: nat)
    requires p <= |c.units|
  {
    p == |c.units| || (c.multiLine && IsLineTerminator(GetChar(c, p, |c.units|).0))
  }

  predicate AtWordBoundary(c: Ctx, p: nat)
    requires p <= |c.units|
  {
    var before := p != 0 && IsWordChar(GetPrevChar(c, p, 0).0);
    var after := p < |c.units| && IsWordChar(GetChar(c, p, |c.units|).0);
    before != after
  }

  lemma CharRange(c: Ctx, p: nat, end: nat)
    requires ValidCtx(c) && p < end <= |c.units|
    ensures 0 <= GetChar(c, p, end).0 <= MAX_CODE_POINT
    ensures 0 <= Canon(c, GetChar(c, p, end).0) <= MAX_CODE_POINT
  {
  }

  /** Going one character forward and one back returns to the start exactly from the positions that split no pair. */
  lemma ForwardThenBack(c: Ctx, p: nat)
    requires p < |c.units|
    ensures GetPrevChar(c, GetChar(c, p, |c.units|).1, 0).1 == p <==> !MidPair(c, p)
    ensures !MidPair(c, p) ==> GetPrevChar(c, GetChar(c, p, |c.units|).1, 0).0 == GetChar(c, p, |c.units|).0
  {
  }

  /** Going one character back and one forward, from a position that splits no pair, reads the same character twice. */
  lemma BackThenForward(c: Ctx, p: nat)
    requires 0 < p <= |c.units| && !MidPair(c, p)
    ensures GetChar(c, GetPrevChar(c, p, 0).1, |c.units|) == (GetPrevChar(c, p, 0).0, p)
  {
  }

  /** Back reference to the units between `i` and `e`, matched forward from `p`: the position after, or -1. */
  function BackRefForward(c: Ctx, i: int, e: int, p: nat): (r: int)
    requires p <= |c.units|
    ensures r == -1 || p <= r <= |c.units|
    ensures r >= 0 && !MidPair(c, p) ==> !MidPair(c, r)
    decreases e - i
  {
    if i >= e then p
    else if p >= |c.units| || !(0 <= i && e <= |c.units|) then -1
    else
      var (c1, i') := GetChar(c, i, e);
      var (c2, p') := GetChar(c, p, |c.units|);
      if Canon(c, c1) != Canon(c, c2) then -1 else BackRefForward(c, i', e, p')
  }

  /** The same, matched backward: the position before, or -1. */
  function BackRefBackward(c: Ctx, i: int, e: int, p: nat): (r: int)
    requires p <= |c.units|
    ensures r == -1 || 0 <= r <= p
    ensures r >= 0 && !MidPair(c, p) ==> !MidPair(c, r)
    decreases e - i
  {
    if e <= i then p
    else if p == 0 || !(0 <= i && e <= |c.units|) then -1
    else
      var (c1, e') := GetPrevChar(c, e, i);
      var (c2, p') := GetPrevChar(c, p, 0);
      if Canon(c, c1) != Canon(c, c2) then -1 else BackRefBackward(c, i, e', p')
  }
}
