/** Run-length tables of character sets, their index, and the two ways to read them. */
module UniTable {
  import opened CrSets
  import opened CrPairs
  import opened CrRange
  import opened UtfCode

  // ----- the runs -----

  /** One entry of the table: a run, possibly a second one, and the number of bytes of the entry. */
  datatype Entry = Entry(first: nat, second: nat, size: nat)

  function EntrySize(b: U8): (n: nat)
    ensures 1 <= n <= 3
  {
    if 0x40 <= b < 0x60 then 2 else if 0x60 <= b < 0x80 then 3 else 1
  }

  function EntryAt(t: seq<U8>, p: nat): (e: Entry)
    requires p < |t| && p + EntrySize(t[p]) <= |t|
    ensures e.first >= 1 && e.size == EntrySize(t[p])
  {
    var b: int := t[p];
    if b < 64 then Entry(b / 8 + 1, b % 8 + 1, 1)
    else if b >= 0x80 then Entry(b - 0x80 + 1, 0, 1)
    else if b < 0x60 then Entry((b - 0x40) * 0x100 + t[p + 1] + 1, 0, 2)
    else Entry((b - 0x60) * 0x1_0000 + t[p + 1] as int * 0x100 + t[p + 2] + 1, 0, 3)
  }

  /** The entries from `p` on end where the table ends. */
  predicate Whole(t: seq<U8>, p: nat)
    decreases |t| - p
  {
    p == |t| || (p < |t| && p + EntrySize(t[p]) <= |t| && Whole(t, p + EntrySize(t[p])))
  }

  /** The code after the last run. */
  function EndCode(t: seq<U8>, p: nat, code: nat): (r: nat)
    requires Whole(t, p)
    ensures code <= r
    decreases |t| - p
  {
    if p == |t| then code else var e := EntryAt(t, p); EndCode(t, p + e.size, code + e.first + e.second)
  }

  /** Whether `c`, at or after `code`, is in a run that belongs to the set; `bit` tells for the next run. */
  predicate Member(t: seq<U8>, p: nat, code: nat, bit: bool, c: int)
    requires Whole(t, p)
    decreases |t| - p
  {
    p < |t| &&
    var e := EntryAt(t, p);
    if c < code + e.first then bit
    else if c < code + e.first + e.second then !bit
    else Member(t, p + e.size, code + e.first + e.second, if e.second > 0 then bit else !bit, c)
  }

  // ----- all intervals -----

  function Interval(bit: bool, from: U32, to: U32): seq<Pair> { if bit then [(from, to)] else [] }

  /** The intervals that the plain scan decodes. */
  function Intervals(t: seq<U8>, p: nat, code: nat, bit: bool): seq<Pair>
    requires Whole(t, p) && EndCode(t, p, code) <= UINT32_MAX
    decreases |t| - p
  {
    if p == |t| then []
    else
      var e := EntryAt(t, p);
      var mid, end := code + e.first, code + e.first + e.second;
      Interval(bit, code, mid) + (if e.second > 0 then Interval(!bit, mid, end) else [])
      + Intervals(t, p + e.size, end, if e.second > 0 then bit else !bit)
  }

  lemma WithinAppend(s: seq<Pair>, r: seq<Pair>, c: int)
    ensures Within(s + r, c) <==> Within(s, c) || Within(r, c)
  {
    if Within(s, c) {
      var p :| p in s && p.0 <= c < p.1;
      assert p in s + r;
    }
    if Within(r, c) {
      var p :| p in r && p.0 <= c < p.1;
      assert p in s + r;
    }
  }

  lemma WithinInterval(bit: bool, from: U32, to: U32, c: int)
    ensures Within(Interval(bit, from, to), c) <==> bit && from <= c < to
    ensures !Within([], c)
  {
    if bit && from <= c < to {
      assert (from, to) in Interval(bit, from, to);
    }
  }

  /** Being in one of the decoded intervals is being in a run of the set. */
  lemma {:induction false} WithinIsMember(t: seq<U8>, p: nat, code: nat, bit: bool, c: int)
    requires Whole(t, p) && EndCode(t, p, code) <= UINT32_MAX
    ensures Within(Intervals(t, p, code, bit), c) <==> code <= c && Member(t, p, code, bit, c)
    decreases |t| - p
  {
    hide Within, EntryAt;
    if p == |t| {
      WithinInterval(false, 0, 0, c);
    } else {
      var e := EntryAt(t, p);
      var mid, end := code + e.first, code + e.first + e.second;
      var first := Interval(bit, code, mid);
      var second := if e.second > 0 then Interval(!bit, mid, end) else [];
      var bit' := if e.second > 0 then bit else !bit;
      var rest := Intervals(t, p + e.size, end, bit');
      WithinIsMember(t, p + e.size, end, bit', c);
      WithinInterval(bit, code, mid, c);
      WithinInterval(!bit, mid, end, c);
      WithinAppend(first, second, c);
      WithinAppend(first + second, rest, c);
      if c < end {
        WithinLater(t, p + e.size, end, bit', c);
      }
    }
  }

  /** Intervals from `code` on hold nothing below it. */
  lemma {:induction false} WithinLater(t: seq<U8>, p: nat, code: nat, bit: bool, c: int)
    requires Whole(t, p) && c < code && EndCode(t, p, code) <= UINT32_MAX
    ensures !Within(Intervals(t, p, code, bit), c)
    decreases |t| - p
  {
    hide Within, EntryAt;
    if p == |t| {
      WithinInterval(false, 0, 0, c);
    } else {
      var e := EntryAt(t, p);
      var mid, end := code + e.first, code + e.first + e.second;
      var first := Interval(bit, code, mid);
      var second := if e.second > 0 then Interval(!bit, mid, end) else [];
      var bit' := if e.second > 0 then bit else !bit;
      WithinLater(t, p + e.size, end, bit', c);
      WithinInterval(bit, code, mid, c);
      WithinInterval(!bit, mid, end, c);
      WithinAppend(first, second, c);
      WithinAppend(first + second, Intervals(t, p + e.size, end, bit'), c);
    }
  }

  // ----- the index -----

  /** get_le24 of entry `k`. */
  function Le24(index: seq<U8>, k: nat): nat
    requires 3 * k + 2 < |index|
  {
    index[3 * k] as int + index[3 * k + 1] as int * 0x100 + index[3 * k + 2] as int * 0x1_0000
  }

  const CODES := 0x20_0000
  const BLOCK_LEN := 32

  function MarkCode(index: seq<U8>, k: nat): nat
    requires 3 * k + 2 < |index|
  {
    Le24(index, k) % CODES
  }

  function MarkPos(index: seq<U8>, k: nat): nat
    requires 3 * k + 2 < |index|
  {
    (k + 1) * BLOCK_LEN + Le24(index, k) / CODES
  }

  /** The scan that starts at `p` comes by the entry at `q` with `codeQ` and the bit clear. */
  predicate PassesBy(t: seq<U8>, p: nat, code: nat, bit: bool, q: nat, codeQ: nat)
    requires Whole(t, p)
    decreases |t| - p
  {
    if p == q then code == codeQ && !bit
    else
      p < |t| &&
      var e := EntryAt(t, p);
      PassesBy(t, p + e.size, code + e.first + e.second, if e.second > 0 then bit else !bit, q, codeQ)
  }

  /** Every mark but the last is a place the plain scan comes by with the bit clear; the last one is the end. */
  ghost predicate GoodIndex(t: seq<U8>, index: seq<U8>, n: nat) {
    && n > 0 && |index| == 3 * n && Whole(t, 0)
    && (forall k :: 0 <= k < n - 1 ==> MarkedRight(t, index, k))
    && Le24(index, n - 1) == EndCode(t, 0, 0) < CODES
  }

  ghost predicate MarkedRight(t: seq<U8>, index: seq<U8>, k: nat)
    requires Whole(t, 0) && 3 * k + 2 < |index|
  {
    PassesBy(t, 0, 0, false, MarkPos(index, k), MarkCode(index, k))
  }

  /** From a place that the scan comes by, it goes on as from the start. */
  lemma {:induction false} PassedMember(t: seq<U8>, p: nat, code: nat, bit: bool, q: nat, codeQ: nat, c: int)
    requires Whole(t, p) && PassesBy(t, p, code, bit, q, codeQ) && codeQ <= c
    ensures Whole(t, q) && code <= codeQ && Member(t, p, code, bit, c) == Member(t, q, codeQ, false, c)
    ensures EndCode(t, p, code) == EndCode(t, q, codeQ)
    decreases |t| - p
  {
    hide EntryAt;
    if p != q {
      var e := EntryAt(t, p);
      PassedMember(t, p + e.size, code + e.first + e.second, if e.second > 0 then bit else !bit, q, codeQ, c);
    }
  }

  /** Nothing of the set is after the end. */
  lemma {:induction false} NotMemberAfter(t: seq<U8>, p: nat, code: nat, bit: bool, c: int)
    requires Whole(t, p) && EndCode(t, p, code) <= c
    ensures !Member(t, p, code, bit, c)
    decreases |t| - p
  {
    hide EntryAt;
    if p < |t| {
      var e := EntryAt(t, p);
      NotMemberAfter(t, p + e.size, code + e.first + e.second, if e.second > 0 then bit else !bit, c);
    }
  }

  datatype Start = Outside | From(pos: nat, code: nat)

  /** get_index_pos: where to start scanning for `c`. */
  method GetIndexPos(c: U32, index: seq<U8>, n: nat) returns (start: Start)
    requires n > 0 && |index| == 3 * n
    ensures start.Outside? ==> c >= MarkCode(index, 0) && c >= Le24(index, n - 1)
    ensures start.From? && c < MarkCode(index, 0) ==> start == From(0, 0)
    ensures start.From? && c >= MarkCode(index, 0) ==> c < Le24(index, n - 1)
    ensures start.From? && c >= MarkCode(index, 0) && n > 1 ==>
      exists k :: Chosen(index, n, c, k) && start == From(MarkPos(index, k), MarkCode(index, k))
  {
    hide Le24;
    if c < MarkCode(index, 0) {
      return From(0, 0);
    }
    var idxMin, idxMax := 0, n - 1;
    if c >= Le24(index, idxMax) {
      return Outside;
    }
    while idxMax - idxMin > 1
      invariant 0 <= idxMin <= idxMax < n && (n > 1 ==> idxMin < idxMax)
      invariant MarkCode(index, idxMin) <= c && (idxMax < n - 1 ==> c < MarkCode(index, idxMax))
      decreases idxMax - idxMin
    {
      var idx := (idxMax + idxMin) / 2;
      if c < MarkCode(index, idx) {
        idxMax := idx;
      } else {
        idxMin := idx;
      }
    }
    assert n > 1 ==> Chosen(index, n, c, idxMin);
    return From(MarkPos(index, idxMin), MarkCode(index, idxMin));
  }

  /** The block of mark `k` is the one for `c`. */
  ghost predicate Chosen(index: seq<U8>, n: nat, c: int, k: nat)
    requires |index| == 3 * n
  {
    && k + 1 < n && MarkCode(index, k) <= c
    && (k + 1 < n - 1 ==> c < MarkCode(index, k + 1))
  }

  /** The loop of lre_is_in_table: reads entries until the run of `c`. */
  method ScanFrom(c: U32, t: seq<U8>, pos: nat, code0: nat) returns (r: bool)
    requires Whole(t, pos) && code0 <= c < EndCode(t, pos, code0)
    ensures r == Member(t, pos, code0, false, c)
  {
    hide Member, EndCode;
    var p: nat, code: nat, bit := pos, code0, false;
    while true
      invariant Whole(t, p) && code <= c < EndCode(t, p, code)
      invariant Member(t, p, code, bit, c) == Member(t, pos, code0, false, c)
      decreases |t| - p
    {
      ghost var p0, code1, bit0 := p, code, bit;
      EntryRead(t, p, code, bit, c);
      var b := t[p];
      p := p + 1;
      if b < 64 {
        code := code + b / 8 + 1;
        if c < code {
          return bit;
        }
        bit := !bit;
        code := code + b % 8 + 1;
      } else if b >= 0x80 {
        code := code + b as int - 0x80 + 1;
      } else if b < 0x60 {
        code := code + (b as int - 0x40) * 0x100 + t[p] + 1;
        p := p + 1;
      } else {
        code := code + (b as int - 0x60) * 0x1_0000 + t[p] as int * 0x100 + t[p + 1] + 1;
        p := p + 2;
      }
      if c < code {
        return bit;
      }
      bit := !bit;
    }
  }

  lemma EntryRead(t: seq<U8>, p: nat, code: nat, bit: bool, c: int)
    requires Whole(t, p) && code <= c < EndCode(t, p, code)
    ensures p < |t| && p + EntrySize(t[p]) <= |t| && Whole(t, p + EntrySize(t[p]))
    ensures var e := EntryAt(t, p);
      && EndCode(t, p, code) == EndCode(t, p + e.size, code + e.first + e.second)
      && Member(t, p, code, bit, c) ==
           (if c < code + e.first then bit
            else if c < code + e.first + e.second then !bit
            else Member(t, p + e.size, code + e.first + e.second, if e.second > 0 then bit else !bit, c))
  {
  }

  /** lre_is_in_table: the same answer as the intervals decoded from the whole table. */
  method IsInTable(c: U32, t: seq<U8>, index: seq<U8>, n: nat) returns (r: bool)
    requires GoodIndex(t, index, n)
    ensures r <==> In(Flatten(Intervals(t, 0, 0, false)), c)
  {
    hide In, Flatten, Within, Intervals, Member, EndCode, PassesBy, Le24, Whole;
    WithinIsMember(t, 0, 0, false, c);
    WithinIsIn(Intervals(t, 0, 0, false), c);
    OneMark(t, index, n);
    var start := GetIndexPos(c, index, n);
    if start.Outside? {
      NotMemberAfter(t, 0, 0, false, c);
      return false;
    }
    if c >= MarkCode(index, 0) {
      ghost var k :| Chosen(index, n, c, k) && start == From(MarkPos(index, k), MarkCode(index, k));
      assert MarkedRight(t, index, k);
      PassedMember(t, 0, 0, false, MarkPos(index, k), MarkCode(index, k), c);
    } else {
      FirstBlock(t, index, n, c);
    }
    r := ScanFrom(c, t, start.pos, start.code);
  }

  lemma OneMark(t: seq<U8>, index: seq<U8>, n: nat)
    requires GoodIndex(t, index, n)
    ensures n == 1 ==> MarkCode(index, 0) == Le24(index, n - 1)
  {
  }

  /** Before the first mark there is still something to scan. */
  lemma FirstBlock(t: seq<U8>, index: seq<U8>, n: nat, c: int)
    requires GoodIndex(t, index, n) && 0 <= c < MarkCode(index, 0)
    ensures c < EndCode(t, 0, 0)
  {
    if n > 1 {
      assert MarkedRight(t, index, 0);
      PassedMember(t, 0, 0, false, MarkPos(index, 0), MarkCode(index, 0), MarkCode(index, 0));
    }
  }

  // ----- the plain scan -----

  lemma {:induction false} FlattenAppend(s: seq<Pair>, r: seq<Pair>)
    ensures Flatten(s + r) == Flatten(s) + Flatten(r)
  {
    if r == [] {
      assert s + r == s;
    } else {
      FlattenAppend(s, r[..|r| - 1]);
      assert (s + r)[..|s + r| - 1] == s + r[..|r| - 1];
    }
  }

  /** The points of an entry's intervals go in front of those of the rest. */
  lemma IntervalsFrom(t: seq<U8>, p: nat, code: nat, bit: bool)
    requires Whole(t, p) && p < |t| && EndCode(t, p, code) <= UINT32_MAX
    ensures p + EntrySize(t[p]) <= |t| && Whole(t, p + EntrySize(t[p]))
    ensures var e := EntryAt(t, p); var mid, end := code + e.first, code + e.first + e.second;
      var bit' := if e.second > 0 then bit else !bit;
      && end <= EndCode(t, p + e.size, end) == EndCode(t, p, code)
      && Flatten(Intervals(t, p, code, bit))
         == EntryPoints(e.first, e.second, code, bit) + Flatten(Intervals(t, p + e.size, end, bit'))
  {
    hide EntryAt;
    var e := EntryAt(t, p);
    var mid, end := code + e.first, code + e.first + e.second;
    var first := Interval(bit, code, mid);
    var second := if e.second > 0 then Interval(!bit, mid, end) else [];
    var rest := Intervals(t, p + e.size, end, if e.second > 0 then bit else !bit);
    FlattenAppend(first + second, rest);
    FlattenAppend(first, second);
    FlattenInterval(bit, code, mid);
    FlattenInterval(!bit, mid, end);
  }

  lemma FlattenInterval(bit: bool, from: U32, to: U32)
    ensures Flatten(Interval(bit, from, to)) == if bit then [from, to] else []
    ensures Flatten([]) == []
  {
    var s: seq<Pair> := [(from, to)];
    assert s[..0] == [];
  }

  /** unicode_prop1: adds all intervals of the table to the range. */
  method UnicodeProp1(cr: CharRange, t: seq<U8>)
    requires cr.Valid() && Whole(t, 0) && EndCode(t, 0, 0) <= UINT32_MAX
    modifies cr, cr.points
    ensures cr.Valid() && (cr.points == old(cr.points) || fresh(cr.points))
    ensures cr.Contents() == old(cr.Contents()) + Flatten(Intervals(t, 0, 0, false))
  {
    hide Whole, EndCode, Intervals, Flatten, EntryAt, EntrySize;
    ghost var was := cr.Contents();
    var p: nat, c: nat, bit := 0, 0, false;
    while p < |t|
      invariant cr.Valid() && (cr.points == old(cr.points) || fresh(cr.points))
      invariant p <= |t| && Whole(t, p) && EndCode(t, p, c) == EndCode(t, 0, 0)
      invariant cr.Contents() + Flatten(Intervals(t, p, c, bit)) == was + Flatten(Intervals(t, 0, 0, false))
      decreases |t| - p
    {
      ghost var now := cr.Contents();
      IntervalsFrom(t, p, c, bit);
      ghost var e := EntryAt(t, p);
      Associate(now, EntryPoints(e.first, e.second, c, bit),
                Flatten(Intervals(t, p + e.size, c + e.first + e.second, if e.second > 0 then bit else !bit)));
      var size;
      c, bit, size := AddEntry(cr, t, p, c, bit, now);
      p := p + size;
    }
    NoIntervals(t, p, c, bit, cr.Contents());
  }

  lemma Associate(x: seq<U32>, y: seq<U32>, z: seq<U32>)
    ensures x + (y + z) == (x + y) + z
  {
  }

  lemma NoIntervals(t: seq<U8>, p: nat, code: nat, bit: bool, s: seq<U32>)
    requires p == |t| && Whole(t, p) && EndCode(t, p, code) <= UINT32_MAX
    ensures s + Flatten(Intervals(t, p, code, bit)) == s
  {
  }

  /** The intervals of one entry, of one run or of two. */
  function EntryPoints(first: nat, second: nat, code: nat, bit: bool): seq<U32>
    requires code + first + second <= UINT32_MAX
  {
    if bit then [code, code + first] else if second > 0 then [code + first, code + first + second] else []
  }

  /** One pass of the loop of unicode_prop1. */
  method AddEntry(cr: CharRange, t: seq<U8>, p: nat, code0: nat, bit0: bool, ghost now: seq<U32>)
    returns (c: nat, bit: bool, size: nat)
    requires cr.Valid() && cr.Contents() == now && p < |t| && p + EntrySize(t[p]) <= |t|
    requires code0 + EntryAt(t, p).first + EntryAt(t, p).second <= UINT32_MAX
    modifies cr, cr.points
    ensures cr.Valid() && (cr.points == old(cr.points) || fresh(cr.points))
    ensures var e := EntryAt(t, p);
      && size == e.size && c == code0 + e.first + e.second && bit == (if e.second > 0 then bit0 else !bit0)
      && cr.Contents() == now + EntryPoints(e.first, e.second, code0, bit0)
  {
    c, bit, size := code0, bit0, 1;
    var c0 := c;
    var b: int := t[p];
    if b < 64 {
      c := c + b / 8 + 1;
      if bit {
        cr.AddInterval(c0, c);
      }
      bit := !bit;
      c0 := c;
      c := c + b % 8 + 1;
    } else if b >= 0x80 {
      c := c + b - 0x80 + 1;
    } else if b < 0x60 {
      c := c + (b - 0x40) * 0x100 + t[p + 1] + 1;
      size := 2;
    } else {
      c := c + (b - 0x60) * 0x1_0000 + t[p + 1] as int * 0x100 + t[p + 2] + 1;
      size := 3;
    }
    if bit {
      cr.AddInterval(c0, c);
    }
    bit := !bit;
  }
}
