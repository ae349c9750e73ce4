/** The generator of the run-length tables (unicode_gen.c), and what the tables it builds hold. */
module UniBuild {
  import opened CrSets
  import opened CrPairs
  import opened UtfCode
  import opened UniTable

  // ----- runs -----

  /** Runs that alternate between out and in, each by its length less one; the first one begins at `code`. */
  predicate InRuns(rs: seq<nat>, code: nat, bit: bool, c: int) {
    rs != [] && if c < code + rs[0] + 1 then bit else InRuns(rs[1..], code + rs[0] + 1, !bit, c)
  }

  function Total(rs: seq<nat>): nat { if rs == [] then 0 else rs[0] + 1 + Total(rs[1..]) }

  predicate AllFit(rs: seq<nat>) { forall i :: 0 <= i < |rs| ==> rs[i] < CODES }

  // ----- their coding -----

  /** A run on its own: one, two or three bytes. */
  function One(v: nat): (s: seq<U8>)
    requires v < CODES
    ensures 1 <= |s| <= 3
  {
    if v < 128 then [0x80 + v]
    else if v < 0x2000 then [0x40 + v / 0x100, v % 0x100]
    else [0x60 + v / 0x1_0000, v / 0x100 % 0x100, v % 0x100]
  }

  /** Two short runs share a byte. */
  predicate Paired(rs: seq<nat>) { |rs| >= 2 && rs[0] < 8 && rs[1] < 8 }

  function First(rs: seq<nat>): (s: seq<U8>)
    requires rs != [] && AllFit(rs)
    ensures 1 <= |s| <= 3
  {
    if Paired(rs) then [rs[0] * 8 + rs[1]] else One(rs[0])
  }

  function Rest(rs: seq<nat>): (r: seq<nat>)
    requires rs != []
    ensures |r| < |rs| && (AllFit(rs) ==> AllFit(r))
  {
    if Paired(rs) then rs[2..] else rs[1..]
  }

  function Encode(rs: seq<nat>): seq<U8>
    requires AllFit(rs)
    decreases |rs|
  {
    if rs == [] then [] else First(rs) + Encode(Rest(rs))
  }

  /** The entry that codes the first run, or the first two. */
  lemma {:induction false} EntryBack(pre: seq<U8>, rs: seq<nat>)
    requires rs != [] && AllFit(rs)
    ensures var t, p := pre + Encode(rs), |pre|;
            && p < |t| && p + EntrySize(t[p]) <= |t|
            && EntryAt(t, p) == Entry(rs[0] + 1, if Paired(rs) then rs[1] + 1 else 0, |First(rs)|)
            && t == pre + First(rs) + Encode(Rest(rs))
  {
    hide Encode, Rest;
    EncodeStep(rs);
    var t, p, s := pre + Encode(rs), |pre|, First(rs);
    assert t == pre + s + Encode(Rest(rs));
    assert forall i :: 0 <= i < |s| ==> t[p + i] == s[i];
    if !Paired(rs) { OneBack(rs[0]); }
  }

  lemma EncodeStep(rs: seq<nat>)
    requires rs != [] && AllFit(rs)
    ensures Encode(rs) == First(rs) + Encode(Rest(rs))
  {
  }

  lemma OneBack(v: nat)
    requires v < CODES
    ensures EntrySize(One(v)[0]) == |One(v)| && One(v)[0] >= 64
    ensures EntryAt(One(v), 0) == Entry(v + 1, 0, |One(v)|)
  {
    if v >= 128 {
      if v < 0x2000 { TwoBytes(v); } else { ThreeBytes(v); }
    }
  }

  lemma TwoBytes(v: nat)
    requires 128 <= v < 0x2000
    ensures EntryAt([0x40 + v / 0x100, v % 0x100], 0) == Entry(v + 1, 0, 2)
  {
    var h, l := v / 0x100, v % 0x100;
    assert v == h * 0x100 + l;
  }

  lemma ThreeBytes(v: nat)
    requires 0x2000 <= v < CODES
    ensures EntryAt([0x60 + v / 0x1_0000, v / 0x100 % 0x100, v % 0x100], 0) == Entry(v + 1, 0, 3)
  {
    var h, m, l := v / 0x1_0000, v / 0x100 % 0x100, v % 0x100;
    assert v == h * 0x1_0000 + m * 0x100 + l by {
      var x := v / 0x100;
      assert h == x / 0x100;
    }
  }

  /** The coded runs are a whole table, of the same length and with the same members. */
  lemma {:induction false} TableBack(pre: seq<U8>, rs: seq<nat>, code: nat, bit: bool, c: int)
    requires AllFit(rs)
    ensures var t, p := pre + Encode(rs), |pre|;
            Whole(t, p) && EndCode(t, p, code) == code + Total(rs) && (Member(t, p, code, bit, c) <==> InRuns(rs, code, bit, c))
    decreases |rs|
  {
    hide Encode, First, EntryAt, EntrySize, AllFit;
    if rs == [] {
      NoRuns(pre);
    } else {
      EntryBack(pre, rs);
      var s, r := First(rs), Rest(rs);
      var end := code + rs[0] + 1 + if Paired(rs) then rs[1] + 1 else 0;
      TableBack(pre + s, r, end, if Paired(rs) then bit else !bit, c);
      RunsStep(rs, code, bit, c);
    }
  }

  lemma NoRuns(pre: seq<U8>)
    ensures pre + Encode([]) == pre
  {
  }

  lemma RunsStep(rs: seq<nat>, code: nat, bit: bool, c: int)
    requires rs != []
    ensures var mid := code + rs[0] + 1; var end := mid + if Paired(rs) then rs[1] + 1 else 0;
            && Total(rs) == end - code + Total(Rest(rs))
            && InRuns(rs, code, bit, c) ==
                 (if c < mid then bit else if c < end then !bit else InRuns(Rest(rs), end, if Paired(rs) then bit else !bit, c))
  {
    if Paired(rs) { assert rs[1..][1..] == rs[2..]; }
  }

  // ----- the runs of a property -----

  /** The runs are those of the property, up to the last character that has it. */
  ghost predicate RunsOf(rs: seq<nat>, prop: seq<bool>) { Total(rs) <= |prop| && Covers(rs, prop, |prop|) }

  /** So far as the first `n` characters go. */
  ghost predicate Covers(rs: seq<nat>, prop: seq<bool>, n: nat)
    requires n <= |prop|
  {
    forall c: nat :: InRuns(rs, 0, false, c) <==> c < n && prop[c]
  }

  lemma {:induction false} TotalSnoc(rs: seq<nat>, v: nat)
    ensures Total(rs + [v]) == Total(rs) + v + 1
    decreases |rs|
  {
    var r := rs + [v];
    if rs == [] {
      assert r[1..] == [] && Total([]) == 0;
    } else {
      assert r[1..] == rs[1..] + [v];
      TotalSnoc(rs[1..], v);
    }
  }

  lemma {:induction false} RunsSnoc(rs: seq<nat>, v: nat, code: nat, bit: bool, c: nat)
    requires c >= code
    ensures InRuns(rs + [v], code, bit, c) ==
              if c < code + Total(rs) then InRuns(rs, code, bit, c) else c < code + Total(rs) + v + 1 && bit == (|rs| % 2 == 0)
    ensures c >= code + Total(rs) ==> !InRuns(rs, code, bit, c)
    decreases |rs|
  {
    var r := rs + [v];
    if rs == [] {
      assert r[1..] == [];
    } else {
      assert r[1..] == rs[1..] + [v];
      if c >= code + rs[0] + 1 { RunsSnoc(rs[1..], v, code + rs[0] + 1, !bit, c); }
    }
  }

  const CODE_POINTS := 0x11_0000

  /** The first loop of build_prop_table: the lengths of the runs, less one. The property is the one of no character first. */
  method RunLengths(prop: seq<bool>) returns (rs: seq<nat>)
    requires |prop| <= CODE_POINTS && (prop != [] ==> !prop[0])
    ensures RunsOf(rs, prop) && AllFit(rs)
  {
    rs := [];
    NothingYet();
    var i := 0;
    while i < |prop|
      invariant i == Total(rs) <= |prop| && AllFit(rs)
      invariant i < |prop| ==> prop[i] == (|rs| % 2 == 1)
      invariant Covers(rs, prop, i)
      decreases |prop| - i
    {
      var v, j := prop[i], i + 1;
      while j < |prop| && prop[j] == v
        invariant i < j <= |prop| && forall k :: i <= k < j ==> prop[k] == v
      {
        j := j + 1;
      }
      if j == |prop| && !v {
        break;
      }
      MoreRuns(rs, prop, i, j, v);
      rs := rs + [j - i - 1];
      i := j;
    }
  }

  lemma {:induction false} MoreRuns(rs: seq<nat>, prop: seq<bool>, i: nat, j: nat, v: bool)
    requires i == Total(rs) && i < j <= |prop| && v == (|rs| % 2 == 1) && forall k :: i <= k < j ==> prop[k] == v
    requires Covers(rs, prop, i)
    ensures Total(rs + [j - i - 1]) == j && Covers(rs + [j - i - 1], prop, j)
  {
    var r := rs + [j - i - 1];
    TotalSnoc(rs, j - i - 1);
    forall c: nat ensures InRuns(r, 0, false, c) <==> c < j && prop[c] {
      RunsSnoc(rs, j - i - 1, 0, false, c);
    }
  }

  lemma NothingYet()
    ensures Total([]) == 0 && forall c: nat :: !InRuns([], 0, false, c)
  {
  }

  // ----- the table and its index -----

  /** Every mark of the index stands at most seven bytes behind the end of its block: an entry further on may be the first one
      where the bit is clear. */
  predicate MarksFit(rs: seq<nat>, size: nat, bit: bool, blockEnd: nat)
    requires AllFit(rs)
    decreases |rs|
  {
    rs == [] ||
    var marked := size >= blockEnd && !bit;
    && (marked ==> size - blockEnd <= 7)
    && MarksFit(Rest(rs), size + |First(rs)|, if Paired(rs) then bit else !bit, if marked then blockEnd + BLOCK_LEN else blockEnd)
  }

  /** The scan from the start comes to `p` with this code and this bit. */
  ghost predicate ComesTo(t: seq<U8>, p: nat, code: nat, bit: bool) {
    && Whole(t, 0) && Whole(t, p)
    && forall q: nat, codeQ: nat :: q >= p ==> PassesBy(t, 0, 0, false, q, codeQ) == PassesBy(t, p, code, bit, q, codeQ)
  }

  lemma {:induction false} ComesFurther(t: seq<U8>, p: nat, code: nat, bit: bool)
    requires ComesTo(t, p, code, bit) && p < |t|
    ensures p + EntrySize(t[p]) <= |t|
    ensures var e := EntryAt(t, p); ComesTo(t, p + e.size, code + e.first + e.second, if e.second > 0 then bit else !bit)
  {
    hide EntryAt;
    var e := EntryAt(t, p);
    var end, bit' := code + e.first + e.second, if e.second > 0 then bit else !bit;
    forall q: nat, codeQ: nat | q >= p + e.size
      ensures PassesBy(t, 0, 0, false, q, codeQ) == PassesBy(t, p + e.size, end, bit', q, codeQ)
    {
      assert PassesBy(t, 0, 0, false, q, codeQ) == PassesBy(t, p, code, bit, q, codeQ);
    }
  }

  function Bytes24(v: nat): seq<U8>
    requires v < 0x100_0000
  {
    [v % 0x100, v / 0x100 % 0x100, v / 0x1_0000]
  }

  lemma Le24Back(index: seq<U8>, n: nat, v: nat)
    requires |index| == 3 * n && v < 0x100_0000
    ensures Le24(index + Bytes24(v), n) == v
    ensures forall k :: 0 <= k < n ==> Le24(index + Bytes24(v), k) == Le24(index, k)
  {
    var r := index + Bytes24(v);
    assert r[3 * n] == Bytes24(v)[0] && r[3 * n + 1] == Bytes24(v)[1] && r[3 * n + 2] == Bytes24(v)[2];
    Bytes24Sum(v);
  }

  lemma Bytes24Sum(v: nat)
    requires v < 0x100_0000
    ensures v % 0x100 + v / 0x100 % 0x100 * 0x100 + v / 0x1_0000 * 0x1_0000 == v
  {
    var h := v / 0x100;
    assert v / 0x1_0000 == h / 0x100;
  }

  ghost predicate Marked(t: seq<U8>, index: seq<U8>, n: nat) {
    |index| == 3 * n && Whole(t, 0) && forall k :: 0 <= k < n ==> MarkedRight(t, index, k)
  }

  /** A mark where the scan comes by. */
  lemma {:induction false} AnotherMark(t: seq<U8>, index: seq<U8>, n: nat, p: nat, code: nat)
    requires Marked(t, index, n) && ComesTo(t, p, code, false) && (n + 1) * BLOCK_LEN <= p <= (n + 1) * BLOCK_LEN + 7 && code < CODES
    ensures var v := code + (p - (n + 1) * BLOCK_LEN) * CODES; v < 0x100_0000 && Marked(t, index + Bytes24(v), n + 1)
  {
    hide Le24, PassesBy, Whole;
    var v := code + (p - (n + 1) * BLOCK_LEN) * CODES;
    Le24Back(index, n, v);
    var r := index + Bytes24(v);
    assert PassesBy(t, p, code, false, p, code) by { PassesHere(t, p, code); }
    forall k | 0 <= k < n + 1 ensures MarkedRight(t, r, k) {
      if k < n { assert MarkedRight(t, index, k); }
    }
  }

  lemma PassesHere(t: seq<U8>, p: nat, code: nat)
    requires Whole(t, p)
    ensures PassesBy(t, p, code, false, p, code)
  {
  }

  /** The end of the table is the last mark. */
  lemma {:induction false} LastMark(t: seq<U8>, index: seq<U8>, n: nat, code: nat)
    requires Marked(t, index, n) && code == EndCode(t, 0, 0) < CODES
    ensures GoodIndex(t, index + Bytes24(code), n + 1) && |index + Bytes24(code)| == 3 * (n + 1)
  {
    hide Le24, PassesBy, Whole, EndCode;
    Le24Back(index, n, code);
    var r := index + Bytes24(code);
    forall k | 0 <= k < n ensures MarkedRight(t, r, k) { assert MarkedRight(t, index, k); }
  }

  /** What the second loop has done: the runs from `i` on are left. */
  ghost predicate Progress(rs: seq<nat>, i: nat, table: seq<U8>, code: nat, bit: bool) {
    && i <= |rs| && AllFit(rs) && AllFit(rs[i..]) && Encode(rs) == table + Encode(rs[i..])
    && code + Total(rs[i..]) == Total(rs) && ComesTo(Encode(rs), |table|, code, bit)
  }

  lemma {:induction false} ProgressStarts(rs: seq<nat>)
    requires AllFit(rs)
    ensures Progress(rs, 0, [], 0, false)
  {
    hide Encode, Total, PassesBy, Whole, InRuns;
    assert rs[0..] == rs && [] + Encode(rs) == Encode(rs);
    TableBack([], rs, 0, false, 0);
  }

  lemma {:induction false} ProgressStep(rs: seq<nat>, i: nat, table: seq<U8>, code: nat, bit: bool)
    requires Progress(rs, i, table, code, bit) && i < |rs|
    ensures var todo := rs[i..];
            && (Paired(todo) <==> i + 1 < |rs| && rs[i] < 8 && rs[i + 1] < 8)
            && Progress(rs, i + if Paired(todo) then 2 else 1, table + First(todo),
                        code + rs[i] + 1 + if Paired(todo) then rs[i + 1] + 1 else 0, if Paired(todo) then bit else !bit)
  {
    hide Encode, Total, PassesBy, Whole, InRuns, EntryAt, First, EntrySize;
    var todo := rs[i..];
    EntryBack(table, todo);
    RunsStep(todo, 0, false, 0);
    assert todo[1..] == rs[i + 1..];
    if Paired(todo) { assert todo[2..] == rs[i + 2..]; }
    ComesFurther(Encode(rs), |table|, code, bit);
  }

  lemma NoMarks(rs: seq<nat>)
    requires AllFit(rs) && Whole(Encode(rs), 0)
    ensures Marked(Encode(rs), [], 0)
  {
  }

  lemma NothingFits(size: nat, bit: bool, blockEnd: nat)
    ensures MarksFit([], size, bit, blockEnd)
  {
  }

  lemma FitStep(rs: seq<nat>, size: nat, bit: bool, blockEnd: nat)
    requires AllFit(rs) && rs != []
    ensures var marked := size >= blockEnd && !bit;
            MarksFit(rs, size, bit, blockEnd) ==
              ((marked ==> size - blockEnd <= 7)
               && MarksFit(Rest(rs), size + |First(rs)|, if Paired(rs) then bit else !bit, if marked then blockEnd + BLOCK_LEN else blockEnd))
    ensures First(rs) == if Paired(rs) then [rs[0] * 8 + rs[1]] else One(rs[0])
  {
  }

  /** What the built table holds. */
  lemma {:induction false} Built(rs: seq<nat>, prop: seq<bool>)
    requires RunsOf(rs, prop) && AllFit(rs)
    ensures var t := Encode(rs);
            && Whole(t, 0) && EndCode(t, 0, 0) == Total(rs) <= |prop|
            && forall c: nat :: Member(t, 0, 0, false, c) <==> c < |prop| && prop[c]
  {
    var t := Encode(rs);
    assert [] + t == t;
    TableBack([], rs, 0, false, 0);
    forall c: nat ensures Member(t, 0, 0, false, c) <==> c < |prop| && prop[c] { TableBack([], rs, 0, false, c); }
  }

  lemma {:induction false} AllDone(rs: seq<nat>, i: nat, table: seq<U8>, code: nat, bit: bool)
    requires Progress(rs, i, table, code, bit) && i == |rs|
    ensures table == Encode(rs) && code == Total(rs)
  {
    assert rs[i..] == [];
  }

  lemma {:induction false} CodeFits(rs: seq<nat>, i: nat, table: seq<U8>, code: nat, bit: bool)
    requires Progress(rs, i, table, code, bit)
    ensures code <= Total(rs) && ComesTo(Encode(rs), |table|, code, bit)
  {
    hide Encode, PassesBy, Whole;
  }

  /** build_prop_table: the table of a property and, if wanted, its index. It stops where an assertion of the source fails. */
  method BuildPropTable(prop: seq<bool>, addIndex: bool)
    returns (ok: bool, table: seq<U8>, index: seq<U8>, ghost rs: seq<nat>)
    requires |prop| <= CODE_POINTS
    ensures ok ==> Whole(table, 0) && EndCode(table, 0, 0) <= CODE_POINTS
    ensures ok ==> forall c: nat :: Member(table, 0, 0, false, c) <==> c < |prop| && prop[c]
    ensures ok && addIndex ==> |index| % 3 == 0 && GoodIndex(table, index, |index| / 3)
    ensures (prop == [] || !prop[0]) ==> RunsOf(rs, prop) && AllFit(rs) && (ok <==> addIndex ==> MarksFit(rs, 0, false, BLOCK_LEN))
    ensures prop != [] && prop[0] ==> !ok
  {
    hide Encode, Total, PassesBy, Whole, InRuns, EntryAt, Le24, MarksFit, EndCode, Member, Marked, Progress, GoodIndex, RunsOf, ComesTo;
    ok, table, index, rs := true, [], [], [];
    if prop != [] && prop[0] {
      return false, [], [], [];
    }
    var buf := RunLengths(prop);
    rs := buf;
    ProgressStarts(buf);
    Built(buf, prop);
    NoMarks(buf);
    var i, code: nat, bit, blockEnd: nat, marks := 0, 0, false, BLOCK_LEN, 0;
    while i < |buf|
      invariant Progress(buf, i, table, code, bit) && i <= |buf| && AllFit(buf[i..])
      invariant blockEnd == (marks + 1) * BLOCK_LEN && (addIndex ==> Marked(Encode(buf), index, marks))
      invariant addIndex ==> MarksFit(buf, 0, false, BLOCK_LEN) == MarksFit(buf[i..], |table|, bit, blockEnd)
      decreases |buf| - i
    {
      ProgressStep(buf, i, table, code, bit);
      CodeFits(buf, i, table, code, bit);
      ghost var todo := buf[i..];
      FitStep(todo, |table|, bit, blockEnd);
      if addIndex && |table| >= blockEnd && !bit {
        var offset := |table| - blockEnd;
        if offset > 7 {
          return false, table, index, rs;
        }
        AnotherMark(Encode(buf), index, marks, |table|, code);
        index := index + Bytes24(code + offset * CODES);
        blockEnd, marks := blockEnd + BLOCK_LEN, marks + 1;
      }
      var v := buf[i];
      if v < 8 && i + 1 < |buf| && buf[i + 1] < 8 {
        assert Rest(todo) == buf[i + 2..];
        table := table + [v * 8 + buf[i + 1]];
        code := code + v + 1 + buf[i + 1] + 1;
        i := i + 2;
      } else {
        assert Rest(todo) == buf[i + 1..];
        table := table + One(v);
        code, bit := code + v + 1, !bit;
        i := i + 1;
      }
    }
    AllDone(buf, i, table, code, bit);
    assert buf[i..] == [] && MarksFit([], |table|, bit, blockEnd) by { NothingFits(|table|, bit, blockEnd); }
    if addIndex {
      LastMark(table, index, marks, code);
      index := index + Bytes24(code);
    }
  }

  /** The lookup in a table that has been built, by its index, and the intervals of the plain scan give the property back. */
  method BuildThenLook(prop: seq<bool>, c: U32) returns (ok: bool, r: bool)
    requires |prop| <= CODE_POINTS
    ensures ok ==> (r <==> c < |prop| && prop[c])
  {
    hide In, Flatten, Within, Intervals, Member, EndCode, PassesBy, Le24, Whole, GoodIndex, MarksFit, RunsOf, AllFit;
    var table, index;
    ghost var rs;
    ok, table, index, rs := BuildPropTable(prop, true);
    r := false;
    if ok {
      WithinIsMember(table, 0, 0, false, c);
      WithinIsIn(Intervals(table, 0, 0, false), c);
      r := IsInTable(c, table, index, |index| / 3);
    }
  }
}
