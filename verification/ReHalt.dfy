/** Every run halts, also one that starts between the halves of a surrogate pair. Only that untouched start splits a
    pair: whatever moves lands outside of one, and from there the correctness theorem takes over. */
module ReHalt {
  import opened Optional
  import opened ReChars
  import opened ReCode
  import opened ReInput
  import opened ReMatch
  import opened ReVM
  import opened ReCompile
  import opened ReEnum
  import opened ReMoves
  import opened ReSimple
  import opened ReGreedy
  import opened ReParts
  import opened ReLook
  import opened ReLoops
  import opened ReCorrect
  import opened ReProgram

  /** A start between the halves of a pair, with room for the captures. */
  predicate Between(c: Ctx, x: X, caps: nat) {
    x.pos <= |c.units| && MidPair(c, x.pos) && 2 * caps <= |x.caps|
  }

  /** A result that is still at the start, or outside of any pair; a strict one has moved. */
  predicate Leaves(c: Ctx, x: X, r: X, strict: bool) {
    && |r.caps| == |x.caps| && r.pos <= |c.units|
    && (!MidPair(c, r.pos) || (!strict && r.pos == x.pos))
  }

  ghost predicate AllLeave(c: Ctx, x: X, rs: seq<X>, strict: bool) {
    forall j :: 0 <= j < |rs| ==> Leaves(c, x, rs[j], strict)
  }

  /** From `y` the code delivers finitely many results, and all of them leave `x` or stay there. */
  ghost predicate Ends(code: seq<byte>, c: Ctx, pc: int, stack: seq<int>, y: X, exit: int, stack2: seq<int>, x: X,
                       strict: bool) {
    exists rs :: Cont(code, c, pc, stack, y, exit, stack2, rs) && AllLeave(c, x, rs, strict)
  }

  lemma EndsIntro(code: seq<byte>, c: Ctx, pc: int, stack: seq<int>, y: X, exit: int, stack2: seq<int>, x: X,
                  strict: bool, rs: seq<X>)
    requires Cont(code, c, pc, stack, y, exit, stack2, rs) && AllLeave(c, x, rs, strict)
    ensures Ends(code, c, pc, stack, y, exit, stack2, x, strict)
  {
    hide Cont, AllLeave;
  }

  lemma EndsList(code: seq<byte>, c: Ctx, pc: int, stack: seq<int>, y: X, exit: int, stack2: seq<int>, x: X,
                 strict: bool) returns (rs: seq<X>)
    requires Ends(code, c, pc, stack, y, exit, stack2, x, strict)
    ensures Cont(code, c, pc, stack, y, exit, stack2, rs) && AllLeave(c, x, rs, strict)
  {
    hide Cont, AllLeave;
    rs :| Cont(code, c, pc, stack, y, exit, stack2, rs) && AllLeave(c, x, rs, strict);
  }

  lemma {:induction false} ConcatLeaves(c: Ctx, x: X, fs: seq<seq<X>>, strict: bool)
    requires forall j :: 0 <= j < |fs| ==> AllLeave(c, x, fs[j], strict)
    ensures AllLeave(c, x, Concat(fs), strict)
  {
    if fs != [] {
      ConcatLeaves(c, x, fs[1..], strict);
      assert AllLeave(c, x, fs[0], strict);
    }
  }

  /** One list of results for each start. */
  lemma {:induction false} Collect(code: seq<byte>, c: Ctx, pc: int, stack: seq<int>, ys: seq<X>, exit: int,
                                   stack2: seq<int>, x: X, strict: bool) returns (fs: seq<seq<X>>)
    requires forall j :: 0 <= j < |ys| ==> Ends(code, c, pc, stack, ys[j], exit, stack2, x, strict)
    ensures |fs| == |ys|
    ensures forall j :: 0 <= j < |ys| ==>
      Cont(code, c, pc, stack, ys[j], exit, stack2, fs[j]) && AllLeave(c, x, fs[j], strict)
    decreases |ys|
  {
    hide Cont, AllLeave, Ends;
    if ys == [] {
      fs := [];
    } else {
      var rs := EndsList(code, c, pc, stack, ys[0], exit, stack2, x, strict);
      var rest := Collect(code, c, pc, stack, ys[1..], exit, stack2, x, strict);
      fs := [rs] + rest;
    }
  }

  /** First one piece of code, then another one from each of its results. */
  lemma EndsThen(code: seq<byte>, c: Ctx, pc: int, stack: seq<int>, y: X, mid: int, stack1: seq<int>, ys: seq<X>,
                 exit: int, stack2: seq<int>, x: X, strict: bool)
    requires Cont(code, c, pc, stack, y, mid, stack1, ys)
    requires forall j :: 0 <= j < |ys| ==> Ends(code, c, mid, stack1, ys[j], exit, stack2, x, strict)
    ensures Ends(code, c, pc, stack, y, exit, stack2, x, strict)
  {
    hide Cont, AllLeave, Ends, Concat;
    var fs := Collect(code, c, mid, stack1, ys, exit, stack2, x, strict);
    ContThen(code, c, pc, stack, y, mid, stack1, ys, exit, stack2, fs);
    ConcatLeaves(c, x, fs, strict);
    EndsIntro(code, c, pc, stack, y, exit, stack2, x, strict, Concat(fs));
  }

  lemma AppendLeaves(c: Ctx, x: X, rs: seq<X>, ts: seq<X>, strict: bool)
    requires AllLeave(c, x, rs, strict) && AllLeave(c, x, ts, strict)
    ensures AllLeave(c, x, rs + ts, strict)
  {
  }

  lemma StaysLeaves(c: Ctx, x: X)
    requires x.pos <= |c.units|
    ensures AllLeave(c, x, [x], false) && AllLeave(c, x, [], true) && AllLeave(c, x, [], false)
  {
  }

  lemma OneLeaves(c: Ctx, x: X, y: X, strict: bool)
    requires Leaves(c, x, y, strict)
    ensures AllLeave(c, x, [y], strict)
  {
  }

  /** Leaving strictly is leaving. */
  lemma LooseLeaves(c: Ctx, x: X, rs: seq<X>, strict: bool)
    requires AllLeave(c, x, rs, true)
    ensures AllLeave(c, x, rs, strict)
  {
  }

  lemma LooseEnds(code: seq<byte>, c: Ctx, pc: int, stack: seq<int>, y: X, exit: int, stack2: seq<int>, x: X, strict: bool)
    requires Ends(code, c, pc, stack, y, exit, stack2, x, true)
    ensures Ends(code, c, pc, stack, y, exit, stack2, x, strict)
  {
    hide Cont, AllLeave, Ends;
    var rs := EndsList(code, c, pc, stack, y, exit, stack2, x, true);
    LooseLeaves(c, x, rs, strict);
    EndsIntro(code, c, pc, stack, y, exit, stack2, x, strict, rs);
  }

  /** Results that the reference matcher has from outside of pairs are outside of pairs. */
  lemma SettledLeaves(c: Ctx, back: bool, x: X, y: X, rs: seq<X>, strict: bool)
    requires y.pos <= |c.units| && !MidPair(c, y.pos) && |y.caps| == |x.caps|
    requires forall j :: 0 <= j < |rs| ==> After(c, back, y, rs[j])
    ensures AllLeave(c, x, rs, strict)
  {
  }

  lemma RepSettled(c: Ctx, b: Node, k: nat, back: bool, greedy: bool, min: nat, max: nat, x: X, y: X, strict: bool)
    requires y.pos <= |c.units| && !MidPair(c, y.pos) && |y.caps| == |x.caps|
    ensures AllLeave(c, x, Rep(c, b, k, back, greedy, min, max, y), strict)
  {
    hide MidPair;
    var rs := Rep(c, b, k, back, greedy, min, max, y);
    hide Rep;
    forall j | 0 <= j < |rs| ensures After(c, back, y, rs[j]) {
      assert rs[j] in rs;
    }
    SettledLeaves(c, back, x, y, rs, strict);
  }

  // ---- what is to be shown of a pattern ----

  ghost predicate Live(code: seq<byte>, c: Ctx, n: Node, k: nat, back: bool) {
    forall pc: int, stack: seq<int>, x: X :: LiveAt(code, c, n, k, back, pc, stack, x)
  }

  ghost predicate LiveAt(code: seq<byte>, c: Ctx, n: Node, k: nat, back: bool, pc: int, stack: seq<int>, x: X) {
    Placed(code, pc, Asm(n, k, back)) && Between(c, x, k + Caps(n)) ==>
      Ends(code, c, pc, stack, x, pc + Len(Asm(n, k, back)), stack, x, !NeedCheckAdvance(Asm(n, k, back)))
  }

  lemma UseLive(code: seq<byte>, c: Ctx, n: Node, k: nat, back: bool, pc: int, stack: seq<int>, x: X)
    requires Live(code, c, n, k, back) && Placed(code, pc, Asm(n, k, back)) && Between(c, x, k + Caps(n))
    ensures Ends(code, c, pc, stack, x, pc + Len(Asm(n, k, back)), stack, x, !NeedCheckAdvance(Asm(n, k, back)))
  {
    hide Placed, Ends, Asm, NeedCheckAdvance;
    assert LiveAt(code, c, n, k, back, pc, stack, x);
  }

  /** Everything known of a pattern: what it does outside of pairs, and that it ends from between the halves of one. */
  ghost predicate Known(code: seq<byte>, c: Ctx, n: Node, k: nat, back: bool) {
    Right(code, c, n, k, back) && Live(code, c, n, k, back)
  }

  /** From a result of something before it, which left `x` or is still there, the pattern ends. */
  lemma EndsAfter(code: seq<byte>, c: Ctx, n: Node, k: nat, back: bool, pc: int, stack: seq<int>, x: X, y: X,
                  strict: bool, first: bool)
    requires Known(code, c, n, k, back) && Placed(code, pc, Asm(n, k, back)) && Between(c, x, k + Caps(n))
    requires Leaves(c, x, y, first) && (strict ==> first || !NeedCheckAdvance(Asm(n, k, back)))
    ensures Ends(code, c, pc, stack, y, pc + Len(Asm(n, k, back)), stack, x, strict)
  {
    hide Right, Live, Placed, Ends, Asm, NeedCheckAdvance, Cont, Results, AllLeave, MidPair;
    var exit := pc + Len(Asm(n, k, back));
    if MidPair(c, y.pos) {
      UseLive(code, c, n, k, back, pc, stack, y);
      var strict' := !NeedCheckAdvance(Asm(n, k, back));
      var rs := EndsList(code, c, pc, stack, y, exit, stack, y, strict');
      SameStart(c, x, y, rs, strict', strict);
      EndsIntro(code, c, pc, stack, y, exit, stack, x, strict, rs);
    } else {
      UseRight(code, c, n, k, back, pc, stack, y);
      SettledLeaves(c, back, x, y, Results(c, n, k, back, y), strict);
      EndsIntro(code, c, pc, stack, y, exit, stack, x, strict, Results(c, n, k, back, y));
    }
  }

  lemma SameStart(c: Ctx, x: X, y: X, rs: seq<X>, was: bool, strict: bool)
    requires AllLeave(c, y, rs, was) && y.pos == x.pos && |y.caps| == |x.caps| && (strict ==> was)
    ensures AllLeave(c, x, rs, strict)
  {
    hide MidPair;
    forall j | 0 <= j < |rs| ensures Leaves(c, x, rs[j], strict) {
      assert Leaves(c, y, rs[j], was);
    }
  }

  // ---- single characters and assertions ----

  /** From between the halves the character before is the first half; reading forward again takes the whole pair. */
  lemma BackFromBetween(c: Ctx, p: nat)
    requires p <= |c.units| && MidPair(c, p)
    ensures GetPrevChar(c, p, 0).1 == p - 1 && !MidPair(c, p - 1)
    ensures GetChar(c, p - 1, |c.units|).1 == p + 1 && GetPrevChar(c, p + 1, 0).1 == p - 1
    ensures GetChar(c, p, |c.units|).1 == p + 1 && !MidPair(c, p + 1)
  {
  }

  lemma CharEnds(code: seq<byte>, c: Ctx, n: Node, k: nat, back: bool, pc: int, stack: seq<int>, x: X)
    requires IsCharNode(n) && ValidNode(n) && ValidCtx(c) && Between(c, x, k)
    requires Placed(code, pc, Asm(n, k, back))
    ensures Ends(code, c, pc, stack, x, pc + Len(Asm(n, k, back)), stack, x, true)
  {
    hide Cont, Ends, CharNodeInstr, ValidCtx, ValidNode, Decode, CharResults, MidPair;
    var i := CharNodeInstr(n);
    assert Asm(n, k, back) == Backward(back, i);
    SimpleSingle(i);
    if back {
      LenThree(Prev, [i], Prev);
      assert [Prev] + [i] + [Prev] == [Prev, i, Prev];
      BackwardEnds(code, c, pc, stack, x, n);
    } else {
      assert [i] == [i] + [];
      PlacedHead(code, pc, i, []);
      ForwardChar(code, c, pc, stack, x, n);
      CharResultsLeave(c, n, x);
      EndsIntro(code, c, pc, stack, x, pc + Size(i), stack, x, true, CharResults(c, n, false, x));
    }
  }

  lemma CharResultsLeave(c: Ctx, n: Node, x: X)
    requires x.pos <= |c.units|
    ensures AllLeave(c, x, CharResults(c, n, false, x), true)
  {
    hide Accepts;
  }

  lemma BackwardEnds(code: seq<byte>, c: Ctx, pc: int, stack: seq<int>, x: X, n: Node)
    requires IsCharNode(n) && ValidNode(n) && ValidCtx(c) && x.pos <= |c.units| && MidPair(c, x.pos)
    requires Placed(code, pc, [Prev, CharNodeInstr(n), Prev])
    ensures Ends(code, c, pc, stack, x, pc + 2 + Size(CharNodeInstr(n)), stack, x, true)
  {
    hide Decode, Cont, CharNodeInstr, ValidCtx, ValidNode, Accepts, Placed, GetPrevChar, GetChar, AllLeave, Ends;
    var i := CharNodeInstr(n);
    assert [Prev, i, Prev] == [Prev] + [i, Prev] && [i, Prev] == [i] + [Prev] && [Prev] == [Prev] + [];
    PlacedHead(code, pc, Prev, [i, Prev]);
    PlacedHead(code, pc + 1, i, [Prev]);
    PlacedHead(code, pc + 1 + Size(i), Prev, []);
    BackFromBetween(c, x.pos);
    var exit := pc + 2 + Size(i);
    var y := X(x.pos - 1, x.caps);
    var ys := CharResults(c, n, false, y);
    ForwardChar(code, c, pc + 1, stack, y, n);
    ForwardOnly(c, n, y);
    var rs := if ys == [] then [] else [y];
    if ys == [] {
      ContThen(code, c, pc + 1, stack, y, pc + 1 + Size(i), stack, ys, exit, stack, []);
    } else {
      ContHere(code, c, exit, stack, y);
      PrevStep(code, c, pc + 1 + Size(i), stack, ys[0], exit, stack, [y]);
      ConcatOne([y]);
      ContThen(code, c, pc + 1, stack, y, pc + 1 + Size(i), stack, ys, exit, stack, [[y]]);
    }
    PrevStep(code, c, pc, stack, x, exit, stack, rs);
    StaysLeaves(c, x);
    OneLeaves(c, x, y, true);
    EndsIntro(code, c, pc, stack, x, exit, stack, x, true, rs);
  }

  lemma ForwardOnly(c: Ctx, n: Node, x: X)
    requires x.pos < |c.units|
    ensures var rs := CharResults(c, n, false, x);
            rs == [] || rs == [X(GetChar(c, x.pos, |c.units|).1, x.caps)]
  {
    hide Accepts;
  }

  lemma BackRefLeaves(c: Ctx, i: nat, back: bool, x: X)
    requires x.pos <= |c.units|
    ensures AllLeave(c, x, BackRefResults(c, i, back, x), false)
  {
  }

  lemma SingleEnds(code: seq<byte>, c: Ctx, n: Node, k: nat, back: bool, pc: int, stack: seq<int>, x: X)
    requires (n.LineStart? || n.LineEnd? || n.WordBoundary? || n.BackRef?) && x.pos <= |c.units|
    requires Placed(code, pc, Asm(n, k, back))
    ensures Ends(code, c, pc, stack, x, pc + Len(Asm(n, k, back)), stack, x, false)
  {
    hide Cont, Ends, Decode, AtLineStart, AtLineEnd, AtWordBoundary, BackRefResults, AllLeave, EndsLine, InWord;
    AssertionsAre(c, x.pos);
    var f, rs := Asm(n, k, back), Results(c, n, k, back, x);
    assert f == [f[0]] + [];
    PlacedHead(code, pc, f[0], []);
    SimpleSingle(f[0]);
    if n.BackRef? {
      BackRefCorrect(code, c, pc, stack, x, n.i, back);
      BackRefLeaves(c, n.i, back, x);
    } else {
      AssertionCorrect(code, c, pc, stack, x, f[0], rs);
      StaysLeaves(c, x);
    }
    EndsIntro(code, c, pc, stack, x, pc + Len(f), stack, x, false, rs);
  }

  // ---- constructs ----

  lemma MarkedLeaves(c: Ctx, x: X, y: X, r: X, i: nat, strict: bool)
    requires y == Mark(x, i) && Leaves(c, y, r, strict)
    ensures forall j: nat :: Leaves(c, x, Mark(r, j), strict)
  {
    hide MidPair;
  }

  lemma GroupNeed(f: seq<Instr>, k: nat, back: bool)
    ensures NeedCheckAdvance([Save(k, back)] + f + [Save(k, !back)]) == NeedCheckAdvance(f)
  {
    hide AllPredictable, SomeMoves;
    PredictableConcat([Save(k, back)], f);
    PredictableConcat([Save(k, back)] + f, [Save(k, !back)]);
    SingleMoves(Save(k, back));
    SingleMoves(Save(k, !back));
  }

  lemma SaveEnds(code: seq<byte>, c: Ctx, pc: int, stack: seq<int>, y: X, k: nat, end: bool, x: X, strict: bool)
    requires Decode(code, pc) == Some(Save(k, end)) && y.pos <= |c.units| && 2 * k + 1 < |y.caps|
    requires Leaves(c, x, Mark(y, Slot(k, end)), strict)
    ensures Ends(code, c, pc, stack, y, pc + 2, stack, x, strict)
  {
    hide Cont, Ends, AllLeave, Decode, Slot, Leaves;
    var r := Mark(y, Slot(k, end));
    SaveStep(code, c, pc, stack, y, k, end);
    ContOne(code, c, pc, stack, y, pc + 2, stack, r);
    OneLeaves(c, x, r, strict);
    EndsIntro(code, c, pc, stack, y, pc + 2, stack, x, strict, [r]);
  }

  lemma GroupEnds(code: seq<byte>, c: Ctx, b: Node, k: nat, back: bool, pc: int, stack: seq<int>, x: X)
    requires Live(code, c, b, k + 1, back)
    requires Placed(code, pc, Asm(Group(b), k, back)) && Between(c, x, k + Caps(Group(b)))
    ensures Ends(code, c, pc, stack, x, pc + Len(Asm(Group(b), k, back)), stack, x, !NeedCheckAdvance(Asm(Group(b), k, back)))
  {
    hide Live, Placed, Asm, Cont, Results, Len, Slot, SetAll, Ends, AllLeave, NeedCheckAdvance, Leaves, MidPair;
    GroupShape(c, b, k, back, x);
    var f := Asm(b, k + 1, back);
    var first, last := Save(k, back), Save(k, !back);
    assert [first] + f + [last] == [first] + (f + [last]) && [last] == [last] + [];
    assert Size(first) == 2 && Size(last) == 2;
    PlacedHead(code, pc, first, f + [last]);
    PlacedConcat(code, pc + 2, f, [last]);
    PlacedHead(code, pc + 2 + Len(f), last, []);
    LenThree(first, f, last);
    GroupNeed(f, k, back);
    var enter := Mark(x, Slot(k, back));
    var strict, mid, exit := !NeedCheckAdvance(f), pc + 2 + Len(f), pc + 4 + Len(f);
    UseLive(code, c, b, k + 1, back, pc + 2, stack, enter);
    var rs := EndsList(code, c, pc + 2, stack, enter, mid, stack, enter, strict);
    forall j | 0 <= j < |rs| ensures Ends(code, c, mid, stack, rs[j], exit, stack, x, strict) {
      LeavesAt(c, enter, rs, strict, j);
      MarkedLeaves(c, x, enter, rs[j], Slot(k, back), strict);
      SaveEnds(code, c, mid, stack, rs[j], k, !back, x, strict);
    }
    EndsThen(code, c, pc + 2, stack, enter, mid, stack, rs, exit, stack, x, strict);
    var out := EndsList(code, c, pc + 2, stack, enter, exit, stack, x, strict);
    SaveStep(code, c, pc, stack, x, k, back);
    ContStep(code, c, pc, stack, x, pc + 2, stack, enter, exit, stack, out);
    EndsIntro(code, c, pc, stack, x, exit, stack, x, strict, out);
  }

  lemma LeavesAt(c: Ctx, x: X, rs: seq<X>, strict: bool, j: nat)
    requires AllLeave(c, x, rs, strict) && j < |rs|
    ensures Leaves(c, x, rs[j], strict) && rs[j].pos <= |c.units| && |rs[j].caps| == |x.caps|
    ensures strict ==> !MidPair(c, rs[j].pos)
  {
    hide MidPair;
  }

  lemma LookNeed(negated: bool, off: int, f: seq<Instr>)
    ensures NeedCheckAdvance([LookInstr(negated, off)] + f)
  {
  }

  lemma LookEnds(code: seq<byte>, c: Ctx, b: Node, negated: bool, behind: bool, k: nat, back: bool, pc: int,
                 stack: seq<int>, x: X)
    requires Live(code, c, b, k, behind)
    requires Placed(code, pc, Asm(Look(negated, behind, b), k, back)) && Between(c, x, k + Caps(Look(negated, behind, b)))
    ensures Ends(code, c, pc, stack, x, pc + Len(Asm(Look(negated, behind, b), k, back)), stack, x,
                 !NeedCheckAdvance(Asm(Look(negated, behind, b), k, back)))
  {
    hide Live, Placed, Asm, Results, Len, Enum, LookOutcome, Ends, AllLeave, NeedCheckAdvance, Decode, At, Cont, MidPair;
    LookShape(c, b, negated, behind, k, back, x);
    var f := Asm(b, k, behind);
    var i := LookInstr(negated, Len(f) + 1);
    assert [i] + f + [Match] == [i] + (f + [Match]) && [Match] == [Match] + [];
    PlacedHead(code, pc, i, f + [Match]);
    PlacedConcat(code, pc + 5, f, [Match]);
    PlacedHead(code, pc + 5 + Len(f), Match, []);
    LenThree(i, f, Match);
    LookNeed(negated, Len(f) + 1, f + [Match]);
    UseLive(code, c, b, k, behind, pc + 5, stack, x);
    var rs := EndsList(code, c, pc + 5, stack, x, pc + 5 + Len(f), stack, x, !NeedCheckAdvance(f));
    if rs != [] {
      LeavesAt(c, x, rs, !NeedCheckAdvance(f), 0);
    }
    var exit, out := pc + 6 + Len(f), LookOutcome(negated, x, rs);
    LookEverywhere(code, c, pc, stack, x, negated, Len(f) + 1, rs, exit, out);
    OutcomeLeaves(c, negated, x, rs);
    EndsIntro(code, c, pc, stack, x, exit, stack, x, false, out);
  }

  lemma OutcomeLeaves(c: Ctx, negated: bool, x: X, rs: seq<X>)
    requires x.pos <= |c.units| && (rs != [] ==> |rs[0].caps| == |x.caps|)
    ensures AllLeave(c, x, LookOutcome(negated, x, rs), false)
  {
    hide MidPair;
  }

  lemma CatNeed(f: seq<Instr>, g: seq<Instr>)
    requires !NeedCheckAdvance(f + g)
    ensures !NeedCheckAdvance(f) || !NeedCheckAdvance(g)
  {
    hide AllPredictable, SomeMoves;
    PredictableConcat(f, g);
  }

  lemma CatEnds(code: seq<byte>, c: Ctx, a: Node, b: Node, k: nat, back: bool, pc: int, stack: seq<int>, x: X)
    requires Known(code, c, a, k, back) && Known(code, c, b, k + Caps(a), back)
    requires Placed(code, pc, Asm(Cat(a, b), k, back)) && Between(c, x, k + Caps(Cat(a, b)))
    ensures Ends(code, c, pc, stack, x, pc + Len(Asm(Cat(a, b), k, back)), stack, x, !NeedCheckAdvance(Asm(Cat(a, b), k, back)))
  {
    hide Right, Live, Placed, Asm, Cont, Results, Len, Ends, AllLeave, NeedCheckAdvance, MidPair;
    var n1, k1, n2, k2 := First(a, b, back), FirstCap(a, k, back), Second(a, b, back), SecondCap(a, k, back);
    var f, g := Asm(n1, k1, back), Asm(n2, k2, back);
    CatAsm(a, b, k, back);
    PlacedConcat(code, pc, f, g);
    LenConcat(f, g);
    var mid, exit := pc + Len(f), pc + Len(f) + Len(g);
    var first, strict := !NeedCheckAdvance(f), !NeedCheckAdvance(f + g);
    if strict { CatNeed(f, g); }
    UseLive(code, c, n1, k1, back, pc, stack, x);
    var xs := EndsList(code, c, pc, stack, x, mid, stack, x, first);
    forall j | 0 <= j < |xs| ensures Ends(code, c, mid, stack, xs[j], exit, stack, x, strict) {
      LeavesAt(c, x, xs, first, j);
      EndsAfter(code, c, n2, k2, back, mid, stack, x, xs[j], strict, first);
    }
    EndsThen(code, c, pc, stack, x, mid, stack, xs, exit, stack, x, strict);
  }

  lemma SplitNeed(off: int, f: seq<Instr>)
    ensures NeedCheckAdvance([SplitNextFirst(off)] + f)
  {
  }

  /** The tail of a list of results is what a jump leaves of it. */
  lemma AltEnds(code: seq<byte>, c: Ctx, a: Node, b: Node, k: nat, back: bool, pc: int, stack: seq<int>, x: X)
    requires Live(code, c, a, k, back) && Live(code, c, b, k + Caps(a), back)
    requires Placed(code, pc, Asm(Alt(a, b), k, back)) && Between(c, x, k + Caps(Alt(a, b)))
    ensures Ends(code, c, pc, stack, x, pc + Len(Asm(Alt(a, b), k, back)), stack, x, !NeedCheckAdvance(Asm(Alt(a, b), k, back)))
  {
    hide Live, Placed, Asm, Cont, Results, Len, Ends, AllLeave, NeedCheckAdvance, MidPair;
    AltAsm(a, b, k, back);
    var f, g := Asm(a, k, back), Asm(b, k + Caps(a), back);
    var split, goto := SplitNextFirst(Len(f) + 5), Goto(Len(g));
    var second, exit := pc + 10 + Len(f), pc + 10 + Len(f) + Len(g);
    assert [split] + f + [goto] + g == [split] + (f + ([goto] + g));
    PlacedHead(code, pc, split, f + ([goto] + g));
    PlacedConcat(code, pc + 5, f, [goto] + g);
    PlacedHead(code, pc + 5 + Len(f), goto, g);
    LenFour(split, f, goto, g);
    SplitNeed(Len(f) + 5, f + ([goto] + g));
    UseLive(code, c, a, k, back, pc + 5, stack, x);
    UseLive(code, c, b, k + Caps(a), back, second, stack, x);
    var s1, s2 := !NeedCheckAdvance(f), !NeedCheckAdvance(g);
    var rs := EndsList(code, c, pc + 5, stack, x, pc + 5 + Len(f), stack, x, s1);
    var ts := EndsList(code, c, second, stack, x, exit, stack, x, s2);
    forall j | 0 <= j < |rs| ensures rs[j].pos <= |c.units| {
      LeavesAt(c, x, rs, s1, j);
    }
    ContThenGoto(code, c, pc + 5, stack, x, pc + 5 + Len(f), stack, rs, Len(g));
    ContSplitNext(code, c, pc, stack, x, Len(f) + 5, exit, stack, rs, ts);
    LoosenLeaves(c, x, rs, s1);
    LoosenLeaves(c, x, ts, s2);
    AppendLeaves(c, x, rs, ts, false);
    EndsIntro(code, c, pc, stack, x, exit, stack, x, false, rs + ts);
  }

  lemma LoosenLeaves(c: Ctx, x: X, rs: seq<X>, strict: bool)
    requires AllLeave(c, x, rs, strict)
    ensures AllLeave(c, x, rs, false)
  {
    hide MidPair;
  }

  // ---- the optimised quantifier ----

  /** `n` characters forward; -1 when the end is in the way. */
  function Forth(c: Ctx, p: nat, n: nat): (r: int)
    requires p <= |c.units|
    ensures r == -1 || p <= r <= |c.units|
    ensures n > 0 && r >= 0 ==> p < r && !MidPair(c, r)
    decreases n
  {
    if n == 0 then p
    else if p == |c.units| then -1
    else Forth(c, GetChar(c, p, |c.units|).1, n - 1)
  }

  /** From a position that splits no pair, going forth and back again returns to it. */
  lemma {:induction false} BackForth(c: Ctx, p: nat, n: nat)
    requires p <= |c.units| && !MidPair(c, p) && Forth(c, p, n) >= 0
    ensures Back(c, Forth(c, p, n), n) == p
    decreases n
  {
    if n > 0 {
      var q := GetChar(c, p, |c.units|).1;
      ForwardThenBack(c, p);
      hide GetChar, GetPrevChar, MidPair;
      BackForth(c, q, n - 1);
      var r := Forth(c, p, n);
      BackAdd(c, r, n - 1, 1);
      assert Back(c, q, 1) == Back(c, p, 0);
    }
  }

  /** From between the halves, going forth and back ends before the pair. */
  lemma BackForthBetween(c: Ctx, p: nat, n: nat)
    requires p <= |c.units| && MidPair(c, p) && n > 0 && Forth(c, p, n) >= 0
    ensures Back(c, Forth(c, p, n), n) == p - 1
  {
    BackFromBetween(c, p);
    assert Forth(c, p - 1, n) == Forth(c, p + 1, n - 1) == Forth(c, p, n);
    BackForth(c, p - 1, n);
  }

  predicate Testable(f: seq<Instr>) {
    f != [] ==> (Moves(f[0]) ==> IsCharOp(f[0])) && Testable(f[1..])
  }

  lemma {:induction false} TestableConcat(f: seq<Instr>, g: seq<Instr>)
    ensures Testable(f + g) <==> Testable(f) && Testable(g)
  {
    if f == [] {
      assert f + g == g;
    } else {
      assert (f + g)[1..] == f[1..] + g;
      TestableConcat(f[1..], g);
    }
  }

  /** A body the optimised opcode takes contains only tests the nested run can perform. */
  lemma {:induction false} AsmTestable(n: Node, k: nat, back: bool)
    requires ValidNode(n) && SimpleCount(Asm(n, k, back)) >= 0
    ensures Testable(Asm(n, k, back))
    decreases n, 1
  {
    match n {
      case Cat(a, b) =>
        hide Asm, SimpleCount, Testable;
        var f, g := Asm(First(a, b, back), FirstCap(a, k, back), back), Asm(Second(a, b, back), SecondCap(a, k, back), back);
        CatAsm(a, b, k, back);
        SimpleConcat(f, g);
        AsmTestable(First(a, b, back), FirstCap(a, k, back), back);
        AsmTestable(Second(a, b, back), SecondCap(a, k, back), back);
        TestableConcat(f, g);
      case Quant(b, min, max, greedy) => QuantTestable(b, min, max, greedy, k, back);
      case Group(_) =>
      case Look(_, _, _) =>
      case Alt(_, _) =>
      case _ => LeafTestable(n, k, back);
    }
  }

  lemma {:induction false} QuantTestable(b: Node, min: nat, max: nat, greedy: bool, k: nat, back: bool)
    requires ValidNode(Quant(b, min, max, greedy)) && SimpleCount(Asm(Quant(b, min, max, greedy), k, back)) >= 0
    ensures Testable(Asm(Quant(b, min, max, greedy), k, back))
    decreases Quant(b, min, max, greedy), 0
  {
    hide Asm, SimpleCount, QuantCode;
    var f, reset := Asm(b, k, back), Reset(k, Caps(b));
    QuantAsm(b, min, max, greedy, k, back);
    QuantTransparent(f, min, max, greedy, reset);
    if min == 0 {
      NoReset(k, Caps(b));
    } else {
      AsmTestable(b, k, back);
    }
  }

  lemma LeafTestable(n: Node, k: nat, back: bool)
    requires ValidNode(n) && SimpleCount(Asm(n, k, back)) >= 0
    requires n.Empty? || IsCharNode(n) || n.LineStart? || n.LineEnd? || n.WordBoundary? || n.BackRef?
    ensures Testable(Asm(n, k, back))
  {
  }

  lemma InnerStep(code: seq<byte>, c: Ctx, i: Instr, pc: int, p: nat)
    requires Decode(code, pc) == Some(i) && p <= |c.units|
    requires if Moves(i) then IsCharOp(i) else i.LineStart? || i.LineEnd? || i.WordBoundary? || i.NotWordBoundary?
    ensures InnerRun(code, c, pc, p) == NoMatch
         || (Moves(i) && p < |c.units|
             && InnerRun(code, c, pc, p) == InnerRun(code, c, pc + Size(i), GetChar(c, p, |c.units|).1))
         || (!Moves(i) && InnerRun(code, c, pc, p) == InnerRun(code, c, pc + Size(i), p))
  {
    hide Decode, CharTest, AtLineStart, AtLineEnd, AtWordBoundary, GetChar, Size;
  }

  /** From anywhere the nested run either fails or takes its fixed number of characters. */
  lemma {:induction false} InnerForth(code: seq<byte>, c: Ctx, f: seq<Instr>, pc: int, p: nat)
    requires Placed(code, pc, f) && Decode(code, pc + Len(f)) == Some(Match) && Testable(f) && SimpleCount(f) >= 0
    requires p <= |c.units|
    ensures InnerRun(code, c, pc, p) == NoMatch
         || (Forth(c, p, SimpleCount(f)) >= 0 && InnerRun(code, c, pc, p) == Go(Forth(c, p, SimpleCount(f))))
    decreases f
  {
    hide Decode, InnerRun, GetChar, MidPair, IsCharOp, Size;
    if f == [] {
      MatchEnds(code, c, pc, p);
    } else {
      assert f == [f[0]] + f[1..];
      PlacedHead(code, pc, f[0], f[1..]);
      InnerStep(code, c, f[0], pc, p);
      if Moves(f[0]) {
        if p < |c.units| {
          InnerForth(code, c, f[1..], pc + Size(f[0]), GetChar(c, p, |c.units|).1);
        }
      } else {
        InnerForth(code, c, f[1..], pc + Size(f[0]), p);
      }
    }
  }

  /** The captures stay, and only a chain that never moved is between the halves of a pair. */
  ghost predicate Landed(c: Ctx, x: X, ch: seq<X>) {
    forall j :: 0 <= j < |ch| ==> LandedAt(c, x, ch[j], ch == [x])
  }

  predicate LandedAt(c: Ctx, x: X, r: X, still: bool) {
    r.pos <= |c.units| && r.caps == x.caps && (still || !MidPair(c, r.pos))
  }

  /** The runs of the body from between the halves, the first one replaced by what giving it back leads to. */
  lemma IterateBetween(code: seq<byte>, c: Ctx, b: Node, k: nat, back: bool, pc: int, x: X, max: nat, count: nat)
    returns (ch: seq<X>)
    requires SimpleBody(code, c, b, k, back, pc) && Between(c, x, 0) && 0 < max <= INFINITE
    requires count == SimpleCount(Asm(b, k, back))
    ensures ch != [] && ch[0].caps == x.caps && Linked(c, ch, count)
    ensures Iterate(code, c, pc, x.pos, 0, max) == End(ch[|ch| - 1].pos, |ch| - 1)
    ensures Landed(c, x, ch)
  {
    hide InnerRun, Back, Asm, SimpleCount, Linked, Chain, Iterate, Forth, Placed, Decode, GetChar, ValidCtx, ValidNode, Len;
    AsmTestable(b, k, back);
    InnerForth(code, c, Asm(b, k, back), pc, x.pos);
    IterateStep(code, c, pc, x.pos, 0, max);
    if InnerRun(code, c, pc, x.pos).NoMatch? {
      ch := [x];
      LinkedOne(c, x, count);
    } else {
      ForthMoves(c, x.pos, count);
      BackForthBetween(c, x.pos, count);
      var y, x1 := X(x.pos - 1, x.caps), X(Forth(c, x.pos, count), x.caps);
      BackFromBetween(c, x.pos);
      var rest;
      if 1 >= max && max != INT32_MAX {
        rest := [x1];
        LinkedOne(c, x1, count);
      } else {
        rest := Chain(c, b, k, back, Dec(max), x1);
        IterateIsChain(code, c, b, k, back, pc, x1, 1, max, Dec(max), count, rest);
        ChainSettled(c, b, k, back, Dec(max), x1);
      }
      LinkedCons(c, y, rest, count);
      LastOfCons(y, rest);
      LinkedCaps(c, [y] + rest, count);
      ch := [y] + rest;
    }
  }

  lemma ForthMoves(c: Ctx, p: nat, n: nat)
    requires p <= |c.units| && n > 0 && Forth(c, p, n) >= 0
    ensures p < Forth(c, p, n) <= |c.units| && !MidPair(c, Forth(c, p, n))
  {
  }

  lemma LinkedCaps(c: Ctx, ch: seq<X>, count: nat)
    requires Linked(c, ch, count) && ch != []
    ensures forall j :: 0 <= j < |ch| ==> ch[j].pos <= |c.units| && ch[j].caps == ch[0].caps
  {
    hide Back;
    forall j | 0 <= j < |ch| ensures ch[j].pos <= |c.units| && ch[j].caps == ch[0].caps {
      assert LinkedAt(c, ch, count, j);
    }
  }

  lemma {:induction false} ChainSettled(c: Ctx, b: Node, k: nat, back: bool, max: nat, x: X)
    requires x.pos <= |c.units| && !MidPair(c, x.pos)
    ensures forall j :: 0 <= j < |Chain(c, b, k, back, max, x)| ==> !MidPair(c, Chain(c, b, k, back, max, x)[j].pos)
    decreases |c.units| - x.pos
  {
    hide MidPair;
    if max > 0 {
      var rs := Results(c, b, k, back, x);
      hide Results;
      if rs != [] && x.pos < rs[0].pos <= |c.units| {
        assert rs[0] in rs && After(c, back, x, rs[0]);
        ChainSettled(c, b, k, back, Dec(max), rs[0]);
      }
    }
  }

  lemma {:induction false} DownIn(ch: seq<X>, min: nat)
    ensures forall r :: r in Down(ch, min) ==> r in ch
  {
    if |ch| > min {
      DownIn(ch[..|ch| - 1], min);
    }
  }

  lemma DownLeaves(c: Ctx, x: X, ch: seq<X>, min: nat)
    requires x.pos <= |c.units| && Landed(c, x, ch)
    ensures AllLeave(c, x, Down(ch, min), false)
  {
    hide MidPair, Down;
    DownIn(ch, min);
    var rs := Down(ch, min);
    forall j | 0 <= j < |rs| ensures Leaves(c, x, rs[j], false) {
      assert rs[j] in rs && rs[j] in ch;
    }
  }

  lemma GreedyEnds(code: seq<byte>, c: Ctx, b: Node, k: nat, back: bool, pc: int, stack: seq<int>, x: X,
                   min: nat, max: nat)
    requires ValidCtx(c) && ValidNode(b) && Between(c, x, 0)
    requires min <= max <= INFINITE && max > 0 && SimpleCount(Asm(b, k, back)) > 0
    requires var f := Asm(b, k, back);
             Placed(code, pc, [SimpleGreedyQuant(Len(f) + 1, min, max, SimpleCount(f))] + f + [Match])
    ensures Ends(code, c, pc, stack, x, pc + 18 + Len(Asm(b, k, back)), stack, x, false)
  {
    hide Iterate, Linked, Cont, Chain, Asm, SimpleCount, Placed, ValidCtx, ValidNode, MidPair, Decode, Len, Down, AllLeave,
         Ends;
    var f := Asm(b, k, back);
    var i := SimpleGreedyQuant(Len(f) + 1, min, max, SimpleCount(f));
    assert [i] + f + [Match] == [i] + (f + [Match]);
    PlacedHead(code, pc, i, f + [Match]);
    PlacedConcat(code, pc + 17, f, [Match]);
    PlacedMatch(code, pc + 17 + Len(f));
    var ch := IterateBetween(code, c, b, k, back, pc + 17, x, max, SimpleCount(f));
    var exit := pc + 18 + Len(f);
    GreedyCont(code, c, pc, i, ch, stack, x, exit, Down(ch, min));
    DownLeaves(c, x, ch, min);
    EndsIntro(code, c, pc, stack, x, exit, stack, x, false, Down(ch, min));
  }

  // ---- loops ----

  /** One optional iteration: only what moved is left, outside of pairs. */
  lemma CheckedEnds(code: seq<byte>, c: Ctx, b: Node, k: nat, back: bool, pc: int, stack: seq<int>, x: X)
    requires Live(code, c, b, k, back) && Between(c, x, k + Caps(b))
    requires Placed(code, pc, Checked(Asm(b, k, back), NeedCheckAdvance(Asm(b, k, back))))
    ensures Ends(code, c, pc, stack, x, pc + Len(Checked(Asm(b, k, back), NeedCheckAdvance(Asm(b, k, back)))), stack, x, true)
  {
    hide Live, Placed, Asm, Cont, Len, NeedCheckAdvance, Moved, Ends, AllLeave, MidPair;
    var f := Asm(b, k, back);
    if NeedCheckAdvance(f) {
      assert [PushCharPos] + f + [CheckAdvance] == [PushCharPos] + (f + [CheckAdvance]);
      assert [CheckAdvance] == [CheckAdvance] + [];
      PlacedHead(code, pc, PushCharPos, f + [CheckAdvance]);
      PlacedConcat(code, pc + 1, f, [CheckAdvance]);
      PlacedHead(code, pc + 1 + Len(f), CheckAdvance, []);
      LenThree(PushCharPos, f, CheckAdvance);
      UseLive(code, c, b, k, back, pc + 1, stack + [x.pos], x);
      var rs := EndsList(code, c, pc + 1, stack + [x.pos], x, pc + 1 + Len(f), stack + [x.pos], x, false);
      forall j | 0 <= j < |rs| ensures rs[j].pos <= |c.units| {
        LeavesAt(c, x, rs, false, j);
      }
      CheckEnds(code, c, pc, stack, x, pc + 1 + Len(f), rs);
      MovedLeaves(c, x, rs);
      EndsIntro(code, c, pc, stack, x, pc + 2 + Len(f), stack, x, true, Moved(rs, x.pos));
    } else {
      UseLive(code, c, b, k, back, pc, stack, x);
    }
  }

  lemma MovedLeaves(c: Ctx, x: X, rs: seq<X>)
    requires AllLeave(c, x, rs, false)
    ensures AllLeave(c, x, Moved(rs, x.pos), true)
  {
    hide MidPair;
    var ms := Moved(rs, x.pos);
    hide Moved;
    forall j | 0 <= j < |ms| ensures Leaves(c, x, ms[j], true) {
      assert ms[j] in ms && ms[j] in rs;
    }
  }

  lemma SplitEnds(code: seq<byte>, c: Ctx, pc: int, stack: seq<int>, x: X, greedy: bool, off: int, exit: int,
                  stack2: seq<int>)
    requires x.pos <= |c.units| && Decode(code, pc) == Some(Split(greedy, off))
    requires Ends(code, c, pc + 5, stack, x, exit, stack2, x, true)
    requires Cont(code, c, pc + 5 + off, stack, x, exit, stack2, [x])
    ensures Ends(code, c, pc, stack, x, exit, stack2, x, false)
  {
    hide Cont, Decode, Ends, AllLeave;
    var more := EndsList(code, c, pc + 5, stack, x, exit, stack2, x, true);
    SplitOrder(code, c, pc, stack, x, greedy, off, exit, stack2, more);
    LooseLeaves(c, x, more, false);
    StaysLeaves(c, x);
    AppendLeaves(c, x, more, [x], false);
    AppendLeaves(c, x, [x], more, false);
    EndsIntro(code, c, pc, stack, x, exit, stack2, x, false, Order(greedy, more, x));
  }

  /** A result outside of pairs is a start of the correctness theorem. */
  lemma ReadyLeft(c: Ctx, x: X, y: X, caps: nat)
    requires Between(c, x, caps) && Leaves(c, x, y, true)
    ensures Ready(c, y, caps) && |y.caps| == |x.caps|
  {
    hide MidPair;
  }

  lemma GotoEnds(code: seq<byte>, c: Ctx, pc: int, stack: seq<int>, x: X, off: int, exit: int, stack2: seq<int>, rs: seq<X>)
    requires x.pos <= |c.units| && Decode(code, pc) == Some(Goto(off))
    requires Cont(code, c, pc + 5 + off, stack, x, exit, stack2, rs)
    ensures Cont(code, c, pc, stack, x, exit, stack2, rs)
  {
    hide Cont, Decode;
    ContStep(code, c, pc, stack, x, pc + 5 + off, stack, x, exit, stack2, rs);
  }

  lemma StarEnds(code: seq<byte>, c: Ctx, b: Node, k: nat, back: bool, greedy: bool, pc: int, stack: seq<int>, x: X,
                 g: seq<Instr>)
    requires Known(code, c, b, k, back) && ValidNode(b) && Between(c, x, k + Caps(b))
    requires g == Checked(Asm(b, k, back), NeedCheckAdvance(Asm(b, k, back))) && StarPlaced(code, g, greedy, pc)
    ensures Ends(code, c, pc, stack, x, pc + Len(g) + 10, stack, x, false)
  {
    hide Right, Live, Asm, Cont, Len, NeedCheckAdvance, Checked, Rep, Placed, Decode, ValidNode, Ends, AllLeave, MidPair;
    var mid, exit := pc + 5 + Len(g), pc + Len(g) + 10;
    CheckedEnds(code, c, b, k, back, pc + 5, stack, x);
    var ms := EndsList(code, c, pc + 5, stack, x, mid, stack, x, true);
    forall j | 0 <= j < |ms| ensures Ends(code, c, mid, stack, ms[j], exit, stack, x, true) {
      LeavesAt(c, x, ms, true, j);
      ReadyLeft(c, x, ms[j], k + Caps(b));
      StarCorrect(code, c, b, k, back, greedy, pc, stack, ms[j], g);
      var rs := Rep(c, b, k, back, greedy, 0, INFINITE, ms[j]);
      GotoEnds(code, c, mid, stack, ms[j], -(Len(g) + 10), exit, stack, rs);
      RepSettled(c, b, k, back, greedy, 0, INFINITE, x, ms[j], true);
      EndsIntro(code, c, mid, stack, ms[j], exit, stack, x, true, rs);
    }
    EndsThen(code, c, pc + 5, stack, x, mid, stack, ms, exit, stack, x, true);
    ContHere(code, c, exit, stack, x);
    SplitEnds(code, c, pc, stack, x, greedy, Len(g) + 5, exit, stack);
  }

  lemma UpToEnds(code: seq<byte>, c: Ctx, b: Node, k: nat, back: bool, greedy: bool, pc: int, stack: seq<int>, x: X,
                 g: seq<Instr>, n: nat)
    requires Known(code, c, b, k, back) && ValidNode(b) && Between(c, x, k + Caps(b)) && 0 < n < INFINITE
    requires g == Checked(Asm(b, k, back), NeedCheckAdvance(Asm(b, k, back))) && UpToPlaced(code, g, greedy, pc)
    ensures Ends(code, c, pc, stack + [n], x, pc + Len(g) + 11, stack, x, false)
  {
    hide Right, Live, Asm, Cont, Len, NeedCheckAdvance, Checked, Rep, Placed, Decode, ValidNode, Ends, AllLeave, MidPair;
    var mid, exit, st := pc + 5 + Len(g), pc + Len(g) + 11, stack + [n];
    CheckedEnds(code, c, b, k, back, pc + 5, st, x);
    var ms := EndsList(code, c, pc + 5, st, x, mid, st, x, true);
    forall j | 0 <= j < |ms| ensures Ends(code, c, mid, st, ms[j], exit, stack, x, true) {
      LeavesAt(c, x, ms, true, j);
      ReadyLeft(c, x, ms[j], k + Caps(b));
      var rs := Rep(c, b, k, back, greedy, 0, n - 1, ms[j]);
      if n > 1 {
        UpToCorrect(code, c, b, k, back, greedy, pc, stack, ms[j], g, n - 1);
      } else {
        RepNone(c, b, k, back, greedy, ms[j]);
        ContHere(code, c, exit, stack, ms[j]);
      }
      LoopCorrect(code, c, mid, -(Len(g) + 10), stack, n, ms[j], exit, stack, rs);
      RepSettled(c, b, k, back, greedy, 0, n - 1, x, ms[j], true);
      EndsIntro(code, c, mid, st, ms[j], exit, stack, x, true, rs);
    }
    EndsThen(code, c, pc + 5, st, x, mid, st, ms, exit, stack, x, true);
    DropCorrect(code, c, mid + 5, stack, n, x);
    SplitEnds(code, c, pc, st, x, greedy, Len(g) + 5, exit, stack);
  }

  lemma PushEnds(code: seq<byte>, c: Ctx, pc: int, stack: seq<int>, x: X, v: nat, exit: int)
    requires x.pos <= |c.units| && Decode(code, pc) == Some(PushI32(v))
    requires Ends(code, c, pc + 5, stack + [v], x, exit, stack, x, false)
    ensures Ends(code, c, pc, stack, x, exit, stack, x, false)
  {
    hide Cont, Decode, Ends, AllLeave;
    var rs := EndsList(code, c, pc + 5, stack + [v], x, exit, stack, x, false);
    PushCorrect(code, c, pc, stack, x, v, exit, stack, rs);
    EndsIntro(code, c, pc, stack, x, exit, stack, x, false, rs);
  }

  /** Up to `max` further iterations, from between the halves or from outside of pairs. */
  ghost predicate TailEnds(code: seq<byte>, c: Ctx, b: Node, k: nat, back: bool, greedy: bool, pc: int, stack: seq<int>,
                           exit: int, max: nat) {
    && TailRight(code, c, b, k, back, greedy, pc, stack, exit, max)
    && forall y: X :: Between(c, y, k + Caps(b)) ==> Ends(code, c, pc, stack, y, exit, stack, y, false)
  }

  lemma TailLive(code: seq<byte>, c: Ctx, b: Node, k: nat, back: bool, greedy: bool, pc: int, stack: seq<int>, g: seq<Instr>,
                 max: nat)
    requires Known(code, c, b, k, back) && ValidNode(b) && max <= INFINITE
    requires g == Checked(Asm(b, k, back), NeedCheckAdvance(Asm(b, k, back))) && Placed(code, pc, Tail(g, greedy, max))
    ensures TailEnds(code, c, b, k, back, greedy, pc, stack, pc + Len(Tail(g, greedy, max)), max)
  {
    hide Right, Live, Asm, Cont, Len, NeedCheckAdvance, Checked, Placed, Decode, ValidNode, Star, UpTo, Ends, AllLeave,
         TailRight, MidPair;
    TailCorrect(code, c, b, k, back, greedy, pc, stack, g, max);
    var exit := pc + Len(Tail(g, greedy, max));
    if max == 0 { LenNone(); }
    forall y: X | Between(c, y, k + Caps(b)) ensures Ends(code, c, pc, stack, y, exit, stack, y, false) {
      if max == INFINITE {
        StarParts(code, g, greedy, pc);
        StarEnds(code, c, b, k, back, greedy, pc, stack, y, g);
      } else if max > 0 {
        UpToParts(code, g, greedy, pc, max);
        UpToEnds(code, c, b, k, back, greedy, pc + 5, stack, y, g, max);
        PushEnds(code, c, pc, stack, y, max, exit);
      } else {
        ContHere(code, c, pc, stack, y);
        StaysLeaves(c, y);
        EndsIntro(code, c, pc, stack, y, exit, stack, y, false, [y]);
      }
    }
  }

  /** The tail from a result of the iterations before it. */
  lemma UseTailEnds(code: seq<byte>, c: Ctx, b: Node, k: nat, back: bool, greedy: bool, pc: int, stack: seq<int>, exit: int,
                    max: nat, x: X, y: X)
    requires TailEnds(code, c, b, k, back, greedy, pc, stack, exit, max)
    requires Between(c, x, k + Caps(b)) && Leaves(c, x, y, false)
    ensures Ends(code, c, pc, stack, y, exit, stack, x, false)
  {
    hide Cont, Rep, Ends, AllLeave, TailRight, MidPair;
    if MidPair(c, y.pos) {
      var rs := EndsList(code, c, pc, stack, y, exit, stack, y, false);
      SameStart(c, x, y, rs, false, false);
      EndsIntro(code, c, pc, stack, y, exit, stack, x, false, rs);
    } else {
      UseTail(code, c, b, k, back, greedy, pc, stack, exit, max, y);
      RepSettled(c, b, k, back, greedy, 0, max, x, y, false);
      EndsIntro(code, c, pc, stack, y, exit, stack, x, false, Rep(c, b, k, back, greedy, 0, max, y));
    }
  }

  lemma LoopEnds(code: seq<byte>, c: Ctx, pc: int, off: int, stack: seq<int>, n: nat, y: X, exit: int, stack2: seq<int>,
                 x: X)
    requires y.pos <= |c.units| && Decode(code, pc) == Some(Loop(off)) && Decode(code, pc + 5) == Some(Drop) && n > 0
    requires n > 1 ==> Ends(code, c, pc + 5 + off, stack + [n - 1], y, exit, stack2, x, false)
    requires n == 1 ==> Ends(code, c, pc + 6, stack, y, exit, stack2, x, false)
    ensures Ends(code, c, pc, stack + [n], y, exit, stack2, x, false)
  {
    hide Cont, Decode, Ends, AllLeave;
    var rs;
    if n > 1 {
      rs := EndsList(code, c, pc + 5 + off, stack + [n - 1], y, exit, stack2, x, false);
    } else {
      rs := EndsList(code, c, pc + 6, stack, y, exit, stack2, x, false);
    }
    LoopCorrect(code, c, pc, off, stack, n, y, exit, stack2, rs);
    EndsIntro(code, c, pc, stack + [n], y, exit, stack2, x, false, rs);
  }

  /** Ending from a result that is still at the start. */
  lemma EndsFromSame(code: seq<byte>, c: Ctx, pc: int, stack: seq<int>, y: X, exit: int, stack2: seq<int>, x: X)
    requires Ends(code, c, pc, stack, y, exit, stack2, y, false) && y.pos == x.pos && |y.caps| == |x.caps|
    ensures Ends(code, c, pc, stack, y, exit, stack2, x, false)
  {
    hide Cont, Ends, AllLeave;
    var rs := EndsList(code, c, pc, stack, y, exit, stack2, y, false);
    SameStart(c, x, y, rs, false, false);
    EndsIntro(code, c, pc, stack, y, exit, stack2, x, false, rs);
  }

  /** Required iterations from outside of pairs. */
  lemma TimesSettled(code: seq<byte>, c: Ctx, b: Node, k: nat, back: bool, greedy: bool, pc: int,
                     stack: seq<int>, x: X, y: X, f: seq<Instr>, m: nat, max: nat, exit: int)
    requires Right(code, c, b, k, back) && Ready(c, y, k + Caps(b)) && |y.caps| == |x.caps| && 0 < m <= max <= INFINITE
    requires f == Asm(b, k, back) && Placed(code, pc, f)
    requires Decode(code, pc + Len(f)) == Some(Loop(-(Len(f) + 5))) && Decode(code, pc + Len(f) + 5) == Some(Drop)
    requires TailEnds(code, c, b, k, back, greedy, pc + Len(f) + 6, stack, exit, Minus(max, m))
    ensures Ends(code, c, pc, stack + [m], y, exit, stack, x, false)
  {
    hide Right, Asm, Cont, Len, Placed, Decode, TailEnds, TailRight, Ends, AllLeave, MidPair, Rep;
    TailIsRight(code, c, b, k, back, greedy, pc + Len(f) + 6, stack, exit, Minus(max, m));
    TimesCorrect(code, c, b, k, back, greedy, pc, stack, y, f, m, max, exit);
    RepSettled(c, b, k, back, greedy, m, max, x, y, false);
    EndsIntro(code, c, pc, stack + [m], y, exit, stack, x, false, Rep(c, b, k, back, greedy, m, max, y));
  }

  /** `m` required iterations counted down on the stack, then the tail. */
  lemma {:induction false} TimesEnds(code: seq<byte>, c: Ctx, b: Node, k: nat, back: bool, greedy: bool, pc: int,
                                     stack: seq<int>, x: X, f: seq<Instr>, m: nat, max: nat, exit: int)
    requires Known(code, c, b, k, back) && Between(c, x, k + Caps(b)) && 0 < m <= max <= INFINITE
    requires f == Asm(b, k, back) && Placed(code, pc, f)
    requires Decode(code, pc + Len(f)) == Some(Loop(-(Len(f) + 5))) && Decode(code, pc + Len(f) + 5) == Some(Drop)
    requires TailEnds(code, c, b, k, back, greedy, pc + Len(f) + 6, stack, exit, Minus(max, m))
    ensures Ends(code, c, pc, stack + [m], x, exit, stack, x, false)
    decreases m
  {
    hide Right, Live, Asm, Cont, Len, Placed, Decode, TailEnds, Ends, AllLeave, MidPair, NeedCheckAdvance, Rep;
    var mid, first := pc + Len(f), !NeedCheckAdvance(f);
    UseLive(code, c, b, k, back, pc, stack + [m], x);
    var rs := EndsList(code, c, pc, stack + [m], x, mid, stack + [m], x, first);
    forall j | 0 <= j < |rs| ensures Ends(code, c, mid, stack + [m], rs[j], exit, stack, x, false) {
      LeavesAt(c, x, rs, first, j);
      if m > 1 {
        if MidPair(c, rs[j].pos) {
          TimesEnds(code, c, b, k, back, greedy, pc, stack, rs[j], f, m - 1, Dec(max), exit);
          EndsFromSame(code, c, pc, stack + [m - 1], rs[j], exit, stack, x);
        } else {
          TimesSettled(code, c, b, k, back, greedy, pc, stack, x, rs[j], f, m - 1, Dec(max), exit);
        }
      } else {
        UseTailEnds(code, c, b, k, back, greedy, pc + Len(f) + 6, stack, exit, Minus(max, m), x, rs[j]);
      }
      LoopEnds(code, c, mid, -(Len(f) + 5), stack, m, rs[j], exit, stack, x);
    }
    EndsThen(code, c, pc, stack + [m], x, mid, stack + [m], rs, exit, stack, x, false);
  }

  lemma TailIsRight(code: seq<byte>, c: Ctx, b: Node, k: nat, back: bool, greedy: bool, pc: int, stack: seq<int>, exit: int,
                    max: nat)
    requires TailEnds(code, c, b, k, back, greedy, pc, stack, exit, max)
    ensures TailRight(code, c, b, k, back, greedy, pc, stack, exit, max)
  {
  }

  lemma OnceEnds(code: seq<byte>, c: Ctx, b: Node, k: nat, back: bool, greedy: bool, pc: int,
                 stack: seq<int>, x: X, f: seq<Instr>, max: nat, exit: int)
    requires Known(code, c, b, k, back) && Between(c, x, k + Caps(b)) && max <= INFINITE
    requires f == Asm(b, k, back) && Placed(code, pc, f)
    requires TailEnds(code, c, b, k, back, greedy, pc + Len(f), stack, exit, max)
    ensures Ends(code, c, pc, stack, x, exit, stack, x, false)
  {
    hide Right, Live, Asm, Cont, Len, Placed, TailEnds, Ends, AllLeave, MidPair, NeedCheckAdvance;
    var mid, first := pc + Len(f), !NeedCheckAdvance(f);
    UseLive(code, c, b, k, back, pc, stack, x);
    var rs := EndsList(code, c, pc, stack, x, mid, stack, x, first);
    forall j | 0 <= j < |rs| ensures Ends(code, c, mid, stack, rs[j], exit, stack, x, false) {
      LeavesAt(c, x, rs, first, j);
      UseTailEnds(code, c, b, k, back, greedy, mid, stack, exit, max, x, rs[j]);
    }
    EndsThen(code, c, pc, stack, x, mid, stack, rs, exit, stack, x, false);
  }

  lemma PlusEnds(code: seq<byte>, c: Ctx, b: Node, k: nat, back: bool, greedy: bool, pc: int, stack: seq<int>, x: X,
                 f: seq<Instr>)
    requires Known(code, c, b, k, back) && ValidNode(b) && Between(c, x, k + Caps(b))
    requires f == Asm(b, k, back) && Placed(code, pc, f) && !NeedCheckAdvance(f)
    requires Decode(code, pc + Len(f)) == Some(Again(greedy, -(Len(f) + 5)))
    ensures Ends(code, c, pc, stack, x, pc + Len(f) + 5, stack, x, false)
  {
    hide Right, Live, Asm, Cont, Len, Placed, Ends, AllLeave, MidPair, NeedCheckAdvance, Decode, Rep;
    var mid, exit := pc + Len(f), pc + Len(f) + 5;
    UseLive(code, c, b, k, back, pc, stack, x);
    var rs := EndsList(code, c, pc, stack, x, mid, stack, x, true);
    forall j | 0 <= j < |rs| ensures Ends(code, c, mid, stack, rs[j], exit, stack, x, false) {
      var y := rs[j];
      LeavesAt(c, x, rs, true, j);
      ReadyLeft(c, x, y, k + Caps(b));
      PlusCorrect(code, c, b, k, back, greedy, pc, stack, y, f);
      var more := Rep(c, b, k, back, greedy, 1, INFINITE, y);
      ContHere(code, c, exit, stack, y);
      RepSettled(c, b, k, back, greedy, 1, INFINITE, x, y, false);
      OneLeaves(c, x, y, false);
      if greedy {
        ContSplitGoto(code, c, mid, stack, y, -(Len(f) + 5), exit, stack, more, [y]);
        AppendLeaves(c, x, more, [y], false);
        EndsIntro(code, c, mid, stack, y, exit, stack, x, false, more + [y]);
      } else {
        ContSplitNext(code, c, mid, stack, y, -(Len(f) + 5), exit, stack, [y], more);
        AppendLeaves(c, x, [y], more, false);
        EndsIntro(code, c, mid, stack, y, exit, stack, x, false, [y] + more);
      }
    }
    EndsThen(code, c, pc, stack, x, mid, stack, rs, exit, stack, x, false);
  }

  lemma OptionalEnds(code: seq<byte>, c: Ctx, b: Node, k: nat, back: bool, greedy: bool, pc: int, stack: seq<int>, x: X,
                     g: seq<Instr>)
    requires Live(code, c, b, k, back) && Between(c, x, k + Caps(b))
    requires g == Checked(Asm(b, k, back), NeedCheckAdvance(Asm(b, k, back)))
    requires Placed(code, pc, [Split(greedy, Len(g))] + g)
    ensures Ends(code, c, pc, stack, x, pc + 5 + Len(g), stack, x, false)
  {
    hide Live, Asm, Cont, Len, Placed, Ends, MidPair, NeedCheckAdvance, Decode, Checked;
    PlacedHead(code, pc, Split(greedy, Len(g)), g);
    CheckedEnds(code, c, b, k, back, pc + 5, stack, x);
    ContHere(code, c, pc + 5 + Len(g), stack, x);
    SplitEnds(code, c, pc, stack, x, greedy, Len(g), pc + 5 + Len(g), stack);
  }

  lemma ResetEnds(code: seq<byte>, c: Ctx, pc: int, stack: seq<int>, x: X, k: nat, caps: nat, exit: int)
    requires Between(c, x, k + caps) && Placed(code, pc, Reset(k, caps))
    requires var y := if caps > 0 then X(x.pos, ResetCaps(x.caps, k, k + caps - 1)) else x;
             Ends(code, c, pc + Len(Reset(k, caps)), stack, y, exit, stack, y, false)
    ensures Ends(code, c, pc, stack, x, exit, stack, x, false)
  {
    hide Cont, Len, Placed, Ends, MidPair, AllLeave, Reset;
    var y := if caps > 0 then X(x.pos, ResetCaps(x.caps, k, k + caps - 1)) else x;
    var rs := EndsList(code, c, pc + Len(Reset(k, caps)), stack, y, exit, stack, y, false);
    ResetCorrect(code, c, pc, stack, x, k, caps, exit, rs);
    SameStart(c, x, y, rs, false, false);
    EndsIntro(code, c, pc, stack, x, exit, stack, x, false, rs);
  }

  lemma FromMinEnds(code: seq<byte>, c: Ctx, b: Node, k: nat, back: bool, greedy: bool, pc: int, stack: seq<int>, x: X,
                    min: nat, max: nat, f: seq<Instr>, t: seq<Instr>)
    requires Known(code, c, b, k, back) && ValidNode(b) && Between(c, x, k + Caps(b)) && 0 < min <= max <= INFINITE
    requires f == Asm(b, k, back) && t == Tail(Checked(f, NeedCheckAdvance(f)), greedy, Minus(max, min))
    requires Placed(code, pc, (if min == 1 then f else Times(f, min)) + t)
    ensures Ends(code, c, pc, stack, x, pc + Len((if min == 1 then f else Times(f, min)) + t), stack, x, false)
  {
    hide Right, Live, Asm, NeedCheckAdvance, Checked, Placed, ValidNode, Tail, TailEnds, Times, Len, Decode, Ends, MidPair;
    var head := if min == 1 then f else Times(f, min);
    PlacedConcat(code, pc, head, t);
    LenConcat(head, t);
    var exit := pc + Len(head + t);
    TailLive(code, c, b, k, back, greedy, pc + Len(head), stack, Checked(f, NeedCheckAdvance(f)), Minus(max, min));
    if min == 1 {
      OnceEnds(code, c, b, k, back, greedy, pc, stack, x, f, Minus(max, 1), exit);
    } else {
      TimesParts(code, f, min, pc);
      TimesEnds(code, c, b, k, back, greedy, pc + 5, stack, x, f, min, max, exit);
      PushEnds(code, c, pc, stack, x, min, exit);
    }
  }

  /** Quantified code counts as always moving only when it is the body itself. */
  lemma QuantNeed(f: seq<Instr>, min: nat, max: nat, greedy: bool, k: nat, caps: nat)
    requires min <= max && !NeedCheckAdvance(QuantCode(f, min, max, greedy, Reset(k, caps)))
    ensures min == 1 && max == 1 && QuantCode(f, min, max, greedy, Reset(k, caps)) == f && !NeedCheckAdvance(f)
  {
    hide QuantCode;
    QuantTransparent(f, min, max, greedy, Reset(k, caps));
    if min == 0 && caps > 0 {
      SingleMoves(Reset(k, caps)[0]);
    }
  }

  lemma QuantEnds(code: seq<byte>, c: Ctx, b: Node, min: nat, max: nat, greedy: bool, k: nat, back: bool, pc: int,
                  stack: seq<int>, x: X)
    requires Known(code, c, b, k, back) && ValidCtx(c) && ValidNode(b) && min <= max <= INFINITE
    requires Placed(code, pc, Asm(Quant(b, min, max, greedy), k, back)) && Between(c, x, k + Caps(b))
    ensures Ends(code, c, pc, stack, x, pc + Len(Asm(Quant(b, min, max, greedy), k, back)), stack, x,
                 !NeedCheckAdvance(Asm(Quant(b, min, max, greedy), k, back)))
  {
    hide Right, Live, Asm, NeedCheckAdvance, Placed, ValidCtx, ValidNode, Len, Ends, QuantCode, MidPair, Caps;
    QuantAsm(b, min, max, greedy, k, back);
    var f, code' := Asm(b, k, back), QuantCode(Asm(b, k, back), min, max, greedy, Reset(k, Caps(b)));
    if !NeedCheckAdvance(code') {
      QuantNeed(f, min, max, greedy, k, Caps(b));
      UseLive(code, c, b, k, back, pc, stack, x);
    } else {
      QuantCodeEnds(code, c, b, min, max, greedy, k, back, pc, stack, x, f);
    }
  }

  lemma QuantCodeEnds(code: seq<byte>, c: Ctx, b: Node, min: nat, max: nat, greedy: bool, k: nat, back: bool, pc: int,
                      stack: seq<int>, x: X, f: seq<Instr>)
    requires Known(code, c, b, k, back) && ValidCtx(c) && ValidNode(b) && min <= max <= INFINITE && f == Asm(b, k, back)
    requires Placed(code, pc, QuantCode(f, min, max, greedy, Reset(k, Caps(b)))) && Between(c, x, k + Caps(b))
    ensures Ends(code, c, pc, stack, x, pc + Len(QuantCode(f, min, max, greedy, Reset(k, Caps(b)))), stack, x, false)
  {
    hide Right, Live, Asm, NeedCheckAdvance, Placed, ValidCtx, ValidNode, Tail, Times, Len, Decode, SimpleCount,
         Checked, Split, Ends, MidPair, Caps, Reset, ResetCaps, TailEnds;
    var g := Checked(f, NeedCheckAdvance(f));
    if UseSimple(f, max, greedy) {
      GreedyEnds(code, c, b, k, back, pc, stack, x, min, max);
      LenThree(SimpleGreedyQuant(Len(f) + 1, min, max, SimpleCount(f)), f, Match);
    } else if min == 0 {
      var reset, rest := Reset(k, Caps(b)), if max == 1 then [Split(greedy, Len(g))] + g else Tail(g, greedy, max);
      PlacedConcat(code, pc, reset, rest);
      LenConcat(reset, rest);
      var y := if Caps(b) > 0 then X(x.pos, ResetCaps(x.caps, k, k + Caps(b) - 1)) else x;
      var p0, exit := pc + Len(reset), pc + Len(reset + rest);
      if max == 1 {
        OptionalEnds(code, c, b, k, back, greedy, p0, stack, y, g);
        SimpleSingle(Split(greedy, Len(g)));
        SplitSize(greedy, Len(g));
        LenConcat([Split(greedy, Len(g))], g);
      } else {
        TailLive(code, c, b, k, back, greedy, p0, stack, g, max);
        StillLeaves(c, y);
        UseTailEnds(code, c, b, k, back, greedy, p0, stack, exit, max, y, y);
      }
      ResetEnds(code, c, pc, stack, x, k, Caps(b), exit);
    } else if min == 1 && max == INFINITE && !NeedCheckAdvance(f) {
      var i := Again(greedy, -(Len(f) + 5));
      PlacedConcat(code, pc, f, [i]);
      assert [i] == [i] + [];
      PlacedHead(code, pc + Len(f), i, []);
      LenConcat(f, [i]);
      SimpleSingle(i);
      PlusEnds(code, c, b, k, back, greedy, pc, stack, x, f);
    } else {
      FromMinEnds(code, c, b, k, back, greedy, pc, stack, x, min, max, f, Tail(g, greedy, Minus(max, min)));
    }
  }

  lemma SplitSize(greedy: bool, off: int)
    ensures Size(Split(greedy, off)) == 5
  {
  }

  lemma StillLeaves(c: Ctx, x: X)
    requires x.pos <= |c.units|
    ensures Leaves(c, x, x, false)
  {
  }

  // ---- every pattern ends ----

  ghost predicate PartsLive(code: seq<byte>, c: Ctx, n: Node, k: nat, back: bool) {
    match n
    case Group(b) => Live(code, c, b, k + 1, back)
    case Look(_, behind, b) => Live(code, c, b, k, behind)
    case Quant(b, _, _, _) => Known(code, c, b, k, back)
    case Cat(a, b) => Known(code, c, a, k, back) && Known(code, c, b, k + Caps(a), back)
    case Alt(a, b) => Live(code, c, a, k, back) && Live(code, c, b, k + Caps(a), back)
    case _ => true
  }

  lemma ConstructEnds(code: seq<byte>, c: Ctx, n: Node, k: nat, back: bool, pc: int, stack: seq<int>, x: X)
    requires ValidCtx(c) && ValidNode(n) && PartsLive(code, c, n, k, back)
    requires Placed(code, pc, Asm(n, k, back)) && Between(c, x, k + Caps(n))
    ensures Ends(code, c, pc, stack, x, pc + Len(Asm(n, k, back)), stack, x, !NeedCheckAdvance(Asm(n, k, back)))
  {
    hide Placed, Asm, Len, ValidCtx, Live, Right, NeedCheckAdvance, Ends, MidPair;
    match n {
      case Group(b) => GroupEnds(code, c, b, k, back, pc, stack, x);
      case Look(negated, behind, b) => LookEnds(code, c, b, negated, behind, k, back, pc, stack, x);
      case Quant(b, min, max, greedy) => QuantEnds(code, c, b, min, max, greedy, k, back, pc, stack, x);
      case Cat(a, b) => CatEnds(code, c, a, b, k, back, pc, stack, x);
      case Alt(a, b) => AltEnds(code, c, a, b, k, back, pc, stack, x);
      case _ => LeafEnds(code, c, n, k, back, pc, stack, x);
    }
  }

  lemma LeafEnds(code: seq<byte>, c: Ctx, n: Node, k: nat, back: bool, pc: int, stack: seq<int>, x: X)
    requires n.Empty? || IsCharNode(n) || n.LineStart? || n.LineEnd? || n.WordBoundary? || n.BackRef?
    requires ValidCtx(c) && ValidNode(n) && Placed(code, pc, Asm(n, k, back)) && Between(c, x, k)
    ensures Ends(code, c, pc, stack, x, pc + Len(Asm(n, k, back)), stack, x, !NeedCheckAdvance(Asm(n, k, back)))
  {
    hide Placed, Len, ValidCtx, ValidNode, Ends, MidPair, Cont, AllLeave;
    var f := Asm(n, k, back);
    if n.Empty? {
      ContHere(code, c, pc, stack, x);
      StaysLeaves(c, x);
      LenNone();
      EndsIntro(code, c, pc, stack, x, pc, stack, x, false, [x]);
    } else if IsCharNode(n) {
      CharEnds(code, c, n, k, back, pc, stack, x);
      LooseEnds(code, c, pc, stack, x, pc + Len(f), stack, x, !NeedCheckAdvance(f));
    } else {
      SingleMoves(f[0]);
      assert f == [f[0]];
      SingleEnds(code, c, n, k, back, pc, stack, x);
    }
  }

  /** For every pattern: wherever its code is placed, from between the halves of a pair it delivers finitely many
      results, each of them still at the start or outside of any pair. */
  lemma {:induction false} AlwaysEnds(code: seq<byte>, c: Ctx, n: Node, k: nat, back: bool)
    requires ValidCtx(c) && ValidNode(n)
    ensures Known(code, c, n, k, back)
    decreases n
  {
    hide Right, Live, ValidCtx;
    CompileCorrect(code, c, n, k, back);
    match n {
      case Group(b) => AlwaysEnds(code, c, b, k + 1, back);
      case Look(_, behind, b) => AlwaysEnds(code, c, b, k, behind);
      case Quant(b, _, _, _) => AlwaysEnds(code, c, b, k, back);
      case Cat(a, b) =>
        AlwaysEnds(code, c, a, k, back);
        AlwaysEnds(code, c, b, k + Caps(a), back);
      case Alt(a, b) =>
        AlwaysEnds(code, c, a, k, back);
        AlwaysEnds(code, c, b, k + Caps(a), back);
      case _ =>
    }
    WholeLive(code, c, n, k, back);
  }

  lemma WholeLive(code: seq<byte>, c: Ctx, n: Node, k: nat, back: bool)
    requires ValidCtx(c) && ValidNode(n) && PartsLive(code, c, n, k, back)
    ensures Live(code, c, n, k, back)
  {
    hide LiveAt, ValidCtx, ValidNode, PartsLive;
    forall pc: int, stack: seq<int>, x: X ensures LiveAt(code, c, n, k, back, pc, stack, x) {
      WholeLiveAt(code, c, n, k, back, pc, stack, x);
    }
  }

  lemma WholeLiveAt(code: seq<byte>, c: Ctx, n: Node, k: nat, back: bool, pc: int, stack: seq<int>, x: X)
    requires ValidCtx(c) && ValidNode(n) && PartsLive(code, c, n, k, back)
    ensures LiveAt(code, c, n, k, back, pc, stack, x)
  {
    hide ValidCtx, ValidNode, PartsLive, Placed, Asm, Ends, Len, NeedCheckAdvance, MidPair;
    if Placed(code, pc, Asm(n, k, back)) && Between(c, x, k + Caps(n)) {
      ConstructEnds(code, c, n, k, back, pc, stack, x);
    }
  }

  // ---- the whole program ----

  /** The machine stops. */
  ghost predicate Halts(code: seq<byte>, c: Ctx, s: Conf) {
    exists out: Conf :: out.Done? && Reach(code, c, s, out)
  }

  lemma HaltsIntro(code: seq<byte>, c: Ctx, s: Conf, out: Conf)
    requires out.Done? && Reach(code, c, s, out)
    ensures Halts(code, c, s)
  {
    hide Reach;
  }

  lemma HaltsFrom(code: seq<byte>, c: Ctx, s: Conf, t: Conf)
    requires Reach(code, c, s, t) && Halts(code, c, t)
    ensures Halts(code, c, s)
  {
    hide Reach;
    var out: Conf :| out.Done? && Reach(code, c, t, out);
    ReachTrans(code, c, s, t, out);
  }

  /** One attempt from between the halves: it fails into what was saved, or the run ends with a match. */
  lemma AttemptHalts(code: seq<byte>, c: Ctx, n: Node, pc: int, p: nat, saved: seq<Saved>)
    requires ValidCtx(c) && ValidNode(n) && BodyPlaced(code, n, pc) && p <= |c.units| && MidPair(c, p)
    requires Grown([], saved)
    ensures Reach(code, c, At(pc, X(p, Unset(n)), [], saved), Fail(saved)) || Halts(code, c, At(pc, X(p, Unset(n)), [], saved))
  {
    hide ValidCtx, ValidNode, Right, Live, Asm, Cont, Results, Len, Decode, Placed, Reach, Grown, Enum, Step, Unset, MidPair,
         Ends, AllLeave, Halts, NeedCheckAdvance;
    var x := X(p, Unset(n));
    var enter, f := Mark(x, 0), Asm(n, 1, false);
    AlwaysEnds(code, c, n, 1, false);
    UseLive(code, c, n, 1, false, pc + 2, [], enter);
    var rs := EndsList(code, c, pc + 2, [], enter, pc + 2 + Len(f), [], enter, !NeedCheckAdvance(f));
    if rs != [] {
      LeavesAt(c, enter, rs, !NeedCheckAdvance(f), 0);
    }
    AttemptFrom(code, c, n, pc, p, saved, rs);
    if rs != [] {
      HaltsIntro(code, c, At(pc, x, [], saved), Done(true, Mark(rs[0], 1).caps));
    }
  }

  lemma SearchHalts(code: seq<byte>, c: Ctx, n: Node, pc: int, p: nat)
    requires ValidCtx(c) && ValidNode(n) && p <= |c.units| && MidPair(c, p)
    requires Placed(code, pc, Prefix(false)) && BodyPlaced(code, n, pc + 11)
    ensures Halts(code, c, At(pc, X(p, Unset(n)), [], []))
  {
    hide ValidCtx, ValidNode, BodyPlaced, Placed, Reach, Results, Step, Unset, Asm, At, SplitSaved, Decode, Halts, GetChar,
         Search;
    var x := X(p, Unset(n));
    var s, saved := At(pc, x, [], []), SplitSaved(pc + 5, x, []);
    PrefixDecodes(code, pc);
    SplitStep(code, c, pc, 6, x);
    ReachStep(code, c, s);
    SplitGrown(pc + 5, x);
    AttemptHalts(code, c, n, pc + 11, p, [saved]);
    if Reach(code, c, At(pc + 11, x, [], [saved]), Fail([saved])) {
      BackFromBetween(c, p);
      var y := X(GetChar(c, p, |c.units|).1, Unset(n));
      ReachTrans(code, c, s, At(pc + 11, x, [], [saved]), Fail([saved]));
      ResumeSplit(code, c, pc + 5, x);
      ReachStep(code, c, Fail([saved]));
      ReachTrans(code, c, s, Fail([saved]), At(pc + 5, x, [], []));
      AnyStep(code, c, pc + 5, x);
      ReachStep(code, c, At(pc + 5, x, [], []));
      ReachTrans(code, c, s, At(pc + 5, x, [], []), At(pc + 6, y, [], []));
      GotoStep(code, c, pc + 6, -11, y);
      ReachStep(code, c, At(pc + 6, y, [], []));
      ReachTrans(code, c, s, At(pc + 6, y, [], []), At(pc, y, [], []));
      SearchCorrect(code, c, n, pc, y.pos);
      HaltsIntro(code, c, At(pc, y, [], []), Outcome(Search(c, n, false, y.pos)));
      HaltsFrom(code, c, s, At(pc, y, [], []));
    } else {
      HaltsFrom(code, c, s, At(pc + 11, x, [], [saved]));
    }
  }

  lemma StickyHalts(code: seq<byte>, c: Ctx, n: Node, p: nat)
    requires ValidCtx(c) && ValidNode(n) && p <= |c.units| && MidPair(c, p) && BodyPlaced(code, n, HEADER_LEN)
    ensures Halts(code, c, Start(n, p))
  {
    hide ValidCtx, ValidNode, BodyPlaced, Reach, Step, Unset, MidPair, At, Halts;
    assert Grown([], []);
    AttemptHalts(code, c, n, HEADER_LEN, p, []);
    if Reach(code, c, Start(n, p), Fail([])) {
      LastSteps(code, c, []);
      ReachStep(code, c, Fail([]));
      ReachTrans(code, c, Start(n, p), Fail([]), Done(false, []));
      HaltsIntro(code, c, Start(n, p), Done(false, []));
    }
  }

  /** lre_exec halts on every compiled pattern, every subject and every start, and never in an abort. */
  lemma ExecHalts(code: seq<byte>, c: Ctx, n: Node, sticky: bool, p: nat)
    requires ValidCtx(c) && Compiled(code, n, sticky) && p <= |c.units|
    ensures exists m: nat :: Steps(code, c, Start(n, p), m).Done?
  {
    hide ValidCtx, Steps, MidPair, Search, Placed, BodyPlaced, Program, AllValid, BytesAt, Bytes, Start, Prefix, Len;
    if MidPair(c, p) {
      ProgramPlaced(code, n, sticky);
      PrefixLen(sticky);
      if sticky {
        StickyHalts(code, c, n, p);
      } else {
        NormalStart(n, p);
        SearchHalts(code, c, n, HEADER_LEN, p);
      }
    } else {
      ExecCorrect(code, c, n, sticky, p);
      HaltsIntro(code, c, Start(n, p), Outcome(Search(c, n, sticky, p)));
    }
    var out: Conf :| out.Done? && Reach(code, c, Start(n, p), out);
  }

  lemma NormalStart(n: Node, p: nat)
    ensures Start(n, p) == At(HEADER_LEN, X(p, Unset(n)), [], [])
  {
  }
}
