/** A search that starts between the halves of a surrogate pair: there the optimised quantifier gives back more than it
    took, and the engine and the reference matcher part ways. */
module ReMidPair {
  import opened Optional
  import opened ReCode
  import opened ReInput
  import opened ReMatch
  import opened ReVM
  import opened ReCompile
  import opened ReEnum
  import opened ReSimple
  import opened ReGreedy
  import opened ReParts
  import opened ReCorrect
  import opened ReLook
  import opened ReProgram
  import ReEmit
  import ReExec

  /** Every compiled pattern, run from `p`, ends with the answer of the reference matcher. */
  ghost predicate RightFrom(c: Ctx, p: nat)
    requires p <= |c.units|
  {
    forall code, n, sticky :: Compiled(code, n, sticky) ==> Reach(code, c, Start(n, p), Outcome(Search(c, n, sticky, p)))
  }

  /** Characters from `p` to the end. */
  function CharsLeft(c: Ctx, p: nat): (k: nat)
    requires p <= |c.units|
    ensures k <= |c.units| - p && (k == 0 <==> p == |c.units|)
    decreases |c.units| - p
  {
    if p == |c.units| then 0 else 1 + CharsLeft(c, GetChar(c, p, |c.units|).1)
  }

  function Exactly(k: nat): Node { Quant(Node.Any, k, k, true) }

  /** An optional character, then a group of exactly `k` characters. */
  function OptionThen(k: nat): Node { Cat(Quant(Node.Any, 0, 1, true), Group(Exactly(k))) }

  lemma AnyResults(c: Ctx, k: nat, x: X)
    requires x.pos <= |c.units|
    ensures Results(c, Node.Any, k, false, x)
         == if x.pos == |c.units| then [] else [X(GetChar(c, x.pos, |c.units|).1, x.caps)]
  {
  }

  /** `k` characters match once when they are just those left, and not at all when fewer are left. */
  lemma {:induction false} RepAny(c: Ctx, k: nat, cap: nat, x: X)
    requires x.pos <= |c.units| && CharsLeft(c, x.pos) <= k < INFINITE
    ensures Rep(c, Node.Any, cap, false, true, k, k, x) == if CharsLeft(c, x.pos) == k then [X(|c.units|, x.caps)] else []
    decreases k
  {
    AnyResults(c, cap, x);
    hide Results, GetChar;
    if k > 0 {
      var rs := Results(c, Node.Any, cap, false, x);
      var d := |c.units| + 1;
      if rs == [] {
        assert RepSeq(c, Node.Any, cap, false, true, k - 1, k - 1, d, x, []) == [];
      } else {
        var y := rs[0];
        assert y in rs && After(c, false, x, y) && rs == [y] && [y][1..] == [];
        RepAny(c, k - 1, cap, y);
        assert RepSeq(c, Node.Any, cap, false, true, k - 1, k - 1, d, x, []) == [];
        assert RepSeq(c, Node.Any, cap, false, true, k - 1, k - 1, d, x, [y]) == Rep(c, Node.Any, cap, false, true, k - 1, k - 1, y);
      }
    }
  }

  lemma GroupResults(c: Ctx, k: nat, x: X)
    requires x.pos <= |c.units| && CharsLeft(c, x.pos) <= k < INFINITE && |x.caps| == 4
    ensures Results(c, Group(Exactly(k)), 1, false, x)
         == if CharsLeft(c, x.pos) == k then [X(|c.units|, x.caps[2 := x.pos][3 := |c.units|])] else []
  {
    hide CharsLeft, Rep;
    var enter := Mark(x, 2);
    GroupShape(c, Exactly(k), 1, false, x);
    QuantResults(c, Node.Any, k, k, true, 2, false, enter);
    RepAny(c, k, 2, enter);
    var rs := Results(c, Exactly(k), 2, false, enter);
    hide Results;
    if rs != [] {
      assert rs[0] in rs && After(c, false, enter, rs[0]) && rs[1..] == [];
      assert SetAll(c, false, 3, enter, []) == [];
    }
  }

  lemma LeftAfter(c: Ctx, p: nat)
    requires p < |c.units|
    ensures CharsLeft(c, GetChar(c, p, |c.units|).1) == CharsLeft(c, p) - 1
  {
  }

  /** The reference matcher: the character is optional, so the group starts at `p`. */
  lemma Expected(c: Ctx, k: nat, x: X)
    requires x.pos < |c.units| && CharsLeft(c, x.pos) == k < INFINITE && |x.caps| == 4
    ensures Results(c, OptionThen(k), 1, false, x) == [X(|c.units|, x.caps[2 := x.pos][3 := |c.units|])]
  {
    hide Results, ResultsSeq, GetChar, CharsLeft, Rep, After;
    var q, g := Quant(Node.Any, 0, 1, true), Group(Exactly(k));
    var y := X(GetChar(c, x.pos, |c.units|).1, x.caps);
    OptionResults(c, x);
    CatResults(c, q, g, 1, false, x);
    LeftAfter(c, x.pos);
    assert Results(c, q, 1, false, x) == [y] + [x];
    GroupResults(c, k, y);
    GroupResults(c, k, x);
    TwoStarts(c, g, y, x);
  }

  lemma TwoStarts(c: Ctx, g: Node, y: X, x: X)
    requires After(c, false, x, y) && After(c, false, x, x)
    ensures ResultsSeq(c, g, 1, false, x, [y] + [x]) == Results(c, g, 1, false, y) + Results(c, g, 1, false, x)
  {
    hide Results;
    assert ([y] + [x])[1..] == [x] && [x][1..] == [];
    assert ResultsSeq(c, g, 1, false, x, []) == [];
    assert ResultsSeq(c, g, 1, false, x, [x]) == Results(c, g, 1, false, x) + [];
  }

  lemma OptionResults(c: Ctx, x: X)
    requires x.pos < |c.units|
    ensures Results(c, Quant(Node.Any, 0, 1, true), 1, false, x) == [X(GetChar(c, x.pos, |c.units|).1, x.caps)] + [x]
  {
    var y := X(GetChar(c, x.pos, |c.units|).1, x.caps);
    QuantResults(c, Node.Any, 0, 1, true, 1, false, x);
    AnyResults(c, 1, x);
    hide Results, GetChar;
    assert [y][1..] == [] && Moved([], x.pos) == [];
    assert Moved([y], x.pos) == [y];
    var d := Dist(c, false, x.pos);
    assert RepSeq(c, Node.Any, 1, false, true, 0, 0, d, x, []) == [];
    assert RepSeq(c, Node.Any, 1, false, true, 0, 0, d, x, [y]) == [y];
  }

  /** A pattern's byte code with an empty header. */
  function Image(n: Node): (code: seq<byte>)
    requires AllValid(Program(n, true))
  {
    seq(HEADER_LEN, _ => 0) + Bytes(Program(n, true))
  }

  lemma OptionAsm(k: nat)
    requires 0 < k < INFINITE
    ensures Asm(Quant(Node.Any, 0, 1, true), 1, false) == [SimpleGreedyQuant(2, 0, 1, 1)] + [ReCode.Any] + [Match]
    ensures Asm(Exactly(k), 2, false) == [SimpleGreedyQuant(2, k, k, 1)] + [ReCode.Any] + [Match]
  {
    SimpleSingle(ReCode.Any);
    QuantAsm(Node.Any, 0, 1, true, 1, false);
    QuantAsm(Node.Any, k, k, true, 2, false);
    assert Asm(Node.Any, 1, false) == [ReCode.Any] && Asm(Node.Any, 2, false) == [ReCode.Any];
  }

  lemma ImageCompiled(k: nat)
    requires 0 < k < INFINITE
    ensures AllValid(Program(OptionThen(k), true)) && Compiled(Image(OptionThen(k)), OptionThen(k), true)
  {
    var n := OptionThen(k);
    OptionLen(k);
    OptionValid(k);
    hide Len, AllValid, Asm, Bytes, Program, ValidNode, Compiled, OptionThen;
    ReEmit.ProgramBytes(n, true);
    ReEmit.ProgramLen(n, true);
    assert Image(n)[HEADER_LEN..] == Bytes(Program(n, true));
    ReEmit.CompiledIntro(Image(n), n, true);
  }

  lemma OptionLen(k: nat)
    requires 0 < k < INFINITE
    ensures Len(Asm(OptionThen(k), 1, false)) == 42
  {
    var q, g := Quant(Node.Any, 0, 1, true), Group(Exactly(k));
    hide Len, Asm, Size;
    OptionAsm(k);
    CatAsm(q, g, 1, false);
    var f, h := Asm(q, 1, false), Asm(Exactly(k), 2, false);
    AnyLen(f, 0, 1);
    AnyLen(h, k, k);
    GroupAsm(k);
    SaveLen(h);
    LenConcat(f, Asm(g, 1, false));
  }

  lemma SaveLen(h: seq<Instr>)
    ensures Len([SaveStart(1)] + h + [SaveEnd(1)]) == 4 + Len(h)
  {
    LenThree(SaveStart(1), h, SaveEnd(1));
  }

  lemma GroupAsm(k: nat)
    ensures Asm(Group(Exactly(k)), 1, false) == [SaveStart(1)] + Asm(Exactly(k), 2, false) + [SaveEnd(1)]
  {
  }

  lemma AnyLen(f: seq<Instr>, min: nat, max: nat)
    requires f == [SimpleGreedyQuant(2, min, max, 1)] + [ReCode.Any] + [Match]
    ensures Len(f) == 19
  {
    LenThree(SimpleGreedyQuant(2, min, max, 1), [ReCode.Any], Match);
    SimpleSingle(ReCode.Any);
  }

  lemma OptionValid(k: nat)
    requires 0 < k < INFINITE
    ensures ValidNode(OptionThen(k)) && Caps(OptionThen(k)) == 1 && ValidNode(Group(Exactly(k))) && Caps(Group(Exactly(k))) == 1
  {
    assert ValidNode(Node.Any) && Caps(Node.Any) == 0;
    assert ValidNode(Exactly(k)) && Caps(Exactly(k)) == 0;
    assert ValidNode(Group(Exactly(k))) && Caps(Group(Exactly(k))) == 1;
    assert ValidNode(Quant(Node.Any, 0, 1, true)) && Caps(Quant(Node.Any, 0, 1, true)) == 0;
  }

  /** Where things stand in the program of `OptionThen(k)`. */
  lemma Layout(code: seq<byte>, k: nat)
    requires 0 < k < INFINITE && Compiled(code, OptionThen(k), true)
    ensures Decode(code, 8) == Some(SaveStart(0)) && Decode(code, 10) == Some(SimpleGreedyQuant(2, 0, 1, 1))
    ensures Decode(code, 27) == Some(ReCode.Any) && Decode(code, 28) == Some(Match)
    ensures Placed(code, 29, Asm(Group(Exactly(k)), 1, false)) && Len(Asm(Group(Exactly(k)), 1, false)) == 23
    ensures Decode(code, 52) == Some(SaveEnd(0)) && Decode(code, 54) == Some(Match)
  {
    var n, q, g := OptionThen(k), Quant(Node.Any, 0, 1, true), Group(Exactly(k));
    var i := SimpleGreedyQuant(2, 0, 1, 1);
    assert Size(i) == 17;
    hide Len, Asm, Compiled, Decode, Placed, Size, QuantCode;
    OptionAsm(k);
    GroupAsm(k);
    CatAsm(q, g, 1, false);
    var f, h := Asm(q, 1, false), Asm(Exactly(k), 2, false);
    AnyLen(f, 0, 1);
    AnyLen(h, k, k);
    SaveLen(h);
    LayoutBody(code, n, i, f, Asm(g, 1, false));
  }

  lemma LayoutBody(code: seq<byte>, n: Node, i: Instr, f: seq<Instr>, g: seq<Instr>)
    requires Compiled(code, n, true) && Asm(n, 1, false) == f + g && Len(g) == 23
    requires f == [i] + [ReCode.Any] + [Match] && Len(f) == 19 && Size(i) == 17
    ensures Decode(code, 8) == Some(SaveStart(0)) && Decode(code, 10) == Some(i)
    ensures Decode(code, 27) == Some(ReCode.Any) && Decode(code, 28) == Some(Match)
    ensures Placed(code, 29, g) && Decode(code, 52) == Some(SaveEnd(0)) && Decode(code, 54) == Some(Match)
  {
    hide Len, Asm, Placed, Decode, Compiled, Size;
    ProgramPlaced(code, n, true);
    PrefixLen(true);
    LenConcat(f, g);
    LayoutParts(code, i, f, g);
  }

  lemma LayoutParts(code: seq<byte>, i: Instr, f: seq<Instr>, g: seq<Instr>)
    requires Placed(code, 10, f + g) && f == [i] + [ReCode.Any] + [Match] && Len(f) == 19 && Size(i) == 17
    ensures Decode(code, 10) == Some(i) && Decode(code, 27) == Some(ReCode.Any) && Decode(code, 28) == Some(Match)
    ensures Placed(code, 29, g)
  {
    assert f == [i] + ([ReCode.Any] + ([Match] + []));
    hide Len, Placed, Decode;
    PlacedConcat(code, 10, f, g);
    PlacedHead(code, 10, i, [ReCode.Any] + ([Match] + []));
    PlacedHead(code, 27, ReCode.Any, [Match] + []);
    PlacedHead(code, 28, Match, []);
  }

  /** The engine, from between the halves of a pair: the option is given back together with the half before it. */
  lemma Actual(code: seq<byte>, c: Ctx, p: nat, k: nat)
    requires ValidCtx(c) && 0 < p < |c.units| <= INT32_MAX && MidPair(c, p) && k == CharsLeft(c, p)
    requires Compiled(code, OptionThen(k), true)
    ensures Reach(code, c, Start(OptionThen(k), p), Done(true, [p, |c.units|, p - 1, |c.units|]))
  {
    var n, g, e, caps := OptionThen(k), Group(Exactly(k)), |c.units|, [p, -1, -1, -1];
    Layout(code, k);
    OptionValid(k);
    CharsAround(c, p);
    CompileCorrect(code, c, g, 1, false);
    var x, x1, y := X(p, caps), X(p + 1, caps), X(p - 1, caps);
    assert Mark(X(p, Unset(n)), 0) == x;
    var gs := GreedySaved(11, SimpleGreedyQuant(2, 0, 1, 1), [x, x1], 1, []);
    QuantSteps(code, c, p, caps);
    GroupResults(c, k, x1);
    GroupResults(c, k, y);
    hide ValidCtx, Right, Placed, Asm, Cont, Results, Len, Decode, Reach, Grown, Enum, Step, Unset, CharsLeft, GetChar, Compiled,
         GetPrevChar, GreedySaved, At, SetCap, Slot, OptionThen, Exactly, Caps;
    var s := Start(n, p);
    SaveStep(code, c, 8, [], X(p, Unset(n)), 0, false);
    ReachStep(code, c, s);
    ReachTrans(code, c, s, At(10, x, [], []), At(29, x1, [], [gs]));
    NoResult(code, c, g, s, x1, [gs]);
    ReachTrans(code, c, s, Fail([gs]), At(29, y, [], []));
    OneResult(code, c, g, s, y, X(e, caps[2 := p - 1][3 := e]));
    assert Mark(X(e, caps[2 := p - 1][3 := e]), 1).caps == [p, e, p - 1, e];
  }

  lemma NoResult(code: seq<byte>, c: Ctx, g: Node, s: Conf, x: X, saved: seq<Saved>)
    requires Right(code, c, g, 1, false) && Placed(code, 29, Asm(g, 1, false)) && Ready(c, x, 1 + Caps(g))
    requires Reach(code, c, s, At(29, x, [], saved)) && Results(c, g, 1, false, x) == []
    ensures Reach(code, c, s, Fail(saved))
  {
    hide Right, Placed, Asm, Cont, Results, Len, Reach, Enum;
    UseRight(code, c, g, 1, false, 29, [], x);
    var exit := 29 + Len(Asm(g, 1, false));
    UseCont(code, c, 29, [], x, exit, [], [], saved);
    EnumEmpty(code, c, At(29, x, [], saved), exit, [], saved);
    ReachTrans(code, c, s, At(29, x, [], saved), Fail(saved));
  }

  lemma OneResult(code: seq<byte>, c: Ctx, g: Node, s: Conf, x: X, r: X)
    requires Right(code, c, g, 1, false) && Placed(code, 29, Asm(g, 1, false)) && Ready(c, x, 1 + Caps(g))
    requires Reach(code, c, s, At(29, x, [], [])) && Results(c, g, 1, false, x) == [r] && Len(Asm(g, 1, false)) == 23
    requires r.pos <= |c.units| && |r.caps| == 4
    requires Decode(code, 52) == Some(SaveEnd(0)) && Decode(code, 54) == Some(Match)
    ensures Reach(code, c, s, Done(true, Mark(r, 1).caps))
  {
    hide Right, Placed, Asm, Cont, Results, Len, Reach, Enum, Decode, Grown;
    UseRight(code, c, g, 1, false, 29, [], x);
    UseCont(code, c, 29, [], x, 52, [], [r], []);
    var more := EnumFirst(code, c, At(29, x, [], []), 52, [], [r], []);
    ReachTrans(code, c, s, At(29, x, [], []), At(52, r, [], more));
    Finish(code, c, s, r, more);
  }

  lemma Finish(code: seq<byte>, c: Ctx, s: Conf, r: X, more: seq<Saved>)
    requires Reach(code, c, s, At(52, r, [], more)) && Grown([], more) && r.pos <= |c.units| && |r.caps| == 4
    requires Decode(code, 52) == Some(SaveEnd(0)) && Decode(code, 54) == Some(Match)
    ensures Reach(code, c, s, Done(true, Mark(r, 1).caps))
  {
    hide Decode, Reach, Grown, Step;
    var r' := Mark(r, 1);
    SaveStep(code, c, 52, [], r, 0, true);
    ReachStep(code, c, At(52, r, [], more));
    ReachTrans(code, c, s, At(52, r, [], more), At(54, r', [], more));
    MatchStep(code, c, 54, [], r', more);
    ReachStep(code, c, At(54, r', [], more));
    ReachTrans(code, c, s, At(54, r', [], more), Succeed(r'.caps, more));
    SucceedUnwinds(code, c, r'.caps, [], more);
    ReachTrans(code, c, s, Succeed(r'.caps, more), Succeed(r'.caps, []));
    LastSteps(code, c, r'.caps);
    ReachStep(code, c, Succeed(r'.caps, []));
    ReachTrans(code, c, s, Succeed(r'.caps, []), Done(true, r'.caps));
  }

  /** One character on from `p` and one back, the same number of characters is left as from `p` itself. */
  lemma CharsAround(c: Ctx, p: nat)
    requires 0 < p < |c.units| && MidPair(c, p)
    ensures GetChar(c, p, |c.units|).1 == p + 1 && GetPrevChar(c, p + 1, 0).1 == p - 1
    ensures GetChar(c, p - 1, |c.units|).1 == p + 1
    ensures CharsLeft(c, p) == CharsLeft(c, p - 1) == CharsLeft(c, p + 1) + 1
    ensures !MidPair(c, p - 1) && !MidPair(c, p + 1)
  {
  }

  lemma QuantSteps(code: seq<byte>, c: Ctx, p: nat, caps: seq<int>)
    requires 0 < p < |c.units| && MidPair(c, p)
    requires Decode(code, 10) == Some(SimpleGreedyQuant(2, 0, 1, 1))
    requires Decode(code, 27) == Some(ReCode.Any) && Decode(code, 28) == Some(Match)
    ensures var gs := GreedySaved(11, SimpleGreedyQuant(2, 0, 1, 1), [X(p, caps), X(p + 1, caps)], 1, []);
            && Reach(code, c, At(10, X(p, caps), [], []), At(29, X(p + 1, caps), [], [gs]))
            && Reach(code, c, Fail([gs]), At(29, X(p - 1, caps), [], []))
  {
    var i, ch := SimpleGreedyQuant(2, 0, 1, 1), [X(p, caps), X(p + 1, caps)];
    var gs := GreedySaved(11, i, ch, 1, []);
    OneIteration(code, c, p);
    GivesBack(code, c, p, gs);
    hide Decode, Iterate, InnerRun, Reach, MidPair, StepFail;
    GreedyFirstStep(code, c, 10, i, ch, [], [], ch[0]);
    assert [] + [gs] == [gs];
    hide Step;
    ReachStep(code, c, At(10, X(p, caps), [], []));
    ReachStep(code, c, Fail([gs]));
  }

  lemma GivesBack(code: seq<byte>, c: Ctx, p: nat, gs: Saved)
    requires 0 < p < |c.units| && MidPair(c, p) && Decode(code, 10) == Some(SimpleGreedyQuant(2, 0, 1, 1))
    requires gs.kind == GreedyQuantState && gs.pc == 11 && gs.pos == p + 1 && gs.count == 1
    ensures Step(code, c, Fail([gs])) == At(29, X(p - 1, gs.caps), gs.stack, [])
  {
    CharsAround(c, p);
    hide Decode, GetChar, GetPrevChar, MidPair, CharsLeft;
    assert Back(c, p + 1, 1) == Back(c, p - 1, 0) == p - 1;
    assert [gs][..0] == [];
  }

  lemma OneIteration(code: seq<byte>, c: Ctx, p: nat)
    requires 0 < p < |c.units| && MidPair(c, p)
    requires Decode(code, 27) == Some(ReCode.Any) && Decode(code, 28) == Some(Match)
    ensures Iterate(code, c, 27, p, 0, 1) == End(p + 1, 1)
  {
    CharsAround(c, p);
    hide Decode, GetChar, GetPrevChar, MidPair, CharsLeft;
    MatchEnds(code, c, 28, p + 1);
    assert InnerRun(code, c, 27, p) == InnerRun(code, c, 28, p + 1);
  }

  lemma Deterministic(code: seq<byte>, c: Ctx, s: Conf, t: Conf, u: Conf)
    requires Reach(code, c, s, t) && Reach(code, c, s, u) && t.Done? && u.Done?
    ensures t == u
  {
    hide Step;
    var m: nat :| Steps(code, c, s, m) == t;
    var n: nat :| Steps(code, c, s, n) == u;
    if m <= n {
      StepsAdd(code, c, s, m, n - m);
      ReExec.DoneStays(code, c, t, n - m);
    } else {
      StepsAdd(code, c, s, n, m - n);
      ReExec.DoneStays(code, c, u, m - n);
    }
  }

  /** A pattern that goes wrong from between the halves of a pair, wherever in whatever subject that is. */
  lemma MidPairFails(c: Ctx, p: nat, k: nat)
    requires ValidCtx(c) && 0 < p < |c.units| <= INT32_MAX && MidPair(c, p) && k == CharsLeft(c, p)
    ensures 0 < k < INFINITE && AllValid(Program(OptionThen(k), true)) && Compiled(Image(OptionThen(k)), OptionThen(k), true)
    ensures Reach(Image(OptionThen(k)), c, Start(OptionThen(k), p), Done(true, [p, |c.units|, p - 1, |c.units|]))
    ensures Search(c, OptionThen(k), true, p) == Option.Some([p, |c.units|, p, |c.units|])
  {
    var n := OptionThen(k);
    ImageCompiled(k);
    OptionValid(k);
    var caps := [p, -1, -1, -1];
    assert Mark(X(p, Unset(n)), 0).caps == caps;
    hide Compiled, CharsLeft, Reach, Results, OptionThen, Image, Program;
    Actual(Image(n), c, p, k);
    Expected(c, k, X(p, caps));
    assert caps[2 := p][3 := |c.units|][1 := |c.units|] == [p, |c.units|, p, |c.units|];
  }

  /** The engine agrees with the reference matcher on every pattern exactly from the positions that split no pair. */
  lemma RightFromIff(c: Ctx, p: nat)
    requires ValidCtx(c) && p <= |c.units| <= INT32_MAX
    ensures RightFrom(c, p) <==> !MidPair(c, p)
  {
    hide Compiled, Reach, Search, ValidCtx, Program, AllValid, Image, OptionThen, CharsLeft;
    if MidPair(c, p) {
      var k := CharsLeft(c, p);
      MidPairFails(c, p, k);
      var n := OptionThen(k);
      assert [p, |c.units|, p - 1, |c.units|][2] != [p, |c.units|, p, |c.units|][2];
      if RightFrom(c, p) {
        Deterministic(Image(n), c, Start(n, p), Done(true, [p, |c.units|, p - 1, |c.units|]), Outcome(Search(c, n, true, p)));
      }
    } else {
      forall code, n, sticky | Compiled(code, n, sticky)
        ensures Reach(code, c, Start(n, p), Outcome(Search(c, n, sticky, p)))
      {
        ExecCorrect(code, c, n, sticky, p);
      }
    }
  }

  /** The smallest instance: one pair, searched from its second half for an optional character and a captured one. */
  lemma MidPairExample(c: Ctx)
    requires ValidCtx(c) && c.wide && c.units == [0xd83d, 0xde00]
    ensures var n := Cat(Quant(Node.Any, 0, 1, true), Group(Quant(Node.Any, 1, 1, true)));
            && AllValid(Program(n, true)) && Compiled(Image(n), n, true)
            && Reach(Image(n), c, Start(n, 1), Done(true, [1, 2, 0, 2]))
            && Search(c, n, true, 1) == Option.Some([1, 2, 1, 2])
  {
    hide Compiled, Reach, Search, ValidCtx, Program, AllValid, Image;
    assert CharsLeft(c, 1) == 1;
    MidPairFails(c, 1, 1);
  }
}
