/** lre_compile and lre_exec as a whole: the compiled bytes find the first match the reference matcher finds. */
module ReProgram {
  import opened Optional
  import opened ReCode
  import opened ReInput
  import opened ReMatch
  import opened ReVM
  import opened ReCompile
  import opened ReEnum
  import opened ReMoves
  import opened ReSimple
  import opened ReParts
  import opened ReLook
  import ReRange
  import opened ReCorrect

  // ---- operands fit their fields ----

  /** No jump offset overflows: the code is shorter than 2^31 bytes and at most 255 captures exist. */
  const MAX_LEN := 0x7fff_ff00

  lemma ValidOne(i: Instr)
    ensures AllValid([i]) <==> Valid(i)
  {
    assert [i][1..] == [];
  }

  lemma {:induction false} CountAtMostLen(f: seq<Instr>)
    ensures SimpleCount(f) <= Len(f)
  {
    if f != [] { CountAtMostLen(f[1..]); }
  }

  lemma Valid3(i: Instr, f: seq<Instr>, j: Instr)
    requires Valid(i) && Valid(j) && AllValid(f)
    ensures AllValid([i] + f + [j])
  {
    hide Valid;
    ValidOne(i);
    ValidOne(j);
    hide AllValid;
    ValidConcat([i], f);
    ValidConcat([i] + f, [j]);
  }

  lemma TailValid(g: seq<Instr>, greedy: bool, max: nat)
    requires AllValid(g) && Len(Tail(g, greedy, max)) < MAX_LEN && max <= INFINITE
    ensures AllValid(Tail(g, greedy, max))
  {
    hide AllValid, Len;
    if max == INFINITE {
      LenThree(Split(greedy, Len(g) + 5), g, Goto(-(Len(g) + 10)));
      Valid3(Split(greedy, Len(g) + 5), g, Goto(-(Len(g) + 10)));
    } else if max > 0 {
      var i, j := Split(greedy, Len(g) + 5), ReCode.Loop(-(Len(g) + 10));
      LenThree(i, g, j);
      assert UpTo(g, greedy, max) == [PushI32(max)] + ([i] + g + [j]) + [Drop];
      LenThree(PushI32(max), [i] + g + [j], Drop);
      Valid3(i, g, j);
      Valid3(PushI32(max), [i] + g + [j], Drop);
    } else {
      NoneValid();
    }
  }

  lemma NoneValid()
    ensures AllValid([])
  {
  }

  lemma CheckedValid(f: seq<Instr>, check: bool)
    requires AllValid(f)
    ensures AllValid(Checked(f, check))
    ensures Len(f) <= Len(Checked(f, check)) <= Len(f) + 2
  {
    hide AllValid, Len;
    Valid3(PushCharPos, f, CheckAdvance);
    LenThree(PushCharPos, f, CheckAdvance);
  }

  lemma TimesValid(f: seq<Instr>, min: nat)
    requires AllValid(f) && Len(f) < MAX_LEN && min <= INFINITE
    ensures AllValid(Times(f, min)) && Len(Times(f, min)) >= Len(f)
  {
    hide AllValid, Len;
    var push, j := PushI32(min), ReCode.Loop(-(Len(f) + 5));
    assert Times(f, min) == ([push] + f + [j]) + [Drop];
    Valid3(push, f, j);
    LenThree(push, f, j);
    ValidConcat([push] + f + [j], [Drop]);
    LenConcat([push] + f + [j], [Drop]);
    ValidOne(Drop);
  }

  /** Quantified code contains the body whenever it can be iterated. */
  lemma QuantLen(f: seq<Instr>, min: nat, max: nat, greedy: bool, reset: seq<Instr>)
    requires min <= max && max > 0
    ensures Len(f) <= Len(QuantCode(f, min, max, greedy, reset))
  {
    hide Len, SimpleCount, NeedCheckAdvance, Tail, Times;
    var g := Checked(f, NeedCheckAdvance(f));
    LenThree(PushCharPos, f, CheckAdvance);
    if UseSimple(f, max, greedy) {
      LenThree(SimpleGreedyQuant(Len(f) + 1, min, max, SimpleCount(f)), f, Match);
    } else if min == 0 {
      LenConcat(reset, if max == 1 then [Split(greedy, Len(g))] + g else Tail(g, greedy, max));
      LenConcat([Split(greedy, Len(g))], g);
      TailLen(g, greedy, max);
    } else if min == 1 && max == INFINITE && !NeedCheckAdvance(f) {
      LenConcat(f, [if greedy then SplitGotoFirst(-(Len(f) + 5)) else SplitNextFirst(-(Len(f) + 5))]);
    } else {
      LenConcat(if min == 1 then f else Times(f, min), Tail(g, greedy, Minus(max, min)));
      TimesLen(f, min);
    }
  }

  lemma TailLen(g: seq<Instr>, greedy: bool, max: nat)
    requires max > 0
    ensures Len(g) <= Len(Tail(g, greedy, max))
  {
    hide Len;
    if max == INFINITE {
      LenThree(Split(greedy, Len(g) + 5), g, Goto(-(Len(g) + 10)));
    } else {
      LenConcat([PushI32(max), Split(greedy, Len(g) + 5)] + g, [ReCode.Loop(-(Len(g) + 10)), Drop]);
      LenConcat([PushI32(max), Split(greedy, Len(g) + 5)], g);
    }
  }

  lemma TimesLen(f: seq<Instr>, min: nat)
    ensures Len(f) <= Len(Times(f, min))
  {
    hide Len;
    LenConcat([PushI32(min)] + f, [ReCode.Loop(-(Len(f) + 5)), Drop]);
    LenConcat([PushI32(min)], f);
  }

  lemma QuantValid(f: seq<Instr>, min: nat, max: nat, greedy: bool, reset: seq<Instr>)
    requires max > 0 ==> AllValid(f)
    requires AllValid(reset) && min <= max <= INFINITE && Len(QuantCode(f, min, max, greedy, reset)) < MAX_LEN
    ensures AllValid(QuantCode(f, min, max, greedy, reset))
  {
    hide AllValid, Len, SimpleCount, NeedCheckAdvance, Tail, Times, Checked;
    var g := Checked(f, NeedCheckAdvance(f));
    if max == 0 {
      ValidConcat(reset, Tail(g, greedy, max));
      NoTail(g, greedy);
      NoneValid();
    } else {
      QuantLen(f, min, max, greedy, reset);
      CheckedValid(f, NeedCheckAdvance(f));
      if UseSimple(f, max, greedy) {
        CountAtMostLen(f);
        LenThree(SimpleGreedyQuant(Len(f) + 1, min, max, SimpleCount(f)), f, Match);
        Valid3(SimpleGreedyQuant(Len(f) + 1, min, max, SimpleCount(f)), f, Match);
      } else if min == 0 {
        var rest := if max == 1 then [Split(greedy, Len(g))] + g else Tail(g, greedy, max);
        LenConcat(reset, rest);
        ValidConcat(reset, rest);
        if max == 1 {
          ValidOne(Split(greedy, Len(g)));
          LenConcat([Split(greedy, Len(g))], g);
          ValidConcat([Split(greedy, Len(g))], g);
        } else {
          TailValid(g, greedy, max);
        }
      } else if min == 1 && max == INFINITE && !NeedCheckAdvance(f) {
        var i := if greedy then SplitGotoFirst(-(Len(f) + 5)) else SplitNextFirst(-(Len(f) + 5));
        ValidOne(i);
        ValidConcat(f, [i]);
      } else {
        var head, t := if min == 1 then f else Times(f, min), Tail(g, greedy, Minus(max, min));
        LenConcat(head, t);
        ValidConcat(head, t);
        TimesValid(f, min);
        TailValid(g, greedy, Minus(max, min));
      }
    }
  }

  lemma NoTail(g: seq<Instr>, greedy: bool)
    ensures Tail(g, greedy, 0) == []
  {
  }

  lemma RangeValid(points: seq<int>)
    requires ValidPoints(points)
    ensures Valid(RangeInstr(points))
  {
    if |points| >= 2 {
      var i := RangeInstr(points);
      ReRange.WidthFits(points);
      var bs := i.bounds;
      forall m | 0 <= m < |bs| ensures 0 <= bs[m] < (if i.Range? then U16 else U32) {
        var j := m / 2;
        ReRange.BoundsAt(points, i.Range32?, j);
        assert m == 2 * j || m == 2 * j + 1;
        assert points[2 * j] < points[2 * j + 1];
        assert 0 <= ReRange.Low(points, j) < ReRange.High(points, j) <= UINT32_MAX;
      }
    }
  }

  lemma CharNodeValid(n: Node)
    requires IsCharNode(n) && ValidNode(n)
    ensures Valid(CharNodeInstr(n))
  {
    if n.Class? { RangeValid(n.points); }
  }

  lemma {:induction false} AsmValid(n: Node, k: nat, back: bool)
    requires ValidNode(n) && k + Caps(n) <= 255 && Len(Asm(n, k, back)) < MAX_LEN
    ensures AllValid(Asm(n, k, back))
    decreases n, 1
  {
    hide AllValid, Len, Valid;
    match n {
      case Empty => NoneValid();
      case Group(b) => GroupValid(b, k, back);
      case Look(negated, behind, b) => LookValid(b, negated, behind, k, back);
      case Quant(b, min, max, greedy) => QuantNodeValid(b, min, max, greedy, k, back);
      case Cat(a, b) => CatValid(a, b, k, back);
      case Alt(a, b) => AltValid(a, b, k, back);
      case _ => LeafValid(n, k, back);
    }
  }

  lemma LeafValid(n: Node, k: nat, back: bool)
    requires ValidNode(n) && (IsCharNode(n) || n.LineStart? || n.LineEnd? || n.WordBoundary? || n.BackRef?)
    ensures AllValid(Asm(n, k, back))
  {
    if IsCharNode(n) {
      CharNodeValid(n);
      SingleValid(CharNodeInstr(n), back);
    } else {
      ValidOne(Asm(n, k, back)[0]);
    }
  }

  lemma {:induction false} GroupValid(b: Node, k: nat, back: bool)
    requires ValidNode(b) && k + 1 + Caps(b) <= 255 && Len(Asm(Group(b), k, back)) < MAX_LEN
    ensures AllValid(Asm(Group(b), k, back))
    decreases Group(b), 0
  {
    hide AllValid, Len;
    var f := Asm(b, k + 1, back);
    assert Asm(Group(b), k, back) == [Save(k, back)] + f + [Save(k, !back)];
    hide Asm;
    LenThree(Save(k, back), f, Save(k, !back));
    AsmValid(b, k + 1, back);
    Valid3(Save(k, back), f, Save(k, !back));
  }

  lemma LookProgram(b: Node, negated: bool, behind: bool, k: nat, back: bool)
    ensures var f := Asm(b, k, behind); Asm(Look(negated, behind, b), k, back) == [LookInstr(negated, Len(f) + 1)] + f + [Match]
  {
    hide Len;
  }

  lemma {:induction false} LookValid(b: Node, negated: bool, behind: bool, k: nat, back: bool)
    requires ValidNode(b) && k + Caps(b) <= 255 && Len(Asm(Look(negated, behind, b), k, back)) < MAX_LEN
    ensures AllValid(Asm(Look(negated, behind, b), k, back))
    decreases Look(negated, behind, b), 0
  {
    hide AllValid, Len, Asm;
    var f := Asm(b, k, behind);
    var i := LookInstr(negated, Len(f) + 1);
    LookProgram(b, negated, behind, k, back);
    LenThree(i, f, Match);
    AsmValid(b, k, behind);
    Valid3(i, f, Match);
  }

  lemma {:induction false} QuantNodeValid(b: Node, min: nat, max: nat, greedy: bool, k: nat, back: bool)
    requires ValidNode(Quant(b, min, max, greedy)) && k + Caps(b) <= 255
    requires Len(Asm(Quant(b, min, max, greedy), k, back)) < MAX_LEN
    ensures AllValid(Asm(Quant(b, min, max, greedy), k, back))
    decreases Quant(b, min, max, greedy), 0
  {
    hide AllValid, Len, QuantCode, Asm;
    QuantAsm(b, min, max, greedy, k, back);
    ResetValid(k, Caps(b));
    if max > 0 {
      QuantLen(Asm(b, k, back), min, max, greedy, Reset(k, Caps(b)));
      AsmValid(b, k, back);
    }
    QuantValid(Asm(b, k, back), min, max, greedy, Reset(k, Caps(b)));
  }

  lemma {:induction false} CatValid(a: Node, b: Node, k: nat, back: bool)
    requires ValidNode(a) && ValidNode(b) && k + Caps(a) + Caps(b) <= 255 && Len(Asm(Cat(a, b), k, back)) < MAX_LEN
    ensures AllValid(Asm(Cat(a, b), k, back))
    decreases Cat(a, b), 0
  {
    hide AllValid, Len, Asm;
    CatAsm(a, b, k, back);
    var f := Asm(First(a, b, back), FirstCap(a, k, back), back);
    var g := Asm(Second(a, b, back), SecondCap(a, k, back), back);
    LenConcat(f, g);
    AsmValid(a, k, back);
    AsmValid(b, k + Caps(a), back);
    ValidConcat(f, g);
  }

  lemma SingleValid(i: Instr, back: bool)
    requires Valid(i)
    ensures AllValid(Backward(back, i))
  {
    ValidOne(i);
    if back {
      Valid3(Prev, [i], Prev);
      assert [Prev] + [i] + [Prev] == [Prev, i, Prev];
    }
  }

  lemma ResetValid(k: nat, caps: nat)
    requires k + caps <= 256
    ensures AllValid(Reset(k, caps))
  {
    if caps > 0 { ValidOne(SaveReset(k, k + caps - 1)); }
  }

  lemma {:induction false} AltValid(a: Node, b: Node, k: nat, back: bool)
    requires ValidNode(a) && ValidNode(b) && k + Caps(a) + Caps(b) <= 255 && Len(Asm(Alt(a, b), k, back)) < MAX_LEN
    ensures AllValid(Asm(Alt(a, b), k, back))
    decreases Alt(a, b), 0
  {
    hide AllValid, Len, Asm;
    var f, g := Asm(a, k, back), Asm(b, k + Caps(a), back);
    AltAsm(a, b, k, back);
    LenFour(SplitNextFirst(Len(f) + 5), f, Goto(Len(g)), g);
    AsmValid(a, k, back);
    AsmValid(b, k + Caps(a), back);
    Valid3(SplitNextFirst(Len(f) + 5), f, Goto(Len(g)));
    ValidConcat([SplitNextFirst(Len(f) + 5)] + f + [Goto(Len(g))], g);
  }

  // ---- the whole program ----

  const HEADER_LEN := 8

  /** Captures before anything matched. */
  function Unset(n: Node): (caps: seq<int>)
    ensures |caps| == 2 * (1 + Caps(n))
  {
    seq(2 * (1 + Caps(n)), _ => -1)
  }

  /** The captures of the first match found from position `p` on, as the reference matcher defines them. */
  ghost function Search(c: Ctx, n: Node, sticky: bool, p: nat): (r: Option<seq<int>>)
    requires p <= |c.units|
    decreases |c.units| - p
  {
    var rs := Results(c, n, 1, false, Mark(X(p, Unset(n)), 0));
    if rs != [] then Some(Mark(rs[0], 1).caps)
    else if sticky || p == |c.units| then None
    else Search(c, n, sticky, GetChar(c, p, |c.units|).1)
  }

  function Outcome(r: Option<seq<int>>): Conf {
    if r.Some? then Done(true, r.value) else Done(false, [])
  }

  /** What stands at `pc`: the pattern between its two saves, then `match`. */
  ghost predicate BodyPlaced(code: seq<byte>, n: Node, pc: int) {
    var f := Asm(n, 1, false);
    && Decode(code, pc) == Some(SaveStart(0)) && Placed(code, pc + 2, f)
    && Decode(code, pc + 2 + Len(f)) == Some(SaveEnd(0)) && Decode(code, pc + 4 + Len(f)) == Some(Match)
  }

  /** One attempt at a position, whose body delivers `rs`: the first result ends the run, without one the attempt fails
      into what was saved. */
  lemma AttemptFrom(code: seq<byte>, c: Ctx, n: Node, pc: int, p: nat, saved: seq<Saved>, rs: seq<X>)
    requires BodyPlaced(code, n, pc) && p <= |c.units| && Grown([], saved)
    requires Cont(code, c, pc + 2, [], Mark(X(p, Unset(n)), 0), pc + 2 + Len(Asm(n, 1, false)), [], rs)
    requires rs != [] ==> rs[0].pos <= |c.units| && |rs[0].caps| == |Unset(n)|
    ensures Reach(code, c, At(pc, X(p, Unset(n)), [], saved),
                  if rs == [] then Fail(saved) else Done(true, Mark(rs[0], 1).caps))
  {
    hide Placed, Asm, Cont, Len, Decode, Reach, Grown, Enum, Step, Unset;
    var x := X(p, Unset(n));
    var enter, f := Mark(x, 0), Asm(n, 1, false);
    var mid, s := pc + 2 + Len(f), At(pc, x, [], saved);
    SaveStep(code, c, pc, [], x, 0, false);
    ReachStep(code, c, s);
    UseCont(code, c, pc + 2, [], enter, mid, [], rs, saved);
    EnumFrom(code, c, s, At(pc + 2, enter, [], saved), mid, [], rs, saved);
    if rs == [] {
      EnumEmpty(code, c, s, mid, [], saved);
    } else {
      var more := EnumFirst(code, c, s, mid, [], rs, saved);
      var r := Mark(rs[0], 1);
      SaveStep(code, c, mid, [], rs[0], 0, true);
      ReachStep(code, c, At(mid, rs[0], [], more));
      ReachTrans(code, c, s, At(mid, rs[0], [], more), At(mid + 2, r, [], more));
      MatchStep(code, c, mid + 2, [], r, more);
      ReachStep(code, c, At(mid + 2, r, [], more));
      ReachTrans(code, c, s, At(mid + 2, r, [], more), Succeed(r.caps, more));
      GrownTrans([], saved, more);
      SucceedUnwinds(code, c, r.caps, [], more);
      ReachTrans(code, c, s, Succeed(r.caps, more), Succeed(r.caps, []));
      LastSteps(code, c, r.caps);
      ReachStep(code, c, Succeed(r.caps, []));
      ReachTrans(code, c, s, Succeed(r.caps, []), Done(true, r.caps));
    }
  }

  /** One attempt at a position that splits no pair. */
  lemma AttemptCorrect(code: seq<byte>, c: Ctx, n: Node, pc: int, p: nat, saved: seq<Saved>)
    requires ValidCtx(c) && ValidNode(n) && BodyPlaced(code, n, pc) && p <= |c.units| && !MidPair(c, p)
    requires Grown([], saved)
    ensures var rs := Results(c, n, 1, false, Mark(X(p, Unset(n)), 0));
            Reach(code, c, At(pc, X(p, Unset(n)), [], saved),
                  if rs == [] then Fail(saved) else Done(true, Mark(rs[0], 1).caps))
  {
    hide ValidCtx, ValidNode, Right, Placed, Asm, Cont, Results, Len, Decode, Reach, Grown, Enum, Step, Unset, MidPair;
    var enter := Mark(X(p, Unset(n)), 0);
    CompileCorrect(code, c, n, 1, false);
    UseRight(code, c, n, 1, false, pc + 2, [], enter);
    var rs := Results(c, n, 1, false, enter);
    if rs != [] {
      assert After(c, false, enter, rs[0]);
    }
    AttemptFrom(code, c, n, pc, p, saved, rs);
  }

  lemma UseCont(code: seq<byte>, c: Ctx, pc: int, stack: seq<int>, x: X, exit: int, stack': seq<int>, rs: seq<X>,
                saved: seq<Saved>)
    requires Cont(code, c, pc, stack, x, exit, stack', rs)
    ensures Enum(code, c, At(pc, x, stack, saved), exit, stack', rs, saved)
  {
    hide Enum;
  }

  lemma EnumEmpty(code: seq<byte>, c: Ctx, s: Conf, exit: int, stack: seq<int>, saved: seq<Saved>)
    requires Enum(code, c, s, exit, stack, [], saved)
    ensures Reach(code, c, s, Fail(saved))
  {
  }

  lemma LastSteps(code: seq<byte>, c: Ctx, caps: seq<int>)
    ensures Step(code, c, Succeed(caps, [])) == Done(true, caps)
    ensures Step(code, c, Fail([])) == Done(false, [])
  {
  }

  lemma PrefixDecodes(code: seq<byte>, pc: int)
    requires Placed(code, pc, Prefix(false))
    ensures Decode(code, pc) == Some(SplitGotoFirst(6))
    ensures Decode(code, pc + 5) == Some(ReCode.Any) && Decode(code, pc + 6) == Some(Goto(-11))
  {
    hide Decode, Placed;
    var i, j, l := SplitGotoFirst(6), ReCode.Any, Goto(-11);
    assert Prefix(false) == [i] + ([j] + ([l] + []));
    PlacedHead(code, pc, i, [j] + ([l] + []));
    PlacedHead(code, pc + 5, j, [l] + []);
    PlacedHead(code, pc + 6, l, []);
  }

  lemma SplitStep(code: seq<byte>, c: Ctx, pc: int, off: int, x: X)
    requires x.pos <= |c.units| && Decode(code, pc) == Some(SplitGotoFirst(off))
    ensures Step(code, c, At(pc, x, [], [])) == At(pc + 5 + off, x, [], [SplitSaved(pc + 5, x, [])])
  {
    hide Decode;
    assert [] + [SplitSaved(pc + 5, x, [])] == [SplitSaved(pc + 5, x, [])];
  }

  lemma ResumeSplit(code: seq<byte>, c: Ctx, pc: int, x: X)
    ensures Step(code, c, Fail([SplitSaved(pc, x, [])])) == At(pc, x, [], [])
  {
    assert [SplitSaved(pc, x, [])][..0] == [];
  }

  lemma AnyStep(code: seq<byte>, c: Ctx, pc: int, x: X)
    requires x.pos <= |c.units| && Decode(code, pc) == Some(ReCode.Any)
    ensures Step(code, c, At(pc, x, [], []))
         == if x.pos == |c.units| then Fail([]) else At(pc + 1, X(GetChar(c, x.pos, |c.units|).1, x.caps), [], [])
  {
    hide Decode, GetChar;
  }

  lemma GotoStep(code: seq<byte>, c: Ctx, pc: int, off: int, x: X)
    requires x.pos <= |c.units| && Decode(code, pc) == Some(Goto(off))
    ensures Step(code, c, At(pc, x, [], [])) == At(pc + 5 + off, x, [], [])
  {
    hide Decode;
  }

  /** The unanchored search: attempt after attempt, one character further each time. */
  lemma {:induction false} SearchCorrect(code: seq<byte>, c: Ctx, n: Node, pc: int, p: nat)
    requires ValidCtx(c) && ValidNode(n) && p <= |c.units| && !MidPair(c, p)
    requires Placed(code, pc, Prefix(false)) && BodyPlaced(code, n, pc + 11)
    ensures Reach(code, c, At(pc, X(p, Unset(n)), [], []), Outcome(Search(c, n, false, p)))
    decreases |c.units| - p
  {
    hide ValidCtx, ValidNode, BodyPlaced, Placed, Reach, Results, Step, Unset, MidPair, Asm, At, SplitSaved, Decode;
    var x := X(p, Unset(n));
    var s, saved := At(pc, x, [], []), SplitSaved(pc + 5, x, []);
    PrefixDecodes(code, pc);
    SplitStep(code, c, pc, 6, x);
    ReachStep(code, c, s);
    SplitGrown(pc + 5, x);
    AttemptCorrect(code, c, n, pc + 11, p, [saved]);
    var rs := Results(c, n, 1, false, Mark(x, 0));
    if rs != [] {
      ReachTrans(code, c, s, At(pc + 11, x, [], [saved]), Done(true, Mark(rs[0], 1).caps));
    } else {
      ReachTrans(code, c, s, At(pc + 11, x, [], [saved]), Fail([saved]));
      ResumeSplit(code, c, pc + 5, x);
      ReachStep(code, c, Fail([saved]));
      ReachTrans(code, c, s, Fail([saved]), At(pc + 5, x, [], []));
      AnyStep(code, c, pc + 5, x);
      ReachStep(code, c, At(pc + 5, x, [], []));
      if p == |c.units| {
        ReachTrans(code, c, s, At(pc + 5, x, [], []), Fail([]));
        LastSteps(code, c, []);
        ReachStep(code, c, Fail([]));
        ReachTrans(code, c, s, Fail([]), Done(false, []));
      } else {
        var p' := GetChar(c, p, |c.units|).1;
        var y := X(p', Unset(n));
        ReachTrans(code, c, s, At(pc + 5, x, [], []), At(pc + 6, y, [], []));
        GotoStep(code, c, pc + 6, -11, y);
        ReachStep(code, c, At(pc + 6, y, [], []));
        ReachTrans(code, c, s, At(pc + 6, y, [], []), At(pc, y, [], []));
        SearchCorrect(code, c, n, pc, p');
        ReachTrans(code, c, s, At(pc, y, [], []), Outcome(Search(c, n, false, p')));
      }
    }
  }

  lemma SplitGrown(pc: int, x: X)
    ensures Grown([], [SplitSaved(pc, x, [])])
  {
  }

  // ---- from bytes to outcome ----

  /** A compiled pattern: a header, the code, and whatever follows it (the group names). */
  ghost predicate Compiled(code: seq<byte>, n: Node, sticky: bool) {
    && ValidNode(n) && 1 + Caps(n) <= 255 && Len(Program(n, sticky)) < MAX_LEN
    && AllValid(Program(n, sticky)) && BytesAt(code, HEADER_LEN, Bytes(Program(n, sticky)))
  }

  lemma ProgramPlaced(code: seq<byte>, n: Node, sticky: bool)
    requires Compiled(code, n, sticky)
    ensures Placed(code, HEADER_LEN, Prefix(sticky))
    ensures BodyPlaced(code, n, HEADER_LEN + Len(Prefix(sticky)))
  {
    hide Asm, BytesAt, Bytes, Decode, Placed, ValidNode, AllValid, Prefix, Len;
    var f := Asm(n, 1, false);
    var tail := [SaveStart(0)] + (f + ([SaveEnd(0)] + ([Match] + [])));
    assert Program(n, sticky) == Prefix(sticky) + tail;
    BytesPlaced(code, HEADER_LEN, Program(n, sticky));
    PlacedConcat(code, HEADER_LEN, Prefix(sticky), tail);
    var pc := HEADER_LEN + Len(Prefix(sticky));
    PlacedHead(code, pc, SaveStart(0), f + ([SaveEnd(0)] + ([Match] + [])));
    PlacedConcat(code, pc + 2, f, [SaveEnd(0)] + ([Match] + []));
    PlacedHead(code, pc + 2 + Len(f), SaveEnd(0), [Match] + []);
    PlacedHead(code, pc + 4 + Len(f), Match, []);
  }

  function Start(n: Node, p: nat): Conf {
    At(HEADER_LEN, X(p, Unset(n)), [], [])
  }

  /** lre_exec on compiled bytes halts, for every pattern, subject and start that splits no surrogate pair, and answers
      with the first match of the reference matcher and its captures, or reports that there is none. */
  lemma ExecCorrect(code: seq<byte>, c: Ctx, n: Node, sticky: bool, p: nat)
    requires ValidCtx(c) && Compiled(code, n, sticky) && p <= |c.units| && !MidPair(c, p)
    ensures Reach(code, c, Start(n, p), Outcome(Search(c, n, sticky, p)))
  {
    ProgramPlaced(code, n, sticky);
    PrefixLen(sticky);
    if sticky {
      hide Results, BodyPlaced, Placed, Step, ValidCtx, BytesAt, AllValid, MidPair;
      assert Grown([], []);
      AttemptCorrect(code, c, n, HEADER_LEN, p, []);
      var rs := Results(c, n, 1, false, Mark(X(p, Unset(n)), 0));
      if rs == [] {
        LastSteps(code, c, []);
        ReachStep(code, c, Fail([]));
        ReachTrans(code, c, Start(n, p), Fail([]), Done(false, []));
      }
    } else {
      hide Search, BodyPlaced, Placed, Step, ValidCtx, BytesAt, AllValid, MidPair;
      SearchCorrect(code, c, n, HEADER_LEN, p);
    }
  }

  lemma PrefixLen(sticky: bool)
    ensures Len(Prefix(sticky)) == if sticky then 0 else 11
  {
    if !sticky {
      assert Prefix(false) == [SplitGotoFirst(6)] + [ReCode.Any] + [Goto(-11)];
      LenThree(SplitGotoFirst(6), [ReCode.Any], Goto(-11));
      SimpleSingle(ReCode.Any);
    }
  }
}
