/** The optimised greedy quantifier: one opcode that tries the same continuations as the general loop. */
module ReSimple {
  import opened Optional
  import opened ReChars
  import opened ReCode
  import opened ReInput
  import opened ReMatch
  import opened ReVM
  import opened ReCompile
  import opened ReRange
  import opened ReMoves
  import opened ReEnum

  lemma PlacedHead(code: seq<byte>, pc: int, i: Instr, rest: seq<Instr>)
    requires Placed(code, pc, [i] + rest)
    ensures Decode(code, pc) == Some(i) && Placed(code, pc + Size(i), rest)
  {
    assert ([i] + rest)[1..] == rest;
  }

  /** The instruction emitted for a character pattern tests what the pattern accepts. */
  lemma CharInstrCorrect(c: Ctx, n: Node, i: Instr, ch: int)
    requires IsCharNode(n) && ValidNode(n) && ValidCtx(c) && 0 <= ch <= MAX_CODE_POINT
    requires i == CharNodeInstr(n)
    ensures IsCharOp(i) && (CharTest(c, i, ch) <==> Accepts(c, n, ch))
  {
    if n.Class? && |n.points| >= 2 {
      RangeInstrCorrect(n.points, Canon(c, ch));
    }
  }

  // ---- stepping back ----

  lemma {:induction false} BackAdd(c: Ctx, p: nat, m: nat, n: nat)
    requires p <= |c.units| && Back(c, p, m) >= 0
    ensures Back(c, p, m + n) == Back(c, Back(c, p, m), n)
    decreases m
  {
    if m > 0 {
      BackAdd(c, GetPrevChar(c, p, 0).1, m - 1, n);
    }
  }

  /** A character pattern forward: one result, undone by one step back, or none. */
  lemma CharBack(c: Ctx, n: Node, x: X)
    requires x.pos <= |c.units| && !MidPair(c, x.pos) && IsCharNode(n)
    ensures |CharResults(c, n, false, x)| <= 1
    ensures forall r :: r in CharResults(c, n, false, x) ==>
      r.caps == x.caps && x.pos < r.pos <= |c.units| && Back(c, r.pos, 1) == x.pos
  {
    if x.pos < |c.units| {
      ForwardThenBack(c, x.pos);
      var p := GetChar(c, x.pos, |c.units|).1;
      assert Back(c, p, 1) == Back(c, GetPrevChar(c, p, 0).1, 0);
    }
  }

  /** What the nested run sees of a pattern whose code counts as simple. */
  ghost predicate Deterministic(code: seq<byte>, c: Ctx, pc: int, exit: int, x: X, rs: seq<X>, count: nat)
    requires x.pos <= |c.units|
  {
    && |rs| <= 1
    && (rs == [] ==> InnerRun(code, c, pc, x.pos) == NoMatch)
    && (rs != [] ==>
          && rs[0].caps == x.caps && x.pos <= rs[0].pos <= |c.units| && (count > 0 ==> x.pos < rs[0].pos)
          && InnerRun(code, c, pc, x.pos) == InnerRun(code, c, exit, rs[0].pos)
          && Back(c, rs[0].pos, count) == x.pos)
  }

  lemma InnerChar(code: seq<byte>, c: Ctx, n: Node, pc: int, x: X)
    requires ValidCtx(c) && ValidNode(n) && IsCharNode(n) && x.pos <= |c.units| && !MidPair(c, x.pos)
    requires Decode(code, pc) == Some(CharNodeInstr(n))
    ensures Deterministic(code, c, pc, pc + Size(CharNodeInstr(n)), x, CharResults(c, n, false, x), 1)
  {
    hide Decode, Back, GetChar, Accepts, CharTest, CharNodeInstr, MidPair, IsCharOp, ValidCtx, ValidNode;
    var i := CharNodeInstr(n);
    CharBack(c, n, x);
    CharInstrCorrect(c, n, i, 0);
    if x.pos < |c.units| {
      var ch := GetChar(c, x.pos, |c.units|).0;
      CharRange(c, x.pos, |c.units|);
      CharInstrCorrect(c, n, i, ch);
    }
  }

  lemma {:induction false} SimpleRuns(code: seq<byte>, c: Ctx, n: Node, k: nat, back: bool, pc: int, x: X)
    requires ValidCtx(c) && ValidNode(n) && x.pos <= |c.units| && !MidPair(c, x.pos)
    requires SimpleCount(Asm(n, k, back)) >= 0
    requires Placed(code, pc, Asm(n, k, back))
    ensures Deterministic(code, c, pc, pc + Len(Asm(n, k, back)), x, Results(c, n, k, back, x), SimpleCount(Asm(n, k, back)))
    decreases n, 2
  {
    hide InnerRun, Back, Decode, Placed, Len, Results, ValidCtx, MidPair;
    var f := Asm(n, k, back);
    match n {
      case Empty => SimpleAssertion(code, c, n, k, back, pc, x);
      case Char(_) => SimpleChar(code, c, n, k, back, pc, x);
      case Class(_) => SimpleChar(code, c, n, k, back, pc, x);
      case Dot => SimpleChar(code, c, n, k, back, pc, x);
      case Any => SimpleChar(code, c, n, k, back, pc, x);
      case LineStart => SimpleAssertion(code, c, n, k, back, pc, x);
      case LineEnd => SimpleAssertion(code, c, n, k, back, pc, x);
      case WordBoundary(_) => SimpleAssertion(code, c, n, k, back, pc, x);
      case BackRef(_) =>
      case Look(_, _, _) =>
      case Alt(_, _) =>
      case Group(_) =>
      case Cat(a, b) => SimpleCat(code, c, a, b, k, back, pc, x);
      case Quant(b, min, max, greedy) => SimpleQuant(code, c, b, min, max, greedy, k, back, pc, x);
    }
  }

  lemma SimpleSingle(i: Instr)
    ensures SimpleCount([i]) == if Moves(i) then 1 else if i.LineStart? || i.LineEnd? || i.WordBoundary? || i.NotWordBoundary? then 0 else -1
    ensures Len([i]) == Size(i)
  {
    assert [i][1..] == [];
  }

  lemma SimpleAssertion(code: seq<byte>, c: Ctx, n: Node, k: nat, back: bool, pc: int, x: X)
    requires x.pos <= |c.units| && (n.Empty? || n.LineStart? || n.LineEnd? || n.WordBoundary?)
    requires Placed(code, pc, Asm(n, k, back))
    ensures SimpleCount(Asm(n, k, back)) == 0
    ensures Deterministic(code, c, pc, pc + Len(Asm(n, k, back)), x, Results(c, n, k, back, x), 0)
  {
    hide AtLineStart, AtLineEnd, AtWordBoundary, GetChar, CharTest, EndsLine, InWord;
    AssertionsAre(c, x.pos);
    var f := Asm(n, k, back);
    if f != [] {
      PlacedHead(code, pc, f[0], []);
      SimpleSingle(f[0]);
    }
  }

  lemma ResultsSeqNone(c: Ctx, n: Node, k: nat, back: bool, o: X)
    ensures ResultsSeq(c, n, k, back, o, []) == []
  {
  }

  lemma ResultsSeqOne(c: Ctx, n: Node, k: nat, back: bool, o: X, y: X)
    requires After(c, back, o, y)
    ensures ResultsSeq(c, n, k, back, o, [y]) == Results(c, n, k, back, y)
  {
    assert [y][1..] == [];
    assert ResultsSeq(c, n, k, back, o, []) == [];
  }

  lemma SimpleChar(code: seq<byte>, c: Ctx, n: Node, k: nat, back: bool, pc: int, x: X)
    requires ValidCtx(c) && ValidNode(n) && IsCharNode(n) && x.pos <= |c.units| && !MidPair(c, x.pos)
    requires SimpleCount(Asm(n, k, back)) >= 0
    requires Placed(code, pc, Asm(n, k, back))
    ensures Deterministic(code, c, pc, pc + Len(Asm(n, k, back)), x, Results(c, n, k, back, x), SimpleCount(Asm(n, k, back)))
  {
    hide InnerRun, Decode, Deterministic, ValidCtx, Back;
    var f := Asm(n, k, back);
    if !back {
      assert f == [CharNodeInstr(n)] + [];
      PlacedHead(code, pc, f[0], []);
      SimpleSingle(f[0]);
      InnerChar(code, c, n, pc, x);
    }
  }

  lemma DeterministicNone(code: seq<byte>, c: Ctx, pc: int, mid: int, exit: int, x: X, m: nat, n: nat)
    requires x.pos <= |c.units| && Deterministic(code, c, pc, mid, x, [], m)
    ensures Deterministic(code, c, pc, exit, x, [], n)
  {
  }

  lemma DeterministicOne(code: seq<byte>, c: Ctx, pc: int, mid: int, x: X, rs: seq<X>, m: nat)
    requires x.pos <= |c.units| && rs != [] && Deterministic(code, c, pc, mid, x, rs, m)
    ensures rs == [rs[0]]
  {
  }

  lemma DeterministicThen(code: seq<byte>, c: Ctx, pc: int, mid: int, exit: int, x: X, y: X, rs: seq<X>, m: nat, n: nat)
    requires x.pos <= |c.units| && y.pos <= |c.units|
    requires Deterministic(code, c, pc, mid, x, [y], m)
    requires Deterministic(code, c, mid, exit, y, rs, n)
    ensures Deterministic(code, c, pc, exit, x, rs, m + n)
  {
    hide InnerRun;
    if rs != [] {
      BackAdd(c, rs[0].pos, n, m);
    }
  }

  lemma {:induction false} SimpleSeq(code: seq<byte>, c: Ctx, n: Node, n1: Node, k1: nat, n2: Node, k2: nat, back: bool,
                                     pc: int, x: X)
    requires n == Cat(n1, n2) || n == Cat(n2, n1)
    requires ValidCtx(c) && ValidNode(n1) && ValidNode(n2) && x.pos <= |c.units| && !MidPair(c, x.pos)
    requires SimpleCount(Asm(n1, k1, back) + Asm(n2, k2, back)) >= 0
    requires Placed(code, pc, Asm(n1, k1, back) + Asm(n2, k2, back))
    ensures var f := Asm(n1, k1, back) + Asm(n2, k2, back);
            Deterministic(code, c, pc, pc + Len(f), x, ResultsSeq(c, n2, k2, back, x, Results(c, n1, k1, back, x)), SimpleCount(f))
    decreases n, 0
  {
    hide Asm, Results, ResultsSeq, SimpleCount, Placed, Len, Deterministic, ValidCtx, ValidNode;
    var f, g := Asm(n1, k1, back), Asm(n2, k2, back);
    var rs := Results(c, n1, k1, back, x);
    SimpleConcat(f, g);
    PlacedConcat(code, pc, f, g);
    LenConcat(f, g);
    SimpleRuns(code, c, n1, k1, back, pc, x);
    var mid, exit := pc + Len(f), pc + Len(f) + Len(g);
    if rs == [] {
      ResultsSeqNone(c, n2, k2, back, x);
      DeterministicNone(code, c, pc, mid, exit, x, SimpleCount(f), SimpleCount(f) + SimpleCount(g));
    } else {
      var y := rs[0];
      assert y in rs && After(c, back, x, y);
      DeterministicOne(code, c, pc, mid, x, rs, SimpleCount(f));
      SimpleRuns(code, c, n2, k2, back, mid, y);
      ResultsSeqOne(c, n2, k2, back, x, y);
      DeterministicThen(code, c, pc, mid, exit, x, y, Results(c, n2, k2, back, y), SimpleCount(f), SimpleCount(g));
    }
  }

  lemma {:induction false} SimpleCat(code: seq<byte>, c: Ctx, a: Node, b: Node, k: nat, back: bool, pc: int, x: X)
    requires ValidCtx(c) && ValidNode(Cat(a, b)) && x.pos <= |c.units| && !MidPair(c, x.pos)
    requires SimpleCount(Asm(Cat(a, b), k, back)) >= 0
    requires Placed(code, pc, Asm(Cat(a, b), k, back))
    ensures Deterministic(code, c, pc, pc + Len(Asm(Cat(a, b), k, back)), x, Results(c, Cat(a, b), k, back, x),
                          SimpleCount(Asm(Cat(a, b), k, back)))
    decreases Cat(a, b), 1
  {
    hide Asm, Results, ResultsSeq, SimpleCount, Placed, Len, Deterministic, ValidCtx;
    CatAsm(a, b, k, back);
    CatResults(c, a, b, k, back, x);
    SimpleSeq(code, c, Cat(a, b), First(a, b, back), FirstCap(a, k, back), Second(a, b, back), SecondCap(a, k, back),
              back, pc, x);
  }

  lemma {:induction false} SimpleQuant(code: seq<byte>, c: Ctx, b: Node, min: nat, max: nat, greedy: bool, k: nat,
                                       back: bool, pc: int, x: X)
    requires ValidCtx(c) && ValidNode(Quant(b, min, max, greedy)) && x.pos <= |c.units| && !MidPair(c, x.pos)
    requires SimpleCount(Asm(Quant(b, min, max, greedy), k, back)) >= 0
    requires Placed(code, pc, Asm(Quant(b, min, max, greedy), k, back))
    ensures Deterministic(code, c, pc, pc + Len(Asm(Quant(b, min, max, greedy), k, back)), x,
                          Results(c, Quant(b, min, max, greedy), k, back, x),
                          SimpleCount(Asm(Quant(b, min, max, greedy), k, back)))
    decreases Quant(b, min, max, greedy), 0
  {
    hide InnerRun, Back, Placed, ValidCtx, Deterministic, SimpleCount, Len, Rep, RepSeq, Caps, MidPair, Results, Asm,
         QuantCode, Reset;
    var f, reset := Asm(b, k, back), Reset(k, Caps(b));
    QuantAsm(b, min, max, greedy, k, back);
    QuantResults(c, b, min, max, greedy, k, back, x);
    QuantTransparent(f, min, max, greedy, reset);
    if min == 0 {
      NoReset(k, Caps(b));
      QuantNothing(code, c, b, k, back, greedy, pc, x);
    } else {
      RepOnce(c, b, k, back, greedy, x);
      SimpleRuns(code, c, b, k, back, pc, x);
    }
  }

  lemma RepOnce(c: Ctx, b: Node, k: nat, back: bool, greedy: bool, x: X)
    requires x.pos <= |c.units|
    ensures Rep(c, b, k, back, greedy, 1, 1, x) == Results(c, b, k, back, x)
  {
    hide Results;
    RepSeqZero(c, b, k, back, greedy, |c.units| + 1, x, Results(c, b, k, back, x));
  }

  lemma NoReset(k: nat, caps: nat)
    ensures SimpleCount(Reset(k, caps)) >= 0 ==> caps == 0 && Reset(k, caps) == [] && SimpleCount([]) == 0 && Len([]) == 0
  {
  }

  lemma QuantNothing(code: seq<byte>, c: Ctx, b: Node, k: nat, back: bool, greedy: bool, pc: int, x: X)
    requires x.pos <= |c.units|
    ensures Deterministic(code, c, pc, pc, x, Rep(c, b, k, back, greedy, 0, 0, x), 0)
  {
  }
}
