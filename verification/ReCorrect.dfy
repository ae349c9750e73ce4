/** Compilation preserves meaning: running a pattern's code delivers exactly the results of the reference matcher. */
module ReCorrect {
  import opened Optional
  import opened ReChars
  import opened ReCode
  import opened ReInput
  import opened ReMatch
  import opened ReVM
  import opened ReCompile
  import opened ReEnum
  import opened ReSimple
  import ReMoves
  import opened ReGreedy
  import opened ReParts
  import opened ReLook
  import opened ReLoops

  // ---- quantifiers ----

  lemma ResetCorrect(code: seq<byte>, c: Ctx, pc: int, stack: seq<int>, x: X, k: nat, caps: nat, exit: int, rs: seq<X>)
    requires x.pos <= |c.units| && 2 * (k + caps) <= |x.caps| && Placed(code, pc, Reset(k, caps))
    requires var y := if caps > 0 then X(x.pos, ResetCaps(x.caps, k, k + caps - 1)) else x;
             Cont(code, c, pc + Len(Reset(k, caps)), stack, y, exit, stack, rs)
    ensures Cont(code, c, pc, stack, x, exit, stack, rs)
  {
    if caps > 0 {
      var i := SaveReset(k, k + caps - 1);
      assert Reset(k, caps) == [i] + [];
      PlacedHead(code, pc, i, []);
      SimpleSingle(i);
      hide Decode, Cont, Placed;
      ContStep(code, c, pc, stack, x, pc + 3, stack, X(x.pos, ResetCaps(x.caps, k, k + caps - 1)), exit, stack, rs);
    }
  }

  /** The single optional iteration of `?`. */
  lemma OptionalCorrect(code: seq<byte>, c: Ctx, b: Node, k: nat, back: bool, greedy: bool, pc: int, stack: seq<int>, x: X,
                        g: seq<Instr>)
    requires Right(code, c, b, k, back) && ValidNode(b) && Ready(c, x, k + Caps(b))
    requires g == Checked(Asm(b, k, back), NeedCheckAdvance(Asm(b, k, back)))
    requires Placed(code, pc, [Split(greedy, Len(g))] + g)
    ensures Cont(code, c, pc, stack, x, pc + 5 + Len(g), stack, Rep(c, b, k, back, greedy, 0, 1, x))
  {
    hide Right, Asm, Cont, Results, Len, NeedCheckAdvance, Checked, Moved, Rep, Placed, Decode, Concat, ValidNode, Order;
    PlacedHead(code, pc, Split(greedy, Len(g)), g);
    CheckedCorrect(code, c, b, k, back, pc + 5, stack, x);
    MovedAfter(c, b, k, back, x);
    var ms := Moved(Results(c, b, k, back, x), x.pos);
    var fs := seq(|ms|, j requires 0 <= j < |ms| =>
                    assert After(c, back, x, ms[j]); Rep(c, b, k, back, greedy, 0, 0, ms[j]));
    forall j | 0 <= j < |ms| ensures fs[j] == [ms[j]] {
      RepNone(c, b, k, back, greedy, ms[j]);
    }
    ConcatSingles(ms, fs);
    RepOptional(c, b, k, back, greedy, 1, x, ms, fs);
    var exit := pc + 5 + Len(g);
    ContHere(code, c, exit, stack, x);
    SplitOrder(code, c, pc, stack, x, greedy, Len(g), exit, stack, ms);
  }

  /** A quantifier without a minimum, after the captures have been reset. */
  lemma FromZeroCorrect(code: seq<byte>, c: Ctx, b: Node, k: nat, back: bool, greedy: bool, pc: int, stack: seq<int>, x: X,
                        max: nat, g: seq<Instr>)
    requires Right(code, c, b, k, back) && ValidNode(b) && Ready(c, x, k + Caps(b)) && max <= INFINITE
    requires g == Checked(Asm(b, k, back), NeedCheckAdvance(Asm(b, k, back)))
    requires Placed(code, pc, if max == 1 then [Split(greedy, Len(g))] + g else Tail(g, greedy, max))
    ensures Cont(code, c, pc, stack, x, pc + Len(if max == 1 then [Split(greedy, Len(g))] + g else Tail(g, greedy, max)), stack,
                 Rep(c, b, k, back, greedy, 0, max, x))
  {
    hide Right, Asm, Cont, NeedCheckAdvance, Checked, Rep, Placed, ValidNode, Tail, TailRight;
    if max == 1 {
      OptionalCorrect(code, c, b, k, back, greedy, pc, stack, x, g);
      SimpleSingle(Split(greedy, Len(g)));
      LenConcat([Split(greedy, Len(g))], g);
    } else {
      TailCorrect(code, c, b, k, back, greedy, pc, stack, g, max);
      UseTail(code, c, b, k, back, greedy, pc, stack, pc + Len(Tail(g, greedy, max)), max, x);
    }
  }

  /** A quantifier with a minimum. */
  lemma FromMinCorrect(code: seq<byte>, c: Ctx, b: Node, k: nat, back: bool, greedy: bool, pc: int, stack: seq<int>, x: X,
                       min: nat, max: nat, f: seq<Instr>, t: seq<Instr>)
    requires Right(code, c, b, k, back) && ValidNode(b) && Ready(c, x, k + Caps(b)) && 0 < min <= max <= INFINITE
    requires f == Asm(b, k, back) && t == Tail(Checked(f, NeedCheckAdvance(f)), greedy, Minus(max, min))
    requires Placed(code, pc, (if min == 1 then f else Times(f, min)) + t)
    ensures Cont(code, c, pc, stack, x, pc + Len((if min == 1 then f else Times(f, min)) + t), stack,
                 Rep(c, b, k, back, greedy, min, max, x))
  {
    hide Right, Asm, Cont, NeedCheckAdvance, Checked, Rep, Placed, ValidNode, Tail, TailRight, Times, Len, Decode;
    var head := if min == 1 then f else Times(f, min);
    PlacedConcat(code, pc, head, t);
    LenConcat(head, t);
    var exit := pc + Len(head + t);
    TailCorrect(code, c, b, k, back, greedy, pc + Len(head), stack, Checked(f, NeedCheckAdvance(f)), Minus(max, min));
    if min == 1 {
      OnceCorrect(code, c, b, k, back, greedy, pc, stack, x, f, max, exit);
    } else {
      TimesParts(code, f, min, pc);
      TimesCorrect(code, c, b, k, back, greedy, pc + 5, stack, x, f, min, max, exit);
      PushCorrect(code, c, pc, stack, x, min, exit, stack, Rep(c, b, k, back, greedy, min, max, x));
    }
  }

  lemma TimesParts(code: seq<byte>, f: seq<Instr>, min: nat, pc: int)
    requires Placed(code, pc, Times(f, min))
    ensures Decode(code, pc) == Some(PushI32(min)) && Placed(code, pc + 5, f) && Len(Times(f, min)) == Len(f) + 11
    ensures Decode(code, pc + 5 + Len(f)) == Some(Loop(-(Len(f) + 5))) && Decode(code, pc + 10 + Len(f)) == Some(Drop)
  {
    hide Placed, Len, Decode;
    var push, j := PushI32(min), Loop(-(Len(f) + 5));
    assert Times(f, min) == [push] + (f + ([j] + ([Drop] + [])));
    PlacedHead(code, pc, push, f + ([j] + ([Drop] + [])));
    PlacedConcat(code, pc + 5, f, [j] + ([Drop] + []));
    PlacedHead(code, pc + 5 + Len(f), j, [Drop] + []);
    PlacedHead(code, pc + 10 + Len(f), Drop, []);
    assert Times(f, min) == ([push] + f + [j]) + [Drop];
    LenThree(push, f, j);
    LenConcat([push] + f + [j], [Drop]);
    SimpleSingle(Drop);
  }

  lemma QuantCorrect(code: seq<byte>, c: Ctx, b: Node, min: nat, max: nat, greedy: bool, k: nat, back: bool, pc: int,
                     stack: seq<int>, x: X)
    requires Right(code, c, b, k, back) && ValidCtx(c) && ValidNode(b) && min <= max <= INFINITE
    requires Placed(code, pc, Asm(Quant(b, min, max, greedy), k, back)) && Ready(c, x, k + Caps(b))
    ensures Cont(code, c, pc, stack, x, pc + Len(Asm(Quant(b, min, max, greedy), k, back)), stack,
                 Results(c, Quant(b, min, max, greedy), k, back, x))
  {
    hide Right, Asm, Cont, Results, NeedCheckAdvance, Rep, Placed, ValidCtx, ValidNode, Tail, Times, Len, Decode, SimpleCount,
         Checked, Split;
    QuantAsm(b, min, max, greedy, k, back);
    QuantResults(c, b, min, max, greedy, k, back, x);
    var f := Asm(b, k, back);
    var g := Checked(f, NeedCheckAdvance(f));
    var start := QuantStart(b, min, k, x);
    if UseSimple(f, max, greedy) {
      SimpleNoCaps(b, k, back);
      GreedyCorrect(code, c, b, k, back, pc, stack, x, min, max);
      LenThree(SimpleGreedyQuant(Len(f) + 1, min, max, SimpleCount(f)), f, Match);
    } else if min == 0 {
      var reset, rest := Reset(k, Caps(b)), if max == 1 then [Split(greedy, Len(g))] + g else Tail(g, greedy, max);
      PlacedConcat(code, pc, reset, rest);
      LenConcat(reset, rest);
      FromZeroCorrect(code, c, b, k, back, greedy, pc + Len(reset), stack, start, max, g);
      ResetCorrect(code, c, pc, stack, x, k, Caps(b), pc + Len(reset + rest), Rep(c, b, k, back, greedy, 0, max, start));
    } else if min == 1 && max == INFINITE && !NeedCheckAdvance(f) {
      var i := Again(greedy, -(Len(f) + 5));
      PlacedConcat(code, pc, f, [i]);
      assert [i] == [i] + [];
      PlacedHead(code, pc + Len(f), i, []);
      LenConcat(f, [i]);
      SimpleSingle(i);
      PlusCorrect(code, c, b, k, back, greedy, pc, stack, x, f);
    } else {
      FromMinCorrect(code, c, b, k, back, greedy, pc, stack, x, min, max, f, Tail(g, greedy, Minus(max, min)));
    }
  }

  /** A body the optimised opcode takes has no captures to reset. */
  lemma {:induction false} SimpleNoCaps(n: Node, k: nat, back: bool)
    requires SimpleCount(Asm(n, k, back)) >= 0 && ValidNode(n)
    ensures Caps(n) == 0
    decreases n, 0
  {
    match n {
      case Group(b) =>
      case Look(_, _, b) =>
      case Alt(a, b) =>
      case Quant(b, min, max, greedy) => QuantNoCaps(b, min, max, greedy, k, back);
      case Cat(a, b) =>
        hide Asm, SimpleCount;
        CatAsm(a, b, k, back);
        ReMoves.SimpleConcat(Asm(First(a, b, back), FirstCap(a, k, back), back),
                             Asm(Second(a, b, back), SecondCap(a, k, back), back));
        SimpleNoCaps(First(a, b, back), FirstCap(a, k, back), back);
        SimpleNoCaps(Second(a, b, back), SecondCap(a, k, back), back);
      case _ =>
    }
  }

  lemma QuantNoCaps(b: Node, min: nat, max: nat, greedy: bool, k: nat, back: bool)
    requires SimpleCount(Asm(Quant(b, min, max, greedy), k, back)) >= 0 && ValidNode(Quant(b, min, max, greedy))
    ensures Caps(b) == 0
    decreases b, 1
  {
    hide QuantCode, SimpleCount, Asm;
    var f, reset := Asm(b, k, back), Reset(k, Caps(b));
    QuantAsm(b, min, max, greedy, k, back);
    ReMoves.QuantTransparent(f, min, max, greedy, reset);
    if min == 0 {
      NoReset(k, Caps(b));
    } else {
      SimpleNoCaps(b, k, back);
    }
  }

  // ---- the theorem ----

  lemma CharCorrect(code: seq<byte>, c: Ctx, n: Node, k: nat, back: bool, pc: int, stack: seq<int>, x: X)
    requires IsCharNode(n) && ValidNode(n) && ValidCtx(c) && Ready(c, x, k)
    requires Placed(code, pc, Asm(n, k, back))
    ensures Cont(code, c, pc, stack, x, pc + Len(Asm(n, k, back)), stack, Results(c, n, k, back, x))
  {
    hide Cont, CharNodeInstr, ValidCtx, ValidNode, Decode, CharResults;
    var i := CharNodeInstr(n);
    assert Asm(n, k, back) == Backward(back, i) && Results(c, n, k, back, x) == CharResults(c, n, back, x);
    hide Asm, Results;
    if back {
      LenThree(Prev, [i], Prev);
      SimpleSingle(i);
      assert [Prev] + [i] + [Prev] == [Prev, i, Prev];
      BackwardChar(code, c, pc, stack, x, n);
    } else {
      assert [i] == [i] + [];
      PlacedHead(code, pc, i, []);
      SimpleSingle(i);
      ForwardChar(code, c, pc, stack, x, n);
    }
  }

  lemma SingleCorrect(code: seq<byte>, c: Ctx, n: Node, k: nat, back: bool, pc: int, stack: seq<int>, x: X)
    requires (n.LineStart? || n.LineEnd? || n.WordBoundary? || n.BackRef?) && Ready(c, x, k)
    requires Placed(code, pc, Asm(n, k, back))
    ensures Cont(code, c, pc, stack, x, pc + Len(Asm(n, k, back)), stack, Results(c, n, k, back, x))
  {
    hide Cont, Decode, AtLineStart, AtLineEnd, AtWordBoundary, BackRefResults, EndsLine, InWord;
    AssertionsAre(c, x.pos);
    var f, rs := Asm(n, k, back), Results(c, n, k, back, x);
    assert f == [f[0]] + [];
    PlacedHead(code, pc, f[0], []);
    SimpleSingle(f[0]);
    if n.BackRef? {
      BackRefCorrect(code, c, pc, stack, x, n.i, back);
    } else {
      AssertionCorrect(code, c, pc, stack, x, f[0], rs);
    }
  }

  /** For every pattern: wherever its code is placed, and from every start that splits no surrogate pair, the machine
      delivers exactly the results of the reference matcher, in its order, and then fails. */
  lemma {:induction false} CompileCorrect(code: seq<byte>, c: Ctx, n: Node, k: nat, back: bool)
    requires ValidCtx(c) && ValidNode(n)
    ensures Right(code, c, n, k, back)
    decreases n
  {
    hide Right;
    match n {
      case Group(b) => CompileCorrect(code, c, b, k + 1, back);
      case Look(_, behind, b) => CompileCorrect(code, c, b, k, behind);
      case Quant(b, _, _, _) => CompileCorrect(code, c, b, k, back);
      case Cat(a, b) =>
        CompileCorrect(code, c, a, k, back);
        CompileCorrect(code, c, b, k + Caps(a), back);
      case Alt(a, b) =>
        CompileCorrect(code, c, a, k, back);
        CompileCorrect(code, c, b, k + Caps(a), back);
      case _ =>
    }
    WholeRight(code, c, n, k, back);
  }

  lemma WholeRight(code: seq<byte>, c: Ctx, n: Node, k: nat, back: bool)
    requires ValidCtx(c) && ValidNode(n) && PartsRight(code, c, n, k, back)
    ensures Right(code, c, n, k, back)
  {
    hide RightAt, ValidCtx, ValidNode, PartsRight;
    forall pc: int, stack: seq<int>, x: X ensures RightAt(code, c, n, k, back, pc, stack, x) {
      WholeRightAt(code, c, n, k, back, pc, stack, x);
    }
  }

  lemma WholeRightAt(code: seq<byte>, c: Ctx, n: Node, k: nat, back: bool, pc: int, stack: seq<int>, x: X)
    requires ValidCtx(c) && ValidNode(n) && PartsRight(code, c, n, k, back)
    ensures RightAt(code, c, n, k, back, pc, stack, x)
  {
    hide ValidCtx, ValidNode, PartsRight, Placed, Asm, Cont, Results, Len;
    if Placed(code, pc, Asm(n, k, back)) && Ready(c, x, k + Caps(n)) {
      ConstructCorrect(code, c, n, k, back, pc, stack, x);
    }
  }

  ghost predicate PartsRight(code: seq<byte>, c: Ctx, n: Node, k: nat, back: bool) {
    match n
    case Group(b) => Right(code, c, b, k + 1, back)
    case Look(_, behind, b) => Right(code, c, b, k, behind)
    case Quant(b, _, _, _) => Right(code, c, b, k, back)
    case Cat(a, b) => Right(code, c, a, k, back) && Right(code, c, b, k + Caps(a), back)
    case Alt(a, b) => Right(code, c, a, k, back) && Right(code, c, b, k + Caps(a), back)
    case _ => true
  }

  lemma ConstructCorrect(code: seq<byte>, c: Ctx, n: Node, k: nat, back: bool, pc: int, stack: seq<int>, x: X)
    requires ValidCtx(c) && ValidNode(n) && PartsRight(code, c, n, k, back)
    requires Placed(code, pc, Asm(n, k, back)) && Ready(c, x, k + Caps(n))
    ensures Cont(code, c, pc, stack, x, pc + Len(Asm(n, k, back)), stack, Results(c, n, k, back, x))
  {
    hide Placed, Asm, Cont, Results, Len, ValidCtx, Right;
    match n {
      case Empty => EmptyCorrect(code, c, k, back, pc, stack, x);
      case Char(_) => CharCorrect(code, c, n, k, back, pc, stack, x);
      case Class(_) => CharCorrect(code, c, n, k, back, pc, stack, x);
      case Dot => CharCorrect(code, c, n, k, back, pc, stack, x);
      case Any => CharCorrect(code, c, n, k, back, pc, stack, x);
      case LineStart => SingleCorrect(code, c, n, k, back, pc, stack, x);
      case LineEnd => SingleCorrect(code, c, n, k, back, pc, stack, x);
      case WordBoundary(_) => SingleCorrect(code, c, n, k, back, pc, stack, x);
      case BackRef(_) => SingleCorrect(code, c, n, k, back, pc, stack, x);
      case Group(b) => GroupCorrect(code, c, b, k, back, pc, stack, x);
      case Look(negated, behind, b) => LookCorrect(code, c, b, negated, behind, k, back, pc, stack, x);
      case Quant(b, min, max, greedy) => QuantCorrect(code, c, b, min, max, greedy, k, back, pc, stack, x);
      case Cat(a, b) => CatCorrect(code, c, a, b, k, back, pc, stack, x);
      case Alt(a, b) => AltCorrect(code, c, a, b, k, back, pc, stack, x);
    }
  }

  lemma EmptyCorrect(code: seq<byte>, c: Ctx, k: nat, back: bool, pc: int, stack: seq<int>, x: X)
    requires x.pos <= |c.units|
    ensures Cont(code, c, pc, stack, x, pc + Len(Asm(Empty, k, back)), stack, Results(c, Empty, k, back, x))
  {
    hide Cont;
    ContHere(code, c, pc, stack, x);
  }
}
