/** The loops quantifiers are compiled to, against RepeatMatcher. */
module ReLoops {
  import opened Optional
  import opened ReCode
  import opened ReInput
  import opened ReMatch
  import opened ReVM
  import opened ReCompile
  import opened ReEnum
  import opened ReMoves
  import opened ReSimple
  import opened ReParts

  /** One optional iteration: the body, giving up the results that did not move. */
  lemma CheckedCorrect(code: seq<byte>, c: Ctx, b: Node, k: nat, back: bool, pc: int, stack: seq<int>, x: X)
    requires Right(code, c, b, k, back) && ValidNode(b) && Ready(c, x, k + Caps(b))
    requires Placed(code, pc, Checked(Asm(b, k, back), NeedCheckAdvance(Asm(b, k, back))))
    ensures Cont(code, c, pc, stack, x, pc + Len(Checked(Asm(b, k, back), NeedCheckAdvance(Asm(b, k, back)))), stack,
                 Moved(Results(c, b, k, back, x), x.pos))
  {
    hide Right, Placed, Asm, Cont, Results, Len, NeedCheckAdvance, Moved;
    var f, rs := Asm(b, k, back), Results(c, b, k, back, x);
    if NeedCheckAdvance(f) {
      assert [PushCharPos] + f + [CheckAdvance] == [PushCharPos] + (f + [CheckAdvance]);
      assert [CheckAdvance] == [CheckAdvance] + [];
      PlacedHead(code, pc, PushCharPos, f + [CheckAdvance]);
      PlacedConcat(code, pc + 1, f, [CheckAdvance]);
      PlacedHead(code, pc + 1 + Len(f), CheckAdvance, []);
      LenThree(PushCharPos, f, CheckAdvance);
      UseRight(code, c, b, k, back, pc + 1, stack + [x.pos], x);
      CheckEnds(code, c, pc, stack, x, pc + 1 + Len(f), rs);
    } else {
      UseRight(code, c, b, k, back, pc, stack, x);
      forall j | 0 <= j < |rs| ensures rs[j].pos != x.pos {
        assert rs[j] in rs;
        AlwaysMoves(c, b, k, back, x, rs[j]);
      }
      MovedAll(rs, x.pos);
    }
  }

  lemma CheckEnds(code: seq<byte>, c: Ctx, pc: int, stack: seq<int>, x: X, mid: int, rs: seq<X>)
    requires x.pos <= |c.units| && Decode(code, pc) == Some(PushCharPos) && Decode(code, mid) == Some(CheckAdvance)
    requires Cont(code, c, pc + 1, stack + [x.pos], x, mid, stack + [x.pos], rs)
    requires forall j :: 0 <= j < |rs| ==> rs[j].pos <= |c.units|
    ensures Cont(code, c, pc, stack, x, mid + 1, stack, Moved(rs, x.pos))
  {
    hide Decode, Cont, Moved, Step, At;
    var st := stack + [x.pos];
    var fs := seq(|rs|, j requires 0 <= j < |rs| => if rs[j].pos == x.pos then [] else [rs[j]]);
    forall j | 0 <= j < |rs| ensures Cont(code, c, mid, st, rs[j], mid + 1, stack, fs[j]) {
      CheckStep(code, c, mid, stack, x.pos, rs[j]);
      if rs[j].pos == x.pos {
        ContFail(code, c, mid, st, rs[j], mid + 1, stack);
      } else {
        ContOne(code, c, mid, st, rs[j], mid + 1, stack, rs[j]);
      }
    }
    ContThen(code, c, pc + 1, st, x, mid, st, rs, mid + 1, stack, fs);
    ConcatMoved(rs, x.pos, fs);
    PushStep(code, c, pc, stack, x);
    ContStep(code, c, pc, stack, x, pc + 1, st, x, mid + 1, stack, Moved(rs, x.pos));
  }

  lemma CheckStep(code: seq<byte>, c: Ctx, pc: int, stack: seq<int>, p: int, x: X)
    requires x.pos <= |c.units| && Decode(code, pc) == Some(CheckAdvance)
    ensures forall saved :: Step(code, c, At(pc, x, stack + [p], saved))
                         == if x.pos == p then Fail(saved) else At(pc + 1, x, stack, saved)
  {
    hide Decode;
    var st := stack + [p];
    assert st[..|st| - 1] == stack;
  }

  lemma PushStep(code: seq<byte>, c: Ctx, pc: int, stack: seq<int>, x: X)
    requires x.pos <= |c.units|
    ensures Decode(code, pc) == Some(PushCharPos) ==>
      forall saved :: Step(code, c, At(pc, x, stack, saved)) == At(pc + 1, x, stack + [x.pos], saved)
    ensures forall v :: Decode(code, pc) == Some(PushI32(v)) ==>
      forall saved :: Step(code, c, At(pc, x, stack, saved)) == At(pc + 5, x, stack + [v], saved)
  {
    hide Decode;
  }

  // ---- RepeatMatcher, unfolded once ----

  ghost function Order(greedy: bool, more: seq<X>, x: X): seq<X> {
    if greedy then more + [x] else [x] + more
  }

  /** The optional part: iterate with what moved, or stop, in the order of the quantifier. */
  lemma RepOptional(c: Ctx, b: Node, k: nat, back: bool, greedy: bool, max: nat, x: X, ms: seq<X>, fs: seq<seq<X>>)
    requires x.pos <= |c.units| && max > 0 && ms == Moved(Results(c, b, k, back, x), x.pos) && |fs| == |ms|
    requires forall j :: 0 <= j < |ms| ==> After(c, back, x, ms[j]) && fs[j] == Rep(c, b, k, back, greedy, 0, Dec(max), ms[j])
    ensures Rep(c, b, k, back, greedy, 0, max, x) == Order(greedy, Concat(fs), x)
  {
    hide Results, Concat, RepSeq;
    forall j | 0 <= j < |ms| ensures Dist(c, back, ms[j].pos) < Dist(c, back, x.pos) {
      assert ms[j] in ms;
    }
    ConcatRep(c, b, k, back, greedy, 0, Dec(max), Dist(c, back, x.pos), x, ms, fs);
  }

  lemma RepRequired(c: Ctx, b: Node, k: nat, back: bool, greedy: bool, min: nat, max: nat, x: X, rs: seq<X>, fs: seq<seq<X>>)
    requires x.pos <= |c.units| && min > 0 && rs == Results(c, b, k, back, x) && |fs| == |rs|
    requires forall j :: 0 <= j < |rs| ==>
      After(c, back, x, rs[j]) && fs[j] == Rep(c, b, k, back, greedy, min - 1, Dec(max), rs[j])
    ensures Rep(c, b, k, back, greedy, min, max, x) == Concat(fs)
  {
    hide Results, Concat, RepSeq;
    ConcatRep(c, b, k, back, greedy, min - 1, Dec(max), |c.units| + 1, x, rs, fs);
  }

  lemma MovedAfter(c: Ctx, b: Node, k: nat, back: bool, x: X)
    requires x.pos <= |c.units|
    ensures forall j :: 0 <= j < |Moved(Results(c, b, k, back, x), x.pos)| ==>
      var m := Moved(Results(c, b, k, back, x), x.pos)[j];
      After(c, back, x, m) && Dist(c, back, m.pos) < Dist(c, back, x.pos)
  {
    var rs := Results(c, b, k, back, x);
    var ms := Moved(rs, x.pos);
    hide Results, Moved;
    forall j | 0 <= j < |ms| ensures After(c, back, x, ms[j]) && Dist(c, back, ms[j].pos) < Dist(c, back, x.pos) {
      assert ms[j] in ms && ms[j] in rs;
    }
  }

  /** A split chooses between going on and stopping in the order of the quantifier. */
  lemma SplitOrder(code: seq<byte>, c: Ctx, pc: int, stack: seq<int>, x: X, greedy: bool, off: int, exit: int,
                   stack2: seq<int>, more: seq<X>)
    requires x.pos <= |c.units| && Decode(code, pc) == Some(Split(greedy, off))
    requires Cont(code, c, pc + 5, stack, x, exit, stack2, more)
    requires Cont(code, c, pc + 5 + off, stack, x, exit, stack2, [x])
    ensures Cont(code, c, pc, stack, x, exit, stack2, Order(greedy, more, x))
  {
    hide Cont, Decode;
    if greedy {
      ContSplitNext(code, c, pc, stack, x, off, exit, stack2, more, [x]);
    } else {
      ContSplitGoto(code, c, pc, stack, x, off, exit, stack2, [x], more);
    }
  }

  // ---- the unbounded loop ----

  /** What `Star` needs in place: split, body, jump back. */
  ghost predicate StarPlaced(code: seq<byte>, g: seq<Instr>, greedy: bool, pc: int) {
    && Decode(code, pc) == Some(Split(greedy, Len(g) + 5))
    && Placed(code, pc + 5, g)
    && Decode(code, pc + 5 + Len(g)) == Some(Goto(-(Len(g) + 10)))
  }

  lemma StarParts(code: seq<byte>, g: seq<Instr>, greedy: bool, pc: int)
    requires Placed(code, pc, Star(g, greedy))
    ensures StarPlaced(code, g, greedy, pc) && Len(Star(g, greedy)) == Len(g) + 10
  {
    hide Placed, Len, Decode;
    var i, j := Split(greedy, Len(g) + 5), Goto(-(Len(g) + 10));
    assert [i] + g + [j] == [i] + (g + [j]) && [j] == [j] + [];
    PlacedHead(code, pc, i, g + [j]);
    PlacedConcat(code, pc + 5, g, [j]);
    PlacedHead(code, pc + 5 + Len(g), j, []);
    LenThree(i, g, j);
  }

  lemma {:induction false} StarCorrect(code: seq<byte>, c: Ctx, b: Node, k: nat, back: bool, greedy: bool, pc: int,
                                       stack: seq<int>, x: X, g: seq<Instr>)
    requires Right(code, c, b, k, back) && ValidNode(b) && Ready(c, x, k + Caps(b))
    requires g == Checked(Asm(b, k, back), NeedCheckAdvance(Asm(b, k, back))) && StarPlaced(code, g, greedy, pc)
    ensures Cont(code, c, pc, stack, x, pc + Len(g) + 10, stack, Rep(c, b, k, back, greedy, 0, INFINITE, x))
    decreases Dist(c, back, x.pos)
  {
    hide Right, Asm, Cont, Results, Len, NeedCheckAdvance, Checked, Moved, Rep, Placed, Decode, Concat, ValidNode, Order;
    var mid, exit := pc + 5 + Len(g), pc + Len(g) + 10;
    var ms := Moved(Results(c, b, k, back, x), x.pos);
    MovedAfter(c, b, k, back, x);
    CheckedCorrect(code, c, b, k, back, pc + 5, stack, x);
    var fs := seq(|ms|, j requires 0 <= j < |ms| =>
                    assert After(c, back, x, ms[j]); Rep(c, b, k, back, greedy, 0, INFINITE, ms[j]));
    ContThenGoto(code, c, pc + 5, stack, x, mid, stack, ms, -(Len(g) + 10));
    forall j | 0 <= j < |ms| ensures Cont(code, c, pc, stack, ms[j], exit, stack, fs[j]) {
      ReadyAfter(c, back, x, ms[j], k + Caps(b));
      StarCorrect(code, c, b, k, back, greedy, pc, stack, ms[j], g);
    }
    ContThen(code, c, pc + 5, stack, x, pc, stack, ms, exit, stack, fs);
    RepOptional(c, b, k, back, greedy, INFINITE, x, ms, fs);
    ContHere(code, c, exit, stack, x);
    SplitOrder(code, c, pc, stack, x, greedy, Len(g) + 5, exit, stack, Concat(fs));
  }

  // ---- counted loops ----

  lemma LoopStep(code: seq<byte>, c: Ctx, pc: int, off: int, stack: seq<int>, n: nat, x: X)
    requires x.pos <= |c.units| && Decode(code, pc) == Some(Loop(off)) && n > 0
    ensures forall saved :: Step(code, c, At(pc, x, stack + [n], saved))
                         == At(if n - 1 != 0 then pc + 5 + off else pc + 5, x, stack + [n - 1], saved)
  {
    hide Decode;
    var st := stack + [n];
    assert st[|stack| := n - 1] == stack + [n - 1];
  }

  lemma DropCorrect(code: seq<byte>, c: Ctx, pc: int, stack: seq<int>, n: int, x: X)
    requires x.pos <= |c.units| && Decode(code, pc) == Some(Drop)
    ensures Cont(code, c, pc, stack + [n], x, pc + 1, stack, [x])
  {
    hide Decode, Cont;
    var st := stack + [n];
    assert st[..|st| - 1] == stack;
    ContOne(code, c, pc, st, x, pc + 1, stack, x);
  }

  /** At the end of an iteration of a counted loop: back to the start with one less, or out past the counter. */
  lemma LoopCorrect(code: seq<byte>, c: Ctx, pc: int, off: int, stack: seq<int>, n: nat, x: X, exit: int, stack2: seq<int>,
                    rs: seq<X>)
    requires x.pos <= |c.units| && Decode(code, pc) == Some(Loop(off)) && Decode(code, pc + 5) == Some(Drop) && n > 0
    requires n > 1 ==> Cont(code, c, pc + 5 + off, stack + [n - 1], x, exit, stack2, rs)
    requires n == 1 ==> Cont(code, c, pc + 6, stack, x, exit, stack2, rs)
    ensures Cont(code, c, pc, stack + [n], x, exit, stack2, rs)
  {
    hide Decode, Cont, Step, At;
    LoopStep(code, c, pc, off, stack, n, x);
    if n > 1 {
      ContStep(code, c, pc, stack + [n], x, pc + 5 + off, stack + [n - 1], x, exit, stack2, rs);
    } else {
      DropCorrect(code, c, pc + 5, stack, 0, x);
      ConcatOne(rs);
      ContThen(code, c, pc + 5, stack + [0], x, pc + 6, stack, [x], exit, stack2, [rs]);
      ContStep(code, c, pc, stack + [n], x, pc + 5, stack + [0], x, exit, stack2, rs);
    }
  }

  ghost predicate UpToPlaced(code: seq<byte>, g: seq<Instr>, greedy: bool, pc: int) {
    && Decode(code, pc) == Some(Split(greedy, Len(g) + 5))
    && Placed(code, pc + 5, g)
    && Decode(code, pc + 5 + Len(g)) == Some(Loop(-(Len(g) + 10)))
    && Decode(code, pc + 10 + Len(g)) == Some(Drop)
  }

  lemma UpToParts(code: seq<byte>, g: seq<Instr>, greedy: bool, pc: int, max: nat)
    requires Placed(code, pc, UpTo(g, greedy, max))
    ensures Decode(code, pc) == Some(PushI32(max)) && UpToPlaced(code, g, greedy, pc + 5)
    ensures Len(UpTo(g, greedy, max)) == Len(g) + 16
  {
    hide Placed, Len, Decode;
    var push, i, j := PushI32(max), Split(greedy, Len(g) + 5), Loop(-(Len(g) + 10));
    assert [push, i] + g + [j, Drop] == [push] + ([i] + (g + ([j] + ([Drop] + []))));
    PlacedHead(code, pc, push, [i] + (g + ([j] + ([Drop] + []))));
    PlacedHead(code, pc + 5, i, g + ([j] + ([Drop] + [])));
    PlacedConcat(code, pc + 10, g, [j] + ([Drop] + []));
    PlacedHead(code, pc + 10 + Len(g), j, [Drop] + []);
    PlacedHead(code, pc + 15 + Len(g), Drop, []);
    LenThree(i, g, j);
    assert UpTo(g, greedy, max) == [push] + ([i] + g + [j]) + [Drop];
    LenThree(push, [i] + g + [j], Drop);
  }

  lemma {:induction false} UpToCorrect(code: seq<byte>, c: Ctx, b: Node, k: nat, back: bool, greedy: bool, pc: int,
                                       stack: seq<int>, x: X, g: seq<Instr>, n: nat)
    requires Right(code, c, b, k, back) && ValidNode(b) && Ready(c, x, k + Caps(b)) && 0 < n < INFINITE
    requires g == Checked(Asm(b, k, back), NeedCheckAdvance(Asm(b, k, back))) && UpToPlaced(code, g, greedy, pc)
    ensures Cont(code, c, pc, stack + [n], x, pc + Len(g) + 11, stack, Rep(c, b, k, back, greedy, 0, n, x))
    decreases n
  {
    hide Right, Asm, Cont, Results, Len, NeedCheckAdvance, Checked, Moved, Rep, Placed, Decode, Concat, ValidNode, Order;
    var mid, exit := pc + 5 + Len(g), pc + Len(g) + 11;
    var ms := Moved(Results(c, b, k, back, x), x.pos);
    MovedAfter(c, b, k, back, x);
    CheckedCorrect(code, c, b, k, back, pc + 5, stack + [n], x);
    var fs := seq(|ms|, j requires 0 <= j < |ms| =>
                    assert After(c, back, x, ms[j]); Rep(c, b, k, back, greedy, 0, n - 1, ms[j]));
    forall j | 0 <= j < |ms| ensures Cont(code, c, mid, stack + [n], ms[j], exit, stack, fs[j]) {
      ReadyAfter(c, back, x, ms[j], k + Caps(b));
      if n > 1 {
        UpToCorrect(code, c, b, k, back, greedy, pc, stack, ms[j], g, n - 1);
      } else {
        RepNone(c, b, k, back, greedy, ms[j]);
        ContHere(code, c, exit, stack, ms[j]);
      }
      LoopCorrect(code, c, mid, -(Len(g) + 10), stack, n, ms[j], exit, stack, fs[j]);
    }
    ContThen(code, c, pc + 5, stack + [n], x, mid, stack + [n], ms, exit, stack, fs);
    RepOptional(c, b, k, back, greedy, n, x, ms, fs);
    DropCorrect(code, c, mid + 5, stack, n, x);
    SplitOrder(code, c, pc, stack + [n], x, greedy, Len(g) + 5, exit, stack, Concat(fs));
  }

  lemma RepNone(c: Ctx, b: Node, k: nat, back: bool, greedy: bool, x: X)
    requires x.pos <= |c.units|
    ensures Rep(c, b, k, back, greedy, 0, 0, x) == [x]
  {
  }

  // ---- what follows the required iterations ----

  /** From `pc` the code goes through up to `max` further iterations and arrives at `exit`. */
  ghost predicate TailRight(code: seq<byte>, c: Ctx, b: Node, k: nat, back: bool, greedy: bool, pc: int, stack: seq<int>,
                            exit: int, max: nat) {
    forall x: X :: Ready(c, x, k + Caps(b)) ==>
      Cont(code, c, pc, stack, x, exit, stack, Rep(c, b, k, back, greedy, 0, max, x))
  }

  lemma TailCorrect(code: seq<byte>, c: Ctx, b: Node, k: nat, back: bool, greedy: bool, pc: int, stack: seq<int>,
                    g: seq<Instr>, max: nat)
    requires Right(code, c, b, k, back) && ValidNode(b) && max <= INFINITE
    requires g == Checked(Asm(b, k, back), NeedCheckAdvance(Asm(b, k, back))) && Placed(code, pc, Tail(g, greedy, max))
    ensures TailRight(code, c, b, k, back, greedy, pc, stack, pc + Len(Tail(g, greedy, max)), max)
  {
    hide Right, Asm, Cont, Len, NeedCheckAdvance, Checked, Rep, Placed, Decode, ValidNode, Star, UpTo;
    var exit := pc + Len(Tail(g, greedy, max));
    if max == 0 { LenNone(); }
    forall x: X | Ready(c, x, k + Caps(b))
      ensures Cont(code, c, pc, stack, x, exit, stack, Rep(c, b, k, back, greedy, 0, max, x))
    {
      if max == INFINITE {
        StarParts(code, g, greedy, pc);
        StarCorrect(code, c, b, k, back, greedy, pc, stack, x, g);
      } else if max > 0 {
        UpToParts(code, g, greedy, pc, max);
        UpToCorrect(code, c, b, k, back, greedy, pc + 5, stack, x, g, max);
        PushCorrect(code, c, pc, stack, x, max, exit, stack, Rep(c, b, k, back, greedy, 0, max, x));
      } else {
        RepNone(c, b, k, back, greedy, x);
        ContHere(code, c, pc, stack, x);
      }
    }
  }

  lemma LenNone()
    ensures Len([]) == 0
  {
  }

  lemma PushCorrect(code: seq<byte>, c: Ctx, pc: int, stack: seq<int>, x: X, v: nat, exit: int, stack2: seq<int>, rs: seq<X>)
    requires x.pos <= |c.units| && Decode(code, pc) == Some(PushI32(v))
    requires Cont(code, c, pc + 5, stack + [v], x, exit, stack2, rs)
    ensures Cont(code, c, pc, stack, x, exit, stack2, rs)
  {
    hide Cont, Step, At, Decode;
    PushStep(code, c, pc, stack, x);
    ContStep(code, c, pc, stack, x, pc + 5, stack + [v], x, exit, stack2, rs);
  }

  /** `m` required iterations counted down on the stack, then the tail. */
  lemma {:induction false} TimesCorrect(code: seq<byte>, c: Ctx, b: Node, k: nat, back: bool, greedy: bool, pc: int,
                                        stack: seq<int>, x: X, f: seq<Instr>, m: nat, max: nat, exit: int)
    requires Right(code, c, b, k, back) && Ready(c, x, k + Caps(b)) && 0 < m <= max <= INFINITE
    requires f == Asm(b, k, back) && Placed(code, pc, f)
    requires Decode(code, pc + Len(f)) == Some(Loop(-(Len(f) + 5))) && Decode(code, pc + Len(f) + 5) == Some(Drop)
    requires TailRight(code, c, b, k, back, greedy, pc + Len(f) + 6, stack, exit, Minus(max, m))
    ensures Cont(code, c, pc, stack + [m], x, exit, stack, Rep(c, b, k, back, greedy, m, max, x))
    decreases m
  {
    hide Right, Asm, Cont, Results, Len, Rep, Placed, Decode, Concat, TailRight;
    var mid := pc + Len(f);
    var rs := Results(c, b, k, back, x);
    UseRight(code, c, b, k, back, pc, stack + [m], x);
    var fs := seq(|rs|, j requires 0 <= j < |rs| =>
                    assert After(c, back, x, rs[j]); Rep(c, b, k, back, greedy, m - 1, Dec(max), rs[j]));
    forall j | 0 <= j < |rs| ensures Cont(code, c, mid, stack + [m], rs[j], exit, stack, fs[j]) {
      assert After(c, back, x, rs[j]);
      ReadyAfter(c, back, x, rs[j], k + Caps(b));
      if m > 1 {
        TimesCorrect(code, c, b, k, back, greedy, pc, stack, rs[j], f, m - 1, Dec(max), exit);
      } else {
        UseTail(code, c, b, k, back, greedy, pc + Len(f) + 6, stack, exit, Dec(max), rs[j]);
      }
      LoopCorrect(code, c, mid, -(Len(f) + 5), stack, m, rs[j], exit, stack, fs[j]);
    }
    ContThen(code, c, pc, stack + [m], x, mid, stack + [m], rs, exit, stack, fs);
    RepRequired(c, b, k, back, greedy, m, max, x, rs, fs);
  }

  lemma UseTail(code: seq<byte>, c: Ctx, b: Node, k: nat, back: bool, greedy: bool, pc: int, stack: seq<int>, exit: int,
                max: nat, x: X)
    requires TailRight(code, c, b, k, back, greedy, pc, stack, exit, max) && Ready(c, x, k + Caps(b))
    ensures Cont(code, c, pc, stack, x, exit, stack, Rep(c, b, k, back, greedy, 0, max, x))
  {
    hide Cont, Rep;
  }

  lemma OnceCorrect(code: seq<byte>, c: Ctx, b: Node, k: nat, back: bool, greedy: bool, pc: int,
                    stack: seq<int>, x: X, f: seq<Instr>, max: nat, exit: int)
    requires Right(code, c, b, k, back) && Ready(c, x, k + Caps(b)) && 0 < max <= INFINITE
    requires f == Asm(b, k, back) && Placed(code, pc, f)
    requires TailRight(code, c, b, k, back, greedy, pc + Len(f), stack, exit, Minus(max, 1))
    ensures Cont(code, c, pc, stack, x, exit, stack, Rep(c, b, k, back, greedy, 1, max, x))
  {
    hide Right, Asm, Cont, Results, Len, Rep, Placed, Concat, TailRight;
    var mid := pc + Len(f);
    var rs := Results(c, b, k, back, x);
    UseRight(code, c, b, k, back, pc, stack, x);
    var fs := seq(|rs|, j requires 0 <= j < |rs| =>
                    assert After(c, back, x, rs[j]); Rep(c, b, k, back, greedy, 0, Minus(max, 1), rs[j]));
    forall j | 0 <= j < |rs| ensures Cont(code, c, mid, stack, rs[j], exit, stack, fs[j]) {
      assert After(c, back, x, rs[j]);
      ReadyAfter(c, back, x, rs[j], k + Caps(b));
      UseTail(code, c, b, k, back, greedy, mid, stack, exit, Minus(max, 1), rs[j]);
    }
    ContThen(code, c, pc, stack, x, mid, stack, rs, exit, stack, fs);
    RepRequired(c, b, k, back, greedy, 1, max, x, rs, fs);
  }

  // ---- one or more, without an advance check ----

  function Again(greedy: bool, off: int): Instr {
    if greedy then SplitGotoFirst(off) else SplitNextFirst(off)
  }

  lemma {:induction false} PlusCorrect(code: seq<byte>, c: Ctx, b: Node, k: nat, back: bool, greedy: bool, pc: int,
                                       stack: seq<int>, x: X, f: seq<Instr>)
    requires Right(code, c, b, k, back) && ValidNode(b) && Ready(c, x, k + Caps(b))
    requires f == Asm(b, k, back) && Placed(code, pc, f) && !NeedCheckAdvance(f)
    requires Decode(code, pc + Len(f)) == Some(Again(greedy, -(Len(f) + 5)))
    ensures Cont(code, c, pc, stack, x, pc + Len(f) + 5, stack, Rep(c, b, k, back, greedy, 1, INFINITE, x))
    decreases Dist(c, back, x.pos)
  {
    hide Right, Asm, Cont, Results, Len, Rep, Placed, Concat, NeedCheckAdvance, Decode, ValidNode;
    var mid, exit := pc + Len(f), pc + Len(f) + 5;
    var rs := Results(c, b, k, back, x);
    UseRight(code, c, b, k, back, pc, stack, x);
    var fs := seq(|rs|, j requires 0 <= j < |rs| =>
                    assert After(c, back, x, rs[j]); Rep(c, b, k, back, greedy, 0, INFINITE, rs[j]));
    forall j | 0 <= j < |rs| ensures Cont(code, c, mid, stack, rs[j], exit, stack, fs[j]) {
      assert After(c, back, x, rs[j]) && rs[j] in rs;
      ReadyAfter(c, back, x, rs[j], k + Caps(b));
      AlwaysMoves(c, b, k, back, x, rs[j]);
      PlusCorrect(code, c, b, k, back, greedy, pc, stack, rs[j], f);
      var more := Rep(c, b, k, back, greedy, 1, INFINITE, rs[j]);
      PlusIsMore(c, b, k, back, greedy, rs[j]);
      ContHere(code, c, exit, stack, rs[j]);
      if greedy {
        ContSplitGoto(code, c, mid, stack, rs[j], -(Len(f) + 5), exit, stack, more, [rs[j]]);
      } else {
        ContSplitNext(code, c, mid, stack, rs[j], -(Len(f) + 5), exit, stack, [rs[j]], more);
      }
    }
    ContThen(code, c, pc, stack, x, mid, stack, rs, exit, stack, fs);
    RepRequired(c, b, k, back, greedy, 1, INFINITE, x, rs, fs);
  }

  /** For a body that always moves, going on is the same as starting over. */
  lemma PlusIsMore(c: Ctx, b: Node, k: nat, back: bool, greedy: bool, x: X)
    requires x.pos <= |c.units| && ValidNode(b) && !NeedCheckAdvance(Asm(b, k, back))
    ensures Rep(c, b, k, back, greedy, 0, INFINITE, x) == Order(greedy, Rep(c, b, k, back, greedy, 1, INFINITE, x), x)
  {
    hide Results, Asm, NeedCheckAdvance, Rep, Concat, Moved, ValidNode;
    var rs := Results(c, b, k, back, x);
    forall j | 0 <= j < |rs| ensures rs[j].pos != x.pos {
      assert rs[j] in rs;
      AlwaysMoves(c, b, k, back, x, rs[j]);
    }
    MovedAll(rs, x.pos);
    forall j | 0 <= j < |rs| ensures After(c, back, x, rs[j]) { assert rs[j] in rs; }
    var fs := seq(|rs|, j requires 0 <= j < |rs| =>
                    assert After(c, back, x, rs[j]); Rep(c, b, k, back, greedy, 0, INFINITE, rs[j]));
    RepOptional(c, b, k, back, greedy, INFINITE, x, rs, fs);
    RepRequired(c, b, k, back, greedy, 1, INFINITE, x, rs, fs);
  }
}
