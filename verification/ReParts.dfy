/** What the code of each construct delivers, given that the code of its parts is right. */
module ReParts {
  import opened Optional
  import opened ReChars
  import opened ReCode
  import opened ReInput
  import opened ReMatch
  import opened ReVM
  import opened ReCompile
  import opened ReEnum
  import opened ReMoves
  import opened ReSimple
  import opened ReGreedy

  /** A start the theorem speaks of: inside the subject, not between the halves of a pair, with room for the captures. */
  predicate Ready(c: Ctx, x: X, caps: nat) {
    x.pos <= |c.units| && !MidPair(c, x.pos) && 2 * caps <= |x.caps|
  }

  lemma ReadyAfter(c: Ctx, back: bool, x: X, r: X, caps: nat)
    requires Ready(c, x, caps) && After(c, back, x, r)
    ensures Ready(c, r, caps)
  {
  }

  // ---- single instructions ----

  lemma AssertionCorrect(code: seq<byte>, c: Ctx, pc: int, stack: seq<int>, x: X, i: Instr, rs: seq<X>)
    requires x.pos <= |c.units| && Decode(code, pc) == Some(i) && Size(i) == 1
    requires rs == [] ==> SimpleOp(c, i, x.pos) == NoMatch
    requires rs != [] ==> rs == [x] && SimpleOp(c, i, x.pos) == Go(x.pos)
    ensures Cont(code, c, pc, stack, x, pc + 1, stack, rs)
  {
    hide Decode, SimpleOp, Cont;
    if rs == [] {
      ContFail(code, c, pc, stack, x, pc + 1, stack);
    } else {
      ContOne(code, c, pc, stack, x, pc + 1, stack, x);
    }
  }

  lemma ForwardChar(code: seq<byte>, c: Ctx, pc: int, stack: seq<int>, x: X, n: Node)
    requires IsCharNode(n) && ValidNode(n) && ValidCtx(c) && x.pos <= |c.units|
    requires Decode(code, pc) == Some(CharNodeInstr(n))
    ensures Cont(code, c, pc, stack, x, pc + Size(CharNodeInstr(n)), stack, CharResults(c, n, false, x))
  {
    hide Decode, CharTest, Accepts, Cont, CharNodeInstr, ValidCtx, ValidNode;
    var i := CharNodeInstr(n);
    CharInstrCorrect(c, n, i, 0);
    if x.pos < |c.units| {
      CharRange(c, x.pos, |c.units|);
      CharInstrCorrect(c, n, i, GetChar(c, x.pos, |c.units|).0);
    }
    var rs := CharResults(c, n, false, x);
    if rs == [] {
      assert SimpleOp(c, i, x.pos) == NoMatch;
      ContFail(code, c, pc, stack, x, pc + Size(i), stack);
    } else {
      assert SimpleOp(c, i, x.pos) == Go(rs[0].pos);
      ContOne(code, c, pc, stack, x, pc + Size(i), stack, rs[0]);
    }
  }

  lemma PrevStep(code: seq<byte>, c: Ctx, pc: int, stack: seq<int>, x: X, exit: int, stack': seq<int>, rs: seq<X>)
    requires x.pos <= |c.units| && Decode(code, pc) == Some(Prev)
    requires x.pos == 0 ==> rs == []
    requires x.pos > 0 ==> Cont(code, c, pc + 1, stack, X(GetPrevChar(c, x.pos, 0).1, x.caps), exit, stack', rs)
    ensures Cont(code, c, pc, stack, x, exit, stack', rs)
  {
    hide Decode, Cont, GetPrevChar;
    if x.pos == 0 {
      ContFail(code, c, pc, stack, x, exit, stack');
    } else {
      var y := X(GetPrevChar(c, x.pos, 0).1, x.caps);
      ContStep(code, c, pc, stack, x, pc + 1, stack, y, exit, stack', rs);
    }
  }

  /** Going back, testing and going back again: the character before the position decides. */
  lemma BackwardCharResults(c: Ctx, n: Node, x: X)
    requires IsCharNode(n) && 0 < x.pos <= |c.units| && !MidPair(c, x.pos)
    ensures var y := X(GetPrevChar(c, x.pos, 0).1, x.caps);
            var found := Accepts(c, n, GetPrevChar(c, x.pos, 0).0);
            && CharResults(c, n, false, y) == (if found then [x] else [])
            && CharResults(c, n, true, x) == (if found then [y] else [])
  {
    hide Accepts, GetPrevChar, GetChar;
    BackThenForward(c, x.pos);
  }

  lemma BackwardChar(code: seq<byte>, c: Ctx, pc: int, stack: seq<int>, x: X, n: Node)
    requires IsCharNode(n) && ValidNode(n) && ValidCtx(c) && x.pos <= |c.units| && !MidPair(c, x.pos)
    requires Placed(code, pc, [Prev, CharNodeInstr(n), Prev])
    ensures Cont(code, c, pc, stack, x, pc + 2 + Size(CharNodeInstr(n)), stack, CharResults(c, n, true, x))
  {
    hide Decode, Cont, CharNodeInstr, ValidCtx, ValidNode, Accepts, Placed, GetPrevChar;
    var i := CharNodeInstr(n);
    assert [Prev, i, Prev] == [Prev] + [i, Prev] && [i, Prev] == [i] + [Prev] && [Prev] == [Prev] + [];
    PlacedHead(code, pc, Prev, [i, Prev]);
    PlacedHead(code, pc + 1, i, [Prev]);
    PlacedHead(code, pc + 1 + Size(i), Prev, []);
    var exit := pc + 2 + Size(i);
    var rs := CharResults(c, n, true, x);
    if x.pos > 0 {
      var y := X(GetPrevChar(c, x.pos, 0).1, x.caps);
      var ys := CharResults(c, n, false, y);
      BackwardCharResults(c, n, x);
      ForwardChar(code, c, pc + 1, stack, y, n);
      hide CharResults;
      if rs == [] {
        ContThen(code, c, pc + 1, stack, y, pc + 1 + Size(i), stack, ys, exit, stack, []);
      } else {
        ContHere(code, c, exit, stack, y);
        PrevStep(code, c, pc + 1 + Size(i), stack, x, exit, stack, rs);
        ConcatOne(rs);
        ContThen(code, c, pc + 1, stack, y, pc + 1 + Size(i), stack, ys, exit, stack, [rs]);
      }
    }
    PrevStep(code, c, pc, stack, x, exit, stack, rs);
  }

  lemma ConcatOne(rs: seq<X>)
    ensures Concat([rs]) == rs
  {
    assert [rs][1..] == [] && Concat([]) == [];
  }

  lemma BackRefCorrect(code: seq<byte>, c: Ctx, pc: int, stack: seq<int>, x: X, i: nat, back: bool)
    requires x.pos <= |c.units|
    requires Decode(code, pc) == Some(if back then BackwardBackReference(i) else BackReference(i))
    ensures Cont(code, c, pc, stack, x, pc + 2, stack, BackRefResults(c, i, back, x))
  {
    hide Decode, Cont, BackRefForward, BackRefBackward, RepeatEnd;
    if 2 * i + 1 < |x.caps| { RepeatEndIs(c, x.caps[2 * i], x.caps[2 * i + 1], x.pos); }
    var rs := BackRefResults(c, i, back, x);
    if rs == [] {
      ContFail(code, c, pc, stack, x, pc + 2, stack);
    } else {
      ContOne(code, c, pc, stack, x, pc + 2, stack, rs[0]);
    }
  }

  // ---- lists of results ----

  lemma {:induction false} ConcatResults(c: Ctx, n: Node, k: nat, back: bool, o: X, xs: seq<X>, fs: seq<seq<X>>)
    requires |fs| == |xs|
    requires forall i :: 0 <= i < |xs| ==> After(c, back, o, xs[i]) && fs[i] == Results(c, n, k, back, xs[i])
    ensures Concat(fs) == ResultsSeq(c, n, k, back, o, xs)
  {
    hide Results, After;
    if xs != [] {
      ConcatResults(c, n, k, back, o, xs[1..], fs[1..]);
    }
  }

  lemma {:induction false} ConcatRep(c: Ctx, b: Node, k: nat, back: bool, greedy: bool, min: nat, max: nat, d: nat, o: X,
                                     xs: seq<X>, fs: seq<seq<X>>)
    requires |fs| == |xs|
    requires forall i :: 0 <= i < |xs| ==>
      After(c, back, o, xs[i]) && Dist(c, back, xs[i].pos) < d && fs[i] == Rep(c, b, k, back, greedy, min, max, xs[i])
    ensures Concat(fs) == RepSeq(c, b, k, back, greedy, min, max, d, o, xs)
  {
    hide Rep;
    if xs != [] {
      ConcatRep(c, b, k, back, greedy, min, max, d, o, xs[1..], fs[1..]);
    }
  }

  lemma {:induction false} ConcatSetAll(c: Ctx, back: bool, i: nat, o: X, xs: seq<X>, fs: seq<seq<X>>)
    requires |fs| == |xs|
    requires forall j :: 0 <= j < |xs| ==>
      After(c, back, o, xs[j]) && fs[j] == [X(xs[j].pos, SetCap(xs[j].caps, i, xs[j].pos))]
    ensures Concat(fs) == SetAll(c, back, i, o, xs)
  {
    if xs != [] {
      ConcatSetAll(c, back, i, o, xs[1..], fs[1..]);
    }
  }

  lemma {:induction false} ConcatMoved(xs: seq<X>, p: nat, fs: seq<seq<X>>)
    requires |fs| == |xs| && forall j :: 0 <= j < |xs| ==> fs[j] == if xs[j].pos == p then [] else [xs[j]]
    ensures Concat(fs) == Moved(xs, p)
  {
    if xs != [] {
      ConcatMoved(xs[1..], p, fs[1..]);
    }
  }

  lemma {:induction false} MovedAll(xs: seq<X>, p: nat)
    requires forall j :: 0 <= j < |xs| ==> xs[j].pos != p
    ensures Moved(xs, p) == xs
  {
    if xs != [] {
      MovedAll(xs[1..], p);
    }
  }

  lemma {:induction false} ConcatSingles(xs: seq<X>, fs: seq<seq<X>>)
    requires |fs| == |xs| && forall j :: 0 <= j < |xs| ==> fs[j] == [xs[j]]
    ensures Concat(fs) == xs
  {
    if xs != [] {
      ConcatSingles(xs[1..], fs[1..]);
    }
  }

  lemma ContThenGoto(code: seq<byte>, c: Ctx, pc: int, stack: seq<int>, x: X, mid: int, stack1: seq<int>, xs: seq<X>,
                     off: int)
    requires Cont(code, c, pc, stack, x, mid, stack1, xs) && Decode(code, mid) == Some(Goto(off))
    requires forall j :: 0 <= j < |xs| ==> xs[j].pos <= |c.units|
    ensures Cont(code, c, pc, stack, x, mid + 5 + off, stack1, xs)
  {
    hide Decode, Cont;
    var exit := mid + 5 + off;
    var fs := seq(|xs|, j requires 0 <= j < |xs| => [xs[j]]);
    forall j | 0 <= j < |xs| ensures Cont(code, c, mid, stack1, xs[j], exit, stack1, fs[j]) {
      ContOne(code, c, mid, stack1, xs[j], exit, stack1, xs[j]);
    }
    ContThen(code, c, pc, stack, x, mid, stack1, xs, exit, stack1, fs);
    ConcatSingles(xs, fs);
  }

  // ---- a pattern's code is right ----

  /** Wherever the code of `n` is placed, and from every start, it delivers the results of `n`. */
  ghost predicate Right(code: seq<byte>, c: Ctx, n: Node, k: nat, back: bool) {
    forall pc: int, stack: seq<int>, x: X ::
      RightAt(code, c, n, k, back, pc, stack, x)
  }

  ghost predicate RightAt(code: seq<byte>, c: Ctx, n: Node, k: nat, back: bool, pc: int, stack: seq<int>, x: X) {
    Placed(code, pc, Asm(n, k, back)) && Ready(c, x, k + Caps(n)) ==>
      Cont(code, c, pc, stack, x, pc + Len(Asm(n, k, back)), stack, Results(c, n, k, back, x))
  }

  lemma UseRight(code: seq<byte>, c: Ctx, n: Node, k: nat, back: bool, pc: int, stack: seq<int>, x: X)
    requires Right(code, c, n, k, back)
    requires Placed(code, pc, Asm(n, k, back)) && Ready(c, x, k + Caps(n))
    ensures Cont(code, c, pc, stack, x, pc + Len(Asm(n, k, back)), stack, Results(c, n, k, back, x))
    ensures forall j :: 0 <= j < |Results(c, n, k, back, x)| ==> After(c, back, x, Results(c, n, k, back, x)[j])
  {
    hide Placed, Cont, Results, Asm;
    assert RightAt(code, c, n, k, back, pc, stack, x);
    forall j | 0 <= j < |Results(c, n, k, back, x)| ensures After(c, back, x, Results(c, n, k, back, x)[j]) {
      assert Results(c, n, k, back, x)[j] in Results(c, n, k, back, x);
    }
  }

  lemma CatCorrect(code: seq<byte>, c: Ctx, a: Node, b: Node, k: nat, back: bool, pc: int, stack: seq<int>, x: X)
    requires Right(code, c, a, k, back) && Right(code, c, b, k + Caps(a), back)
    requires Placed(code, pc, Asm(Cat(a, b), k, back)) && Ready(c, x, k + Caps(Cat(a, b)))
    ensures Cont(code, c, pc, stack, x, pc + Len(Asm(Cat(a, b), k, back)), stack, Results(c, Cat(a, b), k, back, x))
  {
    hide Right, Placed, Asm, Cont, Results, ResultsSeq, Len;
    var n1, k1, n2, k2 := First(a, b, back), FirstCap(a, k, back), Second(a, b, back), SecondCap(a, k, back);
    var f, g := Asm(n1, k1, back), Asm(n2, k2, back);
    CatAsm(a, b, k, back);
    CatResults(c, a, b, k, back, x);
    PlacedConcat(code, pc, f, g);
    LenConcat(f, g);
    UseRight(code, c, n1, k1, back, pc, stack, x);
    var xs := Results(c, n1, k1, back, x);
    var mid, exit := pc + Len(f), pc + Len(f) + Len(g);
    var fs := seq(|xs|, j requires 0 <= j < |xs| => assert After(c, back, x, xs[j]); Results(c, n2, k2, back, xs[j]));
    forall j | 0 <= j < |xs| ensures Cont(code, c, mid, stack, xs[j], exit, stack, fs[j]) {
      UseRight(code, c, n2, k2, back, mid, stack, xs[j]);
    }
    ContThen(code, c, pc, stack, x, mid, stack, xs, exit, stack, fs);
    ConcatResults(c, n2, k2, back, x, xs, fs);
  }

  lemma AltAsm(a: Node, b: Node, k: nat, back: bool)
    ensures var f, g := Asm(a, k, back), Asm(b, k + Caps(a), back);
            Asm(Alt(a, b), k, back) == [SplitNextFirst(Len(f) + 5)] + f + [Goto(Len(g))] + g
  {
    hide Len, Caps;
  }

  lemma AltResults(c: Ctx, a: Node, b: Node, k: nat, back: bool, x: X)
    requires x.pos <= |c.units|
    ensures Results(c, Alt(a, b), k, back, x) == Results(c, a, k, back, x) + Results(c, b, k + Caps(a), back, x)
  {
    hide Caps, After, CharResults, BackRefResults, Rep, ResultsSeq, SetAll, SetCap, ResetCaps, EndsLine, InWord, RepeatEnd;
  }

  lemma AltCorrect(code: seq<byte>, c: Ctx, a: Node, b: Node, k: nat, back: bool, pc: int, stack: seq<int>, x: X)
    requires Right(code, c, a, k, back) && Right(code, c, b, k + Caps(a), back)
    requires Placed(code, pc, Asm(Alt(a, b), k, back)) && Ready(c, x, k + Caps(Alt(a, b)))
    ensures Cont(code, c, pc, stack, x, pc + Len(Asm(Alt(a, b), k, back)), stack, Results(c, Alt(a, b), k, back, x))
  {
    hide Right, Placed, Asm, Cont, Results, Len;
    AltAsm(a, b, k, back);
    AltResults(c, a, b, k, back, x);
    var f, g := Asm(a, k, back), Asm(b, k + Caps(a), back);
    var rs, ts := Results(c, a, k, back, x), Results(c, b, k + Caps(a), back, x);
    var split, goto := SplitNextFirst(Len(f) + 5), Goto(Len(g));
    var second, exit := pc + 10 + Len(f), pc + 10 + Len(f) + Len(g);
    assert [split] + f + [goto] + g == [split] + (f + ([goto] + g));
    PlacedHead(code, pc, split, f + ([goto] + g));
    PlacedConcat(code, pc + 5, f, [goto] + g);
    PlacedHead(code, pc + 5 + Len(f), goto, g);
    LenFour(split, f, goto, g);
    UseRight(code, c, a, k, back, pc + 5, stack, x);
    UseRight(code, c, b, k + Caps(a), back, second, stack, x);
    ContThenGoto(code, c, pc + 5, stack, x, pc + 5 + Len(f), stack, rs, Len(g));
    ContSplitNext(code, c, pc, stack, x, Len(f) + 5, exit, stack, rs, ts);
  }

  lemma LenFour(i: Instr, f: seq<Instr>, j: Instr, g: seq<Instr>)
    ensures Len([i] + f + [j] + g) == Size(i) + Len(f) + Size(j) + Len(g)
  {
    hide Size;
    SimpleSingle(i);
    SimpleSingle(j);
    hide Len;
    LenConcat([i], f);
    LenConcat([i] + f, [j]);
    LenConcat([i] + f + [j], g);
  }

  lemma LenThree(i: Instr, f: seq<Instr>, j: Instr)
    ensures Len([i] + f + [j]) == Size(i) + Len(f) + Size(j)
  {
    hide Size;
    SimpleSingle(i);
    SimpleSingle(j);
    hide Len;
    LenConcat([i], f);
    LenConcat([i] + f, [j]);
  }

  function Save(k: nat, end: bool): Instr { if end then SaveEnd(k) else SaveStart(k) }

  function Slot(k: nat, end: bool): nat { if end then 2 * k + 1 else 2 * k }

  function Mark(x: X, i: nat): X { X(x.pos, SetCap(x.caps, i, x.pos)) }

  lemma GroupShape(c: Ctx, b: Node, k: nat, back: bool, x: X)
    requires x.pos <= |c.units|
    ensures Asm(Group(b), k, back) == [Save(k, back)] + Asm(b, k + 1, back) + [Save(k, !back)]
    ensures var enter := Mark(x, Slot(k, back));
            Results(c, Group(b), k, back, x) == SetAll(c, back, Slot(k, !back), enter, Results(c, b, k + 1, back, enter))
  {
  }

  lemma SaveStep(code: seq<byte>, c: Ctx, pc: int, stack: seq<int>, x: X, k: nat, end: bool)
    requires Decode(code, pc) == Some(Save(k, end)) && x.pos <= |c.units| && 2 * k + 1 < |x.caps|
    ensures forall saved :: Step(code, c, At(pc, x, stack, saved)) == At(pc + 2, Mark(x, Slot(k, end)), stack, saved)
  {
    hide Decode;
  }

  lemma GroupCorrect(code: seq<byte>, c: Ctx, b: Node, k: nat, back: bool, pc: int, stack: seq<int>, x: X)
    requires Right(code, c, b, k + 1, back)
    requires Placed(code, pc, Asm(Group(b), k, back)) && Ready(c, x, k + Caps(Group(b)))
    ensures Cont(code, c, pc, stack, x, pc + Len(Asm(Group(b), k, back)), stack, Results(c, Group(b), k, back, x))
  {
    hide Right, Placed, Asm, Cont, Results, Len, Slot, SetAll;
    GroupShape(c, b, k, back, x);
    var f := Asm(b, k + 1, back);
    var first, last := Save(k, back), Save(k, !back);
    assert [first] + f + [last] == [first] + (f + [last]) && [last] == [last] + [];
    assert Size(first) == 2 && Size(last) == 2;
    PlacedHead(code, pc, first, f + [last]);
    PlacedConcat(code, pc + 2, f, [last]);
    PlacedHead(code, pc + 2 + Len(f), last, []);
    LenThree(first, f, last);
    var enter := Mark(x, Slot(k, back));
    UseRight(code, c, b, k + 1, back, pc + 2, stack, enter);
    var rs := Results(c, b, k + 1, back, enter);
    var mid, exit, i := pc + 2 + Len(f), pc + 4 + Len(f), Slot(k, !back);
    var fs := seq(|rs|, j requires 0 <= j < |rs| => [Mark(rs[j], i)]);
    forall j | 0 <= j < |rs| ensures Cont(code, c, mid, stack, rs[j], exit, stack, fs[j]) {
      assert After(c, back, enter, rs[j]);
      SaveStep(code, c, mid, stack, rs[j], k, !back);
      ContOne(code, c, mid, stack, rs[j], exit, stack, Mark(rs[j], i));
    }
    ContThen(code, c, pc + 2, stack, enter, mid, stack, rs, exit, stack, fs);
    ConcatSetAll(c, back, i, enter, rs, fs);
    SaveStep(code, c, pc, stack, x, k, back);
    ContStep(code, c, pc, stack, x, pc + 2, stack, enter, exit, stack, Concat(fs));
  }
}
