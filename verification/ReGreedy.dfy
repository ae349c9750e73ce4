/** The simple_greedy_quant opcode refines the general loop: same continuations, longest first, down to the minimum. */
module ReGreedy {
  import opened Optional
  import opened ReCode
  import opened ReInput
  import opened ReMatch
  import opened ReVM
  import opened ReCompile
  import opened ReMoves
  import opened ReSimple
  import opened ReEnum

  /** The positions reached by iterating a body that has at most one result. */
  ghost function Chain(c: Ctx, b: Node, k: nat, back: bool, max: nat, x: X): (ch: seq<X>)
    requires x.pos <= |c.units|
    ensures ch != [] && ch[0] == x
    decreases |c.units| - x.pos
  {
    if max == 0 then [x]
    else
      var rs := Results(c, b, k, back, x);
      if rs != [] && x.pos < rs[0].pos <= |c.units| then [x] + Chain(c, b, k, back, Dec(max), rs[0]) else [x]
  }

  /** The elements of `ch` from the last one down to index `min`. */
  function Down(ch: seq<X>, min: nat): seq<X> {
    if |ch| <= min then [] else [ch[|ch| - 1]] + Down(ch[..|ch| - 1], min)
  }

  lemma {:induction false} DownCons(x: X, ch: seq<X>, min: nat)
    ensures Down([x] + ch, min) == if min == 0 then Down(ch, 0) + [x] else Down(ch, min - 1)
  {
    if ch == [] {
      assert [x] + ch == [x] && [x][..0] == [];
    } else if |ch| + 1 > min {
      var last := |ch| - 1;
      assert ([x] + ch)[..|ch|] == [x] + ch[..last];
      DownCons(x, ch[..last], min);
    }
  }

  /** The body's code, followed by `match`, stands at `pc` and takes a fixed positive number of characters. */
  ghost predicate SimpleBody(code: seq<byte>, c: Ctx, b: Node, k: nat, back: bool, pc: int) {
    && ValidCtx(c) && ValidNode(b)
    && Placed(code, pc, Asm(b, k, back)) && Decode(code, pc + Len(Asm(b, k, back))) == Some(Match)
    && SimpleCount(Asm(b, k, back)) > 0
  }

  lemma BodyStep(code: seq<byte>, c: Ctx, b: Node, k: nat, back: bool, pc: int, x: X)
    requires SimpleBody(code, c, b, k, back, pc) && x.pos <= |c.units| && !MidPair(c, x.pos)
    ensures Results(c, b, k, back, x) == [] ==> InnerRun(code, c, pc, x.pos) == NoMatch
    ensures Results(c, b, k, back, x) != [] ==>
      var r := Results(c, b, k, back, x)[0];
      && Results(c, b, k, back, x) == [r]
      && r.caps == x.caps && x.pos < r.pos <= |c.units| && !MidPair(c, r.pos)
      && InnerRun(code, c, pc, x.pos) == Go(r.pos)
      && Back(c, r.pos, SimpleCount(Asm(b, k, back))) == x.pos
  {
    hide Results, InnerRun, Back, SimpleCount, Asm, MidPair, Placed, Len, Decode, ValidCtx;
    SimpleRuns(code, c, b, k, back, pc, x);
    var rs := Results(c, b, k, back, x);
    if rs != [] {
      assert rs[0] in rs && After(c, back, x, rs[0]);
      MatchEnds(code, c, pc + Len(Asm(b, k, back)), rs[0].pos);
    }
  }

  lemma MatchEnds(code: seq<byte>, c: Ctx, pc: int, p: nat)
    requires Decode(code, pc) == Some(Match) && p <= |c.units|
    ensures InnerRun(code, c, pc, p) == Go(p)
  {
    hide Decode, SimpleOp;
  }

  lemma LoopEnds(c: Ctx, b: Node, k: nat, back: bool, min: nat, max: nat, x: X)
    requires x.pos <= |c.units| && min <= max && (max == 0 || Results(c, b, k, back, x) == [])
    ensures Rep(c, b, k, back, true, min, max, x) == if min > 0 then [] else [x]
    ensures Chain(c, b, k, back, max, x) == [x]
  {
    hide Results;
    if min > 0 {
      assert RepSeq(c, b, k, back, true, min - 1, Dec(max), |c.units| + 1, x, []) == [];
    } else if max > 0 {
      assert Moved([], x.pos) == [];
    }
  }

  lemma LoopGoesOn(c: Ctx, b: Node, k: nat, back: bool, min: nat, max: nat, x: X, r: X)
    requires x.pos <= |c.units| && min <= max && max > 0
    requires Results(c, b, k, back, x) == [r] && x.pos < r.pos <= |c.units|
    ensures Rep(c, b, k, back, true, min, max, x)
         == if min > 0 then Rep(c, b, k, back, true, min - 1, Dec(max), r)
            else Rep(c, b, k, back, true, 0, Dec(max), r) + [x]
    ensures Chain(c, b, k, back, max, x) == [x] + Chain(c, b, k, back, Dec(max), r)
  {
    assert r in Results(c, b, k, back, x) && After(c, back, x, r);
    hide Results;
    if min > 0 {
      RepSeqOne(c, b, k, back, min - 1, Dec(max), |c.units| + 1, x, r);
    } else {
      assert [r][1..] == [] && Moved([], x.pos) == [] && Moved([r], x.pos) == [r];
      RepSeqOne(c, b, k, back, 0, Dec(max), Dist(c, back, x.pos), x, r);
    }
  }

  /** The general loop over such a body, longest match first. */
  lemma {:induction false} RepIsChain(code: seq<byte>, c: Ctx, b: Node, k: nat, back: bool, pc: int, min: nat, max: nat, x: X)
    requires SimpleBody(code, c, b, k, back, pc) && x.pos <= |c.units| && !MidPair(c, x.pos) && min <= max
    ensures Rep(c, b, k, back, true, min, max, x) == Down(Chain(c, b, k, back, max, x), min)
    decreases |c.units| - x.pos
  {
    hide SimpleBody, Results, Down, Rep, Chain;
    BodyStep(code, c, b, k, back, pc, x);
    var rs := Results(c, b, k, back, x);
    if max == 0 || rs == [] {
      LoopEnds(c, b, k, back, min, max, x);
      assert [x] + [] == [x];
      DownCons(x, [], min);
      DownEmpty(if min > 0 then min - 1 else 0);
    } else {
      var r := rs[0];
      LoopGoesOn(c, b, k, back, min, max, x, r);
      DownCons(x, Chain(c, b, k, back, Dec(max), r), min);
      RepIsChain(code, c, b, k, back, pc, if min > 0 then min - 1 else 0, Dec(max), r);
    }
  }

  lemma DownEmpty(min: nat)
    ensures Down([], min) == []
  {
  }

  lemma RepSeqOne(c: Ctx, b: Node, k: nat, back: bool, min: nat, max: nat, d: nat, o: X, r: X)
    requires After(c, back, o, r) && Dist(c, back, r.pos) < d
    ensures RepSeq(c, b, k, back, true, min, max, d, o, [r]) == Rep(c, b, k, back, true, min, max, r)
  {
    hide Rep;
    assert [r][1..] == [];
    assert RepSeq(c, b, k, back, true, min, max, d, o, []) == [];
  }

  /** Along the chain captures stay, and `count` characters back from one element is the previous one. */
  ghost predicate Linked(c: Ctx, ch: seq<X>, count: nat) {
    forall j: nat :: j < |ch| ==> LinkedAt(c, ch, count, j)
  }

  ghost predicate LinkedAt(c: Ctx, ch: seq<X>, count: nat, j: nat)
    requires j < |ch|
  {
    && ch[j].pos <= |c.units| && ch[j].caps == ch[0].caps
    && (j > 0 ==> Back(c, ch[j].pos, count) == ch[j - 1].pos)
  }

  lemma LinkedCons(c: Ctx, x: X, ch: seq<X>, count: nat)
    requires ch != [] && Linked(c, ch, count) && x.pos <= |c.units| && x.caps == ch[0].caps
    requires ch[0].pos <= |c.units| && Back(c, ch[0].pos, count) == x.pos
    ensures Linked(c, [x] + ch, count)
  {
    var xs := [x] + ch;
    forall j: nat | j < |xs| ensures LinkedAt(c, xs, count, j) {
      if j > 1 { assert LinkedAt(c, ch, count, j - 1); }
    }
  }

  lemma LinkedOne(c: Ctx, x: X, count: nat)
    requires x.pos <= |c.units|
    ensures Linked(c, [x], count)
  {
  }

  lemma IterateStep(code: seq<byte>, c: Ctx, pc: int, pos: nat, q: nat, max: int)
    requires pos <= |c.units|
    ensures InnerRun(code, c, pc, pos) == NoMatch ==> Iterate(code, c, pc, pos, q, max) == End(pos, q)
    ensures InnerRun(code, c, pc, pos).Go? && InnerRun(code, c, pc, pos).pos > pos ==>
      var p := InnerRun(code, c, pc, pos).pos;
      Iterate(code, c, pc, pos, q, max)
      == if q + 1 >= max && max != INT32_MAX then End(p, q + 1) else Iterate(code, c, pc, p, q + 1, max)
  {
    hide InnerRun;
  }

  lemma {:induction false} IterateIsChain(code: seq<byte>, c: Ctx, b: Node, k: nat, back: bool, pc: int, x: X, q: nat,
                                          max: nat, left: nat, count: nat, ch: seq<X>)
    requires SimpleBody(code, c, b, k, back, pc) && x.pos <= |c.units| && !MidPair(c, x.pos)
    requires max <= INFINITE && left > 0 && left == (if max == INFINITE then INFINITE else max - q)
    requires count == SimpleCount(Asm(b, k, back)) && ch == Chain(c, b, k, back, left, x)
    ensures Linked(c, ch, count)
    ensures Iterate(code, c, pc, x.pos, q, max) == End(ch[|ch| - 1].pos, q + |ch| - 1)
    decreases |c.units| - x.pos
  {
    hide SimpleBody, Results, InnerRun, Back, MidPair, Asm, SimpleCount, Linked, Chain, Rep, Iterate;
    IterateStep(code, c, pc, x.pos, q, max);
    BodyStep(code, c, b, k, back, pc, x);
    var rs := Results(c, b, k, back, x);
    if rs == [] {
      LoopEnds(c, b, k, back, 0, left, x);
      LinkedOne(c, x, count);
    } else {
      var r := rs[0];
      var rest := Chain(c, b, k, back, Dec(left), r);
      LoopGoesOn(c, b, k, back, 0, left, x, r);
      if Dec(left) > 0 {
        IterateIsChain(code, c, b, k, back, pc, r, q + 1, max, Dec(left), count, rest);
      } else {
        LoopEnds(c, b, k, back, 0, 0, r);
        LinkedOne(c, r, count);
      }
      LinkedCons(c, x, rest, count);
      LastOfCons(x, rest);
    }
  }

  lemma LastOfCons(x: X, ch: seq<X>)
    requires ch != []
    ensures ([x] + ch)[|[x] + ch| - 1] == ch[|ch| - 1]
  {
  }

  function GreedySaved(pc: int, i: Instr, ch: seq<X>, j: nat, stack: seq<int>): Saved
    requires i.SimpleGreedyQuant? && 0 <= i.min <= j < |ch|
  {
    Saved(GreedyQuantState, pc, ch[j].pos, ch[0].caps, stack, j - i.min)
  }

  /** Each failure into the saved state steps one iteration back, until the minimum is reached. */
  lemma {:induction false} GreedyFails(code: seq<byte>, c: Ctx, pc: int, i: Instr, ch: seq<X>, j: nat, stack: seq<int>,
                                       saved: seq<Saved>, exit: int, s: Saved, rs: seq<X>)
    requires Decode(code, pc - 1) == Some(i) && i.SimpleGreedyQuant? && i.count >= 0 && 0 <= i.min < j < |ch|
    requires Linked(c, ch, i.count)
    requires exit == pc + 16 + i.next && s == GreedySaved(pc, i, ch, j, stack) && rs == Down(ch[..j], i.min)
    ensures Enum(code, c, Fail(saved + [s]), exit, stack, rs, saved)
    decreases j
  {
    hide Step, Reach, Linked, Decode, Enum, Grown;
    GreedyStep(code, c, pc, i, ch, j, stack, saved);
    var all, rest := Fail(saved + [s]), Down(ch[..j - 1], i.min);
    ReachStep(code, c, all);
    DownTop(ch, j, i.min);
    if j - 1 == i.min {
      DownShort(ch[..j - 1], i.min);
      EnumNone(code, c, exit, stack, saved);
      EnumCons(code, c, all, exit, stack, ch[j - 1], [], saved, saved);
    } else {
      var s' := GreedySaved(pc, i, ch, j - 1, stack);
      GrownBy(saved, s');
      GreedyFails(code, c, pc, i, ch, j - 1, stack, saved, exit, s', rest);
      EnumCons(code, c, all, exit, stack, ch[j - 1], rest, saved, saved + [s']);
    }
  }

  lemma DownTop(ch: seq<X>, j: nat, min: nat)
    requires min < j <= |ch|
    ensures Down(ch[..j], min) == [ch[j - 1]] + Down(ch[..j - 1], min)
  {
    assert ch[..j][..j - 1] == ch[..j - 1];
  }

  lemma DownShort(ch: seq<X>, min: nat)
    requires |ch| <= min
    ensures Down(ch, min) == []
  {
  }

  lemma GreedyStep(code: seq<byte>, c: Ctx, pc: int, i: Instr, ch: seq<X>, j: nat, stack: seq<int>, saved: seq<Saved>)
    requires Decode(code, pc - 1) == Some(i) && i.SimpleGreedyQuant? && i.count >= 0 && 0 <= i.min < j < |ch|
    requires Linked(c, ch, i.count)
    ensures Step(code, c, Fail(saved + [GreedySaved(pc, i, ch, j, stack)]))
         == At(pc + 16 + i.next, ch[j - 1], stack,
               if j - 1 == i.min then saved else saved + [GreedySaved(pc, i, ch, j - 1, stack)])
  {
    hide Decode;
    var all := saved + [GreedySaved(pc, i, ch, j, stack)];
    assert all[..|all| - 1] == saved;
    assert LinkedAt(c, ch, i.count, j) && LinkedAt(c, ch, i.count, j - 1);
  }

  lemma GreedyCorrect(code: seq<byte>, c: Ctx, b: Node, k: nat, back: bool, pc: int, stack: seq<int>, x: X,
                      min: nat, max: nat)
    requires ValidCtx(c) && ValidNode(b) && x.pos <= |c.units| && !MidPair(c, x.pos)
    requires min <= max <= INFINITE && max > 0 && SimpleCount(Asm(b, k, back)) > 0
    requires var f := Asm(b, k, back);
             Placed(code, pc, [SimpleGreedyQuant(Len(f) + 1, min, max, SimpleCount(f))] + f + [Match])
    ensures Cont(code, c, pc, stack, x, pc + 18 + Len(Asm(b, k, back)), stack, Rep(c, b, k, back, true, min, max, x))
  {
    hide Iterate, Linked, Cont, Rep, Chain, Asm, SimpleCount, Placed, ValidCtx, ValidNode, MidPair, Decode, Len, Down;
    var f := Asm(b, k, back);
    var i := SimpleGreedyQuant(Len(f) + 1, min, max, SimpleCount(f));
    assert [i] + f + [Match] == [i] + (f + [Match]);
    PlacedHead(code, pc, i, f + [Match]);
    PlacedConcat(code, pc + 17, f, [Match]);
    PlacedMatch(code, pc + 17 + Len(f));
    RepIsChain(code, c, b, k, back, pc + 17, min, max, x);
    var ch := Chain(c, b, k, back, max, x);
    IterateIsChain(code, c, b, k, back, pc + 17, x, 0, max, max, SimpleCount(f), ch);
    GreedyCont(code, c, pc, i, ch, stack, x, pc + 18 + Len(f), Down(ch, min));
  }

  lemma PlacedMatch(code: seq<byte>, pc: int)
    requires Placed(code, pc, [Match])
    ensures Decode(code, pc) == Some(Match)
  {
  }

  lemma GreedyCont(code: seq<byte>, c: Ctx, pc: int, i: Instr, ch: seq<X>, stack: seq<int>, x: X, exit: int, rs: seq<X>)
    requires Decode(code, pc) == Some(i) && i.SimpleGreedyQuant? && i.count >= 0 && 0 <= i.min && ch != []
    requires Linked(c, ch, i.count)
    requires x.caps == ch[0].caps && x.pos <= |c.units| && exit == pc + 17 + i.next && rs == Down(ch, i.min)
    requires Iterate(code, c, pc + 17, x.pos, 0, i.max) == End(ch[|ch| - 1].pos, |ch| - 1)
    ensures Cont(code, c, pc, stack, x, exit, stack, rs)
  {
    hide Decode, Iterate, Linked, Down, Enum;
    forall saved ensures Enum(code, c, At(pc, x, stack, saved), exit, stack, rs, saved) {
      GreedyEnters(code, c, pc, i, ch, stack, saved, x, exit, rs);
    }
  }

  lemma LinkedLast(c: Ctx, ch: seq<X>, count: nat)
    requires ch != [] && Linked(c, ch, count)
    ensures ch[..|ch|] == ch && LinkedAt(c, ch, count, |ch| - 1)
  {
  }

  lemma GreedyEnters(code: seq<byte>, c: Ctx, pc: int, i: Instr, ch: seq<X>, stack: seq<int>, saved: seq<Saved>,
                     x: X, exit: int, rs: seq<X>)
    requires Decode(code, pc) == Some(i) && i.SimpleGreedyQuant? && i.count >= 0 && 0 <= i.min && ch != []
    requires Linked(c, ch, i.count)
    requires x.caps == ch[0].caps && x.pos <= |c.units| && exit == pc + 17 + i.next && rs == Down(ch, i.min)
    requires Iterate(code, c, pc + 17, x.pos, 0, i.max) == End(ch[|ch| - 1].pos, |ch| - 1)
    ensures Enum(code, c, At(pc, x, stack, saved), exit, stack, rs, saved)
  {
    hide Step, Decode, Iterate, Reach, Enum, Linked, Grown;
    var q := |ch| - 1;
    var s := At(pc, x, stack, saved);
    LinkedLast(c, ch, i.count);
    GreedyFirstStep(code, c, pc, i, ch, stack, saved, x);
    ReachStep(code, c, s);
    if q < i.min {
      DownShort(ch, i.min);
      EnumNone(code, c, exit, stack, saved);
      EnumFrom(code, c, s, Fail(saved), exit, stack, rs, saved);
    } else {
      DownTop(ch, q + 1, i.min);
      var rest := Down(ch[..q], i.min);
      if q == i.min {
        DownShort(ch[..q], i.min);
        EnumNone(code, c, exit, stack, saved);
        EnumCons(code, c, s, exit, stack, ch[q], rest, saved, saved);
      } else {
        var s' := GreedySaved(pc + 1, i, ch, q, stack);
        GrownBy(saved, s');
        GreedyFails(code, c, pc + 1, i, ch, q, stack, saved, exit, s', rest);
        EnumCons(code, c, s, exit, stack, ch[q], rest, saved, saved + [s']);
      }
    }
  }

  lemma GreedyFirstStep(code: seq<byte>, c: Ctx, pc: int, i: Instr, ch: seq<X>, stack: seq<int>, saved: seq<Saved>,
                        x: X)
    requires Decode(code, pc) == Some(i) && i.SimpleGreedyQuant? && 0 <= i.min && ch != []
    requires x.pos <= |c.units| && x.caps == ch[0].caps && ch[|ch| - 1].caps == ch[0].caps
    requires Iterate(code, c, pc + 17, x.pos, 0, i.max) == End(ch[|ch| - 1].pos, |ch| - 1)
    ensures Step(code, c, At(pc, x, stack, saved))
         == if |ch| - 1 < i.min then Fail(saved)
            else At(pc + 17 + i.next, ch[|ch| - 1], stack,
                    if |ch| - 1 == i.min then saved
                    else saved + [GreedySaved(pc + 1, i, ch, |ch| - 1, stack)])
  {
    hide Decode, Iterate;
  }
}
