/** Look-around: the saved state at its entry makes the body atomic. */
module ReLook {
  import opened Optional
  import opened ReCode
  import opened ReInput
  import opened ReMatch
  import opened ReVM
  import opened ReCompile
  import opened ReEnum
  import opened ReSimple
  import opened ReParts

  function LookInstr(negated: bool, off: int): Instr {
    if negated then NegativeLookahead(off) else Lookahead(off)
  }

  function LookSaved(negated: bool, pc: int, x: X, stack: seq<int>): Saved {
    Saved(if negated then NegativeLookaheadState else LookaheadState, pc, x.pos, x.caps, stack, 0)
  }

  function LookOutcome(negated: bool, x: X, rs: seq<X>): seq<X> {
    if negated then (if rs == [] then [x] else [])
    else if rs == [] then [] else [X(x.pos, rs[0].caps)]
  }

  lemma LookSteps(code: seq<byte>, c: Ctx, pc: int, stack: seq<int>, x: X, negated: bool, off: int, saved: seq<Saved>)
    requires x.pos <= |c.units| && Decode(code, pc) == Some(LookInstr(negated, off))
    ensures var more := saved + [LookSaved(negated, pc + 5 + off, x, stack)];
            && Step(code, c, At(pc, x, stack, saved)) == At(pc + 5, x, stack, more)
            && Step(code, c, Fail(more)) == (if negated then At(pc + 5 + off, x, stack, saved) else Fail(saved))
            && forall caps :: Step(code, c, Succeed(caps, more))
                           == (if negated then Fail(saved) else At(pc + 5 + off, X(x.pos, caps), stack, saved))
  {
    hide Decode;
    var more := saved + [LookSaved(negated, pc + 5 + off, x, stack)];
    assert more[..|more| - 1] == saved;
  }

  lemma MatchStep(code: seq<byte>, c: Ctx, pc: int, stack: seq<int>, x: X, saved: seq<Saved>)
    requires x.pos <= |c.units| && Decode(code, pc) == Some(Match)
    ensures Step(code, c, At(pc, x, stack, saved)) == Succeed(x.caps, saved)
  {
    hide Decode;
  }

  /** The body fails into the saved state, or its first match unwinds down to it. */
  lemma BodyOutcome(code: seq<byte>, c: Ctx, pc: int, stack: seq<int>, x: X, mid: int, rs: seq<X>, saved: seq<Saved>)
    requires Cont(code, c, pc, stack, x, mid, stack, rs) && Decode(code, mid) == Some(Match)
    requires rs != [] ==> rs[0].pos <= |c.units|
    ensures Reach(code, c, At(pc, x, stack, saved), if rs == [] then Fail(saved) else Succeed(rs[0].caps, saved))
  {
    var s := At(pc, x, stack, saved);
    assert Enum(code, c, s, mid, stack, rs, saved);
    if rs != [] {
      var more := EnumFirst(code, c, s, mid, stack, rs, saved);
      hide Enum, Cont, Reach, Step, At, Grown, Decode;
      MatchStep(code, c, mid, stack, rs[0], more);
      ReachStep(code, c, At(mid, rs[0], stack, more));
      ReachTrans(code, c, s, At(mid, rs[0], stack, more), Succeed(rs[0].caps, more));
      SucceedUnwinds(code, c, rs[0].caps, saved, more);
      ReachTrans(code, c, s, Succeed(rs[0].caps, more), Succeed(rs[0].caps, saved));
    }
  }

  lemma EnumLook(code: seq<byte>, c: Ctx, pc: int, stack: seq<int>, x: X, negated: bool, off: int, rs: seq<X>,
                 saved: seq<Saved>)
    requires x.pos <= |c.units| && Decode(code, pc) == Some(LookInstr(negated, off))
    requires Cont(code, c, pc + 5, stack, x, pc + 4 + off, stack, rs) && Decode(code, pc + 4 + off) == Some(Match)
    requires rs != [] ==> rs[0].pos <= |c.units|
    ensures Enum(code, c, At(pc, x, stack, saved), pc + 5 + off, stack, LookOutcome(negated, x, rs), saved)
  {
    hide Enum, Cont, Reach, Step, At, Decode, LookSaved, Grown;
    var s, exit := At(pc, x, stack, saved), pc + 5 + off;
    var more := saved + [LookSaved(negated, exit, x, stack)];
    LookSteps(code, c, pc, stack, x, negated, off, saved);
    ReachStep(code, c, s);
    BodyOutcome(code, c, pc + 5, stack, x, pc + 4 + off, rs, more);
    var t := if rs == [] then Fail(more) else Succeed(rs[0].caps, more);
    ReachTrans(code, c, s, At(pc + 5, x, stack, more), t);
    ReachStep(code, c, t);
    ReachTrans(code, c, s, t, Step(code, c, t));
    EnumNone(code, c, exit, stack, saved);
    if LookOutcome(negated, x, rs) == [] {
      EnumFrom(code, c, s, Fail(saved), exit, stack, [], saved);
    } else {
      var r := LookOutcome(negated, x, rs)[0];
      assert Step(code, c, t) == At(exit, r, stack, saved);
      EnumCons(code, c, s, exit, stack, r, [], saved, saved);
      assert [r] + [] == LookOutcome(negated, x, rs);
    }
  }

  lemma LookShape(c: Ctx, b: Node, negated: bool, behind: bool, k: nat, back: bool, x: X)
    requires x.pos <= |c.units|
    ensures var f := Asm(b, k, behind);
            Asm(Look(negated, behind, b), k, back) == [LookInstr(negated, Len(f) + 1)] + f + [Match]
    ensures Results(c, Look(negated, behind, b), k, back, x) == LookOutcome(negated, x, Results(c, b, k, behind, x))
  {
  }

  lemma LookCorrect(code: seq<byte>, c: Ctx, b: Node, negated: bool, behind: bool, k: nat, back: bool, pc: int,
                    stack: seq<int>, x: X)
    requires Right(code, c, b, k, behind)
    requires Placed(code, pc, Asm(Look(negated, behind, b), k, back)) && Ready(c, x, k + Caps(Look(negated, behind, b)))
    ensures Cont(code, c, pc, stack, x, pc + Len(Asm(Look(negated, behind, b), k, back)), stack,
                 Results(c, Look(negated, behind, b), k, back, x))
  {
    hide Right, Placed, Asm, Results, Len, Enum, LookOutcome;
    LookShape(c, b, negated, behind, k, back, x);
    var f := Asm(b, k, behind);
    var i := LookInstr(negated, Len(f) + 1);
    assert [i] + f + [Match] == [i] + (f + [Match]) && [Match] == [Match] + [];
    PlacedHead(code, pc, i, f + [Match]);
    PlacedConcat(code, pc + 5, f, [Match]);
    PlacedHead(code, pc + 5 + Len(f), Match, []);
    LenThree(i, f, Match);
    UseRight(code, c, b, k, behind, pc + 5, stack, x);
    var rs := Results(c, b, k, behind, x);
    assert rs != [] ==> After(c, behind, x, rs[0]);
    var exit, out := pc + 6 + Len(f), LookOutcome(negated, x, rs);
    hide Decode, At, Cont;
    LookEverywhere(code, c, pc, stack, x, negated, Len(f) + 1, rs, exit, out);
  }

  lemma LookEverywhere(code: seq<byte>, c: Ctx, pc: int, stack: seq<int>, x: X, negated: bool, off: int, rs: seq<X>,
                       exit: int, out: seq<X>)
    requires x.pos <= |c.units| && Decode(code, pc) == Some(LookInstr(negated, off))
    requires Cont(code, c, pc + 5, stack, x, pc + 4 + off, stack, rs) && Decode(code, pc + 4 + off) == Some(Match)
    requires rs != [] ==> rs[0].pos <= |c.units|
    requires exit == pc + 5 + off && out == LookOutcome(negated, x, rs)
    ensures Cont(code, c, pc, stack, x, exit, stack, out)
  {
    hide Enum, LookOutcome, Decode, At;
    forall saved ensures Enum(code, c, At(pc, x, stack, saved), exit, stack, out, saved) {
      EnumLook(code, c, pc, stack, x, negated, off, rs, saved);
    }
  }
}
