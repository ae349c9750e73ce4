/** Running code as enumerating results: what it means that code delivers a list of results in order, and how to combine it. */
module ReEnum {
  import opened Optional
  import opened ReCode
  import opened ReInput
  import opened ReVM
  import opened ReMatch

  ghost predicate IsLook(s: Saved) {
    s.kind == LookaheadState || s.kind == NegativeLookaheadState
  }

  /** States were only pushed, and none of them belongs to a look-around. */
  ghost predicate Grown(saved: seq<Saved>, more: seq<Saved>) {
    && |saved| <= |more| && more[..|saved|] == saved
    && forall i :: |saved| <= i < |more| ==> !IsLook(more[i])
  }

  function At(pc: int, x: X, stack: seq<int>, saved: seq<Saved>): Conf {
    Run(pc, x.pos, x.caps, stack, saved)
  }

  /** From `s` the machine arrives at `exit` with the first of `rs`; each later failure brings the next one, the last
      failure is one of `saved`. */
  ghost predicate Enum(code: seq<byte>, c: Ctx, s: Conf, exit: int, stack: seq<int>, rs: seq<X>, saved: seq<Saved>)
    decreases rs
  {
    if rs == [] then Reach(code, c, s, Fail(saved))
    else exists more ::
        && Grown(saved, more)
        && Reach(code, c, s, At(exit, rs[0], stack, more))
        && Enum(code, c, Fail(more), exit, stack, rs[1..], saved)
  }

  /** Entered at `pc` with `x`, the code delivers exactly `rs` at `exit`, whatever states are saved below. */
  ghost predicate Cont(code: seq<byte>, c: Ctx, pc: int, stack: seq<int>, x: X, exit: int, stack': seq<int>, rs: seq<X>) {
    forall saved :: Enum(code, c, At(pc, x, stack, saved), exit, stack', rs, saved)
  }

  lemma EnumFirst(code: seq<byte>, c: Ctx, s: Conf, exit: int, stack: seq<int>, rs: seq<X>, saved: seq<Saved>)
    returns (more: seq<Saved>)
    requires rs != [] && Enum(code, c, s, exit, stack, rs, saved)
    ensures Grown(saved, more) && Reach(code, c, s, At(exit, rs[0], stack, more))
    ensures Enum(code, c, Fail(more), exit, stack, rs[1..], saved)
  {
    more :| Grown(saved, more) && Reach(code, c, s, At(exit, rs[0], stack, more))
            && Enum(code, c, Fail(more), exit, stack, rs[1..], saved);
  }

  lemma EnumCons(code: seq<byte>, c: Ctx, s: Conf, exit: int, stack: seq<int>, r: X, rs: seq<X>, saved: seq<Saved>,
                 more: seq<Saved>)
    requires Grown(saved, more) && Reach(code, c, s, At(exit, r, stack, more))
    requires Enum(code, c, Fail(more), exit, stack, rs, saved)
    ensures Enum(code, c, s, exit, stack, [r] + rs, saved)
  {
    assert ([r] + rs)[1..] == rs;
  }

  lemma EnumNone(code: seq<byte>, c: Ctx, exit: int, stack: seq<int>, saved: seq<Saved>)
    ensures Enum(code, c, Fail(saved), exit, stack, [], saved)
    ensures Grown(saved, saved)
  {
    ReachRefl(code, c, Fail(saved));
  }

  lemma GrownBy(saved: seq<Saved>, s: Saved)
    requires !IsLook(s)
    ensures Grown(saved, saved + [s])
  {
  }

  lemma EnumFrom(code: seq<byte>, c: Ctx, s: Conf, t: Conf, exit: int, stack: seq<int>, rs: seq<X>, saved: seq<Saved>)
    requires Reach(code, c, s, t) && Enum(code, c, t, exit, stack, rs, saved)
    ensures Enum(code, c, s, exit, stack, rs, saved)
  {
    if rs == [] {
      ReachTrans(code, c, s, t, Fail(saved));
    } else {
      var more := EnumFirst(code, c, t, exit, stack, rs, saved);
      ReachTrans(code, c, s, t, At(exit, rs[0], stack, more));
    }
  }

  lemma GrownTrans(a: seq<Saved>, b: seq<Saved>, d: seq<Saved>)
    requires Grown(a, b) && Grown(b, d)
    ensures Grown(a, d)
  {
    assert d[..|a|] == b[..|a|];
    forall i | |a| <= i < |d| ensures !IsLook(d[i]) {
      if i < |b| { assert d[..|b|][i] == b[i]; }
    }
  }

  lemma {:induction false} EnumAppend(code: seq<byte>, c: Ctx, s: Conf, exit: int, stack: seq<int>, rs: seq<X>, ts: seq<X>,
                                      saved: seq<Saved>, below: seq<Saved>)
    requires Grown(below, saved)
    requires Enum(code, c, s, exit, stack, rs, saved)
    requires Enum(code, c, Fail(saved), exit, stack, ts, below)
    ensures Enum(code, c, s, exit, stack, rs + ts, below)
    decreases rs
  {
    hide Reach, Grown;
    if rs == [] {
      assert rs + ts == ts;
      EnumFrom(code, c, s, Fail(saved), exit, stack, ts, below);
    } else {
      var more := EnumFirst(code, c, s, exit, stack, rs, saved);
      EnumAppend(code, c, Fail(more), exit, stack, rs[1..], ts, saved, below);
      GrownTrans(below, saved, more);
      EnumCons(code, c, s, exit, stack, rs[0], rs[1..] + ts, below, more);
      assert rs + ts == [rs[0]] + (rs[1..] + ts);
    }
  }

  function Concat(fs: seq<seq<X>>): seq<X> {
    if fs == [] then [] else fs[0] + Concat(fs[1..])
  }

  lemma {:induction false} EnumThen(code: seq<byte>, c: Ctx, s: Conf, mid: int, stack1: seq<int>, xs: seq<X>,
                                    saved: seq<Saved>, exit: int, stack2: seq<int>, fs: seq<seq<X>>)
    requires Enum(code, c, s, mid, stack1, xs, saved)
    requires |fs| == |xs| && forall i :: 0 <= i < |xs| ==> Cont(code, c, mid, stack1, xs[i], exit, stack2, fs[i])
    ensures Enum(code, c, s, exit, stack2, Concat(fs), saved)
    decreases xs
  {
    hide Reach, Grown;
    if xs != [] {
      var more := EnumFirst(code, c, s, mid, stack1, xs, saved);
      EnumThen(code, c, Fail(more), mid, stack1, xs[1..], saved, exit, stack2, fs[1..]);
      assert Cont(code, c, mid, stack1, xs[0], exit, stack2, fs[0]);
      assert Enum(code, c, At(mid, xs[0], stack1, more), exit, stack2, fs[0], more);
      EnumFrom(code, c, s, At(mid, xs[0], stack1, more), exit, stack2, fs[0], more);
      EnumAppend(code, c, s, exit, stack2, fs[0], Concat(fs[1..]), more, saved);
    }
  }

  // ---- combining code ----

  lemma ContHere(code: seq<byte>, c: Ctx, pc: int, stack: seq<int>, x: X)
    ensures Cont(code, c, pc, stack, x, pc, stack, [x])
  {
    forall saved ensures Enum(code, c, At(pc, x, stack, saved), pc, stack, [x], saved) {
      ReachRefl(code, c, At(pc, x, stack, saved));
      ReachRefl(code, c, Fail(saved));
      assert Grown(saved, saved);
    }
  }

  lemma ContFail(code: seq<byte>, c: Ctx, pc: int, stack: seq<int>, x: X, exit: int, stack': seq<int>)
    requires forall saved :: Step(code, c, At(pc, x, stack, saved)) == Fail(saved)
    ensures Cont(code, c, pc, stack, x, exit, stack', [])
  {
    forall saved ensures Enum(code, c, At(pc, x, stack, saved), exit, stack', [], saved) {
      ReachStep(code, c, At(pc, x, stack, saved));
    }
  }

  lemma ContStep(code: seq<byte>, c: Ctx, pc: int, stack: seq<int>, x: X, pc1: int, stack1: seq<int>, x1: X,
                 exit: int, stack2: seq<int>, rs: seq<X>)
    requires forall saved :: Step(code, c, At(pc, x, stack, saved)) == At(pc1, x1, stack1, saved)
    requires Cont(code, c, pc1, stack1, x1, exit, stack2, rs)
    ensures Cont(code, c, pc, stack, x, exit, stack2, rs)
  {
    forall saved ensures Enum(code, c, At(pc, x, stack, saved), exit, stack2, rs, saved) {
      ReachStep(code, c, At(pc, x, stack, saved));
      EnumFrom(code, c, At(pc, x, stack, saved), At(pc1, x1, stack1, saved), exit, stack2, rs, saved);
    }
  }

  lemma ContOne(code: seq<byte>, c: Ctx, pc: int, stack: seq<int>, x: X, exit: int, stack': seq<int>, r: X)
    requires forall saved :: Step(code, c, At(pc, x, stack, saved)) == At(exit, r, stack', saved)
    ensures Cont(code, c, pc, stack, x, exit, stack', [r])
  {
    ContHere(code, c, exit, stack', r);
    ContStep(code, c, pc, stack, x, exit, stack', r, exit, stack', [r]);
  }

  lemma ContThen(code: seq<byte>, c: Ctx, pc: int, stack: seq<int>, x: X, mid: int, stack1: seq<int>, xs: seq<X>,
                 exit: int, stack2: seq<int>, fs: seq<seq<X>>)
    requires Cont(code, c, pc, stack, x, mid, stack1, xs)
    requires |fs| == |xs| && forall i :: 0 <= i < |xs| ==> Cont(code, c, mid, stack1, xs[i], exit, stack2, fs[i])
    ensures Cont(code, c, pc, stack, x, exit, stack2, Concat(fs))
  {
    forall saved ensures Enum(code, c, At(pc, x, stack, saved), exit, stack2, Concat(fs), saved) {
      EnumThen(code, c, At(pc, x, stack, saved), mid, stack1, xs, saved, exit, stack2, fs);
    }
  }

  /** A split enumerates the branch it takes first, then the one it saved. */
  lemma ContSplitNext(code: seq<byte>, c: Ctx, pc: int, stack: seq<int>, x: X, off: int,
                      exit: int, stack2: seq<int>, rs: seq<X>, ts: seq<X>)
    requires x.pos <= |c.units| && Decode(code, pc) == Some(SplitNextFirst(off))
    requires Cont(code, c, pc + 5, stack, x, exit, stack2, rs)
    requires Cont(code, c, pc + 5 + off, stack, x, exit, stack2, ts)
    ensures Cont(code, c, pc, stack, x, exit, stack2, rs + ts)
  {
    SplitSteps(code, c, pc, stack, x);
    hide Decode, Step, Enum, At;
    forall saved ensures Enum(code, c, At(pc, x, stack, saved), exit, stack2, rs + ts, saved) {
      EnumSplit(code, c, pc, stack, x, pc + 5, pc + 5 + off, exit, stack2, rs, ts, saved);
    }
  }

  lemma ContSplitGoto(code: seq<byte>, c: Ctx, pc: int, stack: seq<int>, x: X, off: int,
                      exit: int, stack2: seq<int>, rs: seq<X>, ts: seq<X>)
    requires x.pos <= |c.units| && Decode(code, pc) == Some(SplitGotoFirst(off))
    requires Cont(code, c, pc + 5 + off, stack, x, exit, stack2, rs)
    requires Cont(code, c, pc + 5, stack, x, exit, stack2, ts)
    ensures Cont(code, c, pc, stack, x, exit, stack2, rs + ts)
  {
    SplitSteps(code, c, pc, stack, x);
    hide Decode, Step, Enum, At;
    forall saved ensures Enum(code, c, At(pc, x, stack, saved), exit, stack2, rs + ts, saved) {
      EnumSplit(code, c, pc, stack, x, pc + 5 + off, pc + 5, exit, stack2, rs, ts, saved);
    }
  }

  function SplitSaved(pc: int, x: X, stack: seq<int>): Saved {
    Saved(SplitState, pc, x.pos, x.caps, stack, 0)
  }

  lemma SplitSteps(code: seq<byte>, c: Ctx, pc: int, stack: seq<int>, x: X)
    requires x.pos <= |c.units|
    ensures forall off, saved :: Decode(code, pc) == Some(SplitNextFirst(off)) ==>
      Step(code, c, At(pc, x, stack, saved)) == At(pc + 5, x, stack, saved + [SplitSaved(pc + 5 + off, x, stack)])
    ensures forall off, saved :: Decode(code, pc) == Some(SplitGotoFirst(off)) ==>
      Step(code, c, At(pc, x, stack, saved)) == At(pc + 5 + off, x, stack, saved + [SplitSaved(pc + 5, x, stack)])
  {
    hide Decode;
  }

  lemma EnumSplit(code: seq<byte>, c: Ctx, pc: int, stack: seq<int>, x: X, first: int, second: int,
                  exit: int, stack2: seq<int>, rs: seq<X>, ts: seq<X>, saved: seq<Saved>)
    requires Step(code, c, At(pc, x, stack, saved)) == At(first, x, stack, saved + [SplitSaved(second, x, stack)])
    requires Cont(code, c, first, stack, x, exit, stack2, rs)
    requires Cont(code, c, second, stack, x, exit, stack2, ts)
    ensures Enum(code, c, At(pc, x, stack, saved), exit, stack2, rs + ts, saved)
  {
    hide Enum, Reach;
    var s, more := At(pc, x, stack, saved), saved + [SplitSaved(second, x, stack)];
    assert more[..|more| - 1] == saved;
    assert Step(code, c, Fail(more)) == At(second, x, stack, saved);
    hide Step, At;
    ReachStep(code, c, s);
    EnumFrom(code, c, s, At(first, x, stack, more), exit, stack2, rs, more);
    ReachStep(code, c, Fail(more));
    EnumFrom(code, c, Fail(more), At(second, x, stack, saved), exit, stack2, ts, saved);
    GrownBy(saved, SplitSaved(second, x, stack));
    EnumAppend(code, c, s, exit, stack2, rs, ts, more, saved);
  }

  /** A success discards the states saved since the innermost look-around. */
  lemma {:induction false} SucceedUnwinds(code: seq<byte>, c: Ctx, caps: seq<int>, saved: seq<Saved>, more: seq<Saved>)
    requires Grown(saved, more)
    ensures Reach(code, c, Succeed(caps, more), Succeed(caps, saved))
    decreases |more|
  {
    if |more| == |saved| {
      assert more == saved;
      ReachRefl(code, c, Succeed(caps, more));
    } else {
      var less := more[..|more| - 1];
      assert less[..|saved|] == more[..|saved|];
      assert !IsLook(more[|more| - 1]);
      assert Step(code, c, Succeed(caps, more)) == Succeed(caps, less);
      ReachStep(code, c, Succeed(caps, more));
      SucceedUnwinds(code, c, caps, saved, less);
      ReachTrans(code, c, Succeed(caps, more), Succeed(caps, less), Succeed(caps, saved));
    }
  }
}
