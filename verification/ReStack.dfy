/** The static stack bound: in every reachable state the machine's stack is as deep as the linear scan says. */
module ReStack {
  import opened Optional
  import opened ReCode
  import opened ReInput
  import opened ReMatch
  import opened ReVM
  import opened ReCompile
  import opened ReEnum
  import opened ReSimple
  import opened ReParts
  import opened ReCorrect
  import opened ReProgram

  /** Effect of an instruction on the depth, as the scan counts it. */
  function Delta(i: Instr): int {
    if i.PushI32? || i.PushCharPos? then 1 else if i.Drop? || i.CheckAdvance? then -1 else 0
  }

  /** Depth an instruction needs to find. */
  function Needs(i: Instr): nat {
    if i.Drop? || i.CheckAdvance? || i.Loop? then 1 else 0
  }

  function Depth(f: seq<Instr>): int {
    if f == [] then 0 else Delta(f[0]) + Depth(f[1..])
  }

  /** The deepest point the scan of `f` sees, starting at depth `d`. */
  function MaxDepth(f: seq<Instr>, d: int): (m: int)
    ensures m >= d
  {
    if f == [] then d
    else
      var m := MaxDepth(f[1..], d + Delta(f[0]));
      if m > d then m else d
  }

  /** Depth at byte offset `o` of `f`, if an instruction (or the end) is there. */
  function DepthAt(f: seq<Instr>, o: int): Option<int> {
    if o == 0 then Some(0)
    else if f == [] || o < Size(f[0]) then None
    else
      var d := DepthAt(f[1..], o - Size(f[0]));
      if d.Some? then Some(d.value + Delta(f[0])) else None
  }

  predicate HasTarget(i: Instr) {
    i.Goto? || i.SplitGotoFirst? || i.SplitNextFirst? || i.Loop? || i.Lookahead? || i.NegativeLookahead? || i.SimpleGreedyQuant?
  }

  function TargetOff(i: Instr): int
    requires HasTarget(i)
  {
    if i.SimpleGreedyQuant? then i.next else i.off
  }

  /** The instruction `i` between `a` and `b` finds what it pops and jumps to a place of its own depth. */
  ghost predicate OkBetween(a: seq<Instr>, i: Instr, b: seq<Instr>) {
    var d := Depth(a) + Delta(i);
    && d >= 0 && Needs(i) <= Depth(a)
    && (HasTarget(i) ==> DepthAt(a + [i] + b, Len(a) + Size(i) + TargetOff(i)) == Some(d))
  }

  ghost predicate Balanced(f: seq<Instr>) {
    && Depth(f) == 0
    && forall a, i, b :: f == a + [i] + b ==> OkBetween(a, i, b)
  }

  // ---- how depths compose ----

  lemma {:induction false} DepthConcat(f: seq<Instr>, g: seq<Instr>)
    ensures Depth(f + g) == Depth(f) + Depth(g)
  {
    if f == [] {
      assert f + g == g;
    } else {
      assert (f + g)[1..] == f[1..] + g;
      DepthConcat(f[1..], g);
    }
  }

  lemma DepthOne(i: Instr)
    ensures Depth([i]) == Delta(i)
  {
    assert [i][1..] == [];
  }

  lemma {:induction false} DepthAtPrefix(f: seq<Instr>, g: seq<Instr>, o: int)
    requires DepthAt(f, o).Some?
    ensures DepthAt(f + g, o) == DepthAt(f, o)
  {
    if o != 0 {
      assert (f + g)[1..] == f[1..] + g;
      DepthAtPrefix(f[1..], g, o - Size(f[0]));
    }
  }

  lemma {:induction false} DepthAtSuffix(f: seq<Instr>, g: seq<Instr>, o: int)
    requires DepthAt(g, o).Some?
    ensures DepthAt(f + g, Len(f) + o) == Some(Depth(f) + DepthAt(g, o).value)
  {
    DepthAtRange(g, o);
    if f == [] {
      assert f + g == g;
    } else {
      assert (f + g)[1..] == f[1..] + g;
      DepthAtSuffix(f[1..], g, o);
    }
  }

  lemma {:induction false} DepthAtRange(f: seq<Instr>, o: int)
    requires DepthAt(f, o).Some?
    ensures 0 <= o <= Len(f)
  {
    if o != 0 { DepthAtRange(f[1..], o - Size(f[0])); }
  }

  lemma {:induction false} DepthAtEnd(f: seq<Instr>)
    ensures DepthAt(f, Len(f)) == Some(Depth(f))
  {
    if f != [] {
      LenPositive(f);
      DepthAtEnd(f[1..]);
    }
  }

  lemma LenPositive(f: seq<Instr>)
    ensures f != [] ==> Len(f) >= Size(f[0])
  {
  }

  /** Between the ends: the offset just after `a` in `a + b`. */
  lemma DepthAtJoin(a: seq<Instr>, b: seq<Instr>)
    ensures DepthAt(a + b, Len(a)) == Some(Depth(a))
  {
    DepthAtEnd(a);
    DepthAtPrefix(a, b, Len(a));
  }

  /** A balanced fragment stays so inside other code. */
  lemma InsideFlat(pre: seq<Instr>, a: seq<Instr>, i: Instr, b: seq<Instr>, post: seq<Instr>)
    ensures pre + (a + [i] + b + post) == (pre + a) + [i] + (b + post)
  {
  }

  lemma OkInside(pre: seq<Instr>, a: seq<Instr>, i: Instr, b: seq<Instr>, post: seq<Instr>)
    requires OkBetween(a, i, b) && Depth(pre) >= 0
    ensures OkBetween(pre + a, i, b + post)
  {
    hide Depth, Len, DepthAt, Delta, Needs, Size, TargetOff, HasTarget;
    DepthConcat(pre, a);
    LenConcat(pre, a);
    if HasTarget(i) {
      var f, o := a + [i] + b, Len(a) + Size(i) + TargetOff(i);
      DepthAtPrefix(f, post, o);
      DepthAtSuffix(pre, f + post, o);
      InsideFlat(pre, a, i, b, post);
    }
  }

  lemma UseBalanced(f: seq<Instr>, a: seq<Instr>, i: Instr, b: seq<Instr>)
    requires Balanced(f) && f == a + [i] + b
    ensures OkBetween(a, i, b)
  {
    hide OkBetween, Depth;
  }

  lemma BalancedNone()
    ensures Balanced([])
  {
    forall a, i: Instr, b ensures [] != a + [i] + b {
      assert |a + [i] + b| > 0;
    }
  }

  lemma BalancedConcat(f: seq<Instr>, g: seq<Instr>)
    requires Balanced(f) && Balanced(g)
    ensures Balanced(f + g)
  {
    hide OkBetween, Depth, Balanced;
    DepthConcat(f, g);
    BalancedZero(f);
    BalancedZero(g);
    forall a, i, b | f + g == a + [i] + b ensures OkBetween(a, i, b) {
      if |a| < |f| {
        var b' := f[|a| + 1..];
        assert f == a + [i] + b' && b == b' + g by { Parts(f, g, a, i, b); }
        UseBalanced(f, a, i, b');
        DepthNil();
        OkInside([], a, i, b', g);
        assert [] + a == a;
      } else {
        var a' := a[|f|..];
        assert g == a' + [i] + b && a == f + a' by { Parts2(f, g, a, i, b); }
        UseBalanced(g, a', i, b);
        OkInside(f, a', i, b, []);
        assert b + [] == b;
      }
    }
    BalancedIntro(f + g);
  }

  lemma Parts(f: seq<Instr>, g: seq<Instr>, a: seq<Instr>, i: Instr, b: seq<Instr>)
    requires f + g == a + [i] + b && |a| < |f|
    ensures f == a + [i] + f[|a| + 1..] && b == f[|a| + 1..] + g
  {
    assert a == (f + g)[..|a|] == f[..|a|];
    assert i == (f + g)[|a|] == f[|a|];
    assert b == (f + g)[|a| + 1..];
  }

  lemma Parts2(f: seq<Instr>, g: seq<Instr>, a: seq<Instr>, i: Instr, b: seq<Instr>)
    requires f + g == a + [i] + b && |a| >= |f|
    ensures g == a[|f|..] + [i] + b && a == f + a[|f|..]
  {
    assert f == (f + g)[..|f|] == (a + [i] + b)[..|f|] == a[..|f|];
    assert g == (f + g)[|f|..] == (a + [i] + b)[|f|..];
  }

  lemma DepthNil()
    ensures Depth([]) == 0
  {
  }

  lemma BalancedZero(f: seq<Instr>)
    requires Balanced(f)
    ensures Depth(f) == 0
  {
  }

  lemma BalancedIntro(f: seq<Instr>)
    requires Depth(f) == 0 && forall a, i, b :: f == a + [i] + b ==> OkBetween(a, i, b)
    ensures Balanced(f)
  {
  }

  /** A balanced body between two instructions. */
  lemma BalancedAround(i: Instr, f: seq<Instr>, j: Instr)
    requires Balanced(f) && Delta(i) >= 0 && Needs(i) == 0 && Delta(j) == -Delta(i) && Needs(j) <= Delta(i)
    requires HasTarget(i) ==> DepthAt([i] + f + [j], Size(i) + TargetOff(i)) == Some(Delta(i))
    requires HasTarget(j) ==> DepthAt([i] + f + [j], Len([i] + f + [j]) + TargetOff(j)) == Some(0)
    ensures Balanced([i] + f + [j])
  {
    hide OkBetween, Depth, Balanced, DepthAt, Len, Size, Delta, Needs;
    var all := [i] + f + [j];
    BalancedZero(f);
    DepthOne(i);
    DepthOne(j);
    DepthConcat([i], f);
    DepthConcat([i] + f, [j]);
    forall a, x, b | all == a + [x] + b ensures OkBetween(a, x, b) {
      if |a| == 0 {
        assert x == all[0] == i && a == [] && a + [x] + b == all;
        OkFirst(i, f, j, b);
      } else if |a| <= |f| {
        var a', b' := a[1..], f[|a|..];
        assert f == a' + [x] + b' && b == b' + [j] && a == [i] + a' by { Parts3(i, f, j, a, x, b); }
        UseBalanced(f, a', x, b');
        OkInside([i], a', x, b', [j]);
      } else {
        assert a == [i] + f && x == j && b == [] by { Parts4(i, f, j, a, x, b); }
        OkLast(i, f, j);
      }
    }
    BalancedIntro(all);
  }

  lemma Parts3(i: Instr, f: seq<Instr>, j: Instr, a: seq<Instr>, x: Instr, b: seq<Instr>)
    requires [i] + f + [j] == a + [x] + b && 1 <= |a| <= |f|
    ensures f == a[1..] + [x] + f[|a|..] && b == f[|a|..] + [j] && a == [i] + a[1..]
  {
    var all := [i] + f + [j];
    assert a == all[..|a|] && x == all[|a|] && b == all[|a| + 1..];
    assert f == all[1..|f| + 1];
    assert f[..|a| - 1] == a[1..] && f[|a| - 1] == x;
    assert f == f[..|a| - 1] + [f[|a| - 1]] + f[|a|..];
    assert b == f[|a|..] + [j];
  }

  lemma Parts4(i: Instr, f: seq<Instr>, j: Instr, a: seq<Instr>, x: Instr, b: seq<Instr>)
    requires [i] + f + [j] == a + [x] + b && |a| > |f|
    ensures a == [i] + f && x == j && b == []
  {
    var all := [i] + f + [j];
    assert a == all[..|a|] && x == all[|a|] && b == all[|a| + 1..];
  }

  lemma OkFirst(i: Instr, f: seq<Instr>, j: Instr, b: seq<Instr>)
    requires [] + [i] + b == [i] + f + [j]
    requires Delta(i) >= 0 && Needs(i) == 0
    requires HasTarget(i) ==> DepthAt([i] + f + [j], Size(i) + TargetOff(i)) == Some(Delta(i))
    ensures OkBetween([], i, b)
  {
    hide DepthAt;
  }

  lemma OkLast(i: Instr, f: seq<Instr>, j: Instr)
    requires Depth([i] + f) == Delta(i) && Delta(j) == -Delta(i) && Needs(j) <= Delta(i)
    requires HasTarget(j) ==> DepthAt([i] + f + [j], Len([i] + f + [j]) + TargetOff(j)) == Some(0)
    ensures OkBetween([i] + f, j, [])
  {
    hide DepthAt, Depth;
    SimpleSingle(j);
    hide Len;
    LenConcat([i] + f, [j]);
    assert [i] + f + [j] + [] == [i] + f + [j];
  }

  lemma BalancedOne(i: Instr)
    requires Delta(i) == 0 && Needs(i) == 0 && !HasTarget(i)
    ensures Balanced([i])
  {
    DepthOne(i);
    forall a, x, b | [i] == a + [x] + b ensures OkBetween(a, x, b) {
      assert |a| == 0 && x == [i][0];
    }
  }

  // ---- the code of every pattern is balanced ----

  lemma TargetEnd(i: Instr, f: seq<Instr>, j: Instr)
    ensures DepthAt([i] + f + [j], Size(i) + Len(f) + Size(j)) == Some(Depth([i] + f + [j]))
    ensures DepthAt([i] + f + [j], Size(i) + Len(f)) == Some(Delta(i) + Depth(f))
    ensures DepthAt([i] + f + [j], Size(i)) == Some(Delta(i))
    ensures DepthAt([i] + f + [j], 0) == Some(0)
    ensures Len([i] + f + [j]) == Size(i) + Len(f) + Size(j)
    ensures Depth([i] + f + [j]) == Delta(i) + Depth(f) + Delta(j)
  {
    SimpleSingle(i);
    DepthOne(i);
    DepthOne(j);
    hide DepthAt, Depth, Delta, Size, Len;
    LenThree(i, f, j);
    LenConcat([i], f);
    DepthConcat([i], f);
    DepthConcat([i] + f, [j]);
    DepthAtEnd([i] + f + [j]);
    DepthAtJoin([i] + f, [j]);
    assert [i] + (f + [j]) == [i] + f + [j];
    DepthAtJoin([i], f + [j]);
    DepthAtZero([i] + f + [j]);
  }

  lemma DepthAtZero(f: seq<Instr>)
    ensures DepthAt(f, 0) == Some(0)
  {
  }

  lemma CheckedBalanced(f: seq<Instr>, check: bool)
    requires Balanced(f)
    ensures Balanced(Checked(f, check))
  {
    hide Balanced;
    if check { BalancedAround(PushCharPos, f, CheckAdvance); }
  }

  lemma StarBalanced(g: seq<Instr>, greedy: bool)
    requires Balanced(g)
    ensures Balanced(Star(g, greedy))
  {
    hide Balanced, DepthAt, Depth, Len;
    var i, j := Split(greedy, Len(g) + 5), Goto(-(Len(g) + 10));
    BalancedZero(g);
    TargetEnd(i, g, j);
    BalancedAround(i, g, j);
  }

  lemma BalancedLoop(i: Instr, g: seq<Instr>, j: Instr, n: nat)
    requires Balanced(g) && Delta(i) == 0 && Needs(i) == 0 && HasTarget(i)
    requires j.Loop? && Size(i) == 5
    requires TargetOff(i) == Len(g) + 5 && j.off == -(Len(g) + 10)
    ensures Balanced([PushI32(n)] + ([i] + g + [j]) + [Drop])
  {
    hide Balanced, DepthAt, Depth, Len, OkBetween;
    var push := PushI32(n);
    var inner := [i] + g + [j];
    var all := [push] + inner + [Drop];
    BalancedZero(g);
    TargetEnd(i, g, j);
    TargetEnd(push, inner, Drop);
    assert Depth(inner) == 0 && Depth(all) == 0;
    DepthOne(push);
    assert all == [push] + (inner + [Drop]);
    forall a, x, b | all == a + [x] + b ensures OkBetween(a, x, b) {
      LoopPart(push, i, g, j, a, x, b);
    }
    BalancedIntro(all);
  }

  lemma LoopPart(push: Instr, i: Instr, g: seq<Instr>, j: Instr, a: seq<Instr>, x: Instr, b: seq<Instr>)
    requires push.PushI32? && Balanced(g) && Delta(i) == 0 && Needs(i) == 0 && HasTarget(i)
    requires j.Loop? && Size(i) == 5
    requires TargetOff(i) == Len(g) + 5 && j.off == -(Len(g) + 10)
    requires [push] + ([i] + g + [j]) + [Drop] == a + [x] + b
    ensures OkBetween(a, x, b)
  {
    hide Balanced, DepthAt, Depth, Len, OkBetween;
    var inner := [i] + g + [j];
    var all := [push] + inner + [Drop];
    BalancedZero(g);
    TargetEnd(i, g, j);
    TargetEnd(push, inner, Drop);
    DepthOne(push);
    if |a| == 0 {
      assert x == all[0] && a == [];
      DepthNil();
      OkPlain(a, x, b);
    } else if |a| == |inner| + 1 {
      Parts4(push, inner, Drop, a, x, b);
      DepthConcat([push], inner);
      OkPlain(a, x, b);
    } else {
      var a', b' := a[1..], inner[|a|..];
      Parts3(push, inner, Drop, a, x, b);
      DepthConcat([push], a');
      LenConcat([push], a');
      SimpleSingle(push);
      if |a'| == 0 {
        assert x == inner[0] == i && a == [push];
        OkJump(push, i, g, j, a, x, b, Len(g) + 15);
      } else if |a'| == |g| + 1 {
        Parts4(i, g, j, a', x, b');
        DepthConcat([i], g);
        DepthOne(i);
        LenConcat([i], g);
        SimpleSingle(i);
        OkJump(push, i, g, j, a, x, b, 5);
      } else {
        Parts3(i, g, j, a', x, b');
        var a2, b2 := a'[1..], g[|a'|..];
        UseBalanced(g, a2, x, b2);
        DepthOne(i);
        DepthConcat([push], [i]);
        assert [push] + [i] + a2 == a && b2 + ([j] + [Drop]) == b;
        OkInside([push] + [i], a2, x, b2, [j] + [Drop]);
      }
    }
  }

  lemma OkPlain(a: seq<Instr>, i: Instr, b: seq<Instr>)
    requires !HasTarget(i) && Depth(a) + Delta(i) >= 0 && Needs(i) <= Depth(a)
    ensures OkBetween(a, i, b)
  {
  }

  /** A jump inside the counted loop, to a place one level deep. */
  lemma OkJump(push: Instr, i: Instr, g: seq<Instr>, j: Instr, a: seq<Instr>, x: Instr, b: seq<Instr>, target: nat)
    requires push.PushI32? && Delta(x) == 0 && Needs(x) <= 1 && HasTarget(x) && Depth(a) == 1
    requires [push] + ([i] + g + [j]) + [Drop] == a + [x] + b
    requires Depth(g) == 0 && Delta(i) == 0 && Delta(j) == 0 && Size(j) == 5 && Size(i) == 5
    requires Len(a) + Size(x) + TargetOff(x) == target && (target == Len(g) + 15 || target == 5)
    ensures OkBetween(a, x, b)
  {
    hide DepthAt, Depth, Len;
    var inner := [i] + g + [j];
    TargetEnd(i, g, j);
    TargetEnd(push, inner, Drop);
  }

  lemma TimesBalanced(f: seq<Instr>, min: nat)
    requires Balanced(f)
    ensures Balanced(Times(f, min))
  {
    hide Balanced, DepthAt, Depth, Len, OkBetween;
    var push, j := PushI32(min), Loop(-(Len(f) + 5));
    var all := ([push] + f + [j]) + [Drop];
    assert Times(f, min) == all;
    BalancedZero(f);
    TargetEnd(push, f, j);
    DepthOne(Drop);
    DepthConcat([push] + f + [j], [Drop]);
    forall a, x, b | all == a + [x] + b ensures OkBetween(a, x, b) {
      TimesPart(push, f, j, a, x, b);
    }
    BalancedIntro(all);
  }

  lemma TimesPart(push: Instr, f: seq<Instr>, j: Instr, a: seq<Instr>, x: Instr, b: seq<Instr>)
    requires push.PushI32? && Balanced(f) && j == Loop(-(Len(f) + 5))
    requires ([push] + f + [j]) + [Drop] == a + [x] + b
    ensures OkBetween(a, x, b)
  {
    hide Balanced, DepthAt, Depth, Len, OkBetween;
    var all := ([push] + f + [j]) + [Drop];
    assert a == all[..|a|] && x == all[|a|] && b == all[|a| + 1..];
    BalancedZero(f);
    TargetEnd(push, f, j);
    DepthOne(push);
    DepthNil();
    DepthConcat([push], f);
    if |a| == 0 {
      OkPlain(a, x, b);
    } else if |a| == |f| + 2 {
      assert x == Drop && a == [push] + f + [j];
      OkPlain(a, x, b);
    } else if |a| == |f| + 1 {
      assert x == j && a == [push] + f && b == [Drop];
      LenConcat([push], f);
      SimpleSingle(push);
      OkBack(push, f, j);
    } else {
      Parts3(push, f, j, a, x, b[..|b| - 1]);
      var a', b' := a[1..], f[|a|..];
      UseBalanced(f, a', x, b');
      assert b == b' + ([j] + [Drop]);
      OkInside([push], a', x, b', [j] + [Drop]);
    }
  }

  lemma OkBack(push: Instr, f: seq<Instr>, j: Instr)
    requires push.PushI32? && j == Loop(-(Len(f) + 5)) && Len([push] + f) == 5 + Len(f)
    requires Depth([push] + f) == 1
    ensures OkBetween([push] + f, j, [Drop])
  {
    hide Depth, Len, DepthAt;
    TargetEnd(push, f, j);
    DepthAtPrefix([push] + f + [j], [Drop], 5);
  }

  lemma TailBalanced(g: seq<Instr>, greedy: bool, max: nat)
    requires Balanced(g)
    ensures Balanced(Tail(g, greedy, max))
  {
    hide Balanced, Len;
    if max == INFINITE {
      StarBalanced(g, greedy);
    } else if max > 0 {
      var i, j := Split(greedy, Len(g) + 5), Loop(-(Len(g) + 10));
      assert UpTo(g, greedy, max) == [PushI32(max)] + ([i] + g + [j]) + [Drop];
      BalancedLoop(i, g, j, max);
    } else {
      BalancedNone();
    }
  }

  /** A forward jump over a balanced body, without an instruction behind it. */
  lemma SkipBalanced(i: Instr, g: seq<Instr>)
    requires Balanced(g) && Delta(i) == 0 && Needs(i) == 0 && HasTarget(i) && TargetOff(i) == Len(g)
    ensures Balanced([i] + g)
  {
    hide Balanced, OkBetween, Depth, DepthAt, Len;
    BalancedZero(g);
    DepthOne(i);
    DepthConcat([i], g);
    forall a, x, b | [i] + g == a + [x] + b ensures OkBetween(a, x, b) {
      var all := [i] + g;
      assert a == all[..|a|] && x == all[|a|] && b == all[|a| + 1..];
      if |a| == 0 {
        assert b == g && a == [];
        OkSkip(i, g);
      } else {
        var a' := a[1..];
        assert g == all[1..] && a == [i] + a';
        assert g[..|a| - 1] == a' && g[|a| - 1] == x && g[|a|..] == b;
        assert g == a' + [x] + b;
        UseBalanced(g, a', x, b);
        OkInside([i], a', x, b, []);
        assert b + [] == b;
      }
    }
    BalancedIntro([i] + g);
  }

  lemma OkSkip(i: Instr, g: seq<Instr>)
    requires Depth([i] + g) == 0 && Delta(i) == 0 && Needs(i) == 0 && HasTarget(i) && TargetOff(i) == Len(g)
    ensures OkBetween([], i, g)
  {
    hide DepthAt;
    SimpleSingle(i);
    DepthNil();
    hide Len, Depth;
    LenConcat([i], g);
    assert [] + [i] + g == [i] + g;
    DepthAtEnd([i] + g);
    LenZero();
  }

  lemma LenZero()
    ensures Len([]) == 0
  {
  }

  /** A jump back to the start of a balanced body. */
  lemma RepeatBalanced(f: seq<Instr>, j: Instr)
    requires Balanced(f) && Delta(j) == 0 && Needs(j) == 0 && HasTarget(j) && Size(j) == 5 && TargetOff(j) == -(Len(f) + 5)
    ensures Balanced(f + [j])
  {
    hide Balanced, OkBetween, Depth, DepthAt, Len;
    BalancedZero(f);
    DepthOne(j);
    DepthConcat(f, [j]);
    forall a, x, b | f + [j] == a + [x] + b ensures OkBetween(a, x, b) {
      var all := f + [j];
      assert a == all[..|a|] && x == all[|a|] && b == all[|a| + 1..];
      if |a| == |f| {
        assert a == f && b == [];
        OkStart(f, j);
      } else {
        Parts(f, [j], a, x, b);
        UseBalanced(f, a, x, f[|a| + 1..]);
        DepthNil();
        OkInside([], a, x, f[|a| + 1..], [j]);
        assert [] + a == a;
      }
    }
    BalancedIntro(f + [j]);
  }

  lemma OkStart(f: seq<Instr>, j: Instr)
    requires Depth(f) == 0 && Delta(j) == 0 && Needs(j) == 0 && HasTarget(j) && Size(j) == 5 && TargetOff(j) == -(Len(f) + 5)
    ensures OkBetween(f, j, [])
  {
    hide Len, Depth;
  }

  lemma QuantBalanced(f: seq<Instr>, min: nat, max: nat, greedy: bool, reset: seq<Instr>)
    requires Balanced(f) && Balanced(reset) && min <= max
    ensures Balanced(QuantCode(f, min, max, greedy, reset))
  {
    hide Balanced, Tail, Times, SimpleCount, NeedCheckAdvance, Checked, Len, DepthAt, Depth;
    var g := Checked(f, NeedCheckAdvance(f));
    CheckedBalanced(f, NeedCheckAdvance(f));
    if UseSimple(f, max, greedy) {
      var i := SimpleGreedyQuant(Len(f) + 1, min, max, SimpleCount(f));
      BalancedZero(f);
      TargetEnd(i, f, Match);
      BalancedAround(i, f, Match);
    } else if min == 0 {
      if max == 1 {
        SkipBalanced(Split(greedy, Len(g)), g);
        BalancedConcat(reset, [Split(greedy, Len(g))] + g);
      } else {
        TailBalanced(g, greedy, max);
        BalancedConcat(reset, Tail(g, greedy, max));
      }
    } else if min == 1 && max == INFINITE && !NeedCheckAdvance(f) {
      RepeatBalanced(f, if greedy then SplitGotoFirst(-(Len(f) + 5)) else SplitNextFirst(-(Len(f) + 5)));
    } else {
      TailBalanced(g, greedy, Minus(max, min));
      TimesBalanced(f, min);
      BalancedConcat(if min == 1 then f else Times(f, min), Tail(g, greedy, Minus(max, min)));
    }
  }

  lemma AltBalanced(f: seq<Instr>, g: seq<Instr>)
    requires Balanced(f) && Balanced(g)
    ensures Balanced([SplitNextFirst(Len(f) + 5)] + f + [Goto(Len(g))] + g)
  {
    hide Balanced, Depth, DepthAt, OkBetween, Len;
    var i, j := SplitNextFirst(Len(f) + 5), Goto(Len(g));
    var all := [i] + f + [j] + g;
    BalancedZero(f);
    BalancedZero(g);
    TargetEnd(i, f, j);
    DepthConcat([i] + f + [j], g);
    forall a, x, b | all == a + [x] + b ensures OkBetween(a, x, b) {
      assert a == all[..|a|] && x == all[|a|] && b == all[|a| + 1..];
      if |a| == 0 {
        assert a == [] && b == f + [j] + g;
        OkAltFirst(i, f, j, g);
      } else if |a| <= |f| {
        assert all == ([i] + f + [j]) + g;
        Parts([i] + f + [j], g, a, x, b);
        var rest := ([i] + f + [j])[|a| + 1..];
        Parts3(i, f, j, a, x, rest);
        var a', b' := a[1..], f[|a|..];
        UseBalanced(f, a', x, b');
        DepthOne(i);
        assert b == b' + ([j] + g);
        OkInside([i], a', x, b', [j] + g);
      } else if |a| == |f| + 1 {
        assert a == [i] + f && x == j && b == g;
        OkAltLast(i, f, j, g);
      } else {
        Parts2([i] + f + [j], g, a, x, b);
        UseBalanced(g, a[|f| + 2..], x, b);
        OkInside([i] + f + [j], a[|f| + 2..], x, b, []);
        assert b + [] == b;
      }
    }
    BalancedIntro(all);
  }

  lemma OkAltFirst(i: Instr, f: seq<Instr>, j: Instr, g: seq<Instr>)
    requires i == SplitNextFirst(Len(f) + 5) && j.Goto? && Depth([i] + f + [j]) == 0
    ensures OkBetween([], i, f + [j] + g)
  {
    hide DepthAt;
    DepthNil();
    LenZero();
    hide Depth, Len;
    assert [] + [i] + (f + [j] + g) == [i] + f + [j] + g;
    TargetEnd(i, f, j);
    DepthAtPrefix([i] + f + [j], g, 10 + Len(f));
  }

  lemma OkAltLast(i: Instr, f: seq<Instr>, j: Instr, g: seq<Instr>)
    requires i.SplitNextFirst? && j == Goto(Len(g)) && Depth(f) == 0 && Depth(g) == 0
    ensures OkBetween([i] + f, j, g)
  {
    hide DepthAt, Depth, Len;
    TargetEnd(i, f, j);
    DepthOne(i);
    DepthOne(j);
    DepthConcat([i], f);
    DepthConcat([i] + f + [j], g);
    LenConcat([i] + f + [j], g);
    LenConcat([i], f);
    SimpleSingle(i);
    DepthAtEnd([i] + f + [j] + g);
  }

  lemma {:induction false} AsmBalanced(n: Node, k: nat, back: bool)
    ensures Balanced(Asm(n, k, back))
    decreases n
  {
    hide Balanced, Len;
    match n {
      case Empty => BalancedNone();
      case Group(b) =>
        AsmBalanced(b, k + 1, back);
        BalancedAround(Save(k, back), Asm(b, k + 1, back), Save(k, !back));
      case Look(negated, behind, b) =>
        AsmBalanced(b, k, behind);
        LookBalanced(Asm(b, k, behind), negated);
      case Quant(b, min, max, greedy) =>
        AsmBalanced(b, k, back);
        hide QuantCode;
        if min <= max {
          ResetBalanced(k, Caps(b));
          QuantBalanced(Asm(b, k, back), min, max, greedy, Reset(k, Caps(b)));
        } else {
          BalancedNone();
        }
      case Cat(a, b) =>
        AsmBalanced(a, k, back);
        AsmBalanced(b, k + Caps(a), back);
        CatAsm(a, b, k, back);
        BalancedConcat(Asm(First(a, b, back), FirstCap(a, k, back), back), Asm(Second(a, b, back), SecondCap(a, k, back), back));
      case Alt(a, b) =>
        AsmBalanced(a, k, back);
        AsmBalanced(b, k + Caps(a), back);
        AltBalanced(Asm(a, k, back), Asm(b, k + Caps(a), back));
      case _ => LeafBalanced(n, k, back);
    }
  }

  lemma ResetBalanced(k: nat, caps: nat)
    ensures Balanced(Reset(k, caps))
  {
    hide Balanced;
    if caps > 0 { BalancedOne(SaveReset(k, k + caps - 1)); } else { BalancedNone(); }
  }

  lemma LookBalanced(f: seq<Instr>, negated: bool)
    requires Balanced(f)
    ensures Balanced([if negated then NegativeLookahead(Len(f) + 1) else Lookahead(Len(f) + 1)] + f + [Match])
  {
    hide Balanced, Depth, DepthAt, Len;
    var i := if negated then NegativeLookahead(Len(f) + 1) else Lookahead(Len(f) + 1);
    BalancedZero(f);
    TargetEnd(i, f, Match);
    BalancedAround(i, f, Match);
  }

  lemma LeafBalanced(n: Node, k: nat, back: bool)
    requires IsCharNode(n) || n.LineStart? || n.LineEnd? || n.WordBoundary? || n.BackRef?
    ensures Balanced(Asm(n, k, back))
  {
    hide Balanced;
    var f := Asm(n, k, back);
    if IsCharNode(n) && back {
      BalancedOne(CharNodeInstr(n));
      BalancedAround(Prev, [CharNodeInstr(n)], Prev);
      assert f == [Prev] + [CharNodeInstr(n)] + [Prev];
    } else {
      BalancedOne(f[0]);
      assert f == [f[0]];
    }
  }

  // ---- reachable states ----

  /** What is compiled, without the final `match`: every offset of it is inside the program. */
  function Front(n: Node, sticky: bool): seq<Instr> {
    Prefix(sticky) + [SaveStart(0)] + Asm(n, 1, false) + [SaveEnd(0)]
  }

  lemma FrontBalanced(n: Node, sticky: bool)
    ensures Balanced(Front(n, sticky)) && Program(n, sticky) == Front(n, sticky) + [Match]
  {
    hide Balanced, Asm;
    PrefixBalanced(sticky);
    BalancedOne(SaveStart(0));
    BalancedOne(SaveEnd(0));
    AsmBalanced(n, 1, false);
    BalancedConcat(Prefix(sticky), [SaveStart(0)]);
    BalancedConcat(Prefix(sticky) + [SaveStart(0)], Asm(n, 1, false));
    BalancedConcat(Prefix(sticky) + [SaveStart(0)] + Asm(n, 1, false), [SaveEnd(0)]);
    assert [SaveEnd(0), Match] == [SaveEnd(0)] + [Match];
  }

  lemma PrefixBalanced(sticky: bool)
    ensures Balanced(Prefix(sticky))
  {
    hide Balanced, DepthAt, Depth, Len;
    if sticky {
      BalancedNone();
    } else {
      var i, j := SplitGotoFirst(6), Goto(-11);
      BalancedOne(ReCode.Any);
      BalancedZero([ReCode.Any]);
      SimpleSingle(ReCode.Any);
      TargetEnd(i, [ReCode.Any], j);
      BalancedAround(i, [ReCode.Any], j);
      assert Prefix(false) == [i] + [ReCode.Any] + [j];
    }
  }

  /** The stack at code address `pc` is as deep as the scan of `f` (placed after the header) says. */
  ghost predicate DeepAs(f: seq<Instr>, pc: int, stack: seq<int>) {
    DepthAt(f, pc - HEADER_LEN) == Some(|stack|)
  }

  ghost predicate SavedDeep(code: seq<byte>, f: seq<Instr>, s: Saved) {
    if s.kind == GreedyQuantState then
      Decode(code, s.pc - 1).Some? && Decode(code, s.pc - 1).value.SimpleGreedyQuant?
      && DeepAs(f, s.pc + 16 + Decode(code, s.pc - 1).value.next, s.stack)
    else DeepAs(f, s.pc, s.stack)
  }

  ghost predicate AllSavedDeep(code: seq<byte>, f: seq<Instr>, saved: seq<Saved>) {
    forall i :: 0 <= i < |saved| ==> SavedDeep(code, f, saved[i])
  }

  ghost predicate Deep(code: seq<byte>, f: seq<Instr>, s: Conf) {
    match s
    case Run(pc, _, _, stack, saved) => DeepAs(f, pc, stack) && AllSavedDeep(code, f, saved)
    case Fail(saved) => AllSavedDeep(code, f, saved)
    case Succeed(_, saved) => AllSavedDeep(code, f, saved)
    case _ => true
  }

  /** At an address inside the front part stands one of its instructions. */
  lemma {:induction false} InstrAt(f: seq<Instr>, o: int) returns (a: seq<Instr>, i: Instr, b: seq<Instr>)
    requires DepthAt(f, o).Some? && o < Len(f)
    ensures f == a + [i] + b && o == Len(a) && DepthAt(f, o) == Some(Depth(a))
    decreases f
  {
    if o == 0 {
      a, i, b := [], f[0], f[1..];
    } else {
      var a', i', b' := InstrAt(f[1..], o - Size(f[0]));
      a, i, b := [f[0]] + a', i', b';
      assert a[1..] == a';
    }
  }

  lemma PlacedAt(code: seq<byte>, pc: int, a: seq<Instr>, i: Instr, b: seq<Instr>)
    requires Placed(code, pc, a + [i] + b)
    ensures Decode(code, pc + Len(a)) == Some(i)
  {
    hide Placed, Decode, Len;
    assert a + [i] + b == a + ([i] + b);
    PlacedConcat(code, pc, a, [i] + b);
    PlacedHead(code, pc + Len(a), i, b);
  }

  /** Falling through, and jumping, keep the depth right. */
  lemma NextDeep(f: seq<Instr>, a: seq<Instr>, i: Instr, b: seq<Instr>)
    requires Balanced(f) && f == a + [i] + b
    ensures DepthAt(f, Len(a) + Size(i)) == Some(Depth(a) + Delta(i))
    ensures HasTarget(i) ==> DepthAt(f, Len(a) + Size(i) + TargetOff(i)) == Some(Depth(a) + Delta(i))
    ensures Needs(i) <= Depth(a)
  {
    UseBalanced(f, a, i, b);
    hide Balanced, DepthAt, Depth, Len;
    SimpleSingle(i);
    DepthOne(i);
    DepthConcat(a, [i]);
    LenConcat(a, [i]);
    DepthAtJoin(a + [i], b);
  }

  lemma SavedMore(code: seq<byte>, f: seq<Instr>, saved: seq<Saved>, s: Saved)
    requires AllSavedDeep(code, f, saved) && SavedDeep(code, f, s)
    ensures AllSavedDeep(code, f, saved + [s])
  {
    hide SavedDeep;
  }

  lemma SavedLess(code: seq<byte>, f: seq<Instr>, saved: seq<Saved>)
    requires AllSavedDeep(code, f, saved) && saved != []
    ensures AllSavedDeep(code, f, saved[..|saved| - 1]) && SavedDeep(code, f, saved[|saved| - 1])
  {
    hide SavedDeep;
  }

  lemma StepRunDeep(code: seq<byte>, c: Ctx, f: seq<Instr>, r: Conf)
    requires r.Run? && Balanced(f) && Placed(code, HEADER_LEN, f + [Match]) && Deep(code, f, r)
    ensures Deep(code, f, StepRun(code, c, r))
  {
    hide Decode, Placed, Balanced, DepthAt, StepRun, AllSavedDeep, Len;
    var o := r.pc - HEADER_LEN;
    DepthAtRange(f, o);
    PlacedConcat(code, HEADER_LEN, f, [Match]);
    if o == Len(f) {
      assert [Match] == [Match] + [];
      PlacedHead(code, r.pc, Match, []);
      AtEnd(code, c, r);
    } else {
      var a, i, b := InstrAt(f, o);
      PlacedAt(code, HEADER_LEN, a, i, b);
      NextDeep(f, a, i, b);
      StepInstrDeep(code, c, f, r, i);
    }
  }

  lemma SimpleOpPlain(c: Ctx, i: Instr, pos: nat)
    requires pos <= |c.units| && !SimpleOp(c, i, pos).Other?
    ensures Delta(i) == 0
  {
  }

  lemma AtEnd(code: seq<byte>, c: Ctx, r: Conf)
    requires r.Run? && Decode(code, r.pc) == Some(Match)
    ensures StepRun(code, c, r) == Stuck || StepRun(code, c, r) == Succeed(r.caps, r.saved)
  {
    hide Decode;
  }

  lemma StepInstrDeep(code: seq<byte>, c: Ctx, f: seq<Instr>, r: Conf, i: Instr)
    requires r.Run? && Deep(code, f, r) && Decode(code, r.pc) == Some(i)
    requires DepthAt(f, r.pc - HEADER_LEN + Size(i)) == Some(|r.stack| + Delta(i))
    requires HasTarget(i) ==> DepthAt(f, r.pc - HEADER_LEN + Size(i) + TargetOff(i)) == Some(|r.stack| + Delta(i))
    requires Needs(i) <= |r.stack|
    ensures Deep(code, f, StepRun(code, c, r))
  {
    hide Decode, DepthAt, SimpleOp, Iterate, AllSavedDeep, BackRefForward, BackRefBackward, SetCap, ResetCaps, GetPrevChar,
         StepOther;
    var next := r.(pc := r.pc + Size(i));
    if r.pos <= |c.units| {
      if SimpleOp(c, i, r.pos).Other? {
        StepOtherDeep(code, c, f, r, i, next);
      } else {
        SimpleOpPlain(c, i, r.pos);
      }
    }
  }

  lemma StepOtherDeep(code: seq<byte>, c: Ctx, f: seq<Instr>, r: Conf, i: Instr, next: Conf)
    requires r.Run? && Deep(code, f, r) && Decode(code, r.pc) == Some(i) && next == r.(pc := r.pc + Size(i))
    requires DepthAt(f, r.pc - HEADER_LEN + Size(i)) == Some(|r.stack| + Delta(i)) && r.pos <= |c.units|
    requires HasTarget(i) ==> DepthAt(f, r.pc - HEADER_LEN + Size(i) + TargetOff(i)) == Some(|r.stack| + Delta(i))
    requires Needs(i) <= |r.stack|
    ensures Deep(code, f, StepOther(code, c, i, r, next))
  {
    hide Decode, DepthAt, Iterate, AllSavedDeep, BackRefForward, BackRefBackward, SetCap, ResetCaps, GetPrevChar, Decrement;
    match i {
      case SplitGotoFirst(off) =>
        SavedMore(code, f, r.saved, Saved(SplitState, next.pc, r.pos, r.caps, r.stack, 0));
      case SplitNextFirst(off) =>
        SavedMore(code, f, r.saved, Saved(SplitState, next.pc + off, r.pos, r.caps, r.stack, 0));
      case Lookahead(off) =>
        SavedMore(code, f, r.saved, Saved(LookaheadState, next.pc + off, r.pos, r.caps, r.stack, 0));
      case NegativeLookahead(off) =>
        SavedMore(code, f, r.saved, Saved(NegativeLookaheadState, next.pc + off, r.pos, r.caps, r.stack, 0));
      case SimpleGreedyQuant(off, min, max, count) =>
        var it := Iterate(code, c, next.pc, r.pos, 0, max);
        if it.End? && it.count > min {
          SavedMore(code, f, r.saved, Saved(GreedyQuantState, next.pc - 16, it.pos, r.caps, r.stack, it.count - min));
        }
      case _ =>
    }
  }

  lemma StepDeep(code: seq<byte>, c: Ctx, f: seq<Instr>, s: Conf)
    requires Balanced(f) && Placed(code, HEADER_LEN, f + [Match]) && Deep(code, f, s)
    ensures Deep(code, f, Step(code, c, s))
  {
    match s {
      case Run(_, _, _, _, _) =>
        hide StepRun, Balanced, Placed, Deep;
        StepRunDeep(code, c, f, s);
      case Fail(saved) =>
        hide Balanced, Placed, Decode, DepthAt, AllSavedDeep, Back;
        if saved != [] {
          SavedLess(code, f, saved);
          FailDeep(code, c, f, saved);
        }
      case Succeed(_, saved) =>
        hide Balanced, Placed, Decode, DepthAt, AllSavedDeep;
        if saved != [] { SavedLess(code, f, saved); }
      case _ =>
    }
  }

  lemma FailDeep(code: seq<byte>, c: Ctx, f: seq<Instr>, saved: seq<Saved>)
    requires saved != [] && AllSavedDeep(code, f, saved[..|saved| - 1]) && SavedDeep(code, f, saved[|saved| - 1])
    ensures Deep(code, f, StepFail(code, c, saved))
  {
    hide Decode, DepthAt, AllSavedDeep, Back;
    var s, rest := saved[|saved| - 1], saved[..|saved| - 1];
    if s.kind == GreedyQuantState && s.pos <= |c.units| && s.count > 0 {
      var p := Back(c, s.pos, Decode(code, s.pc - 1).value.count);
      if p >= 0 {
        SavedMore(code, f, rest, s.(pos := p, count := s.count - 1));
      }
    }
  }

  lemma {:induction false} StepsDeep(code: seq<byte>, c: Ctx, f: seq<Instr>, s: Conf, steps: nat)
    requires Balanced(f) && Placed(code, HEADER_LEN, f + [Match]) && Deep(code, f, s)
    ensures Deep(code, f, Steps(code, c, s, steps))
    decreases steps
  {
    hide Balanced, Placed, Deep, Step;
    if steps > 0 {
      StepDeep(code, c, f, s);
      StepsDeep(code, c, f, Step(code, c, s), steps - 1);
    }
  }

  lemma {:induction false} DepthAtMost(f: seq<Instr>, o: int, d: int)
    requires DepthAt(f, o).Some?
    ensures d + DepthAt(f, o).value <= MaxDepth(f, d)
    decreases f
  {
    if o != 0 { DepthAtMost(f[1..], o - Size(f[0]), d + Delta(f[0])); }
  }

  lemma {:induction false} MaxDepthPrefix(f: seq<Instr>, g: seq<Instr>, d: int)
    ensures MaxDepth(f, d) <= MaxDepth(f + g, d)
  {
    if f != [] {
      assert (f + g)[1..] == f[1..] + g;
      MaxDepthPrefix(f[1..], g, d + Delta(f[0]));
    } else {
      assert f + g == g;
    }
  }

  /** In every state a run reaches, the stack has exactly the depth the scan assigns to the address, and neither it nor
      any saved copy is deeper than the size the compiler computed. */
  lemma StackBounded(code: seq<byte>, c: Ctx, n: Node, sticky: bool, p: nat, steps: nat)
    requires Compiled(code, n, sticky)
    ensures Deep(code, Front(n, sticky), Steps(code, c, Start(n, p), steps))
    ensures var s := Steps(code, c, Start(n, p), steps);
            s.Run? ==>
              && |s.stack| <= MaxDepth(Program(n, sticky), 0)
              && forall i :: 0 <= i < |s.saved| ==> |s.saved[i].stack| <= MaxDepth(Program(n, sticky), 0)
  {
    hide Balanced, Placed, BytesAt, Bytes, Step, Asm, Prefix, ValidNode, AllValid, Decode, MaxDepth, Unset;
    var f, s := Front(n, sticky), Steps(code, c, Start(n, p), steps);
    FrontBalanced(n, sticky);
    BytesPlaced(code, HEADER_LEN, Program(n, sticky));
    StepsDeep(code, c, f, Start(n, p), steps);
    if s.Run? {
      DepthAtMost(f, s.pc - HEADER_LEN, 0);
      MaxDepthPrefix(f, [Match], 0);
      forall i | 0 <= i < |s.saved| ensures |s.saved[i].stack| <= MaxDepth(Program(n, sticky), 0) {
        assert SavedDeep(code, f, s.saved[i]);
        var pc := if s.saved[i].kind == GreedyQuantState then s.saved[i].pc + 16 + Decode(code, s.saved[i].pc - 1).value.next
                  else s.saved[i].pc;
        DepthAtMost(f, pc - HEADER_LEN, 0);
      }
    }
  }
}
