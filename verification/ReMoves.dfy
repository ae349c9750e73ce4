/** What the two scans of emitted code prove about the pattern it came from. */
module ReMoves {
  import opened ReCode
  import opened ReInput
  import opened ReMatch
  import opened ReVM
  import opened ReCompile
  import opened ReRange

  lemma {:induction false} PredictableConcat(f: seq<Instr>, g: seq<Instr>)
    ensures AllPredictable(f + g) <==> AllPredictable(f) && AllPredictable(g)
    ensures SomeMoves(f + g) <==> SomeMoves(f) || SomeMoves(g)
  {
    if f == [] {
      assert f + g == g;
    } else {
      assert (f + g)[1..] == f[1..] + g;
      PredictableConcat(f[1..], g);
    }
  }

  lemma SingleMoves(i: Instr)
    ensures SomeMoves([i]) <==> Moves(i)
    ensures AllPredictable([i]) <==> Predictable(i)
  {
    assert [i][1..] == [];
  }

  lemma {:induction false} SimpleConcat(f: seq<Instr>, g: seq<Instr>)
    ensures SimpleCount(f + g)
         == if SimpleCount(f) >= 0 && SimpleCount(g) >= 0 then SimpleCount(f) + SimpleCount(g) else -1
  {
    if f == [] {
      assert f + g == g;
    } else {
      assert (f + g)[1..] == f[1..] + g;
      SimpleConcat(f[1..], g);
    }
  }

  // ---- results of sequences ----

  lemma {:induction false} RepSeqZero(c: Ctx, b: Node, k: nat, back: bool, greedy: bool, d: nat, o: X, xs: seq<X>)
    requires forall x :: x in xs ==> After(c, back, o, x) && Dist(c, back, x.pos) < d
    ensures RepSeq(c, b, k, back, greedy, 0, 0, d, o, xs) == xs
  {
    if xs != [] {
      assert xs[0] in xs;
      RepSeqZero(c, b, k, back, greedy, d, o, xs[1..]);
    }
  }

  /** A result of a sequence comes after one of the positions the sequence started from. */
  lemma {:induction false} ResultsSeqOrigin(c: Ctx, n: Node, k: nat, back: bool, o: X, xs: seq<X>, r: X) returns (x: X)
    requires forall x :: x in xs ==> After(c, back, o, x)
    requires r in ResultsSeq(c, n, k, back, o, xs)
    ensures x in xs && r in Results(c, n, k, back, x)
  {
    assert xs[0] in xs && After(c, back, o, xs[0]);
    if r in Results(c, n, k, back, xs[0]) {
      x := xs[0];
    } else {
      x := ResultsSeqOrigin(c, n, k, back, o, xs[1..], r);
    }
  }

  lemma {:induction false} SetAllPositions(c: Ctx, back: bool, i: nat, o: X, rs: seq<X>, m: X) returns (r: X)
    requires forall r :: r in rs ==> After(c, back, o, r)
    requires m in SetAll(c, back, i, o, rs)
    ensures r in rs && r.pos == m.pos
  {
    if m == SetAll(c, back, i, o, rs)[0] {
      r := rs[0];
    } else {
      r := SetAllPositions(c, back, i, o, rs[1..], m);
    }
  }

  /** A quantifier leaves no trace in scanned code exactly when it is trivial. */
  lemma QuantTransparent(f: seq<Instr>, min: nat, max: nat, greedy: bool, reset: seq<Instr>)
    requires min <= max
    requires Scannable(QuantCode(f, min, max, greedy, reset))
    ensures !UseSimple(f, max, greedy)
    ensures (min == 0 && max == 0 && QuantCode(f, min, max, greedy, reset) == reset)
         || (min == 1 && max == 1 && QuantCode(f, min, max, greedy, reset) == f)
  {
    hide NeedCheckAdvance, Tail, Checked, Times, Len, Scannable, Size, Split;
    var g := Checked(f, NeedCheckAdvance(f));
    if UseSimple(f, max, greedy) {
      Unscannable([SimpleGreedyQuant(Len(f) + 1, min, max, SimpleCount(f))] + f + [Match], 0);
    } else if min == 0 {
      if max == 1 {
        ScannableParts(reset, [Split(greedy, Len(g))] + g);
        SplitUnscannable(greedy, Len(g), g);
      } else {
        ScannableParts(reset, Tail(g, greedy, max));
        TailUnscannable(g, greedy, max);
        assert Tail(g, greedy, max) == [];
        assert reset + [] == reset;
      }
    } else if min == 1 && max == INFINITE && !NeedCheckAdvance(f) {
      var jump := if greedy then SplitGotoFirst(-(Len(f) + 5)) else SplitNextFirst(-(Len(f) + 5));
      ScannableParts(f, [jump]);
      Unscannable([jump], 0);
    } else {
      ScannableParts(if min == 1 then f else Times(f, min), Tail(g, greedy, Minus(max, min)));
      TailUnscannable(g, greedy, Minus(max, min));
      assert Tail(g, greedy, Minus(max, min)) == [];
      if min > 1 { TimesUnscannable(f, min); }
      assert f + [] == f;
    }
  }

  ghost predicate Scannable(f: seq<Instr>) {
    AllPredictable(f) || SimpleCount(f) >= 0
  }

  lemma {:induction false} Unscannable(f: seq<Instr>, i: nat)
    requires i < |f| && !Predictable(f[i])
    ensures !Scannable(f)
    decreases i
  {
    if i > 0 { Unscannable(f[1..], i - 1); }
  }

  lemma ScannableParts(f: seq<Instr>, g: seq<Instr>)
    requires Scannable(f + g)
    ensures Scannable(f) && Scannable(g)
  {
    PredictableConcat(f, g);
    SimpleConcat(f, g);
  }

  lemma SplitUnscannable(greedy: bool, off: int, g: seq<Instr>)
    ensures !Scannable([Split(greedy, off)] + g)
  {
    Unscannable([Split(greedy, off)] + g, 0);
  }

  lemma TimesUnscannable(f: seq<Instr>, min: nat)
    ensures !Scannable(Times(f, min))
  {
    assert Times(f, min)[|f| + 1].Loop?;
    Unscannable(Times(f, min), |f| + 1);
  }

  lemma TailUnscannable(g: seq<Instr>, greedy: bool, max: nat)
    ensures Scannable(Tail(g, greedy, max)) ==> max == 0 && Tail(g, greedy, max) == []
  {
    if max == INFINITE {
      Unscannable(Star(g, greedy), 0);
    } else if max > 0 {
      Unscannable(UpTo(g, greedy, max), 1);
    }
  }

  /** re_need_check_advance is right: code it clears never matches without moving. */
  lemma {:induction false} AlwaysMoves(c: Ctx, n: Node, k: nat, back: bool, x: X, r: X)
    requires x.pos <= |c.units| && ValidNode(n)
    requires !NeedCheckAdvance(Asm(n, k, back))
    requires r in Results(c, n, k, back, x)
    ensures r.pos != x.pos
    decreases n, 1
  {
    var f := Asm(n, k, back);
    match n {
      case Empty =>
      case Char(_) =>
      case Class(_) =>
      case Dot =>
      case Any =>
      case LineStart => SingleMoves(f[0]);
      case LineEnd => SingleMoves(f[0]);
      case WordBoundary(_) => SingleMoves(f[0]);
      case BackRef(_) => SingleMoves(f[0]);
      case Look(negated, behind, b) =>
      case Alt(a, b) =>
      case Group(b) => GroupMoves(c, b, k, back, x, r);
      case Cat(a, b) => CatMoves(c, a, b, k, back, x, r);
      case Quant(b, min, max, greedy) =>
        QuantMoves(c, b, min, max, greedy, k, back, x, r);
    }
  }

  lemma {:induction false} QuantMoves(c: Ctx, b: Node, min: nat, max: nat, greedy: bool, k: nat, back: bool, x: X, r: X)
    requires x.pos <= |c.units| && ValidNode(Quant(b, min, max, greedy))
    requires !NeedCheckAdvance(Asm(Quant(b, min, max, greedy), k, back))
    requires r in Results(c, Quant(b, min, max, greedy), k, back, x)
    ensures r.pos != x.pos
    decreases Quant(b, min, max, greedy), 0
  {
    var f, reset := Asm(b, k, back), Reset(k, Caps(b));
    QuantTransparent(f, min, max, greedy, reset);
    if min == 0 {
      if reset != [] { SingleMoves(reset[0]); }
    } else {
      RepSeqZero(c, b, k, back, greedy, |c.units| + 1, x, Results(c, b, k, back, x));
      AlwaysMoves(c, b, k, back, x, r);
    }
  }

  lemma {:induction false} GroupMoves(c: Ctx, b: Node, k: nat, back: bool, x: X, r: X)
    requires x.pos <= |c.units| && ValidNode(b)
    requires !NeedCheckAdvance(Asm(Group(b), k, back))
    requires r in Results(c, Group(b), k, back, x)
    ensures r.pos != x.pos
    decreases Group(b), 0
  {
    var g := Asm(b, k + 1, back);
    var first := if back then SaveEnd(k) else SaveStart(k);
    var last := if back then SaveStart(k) else SaveEnd(k);
    PredictableConcat([first], g);
    PredictableConcat([first] + g, [last]);
    SingleMoves(first);
    SingleMoves(last);
    var enter := X(x.pos, SetCap(x.caps, if back then 2 * k + 1 else 2 * k, x.pos));
    var q := SetAllPositions(c, back, if back then 2 * k else 2 * k + 1, enter, Results(c, b, k + 1, back, enter), r);
    AlwaysMoves(c, b, k + 1, back, enter, q);
  }

  lemma {:induction false} CatMoves(c: Ctx, a: Node, b: Node, k: nat, back: bool, x: X, r: X)
    requires x.pos <= |c.units| && ValidNode(a) && ValidNode(b)
    requires !NeedCheckAdvance(Asm(Cat(a, b), k, back))
    requires r in Results(c, Cat(a, b), k, back, x)
    ensures r.pos != x.pos
    decreases Cat(a, b), 0
  {
    var n1, k1, n2, k2 := First(a, b, back), FirstCap(a, k, back), Second(a, b, back), SecondCap(a, k, back);
    var f, g := Asm(n1, k1, back), Asm(n2, k2, back);
    hide Asm, Results, ResultsSeq, AllPredictable, SomeMoves;
    CatAsm(a, b, k, back);
    CatResults(c, a, b, k, back, x);
    PredictableConcat(f, g);
    var y := ResultsSeqOrigin(c, n2, k2, back, x, Results(c, n1, k1, back, x), r);
    assert After(c, back, x, y) && After(c, back, y, r);
    if SomeMoves(f) {
      AlwaysMoves(c, n1, k1, back, x, y);
    } else {
      AlwaysMoves(c, n2, k2, back, y, r);
    }
  }
}
