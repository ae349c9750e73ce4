/** The backtracking virtual machine as a step function over its whole state. */
module ReVM {
  import opened Optional
  import opened ReCode
  import opened ReInput
  import ReMatch

  datatype Kind = SplitState | LookaheadState | NegativeLookaheadState | GreedyQuantState

  /** A saved state (REExecState). For GreedyQuantState `pc` is the operand field of the quantifier. */
  datatype Saved = Saved(kind: Kind, pc: int, pos: nat, caps: seq<int>, stack: seq<int>, count: nat)

  /** `Fail` and `Succeed` are the two ways into the unwinding loop; `Stuck` is a state the code aborts in. */
  datatype Conf =
    | Run(pc: int, pos: nat, caps: seq<int>, stack: seq<int>, saved: seq<Saved>)
    | Fail(pending: seq<Saved>)
    | Succeed(matched: seq<int>, pending: seq<Saved>)
    | Done(found: bool, result: seq<int>)
    | Stuck

  /** The loop of the range opcodes. The index types show that `idx - 1` never wraps. */
  predicate BinarySearch(bs: seq<int>, c: int, lo: nat, hi: nat)
    requires 2 * hi + 1 < |bs| && bs[0] <= c
    decreases hi + 1 - lo
  {
    if lo > hi then false
    else
      var idx: nat := (lo + hi) / 2;
      if c < bs[2 * idx] then BinarySearch(bs, c, lo, idx - 1)
      else if c > bs[2 * idx + 1] then BinarySearch(bs, c, idx + 1, hi)
      else true
  }

  predicate Range16Test(bs: seq<int>, c: int)
    requires |bs| >= 2 && |bs| % 2 == 0
  {
    var high := bs[|bs| - 1];
    if c < bs[0] then false
    else if c >= 0xffff && high == 0xffff then true
    else if c > high then false
    else BinarySearch(bs, c, 0, |bs| / 2 - 1)
  }

  predicate Range32Test(bs: seq<int>, c: int)
    requires |bs| >= 2 && |bs| % 2 == 0
  {
    if c < bs[0] then false
    else if c > bs[|bs| - 1] then false
    else BinarySearch(bs, c, 0, |bs| / 2 - 1)
  }

  /** Effect of the opcodes that only look at the subject or move over it. */
  datatype OpRes = Other | NoMatch | Go(pos: nat)

  predicate IsCharOp(i: Instr) {
    i.Char8? || i.Char16? || i.Char32? || i.Dot? || i.Any?
    || ((i.Range? || i.Range32?) && |i.bounds| >= 2 && |i.bounds| % 2 == 0)
  }

  predicate CharTest(c: Ctx, i: Instr, ch: int)
    requires IsCharOp(i)
  {
    match i
    case Dot => !IsLineTerminator(ch)
    case Any => true
    case Range(bs) => Range16Test(bs, Canon(c, ch))
    case Range32(bs) => Range32Test(bs, Canon(c, ch))
    case _ => Canon(c, ch) == i.c
  }

  function SimpleOp(c: Ctx, i: Instr, pos: nat): (r: OpRes)
    requires pos <= |c.units|
    ensures r.Go? ==> pos <= r.pos <= |c.units|
  {
    if IsCharOp(i) then
      if pos >= |c.units| then NoMatch
      else
        var (ch, p) := GetChar(c, pos, |c.units|);
        if CharTest(c, i, ch) then Go(p) else NoMatch
    else match i
      case LineStart => if AtLineStart(c, pos) then Go(pos) else NoMatch
      case LineEnd => if AtLineEnd(c, pos) then Go(pos) else NoMatch
      case WordBoundary => if AtWordBoundary(c, pos) then Go(pos) else NoMatch
      case NotWordBoundary => if AtWordBoundary(c, pos) then NoMatch else Go(pos)
      case _ => Other
  }

  /** The nested run of a simple quantifier's body, up to its `match` (no_recurse). */
  function InnerRun(code: seq<byte>, c: Ctx, pc: int, pos: nat): (r: OpRes)
    requires pos <= |c.units|
    ensures r.Go? ==> pos <= r.pos <= |c.units|
    decreases |code| - pc
  {
    var f := Decode(code, pc);
    if f.None? then Other
    else if f.value.Match? then Go(pos)
    else
      var r := SimpleOp(c, f.value, pos);
      if r.Go? then InnerRun(code, c, pc + Size(f.value), r.pos) else r
  }

  datatype Iterated = Bad | End(pos: nat, count: nat)

  /** The body is run as often as it matches, at most `max` times. */
  function Iterate(code: seq<byte>, c: Ctx, pc: int, pos: nat, q: nat, max: int): (r: Iterated)
    requires pos <= |c.units|
    ensures r.End? ==> pos <= r.pos <= |c.units| && q <= r.count
    decreases |c.units| - pos
  {
    match InnerRun(code, c, pc, pos)
    case Other => Bad
    case NoMatch => End(pos, q)
    case Go(p) =>
      if p <= pos then Bad
      else if q + 1 >= max && max != INT32_MAX then End(p, q + 1)
      else Iterate(code, c, pc, p, q + 1, max)
  }

  /** `n` characters back; -1 when the start is in the way. */
  function Back(c: Ctx, p: nat, n: nat): (r: int)
    requires p <= |c.units|
    ensures -1 <= r <= p
    decreases n
  {
    if n == 0 then p
    else if p == 0 then -1
    else Back(c, GetPrevChar(c, p, 0).1, n - 1)
  }

  function Resume(s: Saved, saved: seq<Saved>): Conf {
    Run(s.pc, s.pos, s.caps, s.stack, saved)
  }

  /** Unwinding after a failure. */
  function StepFail(code: seq<byte>, c: Ctx, saved: seq<Saved>): Conf {
    if saved == [] then Done(false, [])
    else
      var s, rest := saved[|saved| - 1], saved[..|saved| - 1];
      match s.kind
      case SplitState => Resume(s, rest)
      case NegativeLookaheadState => Resume(s, rest)
      case LookaheadState => Fail(rest)
      case GreedyQuantState =>
        var f := Decode(code, s.pc - 1);
        if f.None? || !f.value.SimpleGreedyQuant? || s.pos > |c.units| || s.count == 0 then Stuck
        else
          var p := Back(c, s.pos, f.value.count);
          if p < 0 then Stuck
          else
            var s' := s.(pos := p, count := s.count - 1);
            Run(s.pc + 16 + f.value.next, p, s.caps, s.stack, if s'.count == 0 then rest else rest + [s'])
  }

  /** Unwinding after a match: only a look-around stops it. */
  function StepSucceed(caps: seq<int>, saved: seq<Saved>): Conf {
    if saved == [] then Done(true, caps)
    else
      var s, rest := saved[|saved| - 1], saved[..|saved| - 1];
      match s.kind
      case LookaheadState => Run(s.pc, s.pos, caps, s.stack, rest)
      case NegativeLookaheadState => Fail(rest)
      case _ => Succeed(caps, rest)
  }

  const WORD := 0x1_0000_0000_0000_0000

  function Decrement(v: int): int {
    if v == 0 then WORD - 1 else v - 1
  }

  function StepRun(code: seq<byte>, c: Ctx, r: Conf): Conf
    requires r.Run?
  {
    var f := Decode(code, r.pc);
    if f.None? || r.pos > |c.units| then Stuck
    else
      var i := f.value;
      var next := r.(pc := r.pc + Size(i));
      match SimpleOp(c, i, r.pos)
      case NoMatch => Fail(r.saved)
      case Go(p) => next.(pos := p)
      case Other => StepOther(code, c, i, r, next)
  }

  function StepOther(code: seq<byte>, c: Ctx, i: Instr, r: Conf, next: Conf): Conf
    requires r.Run? && next.Run? && r.pos <= |c.units|
  {
    var top := |r.stack| - 1;
    match i
    case Match => Succeed(r.caps, r.saved)
    case Goto(off) => next.(pc := next.pc + off)
    case SplitGotoFirst(off) =>
      Run(next.pc + off, r.pos, r.caps, r.stack,
          r.saved + [Saved(SplitState, next.pc, r.pos, r.caps, r.stack, 0)])
    case SplitNextFirst(off) =>
      next.(saved := r.saved + [Saved(SplitState, next.pc + off, r.pos, r.caps, r.stack, 0)])
    case Lookahead(off) =>
      next.(saved := r.saved + [Saved(LookaheadState, next.pc + off, r.pos, r.caps, r.stack, 0)])
    case NegativeLookahead(off) =>
      next.(saved := r.saved + [Saved(NegativeLookaheadState, next.pc + off, r.pos, r.caps, r.stack, 0)])
    case SaveStart(n) =>
      if 0 <= n && 2 * n + 1 < |r.caps| then next.(caps := ReMatch.SetCap(r.caps, 2 * n, r.pos)) else Stuck
    case SaveEnd(n) =>
      if 0 <= n && 2 * n + 1 < |r.caps| then next.(caps := ReMatch.SetCap(r.caps, 2 * n + 1, r.pos)) else Stuck
    case SaveReset(a, b) =>
      if 2 * b + 1 < |r.caps| && a >= 0 then next.(caps := ReMatch.ResetCaps(r.caps, a, b)) else Stuck
    case PushI32(v) => next.(stack := r.stack + [v])
    case PushCharPos => next.(stack := r.stack + [r.pos])
    case Drop => if top < 0 then Stuck else next.(stack := r.stack[..top])
    case Loop(off) =>
      if top < 0 then Stuck
      else
        var v := Decrement(r.stack[top]);
        next.(stack := r.stack[top := v], pc := if v != 0 then next.pc + off else next.pc)
    case CheckAdvance =>
      if top < 0 then Stuck
      else if r.stack[top] == r.pos then Fail(r.saved)
      else next.(stack := r.stack[..top])
    case BackReference(n) =>
      if n < 0 || 2 * n + 1 >= |r.caps| then Fail(r.saved)
      else if r.caps[2 * n] == -1 || r.caps[2 * n + 1] == -1 then next
      else
        var p := BackRefForward(c, r.caps[2 * n], r.caps[2 * n + 1], r.pos);
        if p == -1 then Fail(r.saved) else next.(pos := p)
    case BackwardBackReference(n) =>
      if n < 0 || 2 * n + 1 >= |r.caps| then Fail(r.saved)
      else if r.caps[2 * n] == -1 || r.caps[2 * n + 1] == -1 then next
      else
        var p := BackRefBackward(c, r.caps[2 * n], r.caps[2 * n + 1], r.pos);
        if p == -1 then Fail(r.saved) else next.(pos := p)
    case Prev =>
      if r.pos == 0 then Fail(r.saved) else next.(pos := GetPrevChar(c, r.pos, 0).1)
    case SimpleGreedyQuant(off, min, max, count) =>
      (match Iterate(code, c, next.pc, r.pos, 0, max)
       case Bad => Stuck
       case End(p, q) =>
         if q < min then Fail(r.saved)
         else
           var exit := next.(pc := next.pc + off, pos := p);
           if q > min then
             exit.(saved := r.saved + [Saved(GreedyQuantState, next.pc - 16, p, r.caps, r.stack, q - min)])
           else exit)
    case _ => Stuck
  }

  function Step(code: seq<byte>, c: Ctx, s: Conf): Conf {
    match s
    case Run(_, _, _, _, _) => StepRun(code, c, s)
    case Fail(saved) => StepFail(code, c, saved)
    case Succeed(caps, saved) => StepSucceed(caps, saved)
    case _ => s
  }

  function Steps(code: seq<byte>, c: Ctx, s: Conf, n: nat): Conf
    decreases n
  {
    if n == 0 then s else Steps(code, c, Step(code, c, s), n - 1)
  }

  ghost predicate Reach(code: seq<byte>, c: Ctx, s: Conf, t: Conf) {
    exists n: nat :: Steps(code, c, s, n) == t
  }

  lemma {:induction false} StepsAdd(code: seq<byte>, c: Ctx, s: Conf, m: nat, n: nat)
    ensures Steps(code, c, s, m + n) == Steps(code, c, Steps(code, c, s, m), n)
    decreases m
  {
    if m > 0 {
      StepsAdd(code, c, Step(code, c, s), m - 1, n);
    }
  }

  lemma ReachTrans(code: seq<byte>, c: Ctx, s: Conf, t: Conf, u: Conf)
    requires Reach(code, c, s, t) && Reach(code, c, t, u)
    ensures Reach(code, c, s, u)
  {
    var m: nat :| Steps(code, c, s, m) == t;
    var n: nat :| Steps(code, c, t, n) == u;
    StepsAdd(code, c, s, m, n);
  }

  lemma ReachRefl(code: seq<byte>, c: Ctx, s: Conf)
    ensures Reach(code, c, s, s)
  {
    assert Steps(code, c, s, 0) == s;
  }

  lemma ReachStep(code: seq<byte>, c: Ctx, s: Conf)
    ensures Reach(code, c, s, Step(code, c, s))
  {
    assert Steps(code, c, Step(code, c, s), 0) == Step(code, c, s);
    assert Steps(code, c, s, 1) == Step(code, c, s);
  }
}
