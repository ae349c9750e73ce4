/** The virtual machine as the loop it is: registers, captures, stack and saved states change in place. Every round of
    the loop is one step of the step function, so a run computes what the step function says. */
module ReExec {
  import opened Optional
  import opened ReCode
  import opened ReInput
  import opened ReMatch
  import opened ReVM
  import opened ReCompile
  import opened ReProgram
  import opened ReStack
  import ReHalt

  /** How an opcode leaves the loop body. */
  datatype Flow = Continue(pc: int, cptr: nat) | Failed | Matched

  lemma {:induction false} List16At(code: seq<byte>, p: nat, n: nat, k: nat)
    requires p + 2 * n <= |code| && k < n
    ensures GetList16(code, p, n)[k] == GetU16(code, p + 2 * k)
    decreases n
  {
    if k > 0 {
      List16At(code, p + 2, n - 1, k - 1);
    }
  }

  lemma {:induction false} List32At(code: seq<byte>, p: nat, n: nat, k: nat)
    requires p + 4 * n <= |code| && k < n
    ensures GetList32(code, p, n)[k] == GetU32(code, p + 4 * k)
    decreases n
  {
    if k > 0 {
      List32At(code, p + 4, n - 1, k - 1);
    }
  }

  lemma SearchStep(bs: seq<int>, ch: int, lo: nat, hi: nat)
    requires 2 * hi + 1 < |bs| && bs[0] <= ch
    ensures lo > hi ==> !BinarySearch(bs, ch, lo, hi)
    ensures lo <= hi ==>
      var idx := (lo + hi) / 2;
      && lo <= idx <= hi
      && (ch < bs[2 * idx] ==> idx > 0 && BinarySearch(bs, ch, lo, hi) == BinarySearch(bs, ch, lo, idx - 1))
      && (ch >= bs[2 * idx] && ch > bs[2 * idx + 1] ==>
            BinarySearch(bs, ch, lo, hi) == BinarySearch(bs, ch, idx + 1, hi))
      && (bs[2 * idx] <= ch <= bs[2 * idx + 1] ==> BinarySearch(bs, ch, lo, hi))
  {
  }

  /** What fetching reads, opcode by opcode. */
  lemma FetchPlain(code: seq<byte>, pc: nat)
    requires Decode(code, pc).Some?
    ensures pc < |code| && Opcode(Decode(code, pc).value) == code[pc]
  {
    hide GetU16, GetU32, GetList16, GetList32;
  }

  lemma FetchByte(code: seq<byte>, pc: nat)
    requires Decode(code, pc).Some? && code[pc] in {1, 12, 13, 14, 20, 21}
    ensures pc + 2 <= |code| && (code[pc] == 14 ==> pc + 3 <= |code|)
    ensures Decode(code, pc).value
         == if code[pc] == 1 then Char8(code[pc + 1]) else if code[pc] == 12 then SaveStart(code[pc + 1])
            else if code[pc] == 13 then SaveEnd(code[pc + 1]) else if code[pc] == 20 then BackReference(code[pc + 1])
            else if code[pc] == 21 then BackwardBackReference(code[pc + 1]) else SaveReset(code[pc + 1], code[pc + 2])
  {
    hide GetU16, GetU32, GetList16, GetList32;
  }

  function LongInstr(op: byte, v: int): Instr {
    if op == 3 then Char32(v) else if op == 8 then Goto(ToSigned(v)) else if op == 9 then SplitGotoFirst(ToSigned(v))
    else if op == 10 then SplitNextFirst(ToSigned(v)) else if op == 15 then Loop(ToSigned(v))
    else if op == 16 then PushI32(v) else if op == 24 then Lookahead(ToSigned(v)) else NegativeLookahead(ToSigned(v))
  }

  lemma FetchLong(code: seq<byte>, pc: nat)
    requires Decode(code, pc).Some? && code[pc] in {3, 8, 9, 10, 15, 16, 24, 25}
    ensures pc + 5 <= |code|
    ensures Decode(code, pc).value == LongInstr(code[pc], GetU32(code, pc + 1))
  {
    hide GetU16, GetU32, GetList16, GetList32, ToSigned;
  }

  lemma FetchWord(code: seq<byte>, pc: nat)
    requires Decode(code, pc).Some? && code[pc] in {2, 22, 23}
    ensures pc + 3 <= |code|
    ensures var v := GetU16(code, pc + 1);
            && v >= 0
            && (code[pc] == 2 ==> Decode(code, pc).value == Char16(v))
            && (code[pc] == 22 ==> pc + 3 + 4 * v <= |code| && Decode(code, pc).value == Range(GetList16(code, pc + 3, 2 * v)))
            && (code[pc] == 23 ==> pc + 3 + 8 * v <= |code| && Decode(code, pc).value == Range32(GetList32(code, pc + 3, 2 * v)))
  {
    hide GetU32, GetList16, GetList32;
  }

  lemma FetchQuant(code: seq<byte>, pc: nat)
    requires Decode(code, pc).Some? && code[pc] == 29
    ensures pc + 17 <= |code|
    ensures Decode(code, pc).value
         == SimpleGreedyQuant(ToSigned(GetU32(code, pc + 1)), GetU32(code, pc + 5), GetU32(code, pc + 9), GetU32(code, pc + 13))
  {
    hide GetU16, GetU32, GetList16, GetList32, ToSigned;
  }

  /** What the code asserts of range opcodes: there is at least one interval. */
  predicate Fed(i: Instr) {
    i.Range? || i.Range32? ==> |i.bounds| >= 2 && |i.bounds| % 2 == 0
  }

  /** From `s` the machine stops after `m` steps in `out`, and on its way the stack never outgrows `limit`. */
  ghost predicate OnTrack(code: seq<byte>, c: Ctx, s: Conf, m: nat, out: Conf, limit: nat) {
    && Steps(code, c, s, m) == out && out.Done?
    && forall j: nat :: Fits(Steps(code, c, s, j), limit)
  }

  predicate Fits(s: Conf, limit: nat) {
    s.Run? ==> |s.stack| <= limit
  }

  lemma {:induction false} StuckStays(code: seq<byte>, c: Ctx, m: nat)
    ensures Steps(code, c, Stuck, m) == Stuck
    decreases m
  {
    if m > 0 {
      StuckStays(code, c, m - 1);
    }
  }

  lemma {:induction false} DoneStays(code: seq<byte>, c: Ctx, s: Conf, m: nat)
    requires s.Done?
    ensures Steps(code, c, s, m) == s
    decreases m
  {
    if m > 0 {
      DoneStays(code, c, s, m - 1);
    }
  }

  lemma Advance(code: seq<byte>, c: Ctx, s: Conf, m: nat, out: Conf, limit: nat)
    requires OnTrack(code, c, s, m, out, limit)
    ensures !s.Stuck? && (s.Done? ==> s == out)
    ensures !s.Done? ==> m > 0 && OnTrack(code, c, Step(code, c, s), m - 1, out, limit)
    ensures !s.Done? ==> !Step(code, c, s).Stuck? && Fits(Step(code, c, s), limit)
  {
    hide Step, Fits;
    if s.Stuck? {
      StuckStays(code, c, m);
    }
    if s.Done? {
      DoneStays(code, c, s, m);
    } else {
      var t := Step(code, c, s);
      if t.Stuck? {
        StuckStays(code, c, m - 1);
      }
      forall j: nat ensures Fits(Steps(code, c, t, j), limit) {
        assert Steps(code, c, s, j + 1) == Steps(code, c, t, j);
      }
      assert Steps(code, c, t, 0) == t;
    }
  }

  lemma OtherStep(code: seq<byte>, c: Ctx, r: Conf, i: Instr)
    requires r.Run? && Decode(code, r.pc) == Some(i) && r.pos <= |c.units| && SimpleOp(c, i, r.pos).Other?
    ensures Step(code, c, r) == StepOther(code, c, i, r, r.(pc := r.pc + Size(i)))
  {
    hide Decode, SimpleOp, StepOther;
  }

  lemma SimpleStep(code: seq<byte>, c: Ctx, r: Conf, i: Instr)
    requires r.Run? && Decode(code, r.pc) == Some(i) && r.pos <= |c.units|
    ensures SimpleOp(c, i, r.pos).NoMatch? ==> Step(code, c, r) == Fail(r.saved)
    ensures SimpleOp(c, i, r.pos).Go? ==>
              Step(code, c, r) == Run(r.pc + Size(i), SimpleOp(c, i, r.pos).pos, r.caps, r.stack, r.saved)
  {
    hide Decode, SimpleOp, StepOther;
  }

  lemma StepNeeds(code: seq<byte>, c: Ctx, r: Conf)
    requires r.Run? && !Step(code, c, r).Stuck?
    ensures r.pc >= 0 && Decode(code, r.pc).Some? && r.pos <= |c.units| && Fed(Decode(code, r.pc).value)
  {
    hide Decode;
    if r.pos <= |c.units| && Decode(code, r.pc).Some? {
      EmptyRange(c, Decode(code, r.pc).value, r.pos);
      if !Fed(Decode(code, r.pc).value) {
        OtherStep(code, c, r, Decode(code, r.pc).value);
      }
    }
  }

  lemma EmptyRange(c: Ctx, i: Instr, pos: nat)
    requires pos <= |c.units|
    ensures !Fed(i) ==> SimpleOp(c, i, pos).Other?
  {
  }

  /** The opcodes that do more than look at the subject. */
  const OTHERS: set<byte> := {8, 9, 10, 11, 12, 13, 14, 15, 16, 17, 20, 21, 24, 25, 26, 27, 28, 29}

  lemma OtherOps(c: Ctx, i: Instr, pos: nat)
    requires pos <= |c.units| && SimpleOp(c, i, pos).Other? && Fed(i)
    ensures Opcode(i) in OTHERS
  {
  }

  function AfterQuant(i: Instr, r: Conf, it: Iterated): Conf
    requires i.SimpleGreedyQuant? && r.Run?
  {
    if it.Bad? then Stuck
    else if it.count < i.min then Fail(r.saved)
    else
      var s := Saved(GreedyQuantState, r.pc + 1, it.pos, r.caps, r.stack, if it.count > i.min then it.count - i.min else 0);
      Run(r.pc + 17 + i.next, it.pos, r.caps, r.stack, if it.count > i.min then r.saved + [s] else r.saved)
  }

  lemma QuantTarget(code: seq<byte>, c: Ctx, i: Instr, r: Conf)
    requires i.SimpleGreedyQuant? && r.Run? && r.pos <= |c.units|
    ensures StepOther(code, c, i, r, r.(pc := r.pc + Size(i))) == AfterQuant(i, r, Iterate(code, c, r.pc + 17, r.pos, 0, i.max))
  {
    hide Iterate;
  }

  /** The state after a simple quantifier has given up an iteration and now stands at `p`. */
  function AfterGivingUp(rs: Saved, rest: seq<Saved>, p: nat, off: int): Conf
    requires rs.count > 0
  {
    Run(rs.pc + 16 + off, p, rs.caps, rs.stack, rest + (if rs.count == 1 then [] else [rs.(pos := p, count := rs.count - 1)]))
  }

  lemma QuantResumes(code: seq<byte>, c: Ctx, saved: seq<Saved>)
    requires saved != [] && saved[|saved| - 1].kind == GreedyQuantState && !StepFail(code, c, saved).Stuck?
    ensures var rs := saved[|saved| - 1];
            && 0 <= rs.pc && rs.pc + 16 <= |code| && rs.pos <= |c.units| && rs.count > 0 && GetU32(code, rs.pc + 12) >= 0
            && Back(c, rs.pos, GetU32(code, rs.pc + 12)) >= 0
            && StepFail(code, c, saved)
            == AfterGivingUp(rs, saved[..|saved| - 1], Back(c, rs.pos, GetU32(code, rs.pc + 12)), ToSigned(GetU32(code, rs.pc)))
  {
    var rs, rest := saved[|saved| - 1], saved[..|saved| - 1];
    FetchPlain(code, rs.pc - 1);
    FetchQuant(code, rs.pc - 1);
    hide Decode, GetU32, ToSigned, Back;
    assert rest + [] == rest;
  }

  lemma ReplaceTop(saved: seq<Saved>, s: Saved)
    requires saved != []
    ensures saved[|saved| - 1 := s] == saved[..|saved| - 1] + [s]
  {
  }

  class REExecContext {
    const code: seq<byte>
    const c: Ctx
    const captures: array<int>
    const stack: array<int>
    var stackLen: nat
    var stateStack: seq<Saved>

    constructor (code: seq<byte>, c: Ctx, captures: array<int>, stackSize: nat)
      ensures this.code == code && this.c == c && this.captures == captures && fresh(stack) && stack.Length == stackSize
      ensures stackLen == 0 && stateStack == []
    {
      this.code, this.c, this.captures := code, c, captures;
      stack := new int[stackSize];
      stackLen, stateStack := 0, [];
    }

    ghost predicate Valid()
      reads this, captures
    {
      && captures != stack && stackLen <= stack.Length && InSubject(captures[..])
      && forall i :: 0 <= i < |stateStack| ==>
           && |stateStack[i].caps| == captures.Length && |stateStack[i].stack| <= stack.Length
           && InSubject(stateStack[i].caps)
    }

    /** Captures are unset or positions of the subject. */
    ghost predicate InSubject(caps: seq<int>) {
      forall k :: 0 <= k < |caps| ==> -1 <= caps[k] <= |c.units|
    }

    /** The machine's whole state. */
    ghost function State(f: Flow): Conf
      requires Valid()
      reads this, captures, stack
    {
      match f
      case Continue(pc, cptr) => Run(pc, cptr, captures[..], stack[..stackLen], stateStack)
      case Failed => Fail(stateStack)
      case Matched => Succeed(captures[..], stateStack)
    }

    method PushState(pc: int, cptr: nat, kind: Kind, count: nat)
      requires Valid()
      modifies this`stateStack
      ensures Valid()
      ensures stateStack == old(stateStack) + [Saved(kind, pc, cptr, captures[..], stack[..stackLen], count)]
    {
      stateStack := stateStack + [Saved(kind, pc, cptr, captures[..], stack[..stackLen], count)];
    }

    // ---- range opcodes ----

    method InRange16(p: nat, n: nat, ch: int) returns (found: bool)
      requires n >= 1 && p + 4 * n <= |code|
      ensures found == Range16Test(GetList16(code, p, 2 * n), ch)
    {
      hide GetList16, GetU16, BinarySearch;
      ghost var bs := GetList16(code, p, 2 * n);
      List16At(code, p, 2 * n, 0);
      List16At(code, p, 2 * n, 2 * n - 1);
      var idxMin: nat, idxMax: nat := 0, n - 1;
      if ch < GetU16(code, p) {
        return false;
      }
      var high := GetU16(code, p + idxMax * 4 + 2);
      if ch >= 0xffff && high == 0xffff {
        return true;
      }
      if ch > high {
        return false;
      }
      while idxMin <= idxMax
        invariant idxMax < n && bs[0] <= ch
        invariant BinarySearch(bs, ch, 0, n - 1) == BinarySearch(bs, ch, idxMin, idxMax)
        decreases idxMax + 1 - idxMin
      {
        var idx: nat := (idxMin + idxMax) / 2;
        SearchStep(bs, ch, idxMin, idxMax);
        List16At(code, p, 2 * n, 2 * idx);
        List16At(code, p, 2 * n, 2 * idx + 1);
        if ch < GetU16(code, p + idx * 4) {
          idxMax := idx - 1;
        } else if ch > GetU16(code, p + idx * 4 + 2) {
          idxMin := idx + 1;
        } else {
          return true;
        }
      }
      SearchStep(bs, ch, idxMin, idxMax);
      return false;
    }

    method InRange32(p: nat, n: nat, ch: int) returns (found: bool)
      requires n >= 1 && p + 8 * n <= |code|
      ensures found == Range32Test(GetList32(code, p, 2 * n), ch)
    {
      hide GetList32, GetU32, BinarySearch;
      ghost var bs := GetList32(code, p, 2 * n);
      List32At(code, p, 2 * n, 0);
      List32At(code, p, 2 * n, 2 * n - 1);
      var idxMin: nat, idxMax: nat := 0, n - 1;
      if ch < GetU32(code, p) {
        return false;
      }
      if ch > GetU32(code, p + idxMax * 8 + 4) {
        return false;
      }
      while idxMin <= idxMax
        invariant idxMax < n && bs[0] <= ch
        invariant BinarySearch(bs, ch, 0, n - 1) == BinarySearch(bs, ch, idxMin, idxMax)
        decreases idxMax + 1 - idxMin
      {
        var idx: nat := (idxMin + idxMax) / 2;
        SearchStep(bs, ch, idxMin, idxMax);
        List32At(code, p, 2 * n, 2 * idx);
        List32At(code, p, 2 * n, 2 * idx + 1);
        if ch < GetU32(code, p + idx * 8) {
          idxMax := idx - 1;
        } else if ch > GetU32(code, p + idx * 8 + 4) {
          idxMin := idx + 1;
        } else {
          return true;
        }
      }
      SearchStep(bs, ch, idxMin, idxMax);
      return false;
    }

    // ---- opcodes that only look at the subject ----

    /** A character opcode: fetches a character and tests it. */
    method CharOpcode(pc: nat, cptr: nat) returns (r: OpRes, next: nat)
      requires Decode(code, pc).Some? && cptr <= |c.units| && Fed(Decode(code, pc).value)
      requires code[pc] in {1, 2, 3, 4, 5, 22, 23}
      ensures r == SimpleOp(c, Decode(code, pc).value, cptr) && !r.Other?
      ensures next == pc + Size(Decode(code, pc).value)
    {
      var op := code[pc];
      FetchPlain(code, pc);
      if op == 1 {
        FetchByte(code, pc);
        next := pc + 2;
      } else if op == 3 {
        FetchLong(code, pc);
        next := pc + 5;
      } else if op == 2 || op == 22 || op == 23 {
        FetchWord(code, pc);
        next := pc + 3;
        if op == 22 {
          next := next + 4 * GetU16(code, pc + 1);
        } else if op == 23 {
          next := next + 8 * GetU16(code, pc + 1);
        }
      } else {
        next := pc + 1;
      }
      hide Decode, GetChar, GetU16, GetU32, GetList16, GetList32, Range16Test, Range32Test, Canon;
      if cptr >= |c.units| {
        return NoMatch, next;
      }
      var (ch, p) := GetChar(c, cptr, |c.units|);
      var ok;
      if op == 1 {
        ok := code[pc + 1] == Canon(c, ch);
      } else if op == 2 {
        ok := GetU16(code, pc + 1) == Canon(c, ch);
      } else if op == 3 {
        ok := GetU32(code, pc + 1) == Canon(c, ch);
      } else if op == 4 {
        ok := !IsLineTerminator(ch);
      } else if op == 5 {
        ok := true;
      } else if op == 22 {
        ok := InRange16(pc + 3, GetU16(code, pc + 1), Canon(c, ch));
      } else {
        ok := InRange32(pc + 3, GetU16(code, pc + 1), Canon(c, ch));
      }
      r := if ok then Go(p) else NoMatch;
    }

    method AssertionOpcode(pc: nat, cptr: nat) returns (r: OpRes, next: nat)
      requires Decode(code, pc).Some? && cptr <= |c.units| && code[pc] in {6, 7, 18, 19}
      ensures r == SimpleOp(c, Decode(code, pc).value, cptr) && !r.Other?
      ensures next == pc + Size(Decode(code, pc).value)
    {
      FetchPlain(code, pc);
      hide Decode, GetChar, GetPrevChar;
      var op := code[pc];
      next := pc + 1;
      var ok;
      if op == 6 {
        ok := cptr == 0 || (c.multiLine && IsLineTerminator(GetPrevChar(c, cptr, 0).0));
      } else if op == 7 {
        ok := cptr == |c.units| || (c.multiLine && IsLineTerminator(GetChar(c, cptr, |c.units|).0));
      } else {
        var v1 := cptr != 0 && IsWordChar(GetPrevChar(c, cptr, 0).0);
        var v2 := cptr < |c.units| && IsWordChar(GetChar(c, cptr, |c.units|).0);
        ok := (v1 != v2) == (op == 18);
      }
      r := if ok then Go(cptr) else NoMatch;
    }

    method SimpleOpcode(pc: nat, cptr: nat) returns (r: OpRes, next: nat)
      requires Decode(code, pc).Some? && cptr <= |c.units| && Fed(Decode(code, pc).value)
      ensures r == SimpleOp(c, Decode(code, pc).value, cptr)
      ensures r.Go? ==> next == pc + Size(Decode(code, pc).value)
    {
      FetchPlain(code, pc);
      hide Decode, Size;
      if code[pc] in {1, 2, 3, 4, 5, 22, 23} {
        r, next := CharOpcode(pc, cptr);
      } else if code[pc] in {6, 7, 18, 19} {
        r, next := AssertionOpcode(pc, cptr);
      } else {
        r, next := Other, pc;
      }
    }

    /** lre_exec_backtrack called with no_recurse: runs the body of a simple quantifier up to its `match`. */
    method NestedRun(start: nat, begin: nat) returns (r: OpRes)
      requires begin <= |c.units| && !InnerRun(code, c, start, begin).Other?
      ensures r == InnerRun(code, c, start, begin)
    {
      var pc: nat, cptr: nat := start, begin;
      hide Decode, SimpleOp, Size;
      while true
        invariant cptr <= |c.units| && InnerRun(code, c, pc, cptr) == InnerRun(code, c, start, begin)
        decreases |code| - pc
      {
        assert Decode(code, pc).Some?;
        FetchPlain(code, pc);
        if code[pc] == 11 {
          return Go(cptr);
        }
        EmptyRange(c, Decode(code, pc).value, cptr);
        var res, next := SimpleOpcode(pc, cptr);
        if !res.Go? {
          return res;
        }
        pc, cptr := next, res.pos;
      }
    }

    // ---- the other opcodes ----

    ghost predicate CanDo(i: Instr, pc: int, cptr: nat)
      reads this, captures, stack
    {
      && Valid() && Decode(code, pc) == Some(i) && 0 <= pc && cptr <= |c.units|
      && var r := Run(pc, cptr, captures[..], stack[..stackLen], stateStack);
         var t := StepOther(code, c, i, r, r.(pc := pc + Size(i)));
         !t.Stuck? && Fits(t, stack.Length)
    }

    /** Where the step function goes from here. */
    ghost function Target(i: Instr, pc: int, cptr: nat): Conf
      requires Valid() && cptr <= |c.units|
      reads this, captures, stack
    {
      var r := Run(pc, cptr, captures[..], stack[..stackLen], stateStack);
      StepOther(code, c, i, r, r.(pc := pc + Size(i)))
    }

    method JumpOpcode(ghost i: Instr, pc: nat, cptr: nat) returns (f: Flow)
      requires CanDo(i, pc, cptr) && code[pc] in {8, 9, 10, 24, 25}
      modifies this`stateStack
      ensures Valid() && State(f) == old(Target(i, pc, cptr))
    {
      FetchLong(code, pc);
      hide Decode, GetU32, ToSigned;
      var op := code[pc];
      var val := ToSigned(GetU32(code, pc + 1));
      var next := pc + 5;
      if op == 8 {
        f := Continue(next + val, cptr);
      } else if op == 9 {
        PushState(next, cptr, SplitState, 0);
        f := Continue(next + val, cptr);
      } else {
        PushState(next + val, cptr,
                  if op == 10 then SplitState else if op == 24 then LookaheadState else NegativeLookaheadState, 0);
        f := Continue(next, cptr);
      }
    }

    method SaveOpcode(ghost i: Instr, pc: nat, cptr: nat) returns (f: Flow)
      requires CanDo(i, pc, cptr) && code[pc] in {12, 13, 14}
      modifies captures
      ensures Valid() && State(f) == old(Target(i, pc, cptr))
    {
      FetchByte(code, pc);
      hide Decode;
      var op := code[pc];
      ghost var before := captures[..];
      if op == 14 {
        var val: nat, val2: nat := code[pc + 1], code[pc + 2];
        while val <= val2
          invariant ResetCaps(captures[..], val, val2) == ResetCaps(before, code[pc + 1], val2)
          invariant stack[..stackLen] == old(stack[..stackLen]) && InSubject(captures[..])
          decreases val2 + 1 - val
        {
          ghost var caps := captures[..];
          captures[2 * val] := -1;
          captures[2 * val + 1] := -1;
          assert captures[..] == caps[2 * val := -1][2 * val + 1 := -1];
          val := val + 1;
        }
        f := Continue(pc + 3, cptr);
      } else {
        var val: nat := code[pc + 1];
        captures[2 * val + (op - 12)] := cptr;
        assert captures[..] == before[2 * val + (op - 12) := cptr];
        f := Continue(pc + 2, cptr);
      }
    }

    method StackOpcode(ghost i: Instr, pc: nat, cptr: nat) returns (f: Flow)
      requires CanDo(i, pc, cptr) && code[pc] in {15, 16, 17, 26, 27}
      modifies this`stackLen, stack
      ensures Valid() && State(f) == old(Target(i, pc, cptr))
    {
      FetchPlain(code, pc);
      ghost var before, caps := stack[..stackLen], captures[..];
      var op := code[pc];
      var next := pc + 1;
      if op == 15 || op == 16 {
        FetchLong(code, pc);
        next := pc + 5;
      }
      hide Decode, GetU32, ToSigned;
      f := Continue(next, cptr);
      if op == 16 {
        stack[stackLen] := GetU32(code, pc + 1);
        stackLen := stackLen + 1;
        assert stack[..stackLen] == before + [GetU32(code, pc + 1)];
      } else if op == 26 {
        stack[stackLen] := cptr;
        stackLen := stackLen + 1;
        assert stack[..stackLen] == before + [cptr];
      } else if op == 15 {
        stack[stackLen - 1] := if stack[stackLen - 1] == 0 then WORD - 1 else stack[stackLen - 1] - 1;
        assert stack[..stackLen] == before[stackLen - 1 := Decrement(before[stackLen - 1])];
        if stack[stackLen - 1] != 0 {
          f := Continue(next + ToSigned(GetU32(code, pc + 1)), cptr);
        }
      } else {
        stackLen := stackLen - 1;
        assert stack[..stackLen] == before[..|before| - 1];
        if op == 27 && stack[stackLen] == cptr {
          f := Failed;
        }
      }
    }

    method MatchForward(start: nat, end: nat, begin: nat) returns (r: int)
      requires end <= |c.units| && begin <= |c.units|
      ensures r == BackRefForward(c, start, end, begin)
    {
      hide GetChar, Canon;
      var cptr1: nat, cptr: nat := start, begin;
      while cptr1 < end
        invariant cptr <= |c.units| && BackRefForward(c, cptr1, end, cptr) == BackRefForward(c, start, end, begin)
        decreases end - cptr1
      {
        if cptr >= |c.units| {
          return -1;
        }
        var (c1, p1) := GetChar(c, cptr1, end);
        var (c2, p2) := GetChar(c, cptr, |c.units|);
        if Canon(c, c1) != Canon(c, c2) {
          return -1;
        }
        cptr1, cptr := p1, p2;
      }
      return cptr;
    }

    method MatchBackward(start: nat, end: nat, begin: nat) returns (r: int)
      requires end <= |c.units| && begin <= |c.units|
      ensures r == BackRefBackward(c, start, end, begin)
    {
      hide GetPrevChar, Canon;
      var cptr1: nat, cptr: nat := end, begin;
      while cptr1 > start
        invariant cptr1 <= |c.units| && cptr <= |c.units|
        invariant BackRefBackward(c, start, cptr1, cptr) == BackRefBackward(c, start, end, begin)
        decreases cptr1 - start
      {
        if cptr == 0 {
          return -1;
        }
        var (c1, p1) := GetPrevChar(c, cptr1, start);
        var (c2, p2) := GetPrevChar(c, cptr, 0);
        if Canon(c, c1) != Canon(c, c2) {
          return -1;
        }
        cptr1, cptr := p1, p2;
      }
      return cptr;
    }

    method BackReferenceOpcode(ghost i: Instr, pc: nat, cptr: nat) returns (f: Flow)
      requires CanDo(i, pc, cptr) && code[pc] in {20, 21}
      ensures State(f) == Target(i, pc, cptr)
    {
      FetchByte(code, pc);
      hide Decode;
      var val: nat := code[pc + 1];
      if 2 * val + 1 >= captures.Length {
        return Failed;
      }
      var start, end := captures[2 * val], captures[2 * val + 1];
      if start == -1 || end == -1 {
        return Continue(pc + 2, cptr);
      }
      var p;
      if code[pc] == 20 {
        p := MatchForward(start, end, cptr);
      } else {
        p := MatchBackward(start, end, cptr);
      }
      f := if p == -1 then Failed else Continue(pc + 2, p);
    }

    method PrevOpcode(ghost i: Instr, pc: nat, cptr: nat) returns (f: Flow)
      requires CanDo(i, pc, cptr) && code[pc] == 28
      ensures State(f) == Target(i, pc, cptr)
    {
      FetchPlain(code, pc);
      hide Decode, GetPrevChar;
      if cptr == 0 {
        return Failed;
      }
      f := Continue(pc + 1, GetPrevChar(c, cptr, 0).1);
    }

    /** simple_greedy_quant: the body as often as it matches, then one saved state for all the shorter matches. */
    method QuantOpcode(ghost i: Instr, pc: nat, cptr: nat) returns (f: Flow)
      requires Valid() && cptr <= |c.units| && Decode(code, pc) == Some(i) && code[pc] == 29 && i.SimpleGreedyQuant?
      requires Iterate(code, c, pc + 17, cptr, 0, i.max).End?
      modifies this`stateStack
      ensures Valid()
      ensures State(f) == old(AfterQuant(i, State(Continue(pc, cptr)), Iterate(code, c, pc + 17, cptr, 0, i.max)))
    {
      FetchQuant(code, pc);
      hide Iterate, Decode, GetU32, ToSigned;
      var nextPos, min, max := ToSigned(GetU32(code, pc + 1)), GetU32(code, pc + 5), GetU32(code, pc + 9);
      var body := pc + 17;
      var p, q := Repeat(body, cptr, max);
      if q < min {
        return Failed;
      }
      if q > min {
        PushState(body - 16, p, GreedyQuantState, q - min);
      }
      f := Continue(body + nextPos, p);
    }

    method Repeat(body: nat, begin: nat, max: int) returns (cptr: nat, q: nat)
      requires begin <= |c.units| && Iterate(code, c, body, begin, 0, max).End?
      ensures End(cptr, q) == Iterate(code, c, body, begin, 0, max)
    {
      hide InnerRun;
      cptr, q := begin, 0;
      while true
        invariant cptr <= |c.units| && Iterate(code, c, body, begin, 0, max) == Iterate(code, c, body, cptr, q, max)
        decreases |c.units| - cptr
      {
        var res := NestedRun(body, cptr);
        if !res.Go? {
          break;
        }
        cptr := res.pos;
        q := q + 1;
        if q >= max && max != INT32_MAX {
          break;
        }
      }
    }

    method RunOpcode(pc: int, cptr: nat) returns (f: Flow)
      requires Valid() && !Step(code, c, State(Continue(pc, cptr))).Stuck?
      requires Fits(Step(code, c, State(Continue(pc, cptr))), stack.Length)
      modifies this, captures, stack
      ensures Valid() && State(f) == old(Step(code, c, State(Continue(pc, cptr))))
    {
      ghost var r := State(Continue(pc, cptr));
      StepNeeds(code, c, r);
      hide Step, Decode, SimpleOp, StepOther, Size, Opcode, Fits;
      ghost var i := Decode(code, pc).value;
      FetchPlain(code, pc);
      var op := code[pc];
      var res, next := SimpleOpcode(pc, cptr);
      if res.Other? {
        OtherStep(code, c, r, i);
        OtherOps(c, i, cptr);
        f := OtherOpcode(i, pc, cptr);
      } else {
        SimpleStep(code, c, r, i);
        f := if res.Go? then Continue(next, res.pos) else Failed;
      }
    }

    method OtherOpcode(ghost i: Instr, pc: nat, cptr: nat) returns (f: Flow)
      requires CanDo(i, pc, cptr) && pc < |code| && code[pc] in OTHERS
      requires Opcode(i) == code[pc]
      modifies this, captures, stack
      ensures Valid() && State(f) == old(Target(i, pc, cptr))
    {
      hide Decode, Size, Fits;
      var op := code[pc];
      if op == 11 {
        f := Matched;
      } else {
        hide StepOther;
        if op in {8, 9, 10, 24, 25} {
          f := JumpOpcode(i, pc, cptr);
        } else if op in {12, 13, 14} {
          f := SaveOpcode(i, pc, cptr);
        } else if op in {15, 16, 17, 26, 27} {
          f := StackOpcode(i, pc, cptr);
        } else if op in {20, 21} {
          f := BackReferenceOpcode(i, pc, cptr);
        } else if op == 28 {
          f := PrevOpcode(i, pc, cptr);
        } else {
          QuantTarget(code, c, i, State(Continue(pc, cptr)));
          f := QuantOpcode(i, pc, cptr);
        }
      }
    }

    // ---- unwinding ----

    method RestoreCaptures(caps: seq<int>)
      requires |caps| == captures.Length
      modifies captures
      ensures captures[..] == caps
    {
      forall k | 0 <= k < captures.Length {
        captures[k] := caps[k];
      }
    }

    method RestoreStack(saved: seq<int>)
      requires |saved| <= stack.Length
      modifies this`stackLen, stack
      ensures stackLen <= stack.Length && stack[..stackLen] == saved
    {
      stackLen := |saved|;
      forall k | 0 <= k < |saved| {
        stack[k] := saved[k];
      }
    }

    /** The saved states are popped until one of them goes on (`finished` is false) or none is left. */
    method Unwind(matched: bool, ghost m0: nat, ghost out: Conf)
      returns (finished: bool, ret: bool, pc: int, cptr: nat, ghost m: nat)
      requires Valid() && OnTrack(code, c, State(if matched then Matched else Failed), m0, out, stack.Length)
      modifies this, captures, stack
      ensures Valid()
      ensures finished ==> out == Done(ret, if ret then captures[..] else [])
      ensures !finished ==> m < m0 && OnTrack(code, c, State(Continue(pc, cptr)), m, out, stack.Length)
    {
      hide OnTrack, Fits, Decode;
      ret, m, pc, cptr := matched, m0, 0, 0;
      while stateStack != []
        invariant Valid() && m <= m0
        invariant OnTrack(code, c, State(if ret then Matched else Failed), m, out, stack.Length)
        decreases |stateStack|
      {
        ghost var s := State(if ret then Matched else Failed);
        Advance(code, c, s, m, out, stack.Length);
        m := m - 1;
        var top := |stateStack| - 1;
        var rs := stateStack[top];
        if rs.kind == SplitState {
          if !ret {
            Resume(rs, true);
            return false, ret, rs.pc, rs.pos, m;
          }
        } else if rs.kind == GreedyQuantState {
          if !ret {
            pc, cptr := ResumeQuant(rs);
            return false, ret, pc, cptr, m;
          }
        } else {
          ret := (rs.kind == LookaheadState && ret) || (rs.kind == NegativeLookaheadState && !ret);
          if ret {
            Resume(rs, rs.kind == NegativeLookaheadState);
            return false, ret, rs.pc, rs.pos, m;
          }
        }
        stateStack := stateStack[..top];
      }
      Advance(code, c, State(if ret then Matched else Failed), m, out, stack.Length);
      ghost var t := Step(code, c, State(if ret then Matched else Failed));
      Advance(code, c, t, m - 1, out, stack.Length);
      finished := true;
    }

    /** Takes the topmost saved state off and restores it; the captures stay when a look-ahead has matched. */
    method Resume(rs: Saved, withCaptures: bool)
      requires Valid() && stateStack != [] && rs == stateStack[|stateStack| - 1]
      modifies this, captures, stack
      ensures Valid()
      ensures State(Continue(rs.pc, rs.pos))
           == Run(rs.pc, rs.pos, if withCaptures then rs.caps else old(captures[..]), rs.stack,
                  old(stateStack)[..|old(stateStack)| - 1])
    {
      if withCaptures {
        RestoreCaptures(rs.caps);
      }
      RestoreStack(rs.stack);
      stateStack := stateStack[..|stateStack| - 1];
    }

    /** One iteration of the quantifier less; the saved state stays while there are more to give up. */
    method ResumeQuant(rs: Saved) returns (pc: int, cptr: nat)
      requires Valid() && stateStack != [] && rs == stateStack[|stateStack| - 1] && rs.kind == GreedyQuantState
      requires !StepFail(code, c, stateStack).Stuck?
      modifies this, captures, stack
      ensures Valid() && State(Continue(pc, cptr)) == old(StepFail(code, c, stateStack))
    {
      QuantResumes(code, c, stateStack);
      hide StepFail, Decode, GetU32, ToSigned, Back;
      RestoreCaptures(rs.caps);
      RestoreStack(rs.stack);
      var charCount := GetU32(code, rs.pc + 12);
      cptr := StepBack(rs.pos, charCount);
      pc := rs.pc + 16 + ToSigned(GetU32(code, rs.pc));
      KeepOrPop(rs.(pos := cptr, count := rs.count - 1));
    }

    method KeepOrPop(rs: Saved)
      requires Valid() && stateStack != [] && |rs.stack| <= stack.Length && |rs.caps| == captures.Length && InSubject(rs.caps)
      modifies this`stateStack
      ensures Valid()
      ensures stateStack == old(stateStack)[..|old(stateStack)| - 1] + (if rs.count == 0 then [] else [rs])
    {
      var top := |stateStack| - 1;
      if rs.count == 0 {
        stateStack := stateStack[..top];
      } else {
        ReplaceTop(stateStack, rs);
        stateStack := stateStack[top := rs];
      }
    }

    method StepBack(begin: nat, n: nat) returns (cptr: nat)
      requires begin <= |c.units| && Back(c, begin, n) >= 0
      ensures cptr == Back(c, begin, n)
    {
      hide GetPrevChar;
      cptr := begin;
      for i := 0 to n
        invariant cptr <= |c.units| && Back(c, cptr, n - i) == Back(c, begin, n)
      {
        cptr := GetPrevChar(c, cptr, 0).1;
      }
    }

    /** lre_exec_backtrack: computes where the step function ends. */
    method Backtrack(start: int, begin: nat, ghost steps: nat, ghost out: Conf) returns (ret: bool)
      requires Valid() && OnTrack(code, c, State(Continue(start, begin)), steps, out, stack.Length)
      modifies this, captures, stack
      ensures out == Done(ret, if ret then captures[..] else [])
    {
      hide OnTrack, Fits, Step;
      var pc, cptr := start, begin;
      ghost var m := steps;
      while true
        invariant Valid() && OnTrack(code, c, State(Continue(pc, cptr)), m, out, stack.Length)
        decreases m
      {
        Advance(code, c, State(Continue(pc, cptr)), m, out, stack.Length);
        var f := RunOpcode(pc, cptr);
        m := m - 1;
        if f.Continue? {
          pc, cptr := f.pc, f.cptr;
        } else {
          var finished;
          finished, ret, pc, cptr, m := Unwind(f.Matched?, m, out);
          if finished {
            return;
          }
        }
      }
    }
  }
  /** The context the header and the arguments of lre_exec describe. */
  function Context(flags: int, units: seq<int>, cbufType: int, canonicalize: (int, bool) -> int): Ctx {
    var multiLine, ignoreCase, unicode := flags / 4 % 2 == 1, flags / 2 % 2 == 1, flags / 16 % 2 == 1;
    Ctx(units, cbufType == 2 || (cbufType == 1 && unicode), multiLine, ignoreCase, ch => canonicalize(ch, unicode))
  }

  /** From every start the machine stops within its stack; from one that splits no pair, with the reference answer. */
  lemma StartOnTrack(code: seq<byte>, c: Ctx, n: Node, sticky: bool, p: nat, limit: nat) returns (steps: nat, out: Conf)
    requires ValidCtx(c) && Compiled(code, n, sticky) && p <= |c.units|
    requires limit == MaxDepth(Program(n, sticky), 0)
    ensures OnTrack(code, c, Start(n, p), steps, out, limit)
    ensures !MidPair(c, p) ==> out == Outcome(Search(c, n, sticky, p))
  {
    hide Compiled, ValidCtx, MidPair, Program, MaxDepth, Search, Deep, Start, Steps;
    if MidPair(c, p) {
      ReHalt.ExecHalts(code, c, n, sticky, p);
      steps :| Steps(code, c, Start(n, p), steps).Done?;
      out := Steps(code, c, Start(n, p), steps);
    } else {
      ExecCorrect(code, c, n, sticky, p);
      out := Outcome(Search(c, n, sticky, p));
      steps :| Steps(code, c, Start(n, p), steps) == out;
    }
    forall j: nat ensures Fits(Steps(code, c, Start(n, p), j), limit) {
      StackBounded(code, c, n, sticky, p, j);
    }
  }

  lemma TrackReaches(code: seq<byte>, c: Ctx, s: Conf, steps: nat, out: Conf, limit: nat)
    requires OnTrack(code, c, s, steps, out, limit)
    ensures Reach(code, c, s, out) && out.Done?
  {
    hide Steps, Fits;
  }

  /** lre_exec: it always returns, with 1 and captures, or with 0, as the step function says; from a start that splits
      no surrogate pair, with the captures of the first match from `cindex` on. The machine's stack is an array of the
      size lre_compute_stack_size put into the header, and that is always enough. */
  method LreExec(code: seq<byte>, units: seq<int>, cindex: nat, cbufType: int, canonicalize: (int, bool) -> int,
                 ghost n: Node, ghost sticky: bool) returns (ret: int, capture: array<int>)
    requires Compiled(code, n, sticky) && |code| >= HEADER_LEN
    requires code[2] == 1 + Caps(n) && code[3] == MaxDepth(Program(n, sticky), 0)
    requires GetU16(code, 0) >= 0 && ValidCtx(Context(GetU16(code, 0), units, cbufType, canonicalize))
    requires cindex <= |units|
    ensures fresh(capture) && capture.Length == 2 * (1 + Caps(n))
    ensures ret == 0 || ret == 1
    ensures var c := Context(GetU16(code, 0), units, cbufType, canonicalize);
            && Reach(code, c, Start(n, cindex), Done(ret == 1, if ret == 1 then capture[..] else []))
            && (!MidPair(c, cindex) ==>
                  var r := Search(c, n, sticky, cindex);
                  (ret == 1 <==> r.Some?) && (r.Some? ==> capture[..] == r.value))
  {
    var c := Context(GetU16(code, 0), units, cbufType, canonicalize);
    var captureCount: nat := code[2];
    capture := new int[captureCount * 2](_ => -1);
    assert capture[..] == Unset(n);
    hide Context, ValidCtx, Compiled, Search, Program, MaxDepth, OnTrack, Reach, MidPair;
    var s := new REExecContext(code, c, capture, code[3]);
    ghost var steps, out := StartOnTrack(code, c, n, sticky, cindex, code[3]);
    TrackReaches(code, c, Start(n, cindex), steps, out, code[3]);
    assert s.stack[..0] == [];
    var found := s.Backtrack(HEADER_LEN, cindex, steps, out);
    ret := if found then 1 else 0;
  }
}
