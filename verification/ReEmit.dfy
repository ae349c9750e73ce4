/** The code emitter: byte code is appended to, patched and shifted in place, and is the code of the pattern. */
module ReEmit {
  import opened ReCode
  import opened ReInput
  import opened ReMatch
  import opened ReCompile
  import ReRange
  import opened ReScan
  import opened ReParts
  import opened ReLook
  import opened ReCorrect
  import opened ReLoops
  import ReSimple
  import opened ReProgram
  import opened ReStack

  /** `s` with `bs` written over it from offset `pos`. */
  function Patched(s: seq<byte>, pos: nat, bs: seq<byte>): (r: seq<byte>)
    requires pos + |bs| <= |s|
    ensures |r| == |s|
  {
    s[..pos] + bs + s[pos + |bs|..]
  }

  /** Overwriting a part of the buffer with as many bytes. */
  lemma PatchOver(p: seq<byte>, old': seq<byte>, rest: seq<byte>, bs: seq<byte>)
    requires |bs| == |old'|
    ensures Patched(p + old' + rest, |p|, bs) == p + bs + rest
  {
    var s := p + old' + rest;
    assert s[..|p|] == p && s[|p| + |bs|..] == rest;
  }

  /** How large the buffer gets while `n` is compiled: also code that is dropped again takes room. */
  function Peak(n: Node, k: nat, back: bool): (r: nat) {
    var self := Len(Asm(n, k, back));
    match n
    case Group(b) => Max(self, 2 + Peak(b, k + 1, back))
    case Look(_, behind, b) => Max(self, 5 + Peak(b, k, behind))
    case Quant(b, _, _, _) => Max(self, Peak(b, k, back))
    case Cat(a, b) => Max(self, Max(Peak(a, k, back), Len(Asm(a, k, back)) + Peak(b, k + Caps(a), back)))
    case Alt(a, b) => Max(self, Max(Peak(a, k, back), Len(Asm(a, k, back)) + 10 + Peak(b, k + Caps(a), back)))
    case _ => self
  }

  function Max(a: nat, b: nat): nat { if a < b then b else a }

  lemma PeakBounds(n: Node, k: nat, back: bool)
    ensures Len(Asm(n, k, back)) <= Peak(n, k, back)
  {
  }

  /** Compiling `n` from a buffer of `size` bytes with `k` captures counted stays within bounds. */
  ghost predicate CanEmit(n: Node, k: nat, back: bool, size: nat) {
    ValidNode(n) && 1 <= k <= 255 && size + Peak(n, k, back) < MAX_LEN
  }

  lemma CanEmitLen(n: Node, k: nat, back: bool, size: nat)
    requires CanEmit(n, k, back, size)
    ensures ValidNode(n) && 1 <= k <= 255 && size + Len(Asm(n, k, back)) < MAX_LEN
  {
    PeakBounds(n, k, back);
    hide Asm, Len, ValidNode, Peak;
  }

  lemma GroupCan(b: Node, k: nat, back: bool, size: nat)
    requires CanEmit(Group(b), k, back, size)
    ensures Caps(Group(b)) == 1 + Caps(b) && 1 <= k <= 255
    ensures k < 255 ==> CanEmit(b, k + 1, back, size + 2)
  {
    hide Asm, Len;
  }

  lemma LookCan(b: Node, negated: bool, behind: bool, k: nat, back: bool, size: nat)
    requires CanEmit(Look(negated, behind, b), k, back, size)
    ensures Caps(Look(negated, behind, b)) == Caps(b) && CanEmit(b, k, behind, size + 5)
  {
    hide Asm, Len;
  }

  lemma LookAsm(b: Node, negated: bool, behind: bool, k: nat, back: bool)
    ensures var f := Asm(b, k, behind);
            Asm(Look(negated, behind, b), k, back) == [LookInstr(negated, Len(f) + 1)] + f + [Match]
  {
  }

  lemma QuantCan(b: Node, min: nat, max: nat, greedy: bool, k: nat, back: bool, size: nat)
    requires CanEmit(Quant(b, min, max, greedy), k, back, size)
    ensures CanEmit(b, k, back, size) && min <= max <= INFINITE && Caps(Quant(b, min, max, greedy)) == Caps(b)
  {
    hide Asm, Len;
  }

  lemma CatCan(a: Node, b: Node, k: nat, back: bool, size: nat)
    requires CanEmit(Cat(a, b), k, back, size)
    ensures Caps(Cat(a, b)) == Caps(a) + Caps(b) && CanEmit(a, k, back, size)
    ensures k + Caps(a) <= 255 ==> CanEmit(b, k + Caps(a), back, size + Len(Asm(a, k, back)))
  {
    CatPeakIs(a, b, k, back);
    hide Asm, Len, Peak;
  }

  lemma CatPeakIs(a: Node, b: Node, k: nat, back: bool)
    ensures Peak(Cat(a, b), k, back) >= Peak(a, k, back)
    ensures Peak(Cat(a, b), k, back) >= Len(Asm(a, k, back)) + Peak(b, k + Caps(a), back)
  {
    hide Asm, Len;
  }

  lemma AltCan(a: Node, b: Node, k: nat, back: bool, size: nat)
    requires CanEmit(Alt(a, b), k, back, size)
    ensures Caps(Alt(a, b)) == Caps(a) + Caps(b) && CanEmit(a, k, back, size)
    ensures k + Caps(a) <= 255 ==> CanEmit(b, k + Caps(a), back, size + Len(Asm(a, k, back)) + 10)
  {
    AltPeakIs(a, b, k, back);
    hide Asm, Len, Peak;
  }

  lemma AltPeakIs(a: Node, b: Node, k: nat, back: bool)
    ensures Peak(Alt(a, b), k, back) >= Peak(a, k, back)
    ensures Peak(Alt(a, b), k, back) >= Len(Asm(a, k, back)) + 10 + Peak(b, k + Caps(a), back)
  {
    hide Asm, Len;
  }

  lemma LookFlat(p: seq<byte>, a: seq<byte>, b: seq<byte>, c: seq<byte>, d: seq<byte>)
    ensures p + (a + b) + c + d == p + a + b + (c + d) == p + (a + b + c + d)
  {
    assert p + (a + b) + c + d == p + a + b + (c + d);
    assert p + (a + b + c + d) == p + (a + b) + c + d;
  }

  lemma AltFlat(p: seq<byte>, head: seq<byte>, a: seq<byte>, b: seq<byte>, g: seq<byte>)
    ensures (p + head) + (a + b) + g == p + (head + a + b + g)
  {
    assert p + (head + a + b + g) == p + head + (a + b) + g;
  }

  /** The code of `n` can be written with operands that fit. */
  ghost predicate HasCode(n: Node, k: nat, back: bool) {
    ValidNode(n) && k + Caps(n) <= 255 && Len(Asm(n, k, back)) < MAX_LEN
  }

  /** The code of `n` as bytes. */
  ghost function Code(n: Node, k: nat, back: bool): (s: seq<byte>)
    requires HasCode(n, k, back)
    ensures |s| == Len(Asm(n, k, back))
  {
    AsmValid(n, k, back);
    Bytes(Asm(n, k, back))
  }

  lemma Wrap(x: int)
    requires -0x8000_0000 <= x < 0x8000_0000
    ensures x % U32 == ToUnsigned(x) && IsU32(ToUnsigned(x))
  {
  }

  /** The operands of a range opcode fit, and there are as many as interval ends. */
  lemma BoundsOrder(points: seq<int>)
    requires ValidPoints(points) && Valid(RangeInstr(points)) && |points| >= 2
    ensures var i := RangeInstr(points);
            && |i.bounds| == |points| && |points| / 2 < U16
            && (i.Range? ==> forall j :: 0 <= j < |i.bounds| ==> 0 <= i.bounds[j] < U16)
            && (i.Range32? ==> forall j :: 0 <= j < |i.bounds| ==> IsU32(i.bounds[j]))
  {
  }

  /** An interval list starts with its opcode and length. */
  lemma RangeEnc(i: Instr)
    requires (i.Range? || i.Range32?) && Valid(i)
    ensures i.Range? ==> Enc(i) == [22] + PutU16(|i.bounds| / 2) + PutList16(i.bounds)
    ensures i.Range32? ==> Enc(i) == [23] + PutU16(|i.bounds| / 2) + PutList32(i.bounds)
  {
    hide PutU16, PutList16, PutList32;
    if i.Range? {
      assert [22] + (PutU16(|i.bounds| / 2) + PutList16(i.bounds)) == [22] + PutU16(|i.bounds| / 2) + PutList16(i.bounds);
    } else {
      assert [23] + (PutU16(|i.bounds| / 2) + PutList32(i.bounds)) == [23] + PutU16(|i.bounds| / 2) + PutList32(i.bounds);
    }
  }

  lemma CodeBytes(n: Node, k: nat, back: bool)
    requires HasCode(n, k, back)
    ensures AllValid(Asm(n, k, back)) && Code(n, k, back) == Bytes(Asm(n, k, back)) && Len(Asm(n, k, back)) < MAX_LEN
  {
    AsmValid(n, k, back);
  }

  lemma BytesOne(i: Instr)
    requires Valid(i)
    ensures AllValid([i]) && Bytes([i]) == Enc(i)
  {
    hide Enc, Valid;
    ValidOne(i);
    assert [i][1..] == [] && Bytes([]) == [];
  }

  lemma Bytes3(i: Instr, f: seq<Instr>, j: Instr)
    requires Valid(i) && Valid(j) && AllValid(f)
    ensures AllValid([i] + f + [j]) && Bytes([i] + f + [j]) == Enc(i) + Bytes(f) + Enc(j)
  {
    hide Enc, Valid, AllValid, Bytes;
    BytesOne(i);
    BytesOne(j);
    BytesConcat([i], f);
    BytesConcat([i] + f, [j]);
  }

  /** Room for the fixed part of one more quantifier above the largest program. */
  const TOP := MAX_LEN + 0x80

  class REParseState {
    var byteCode: seq<byte>
    var captureCount: nat

    /** The header: flags, number of captures, stack size, code length. */
    constructor (flags: int)
      requires 0 <= flags < U16
      ensures byteCode == PutU16(flags) + [0, 0] + PutU32(0) && captureCount == 1
    {
      byteCode := PutU16(flags) + [0, 0] + PutU32(0);
      captureCount := 1;
    }

    method EmitOp(op: byte)
      modifies this`byteCode
      ensures byteCode == old(byteCode) + [op]
    {
      byteCode := byteCode + [op];
    }

    method EmitOpU8(op: byte, v: byte)
      modifies this`byteCode
      ensures byteCode == old(byteCode) + [op, v]
    {
      byteCode := byteCode + [op];
      byteCode := byteCode + [v];
    }

    method EmitOpU16(op: byte, v: int)
      requires 0 <= v < U16
      modifies this`byteCode
      ensures byteCode == old(byteCode) + ([op] + PutU16(v))
    {
      byteCode := byteCode + [op];
      byteCode := byteCode + PutU16(v);
    }

    /** Returns the offset of the operand. */
    method EmitOpU32(op: byte, v: int) returns (pos: nat)
      requires IsU32(v)
      modifies this`byteCode
      ensures byteCode == old(byteCode) + ([op] + PutU32(v)) && pos == |old(byteCode)| + 1
    {
      byteCode := byteCode + [op];
      pos := |byteCode|;
      byteCode := byteCode + PutU32(v);
    }

    /** A jump to the absolute offset `target`. */
    method EmitGoto(op: byte, target: nat)
      requires |byteCode| + 5 < TOP && target < TOP
      modifies this`byteCode
      ensures byteCode == old(byteCode) + ([op] + PutU32(ToUnsigned(target - (|old(byteCode)| + 5))))
    {
      hide PutU32, ToUnsigned;
      ghost var start := byteCode;
      byteCode := byteCode + [op];
      var pos := |byteCode|;
      Wrap(target - (pos + 4));
      byteCode := byteCode + PutU32((target - (pos + 4)) % U32);
    }

    /** The buffer while room behind `p` is being filled: `done` has been written there, `left` bytes are still free. */
    ghost predicate Filling(p: seq<byte>, done: seq<byte>, left: nat, rest: seq<byte>)
      reads this
    {
      && |byteCode| == |p| + |done| + left + |rest|
      && byteCode[..|p| + |done|] == p + done && byteCode[|p| + |done| + left..] == rest
    }

    /** Makes room for `len` bytes behind `p` by moving up what follows. */
    method DbufInsert(pos: nat, len: nat, ghost p: seq<byte>, ghost rest: seq<byte>)
      requires pos == |p| && byteCode == p + rest
      modifies this`byteCode
      ensures Filling(p, [], len, rest)
    {
      var room := seq(len, _ => 0);
      byteCode := (byteCode + room)[..pos + len] + byteCode[pos..];
    }

    method Put(pos: nat, bs: seq<byte>)
      requires pos + |bs| <= |byteCode|
      modifies this`byteCode
      ensures byteCode == Patched(old(byteCode), pos, bs)
    {
      byteCode := byteCode[..pos] + bs + byteCode[pos + |bs|..];
    }

    /** `Put` into room that is being filled from its start. */
    method Fill(pos: nat, bs: seq<byte>, ghost p: seq<byte>, ghost done: seq<byte>, ghost left: nat, ghost rest: seq<byte>)
      requires Filling(p, done, left, rest) && pos == |p| + |done| && |bs| <= left
      modifies this`byteCode
      ensures Filling(p, done + bs, left - |bs|, rest)
    {
      ghost var before := byteCode;
      Put(pos, bs);
      assert byteCode[..pos] == before[..pos];
      assert byteCode[pos + left..] == before[pos + left..];
    }

    lemma Filled(p: seq<byte>, done: seq<byte>, rest: seq<byte>)
      requires Filling(p, done, 0, rest)
      ensures byteCode == p + done + rest
    {
      assert byteCode == byteCode[..|p| + |done|] + byteCode[|p| + |done|..];
    }

    // ---- characters ----

    method EmitRange(points: seq<int>)
      requires ValidPoints(points)
      modifies this`byteCode
      ensures Valid(RangeInstr(points)) && byteCode == old(byteCode) + Enc(RangeInstr(points))
    {
      RangeValid(points);
      ghost var i := RangeInstr(points);
      ghost var start := byteCode;
      var len := |points| / 2;
      if len == 0 {
        var _ := EmitOpU32(3, NO_CHAR);
      } else {
        RangeEnc(i);
        BoundsOrder(points);
        hide Enc, PutU16, PutList16, PutList32, Bounds, ValidPoints, Valid;
        var high := points[|points| - 1];
        if high == UINT32_MAX {
          high := points[|points| - 2];
        }
        if high <= 0xffff {
          EmitOpU16(22, len);
          EmitBounds16(points, i.bounds);
          Assoc(start, [22] + PutU16(len), PutList16(i.bounds));
        } else {
          EmitOpU16(23, len);
          EmitBounds32(points, i.bounds);
          Assoc(start, [23] + PutU16(len), PutList32(i.bounds));
        }
      }
    }

    method EmitBounds16(points: seq<int>, ghost bs: seq<int>)
      requires ValidPoints(points) && bs == Bounds(points, false) && forall j :: 0 <= j < |bs| ==> 0 <= bs[j] < U16
      modifies this`byteCode
      ensures byteCode == old(byteCode) + PutList16(bs)
    {
      var j := 0;
      ghost var start := byteCode;
      assert bs[..0] == [] && bs[..|bs|] == bs && |points| == |bs| && |bs| % 2 == 0;
      assert PutList16([]) == [];
      hide Bounds, PutU16, PutList16, ValidPoints;
      while j < |points|
        invariant 0 <= j <= |points| == |bs| && j % 2 == 0
        invariant byteCode == start + PutList16(bs[..j])
      {
        BoundsPair(points, false, j);
        byteCode := byteCode + PutU16(points[j]);
        var high := points[j + 1] - 1;
        if high == UINT32_MAX - 1 {
          high := 0xffff;
        }
        byteCode := byteCode + PutU16(high);
        List16Pair(start, bs, j);
        j := j + 2;
      }
    }

    method EmitBounds32(points: seq<int>, ghost bs: seq<int>)
      requires ValidPoints(points) && bs == Bounds(points, true) && forall j :: 0 <= j < |bs| ==> IsU32(bs[j])
      modifies this`byteCode
      ensures byteCode == old(byteCode) + PutList32(bs)
    {
      var j := 0;
      ghost var start := byteCode;
      assert bs[..0] == [] && bs[..|bs|] == bs && |points| == |bs| && |bs| % 2 == 0;
      assert PutList32([]) == [];
      hide Bounds, PutU32, PutList32, ValidPoints;
      while j < |points|
        invariant 0 <= j <= |points| == |bs| && j % 2 == 0
        invariant byteCode == start + PutList32(bs[..j])
      {
        BoundsPair(points, true, j);
        byteCode := byteCode + PutU32(points[j]);
        byteCode := byteCode + PutU32(points[j + 1] - 1);
        List32Pair(start, bs, j);
        j := j + 2;
      }
    }

    method EmitChar(n: Node, back: bool)
      requires IsCharNode(n) && ValidNode(n)
      modifies this`byteCode
      ensures Valid(CharNodeInstr(n)) && AllValid(Backward(back, CharNodeInstr(n)))
      ensures byteCode == old(byteCode) + Bytes(Backward(back, CharNodeInstr(n)))
    {
      CharNodeValid(n);
      ghost var i := CharNodeInstr(n);
      ghost var start := byteCode;
      CharBytes(i);
      hide Bytes, AllValid, Enc, Valid, CharNodeInstr, Backward;
      if back {
        EmitOp(28);
      }
      EmitCharTest(n);
      if back {
        Assoc(start, [28], Enc(i));
        EmitOp(28);
        Assoc(start, [28] + Enc(i), [28]);
      }
    }

    method EmitCharTest(n: Node)
      requires IsCharNode(n) && ValidNode(n)
      modifies this`byteCode
      ensures Valid(CharNodeInstr(n)) && byteCode == old(byteCode) + Enc(CharNodeInstr(n))
    {
      hide PutU16, PutU32, RangeInstr;
      if n.Char? {
        if n.c <= 0x7f {
          EmitOpU8(1, n.c);
        } else if n.c <= 0xffff {
          EmitOpU16(2, n.c);
        } else {
          var _ := EmitOpU32(3, n.c);
        }
      } else if n.Class? {
        EmitRange(n.points);
      } else if n.Dot? {
        EmitOp(4);
      } else {
        EmitOp(5);
      }
    }

    // ---- patterns ----

    /** The code of `n` has been appended to `start`, and its captures have been counted. */
    ghost predicate Emitted(n: Node, k: nat, back: bool, start: seq<byte>)
      reads this
    {
      && ValidNode(n) && k + Caps(n) <= 255 && captureCount == k + Caps(n)
      && Len(Asm(n, k, back)) < MAX_LEN && byteCode == start + Code(n, k, back)
    }

    lemma UseEmitted(n: Node, k: nat, back: bool, start: seq<byte>)
      requires Emitted(n, k, back, start)
      ensures HasCode(n, k, back)
      ensures ValidNode(n) && k + Caps(n) <= 255 && captureCount == k + Caps(n)
      ensures Len(Asm(n, k, back)) < MAX_LEN && byteCode == start + Code(n, k, back)
      ensures |byteCode| == |start| + Len(Asm(n, k, back))
    {
    }

    lemma MakeEmitted(n: Node, k: nat, back: bool, start: seq<byte>)
      requires k + Caps(n) <= 255 && captureCount == k + Caps(n)
      requires ValidNode(n) && Len(Asm(n, k, back)) < MAX_LEN && byteCode == start + Code(n, k, back)
      ensures Emitted(n, k, back, start)
    {
    }

    /** re_parse_term, re_parse_alternative and re_parse_disjunction on a parsed pattern; false when there are too many
        captures. */
    method EmitNode(n: Node, back: bool) returns (ok: bool)
      requires CanEmit(n, captureCount, back, |byteCode|)
      modifies this
      ensures ok <==> old(captureCount) + Caps(n) <= 255
      ensures ok ==> Emitted(n, old(captureCount), back, old(byteCode))
      decreases n, 1
    {
      CanEmitLen(n, captureCount, back, |byteCode|);
      ok := true;
      hide Bytes, AllValid, Asm, Len, CanEmit, Code, Enc, Valid, Emitted, ValidNode;
      match n {
        case Empty => EmitNothing(back);
        case Group(b) => ok := EmitGroup(b, back);
        case Look(negated, behind, b) => ok := EmitLook(b, negated, behind, back);
        case Quant(b, min, max, greedy) => ok := EmitQuant(b, min, max, greedy, back);
        case Cat(a, b) => ok := EmitCat(a, b, back);
        case Alt(a, b) => ok := EmitAlt(a, b, back);
        case _ => EmitLeaf(n, back);
      }
    }

    method EmitNothing(back: bool)
      requires 1 <= captureCount <= 255
      ensures Emitted(Empty, captureCount, back, byteCode)
    {
      EmptyCode(captureCount, back);
    }

    method EmitLeaf(n: Node, back: bool)
      requires ValidNode(n) && 1 <= captureCount <= 255 && Len(Asm(n, captureCount, back)) < MAX_LEN
      requires IsCharNode(n) || n.LineStart? || n.LineEnd? || n.WordBoundary? || n.BackRef?
      modifies this`byteCode
      ensures Emitted(n, captureCount, back, old(byteCode))
    {
      LeafCode(n, captureCount, back);
      hide Code, Bytes, Asm, AllValid;
      if IsCharNode(n) {
        EmitChar(n, back);
      } else if n.LineStart? {
        EmitOp(6);
      } else if n.LineEnd? {
        EmitOp(7);
      } else if n.WordBoundary? {
        EmitOp(if n.negated then 19 else 18);
      } else {
        EmitOpU8(if back then 21 else 20, n.i);
      }
    }

    method EmitGroup(b: Node, back: bool) returns (ok: bool)
      requires CanEmit(Group(b), captureCount, back, |byteCode|)
      modifies this
      ensures ok <==> old(captureCount) + Caps(Group(b)) <= 255
      ensures ok ==> Emitted(Group(b), old(captureCount), back, old(byteCode))
      decreases Group(b), 0
    {
      hide Peak, Asm, Len, Bytes, AllValid, ValidNode, Code, Emitted, Caps, CanEmit;
      GroupCan(b, captureCount, back, |byteCode|);
      CanEmitLen(Group(b), captureCount, back, |byteCode|);
      if captureCount >= 255 {
        return false;
      }
      ghost var start, k := byteCode, captureCount;
      var captureIndex := captureCount;
      captureCount := captureCount + 1;
      EmitOpU8(if back then 13 else 12, captureIndex);
      ghost var mid := byteCode;
      ok := EmitNode(b, back);
      if ok {
        UseEmitted(b, k + 1, back, mid);
        EmitOpU8(if back then 12 else 13, captureIndex);
        GroupAssemble(byteCode, start, b, k, back);
        MakeEmitted(Group(b), k, back, start);
      }
    }

    method EmitLook(b: Node, negated: bool, behind: bool, back: bool) returns (ok: bool)
      requires CanEmit(Look(negated, behind, b), captureCount, back, |byteCode|)
      modifies this
      ensures ok <==> old(captureCount) + Caps(Look(negated, behind, b)) <= 255
      ensures ok ==> Emitted(Look(negated, behind, b), old(captureCount), back, old(byteCode))
      decreases Look(negated, behind, b), 0
    {
      hide Peak, Asm, Len, Bytes, AllValid, ValidNode, Code, PutU32, Patched, Emitted, Caps, CanEmit;
      LookCan(b, negated, behind, captureCount, back, |byteCode|);
      CanEmitLen(Look(negated, behind, b), captureCount, back, |byteCode|);
      ghost var start, k := byteCode, captureCount;
      var pos := EmitOpU32(if negated then 25 else 24, 0);
      ghost var mid := byteCode;
      ok := EmitNode(b, behind);
      if ok {
        UseEmitted(b, k, behind, mid);
        EmitOp(11);
        LookCode(b, negated, behind, k, back);
        PatchLook(pos, start, if negated then 25 else 24, Code(b, k, behind));
        MakeEmitted(Look(negated, behind, b), k, back, start);
      }
    }

    /** Fills in the jump behind the look-around's `match`. */
    method PatchLook(pos: nat, ghost p: seq<byte>, ghost op: byte, ghost f: seq<byte>)
      requires byteCode == p + ([op] + PutU32(0)) + f + [11] && pos == |p| + 1 && |byteCode| < TOP
      modifies this`byteCode
      ensures byteCode == p + ([op] + PutU32(|f| + 1) + f + [11])
    {
      hide PutU32, Patched;
      var len := |byteCode| - (pos + 4);
      LookFlat(p, [op], PutU32(0), f, [11]);
      PatchOver(p + [op], PutU32(0), f + [11], PutU32(len));
      Put(pos, PutU32(len));
      LookFlat(p, [op], PutU32(|f| + 1), f, [11]);
    }

    method EmitCat(a: Node, b: Node, back: bool) returns (ok: bool)
      requires CanEmit(Cat(a, b), captureCount, back, |byteCode|)
      modifies this
      ensures ok <==> old(captureCount) + Caps(Cat(a, b)) <= 255
      ensures ok ==> Emitted(Cat(a, b), old(captureCount), back, old(byteCode))
      decreases Cat(a, b), 0
    {
      hide Peak, Asm, Len, Bytes, AllValid, ValidNode, Code, Emitted, Caps, CanEmit;
      CatCan(a, b, captureCount, back, |byteCode|);
      CanEmitLen(Cat(a, b), captureCount, back, |byteCode|);
      ghost var before, k := byteCode, captureCount;
      var start := |byteCode|;
      ok := EmitNode(a, back);
      if !ok {
        return;
      }
      UseEmitted(a, k, back, before);
      ghost var mid := byteCode;
      var termStart := |byteCode|;
      ok := EmitNode(b, back);
      if !ok {
        return;
      }
      UseEmitted(b, k + Caps(a), back, mid);
      ghost var f, g := Code(a, k, back), Code(b, k + Caps(a), back);
      CatCode(Cat(a, b), a, b, k, back);
      if back {
        MoveLast(start, termStart, before, f, g);
      } else {
        Assoc(before, f, g);
      }
      MakeEmitted(Cat(a, b), k, back, before);
    }

    /** Moves the bytes from `termStart` on in front of those from `start` on, through the room behind the end. */
    method MoveLast(start: nat, termStart: nat, ghost p: seq<byte>, ghost f: seq<byte>, ghost g: seq<byte>)
      requires byteCode == p + f + g && start == |p| && termStart == |p| + |f|
      modifies this`byteCode
      ensures byteCode == p + (g + f)
    {
      var end := |byteCode|;
      var termSize := end - termStart;
      var room := byteCode[..start + termSize] + byteCode[start..end];
      byteCode := (room[..start] + room[end..end + termSize] + room[start + termSize..])[..end];
      Rotated(p, f, g, room);
    }

    method EmitAlt(a: Node, b: Node, back: bool) returns (ok: bool)
      requires CanEmit(Alt(a, b), captureCount, back, |byteCode|)
      modifies this
      ensures ok <==> old(captureCount) + Caps(Alt(a, b)) <= 255
      ensures ok ==> Emitted(Alt(a, b), old(captureCount), back, old(byteCode))
      decreases Alt(a, b), 0
    {
      hide Peak, Asm, Len, Bytes, AllValid, ValidNode, Code, PutU32, Patched, Emitted, Caps, CanEmit;
      AltCan(a, b, captureCount, back, |byteCode|);
      CanEmitLen(a, captureCount, back, |byteCode|);
      CanEmitLen(Alt(a, b), captureCount, back, |byteCode|);
      ghost var before, k := byteCode, captureCount;
      var start := |byteCode|;
      ok := EmitNode(a, back);
      if !ok {
        return;
      }
      UseEmitted(a, k, back, before);
      ghost var f := Code(a, k, back);
      InsertSplit(start, before, f);
      var pos := EmitOpU32(8, 0);
      ghost var mid := byteCode;
      ok := EmitNode(b, back);
      if !ok {
        return;
      }
      UseEmitted(b, k + Caps(a), back, mid);
      AltCode(Alt(a, b), a, b, k, back);
      PatchJump(pos, before, [10] + PutU32(|f| + 5) + f, Code(b, k + Caps(a), back));
      MakeEmitted(Alt(a, b), k, back, before);
    }

    /** The split before the first alternative, which is shifted up for it. */
    method InsertSplit(start: nat, ghost p: seq<byte>, ghost f: seq<byte>)
      requires byteCode == p + f && start == |p| && |byteCode| < MAX_LEN
      modifies this`byteCode
      ensures byteCode == p + ([10] + PutU32(|f| + 5) + f)
    {
      hide PutU32;
      var len := |byteCode| - start;
      hide Filling;
      DbufInsert(start, 5, p, f);
      Fill(start, [10], p, [], 5, f);
      Fill(start + 1, PutU32(len + 5), p, [] + [10], 4, f);
      assert [] + [10] == [10];
      Filled(p, [10] + PutU32(len + 5), f);
      Assoc(p, [10] + PutU32(|f| + 5), f);
    }

    /** Fills in the jump over the second alternative. */
    method PatchJump(pos: nat, ghost p: seq<byte>, ghost head: seq<byte>, ghost g: seq<byte>)
      requires byteCode == p + head + ([8] + PutU32(0)) + g && pos == |p| + |head| + 1 && |byteCode| < TOP
      modifies this`byteCode
      ensures byteCode == p + (head + [8] + PutU32(|g|) + g)
    {
      hide PutU32, Patched;
      var len := |byteCode| - (pos + 4);
      Assoc(p + head, [8], PutU32(0));
      PatchOver(p + head + [8], PutU32(0), g, PutU32(len));
      Put(pos, PutU32(len));
      Assoc(p + head, [8], PutU32(len));
      AltFlat(p, head, [8], PutU32(|g|), g);
    }

    method EmitQuant(b: Node, min: nat, max: nat, greedy: bool, back: bool) returns (ok: bool)
      requires CanEmit(Quant(b, min, max, greedy), captureCount, back, |byteCode|)
      modifies this
      ensures ok <==> old(captureCount) + Caps(Quant(b, min, max, greedy)) <= 255
      ensures ok ==> Emitted(Quant(b, min, max, greedy), old(captureCount), back, old(byteCode))
      decreases Quant(b, min, max, greedy), 0
    {
      hide Peak, Asm, Len, Bytes, AllValid, ValidNode, Code, QuantCode, Emitted, Caps, CanEmit;
      ghost var p, k := byteCode, captureCount;
      var lastAtomStart, lastCaptureCount := |byteCode|, captureCount;
      QuantCan(b, min, max, greedy, k, back, |p|);
      CanEmitLen(b, k, back, |p|);
      CanEmitLen(Quant(b, min, max, greedy), k, back, |p|);
      ok := EmitNode(b, back);
      if ok {
        UseEmitted(b, k, back, p);
        QuantAsm(b, min, max, greedy, k, back);
        CodeBytes(b, k, back);
        CodeBytes(Quant(b, min, max, greedy), k, back);
        EmitQuantifier(lastAtomStart, lastCaptureCount, min, max, greedy, p, Asm(b, k, back));
        MakeEmitted(Quant(b, min, max, greedy), k, back, p);
      }
    }

    /** The end of re_parse_term: the atom's code `f` stands behind `p` and is turned into that of the quantified atom. */
    method EmitQuantifier(atomStart: nat, lastCaptureCount: nat, min: nat, max: nat, greedy: bool,
                          ghost p: seq<byte>, ghost f: seq<Instr>)
      requires AllValid(f) && byteCode == p + Bytes(f) && |p| == atomStart && |byteCode| < MAX_LEN
      requires min <= max <= INFINITE && lastCaptureCount <= captureCount <= 255
      requires var q := QuantCode(f, min, max, greedy, Reset(lastCaptureCount, captureCount - lastCaptureCount));
               AllValid(q) && |p| + Len(q) < MAX_LEN
      modifies this`byteCode
      ensures byteCode == p + Bytes(QuantCode(f, min, max, greedy, Reset(lastCaptureCount, captureCount - lastCaptureCount)))
    {
      hide Bytes, AllValid, Len, NeedCheckAdvance, SimpleCount, Tail, Times, Star, UpTo, Checked, Split;
      var lastAtomStart := atomStart;
      assert byteCode[lastAtomStart..] == Bytes(f);
      if greedy {
        if max > 0 {
          var len := SimpleCountScan(byteCode[lastAtomStart..], f);
          if len > 0 {
            CountAtMostLen(f);
            EmitSimple(lastAtomStart, min, max, len, p, f);
            return;
          }
        }
      }
      var addZeroAdvanceCheck := NeedCheckAdvanceScan(byteCode[lastAtomStart..], f);
      var len := |byteCode| - lastAtomStart;
      if min == 0 {
        EmitFromZero(lastAtomStart, len, lastCaptureCount, max, greedy, addZeroAdvanceCheck, p, f);
      } else if min == 1 && max == INFINITE && !addZeroAdvanceCheck {
        PlusBytes(f, greedy);
        EmitGoto(if greedy then 9 else 10, lastAtomStart);
        Assoc(p, Bytes(f), Enc(Again(greedy, -(Len(f) + 5))));
      } else {
        EmitFromMin(lastAtomStart, len, min, max, greedy, addZeroAdvanceCheck, p, f);
      }
    }

    method EmitFromZero(start: nat, len: nat, lastCaptureCount: nat, max: nat, greedy: bool, check: bool,
                        ghost p: seq<byte>, ghost f: seq<Instr>)
      requires AllValid(f) && byteCode == p + Bytes(f) && |p| == start && len == Len(f) && |byteCode| < MAX_LEN
      requires max <= INFINITE && lastCaptureCount <= captureCount <= 255
      requires AllValid(Reset(lastCaptureCount, captureCount - lastCaptureCount)
                        + FromZero(Checked(f, check), greedy, max))
      modifies this`byteCode
      ensures byteCode == p + Bytes(Reset(lastCaptureCount, captureCount - lastCaptureCount)
                                    + FromZero(Checked(f, check), greedy, max))
    {
      hide Bytes, AllValid, Len, Tail, Star, UpTo, Checked, Split, Reset;
      var lastAtomStart := start;
      ghost var g := Checked(f, check);
      ghost var reset := Reset(lastCaptureCount, captureCount - lastCaptureCount);
      ghost var rest := FromZero(g, greedy, max);
      FrontBytes(reset, rest);
      ResetLen(lastCaptureCount, captureCount - lastCaptureCount);
      if lastCaptureCount != captureCount {
        EmitReset(lastAtomStart, lastCaptureCount, captureCount - 1, p, Bytes(f));
        ResetSome(lastCaptureCount, captureCount - lastCaptureCount);
        lastAtomStart := lastAtomStart + 3;
      } else {
        ResetNone(lastCaptureCount);
        assert p + [] == p;
      }
      ghost var p' := p + Bytes(reset);
      if max == 0 {
        byteCode := byteCode[..lastAtomStart];
        TailNone(g, greedy);
      } else if max == 1 || max == INFINITE {
        EmitOptional(lastAtomStart, len, greedy, check, max == INFINITE, p', f);
        TailStar(g, greedy);
      } else {
        EmitUpTo(lastAtomStart, len, greedy, check, max, p', f);
        TailUpTo(g, greedy, max);
      }
      Assoc(p, Bytes(reset), Bytes(rest));
    }

    method EmitFromMin(start: nat, len: nat, min: nat, max: nat, greedy: bool, check: bool,
                       ghost p: seq<byte>, ghost f: seq<Instr>)
      requires AllValid(f) && byteCode == p + Bytes(f) && |p| == start && len == Len(f) && |byteCode| < MAX_LEN
      requires 0 < min <= max <= INFINITE
      requires var q := (if min == 1 then f else Times(f, min)) + Tail(Checked(f, check), greedy, Minus(max, min));
               AllValid(q) && |p| + Len(q) < MAX_LEN
      modifies this`byteCode
      ensures byteCode
           == p + Bytes((if min == 1 then f else Times(f, min)) + Tail(Checked(f, check), greedy, Minus(max, min)))
    {
      hide Bytes, AllValid, Len, Tail, Times, Star, UpTo, Checked, Split;
      var lastAtomStart := start;
      ghost var g := Checked(f, check);
      ghost var head, tail := if min == 1 then f else Times(f, min), Tail(g, greedy, Minus(max, min));
      FrontBytes(head, tail);
      CheckedBytes(f, check);
      TailLenIs(g, greedy, Minus(max, min));
      if min > 1 {
        EmitTimes(lastAtomStart, min, p, f);
        lastAtomStart := lastAtomStart + 5;
      }
      TimesBytesAt(f, min, p);
      if max == INFINITE {
        EmitStarCopy(lastAtomStart, len, greedy, check, f);
        TailStar(g, greedy);
      } else if max > min {
        EmitUpToCopy(lastAtomStart, len, greedy, check, max - min, f);
        TailUpTo(g, greedy, max - min);
      } else {
        TailNone(g, greedy);
      }
      Assoc(p, Bytes(head), Bytes(tail));
    }

    method EmitSimple(start: nat, min: nat, max: nat, count: nat, ghost p: seq<byte>, ghost f: seq<Instr>)
      requires AllValid(f) && byteCode == p + Bytes(f) && |p| == start && |byteCode| < MAX_LEN
      requires min <= max <= INFINITE && count <= Len(f)
      modifies this`byteCode
      ensures AllValid([SimpleGreedyQuant(Len(f) + 1, min, max, count)] + f + [Match])
      ensures byteCode == p + Bytes([SimpleGreedyQuant(Len(f) + 1, min, max, count)] + f + [Match])
    {
      hide Bytes, AllValid, Len, PutU32;
      ghost var i := SimpleGreedyQuant(Len(f) + 1, min, max, count);
      SimpleBytes(f, min, max, count);
      ghost var rest := Bytes(f) + [11];
      EmitOp(11);
      Assoc(p, Bytes(f), [11]);
      DbufInsert(start, 17, p, rest);
      FillQuant(start, min, max, count, p, rest);
      assert byteCode == p + Enc(i) + rest;
    }

    method FillQuant(start: nat, min: nat, max: nat, count: nat, ghost p: seq<byte>, ghost rest: seq<byte>)
      requires Filling(p, [], 17, rest) && start == |p| && start + 17 <= |byteCode|
      requires IsU32(min) && IsU32(max) && IsU32(count) && IsU32(|rest|)
      modifies this`byteCode
      ensures byteCode == p + ([29] + PutU32(|rest|) + PutU32(min) + PutU32(max) + PutU32(count)) + rest
    {
      FillingSize(p, [], 17, rest);
      hide PutU32, Filling;
      var next := |byteCode| - start - 17;
      Fill(start, [29], p, [], 17, rest);
      Fill(start + 1, PutU32(next), p, [] + [29], 16, rest);
      Fill(start + 5, PutU32(min), p, [] + [29] + PutU32(next), 12, rest);
      Fill(start + 9, PutU32(max), p, [] + [29] + PutU32(next) + PutU32(min), 8, rest);
      Fill(start + 13, PutU32(count), p, [] + [29] + PutU32(next) + PutU32(min) + PutU32(max), 4, rest);
      assert [] + [29] == [29];
      Filled(p, [29] + PutU32(next) + PutU32(min) + PutU32(max) + PutU32(count), rest);
    }

    lemma FillingSize(p: seq<byte>, done: seq<byte>, left: nat, rest: seq<byte>)
      requires Filling(p, done, left, rest)
      ensures |byteCode| == |p| + |done| + left + |rest|
    {
    }

    method EmitReset(start: nat, first: nat, last: nat, ghost p: seq<byte>, ghost rest: seq<byte>)
      requires byteCode == p + rest && |p| == start && first <= last < 256
      modifies this`byteCode
      ensures AllValid([SaveReset(first, last)]) && byteCode == p + Bytes([SaveReset(first, last)]) + rest
    {
      BytesOne(SaveReset(first, last));
      hide Bytes, AllValid;
      hide Filling;
      DbufInsert(start, 3, p, rest);
      Fill(start, [14], p, [], 3, rest);
      Fill(start + 1, [first], p, [] + [14], 2, rest);
      Fill(start + 2, [last], p, [] + [14] + [first], 1, rest);
      assert Enc(SaveReset(first, last)) == [] + [14] + [first] + [last];
      Filled(p, Enc(SaveReset(first, last)), rest);
    }

    /** `?` and `*`: a split in front of the atom and, for `*`, a jump back behind it. */
    method EmitOptional(start: nat, len: nat, greedy: bool, check: bool, hasGoto: bool, ghost p: seq<byte>, ghost f: seq<Instr>)
      requires AllValid(f) && byteCode == p + Bytes(f) && |p| == start && len == Len(f)
      requires |byteCode| + 12 < TOP
      modifies this`byteCode
      ensures var g := Checked(f, check);
              var q := if hasGoto then Star(g, greedy) else [Split(greedy, Len(g))] + g;
              AllValid(q) && byteCode == p + Bytes(q)
    {
      hide Bytes, AllValid, Len, PutU32, Checked, Star;
      var extra := if check then 1 else 0;
      ghost var g, fs := Checked(f, check), Bytes(f);
      CheckedBytes(f, check);
      var off := len + (if hasGoto then 5 else 0) + 2 * extra;
      FillSplit(start, greedy, off, check, [], p, fs);
      ghost var head: seq<byte> := [SplitOp(greedy)] + PutU32(off);
      assert [] + head == head;
      if hasGoto {
        StarBytes(g, greedy);
        EmitGoto(8, start);
        Assoc(p, head + Bytes(g), Enc(Goto(-(Len(g) + 10))));
      } else {
        SkipBytes(g, greedy);
      }
    }

    /** The split in front of an optional atom, behind what is in place already, and the position check around the atom. */
    method FillSplit(start: nat, greedy: bool, off: nat, check: bool, head: seq<byte>, ghost p: seq<byte>, ghost fs: seq<byte>)
      requires byteCode == p + fs && start == |p| && IsU32(off)
      modifies this`byteCode
      ensures byteCode == p + (head + ([SplitOp(greedy)] + PutU32(off)) + (if check then [26] + fs + [27] else fs))
    {
      hide PutU32, Filling;
      var extra := if check then 1 else 0;
      var op: byte := if greedy then 10 else 9;
      DbufInsert(start, |head| + 5 + extra, p, fs);
      Fill(start, head, p, [], |head| + 5 + extra, fs);
      assert [] + head == head;
      Fill(start + |head|, [op], p, head, 5 + extra, fs);
      Fill(start + |head| + 1, PutU32(off), p, head + [op], 4 + extra, fs);
      Assoc(head, [op], PutU32(off));
      ghost var done := head + ([op] + PutU32(off));
      if check {
        Fill(start + |head| + 5, [26], p, done, 1, fs);
        Filled(p, done + [26], fs);
        EmitOp(27);
        CheckFlat(p, done, fs);
      } else {
        Filled(p, done, fs);
        Assoc(p, done, fs);
      }
    }

    /** `{0,max}`: a counter and a split in front of the atom, a counting jump behind it. */
    method EmitUpTo(start: nat, len: nat, greedy: bool, check: bool, max: nat, ghost p: seq<byte>, ghost f: seq<Instr>)
      requires AllValid(f) && byteCode == p + Bytes(f) && |p| == start && len == Len(f) && max < INFINITE
      requires |byteCode| + 18 < TOP
      modifies this`byteCode
      ensures var q := UpTo(Checked(f, check), greedy, max);
              AllValid(q) && byteCode == p + Bytes(q)
    {
      hide Bytes, AllValid, Len, PutU32, Checked, UpTo;
      var extra := if check then 1 else 0;
      ghost var g, fs := Checked(f, check), Bytes(f);
      CheckedBytes(f, check);
      var off := len + 5 + 2 * extra;
      FillSplit(start, greedy, off, check, [16] + PutU32(max), p, fs);
      ghost var head: seq<byte> := [16] + PutU32(max) + ([SplitOp(greedy)] + PutU32(off));
      Assoc([16] + PutU32(max), [SplitOp(greedy)], PutU32(off));
      UpToBytes(g, greedy, max);
      ghost var j := Enc(ReCode.Loop(-(Len(g) + 10)));
      EmitGoto(15, start + 5);
      Assoc(p, head + Bytes(g), j);
      EmitOp(17);
      Assoc(p, head + Bytes(g) + j, [17]);
    }

    /** The required iterations: a counter in front of the atom, a counting jump behind it. */
    method EmitTimes(start: nat, min: nat, ghost p: seq<byte>, ghost f: seq<Instr>)
      requires AllValid(f) && byteCode == p + Bytes(f) && |p| == start && min <= INFINITE && |byteCode| + 11 < TOP
      modifies this`byteCode
      ensures AllValid(Times(f, min)) && byteCode == p + Bytes(Times(f, min))
    {
      hide Bytes, AllValid, Len, PutU32, Times;
      ghost var fs := Bytes(f);
      hide Filling;
      DbufInsert(start, 5, p, fs);
      Fill(start, [16], p, [], 5, fs);
      Fill(start + 1, PutU32(min), p, [] + [16], 4, fs);
      assert [] + [16] == [16];
      Filled(p, [16] + PutU32(min), fs);
      TimesBytes(f, min);
      EmitGoto(15, start + 5);
      EmitOp(17);
      assert byteCode == p + ([16] + PutU32(min) + fs + Enc(ReCode.Loop(-(Len(f) + 5))) + [17]);
    }

    /** Copies bytes of the buffer to its end. */
    method PutSelf(offset: nat, len: nat)
      requires offset + len <= |byteCode|
      modifies this`byteCode
      ensures byteCode == old(byteCode) + old(byteCode)[offset..offset + len]
    {
      byteCode := byteCode + byteCode[offset..offset + len];
    }

    method EmitCopy(atom: nat, len: nat, check: bool, ghost f: seq<Instr>)
      requires AllValid(f) && atom + len <= |byteCode| && byteCode[atom..atom + len] == Bytes(f)
      modifies this`byteCode
      ensures AllValid(Checked(f, check)) && byteCode == old(byteCode) + Bytes(Checked(f, check))
    {
      hide Bytes, AllValid, Checked;
      CheckedBytes(f, check);
      if check {
        EmitOp(26);
      }
      PutSelf(atom, len);
      if check {
        EmitOp(27);
      }
    }

    method EmitStarCopy(atom: nat, len: nat, greedy: bool, check: bool, ghost f: seq<Instr>)
      requires AllValid(f) && atom + len <= |byteCode| && byteCode[atom..atom + len] == Bytes(f) && len == Len(f)
      requires |byteCode| + len + 12 < TOP
      modifies this`byteCode
      ensures AllValid(Star(Checked(f, check), greedy))
      ensures byteCode == old(byteCode) + Bytes(Star(Checked(f, check), greedy))
    {
      hide Bytes, AllValid, Len, PutU32, Checked, Star;
      ghost var before, g := byteCode, Checked(f, check);
      CheckedBytes(f, check);
      var pos := |byteCode|;
      var _ := EmitOpU32(if greedy then 10 else 9, len + 5 + (if check then 2 else 0));
      assert byteCode[atom..atom + len] == before[atom..atom + len];
      EmitCopy(atom, len, check, f);
      StarBytes(g, greedy);
      EmitGoto(8, pos);
      assert byteCode == before + ([if greedy then 10 else 9] + PutU32(Len(g) + 5) + Bytes(g) + Enc(Goto(-(Len(g) + 10))));
    }

    method EmitUpToCopy(atom: nat, len: nat, greedy: bool, check: bool, max: nat, ghost f: seq<Instr>)
      requires AllValid(f) && atom + len <= |byteCode| && byteCode[atom..atom + len] == Bytes(f) && len == Len(f)
      requires |byteCode| + len + 18 < TOP && max < INFINITE
      modifies this`byteCode
      ensures AllValid(UpTo(Checked(f, check), greedy, max))
      ensures byteCode == old(byteCode) + Bytes(UpTo(Checked(f, check), greedy, max))
    {
      hide Bytes, AllValid, Len, PutU32, Checked, UpTo;
      ghost var before, g := byteCode, Checked(f, check);
      CheckedBytes(f, check);
      var _ := EmitOpU32(16, max);
      var pos := |byteCode|;
      var _ := EmitOpU32(if greedy then 10 else 9, len + 5 + (if check then 2 else 0));
      assert byteCode[atom..atom + len] == before[atom..atom + len];
      EmitCopy(atom, len, check, f);
      UpToBytes(g, greedy, max);
      EmitGoto(15, pos);
      EmitOp(17);
      UpToFlat(before, [16], PutU32(max), [SplitOp(greedy)], PutU32(Len(g) + 5), Bytes(g), Enc(ReCode.Loop(-(Len(g) + 10))),
               [17]);
    }
  }

  lemma BoundsPair(points: seq<int>, wide: bool, j: nat)
    requires ValidPoints(points) && j + 1 < |points| && j % 2 == 0
    ensures 0 <= points[j] < points[j + 1] <= UINT32_MAX && |Bounds(points, wide)| == |points|
    ensures Bounds(points, wide)[j] == points[j]
    ensures Bounds(points, wide)[j + 1] == if !wide && points[j + 1] == UINT32_MAX then 0xffff else points[j + 1] - 1
  {
    ReRange.BoundsAt(points, wide, j / 2);
  }

  lemma CharBytes(i: Instr)
    requires Valid(i)
    ensures AllValid(Backward(true, i)) && Bytes(Backward(true, i)) == [28] + Enc(i) + [28]
    ensures AllValid(Backward(false, i)) && Bytes(Backward(false, i)) == Enc(i)
  {
    BytesOne(i);
    Bytes3(Prev, [i], Prev);
    assert [Prev] + [i] + [Prev] == [Prev, i, Prev];
    assert Enc(Prev) == [28];
  }

  lemma {:induction false} List16Append(vs: seq<int>, ws: seq<int>)
    requires forall k :: 0 <= k < |vs| ==> 0 <= vs[k] < U16
    requires forall k :: 0 <= k < |ws| ==> 0 <= ws[k] < U16
    ensures PutList16(vs + ws) == PutList16(vs) + PutList16(ws)
  {
    if vs == [] {
      assert vs + ws == ws;
    } else {
      assert (vs + ws)[1..] == vs[1..] + ws;
      List16Append(vs[1..], ws);
    }
  }

  lemma {:induction false} List32Append(vs: seq<int>, ws: seq<int>)
    requires forall k :: 0 <= k < |vs| ==> IsU32(vs[k])
    requires forall k :: 0 <= k < |ws| ==> IsU32(ws[k])
    ensures PutList32(vs + ws) == PutList32(vs) + PutList32(ws)
  {
    if vs == [] {
      assert vs + ws == ws;
    } else {
      assert (vs + ws)[1..] == vs[1..] + ws;
      List32Append(vs[1..], ws);
    }
  }

  lemma PairFlat(p: seq<byte>, a: seq<byte>, b: seq<byte>, c: seq<byte>)
    ensures p + a + b + c == p + (a + b + c)
  {
  }

  lemma List16Pair(p: seq<byte>, bs: seq<int>, j: nat)
    requires j + 1 < |bs| && forall k :: 0 <= k < |bs| ==> 0 <= bs[k] < U16
    ensures p + PutList16(bs[..j]) + PutU16(bs[j]) + PutU16(bs[j + 1]) == p + PutList16(bs[..j + 2])
  {
    hide PutU16, PutList16;
    List16Snoc(bs, j);
    List16Snoc(bs, j + 1);
    PairFlat(p, PutList16(bs[..j]), PutU16(bs[j]), PutU16(bs[j + 1]));
  }

  lemma List16Snoc(bs: seq<int>, j: nat)
    requires j < |bs| && forall k :: 0 <= k < |bs| ==> 0 <= bs[k] < U16
    ensures PutList16(bs[..j + 1]) == PutList16(bs[..j]) + PutU16(bs[j])
  {
    assert bs[..j + 1] == bs[..j] + [bs[j]];
    List16Append(bs[..j], [bs[j]]);
    assert [bs[j]][1..] == [];
  }

  lemma List32Pair(p: seq<byte>, bs: seq<int>, j: nat)
    requires j + 1 < |bs| && forall k :: 0 <= k < |bs| ==> IsU32(bs[k])
    ensures p + PutList32(bs[..j]) + PutU32(bs[j]) + PutU32(bs[j + 1]) == p + PutList32(bs[..j + 2])
  {
    hide PutU32, PutList32;
    List32Snoc(bs, j);
    List32Snoc(bs, j + 1);
    PairFlat(p, PutList32(bs[..j]), PutU32(bs[j]), PutU32(bs[j + 1]));
  }

  lemma List32Snoc(bs: seq<int>, j: nat)
    requires j < |bs| && forall k :: 0 <= k < |bs| ==> IsU32(bs[k])
    ensures PutList32(bs[..j + 1]) == PutList32(bs[..j]) + PutU32(bs[j])
  {
    assert bs[..j + 1] == bs[..j] + [bs[j]];
    List32Append(bs[..j], [bs[j]]);
    assert [bs[j]][1..] == [];
  }

  // ---- the code of each construct as bytes ----

  lemma EmptyCode(k: nat, back: bool)
    requires k <= 255
    ensures Len(Asm(Empty, k, back)) == 0 && Code(Empty, k, back) == []
  {
  }

  lemma LeafCode(n: Node, k: nat, back: bool)
    requires ValidNode(n) && k <= 255 && Len(Asm(n, k, back)) < MAX_LEN
    requires IsCharNode(n) || n.LineStart? || n.LineEnd? || n.WordBoundary? || n.BackRef?
    ensures IsCharNode(n) ==>
      AllValid(Backward(back, CharNodeInstr(n))) && Code(n, k, back) == Bytes(Backward(back, CharNodeInstr(n)))
    ensures n.LineStart? ==> Code(n, k, back) == [6]
    ensures n.LineEnd? ==> Code(n, k, back) == [7]
    ensures n.WordBoundary? ==> Code(n, k, back) == [if n.negated then 19 else 18]
    ensures n.BackRef? ==> Code(n, k, back) == [if back then 21 else 20, n.i]
  {
    AsmValid(n, k, back);
    if !IsCharNode(n) {
      var i := Asm(n, k, back)[0];
      assert Asm(n, k, back) == [i];
      BytesOne(i);
    }
  }

  lemma GroupCode(b: Node, k: nat, back: bool)
    requires ValidNode(b) && k + 1 + Caps(b) <= 255 && Len(Asm(Group(b), k, back)) < MAX_LEN
    ensures Len(Asm(b, k + 1, back)) < MAX_LEN
    ensures Code(Group(b), k, back)
         == [if back then 13 else 12, k] + Code(b, k + 1, back) + [if back then 12 else 13, k]
  {
    hide Bytes, AllValid, Len, ValidNode, Enc, Valid;
    var i, f, j := Save(k, back), Asm(b, k + 1, back), Save(k, !back);
    GroupAsm(b, k, back);
    hide Asm;
    LenThree(i, f, j);
    AsmValid(b, k + 1, back);
    SaveEnc(k, true);
    SaveEnc(k, false);
    Bytes3(i, f, j);
  }

  lemma GroupAsm(b: Node, k: nat, back: bool)
    ensures Asm(Group(b), k, back) == [Save(k, back)] + Asm(b, k + 1, back) + [Save(k, !back)]
  {
  }

  lemma SaveEnc(k: nat, end: bool)
    requires k < 256
    ensures Valid(Save(k, end)) && Enc(Save(k, end)) == [if end then 13 else 12, k]
  {
  }

  lemma GroupAssemble(bc: seq<byte>, start: seq<byte>, b: Node, k: nat, back: bool)
    requires ValidNode(b) && k + 1 + Caps(b) <= 255 && Len(Asm(Group(b), k, back)) < MAX_LEN && Len(Asm(b, k + 1, back)) < MAX_LEN
    requires bc == start + [if back then 13 else 12, k] + Code(b, k + 1, back) + [if back then 12 else 13, k]
    ensures ValidNode(Group(b)) && Caps(Group(b)) == 1 + Caps(b) && bc == start + Code(Group(b), k, back)
  {
    hide Asm, Len, Code;
    var f, i, j: seq<byte> := Code(b, k + 1, back), [if back then 13 else 12, k], [if back then 12 else 13, k];
    GroupCode(b, k, back);
    Assoc(start, i, f);
    Assoc(start, i + f, j);
  }

  lemma LookCode(b: Node, negated: bool, behind: bool, k: nat, back: bool)
    requires ValidNode(b) && k + Caps(b) <= 255 && Len(Asm(Look(negated, behind, b), k, back)) < MAX_LEN
    ensures Len(Asm(b, k, behind)) < MAX_LEN
    ensures Code(Look(negated, behind, b), k, back)
         == [if negated then 25 else 24] + PutU32(|Code(b, k, behind)| + 1) + Code(b, k, behind) + [11]
  {
    hide PutU32, Bytes, AllValid, Len, ValidNode, Enc, Valid;
    var f := Asm(b, k, behind);
    var i := LookInstr(negated, Len(f) + 1);
    LookAsm(b, negated, behind, k, back);
    hide Asm;
    LenThree(i, f, Match);
    AsmValid(b, k, behind);
    LookEnc(negated, Len(f) + 1);
    Bytes3(i, f, Match);
  }

  lemma LookEnc(negated: bool, off: nat)
    requires off < 0x8000_0000
    ensures Valid(LookInstr(negated, off)) && Enc(LookInstr(negated, off)) == [if negated then 25 else 24] + PutU32(off)
    ensures Valid(Match) && Enc(Match) == [11]
  {
  }

  lemma CatCode(n: Node, a: Node, b: Node, k: nat, back: bool)
    requires n == Cat(a, b) && HasCode(n, k, back) && HasCode(a, k, back) && HasCode(b, k + Caps(a), back)
    ensures Code(n, k, back) == if back then Code(b, k + Caps(a), back) + Code(a, k, back)
                                        else Code(a, k, back) + Code(b, k + Caps(a), back)
  {
    hide Bytes, AllValid, Len, ValidNode, Enc, Valid, Caps;
    var f, g := Asm(a, k, back), Asm(b, k + Caps(a), back);
    CatAsm(a, b, k, back);
    hide Asm;
    LenConcat(f, g);
    LenConcat(g, f);
    AsmValid(a, k, back);
    AsmValid(b, k + Caps(a), back);
    BytesConcat(f, g);
    BytesConcat(g, f);
  }

  /** Moving the last `|g|` bytes in front of the `|f|` bytes before them. */
  lemma Rotated(p: seq<byte>, f: seq<byte>, g: seq<byte>, room: seq<byte>)
    requires room == (p + f + g)[..|p| + |g|] + (p + f + g)[|p|..]
    ensures var end := |p| + |f| + |g|;
            (room[..|p|] + room[end..end + |g|] + room[|p| + |g|..])[..end] == p + (g + f)
  {
    var end := |p| + |f| + |g|;
    assert (p + f + g)[|p|..] == f + g;
    assert room[..|p|] == p;
    assert room[|p| + |g|..] == f + g;
    assert room[end..end + |g|] == (f + g)[|f|..] == g;
    assert p + g + (f + g) == p + (g + f) + g;
  }

  lemma AltCode(n: Node, a: Node, b: Node, k: nat, back: bool)
    requires n == Alt(a, b) && HasCode(n, k, back) && HasCode(a, k, back) && HasCode(b, k + Caps(a), back)
    ensures var f, g := Code(a, k, back), Code(b, k + Caps(a), back);
            Code(n, k, back) == [10] + PutU32(|f| + 5) + f + [8] + PutU32(|g|) + g
  {
    hide PutU32, Bytes, AllValid, Len, ValidNode, Enc, Valid, Asm, Code, HasCode, Caps;
    var f, g := Asm(a, k, back), Asm(b, k + Caps(a), back);
    AltAsm(a, b, k, back);
    CodeBytes(n, k, back);
    CodeBytes(a, k, back);
    CodeBytes(b, k + Caps(a), back);
    var i, j := SplitNextFirst(Len(f) + 5), Goto(Len(g));
    SplitEnc(true, Len(f) + 5);
    JumpEnc(Len(g));
    GotoValid(Len(g));
    Bytes3(i, f, j);
    BytesConcat([i] + f + [j], g);
    Regroup([10] + PutU32(Len(f) + 5) + Bytes(f), [8], PutU32(Len(g)), Bytes(g));
  }

  lemma Regroup(a: seq<byte>, b: seq<byte>, c: seq<byte>, d: seq<byte>)
    ensures a + (b + c) + d == a + b + c + d
  {
    assert a + (b + c) == a + b + c;
  }

  // ---- the code of loops as bytes ----

  lemma SimpleBytes(f: seq<Instr>, min: nat, max: nat, count: nat)
    requires AllValid(f) && Len(f) < MAX_LEN && min <= max <= INFINITE && count <= Len(f)
    ensures var i := SimpleGreedyQuant(Len(f) + 1, min, max, count);
            && AllValid([i] + f + [Match]) && Bytes([i] + f + [Match]) == Enc(i) + (Bytes(f) + [11])
            && Enc(i) == [29] + PutU32(Len(f) + 1) + PutU32(min) + PutU32(max) + PutU32(count)
  {
    hide PutU32, Bytes, AllValid, Len;
    var i := SimpleGreedyQuant(Len(f) + 1, min, max, count);
    Bytes3(i, f, Match);
    var a, b, c, d := PutU32(Len(f) + 1), PutU32(min), PutU32(max), PutU32(count);
    assert Enc(i) == [29] + (a + b + c + d) && Enc(Match) == [11];
    assert [29] + (a + b + c + d) == [29] + a + b + c + d;
  }

  lemma CheckedBytes(f: seq<Instr>, check: bool)
    requires AllValid(f)
    ensures AllValid(Checked(f, check)) && Len(Checked(f, check)) == Len(f) + (if check then 2 else 0)
    ensures Bytes(Checked(f, check)) == if check then [26] + Bytes(f) + [27] else Bytes(f)
  {
    hide Bytes, AllValid, Len;
    Bytes3(PushCharPos, f, CheckAdvance);
    LenThree(PushCharPos, f, CheckAdvance);
    assert Enc(PushCharPos) == [26] && Enc(CheckAdvance) == [27];
  }

  /** What is emitted behind the reset when there is no minimum. */
  function FromZero(g: seq<Instr>, greedy: bool, max: nat): seq<Instr> {
    if max == 1 then [Split(greedy, Len(g))] + g else Tail(g, greedy, max)
  }

  lemma CheckFlat(p: seq<byte>, head: seq<byte>, f: seq<byte>)
    ensures p + (head + [26]) + f + [27] == p + (head + ([26] + f + [27]))
  {
    assert p + (head + ([26] + f + [27])) == p + (head + [26]) + f + [27];
  }

  function SplitOp(greedy: bool): byte { if greedy then 10 else 9 }

  lemma SplitEnc(greedy: bool, off: nat)
    requires off < 0x8000_0000
    ensures Valid(Split(greedy, off)) && Enc(Split(greedy, off)) == [SplitOp(greedy)] + PutU32(off)
  {
  }

  lemma JumpEnc(off: int)
    requires IsS32(off)
    ensures Enc(Goto(off)) == [8] + PutU32(ToUnsigned(off))
    ensures Enc(ReCode.Loop(off)) == [15] + PutU32(ToUnsigned(off))
  {
  }

  lemma PushEnc(v: nat)
    requires v <= INFINITE
    ensures Valid(PushI32(v)) && Enc(PushI32(v)) == [16] + PutU32(v)
    ensures Enc(Drop) == [17]
  {
  }

  lemma StarBytes(g: seq<Instr>, greedy: bool)
    requires AllValid(g) && Len(g) + 10 < TOP
    ensures AllValid(Star(g, greedy)) && Enc(Goto(-(Len(g) + 10))) == [8] + PutU32(ToUnsigned(-(Len(g) + 10)))
    ensures Bytes(Star(g, greedy)) == [SplitOp(greedy)] + PutU32(Len(g) + 5) + Bytes(g) + Enc(Goto(-(Len(g) + 10)))
  {
    hide Bytes, AllValid, Len, PutU32, Enc, Valid;
    SplitEnc(greedy, Len(g) + 5);
    JumpEnc(-(Len(g) + 10));
    GotoValid(-(Len(g) + 10));
    Bytes3(Split(greedy, Len(g) + 5), g, Goto(-(Len(g) + 10)));
  }

  lemma GotoValid(off: int)
    requires IsS32(off)
    ensures Valid(Goto(off)) && Valid(ReCode.Loop(off)) && Valid(Drop)
  {
  }

  lemma SkipBytes(g: seq<Instr>, greedy: bool)
    requires AllValid(g) && Len(g) + 5 < TOP
    ensures AllValid([Split(greedy, Len(g))] + g)
    ensures Bytes([Split(greedy, Len(g))] + g) == [SplitOp(greedy)] + PutU32(Len(g)) + Bytes(g)
  {
    hide Bytes, AllValid, Len, PutU32, Enc, Valid;
    SplitEnc(greedy, Len(g));
    BytesOne(Split(greedy, Len(g)));
    BytesConcat([Split(greedy, Len(g))], g);
  }

  lemma UpToBytes(g: seq<Instr>, greedy: bool, max: nat)
    requires AllValid(g) && Len(g) + 16 < TOP && max < INFINITE
    ensures AllValid(UpTo(g, greedy, max))
    ensures Enc(ReCode.Loop(-(Len(g) + 10))) == [15] + PutU32(ToUnsigned(-(Len(g) + 10)))
    ensures Bytes(UpTo(g, greedy, max))
         == [16] + PutU32(max) + [SplitOp(greedy)] + PutU32(Len(g) + 5) + Bytes(g) + Enc(ReCode.Loop(-(Len(g) + 10))) + [17]
  {
    hide Bytes, AllValid, Len, PutU32, Enc, Valid;
    var push, i, j := PushI32(max), Split(greedy, Len(g) + 5), ReCode.Loop(-(Len(g) + 10));
    PushEnc(max);
    SplitEnc(greedy, Len(g) + 5);
    JumpEnc(-(Len(g) + 10));
    GotoValid(-(Len(g) + 10));
    Bytes3(i, g, j);
    Bytes3(push, [i] + g + [j], Drop);
    assert UpTo(g, greedy, max) == [push] + ([i] + g + [j]) + [Drop];
    Flat([16] + PutU32(max), [SplitOp(greedy)], PutU32(Len(g) + 5), Bytes(g), Enc(j), [17]);
  }

  lemma UpToFlat(p: seq<byte>, a: seq<byte>, x: seq<byte>, b: seq<byte>, y: seq<byte>, c: seq<byte>, d: seq<byte>, e: seq<byte>)
    ensures p + (a + x) + (b + y) + c + d + e == p + (a + x + b + y + c + d + e)
  {
    assert p + (a + x) + (b + y) == p + (a + x + b + y);
    assert p + (a + x + b + y) + c + d + e == p + (a + x + b + y + c + d + e);
  }

  lemma Flat(a: seq<byte>, b: seq<byte>, c: seq<byte>, d: seq<byte>, e: seq<byte>, f: seq<byte>)
    ensures a + (b + c + d + e) + f == a + b + c + d + e + f
  {
    assert a + (b + c + d + e) == a + b + c + d + e;
  }

  lemma TimesBytes(f: seq<Instr>, min: nat)
    requires AllValid(f) && Len(f) + 11 < TOP && min <= INFINITE
    ensures AllValid(Times(f, min))
    ensures Enc(ReCode.Loop(-(Len(f) + 5))) == [15] + PutU32(ToUnsigned(-(Len(f) + 5)))
    ensures Bytes(Times(f, min)) == [16] + PutU32(min) + Bytes(f) + Enc(ReCode.Loop(-(Len(f) + 5))) + [17]
  {
    hide Bytes, AllValid, Len, PutU32, Enc, Valid;
    var push, j := PushI32(min), ReCode.Loop(-(Len(f) + 5));
    PushEnc(min);
    JumpEnc(-(Len(f) + 5));
    GotoValid(-(Len(f) + 5));
    Bytes3(push, f, j);
    BytesOne(Drop);
    BytesConcat([push] + f + [j], [Drop]);
    assert Times(f, min) == ([push] + f + [j]) + [Drop];
  }

  /** The first copy of the atom stands at the start, or behind the counter. */
  lemma TimesBytesAt(f: seq<Instr>, min: nat, p: seq<byte>)
    requires AllValid(f) && Len(f) + 11 < TOP && 1 <= min <= INFINITE
    ensures AllValid(Times(f, min))
    ensures min == 1 ==> (p + Bytes(f))[|p|..|p| + Len(f)] == Bytes(f)
    ensures |p + Bytes(Times(f, min))| >= |p| + 5 + Len(f)
    ensures (p + Bytes(Times(f, min)))[|p| + 5..|p| + 5 + Len(f)] == Bytes(f)
  {
    hide Bytes, AllValid, Len, PutU32, Enc, Times;
    TimesBytes(f, min);
    Middle(p, [], Bytes(f), []);
    assert p + [] == p && p + Bytes(f) + [] == p + Bytes(f);
    Middle(p, [16] + PutU32(min), Bytes(f), Enc(ReCode.Loop(-(Len(f) + 5))) + [17]);
    assert Bytes(Times(f, min)) == [16] + PutU32(min) + Bytes(f) + (Enc(ReCode.Loop(-(Len(f) + 5))) + [17]);
  }

  lemma Middle(p: seq<byte>, a: seq<byte>, f: seq<byte>, b: seq<byte>)
    ensures (p + (a + f + b))[|p| + |a|..|p| + |a| + |f|] == f
    ensures (p + a + f + b)[|p| + |a|..|p| + |a| + |f|] == f
  {
  }

  lemma PlusBytes(f: seq<Instr>, greedy: bool)
    requires AllValid(f) && Len(f) + 5 < TOP
    ensures var i := Again(greedy, -(Len(f) + 5));
            && Valid(i) && Enc(i) == [if greedy then 9 else 10] + PutU32(ToUnsigned(-(Len(f) + 5)))
            && AllValid(f + [i]) && Bytes(f + [i]) == Bytes(f) + Enc(i)
  {
    hide Bytes, AllValid, Len, PutU32;
    var i := Again(greedy, -(Len(f) + 5));
    assert Valid(i) && Enc(i) == [if greedy then 9 else 10] + PutU32(ToUnsigned(-(Len(f) + 5)));
    BytesOne(i);
    BytesConcat(f, [i]);
  }

  lemma FrontBytes(f: seq<Instr>, g: seq<Instr>)
    requires AllValid(f + g)
    ensures AllValid(f) && AllValid(g) && Bytes(f + g) == Bytes(f) + Bytes(g) && Len(f + g) == Len(f) + Len(g)
  {
    hide Bytes, AllValid, Len;
    ValidConcat(f, g);
    BytesConcat(f, g);
    LenConcat(f, g);
  }

  lemma ResetSome(k: nat, caps: nat)
    requires caps > 0
    ensures Reset(k, caps) == [SaveReset(k, k + caps - 1)]
  {
  }

  lemma ResetLen(k: nat, caps: nat)
    requires AllValid(Reset(k, caps))
    ensures |Bytes(Reset(k, caps))| == if caps > 0 then 3 else 0
  {
    if caps > 0 { ReSimple.SimpleSingle(SaveReset(k, k + caps - 1)); }
  }

  lemma TailLenIs(g: seq<Instr>, greedy: bool, max: nat)
    ensures Len(Tail(g, greedy, max)) == if max == INFINITE then Len(g) + 10 else if max > 0 then Len(g) + 16 else 0
  {
    hide Len;
    if max == INFINITE {
      LenThree(Split(greedy, Len(g) + 5), g, Goto(-(Len(g) + 10)));
    } else if max > 0 {
      var i, j := Split(greedy, Len(g) + 5), ReCode.Loop(-(Len(g) + 10));
      LenThree(i, g, j);
      LenThree(PushI32(max), [i] + g + [j], Drop);
      assert UpTo(g, greedy, max) == [PushI32(max)] + ([i] + g + [j]) + [Drop];
    } else {
      LenNone();
    }
  }

  lemma ResetNone(k: nat)
    ensures AllValid(Reset(k, 0)) && Bytes(Reset(k, 0)) == []
  {
  }

  lemma TailNone(g: seq<Instr>, greedy: bool)
    ensures Tail(g, greedy, 0) == [] && AllValid([]) && Bytes([]) == []
  {
  }

  lemma TailStar(g: seq<Instr>, greedy: bool)
    ensures Tail(g, greedy, INFINITE) == Star(g, greedy)
  {
  }

  lemma TailUpTo(g: seq<Instr>, greedy: bool, max: nat)
    requires 0 < max < INFINITE
    ensures Tail(g, greedy, max) == UpTo(g, greedy, max)
  {
  }

  // ---- lre_compile ----

  /** Nothing is popped that was not pushed: what the scan for the stack size asserts. */
  ghost predicate NeverUnderflows(f: seq<Instr>) {
    forall a, i, b :: f == a + [i] + b ==> Needs(i) <= Depth(a)
  }

  lemma ProgramNeverUnderflows(n: Node, sticky: bool)
    ensures NeverUnderflows(Program(n, sticky))
  {
    hide Balanced, Depth, Program, OkBetween;
    var f := Front(n, sticky);
    FrontBalanced(n, sticky);
    forall a, i, b | Program(n, sticky) == a + [i] + b ensures Needs(i) <= Depth(a) {
      if |a| < |f| {
        Parts(f, [Match], a, i, b);
        UseBalanced(f, a, i, f[|a| + 1..]);
        OkNeeds(a, i, f[|a| + 1..]);
      } else {
        Parts2(f, [Match], a, i, b);
        OnlyOne(Match, a[|f|..], i, b);
        BalancedZero(f);
        assert a == f;
      }
    }
  }

  lemma OnlyOne(m: Instr, a: seq<Instr>, i: Instr, b: seq<Instr>)
    requires [m] == a + [i] + b
    ensures a == [] && i == m && b == []
  {
    assert |[m]| == |a| + 1 + |b|;
    assert (a + [i] + b)[0] == i;
  }

  lemma OkNeeds(a: seq<Instr>, i: Instr, b: seq<Instr>)
    requires OkBetween(a, i, b)
    ensures Needs(i) <= Depth(a)
  {
  }

  lemma UseSafe(f: seq<Instr>, a: seq<Instr>, rest: seq<Instr>)
    requires NeverUnderflows(f) && f == a + rest && rest != []
    ensures Needs(rest[0]) <= Depth(a) && f == (a + [rest[0]]) + rest[1..]
    ensures Depth(a + [rest[0]]) == Depth(a) + Delta(rest[0])
  {
    assert f == a + [rest[0]] + rest[1..];
    DepthConcat(a, [rest[0]]);
    DepthOne(rest[0]);
  }

  lemma MaxDepthHead(rest: seq<Instr>, d: int)
    ensures rest == [] ==> MaxDepth(rest, d) == d
    ensures rest != [] ==> MaxDepth(rest, d) == Max2(d, MaxDepth(rest[1..], d + Delta(rest[0])))
  {
  }

  function Max2(a: int, b: int): int { if a < b then b else a }

  predicate PushOp(op: byte) { op in {16, 26} }

  predicate PopOp(op: byte) { op in {17, 27} }

  lemma DeltaOps(i: Instr)
    ensures PushOp(Opcode(i)) <==> Delta(i) == 1
    ensures PopOp(Opcode(i)) <==> Delta(i) == -1
    ensures -1 <= Delta(i) <= 1
    ensures Delta(i) == -1 ==> Needs(i) == 1
  {
  }

  /** lre_compute_stack_size: -1 when more than 255 places are needed. */
  method ComputeStackSize(bs: seq<byte>, ghost f: seq<Instr>) returns (size: int)
    requires AllValid(f) && |bs| >= HEADER_LEN && bs[HEADER_LEN..] == Bytes(f) && NeverUnderflows(f)
    ensures size == if MaxDepth(f, 0) <= 255 then MaxDepth(f, 0) else -1
  {
    hide Bytes, AllValid, Enc, Valid, Size, Opcode, MaxDepth, NeverUnderflows, Depth, Delta, Needs, Max2;
    var stackSize := 0;
    size := 0;
    var pos := HEADER_LEN;
    ghost var rest := f;
    ghost var a: seq<Instr> := [];
    BytesHead(rest);
    DepthNil();
    MaxDepthHead(rest, 0);
    MaxLaws(0, 0, MaxDepth(rest, 0));
    while pos < |bs|
      invariant HEADER_LEN <= pos <= |bs| && AllValid(rest) && bs[pos..] == Bytes(rest) && f == a + rest
      invariant pos < |bs| <==> rest != []
      invariant stackSize == Depth(a) && 0 <= stackSize <= size <= 255
      invariant MaxDepth(f, 0) == Max2(size, MaxDepth(rest, stackSize))
      decreases |bs| - pos
    {
      BytesHead(rest);
      DeltaOps(rest[0]);
      UseSafe(f, a, rest);
      MaxDepthHead(rest, stackSize);
      var len := InstrSize(bs, pos, rest[0], Bytes(rest[1..]));
      ghost var m := MaxDepth(rest[1..], stackSize + Delta(rest[0]));
      MaxLaws(size, stackSize, m);
      MaxLaws(stackSize + 1, size, m);
      if PushOp(bs[pos]) {
        stackSize := stackSize + 1;
        if stackSize > size {
          if stackSize > 255 {
            return -1;
          }
          size := stackSize;
        }
      } else if PopOp(bs[pos]) {
        assert stackSize > 0;
        stackSize := stackSize - 1;
      }
      pos := pos + len;
      a := a + [rest[0]];
      rest := rest[1..];
      BytesHead(rest);
    }
    MaxDepthHead(rest, stackSize);
    MaxLaws(size, stackSize, stackSize);
  }

  lemma MaxLaws(a: int, b: int, c: int)
    ensures Max2(a, Max2(b, c)) == Max2(Max2(a, b), c) && Max2(a, b) == Max2(b, a)
    ensures a >= b ==> Max2(a, b) == a
    ensures Max2(a, b) >= a && Max2(a, b) >= b
    ensures Max2(a, c) >= a && Max2(a, c) >= c && (Max2(a, c) == a || Max2(a, c) == c)
  {
  }

  ghost predicate ProgramFits(n: Node) {
    CanEmit(n, 1, false, HEADER_LEN + 13) && Len(Asm(n, 1, false)) + 40 < MAX_LEN
  }

  /** The part of lre_compile that emits: the search loop, the pattern between its saves, the final match. */
  method EmitProgram(s: REParseState, n: Node, sticky: bool) returns (ok: bool)
    requires ProgramFits(n) && |s.byteCode| == HEADER_LEN && s.captureCount == 1
    modifies s
    ensures ok <==> 1 + Caps(n) <= 255
    ensures ok ==> AllValid(Program(n, sticky)) && s.captureCount == 1 + Caps(n)
    ensures ok ==> s.byteCode == old(s.byteCode) + Bytes(Program(n, sticky))
  {
    CanEmitLen(n, 1, false, HEADER_LEN + 13);
    ghost var header := s.byteCode;
    hide Bytes, AllValid, Asm, Len, CanEmit, Code, HasCode, Enc, Valid, ValidNode, Program, Prefix, Caps;
    PrefixBytes(sticky);
    PrefixLen(sticky);
    EmitPrefix(s, sticky);
    s.EmitOpU8(12, 0);
    ghost var front := s.byteCode;
    CanEmitLess(n, |front|);
    ok := s.EmitNode(n, false);
    if !ok {
      return;
    }
    s.UseEmitted(n, 1, false, front);
    s.EmitOpU8(13, 0);
    s.EmitOp(11);
    ProgramBytes(n, sticky);
    ProgramFlat(header, Bytes(Prefix(sticky)), Code(n, 1, false));
  }

  /** The loop of the unanchored search. */
  method EmitPrefix(s: REParseState, sticky: bool)
    requires AllValid(Prefix(sticky))
    modifies s`byteCode
    ensures s.byteCode == old(s.byteCode) + Bytes(Prefix(sticky))
  {
    ghost var header := s.byteCode;
    PrefixBytes(sticky);
    hide Bytes, AllValid, PutU32, Prefix;
    if !sticky {
      var _ := s.EmitOpU32(9, 6);
      s.EmitOp(5);
      var _ := s.EmitOpU32(8, (-(5 + 1 + 5)) % U32);
      PrefixFlat(header, PutU32(6), PutU32((-11) % U32));
    }
  }

  lemma PrefixFlat(h: seq<byte>, a: seq<byte>, b: seq<byte>)
    ensures h + ([9] + a) + [5] + ([8] + b) == h + (([9] + a) + [5] + ([8] + b))
  {
    assert h + (([9] + a) + [5] + ([8] + b)) == h + ([9] + a) + [5] + ([8] + b);
  }

  /** The counts go into the header once they are known. */
  method FillHeader(s: REParseState, stackSize: byte, ghost flags: int, ghost header: seq<byte>, ghost body: seq<byte>)
    returns (code: seq<byte>)
    requires 0 <= flags < U16 && header == PutU16(flags) + [0, 0] + PutU32(0) && IsU32(|body|)
    requires s.byteCode == header + body && s.captureCount <= 255
    modifies s
    ensures |code| == HEADER_LEN + |body| && code[HEADER_LEN..] == body
    ensures GetU16(code, 0) == flags && code[2] == s.captureCount && code[3] == stackSize && GetU32(code, 4) == |body|
    ensures s.captureCount == old(s.captureCount)
  {
    hide PutU32, PutU16, GetU16, GetU32, Patched;
    s.Put(2, [s.captureCount]);
    s.Put(3, [stackSize]);
    s.Put(4, PutU32(|s.byteCode| - HEADER_LEN));
    code := s.byteCode;
    HeaderDone(header, body, flags, s.captureCount, stackSize, code);
  }

  /** lre_compile on a parsed pattern. The result is refused when there are more than 255 captures or stack places. */
  method LreCompile(n: Node, sticky: bool, flags: int) returns (ok: bool, code: seq<byte>)
    requires ProgramFits(n) && 0 <= flags < U16
    ensures ok <==> 1 + Caps(n) <= 255 && MaxDepth(Program(n, sticky), 0) <= 255
    ensures ok ==> Compiled(code, n, sticky)
    ensures ok ==>
      && |code| == HEADER_LEN + Len(Program(n, sticky))
      && GetU16(code, 0) == flags && code[2] == 1 + Caps(n) && code[3] == MaxDepth(Program(n, sticky), 0)
      && GetU32(code, 4) == Len(Program(n, sticky))
  {
    CanEmitLen(n, 1, false, HEADER_LEN + 13);
    ProgramLen(n, sticky);
    var s := new REParseState(flags);
    ghost var header := s.byteCode;
    ghost var program := Program(n, sticky);
    code := [];
    hide Bytes, AllValid, Asm, Len, CanEmit, ValidNode, PutU32, PutU16, Program, Prefix, Compiled, BytesAt, MaxDepth, Caps,
         NeverUnderflows, GetU16, GetU32, Patched, ProgramFits;
    ok := EmitProgram(s, n, sticky);
    if !ok {
      return;
    }
    ghost var body := Bytes(program);
    assert s.byteCode[HEADER_LEN..] == body;
    ProgramNeverUnderflows(n, sticky);
    var stackSize := ComputeStackSize(s.byteCode, program);
    if stackSize < 0 {
      return false, [];
    }
    code := FillHeader(s, stackSize, flags, header, body);
    CompiledIntro(code, n, sticky);
  }

  lemma CanEmitLess(n: Node, size: nat)
    requires CanEmit(n, 1, false, HEADER_LEN + 13) && size <= HEADER_LEN + 13
    ensures CanEmit(n, 1, false, size)
  {
    hide Peak, ValidNode;
  }

  lemma CompiledIntro(code: seq<byte>, n: Node, sticky: bool)
    requires ValidNode(n) && 1 + Caps(n) <= 255 && Len(Program(n, sticky)) < MAX_LEN && AllValid(Program(n, sticky))
    requires |code| >= HEADER_LEN && code[HEADER_LEN..] == Bytes(Program(n, sticky))
    ensures Compiled(code, n, sticky)
  {
    hide Bytes, AllValid, Program, Len, ValidNode;
    var bs := Bytes(Program(n, sticky));
    forall j | 0 <= j < |bs| ensures code[HEADER_LEN + j] == bs[j] { assert code[HEADER_LEN..][j] == bs[j]; }
  }

  lemma HeaderDone(header: seq<byte>, body: seq<byte>, flags: int, captures: byte, stackSize: byte, code: seq<byte>)
    requires 0 <= flags < U16 && header == PutU16(flags) + [0, 0] + PutU32(0) && IsU32(|body|)
    requires code == Patched(Patched(Patched(header + body, 2, [captures]), 3, [stackSize]), 4, PutU32(|body|))
    ensures |code| == HEADER_LEN + |body| && code[HEADER_LEN..] == body
    ensures GetU16(code, 0) == flags && code[2] == captures && code[3] == stackSize && GetU32(code, 4) == |body|
  {
    var f, z, l := PutU16(flags), PutU32(0), PutU32(|body|);
    var h := f + [captures, stackSize] + l;
    hide PutU32, PutU16, GetU16, GetU32;
    var one := Patched(header + body, 2, [captures]);
    assert one == f + [captures, 0] + z + body;
    var two := Patched(one, 3, [stackSize]);
    assert two == f + [captures, stackSize] + z + body;
    assert two[..4] == f + [captures, stackSize] && two[8..] == body;
    assert code == h + body;
    forall j | 0 <= j < 2 ensures code[0 + j] == PutU16(flags)[j] { }
    GetPutU16(code, 0, flags);
    forall j | 0 <= j < 4 ensures code[4 + j] == PutU32(|body|)[j] { }
    GetPutU32(code, 4, |body|);
  }

  lemma PrefixBytes(sticky: bool)
    ensures AllValid(Prefix(sticky))
    ensures Bytes(Prefix(sticky)) == if sticky then [] else ([9] + PutU32(6)) + [5] + ([8] + PutU32((-11) % U32))
  {
    if !sticky {
      var i, j := SplitGotoFirst(6), Goto(-11);
      SplitEnc(false, 6);
      JumpEnc(-11);
      hide PutU32, Enc;
      BytesOne(ReCode.Any);
      Bytes3(i, [ReCode.Any], j);
      assert Prefix(false) == [i] + [ReCode.Any] + [j];
      assert Enc(ReCode.Any) == [5] by { AnyEnc(); }
    }
  }

  lemma AnyEnc()
    ensures Enc(ReCode.Any) == [5]
  {
  }

  lemma ProgramLen(n: Node, sticky: bool)
    ensures Len(Program(n, sticky)) == Len(Prefix(sticky)) + Len(Asm(n, 1, false)) + 5 && Len(Prefix(sticky)) <= 11
  {
    hide Asm;
    PrefixLen(sticky);
    ReSimple.SimpleSingle(SaveStart(0));
    ReSimple.SimpleSingle(SaveEnd(0));
    ReSimple.SimpleSingle(Match);
    hide Len;
    var f := Asm(n, 1, false);
    assert Program(n, sticky) == Prefix(sticky) + [SaveStart(0)] + f + ([SaveEnd(0)] + [Match]);
    LenConcat(Prefix(sticky), [SaveStart(0)]);
    LenConcat(Prefix(sticky) + [SaveStart(0)], f);
    LenConcat(Prefix(sticky) + [SaveStart(0)] + f, [SaveEnd(0)] + [Match]);
    LenConcat([SaveEnd(0)], [Match]);
  }

  lemma ProgramBytes(n: Node, sticky: bool)
    requires ValidNode(n) && 1 + Caps(n) <= 255 && Len(Asm(n, 1, false)) < MAX_LEN
    ensures AllValid(Program(n, sticky)) && AllValid(Prefix(sticky))
    ensures Bytes(Program(n, sticky)) == Bytes(Prefix(sticky)) + ([12, 0] + Code(n, 1, false) + [13, 0] + [11])
  {
    hide Bytes, AllValid, Asm, Len, ValidNode, Prefix, Enc, Valid;
    var f := Asm(n, 1, false);
    PrefixBytes(sticky);
    CodeBytes(n, 1, false);
    SaveEnc(0, false);
    SaveEnc(0, true);
    LookEnc(true, 0);
    Bytes3(SaveStart(0), f, SaveEnd(0));
    BytesOne(Match);
    BytesConcat([SaveStart(0)] + f + [SaveEnd(0)], [Match]);
    BytesConcat(Prefix(sticky), [SaveStart(0)] + f + [SaveEnd(0)] + [Match]);
    assert Program(n, sticky) == Prefix(sticky) + ([SaveStart(0)] + f + [SaveEnd(0)] + [Match]);
  }

  lemma ProgramFlat(h: seq<byte>, p: seq<byte>, f: seq<byte>)
    ensures h + p + [12, 0] + f + [13, 0] + [11] == h + (p + ([12, 0] + f + [13, 0] + [11]))
  {
    assert h + (p + ([12, 0] + f + [13, 0] + [11])) == h + p + [12, 0] + f + [13, 0] + [11];
  }
}
