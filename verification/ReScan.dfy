/** The two scans the compiler makes over bytes it has already emitted, and the one that bounds the stack. */
module ReScan {
  import opened ReCode
  import opened ReCompile

  /** Sizes of the opcode table. */
  function OpSize(op: byte): nat {
    if op in {1, 12, 13, 20, 21} then 2
    else if op in {2, 14, 22, 23} then 3
    else if op in {3, 8, 9, 10, 15, 16, 24, 25} then 5
    else if op == 29 then 17
    else 1
  }

  lemma BytesHead(f: seq<Instr>)
    requires AllValid(f)
    ensures f == [] ==> Bytes(f) == []
    ensures f != [] ==> Valid(f[0]) && AllValid(f[1..]) && Bytes(f) == Enc(f[0]) + Bytes(f[1..]) && Bytes(f) != []
  {
  }

  /** The size of the instruction whose bytes start `bs`, read as the scans read it. */
  method InstrSize(bs: seq<byte>, pos: nat, ghost i: Instr, ghost rest: seq<byte>) returns (size: nat)
    requires Valid(i) && pos <= |bs| && bs[pos..] == Enc(i) + rest
    ensures size == Size(i) > 0 && pos + size <= |bs| && bs[pos + size..] == rest && bs[pos] == Opcode(i)
  {
    assert bs[pos] == (Enc(i) + rest)[0];
    forall k | 0 <= k < |Enc(i)| ensures bs[pos + k] == Enc(i)[k] { assert bs[pos..][k] == (Enc(i) + rest)[k]; }
    assert BytesAt(bs, pos, Enc(i));
    DecodeEnc(bs, pos, i);
    size := OpSize(bs[pos]);
    if bs[pos] == 22 {
      size := size + GetU16(bs, pos + 1) * 4;
    } else if bs[pos] == 23 {
      size := size + GetU16(bs, pos + 1) * 8;
    }
    assert bs[pos + size..] == bs[pos..][size..];
  }

  predicate MovesOp(op: byte) { op in {1, 2, 3, 4, 5, 22, 23} }

  predicate PredictableOp(op: byte) {
    MovesOp(op) || op in {6, 7, 16, 26, 17, 18, 19, 28, 12, 13, 14, 20, 21}
  }

  predicate StaysOp(op: byte) { op in {6, 7, 18, 19} }

  lemma OpsMatch(i: Instr)
    ensures StaysOp(Opcode(i)) <==> i.LineStart? || i.LineEnd? || i.WordBoundary? || i.NotWordBoundary?
    ensures MovesOp(Opcode(i)) <==> Moves(i)
    ensures PredictableOp(Opcode(i)) <==> Predictable(i)
  {
  }

  /** re_need_check_advance. */
  method NeedCheckAdvanceScan(bs: seq<byte>, ghost f: seq<Instr>) returns (need: bool)
    requires AllValid(f) && bs == Bytes(f)
    ensures need == NeedCheckAdvance(f)
  {
    hide Bytes, AllValid, Enc, Valid, Size, Opcode, Moves, Predictable;
    need := true;
    var pos := 0;
    ghost var rest := f;
    BytesHead(rest);
    while pos < |bs|
      invariant pos <= |bs| && AllValid(rest) && bs[pos..] == Bytes(rest)
      invariant pos < |bs| <==> rest != []
      invariant AllPredictable(f) <==> AllPredictable(rest)
      invariant SomeMoves(f) <==> (!need || SomeMoves(rest))
      decreases |bs| - pos
    {
      BytesHead(rest);
      OpsMatch(rest[0]);
      var size := InstrSize(bs, pos, rest[0], Bytes(rest[1..]));
      if MovesOp(bs[pos]) {
        need := false;
      } else if !PredictableOp(bs[pos]) {
        return true;
      }
      pos := pos + size;
      rest := rest[1..];
      BytesHead(rest);
    }
  }

  /** re_is_simple_quantifier. */
  method SimpleCountScan(bs: seq<byte>, ghost f: seq<Instr>) returns (count: int)
    requires AllValid(f) && bs == Bytes(f)
    ensures count == SimpleCount(f)
  {
    hide Bytes, AllValid, Enc, Valid, Size, Opcode, Moves, Predictable;
    count := 0;
    var pos := 0;
    ghost var rest := f;
    BytesHead(rest);
    while pos < |bs|
      invariant pos <= |bs| && AllValid(rest) && bs[pos..] == Bytes(rest)
      invariant pos < |bs| <==> rest != []
      invariant count >= 0
      invariant SimpleCount(f) == if SimpleCount(rest) >= 0 then count + SimpleCount(rest) else -1
      decreases |bs| - pos
    {
      BytesHead(rest);
      OpsMatch(rest[0]);
      var size := InstrSize(bs, pos, rest[0], Bytes(rest[1..]));
      if MovesOp(bs[pos]) {
        count := count + 1;
      } else if !StaysOp(bs[pos]) {
        return -1;
      }
      pos := pos + size;
      rest := rest[1..];
      BytesHead(rest);
    }
  }
}
