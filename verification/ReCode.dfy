/** Byte code of the regexp engine: the opcodes with their operands, their encoding as bytes, and fetching one back. */
module ReCode {
  import opened Optional

  type byte = b: int | 0 <= b < 256

  const U16 := 0x1_0000
  const U32 := 0x1_0000_0000
  const INT32_MAX := 0x7fff_ffff

  /** One constructor per opcode; jump operands are signed distances from the end of the instruction's offset field. */
  datatype Instr =
    | Char8(c: int) | Char16(c: int) | Char32(c: int)
    | Dot | Any | LineStart | LineEnd
    | Goto(off: int) | SplitGotoFirst(off: int) | SplitNextFirst(off: int)
    | Match
    | SaveStart(i: int) | SaveEnd(i: int) | SaveReset(first: int, last: int)
    | Loop(off: int) | PushI32(v: int) | Drop
    | WordBoundary | NotWordBoundary
    | BackReference(i: int) | BackwardBackReference(i: int)
    | Range(bounds: seq<int>) | Range32(bounds: seq<int>)
    | Lookahead(off: int) | NegativeLookahead(off: int)
    | PushCharPos | CheckAdvance | Prev
    | SimpleGreedyQuant(next: int, min: int, max: int, count: int)

  function Opcode(i: Instr): byte {
    match i
    case Char8(_) => 1
    case Char16(_) => 2
    case Char32(_) => 3
    case Dot => 4
    case Any => 5
    case LineStart => 6
    case LineEnd => 7
    case Goto(_) => 8
    case SplitGotoFirst(_) => 9
    case SplitNextFirst(_) => 10
    case Match => 11
    case SaveStart(_) => 12
    case SaveEnd(_) => 13
    case SaveReset(_, _) => 14
    case Loop(_) => 15
    case PushI32(_) => 16
    case Drop => 17
    case WordBoundary => 18
    case NotWordBoundary => 19
    case BackReference(_) => 20
    case BackwardBackReference(_) => 21
    case Range(_) => 22
    case Range32(_) => 23
    case Lookahead(_) => 24
    case NegativeLookahead(_) => 25
    case PushCharPos => 26
    case CheckAdvance => 27
    case Prev => 28
    case SimpleGreedyQuant(_, _, _, _) => 29
  }

  predicate IsU32(v: int) { 0 <= v < U32 }

  predicate IsS32(v: int) { -0x8000_0000 <= v < 0x8000_0000 }

  /** The operands fit their fields. */
  predicate Valid(i: Instr) {
    match i
    case Char8(c) => 0 <= c < 256
    case Char16(c) => 0 <= c < U16
    case Char32(c) => IsU32(c)
    case Goto(off) => IsS32(off)
    case SplitGotoFirst(off) => IsS32(off)
    case SplitNextFirst(off) => IsS32(off)
    case SaveStart(n) => 0 <= n < 256
    case SaveEnd(n) => 0 <= n < 256
    case SaveReset(a, b) => 0 <= a < 256 && 0 <= b < 256
    case Loop(off) => IsS32(off)
    case PushI32(v) => IsU32(v)
    case BackReference(n) => 0 <= n < 256
    case BackwardBackReference(n) => 0 <= n < 256
    case Range(bs) => |bs| % 2 == 0 && |bs| / 2 < U16 && forall k :: 0 <= k < |bs| ==> 0 <= bs[k] < U16
    case Range32(bs) => |bs| % 2 == 0 && |bs| / 2 < U16 && forall k :: 0 <= k < |bs| ==> IsU32(bs[k])
    case Lookahead(off) => IsS32(off)
    case NegativeLookahead(off) => IsS32(off)
    case SimpleGreedyQuant(next, min, max, count) => IsS32(next) && IsU32(min) && IsU32(max) && IsU32(count)
    case _ => true
  }

  function PutU16(v: int): (s: seq<byte>)
    requires 0 <= v < U16
    ensures |s| == 2
  {
    [v % 256, v / 256]
  }

  function PutU32(v: int): (s: seq<byte>)
    requires IsU32(v)
    ensures |s| == 4
  {
    [v % 256, v / 256 % 256, v / 65536 % 256, v / 0x100_0000]
  }

  function GetU16(code: seq<byte>, p: nat): int
    requires p + 2 <= |code|
  {
    var b0: int, b1: int := code[p], code[p + 1];
    b0 + 256 * b1
  }

  function GetU32(code: seq<byte>, p: nat): int
    requires p + 4 <= |code|
  {
    var b0: int, b1: int, b2: int, b3: int := code[p], code[p + 1], code[p + 2], code[p + 3];
    b0 + 256 * b1 + 65536 * b2 + 0x100_0000 * b3
  }

  function ToSigned(v: int): int {
    if v < 0x8000_0000 then v else v - U32
  }

  function ToUnsigned(v: int): int {
    if v < 0 then v + U32 else v
  }

  function PutList16(vs: seq<int>): (s: seq<byte>)
    requires forall k :: 0 <= k < |vs| ==> 0 <= vs[k] < U16
    ensures |s| == 2 * |vs|
  {
    if vs == [] then [] else PutU16(vs[0]) + PutList16(vs[1..])
  }

  function PutList32(vs: seq<int>): (s: seq<byte>)
    requires forall k :: 0 <= k < |vs| ==> IsU32(vs[k])
    ensures |s| == 4 * |vs|
  {
    if vs == [] then [] else PutU32(vs[0]) + PutList32(vs[1..])
  }

  function GetList16(code: seq<byte>, p: nat, n: nat): (s: seq<int>)
    requires p + 2 * n <= |code|
    ensures |s| == n
    decreases n
  {
    if n == 0 then [] else [GetU16(code, p)] + GetList16(code, p + 2, n - 1)
  }

  function GetList32(code: seq<byte>, p: nat, n: nat): (s: seq<int>)
    requires p + 4 * n <= |code|
    ensures |s| == n
    decreases n
  {
    if n == 0 then [] else [GetU32(code, p)] + GetList32(code, p + 4, n - 1)
  }

  /** Size in bytes, as in the opcode table, with the ranges' variable part. */
  function Size(i: Instr): (n: nat)
    ensures n >= 1
  {
    match i
    case Char8(_) => 2
    case Char16(_) => 3
    case Char32(_) => 5
    case Goto(_) => 5
    case SplitGotoFirst(_) => 5
    case SplitNextFirst(_) => 5
    case SaveStart(_) => 2
    case SaveEnd(_) => 2
    case SaveReset(_, _) => 3
    case Loop(_) => 5
    case PushI32(_) => 5
    case BackReference(_) => 2
    case BackwardBackReference(_) => 2
    case Range(bs) => 3 + 2 * |bs|
    case Range32(bs) => 3 + 4 * |bs|
    case Lookahead(_) => 5
    case NegativeLookahead(_) => 5
    case SimpleGreedyQuant(_, _, _, _) => 17
    case _ => 1
  }

  function Operands(i: Instr): (s: seq<byte>)
    requires Valid(i)
    ensures |s| == Size(i) - 1
  {
    match i
    case Char8(c) => [c]
    case Char16(c) => PutU16(c)
    case Char32(c) => PutU32(c)
    case Goto(off) => PutU32(ToUnsigned(off))
    case SplitGotoFirst(off) => PutU32(ToUnsigned(off))
    case SplitNextFirst(off) => PutU32(ToUnsigned(off))
    case SaveStart(n) => [n]
    case SaveEnd(n) => [n]
    case SaveReset(a, b) => [a, b]
    case Loop(off) => PutU32(ToUnsigned(off))
    case PushI32(v) => PutU32(v)
    case BackReference(n) => [n]
    case BackwardBackReference(n) => [n]
    case Range(bs) => PutU16(|bs| / 2) + PutList16(bs)
    case Range32(bs) => PutU16(|bs| / 2) + PutList32(bs)
    case Lookahead(off) => PutU32(ToUnsigned(off))
    case NegativeLookahead(off) => PutU32(ToUnsigned(off))
    case SimpleGreedyQuant(next, min, max, count) =>
      PutU32(ToUnsigned(next)) + PutU32(min) + PutU32(max) + PutU32(count)
    case _ => []
  }

  function Enc(i: Instr): (s: seq<byte>)
    requires Valid(i)
    ensures |s| == Size(i)
  {
    [Opcode(i)] + Operands(i)
  }

  /** The instruction at byte offset `pc`, if a whole one is there. */
  function Decode(code: seq<byte>, pc: int): (r: Option<Instr>)
    ensures r.Some? ==> 0 <= pc && pc + Size(r.value) <= |code|
    ensures r.Some? && r.value.SimpleGreedyQuant? ==> r.value.count >= 0
  {
    if !(0 <= pc < |code|) then None else
    var op := code[pc];
    var left := |code| - pc;
    if op == 4 then Some(Dot)
    else if op == 5 then Some(Any)
    else if op == 6 then Some(LineStart)
    else if op == 7 then Some(LineEnd)
    else if op == 11 then Some(Match)
    else if op == 17 then Some(Drop)
    else if op == 18 then Some(WordBoundary)
    else if op == 19 then Some(NotWordBoundary)
    else if op == 26 then Some(PushCharPos)
    else if op == 27 then Some(CheckAdvance)
    else if op == 28 then Some(Prev)
    else if left < 2 then None
    else if op == 1 then Some(Char8(code[pc + 1]))
    else if op == 12 then Some(SaveStart(code[pc + 1]))
    else if op == 13 then Some(SaveEnd(code[pc + 1]))
    else if op == 20 then Some(BackReference(code[pc + 1]))
    else if op == 21 then Some(BackwardBackReference(code[pc + 1]))
    else if left < 3 then None
    else if op == 2 then Some(Char16(GetU16(code, pc + 1)))
    else if op == 14 then Some(SaveReset(code[pc + 1], code[pc + 2]))
    else if op == 22 then
      var n := 2 * GetU16(code, pc + 1);
      if left < 3 + 2 * n then None else Some(Range(GetList16(code, pc + 3, n)))
    else if op == 23 then
      var n := 2 * GetU16(code, pc + 1);
      if left < 3 + 4 * n then None else Some(Range32(GetList32(code, pc + 3, n)))
    else if left < 5 then None
    else
      var v := GetU32(code, pc + 1);
      if op == 3 then Some(Char32(v))
      else if op == 8 then Some(Goto(ToSigned(v)))
      else if op == 9 then Some(SplitGotoFirst(ToSigned(v)))
      else if op == 10 then Some(SplitNextFirst(ToSigned(v)))
      else if op == 15 then Some(Loop(ToSigned(v)))
      else if op == 16 then Some(PushI32(v))
      else if op == 24 then Some(Lookahead(ToSigned(v)))
      else if op == 25 then Some(NegativeLookahead(ToSigned(v)))
      else if op == 29 && left >= 17 then
        Some(SimpleGreedyQuant(ToSigned(v), GetU32(code, pc + 5), GetU32(code, pc + 9), GetU32(code, pc + 13)))
      else None
  }

  /** The bytes `s` stand in `code` at `p`. */
  ghost predicate BytesAt(code: seq<byte>, p: nat, s: seq<byte>) {
    p + |s| <= |code| && forall k :: 0 <= k < |s| ==> code[p + k] == s[k]
  }

  lemma BytesAtSplit(code: seq<byte>, p: nat, s: seq<byte>, t: seq<byte>)
    ensures BytesAt(code, p, s + t) <==> BytesAt(code, p, s) && BytesAt(code, p + |s|, t)
  {
    if BytesAt(code, p, s + t) {
      forall k | 0 <= k < |s| ensures code[p + k] == s[k] { assert (s + t)[k] == s[k]; }
      forall k | 0 <= k < |t| ensures code[p + |s| + k] == t[k] { assert (s + t)[|s| + k] == t[k]; assert code[p + (|s| + k)] == t[k]; }
    }
    if BytesAt(code, p, s) && BytesAt(code, p + |s|, t) {
      forall k | 0 <= k < |s + t| ensures code[p + k] == (s + t)[k] {
        if k >= |s| { assert code[p + |s| + (k - |s|)] == t[k - |s|]; }
      }
    }
  }

  lemma ByteAt(code: seq<byte>, p: nat, s: seq<byte>, k: nat)
    requires BytesAt(code, p, s) && k < |s|
    ensures code[p + k] == s[k]
  {
  }

  lemma GetPutU16(code: seq<byte>, p: nat, v: int)
    requires 0 <= v < U16 && BytesAt(code, p, PutU16(v))
    ensures GetU16(code, p) == v
  {
    assert code[p + 0] == PutU16(v)[0] && code[p + 1] == PutU16(v)[1];
  }

  lemma U32Digits(v: int)
    requires IsU32(v)
    ensures var s := PutU32(v); (s[0] as int) + 256 * (s[1] as int) + 65536 * (s[2] as int) + 0x100_0000 * (s[3] as int) == v
  {
    assert v / 65536 == v / 256 / 256 && v / 0x100_0000 == v / 256 / 256 / 256;
  }

  lemma GetPutU32(code: seq<byte>, p: nat, v: int)
    requires IsU32(v) && BytesAt(code, p, PutU32(v))
    ensures GetU32(code, p) == v
  {
    U32Digits(v);
    var s := PutU32(v);
    hide PutU32;
    assert code[p + 0] == s[0] && code[p + 1] == s[1] && code[p + 2] == s[2] && code[p + 3] == s[3];
  }

  lemma GetPutList16(code: seq<byte>, p: nat, vs: seq<int>)
    requires forall k :: 0 <= k < |vs| ==> 0 <= vs[k] < U16
    requires BytesAt(code, p, PutList16(vs))
    ensures GetList16(code, p, |vs|) == vs
    decreases vs
  {
    if vs != [] {
      BytesAtSplit(code, p, PutU16(vs[0]), PutList16(vs[1..]));
      GetPutU16(code, p, vs[0]);
      GetPutList16(code, p + 2, vs[1..]);
    }
  }

  lemma GetPutList32(code: seq<byte>, p: nat, vs: seq<int>)
    requires forall k :: 0 <= k < |vs| ==> IsU32(vs[k])
    requires BytesAt(code, p, PutList32(vs))
    ensures GetList32(code, p, |vs|) == vs
    decreases vs
  {
    if vs != [] {
      BytesAtSplit(code, p, PutU32(vs[0]), PutList32(vs[1..]));
      GetPutU32(code, p, vs[0]);
      GetPutList32(code, p + 4, vs[1..]);
    }
  }

  lemma DecodeOffset(code: seq<byte>, pc: nat, i: Instr, off: int)
    requires pc < |code| && code[pc] == Opcode(i) && IsS32(off)
    requires i == Goto(off) || i == SplitGotoFirst(off) || i == SplitNextFirst(off) || i == Loop(off)
          || i == Lookahead(off) || i == NegativeLookahead(off)
    requires BytesAt(code, pc + 1, PutU32(ToUnsigned(off)))
    ensures Decode(code, pc) == Some(i)
  {
    GetPutU32(code, pc + 1, ToUnsigned(off));
  }

  lemma DecodeRange(code: seq<byte>, pc: nat, i: Instr)
    requires (i.Range? || i.Range32?) && Valid(i)
    requires pc < |code| && code[pc] == Opcode(i) && BytesAt(code, pc + 1, Operands(i))
    ensures Decode(code, pc) == Some(i)
  {
    var bs := i.bounds;
    if i.Range? {
      BytesAtSplit(code, pc + 1, PutU16(|bs| / 2), PutList16(bs));
      GetPutU16(code, pc + 1, |bs| / 2);
      GetPutList16(code, pc + 3, bs);
    } else {
      BytesAtSplit(code, pc + 1, PutU16(|bs| / 2), PutList32(bs));
      GetPutU16(code, pc + 1, |bs| / 2);
      GetPutList32(code, pc + 3, bs);
    }
  }

  lemma DecodeQuant(code: seq<byte>, pc: nat, i: Instr)
    requires i.SimpleGreedyQuant? && Valid(i)
    requires pc < |code| && code[pc] == Opcode(i) && BytesAt(code, pc + 1, Operands(i))
    ensures Decode(code, pc) == Some(i)
  {
    hide GetU32, PutU32, BytesAt;
    QuantOperands(code, pc, i);
  }

  lemma QuantOperands(code: seq<byte>, pc: nat, i: Instr)
    requires i.SimpleGreedyQuant? && Valid(i) && BytesAt(code, pc + 1, Operands(i))
    ensures pc + 17 <= |code| && GetU32(code, pc + 1) == ToUnsigned(i.next) && GetU32(code, pc + 5) == i.min
    ensures GetU32(code, pc + 9) == i.max && GetU32(code, pc + 13) == i.count
  {
    hide GetU32, PutU32;
    var a, b, c, d := PutU32(ToUnsigned(i.next)), PutU32(i.min), PutU32(i.max), PutU32(i.count);
    BytesAtSplit(code, pc + 1, a + b + c, d);
    BytesAtSplit(code, pc + 1, a + b, c);
    BytesAtSplit(code, pc + 1, a, b);
    GetPutU32(code, pc + 1, ToUnsigned(i.next));
    GetPutU32(code, pc + 5, i.min);
    GetPutU32(code, pc + 9, i.max);
    GetPutU32(code, pc + 13, i.count);
  }

  /** Fetching undoes encoding, wherever the bytes stand. */
  lemma DecodeEnc(code: seq<byte>, pc: nat, i: Instr)
    requires Valid(i) && BytesAt(code, pc, Enc(i))
    ensures Decode(code, pc) == Some(i)
  {
    var args := Operands(i);
    BytesAtSplit(code, pc, [Opcode(i)], args);
    ByteAt(code, pc, [Opcode(i)], 0);
    match i {
      case Char8(c) => ByteAt(code, pc + 1, args, 0);
      case SaveStart(c) => ByteAt(code, pc + 1, args, 0);
      case SaveEnd(c) => ByteAt(code, pc + 1, args, 0);
      case BackReference(c) => ByteAt(code, pc + 1, args, 0);
      case BackwardBackReference(c) => ByteAt(code, pc + 1, args, 0);
      case SaveReset(a, b) => ByteAt(code, pc + 1, args, 0); ByteAt(code, pc + 1, args, 1);
      case Char16(c) => GetPutU16(code, pc + 1, c);
      case Char32(c) => GetPutU32(code, pc + 1, c);
      case PushI32(c) => GetPutU32(code, pc + 1, c);
      case Goto(off) => DecodeOffset(code, pc, i, off);
      case SplitGotoFirst(off) => DecodeOffset(code, pc, i, off);
      case SplitNextFirst(off) => DecodeOffset(code, pc, i, off);
      case Loop(off) => DecodeOffset(code, pc, i, off);
      case Lookahead(off) => DecodeOffset(code, pc, i, off);
      case NegativeLookahead(off) => DecodeOffset(code, pc, i, off);
      case Range(_) => DecodeRange(code, pc, i);
      case Range32(_) => DecodeRange(code, pc, i);
      case SimpleGreedyQuant(_, _, _, _) => DecodeQuant(code, pc, i);
      case _ =>
    }
  }

  // ---- code fragments ----

  /** Length in bytes of a fragment. */
  function Len(f: seq<Instr>): nat {
    if f == [] then 0 else Size(f[0]) + Len(f[1..])
  }

  predicate AllValid(f: seq<Instr>) {
    f != [] ==> Valid(f[0]) && AllValid(f[1..])
  }

  function Bytes(f: seq<Instr>): (s: seq<byte>)
    requires AllValid(f)
    ensures |s| == Len(f)
  {
    if f == [] then [] else Enc(f[0]) + Bytes(f[1..])
  }

  /** The fragment `f` can be fetched, instruction after instruction, from offset `pc` of `code`. */
  ghost predicate Placed(code: seq<byte>, pc: int, f: seq<Instr>)
    decreases f
  {
    f != [] ==> Decode(code, pc) == Some(f[0]) && Placed(code, pc + Size(f[0]), f[1..])
  }

  lemma {:induction false} LenConcat(f: seq<Instr>, g: seq<Instr>)
    ensures Len(f + g) == Len(f) + Len(g)
  {
    if f == [] {
      assert f + g == g;
    } else {
      assert (f + g)[1..] == f[1..] + g;
      LenConcat(f[1..], g);
    }
  }

  lemma {:induction false} PlacedConcat(code: seq<byte>, pc: int, f: seq<Instr>, g: seq<Instr>)
    ensures Placed(code, pc, f + g) <==> Placed(code, pc, f) && Placed(code, pc + Len(f), g)
    decreases f
  {
    hide Decode, Size;
    if f == [] {
      assert f + g == g;
    } else {
      assert (f + g)[1..] == f[1..] + g;
      PlacedConcat(code, pc + Size(f[0]), f[1..], g);
    }
  }

  lemma {:induction false} ValidConcat(f: seq<Instr>, g: seq<Instr>)
    ensures AllValid(f + g) <==> AllValid(f) && AllValid(g)
  {
    if f == [] {
      assert f + g == g;
    } else {
      assert (f + g)[1..] == f[1..] + g;
      ValidConcat(f[1..], g);
    }
  }

  lemma Assoc(s: seq<byte>, t: seq<byte>, u: seq<byte>)
    ensures s + (t + u) == s + t + u
  {
  }

  lemma {:induction false} BytesConcat(f: seq<Instr>, g: seq<Instr>)
    requires AllValid(f) && AllValid(g)
    ensures AllValid(f + g) && Bytes(f + g) == Bytes(f) + Bytes(g)
  {
    ValidConcat(f, g);
    if f == [] {
      assert f + g == g;
    } else {
      var rest := f[1..];
      assert (f + g)[1..] == rest + g && (f + g)[0] == f[0];
      BytesConcat(rest, g);
      Assoc(Enc(f[0]), Bytes(rest), Bytes(g));
    }
  }

  /** A fragment's meaning does not depend on where its bytes are copied to. */
  lemma {:induction false} BytesPlaced(code: seq<byte>, pc: nat, f: seq<Instr>)
    requires AllValid(f) && BytesAt(code, pc, Bytes(f))
    ensures Placed(code, pc, f)
    decreases f
  {
    hide Enc, Decode, Valid, BytesAt, Size;
    if f != [] {
      var i, rest := f[0], f[1..];
      assert Valid(i) && AllValid(rest);
      var e, bs := Enc(i), Bytes(rest);
      assert Bytes(f) == e + bs;
      BytesAtSplit(code, pc, e, bs);
      DecodeEnc(code, pc, i);
      BytesPlaced(code, pc + Size(i), rest);
    }
  }
}
