/** The code a pattern is compiled to, as a function of the pattern. */
module ReCompile {
  import opened ReChars
  import opened ReCode
  import opened ReInput
  import opened ReMatch

  /** re_need_check_advance on a fragment: false only if every instruction is known and one of them moves. */
  predicate NeedCheckAdvance(f: seq<Instr>) {
    !(AllPredictable(f) && SomeMoves(f))
  }

  predicate Predictable(i: Instr) {
    || Moves(i)
    || i.LineStart? || i.LineEnd? || i.PushI32? || i.PushCharPos? || i.Drop? || i.WordBoundary? || i.NotWordBoundary?
    || i.Prev? || i.SaveStart? || i.SaveEnd? || i.SaveReset? || i.BackReference? || i.BackwardBackReference?
  }

  predicate Moves(i: Instr) {
    i.Char8? || i.Char16? || i.Char32? || i.Dot? || i.Any? || i.Range? || i.Range32?
  }

  predicate AllPredictable(f: seq<Instr>) {
    f != [] ==> Predictable(f[0]) && AllPredictable(f[1..])
  }

  predicate SomeMoves(f: seq<Instr>) {
    f != [] && (Moves(f[0]) || SomeMoves(f[1..]))
  }

  /** re_is_simple_quantifier on a fragment: the number of characters it takes, or -1. */
  function SimpleCount(f: seq<Instr>): (n: int)
    ensures n >= -1
  {
    if f == [] then 0
    else
      var n := SimpleCount(f[1..]);
      if n < 0 then -1
      else if Moves(f[0]) then n + 1
      else if f[0].LineStart? || f[0].LineEnd? || f[0].WordBoundary? || f[0].NotWordBoundary? then n
      else -1
  }

  function CharInstr(c: int): Instr {
    if c <= 0x7f then Char8(c) else if c <= 0xffff then Char16(c) else Char32(c)
  }

  const NO_CHAR := 0xffff_ffff
  const UINT32_MAX := 0xffff_ffff

  /** Interval ends are made inclusive; in the 16 bit form 0xffff stands for infinity. */
  function Bounds(points: seq<int>, wide: bool): (bs: seq<int>)
    ensures |bs| == |points| - |points| % 2
  {
    if |points| < 2 then []
    else
      var high := points[1] - 1;
      [points[0], if !wide && high == UINT32_MAX - 1 then 0xffff else high] + Bounds(points[2..], wide)
  }

  function RangeInstr(points: seq<int>): Instr {
    if |points| < 2 then Char32(NO_CHAR)
    else
      var last := points[|points| - 1];
      var high := if last == UINT32_MAX then points[|points| - 2] else last;
      if high <= 0xffff then Range(Bounds(points, false)) else Range32(Bounds(points, true))
  }

  function Backward(back: bool, i: Instr): seq<Instr> {
    if back then [Prev, i, Prev] else [i]
  }

  /** The body of an optional iteration, with its advance check. */
  function Checked(f: seq<Instr>, check: bool): seq<Instr> {
    if check then [PushCharPos] + f + [CheckAdvance] else f
  }

  function Split(greedy: bool, off: int): Instr {
    if greedy then SplitNextFirst(off) else SplitGotoFirst(off)
  }

  function Star(g: seq<Instr>, greedy: bool): seq<Instr> {
    [Split(greedy, Len(g) + 5)] + g + [Goto(-(Len(g) + 10))]
  }

  function UpTo(g: seq<Instr>, greedy: bool, max: nat): seq<Instr> {
    [PushI32(max), Split(greedy, Len(g) + 5)] + g + [Loop(-(Len(g) + 10)), Drop]
  }

  function Times(f: seq<Instr>, min: nat): seq<Instr> {
    [PushI32(min)] + f + [Loop(-(Len(f) + 5)), Drop]
  }

  /** Up to `max` further iterations. */
  function Tail(g: seq<Instr>, greedy: bool, max: nat): seq<Instr> {
    if max == INFINITE then Star(g, greedy) else if max > 0 then UpTo(g, greedy, max) else []
  }

  function Minus(max: nat, min: nat): nat
    requires min <= max
  {
    if max == INFINITE then INFINITE else max - min
  }

  predicate UseSimple(f: seq<Instr>, max: nat, greedy: bool) {
    greedy && max > 0 && SimpleCount(f) > 0
  }

  /** Code of a quantified fragment, chosen as at the end of re_parse_term. */
  function QuantCode(f: seq<Instr>, min: nat, max: nat, greedy: bool, reset: seq<Instr>): seq<Instr>
    requires min <= max
  {
    var g := Checked(f, NeedCheckAdvance(f));
    if UseSimple(f, max, greedy) then
      [SimpleGreedyQuant(Len(f) + 1, min, max, SimpleCount(f))] + f + [Match]
    else if min == 0 then
      reset + (if max == 1 then [Split(greedy, Len(g))] + g else Tail(g, greedy, max))
    else if min == 1 && max == INFINITE && !NeedCheckAdvance(f) then
      f + [if greedy then SplitGotoFirst(-(Len(f) + 5)) else SplitNextFirst(-(Len(f) + 5))]
    else
      (if min == 1 then f else Times(f, min)) + Tail(g, greedy, Minus(max, min))
  }

  function Reset(first: nat, caps: nat): seq<Instr> {
    if caps == 0 then [] else [SaveReset(first, first + caps - 1)]
  }

  function CharNodeInstr(n: Node): Instr
    requires IsCharNode(n)
  {
    match n
    case Char(c) => CharInstr(c)
    case Class(points) => RangeInstr(points)
    case Dot => ReCode.Dot
    case _ => ReCode.Any
  }

  function Asm(n: Node, k: nat, back: bool): seq<Instr> {
    match n
    case Empty => []
    case Char(_) => Backward(back, CharNodeInstr(n))
    case Class(_) => Backward(back, CharNodeInstr(n))
    case Dot => Backward(back, CharNodeInstr(n))
    case Any => Backward(back, CharNodeInstr(n))
    case LineStart => [ReCode.LineStart]
    case LineEnd => [ReCode.LineEnd]
    case WordBoundary(negated) => [if negated then NotWordBoundary else ReCode.WordBoundary]
    case BackRef(i) => [if back then BackwardBackReference(i) else BackReference(i)]
    case Group(b) =>
      if back then [SaveEnd(k)] + Asm(b, k + 1, back) + [SaveStart(k)]
      else [SaveStart(k)] + Asm(b, k + 1, back) + [SaveEnd(k)]
    case Look(negated, behind, b) =>
      var f := Asm(b, k, behind);
      [if negated then NegativeLookahead(Len(f) + 1) else Lookahead(Len(f) + 1)] + f + [Match]
    case Quant(b, min, max, greedy) =>
      if min <= max then QuantCode(Asm(b, k, back), min, max, greedy, Reset(k, Caps(b))) else []
    case Cat(a, b) =>
      if back then Asm(b, k + Caps(a), back) + Asm(a, k, back)
      else Asm(a, k, back) + Asm(b, k + Caps(a), back)
    case Alt(a, b) =>
      var f, g := Asm(a, k, back), Asm(b, k + Caps(a), back);
      [SplitNextFirst(Len(f) + 5)] + f + [Goto(Len(g))] + g
  }

  /** The search loop in front of a pattern that is not sticky. */
  function Prefix(sticky: bool): seq<Instr> {
    if sticky then [] else [SplitGotoFirst(6), ReCode.Any, Goto(-11)]
  }

  function Program(n: Node, sticky: bool): seq<Instr> {
    Prefix(sticky) + [SaveStart(0)] + Asm(n, 1, false) + [SaveEnd(0), Match]
  }

  // ---- patterns the parser can produce ----

  ghost predicate ValidPoints(points: seq<int>) {
    && |points| % 2 == 0 && |points| / 2 < 65535
    && (forall i :: 0 <= i < |points| ==> 0 <= points[i] <= UINT32_MAX)
    && (forall i, j :: 0 <= i < j < |points| ==> points[i] < points[j])
  }

  ghost predicate ValidNode(n: Node) {
    match n
    case Char(c) => 0 <= c <= 0x10_ffff
    case Class(points) => ValidPoints(points)
    case BackRef(i) => i < 256
    case Group(b) => ValidNode(b)
    case Look(_, _, b) => ValidNode(b)
    case Quant(b, min, max, _) => ValidNode(b) && min <= max <= INFINITE
    case Cat(a, b) => ValidNode(a) && ValidNode(b)
    case Alt(a, b) => ValidNode(a) && ValidNode(b)
    case _ => true
  }

  // ---- concatenation, in either direction ----

  function First(a: Node, b: Node, back: bool): Node { if back then b else a }

  function Second(a: Node, b: Node, back: bool): Node { if back then a else b }

  function FirstCap(a: Node, k: nat, back: bool): nat { if back then k + Caps(a) else k }

  function SecondCap(a: Node, k: nat, back: bool): nat { if back then k else k + Caps(a) }

  lemma CatAsm(a: Node, b: Node, k: nat, back: bool)
    ensures Asm(Cat(a, b), k, back)
         == Asm(First(a, b, back), FirstCap(a, k, back), back) + Asm(Second(a, b, back), SecondCap(a, k, back), back)
  {
    hide QuantCode, Reset, CharNodeInstr, Caps;
  }

  lemma CatResults(c: Ctx, a: Node, b: Node, k: nat, back: bool, x: X)
    requires x.pos <= |c.units|
    ensures Results(c, Cat(a, b), k, back, x)
         == ResultsSeq(c, Second(a, b, back), SecondCap(a, k, back), back, x,
                       Results(c, First(a, b, back), FirstCap(a, k, back), back, x))
  {
    hide Caps, After, CharResults, BackRefResults, Rep, ResultsSeq, SetAll, SetCap, ResetCaps, EndsLine, InWord, RepeatEnd;
  }

  lemma QuantAsm(b: Node, min: nat, max: nat, greedy: bool, k: nat, back: bool)
    requires min <= max
    ensures Asm(Quant(b, min, max, greedy), k, back) == QuantCode(Asm(b, k, back), min, max, greedy, Reset(k, Caps(b)))
  {
    hide QuantCode, Caps;
  }

  function QuantStart(b: Node, min: nat, k: nat, x: X): X {
    if min == 0 && Caps(b) > 0 then X(x.pos, ResetCaps(x.caps, k, k + Caps(b) - 1)) else x
  }

  lemma QuantResults(c: Ctx, b: Node, min: nat, max: nat, greedy: bool, k: nat, back: bool, x: X)
    requires x.pos <= |c.units|
    ensures Results(c, Quant(b, min, max, greedy), k, back, x)
         == Rep(c, b, k, back, greedy, min, max, QuantStart(b, min, k, x))
  {
    hide Rep, Caps, After, CharResults, BackRefResults, ResultsSeq, SetAll, SetCap, ResetCaps, EndsLine, InWord, RepeatEnd;
  }
}
