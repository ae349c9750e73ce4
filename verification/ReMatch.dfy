/** Patterns and their meaning: every way a pattern can match, in the order a backtracking matcher tries them. */
module ReMatch {
  import opened ReChars
  import opened ReInput
  import ReCode

  const INFINITE := ReCode.INT32_MAX

  datatype Node =
    | Empty
    | Char(c: int)
    | Class(points: seq<int>)
    | Dot | Any
    | LineStart | LineEnd
    | WordBoundary(negated: bool)
    | Group(body: Node)
    | BackRef(i: nat)
    | Look(negated: bool, behind: bool, body: Node)
    | Quant(body: Node, min: nat, max: nat, greedy: bool)
    | Cat(a: Node, b: Node)
    | Alt(a: Node, b: Node)

  /** Number of capture groups; they are numbered from left to right. */
  function Caps(n: Node): nat {
    match n
    case Group(b) => 1 + Caps(b)
    case Look(_, _, b) => Caps(b)
    case Quant(b, _, _, _) => Caps(b)
    case Cat(a, b) => Caps(a) + Caps(b)
    case Alt(a, b) => Caps(a) + Caps(b)
    case _ => 0
  }

  /** A position with the captures made so far; -1 stands for an unset capture. */
  datatype X = X(pos: nat, caps: seq<int>)

  function SetCap(caps: seq<int>, i: nat, v: int): (r: seq<int>)
    ensures |r| == |caps|
  {
    if i < |caps| then caps[i := v] else caps
  }

  function ResetCaps(caps: seq<int>, first: nat, last: int): (r: seq<int>)
    ensures |r| == |caps|
    decreases last - first
  {
    if first > last then caps
    else ResetCaps(SetCap(SetCap(caps, 2 * first, -1), 2 * first + 1, -1), first + 1, last)
  }

  /** The captures of the groups `first` to `last` are unset, and no others. */
  lemma {:induction false} ResetCapsAt(caps: seq<int>, first: nat, last: int, j: nat)
    requires j < |caps|
    ensures ResetCaps(caps, first, last)[j] == if 2 * first <= j <= 2 * last + 1 then -1 else caps[j]
    decreases last - first
  {
    if first <= last {
      ResetCapsAt(SetCap(SetCap(caps, 2 * first, -1), 2 * first + 1, -1), first + 1, last, j);
    }
  }

  /** Half-open intervals given by their end points. */
  ghost predicate ClassHas(points: seq<int>, c: int) {
    exists j: nat :: InInterval(points, j, c)
  }

  predicate InInterval(points: seq<int>, j: nat, c: int) {
    2 * j + 1 < |points| && points[2 * j] <= c < points[2 * j + 1]
  }

  predicate IsCharNode(n: Node) { n.Char? || n.Class? || n.Dot? || n.Any? }

  ghost predicate Accepts(c: Ctx, n: Node, ch: int) {
    match n
    case Char(v) => Canon(c, ch) == v
    case Class(points) => ClassHas(points, Canon(c, ch))
    case Dot => ch !in LINE_TERMINATORS
    case _ => true
  }

  /** What holds between a start and a result reached in the given direction. */
  predicate After(c: Ctx, back: bool, x: X, r: X) {
    && |r.caps| == |x.caps|
    && (if back then r.pos <= x.pos else x.pos <= r.pos)
    && r.pos <= |c.units|
    && (!MidPair(c, x.pos) ==> !MidPair(c, r.pos))
  }

  function Dist(c: Ctx, back: bool, p: nat): nat
    requires p <= |c.units|
  {
    if back then p else |c.units| - p
  }

  /** The results that moved away from `p`: an iteration that does not move is given up. */
  function Moved(rs: seq<X>, p: nat): (m: seq<X>)
    ensures forall r :: r in m ==> r in rs && r.pos != p
  {
    if rs == [] then []
    else if rs[0].pos == p then Moved(rs[1..], p)
    else [rs[0]] + Moved(rs[1..], p)
  }

  function Dec(max: nat): nat {
    if max == INFINITE || max == 0 then max else max - 1
  }

  /** The results of one character test. */
  ghost function CharResults(c: Ctx, n: Node, back: bool, x: X): (rs: seq<X>)
    requires x.pos <= |c.units|
    ensures forall r :: r in rs ==> After(c, back, x, r)
  {
    if back then
      if x.pos == 0 then []
      else
        var (ch, p) := GetPrevChar(c, x.pos, 0);
        if Accepts(c, n, ch) then [X(p, x.caps)] else []
    else if x.pos == |c.units| then []
    else
      var (ch, p) := GetChar(c, x.pos, |c.units|);
      if Accepts(c, n, ch) then [X(p, x.caps)] else []
  }

  ghost function BackRefResults(c: Ctx, i: nat, back: bool, x: X): (rs: seq<X>)
    requires x.pos <= |c.units|
    ensures forall r :: r in rs ==> After(c, back, x, r)
  {
    if 2 * i + 1 >= |x.caps| then []
    else
      var s, e := x.caps[2 * i], x.caps[2 * i + 1];
      if s == -1 || e == -1 then [x]
      else
        var p := RepeatEnd(c, s, e, back, x.pos);
        if p == -1 then [] else [X(p, x.caps)]
  }

  /** All results of matching `n` from `x`, first choice first. `k` is the number of `n`'s first capture group. */
  ghost function Results(c: Ctx, n: Node, k: nat, back: bool, x: X): (rs: seq<X>)
    requires x.pos <= |c.units|
    ensures forall r :: r in rs ==> After(c, back, x, r)
    decreases n, 0, 0, 0, 0
  {
    match n
    case Empty => [x]
    case Char(_) => CharResults(c, n, back, x)
    case Class(_) => CharResults(c, n, back, x)
    case Dot => CharResults(c, n, back, x)
    case Any => CharResults(c, n, back, x)
    case LineStart => if x.pos == 0 || (c.multiLine && EndsLine(c, x.pos - 1)) then [x] else []
    case LineEnd => if x.pos == |c.units| || (c.multiLine && EndsLine(c, x.pos)) then [x] else []
    case WordBoundary(negated) => if (InWord(c, x.pos - 1) != InWord(c, x.pos)) != negated then [x] else []
    case BackRef(i) => BackRefResults(c, i, back, x)
    case Group(b) =>
      var enter := X(x.pos, SetCap(x.caps, if back then 2 * k + 1 else 2 * k, x.pos));
      SetAll(c, back, if back then 2 * k else 2 * k + 1, enter, Results(c, b, k + 1, back, enter))
    case Look(negated, behind, b) =>
      var rs := Results(c, b, k, behind, x);
      if negated then (if rs == [] then [x] else [])
      else if rs == [] then [] else assert rs[0] in rs && After(c, behind, x, rs[0]); [X(x.pos, rs[0].caps)]
    case Quant(b, min, max, greedy) =>
      var start := if min == 0 && Caps(b) > 0 then X(x.pos, ResetCaps(x.caps, k, k + Caps(b) - 1)) else x;
      Rep(c, b, k, back, greedy, min, max, start)
    case Cat(a, b) =>
      if back then ResultsSeq(c, a, k, back, x, Results(c, b, k + Caps(a), back, x))
      else ResultsSeq(c, b, k + Caps(a), back, x, Results(c, a, k, back, x))
    case Alt(a, b) => Results(c, a, k, back, x) + Results(c, b, k + Caps(a), back, x)
  }

  function SetAll(c: Ctx, back: bool, i: nat, o: X, rs: seq<X>): (ms: seq<X>)
    requires forall r :: r in rs ==> After(c, back, o, r)
    ensures forall r :: r in ms ==> After(c, back, o, r)
    ensures |ms| == |rs|
  {
    if rs == [] then []
    else
      assert rs[0] in rs && After(c, back, o, rs[0]);
      [X(rs[0].pos, SetCap(rs[0].caps, i, rs[0].pos))] + SetAll(c, back, i, o, rs[1..])
  }

  /** The results of matching `n` from each of `xs` in turn; `o` is where they all started. */
  ghost function ResultsSeq(c: Ctx, n: Node, k: nat, back: bool, o: X, xs: seq<X>): (rs: seq<X>)
    requires forall x :: x in xs ==> After(c, back, o, x)
    ensures forall r :: r in rs ==> After(c, back, o, r)
    decreases n, 1, 0, 0, |xs|
  {
    if xs == [] then []
    else
      assert xs[0] in xs && After(c, back, o, xs[0]);
      Results(c, n, k, back, xs[0]) + ResultsSeq(c, n, k, back, o, xs[1..])
  }

  /** RepeatMatcher of section 22.2.2.3.1 of ECMA-262, without its reset of captures. */
  ghost function Rep(c: Ctx, b: Node, k: nat, back: bool, greedy: bool, min: nat, max: nat, x: X): (rs: seq<X>)
    requires x.pos <= |c.units|
    ensures forall r :: r in rs ==> After(c, back, x, r)
    decreases b, 1, min, Dist(c, back, x.pos) + 1, 0
  {
    if min > 0 then
      RepSeq(c, b, k, back, greedy, min - 1, Dec(max), |c.units| + 1, x, Results(c, b, k, back, x))
    else if max == 0 then [x]
    else
      var more := RepSeq(c, b, k, back, greedy, 0, Dec(max), Dist(c, back, x.pos), x,
                         Moved(Results(c, b, k, back, x), x.pos));
      if greedy then more + [x] else [x] + more
  }

  ghost function RepSeq(c: Ctx, b: Node, k: nat, back: bool, greedy: bool, min: nat, max: nat, d: nat, o: X,
                        xs: seq<X>): (rs: seq<X>)
    requires forall x :: x in xs ==> After(c, back, o, x) && Dist(c, back, x.pos) < d
    ensures forall r :: r in rs ==> After(c, back, o, r)
    decreases b, 1, min, d, |xs|
  {
    if xs == [] then []
    else
      assert xs[0] in xs && After(c, back, o, xs[0]);
      Rep(c, b, k, back, greedy, min, max, xs[0]) + RepSeq(c, b, k, back, greedy, min, max, d, o, xs[1..])
  }
}
