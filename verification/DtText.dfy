/** Numbers as text: digit strings, and what js_atod reads of a string. */
module DtText {
  import opened DtArith

  /** A character of a zero-terminated string. */
  function At(s: string, i: nat): char { if i < |s| then s[i] else '\0' }

  /** to_digit */
  function ToDigit(c: char): (d: nat)
    ensures d < 10 <==> '0' <= c <= '9'
    ensures d <= 36
  {
    if '0' <= c <= '9' then c as int - '0' as int
    else if 'A' <= c <= 'Z' then c as int - 'A' as int + 10
    else if 'a' <= c <= 'z' then c as int - 'a' as int + 10
    else 36
  }

  function DigitChar(d: nat): (c: char)
    requires d < 10
    ensures '0' <= c <= '9' && ToDigit(c) == d
  {
    '0' + d as char
  }

  /** The last `n` decimal digits of `v`. */
  function Dec(v: nat, n: nat): (s: string)
    ensures |s| == n && forall i :: 0 <= i < n ==> '0' <= s[i] <= '9'
  {
    if n == 0 then "" else Dec(v / 10, n - 1) + [DigitChar(v % 10)]
  }

  /** The number a sequence of digits stands for. */
  function NatIn(ds: seq<nat>, radix: nat): nat {
    if ds == [] then 0 else NatIn(ds[..|ds| - 1], radix) * radix + ds[|ds| - 1]
  }

  predicate AreDigits(ds: seq<nat>, radix: nat) { forall i :: 0 <= i < |ds| ==> ds[i] < radix }

  /** The radix (0 leaves it to the prefix) and the flags; past the prefix, those that are in effect. */
  datatype Options = Options(radix: nat, intOnly: bool, underscores: bool, binOct: bool, legacyOctal: bool)

  predicate ValidRadix(radix: nat) { 2 <= radix <= 36 }

  predicate IsSep(o: Options, c: char) { o.underscores && c == '_' }

  /** A dot that belongs to the number. */
  predicate IsDot(s: string, o: Options, start: nat, p: nat) {
    At(s, p) == '.' && (p > start || ToDigit(At(s, p + 1)) < o.radix) && !o.intOnly
  }

  /** Where a scan of digits stands: the next character, the digits passed, and those before the dot (-1 without one). */
  datatype Scan = Scan(p: nat, pos: nat, dot: int)

  /** Past a dot, if it is there. */
  function PassDot(s: string, o: Options, start: nat, c: Scan): Scan {
    if IsDot(s, o, start, c.p) then Scan(c.p + 1, c.pos, c.pos) else c
  }

  predicate SecondDot(s: string, o: Options, start: nat, c: Scan) {
    IsDot(s, o, start, c.p) && c.dot >= 0
  }

  /** The loop over the leading zeros. */
  function SkipZeros(s: string, o: Options, start: nat, c: Scan): (r: Scan)
    ensures r.p >= c.p && r.pos >= c.pos && r.pos - c.pos <= r.p - c.p && (c.p <= |s| ==> r.p <= |s|)
    ensures r.dot == c.dot || c.pos <= r.dot <= r.pos
    decreases if c.p <= |s| then |s| - c.p else 0
  {
    if SecondDot(s, o, start, c) then c
    else
      var d := PassDot(s, o, start, c);
      var p := if IsSep(o, At(s, d.p)) && d.p > start && At(s, d.p + 1) == '0' then d.p + 1 else d.p;
      if At(s, p) != '0' then Scan(p, d.pos, d.dot)
      else SkipZeros(s, o, start, Scan(p + 1, d.pos + 1, d.dot))
  }

  /** The loop over the digits from the first that is not zero; the digits, and where it ends. */
  function ReadDigits(s: string, o: Options, start: nat, c: Scan): (r: (Scan, seq<nat>))
    ensures r.0.p >= c.p && r.0.pos == c.pos + |r.1| && |r.1| <= r.0.p - c.p && (c.p <= |s| ==> r.0.p <= |s|)
    ensures AreDigits(r.1, o.radix) && (r.0.dot == c.dot || c.pos <= r.0.dot <= r.0.pos)
    decreases if c.p <= |s| then |s| - c.p else 0
  {
    if SecondDot(s, o, start, c) then (c, [])
    else
      var d := PassDot(s, o, start, c);
      var p := if IsSep(o, At(s, d.p)) && d.p > start && ToDigit(At(s, d.p + 1)) < o.radix then d.p + 1 else d.p;
      var digit := ToDigit(At(s, p));
      if digit >= o.radix || digit >= 36 then (Scan(p, d.pos, d.dot), [])
      else
        var (e, ds) := ReadDigits(s, o, start, Scan(p + 1, d.pos + 1, d.dot));
        (e, [digit] + ds)
  }

  /** The digits of an exponent behind the first, whose value is `v`; the whole value, and where they end. */
  function ReadExponent(s: string, o: Options, p: nat, v: nat): (r: (nat, nat))
    ensures r.0 >= p
    decreases if p <= |s| then |s| - p else 0
  {
    var q := if IsSep(o, At(s, p)) && ToDigit(At(s, p + 1)) < 10 then p + 1 else p;
    var c := ToDigit(At(s, q));
    if c >= 10 then (q, v) else ReadExponent(s, o, q + 1, v * 10 + c)
  }

  datatype Parsed =
    | NotANumber(p: nat)
    | Infinite(neg: bool, p: nat)
    /** The radix, the digits from the first that is not zero, the places of that digit and of the dot, the exponent and
        whether it is a power of two. */
    | Number(radix: nat, neg: bool, digits: seq<nat>, sigPos: nat, dotPos: int, exp: int, binary: bool, p: nat)

  function SkipSign(s: string): (n: nat)
    ensures n <= 1
  {
    if At(s, 0) == '+' || At(s, 0) == '-' then 1 else 0
  }

  /** The bits of a digit when the radix is a power of two, and 0 for the others. */
  function RadixBits(radix: nat): nat {
    if radix == 2 then 1 else if radix == 4 then 2 else if radix == 8 then 3 else if radix == 16 then 4
    else if radix == 32 then 5 else 0
  }

  /** The character that begins an exponent in this radix. */
  predicate ExponentMark(o: Options, c: char) {
    if o.radix == 10 then c == 'e' || c == 'E'
    else c == '@' || (1 <= RadixBits(o.radix) <= 4 && (c == 'p' || c == 'P'))
  }

  predicate ExponentFollows(s: string, o: Options, start: nat, p: nat) {
    !o.intOnly && ExponentMark(o, At(s, p)) && p > start
  }

  predicate StartsInfinity(s: string, p: nat) {
    p + 8 <= |s| && s[p..p + 8] == "Infinity"
  }

  /** Past the digits 0 to 7. */
  function PastOctal(s: string, p: nat): (q: nat)
    ensures q >= p
    decreases if p <= |s| then |s| - p else 0
  {
    if '0' <= At(s, p) <= '7' then PastOctal(s, p + 1) else p
  }

  /** What a prefix does: where the digits start, and the options that are then in effect. */
  datatype Prefixed = Prefixed(fail: bool, p: nat, o: Options)

  /** The radix is the one given or, without one, 10. */
  function Default(o: Options): Options { if o.radix == 0 then o.(radix := 10) else o }

  /** There must be a digit after the prefix. */
  function AfterPrefix(s: string, p: nat, o: Options): Prefixed { Prefixed(ToDigit(At(s, p)) >= o.radix, p, o) }

  function Prefix(s: string, o: Options, p: nat): (r: Prefixed)
    requires o.radix == 0 || ValidRadix(o.radix)
    ensures p <= r.p <= p + 2 && ValidRadix(r.o.radix) && r.o.intOnly == o.intOnly
    ensures p <= |s| ==> r.p <= |s|
  {
    var c := At(s, p + 1);
    if At(s, p) != '0' then Prefixed(false, p, Default(o))
    else if (c == 'x' || c == 'X') && (o.radix == 0 || o.radix == 16) then AfterPrefix(s, p + 2, o.(radix := 16))
    else if (c == 'o' || c == 'O') && o.radix == 0 && o.binOct then AfterPrefix(s, p + 2, o.(radix := 8))
    else if (c == 'b' || c == 'B') && o.radix == 0 && o.binOct then AfterPrefix(s, p + 2, o.(radix := 2))
    else if '0' <= c <= '9' && o.radix == 0 && o.legacyOctal then
      var o' := o.(underscores := false);
      var q := PastOctal(s, p + 1);
      if At(s, q) == '8' || At(s, q) == '9' then Prefixed(false, p, Default(o'))
      else AfterPrefix(s, p + 1, o'.(radix := 8))
    else Prefixed(false, p, Default(o))
  }

  /** What js_atod reads. */
  function Parse(s: string, o: Options): Parsed
    requires o.radix == 0 || ValidRadix(o.radix)
  {
    var start, neg := SkipSign(s), At(s, 0) == '-';
    if At(s, start) != '0' && !o.intOnly && StartsInfinity(s, start) then Infinite(neg, start + 8)
    else
      var f := Prefix(s, o, start);
      if f.fail then NotANumber(f.p) else ParseDigits(s, f.o, start, f.p, neg)
  }

  /** Digits and exponent, from `p` on. */
  function ParseDigits(s: string, o: Options, start: nat, p: nat, neg: bool): Parsed {
    var z := SkipZeros(s, o, start, Scan(p, 0, -1));
    var (d, ds) := ReadDigits(s, o, start, z);
    var dotPos := if d.dot < 0 then d.pos else d.dot;
    if ExponentFollows(s, o, start, d.p) then
      var q := if At(s, d.p + 1) == '+' || At(s, d.p + 1) == '-' then d.p + 2 else d.p + 1;
      var c := ToDigit(At(s, q));
      if c >= 10 then NotANumber(q)
      else
        var (r, v) := ReadExponent(s, o, q + 1, c);
        Number(o.radix, neg, ds, z.pos, dotPos, if At(s, d.p + 1) == '-' then -(v as int) else v,
               At(s, d.p) == 'p' || At(s, d.p) == 'P', r)
    else if d.p == start then NotANumber(d.p)
    else Number(o.radix, neg, ds, z.pos, dotPos, 0, false, d.p)
  }

  // ---- digits ----

  lemma {:induction false} NatSnoc(ds: seq<nat>, c: nat, radix: nat)
    ensures NatIn(ds + [c], radix) == NatIn(ds, radix) * radix + c
  {
    assert (ds + [c])[..|ds|] == ds;
  }

  lemma {:induction false} NatBound(ds: seq<nat>, radix: nat)
    requires AreDigits(ds, radix) && radix > 0
    ensures NatIn(ds, radix) < Pow(radix, |ds|)
    ensures ds != [] && ds[0] > 0 ==> Pow(radix, |ds| - 1) <= NatIn(ds, radix)
    decreases |ds|
  {
    PowOne(radix);
    if |ds| > 0 {
      var front, n := ds[..|ds| - 1], |ds| - 1;
      NatBound(front, radix);
      PowStep(radix, n);
      BoundStep(NatIn(front, radix), Pow(radix, n), ds[n], radix);
      if n == 0 {
        assert front == [];
      } else {
        PowStep(radix, n - 1);
        BoundBelow(NatIn(front, radix), Pow(radix, n - 1), ds[n], radix);
      }
    }
  }

  lemma BoundStep(v: nat, p: nat, c: nat, radix: nat)
    requires v < p && c < radix
    ensures v * radix + c < p * radix
  {
    MulMono(v + 1, p, radix);
  }

  lemma BoundBelow(v: nat, p: nat, c: nat, radix: nat)
    ensures p <= v ==> p * radix <= v * radix + c
  {
    if p <= v { MulMono(p, v, radix); }
  }

  /** Where one round of the scan of zeros arrives, before it looks for a zero. */
  function ZeroAt(s: string, o: Options, start: nat, c: Scan): (r: Scan)
    ensures r.p >= c.p
  {
    var d := PassDot(s, o, start, c);
    Scan(if IsSep(o, At(s, d.p)) && d.p > start && At(s, d.p + 1) == '0' then d.p + 1 else d.p, d.pos, d.dot)
  }

  lemma SkipStep(s: string, o: Options, start: nat, c: Scan)
    ensures SkipZeros(s, o, start, c)
         == if SecondDot(s, o, start, c) then c
            else var z := ZeroAt(s, o, start, c);
              if At(s, z.p) != '0' then z else SkipZeros(s, o, start, Scan(z.p + 1, z.pos + 1, z.dot))
  {
  }

  /** Where one round of the scan of digits arrives, before it looks at the digit. */
  function DigitAt(s: string, o: Options, start: nat, c: Scan): (r: Scan)
    ensures r.p >= c.p
  {
    var d := PassDot(s, o, start, c);
    Scan(if IsSep(o, At(s, d.p)) && d.p > start && ToDigit(At(s, d.p + 1)) < o.radix then d.p + 1 else d.p, d.pos, d.dot)
  }

  lemma ReadStep(s: string, o: Options, start: nat, c: Scan)
    requires ValidRadix(o.radix) && !SecondDot(s, o, start, c)
    ensures var d := DigitAt(s, o, start, c);
            ReadDigits(s, o, start, c) == if ToDigit(At(s, d.p)) >= o.radix then (d, []) else Behind(s, o, start, d)
  {
  }

  /** A digit, and what is read behind it. */
  function Behind(s: string, o: Options, start: nat, d: Scan): (Scan, seq<nat>) {
    var r := ReadDigits(s, o, start, Scan(d.p + 1, d.pos + 1, d.dot));
    (r.0, [ToDigit(At(s, d.p))] + r.1)
  }

  /** Where the scan of zeros stops, the scan of digits reads no zero. */
  lemma StopsAtNoZero(s: string, o: Options, start: nat, c: Scan)
    requires ValidRadix(o.radix) && !SecondDot(s, o, start, c) && At(s, ZeroAt(s, o, start, c).p) != '0'
    ensures var ds := ReadDigits(s, o, start, ZeroAt(s, o, start, c)).1; ds == [] || ds[0] > 0
  {
  }

  /** The first of the digits is not zero. */
  lemma {:induction false} FirstNotZero(s: string, o: Options, start: nat, c: Scan)
    requires ValidRadix(o.radix)
    ensures var ds := ReadDigits(s, o, start, SkipZeros(s, o, start, c)).1; ds == [] || ds[0] > 0
    decreases if c.p <= |s| then |s| - c.p else 0
  {
    hide SkipZeros, ReadDigits, ZeroAt, IsDot;
    SkipStep(s, o, start, c);
    if SecondDot(s, o, start, c) {
      NoDigits(s, o, start, c);
    } else {
      var z := ZeroAt(s, o, start, c);
      if At(s, z.p) == '0' {
        FirstNotZero(s, o, start, Scan(z.p + 1, z.pos + 1, z.dot));
      } else {
        StopsAtNoZero(s, o, start, c);
      }
    }
  }

  lemma NoDigits(s: string, o: Options, start: nat, c: Scan)
    requires SecondDot(s, o, start, c)
    ensures ReadDigits(s, o, start, c) == (c, [])
  {
  }

  /** What holds of every number that is read. */
  lemma {:induction false} ParsedWell(s: string, o: Options)
    requires o.radix == 0 || ValidRadix(o.radix)
    ensures var n := Parse(s, o);
            n.Number? ==>
              && ValidRadix(n.radix) && n.sigPos <= |s| && 0 <= n.dotPos <= |s| && |n.digits| <= |s|
              && AreDigits(n.digits, n.radix) && (n.digits != [] ==> n.digits[0] > 0)
  {
    hide ReadDigits, SkipZeros, ReadExponent, Prefix, StartsInfinity, ExponentFollows;
    var start := SkipSign(s);
    var f := Prefix(s, o, start);
    FirstNotZero(s, f.o, start, Scan(f.p, 0, -1));
  }
}
