/** Numerals: texts that js_atod reads, in every radix, and what they mean. */
module DtNumeral {
  import opened DtArith
  import opened DtText
  import opened DtMeaning

  // ---- digits ----

  const LOWER := "0123456789abcdefghijklmnopqrstuvwxyz"

  const UPPER := "0123456789ABCDEFGHIJKLMNOPQRSTUVWXYZ"

  /** The value of a digit is its place among the digits, in either case. */
  lemma DigitValue(c: char, d: nat)
    requires d < 36
    ensures ToDigit(c) == d <==> c == LOWER[d] || c == UPPER[d]
  {
    LowerValue(d);
    UpperValue(d);
  }

  lemma LowerValue(d: nat)
    requires d < 36
    ensures ToDigit(LOWER[d]) == d
  {
  }

  lemma UpperValue(d: nat)
    requires d < 36
    ensures ToDigit(UPPER[d]) == d
  {
  }

  /** A digit, with a separator in front or not. */
  datatype Digit = Digit(sep: bool, c: char)

  function Shown(ds: seq<Digit>): string {
    if ds == [] then "" else (if ds[0].sep then "_" else "") + [ds[0].c] + Shown(ds[1..])
  }

  function Values(ds: seq<Digit>): (vs: seq<nat>)
    ensures |vs| == |ds| && forall i :: 0 <= i < |ds| ==> vs[i] == ToDigit(ds[i].c)
  {
    seq(|ds|, i requires 0 <= i < |ds| => ToDigit(ds[i].c))
  }

  predicate AllIn(ds: seq<Digit>, radix: nat) { forall i :: 0 <= i < |ds| ==> ToDigit(ds[i].c) < radix }

  predicate Separated(ds: seq<Digit>) { exists i :: 0 <= i < |ds| && ds[i].sep }

  /** Digits as they may stand: of this radix, and with separators only where these count. */
  predicate Fits(ds: seq<Digit>, o: Options) { AllIn(ds, o.radix) && (Separated(ds) ==> o.underscores) }

  lemma FitsTail(ds: seq<Digit>, o: Options)
    requires ds != [] && Fits(ds, o)
    ensures Fits(ds[1..], o) && ToDigit(ds[0].c) < o.radix && (ds[0].sep ==> o.underscores)
    ensures Values(ds) == [ToDigit(ds[0].c)] + Values(ds[1..])
  {
    var t := ds[1..];
    if Separated(t) {
      var i :| 0 <= i < |t| && t[i].sep;
      assert ds[i + 1].sep;
    }
  }

  // ---- what stands at a place ----

  /** From `p` on the string reads `t`, and then `rest`. */
  predicate From(s: string, p: nat, t: string, rest: string) { p <= |s| && s[p..] == t + rest }

  lemma FromAt(s: string, p: nat, t: string, rest: string)
    requires From(s, p, t, rest)
    ensures p + |t| <= |s| && From(s, p + |t|, "", rest)
    ensures forall i :: 0 <= i < |t| ==> At(s, p + i) == t[i]
    ensures At(s, p + |t|) == if rest == "" then '\0' else rest[0]
    ensures rest == "" ==> p + |t| == |s|
    ensures |rest| >= 2 ==> At(s, p + |t| + 1) == rest[1]
    ensures |rest| == 1 ==> At(s, p + |t| + 1) == '\0'
  {
    var u := s[p..];
    forall i | 0 <= i < |t| ensures At(s, p + i) == t[i] { assert u[i] == t[i] && u[i] == s[p + i]; }
    assert forall i :: 0 <= i < |rest| ==> u[|t| + i] == rest[i] && s[p + |t| + i] == u[|t| + i];
    assert s[p + |t|..] == rest;
  }

  lemma FromSplit(s: string, p: nat, a: string, b: string, rest: string)
    requires From(s, p, a + b, rest)
    ensures From(s, p, a, b + rest) && From(s, p + |a|, b, rest)
  {
    assert a + b + rest == a + (b + rest);
    FromAt(s, p, a, b + rest);
    assert "" + (b + rest) == b + rest;
  }

  // ---- the scans ----

  function Join(done: seq<nat>, r: (Scan, seq<nat>)): (Scan, seq<nat>) { (r.0, done + r.1) }

  /** One digit, with or without a separator in front. */
  lemma {:induction false} OneDigit(s: string, o: Options, start: nat, c: Scan, d: Digit, rest: string)
    requires ValidRadix(o.radix) && From(s, c.p, Shown([d]), rest) && ToDigit(d.c) < o.radix
    requires d.sep ==> o.underscores && c.p > start
    ensures var next := Scan(c.p + |Shown([d])|, c.pos + 1, c.dot);
            ReadDigits(s, o, start, c) == Join([ToDigit(d.c)], ReadDigits(s, o, start, next)) && From(s, next.p, "", rest)
  {
    hide ReadDigits, ToDigit;
    NoRun();
    assert Shown([d]) == (if d.sep then "_" else "") + [d.c];
    FromAt(s, c.p, Shown([d]), rest);
    NotDot(d.c);
    assert At(s, c.p) == Shown([d])[0];
    if d.sep { assert At(s, c.p + 1) == Shown([d])[1]; }
    ReadStep(s, o, start, c);
  }

  lemma NoRun()
    ensures Shown([]) == "" && Values([]) == [] && forall d: Digit :: [d][1..] == []
  {
  }

  lemma NotDot(c: char)
    requires ToDigit(c) < 36
    ensures c != '.' && c != '_' && c != '+' && c != '-' && c != '\0'
    ensures ToDigit('_') == 36 && ToDigit('.') == 36 && ToDigit('\0') == 36
  {
  }

  lemma ShownStep(ds: seq<Digit>)
    requires ds != []
    ensures Shown(ds) == Shown([ds[0]]) + Shown(ds[1..]) && Shown([ds[0]]) != ""
  {
    assert [ds[0]][1..] == [];
  }

  lemma {:induction false} DigitsRun(s: string, o: Options, start: nat, c: Scan, ds: seq<Digit>, rest: string)
    requires ValidRadix(o.radix) && From(s, c.p, Shown(ds), rest) && Fits(ds, o)
    requires ds != [] && ds[0].sep ==> c.p > start
    requires c.p >= start
    ensures var next := Scan(c.p + |Shown(ds)|, c.pos + |ds|, c.dot);
            ReadDigits(s, o, start, c) == Join(Values(ds), ReadDigits(s, o, start, next)) && From(s, next.p, "", rest)
    decreases |ds|
  {
    hide ReadDigits, Fits;
    if ds == [] {
      JoinNothing(ReadDigits(s, o, start, c));
      assert Values(ds) == [];
    } else {
      ShownStep(ds);
      FitsTail(ds, o);
      var a, b := Shown([ds[0]]), Shown(ds[1..]);
      FromSplit(s, c.p, a, b, rest);
      OneDigit(s, o, start, c, ds[0], b + rest);
      var next := Scan(c.p + |a|, c.pos + 1, c.dot);
      DigitsRun(s, o, start, next, ds[1..], rest);
      JoinTwice([ToDigit(ds[0].c)], Values(ds[1..]), ReadDigits(s, o, start, Scan(next.p + |b|, next.pos + |ds[1..]|, c.dot)));
    }
  }

  lemma JoinNothing(r: (Scan, seq<nat>))
    ensures Join([], r) == r
  {
    assert [] + r.1 == r.1;
  }

  lemma JoinTwice(a: seq<nat>, b: seq<nat>, r: (Scan, seq<nat>))
    ensures Join(a, Join(b, r)) == Join(a + b, r)
  {
    assert a + (b + r.1) == a + b + r.1;
  }

  /** A dot, in front of a digit. */
  lemma {:induction false} DotRun(s: string, o: Options, start: nat, c: Scan, ds: seq<Digit>, rest: string)
    requires ValidRadix(o.radix) && !o.intOnly && ds != [] && AllIn(ds, o.radix) && From(s, c.p, "." + Shown(ds), rest)
    requires c.p >= start && c.dot < 0 && (ds[0].sep ==> c.p > start)
    ensures ReadDigits(s, o, start, c) == ReadDigits(s, o, start, Scan(c.p + 1, c.pos, c.pos))
    ensures From(s, c.p + 1, Shown(ds), rest)
  {
    hide ReadDigits, ToDigit, Shown, SkipZeros, IsDot;
    FromSplit(s, c.p, ".", Shown(ds), rest);
    FromAt(s, c.p, ".", Shown(ds) + rest);
    assert At(s, c.p + 0) == '.';
    FirstShown(s, c.p + 1, ds, rest);
    NotDot(ds[0].c);
    PassedDot(s, o, start, c);
    ReadStep(s, o, start, c);
    ReadStep(s, o, start, Scan(c.p + 1, c.pos, c.pos));
  }

  lemma FirstShown(s: string, p: nat, ds: seq<Digit>, rest: string)
    requires ds != [] && From(s, p, Shown(ds), rest)
    ensures At(s, p) == if ds[0].sep then '_' else ds[0].c
  {
    ShownStep(ds);
    FromAt(s, p, Shown(ds), rest);
    assert At(s, p + 0) == Shown(ds)[0];
  }

  /** Behind a dot that is no second one there is no other dot. */
  lemma PassedDot(s: string, o: Options, start: nat, c: Scan)
    requires !o.intOnly && At(s, c.p) == '.' && At(s, c.p + 1) != '.' && c.p >= start && c.dot < 0
    requires c.p > start || ToDigit(At(s, c.p + 1)) < o.radix
    ensures var d := Scan(c.p + 1, c.pos, c.pos);
            !SecondDot(s, o, start, c) && !SecondDot(s, o, start, d) && DigitAt(s, o, start, c) == DigitAt(s, o, start, d)
  {
    hide ToDigit;
  }

  /** What may follow the digits: the end, or a character that is neither a digit nor a dot nor a separator. */
  predicate Ends(rest: string, o: Options) {
    rest == "" || (ToDigit(rest[0]) >= o.radix && rest[0] != '.' && rest[0] != '_')
  }

  lemma {:induction false} EndRun(s: string, o: Options, start: nat, c: Scan, rest: string)
    requires ValidRadix(o.radix) && From(s, c.p, "", rest) && Ends(rest, o)
    ensures ReadDigits(s, o, start, c) == (c, [])
  {
    hide ReadDigits, ToDigit;
    FromAt(s, c.p, "", rest);
    ReadStep(s, o, start, c);
    ZeroIsNoDigit();
  }

  lemma ZeroIsNoDigit()
    ensures ToDigit('\0') == 36
  {
  }

  /** The scan of zeros reads the leading zeros of what the scan of digits would read. */
  lemma {:induction false} ZerosFirst(s: string, o: Options, start: nat, c: Scan)
    requires ValidRadix(o.radix)
    ensures var z := SkipZeros(s, o, start, c);
            z.pos >= c.pos && ReadDigits(s, o, start, c) == Join(seq(z.pos - c.pos, _ => 0), ReadDigits(s, o, start, z))
    decreases if c.p <= |s| then |s| - c.p else 0
  {
    hide ReadDigits, SkipZeros, ToDigit;
    SkipStep(s, o, start, c);
    if SecondDot(s, o, start, c) {
      SameScan(ReadDigits(s, o, start, c));
    } else {
      var z := ZeroAt(s, o, start, c);
      if At(s, z.p) == '0' {
        ZeroPlace(s, o, start, c);
        ReadStep(s, o, start, c);
        var next := Scan(z.p + 1, z.pos + 1, z.dot);
        ZerosFirst(s, o, start, next);
        var n := SkipZeros(s, o, start, next);
        JoinTwice([0], seq(n.pos - next.pos, _ => 0), ReadDigits(s, o, start, n));
        assert [0] + seq(n.pos - next.pos, _ => 0) == seq(n.pos - c.pos, _ => 0);
      } else {
        SameRead(s, o, start, c);
        SameScan(ReadDigits(s, o, start, c));
      }
    }
  }

  lemma SameScan(r: (Scan, seq<nat>))
    ensures Join(seq(0, _ => 0), r) == r
  {
    assert seq(0, _ => 0) + r.1 == r.1;
  }

  lemma ZeroPlace(s: string, o: Options, start: nat, c: Scan)
    requires ValidRadix(o.radix) && At(s, ZeroAt(s, o, start, c).p) == '0'
    ensures DigitAt(s, o, start, c) == ZeroAt(s, o, start, c) && ToDigit('0') == 0 && ZeroAt(s, o, start, c).p < |s|
    ensures ZeroAt(s, o, start, c).p >= c.p
  {
  }

  lemma SameRead(s: string, o: Options, start: nat, c: Scan)
    requires ValidRadix(o.radix) && !SecondDot(s, o, start, c) && At(s, ZeroAt(s, o, start, c).p) != '0'
    ensures ReadDigits(s, o, start, ZeroAt(s, o, start, c)) == ReadDigits(s, o, start, c)
    ensures ZeroAt(s, o, start, c).pos == c.pos
  {
  }

  // ---- numerals ----

  /** Sign, prefix, integer part, dot and fraction, and an exponent (without digits: none). */
  datatype Numeral = Numeral(radix: nat, sign: string, prefix: string, whole: seq<Digit>, dot: bool, frac: seq<Digit>,
                             mark: char, expSign: string, exp: seq<Digit>)

  function Fraction(n: Numeral): string { if n.dot then "." + Shown(n.frac) else "" }

  function Tail(n: Numeral): string { if n.exp == [] then "" else [n.mark] + n.expSign + Shown(n.exp) }

  /** The numeral behind its sign and its prefix. */
  function Body(n: Numeral): string { Shown(n.whole) + Fraction(n) + Tail(n) }

  function Text(n: Numeral): string { n.sign + n.prefix + Body(n) }

  predicate IsSign(t: string) { t == "" || t == "+" || t == "-" }

  /** An exponent of ten is marked by `e`; in the other radices `@` marks one of the radix, and `p` one of two. */
  predicate Marks(mark: char, radix: nat) {
    if radix == 10 then mark == 'e' || mark == 'E'
    else mark == '@' || ((mark == 'p' || mark == 'P') && radix in {2, 4, 8, 16})
  }

  predicate WellFormed(n: Numeral) {
    && ValidRadix(n.radix) && IsSign(n.sign) && IsSign(n.expSign)
    && AllIn(n.whole, n.radix) && AllIn(n.frac, n.radix) && AllIn(n.exp, 10)
    && (if n.whole != [] then !n.whole[0].sep else n.prefix == "" && n.frac != [] && !n.frac[0].sep)
    && (n.frac != [] ==> n.dot) && (n.exp != [] ==> Marks(n.mark, n.radix) && !n.exp[0].sep)
  }

  /** What may follow a numeral: the end, or a character that cannot belong to it. */
  predicate Delimits(rest: string) {
    rest == "" || (ToDigit(rest[0]) == 36 && rest[0] != '.' && rest[0] != '_' && rest[0] != '@')
  }

  /** The string is a numeral, and what follows it. */
  predicate Stands(s: string, n: Numeral, rest: string) { s == Text(n) + rest && Delimits(rest) }

  predicate AnySeparated(n: Numeral) { Separated(n.whole) || Separated(n.frac) || Separated(n.exp) }

  /** The options under which the numeral is read in its radix: those that admit its prefix and its separators. A legacy zero
      turns separators off, also where an 8 or a 9 shows that the number is decimal after all. */
  predicate Admits(n: Numeral, o: Options) {
    && (o.intOnly ==> !n.dot && n.exp == [])
    && if n.prefix == "0x" || n.prefix == "0X" then
         n.radix == 16 && (o.radix == 0 || o.radix == 16) && (AnySeparated(n) ==> o.underscores)
       else if n.prefix == "0o" || n.prefix == "0O" then
         n.radix == 8 && o.radix == 0 && o.binOct && (AnySeparated(n) ==> o.underscores)
       else if n.prefix == "0b" || n.prefix == "0B" then
         n.radix == 2 && o.radix == 0 && o.binOct && (AnySeparated(n) ==> o.underscores)
       else if n.prefix == "0" then
         n.radix == 8 && o.radix == 0 && o.legacyOctal && !AnySeparated(n)
       else if LegacyStart(n) && o.radix == 0 && o.legacyOctal then
         n.prefix == "" && n.radix == 10 && !AnySeparated(n) && HasEightOrNine(n.whole)
       else
         n.prefix == "" && n.radix == (if o.radix == 0 then 10 else o.radix) && (AnySeparated(n) ==> o.underscores)
  }

  /** A zero, and directly behind it another decimal digit. */
  predicate LegacyStart(n: Numeral) {
    |n.whole| > 1 && n.whole[0].c == '0' && !n.whole[1].sep && '0' <= n.whole[1].c <= '9'
  }

  predicate HasEightOrNine(ds: seq<Digit>) { exists i :: 0 <= i < |ds| && (ds[i].c == '8' || ds[i].c == '9') }

  function LeadingZeros(vs: seq<nat>): (z: nat)
    ensures z <= |vs| && (z < |vs| ==> vs[z] != 0) && forall i :: 0 <= i < z ==> vs[i] == 0
  {
    if vs == [] || vs[0] != 0 then 0 else 1 + LeadingZeros(vs[1..])
  }

  /** What the numeral means. */
  function Meaning(n: Numeral): Parsed {
    var all := Values(n.whole) + Values(n.frac);
    var z := LeadingZeros(all);
    var e := NatIn(Values(n.exp), 10);
    Number(n.radix, n.sign == "-", all[z..], z, |n.whole|, if n.expSign == "-" then -(e as int) else e,
           n.exp != [] && (n.mark == 'p' || n.mark == 'P'), |Text(n)|)
  }

  /** The options that are in effect behind the prefix. */
  function Effective(n: Numeral, o: Options): Options {
    if n.prefix == "0" || (LegacyStart(n) && n.prefix == "" && o.radix == 0 && o.legacyOctal)
    then o.(radix := n.radix, underscores := false) else o.(radix := n.radix)
  }

  // ---- the digits of a numeral ----

  /** The scan behind the integer part and the fraction that start at `p`. */
  function BodyEnd(n: Numeral, p: nat): Scan {
    Scan(p + |Shown(n.whole) + Fraction(n)|, |n.whole| + |n.frac|, if n.dot then |n.whole| else -1)
  }

  /** Integer part and fraction, read from their start. */
  lemma {:induction false} BodyRun(s: string, o: Options, start: nat, p: nat, n: Numeral, rest: string)
    requires ValidRadix(o.radix) && Fits(n.whole, o) && Fits(n.frac, o) && (o.intOnly ==> !n.dot) && p >= start
    requires (n.frac != [] ==> n.dot) && if n.whole != [] then !n.whole[0].sep else n.frac != [] && !n.frac[0].sep
    requires From(s, p, Shown(n.whole) + Fraction(n), rest) && Ends(rest, o)
    ensures ReadDigits(s, o, start, Scan(p, 0, -1)) == (BodyEnd(n, p), Values(n.whole) + Values(n.frac))
  {
    hide ReadDigits, Shown, Fits, Ends, AllIn, Fraction, Separated;
    var a, b := Shown(n.whole), Fraction(n);
    FromSplit(s, p, a, b, rest);
    DigitsRun(s, o, start, Scan(p, 0, -1), n.whole, b + rest);
    if n.whole != [] { ShownSome(n.whole); }
    FractionRun(s, o, start, Scan(p + |a|, |n.whole|, -1), n, rest);
  }

  lemma {:induction false} FractionRun(s: string, o: Options, start: nat, c: Scan, n: Numeral, rest: string)
    requires ValidRadix(o.radix) && Fits(n.frac, o) && (o.intOnly ==> !n.dot) && c.p >= start && c.dot < 0
    requires (n.frac != [] ==> n.dot) && (n.frac == [] || n.frac[0].sep ==> c.p > start)
    requires From(s, c.p, Fraction(n), rest) && Ends(rest, o)
    ensures var next := Scan(c.p + |Fraction(n)|, c.pos + |n.frac|, if n.dot then c.pos else c.dot);
            ReadDigits(s, o, start, c) == (next, Values(n.frac))
  {
    hide ReadDigits, Shown, Fits, Ends, AllIn, Separated;
    if !n.dot {
      assert Values(n.frac) == [];
      EndRun(s, o, start, c, rest);
    } else if n.frac == [] {
      NoRun();
      assert "." + "" == "." && Values(n.frac) == [];
      LoneDot(s, o, start, c, rest);
    } else {
      FitsAll(n.frac, o);
      DotRun(s, o, start, c, n.frac, rest);
      var e := Scan(c.p + 1, c.pos, c.pos);
      DigitsRun(s, o, start, e, n.frac, rest);
      EndRun(s, o, start, Scan(e.p + |Shown(n.frac)|, e.pos + |n.frac|, e.dot), rest);
      assert Values(n.frac) + [] == Values(n.frac);
    }
  }

  /** A dot without digits behind it. */
  lemma {:induction false} LoneDot(s: string, o: Options, start: nat, c: Scan, rest: string)
    requires ValidRadix(o.radix) && !o.intOnly && c.p > start && c.dot < 0 && From(s, c.p, ".", rest) && Ends(rest, o)
    ensures ReadDigits(s, o, start, c) == (Scan(c.p + 1, c.pos, c.pos), [])
  {
    hide ReadDigits, ToDigit;
    FromAt(s, c.p, ".", rest);
    assert At(s, c.p + 0) == '.';
    ReadStep(s, o, start, c);
    ZeroIsNoDigit();
  }

  lemma FitsAll(ds: seq<Digit>, o: Options)
    requires Fits(ds, o)
    ensures AllIn(ds, o.radix)
  {
  }

  lemma ShownSome(ds: seq<Digit>)
    requires ds != []
    ensures |Shown(ds)| > 0
  {
  }

  lemma {:induction false} CountZeros(z: nat, rest: seq<nat>)
    requires rest == [] || rest[0] > 0
    ensures LeadingZeros(seq(z, _ => 0) + rest) == z
    decreases z
  {
    var all := seq(z, _ => 0) + rest;
    if z == 0 {
      assert all == rest;
    } else {
      CountZeros(z - 1, rest);
      assert all[1..] == seq(z - 1, _ => 0) + rest;
    }
  }

  /** The two scans together: the leading zeros are passed, and the digits from the first that is not zero read. */
  lemma {:induction false} ScansRun(s: string, o: Options, start: nat, p: nat, all: seq<nat>, end: Scan)
    requires ValidRadix(o.radix) && ReadDigits(s, o, start, Scan(p, 0, -1)) == (end, all)
    ensures var z := SkipZeros(s, o, start, Scan(p, 0, -1));
            z.pos == LeadingZeros(all) && ReadDigits(s, o, start, z) == (end, all[z.pos..])
  {
    hide ReadDigits, SkipZeros, LeadingZeros;
    ZerosFirst(s, o, start, Scan(p, 0, -1));
    FirstNotZero(s, o, start, Scan(p, 0, -1));
    var z := SkipZeros(s, o, start, Scan(p, 0, -1));
    var r := ReadDigits(s, o, start, z);
    CountZeros(z.pos, r.1);
    assert all[z.pos..] == r.1;
  }

  // ---- the exponent ----

  function Accumulate(v: nat, ds: seq<nat>): nat
    decreases |ds|
  {
    if ds == [] then v else Accumulate(v * 10 + ds[0], ds[1..])
  }

  lemma {:induction false} AccumulateNat(v: nat, ds: seq<nat>)
    ensures Accumulate(v, ds) == v * Pow(10, |ds|) + NatIn(ds, 10)
    decreases |ds|
  {
    PowOne(10);
    if ds != [] {
      var t, n := ds[1..], |ds| - 1;
      AccumulateNat(v * 10 + ds[0], t);
      NatCons(ds[0], t);
      assert ds == [ds[0]] + t;
      PowStep(10, n);
      hide Pow, NatIn, Accumulate;
      AccumulateStep(v, ds[0], Pow(10, n));
    }
  }

  lemma AccumulateStep(v: nat, d: nat, p: nat)
    ensures (v * 10 + d) * p == v * (10 * p) + d * p
  {
    Assoc(v, 10, p);
  }

  lemma {:induction false} NatCons(d: nat, ds: seq<nat>)
    ensures NatIn([d] + ds, 10) == d * Pow(10, |ds|) + NatIn(ds, 10)
  {
    hide NatIn, Pow;
    NatNone(10);
    NatSnoc([], d, 10);
    assert [] + [d] == [d];
    NatConcat([d], ds, 10);
  }

  /** The digits of an exponent behind the first. */
  lemma {:induction false} ExponentRun(s: string, o: Options, p: nat, v: nat, ds: seq<Digit>, rest: string)
    requires From(s, p, Shown(ds), rest) && Fits(ds, o.(radix := 10))
    ensures ReadExponent(s, o, p, v) == ReadExponent(s, o, p + |Shown(ds)|, Accumulate(v, Values(ds)))
    decreases |ds|
  {
    hide ReadExponent, Fits, Accumulate, ToDigit;
    if ds == [] {
      AccumulateNone(v);
    } else {
      ShownStep(ds);
      FitsTail(ds, o.(radix := 10));
      var a, b := Shown([ds[0]]), Shown(ds[1..]);
      FromSplit(s, p, a, b, rest);
      ExponentDigit(s, o, p, v, ds[0], b + rest);
      ExponentRun(s, o, p + |a|, v * 10 + ToDigit(ds[0].c), ds[1..], rest);
      AccumulateOne(v, ToDigit(ds[0].c), Values(ds[1..]));
    }
  }

  lemma AccumulateNone(v: nat)
    ensures Accumulate(v, Values([])) == v && Shown([]) == ""
  {
  }

  lemma AccumulateOne(v: nat, d: nat, ds: seq<nat>)
    ensures Accumulate(v, [d] + ds) == Accumulate(v * 10 + d, ds)
  {
    assert ([d] + ds)[1..] == ds;
  }

  lemma {:induction false} NoExponent(s: string, o: Options, p: nat, v: nat, rest: string)
    requires From(s, p, "", rest) && Delimits(rest)
    ensures ReadExponent(s, o, p, v) == (p, v)
  {
    FromAt(s, p, "", rest);
    DelimiterAt(s, p, rest);
    hide ToDigit;
  }

  /** Behind a numeral there is no digit, no dot, no separator and no mark. */
  lemma DelimiterAt(s: string, p: nat, rest: string)
    requires From(s, p, "", rest) && Delimits(rest)
    ensures var c := At(s, p);
            && ToDigit(c) == 36 && c != '.' && c != '_' && c != '@' && !('0' <= c <= '9')
            && c !in {'x', 'X', 'o', 'O', 'b', 'B', 'e', 'E', 'p', 'P'}
  {
    FromAt(s, p, "", rest);
  }

  lemma {:induction false} ExponentDigit(s: string, o: Options, p: nat, v: nat, d: Digit, rest: string)
    requires From(s, p, Shown([d]), rest) && ToDigit(d.c) < 10 && (d.sep ==> o.underscores)
    ensures ReadExponent(s, o, p, v) == ReadExponent(s, o, p + |Shown([d])|, v * 10 + ToDigit(d.c))
  {
    hide ReadExponent, ToDigit;
    NoRun();
    assert Shown([d]) == (if d.sep then "_" else "") + [d.c];
    FromAt(s, p, Shown([d]), rest);
    NotDot(d.c);
    assert At(s, p) == Shown([d])[0];
    if d.sep { assert At(s, p + 1) == Shown([d])[1]; }
    ExponentStep(s, o, p, v);
  }

  lemma {:induction false} ExponentStep(s: string, o: Options, p: nat, v: nat)
    ensures var q := if IsSep(o, At(s, p)) && ToDigit(At(s, p + 1)) < 10 then p + 1 else p;
            var c := ToDigit(At(s, q));
            ReadExponent(s, o, p, v) == if c >= 10 then (q, v) else ReadExponent(s, o, q + 1, v * 10 + c)
  {
  }

  // ---- where the parts stand ----

  lemma {:induction false} PartsStand(s: string, n: Numeral, rest: string)
    requires Stands(s, n, rest)
    ensures var p := |n.sign| + |n.prefix|;
            && From(s, |n.sign|, n.prefix, Body(n) + rest) && From(s, p, Shown(n.whole) + Fraction(n), Tail(n) + rest)
            && From(s, BodyEnd(n, p).p, Tail(n), rest) && BodyEnd(n, p).p + |Tail(n)| == |Text(n)| && From(s, |Text(n)|, "", rest)
  {
    hide Shown, Fraction, Tail;
    ThreeParts(s, n.sign, n.prefix, Body(n) + rest);
    var a, b := Shown(n.whole) + Fraction(n), Tail(n);
    assert a + b + rest == a + (b + rest);
    FromSplit(s, |n.sign| + |n.prefix|, a, b + rest, "");
    FromAt(s, BodyEnd(n, |n.sign| + |n.prefix|).p, b, rest);
  }

  lemma {:induction false} ThreeParts(s: string, a: string, b: string, c: string)
    requires s == a + b + c
    ensures From(s, |a|, b, c) && From(s, |a| + |b|, c, "") && |s| == |a| + |b| + |c|
  {
    assert s[|a|..] == b + c;
    assert s[|a| + |b|..] == c + "";
  }

  /** The first two characters of a numeral behind its prefix. */
  lemma {:induction false} BodyStarts(n: Numeral)
    requires WellFormed(n)
    ensures Body(n) != "" && Body(n)[0] == if n.whole == [] then '.' else n.whole[0].c
    ensures |n.whole| > 1 ==> |Body(n)| > 1 && Body(n)[1] == if n.whole[1].sep then '_' else n.whole[1].c
    ensures |n.whole| == 1 ==> |Body(n)| == 1 || Body(n)[1] == '.' || Body(n)[1] == n.mark
    ensures |n.whole| == 1 && n.exp == [] && |Body(n)| > 1 ==> Body(n)[1] == '.'
  {
    if n.whole != [] {
      ShownStep(n.whole);
      ShownOne(n.whole[0]);
      var t := n.whole[1..];
      if t != [] {
        ShownStep(t);
        ShownOne(t[0]);
      }
    }
  }

  lemma ShownOne(d: Digit)
    ensures Shown([d]) == if d.sep then ['_', d.c] else [d.c]
  {
    assert [d][1..] == [];
    assert "_" + [d.c] == ['_', d.c];
  }

  /** A mark is no digit, and no letter of a prefix. */
  lemma MarkIs(mark: char, radix: nat)
    requires ValidRadix(radix) && Marks(mark, radix)
    ensures ToDigit(mark) >= radix && mark !in {'.', '_', 'x', 'X', 'o', 'O', 'b', 'B', '+', '-'} && !('0' <= mark <= '9')
    ensures forall o: Options :: o.radix == radix ==> ExponentMark(o, mark)
  {
  }

  lemma TailEnds(n: Numeral, o: Options, rest: string)
    requires WellFormed(n) && o.radix == n.radix && Delimits(rest)
    ensures Ends(Tail(n) + rest, o)
  {
    hide ToDigit, Marks;
    if n.exp != [] {
      MarkIs(n.mark, n.radix);
      assert (Tail(n) + rest)[0] == n.mark;
    } else {
      assert Tail(n) + rest == rest;
    }
  }

  // ---- the prefix ----

  lemma {:induction false} OctalRun(s: string, p: nat, ds: seq<Digit>, rest: string)
    requires From(s, p, Shown(ds), rest) && AllIn(ds, 8) && !Separated(ds) && (rest == "" || !('0' <= rest[0] <= '9'))
    ensures PastOctal(s, p) == p + |Shown(ds)|
    decreases |ds|
  {
    hide ToDigit, PastOctal;
    PastStep(s, p);
    if ds == [] {
      FromAt(s, p, "", rest);
    } else {
      NextShown(s, p, ds, rest);
      OctalDigit(ds[0].c);
      OctalRun(s, p + 1, ds[1..], rest);
    }
  }

  /** One digit without a separator. */
  lemma {:induction false} NextShown(s: string, p: nat, ds: seq<Digit>, rest: string)
    requires ds != [] && From(s, p, Shown(ds), rest) && !Separated(ds)
    ensures At(s, p) == ds[0].c && From(s, p + 1, Shown(ds[1..]), rest) && |Shown(ds)| == 1 + |Shown(ds[1..])|
    ensures !Separated(ds[1..])
  {
    assert !ds[0].sep;
    ShownStep(ds);
    ShownOne(ds[0]);
    var a, b := Shown([ds[0]]), Shown(ds[1..]);
    FromSplit(s, p, a, b, rest);
    FromAt(s, p, a, b + rest);
    assert At(s, p + 0) == a[0];
    forall i | 0 <= i < |ds[1..]| ensures !ds[1..][i].sep { assert !ds[i + 1].sep; }
  }

  lemma PastStep(s: string, p: nat)
    ensures PastOctal(s, p) == if '0' <= At(s, p) <= '7' then PastOctal(s, p + 1) else p
  {
  }

  lemma OctalDigit(c: char)
    ensures ToDigit(c) < 8 <==> '0' <= c <= '7'
    ensures ToDigit(c) < 10 <==> '0' <= c <= '9'
  {
  }

  /** An 8 or a 9 stops the scan. */
  lemma {:induction false} OctalStops(s: string, p: nat, ds: seq<Digit>, rest: string)
    requires From(s, p, Shown(ds), rest) && AllIn(ds, 10) && !Separated(ds) && HasEightOrNine(ds)
    ensures var c := At(s, PastOctal(s, p)); c == '8' || c == '9'
    decreases |ds|
  {
    hide ToDigit, PastOctal;
    PastStep(s, p);
    NextShown(s, p, ds, rest);
    OctalDigit(ds[0].c);
    if ds[0].c != '8' && ds[0].c != '9' {
      var i :| 0 <= i < |ds| && (ds[i].c == '8' || ds[i].c == '9');
      assert ds[1..][i - 1] == ds[i];
      OctalStops(s, p + 1, ds[1..], rest);
    }
  }

  /** What stands behind the integer part is no digit. */
  lemma {:induction false} WholeEnds(n: Numeral, rest: string)
    requires WellFormed(n) && Delimits(rest)
    ensures var t := Fraction(n) + (Tail(n) + rest); t == "" || !('0' <= t[0] <= '9')
  {
    hide ToDigit, Marks, Shown;
    if n.exp != [] { MarkIs(n.mark, n.radix); }
    if !n.dot && n.exp == [] { assert "" + ("" + rest) == rest; }
  }

  /** A zero that stands for radix 8, in front of octal digits. */
  lemma {:induction false} LegacyRun(s: string, n: Numeral, o: Options, rest: string)
    requires Stands(s, n, rest) && WellFormed(n) && n.prefix == "0" && Admits(n, o)
    ensures var q := PastOctal(s, |n.sign| + 1); At(s, q) != '8' && At(s, q) != '9'
  {
    hide Text, Body, ToDigit, PastOctal, LegacyStart, HasEightOrNine, Separated, Fraction, Tail, Shown, Delimits;
    var p, t := |n.sign| + 1, Fraction(n) + (Tail(n) + rest);
    PartsStand(s, n, rest);
    FromSplit(s, p, Shown(n.whole), Fraction(n), Tail(n) + rest);
    WholeEnds(n, rest);
    OctalRun(s, p, n.whole, t);
    FromAt(s, p, Shown(n.whole), t);
  }

  /** A legacy zero in front of an 8 or a 9. */
  lemma {:induction false} LegacyNot(s: string, n: Numeral, rest: string)
    requires Stands(s, n, rest) && WellFormed(n) && n.prefix == "" && n.radix == 10
    requires LegacyStart(n) && HasEightOrNine(n.whole) && !Separated(n.whole)
    ensures var c := At(s, PastOctal(s, |n.sign| + 1)); c == '8' || c == '9'
  {
    hide Text, Body, ToDigit, PastOctal, Fraction, Tail, Shown, Separated, Delimits;
    var p, t := |n.sign|, Fraction(n) + (Tail(n) + rest);
    PartsStand(s, n, rest);
    FromSplit(s, p, Shown(n.whole), Fraction(n), Tail(n) + rest);
    NextShown(s, p, n.whole, t);
    var i :| 0 <= i < |n.whole| && (n.whole[i].c == '8' || n.whole[i].c == '9');
    assert n.whole[1..][i - 1] == n.whole[i];
    OctalStops(s, p + 1, n.whole[1..], t);
  }

  lemma {:induction false} NoPrefix(s: string, n: Numeral, o: Options, rest: string)
    requires Stands(s, n, rest) && WellFormed(n) && n.prefix == "" && Admits(n, o) && (o.radix == 0 || ValidRadix(o.radix))
    ensures Prefix(s, o, |n.sign|) == Prefixed(false, |n.sign|, Effective(n, o))
  {
    hide Text, Body, ToDigit, PastOctal, HasEightOrNine, Separated, Marks, AllIn, From, Stands;
    var p := |n.sign|;
    BodyAt(s, n, rest);
    if At(s, p) == '0' {
      if LegacyStart(n) && o.radix == 0 && o.legacyOctal {
        LegacyNot(s, n, rest);
      } else {
        SecondChar(n, o, At(s, p + 1));
      }
    }
  }

  lemma {:induction false} BodyAt(s: string, n: Numeral, rest: string)
    requires Stands(s, n, rest) && WellFormed(n) && n.prefix == ""
    ensures var c, d := At(s, |n.sign|), At(s, |n.sign| + 1);
            && (if n.whole == [] then c == '.' else c == n.whole[0].c)
            && (|Body(n)| > 1 ==> d == Body(n)[1])
            && (|Body(n)| == 1 ==> ToDigit(d) == 36)
            && (|n.whole| > 1 && !n.whole[1].sep ==> d == n.whole[1].c)
  {
    hide Text, Body, ToDigit, Marks, Delimits;
    PartsStand(s, n, rest);
    BodyStarts(n);
    var t := Body(n) + rest;
    FromAt(s, |n.sign|, "", t);
    assert |Body(n)| > 1 ==> t[1] == Body(n)[1];
    if |Body(n)| == 1 {
      FromSplit(s, |n.sign|, "", Body(n), rest);
      assert "" + Body(n) == Body(n);
      FromAt(s, |n.sign|, Body(n), rest);
      DelimiterAt(s, |n.sign| + 1, rest);
    }
  }

  /** No second character that belongs to a prefix. */
  lemma {:induction false} SecondChar(n: Numeral, o: Options, c: char)
    requires WellFormed(n) && n.prefix == "" && n.whole != [] && n.whole[0].c == '0' && n.radix == if o.radix == 0 then 10 else o.radix
    requires |Body(n)| > 1 ==> c == Body(n)[1]
    requires |Body(n)| == 1 ==> ToDigit(c) == 36
    requires !(LegacyStart(n) && o.radix == 0 && o.legacyOctal)
    ensures !((c == 'x' || c == 'X') && (o.radix == 0 || o.radix == 16))
    ensures o.radix == 0 ==> c !in {'o', 'O', 'b', 'B'}
    ensures !('0' <= c <= '9' && o.radix == 0 && o.legacyOctal)
  {
    hide Text, Body, Marks, ToDigit;
    BodyStarts(n);
    Letters(c);
    OctalDigit(c);
    if |n.whole| > 1 {
      Letters(n.whole[1].c);
    } else if n.exp != [] {
      MarkIs(n.mark, n.radix);
    }
  }

  lemma Letters(c: char)
    ensures ToDigit(c) < 16 ==> c !in {'x', 'X', 'o', 'O'}
    ensures ToDigit(c) < 10 ==> c !in {'b', 'B'}
    ensures ToDigit(c) == 36 ==> c !in {'x', 'X', 'o', 'O', 'b', 'B'}
  {
  }

  /** A prefix with a letter. */
  lemma {:induction false} LetterPrefix(s: string, n: Numeral, o: Options, rest: string)
    requires Stands(s, n, rest) && WellFormed(n) && Admits(n, o) && (o.radix == 0 || ValidRadix(o.radix)) && |n.prefix| == 2
    ensures Prefix(s, o, |n.sign|) == Prefixed(false, |n.sign| + 2, o.(radix := n.radix))
  {
    hide Text, Body, ToDigit, PastOctal, LegacyStart, HasEightOrNine, AnySeparated, Marks, From, Stands;
    PrefixAt(s, n, rest);
    assert n.prefix[0] == '0';
  }

  lemma {:induction false} LegacyPrefix(s: string, n: Numeral, o: Options, rest: string)
    requires Stands(s, n, rest) && WellFormed(n) && Admits(n, o) && (o.radix == 0 || ValidRadix(o.radix)) && n.prefix == "0"
    ensures Prefix(s, o, |n.sign|) == Prefixed(false, |n.sign| + 1, o.(radix := 8, underscores := false))
  {
    hide Text, Body, ToDigit, PastOctal, LegacyStart, HasEightOrNine, AnySeparated, Marks, From, Stands;
    PrefixAt(s, n, rest);
    LegacyRun(s, n, o, rest);
    OctalDigit(At(s, |n.sign| + 1));
  }

  lemma {:induction false} PrefixAt(s: string, n: Numeral, rest: string)
    requires Stands(s, n, rest) && WellFormed(n) && n.prefix != ""
    ensures At(s, |n.sign|) == n.prefix[0] && ToDigit(At(s, |n.sign| + |n.prefix|)) < n.radix
    ensures |n.prefix| > 1 ==> At(s, |n.sign| + 1) == n.prefix[1]
  {
    hide Text, Body, ToDigit, Marks, Delimits;
    PartsStand(s, n, rest);
    BodyStarts(n);
    FromAt(s, |n.sign|, n.prefix, Body(n) + rest);
    assert At(s, |n.sign| + 0) == n.prefix[0];
  }

  /** Behind sign and prefix the radix is that of the numeral. */
  lemma {:induction false} PrefixRun(s: string, n: Numeral, o: Options, rest: string)
    requires Stands(s, n, rest) && WellFormed(n) && Admits(n, o) && (o.radix == 0 || ValidRadix(o.radix))
    ensures Prefix(s, o, |n.sign|) == Prefixed(false, |n.sign| + |n.prefix|, Effective(n, o))
  {
    hide Text, Prefix, WellFormed, AnySeparated, LegacyStart, HasEightOrNine, Stands;
    if n.prefix == "" {
      NoPrefix(s, n, o, rest);
    } else if n.prefix == "0" {
      LegacyPrefix(s, n, o, rest);
    } else {
      LetterPrefix(s, n, o, rest);
    }
  }

  // ---- reading a numeral ----

  lemma EffectiveIs(n: Numeral, o: Options)
    requires WellFormed(n) && Admits(n, o)
    ensures var e := Effective(n, o);
            && e.radix == n.radix && e.intOnly == o.intOnly
            && Fits(n.whole, e) && Fits(n.frac, e) && Fits(n.exp, e.(radix := 10))
  {
    hide ToDigit, Marks, Separated, HasEightOrNine;
  }

  /** The exponent is read. */
  lemma {:induction false} TailRun(s: string, o: Options, q: nat, n: Numeral, rest: string)
    requires WellFormed(n) && n.exp != [] && Fits(n.exp, o.(radix := 10)) && From(s, q, Tail(n), rest) && Delimits(rest)
    ensures At(s, q) == n.mark && (At(s, q + 1) == '+' || At(s, q + 1) == '-' <==> n.expSign != "")
    ensures n.expSign != "" ==> At(s, q + 1) == n.expSign[0]
    ensures var d := q + 1 + |n.expSign|;
            && ToDigit(At(s, d)) < 10
            && ReadExponent(s, o, d + 1, ToDigit(At(s, d))) == (q + |Tail(n)|, NatIn(Values(n.exp), 10))
  {
    hide ToDigit, Marks, ReadExponent, Shown, Fits, Delimits, NatIn, Values, AllIn;
    var d := q + 1 + |n.expSign|;
    var c := n.exp[0].c;
    FromSplit(s, q, [n.mark] + n.expSign, Shown(n.exp), rest);
    FromAt(s, q, [n.mark] + n.expSign, Shown(n.exp) + rest);
    assert At(s, q + 0) == ([n.mark] + n.expSign)[0];
    if n.expSign != "" { assert At(s, q + 1) == ([n.mark] + n.expSign)[1]; }
    ExponentStarts(s, o, d, n.exp, rest);
    NotDot(c);
    ExponentWhole(s, o, d, n.exp, rest);
    FromAt(s, d, Shown(n.exp), rest);
    NoExponent(s, o, d + |Shown(n.exp)|, NatIn(Values(n.exp), 10), rest);
  }

  /** The digits of an exponent, from the first on. */
  lemma {:induction false} ExponentWhole(s: string, o: Options, d: nat, ds: seq<Digit>, rest: string)
    requires ds != [] && !ds[0].sep && AllIn(ds, 10) && Fits(ds, o.(radix := 10)) && From(s, d, Shown(ds), rest)
    ensures ReadExponent(s, o, d + 1, ToDigit(At(s, d))) == ReadExponent(s, o, d + |Shown(ds)|, NatIn(Values(ds), 10))
  {
    hide ToDigit, ReadExponent, Shown, Fits, NatIn, Values, Accumulate;
    ExponentStarts(s, o, d, ds, rest);
    ExponentRun(s, o, d + 1, ToDigit(ds[0].c), ds[1..], rest);
    ExponentValue(ds);
  }

  lemma {:induction false} ExponentStarts(s: string, o: Options, p: nat, ds: seq<Digit>, rest: string)
    requires ds != [] && !ds[0].sep && AllIn(ds, 10) && Fits(ds, o.(radix := 10)) && From(s, p, Shown(ds), rest)
    ensures At(s, p) == ds[0].c && From(s, p + 1, Shown(ds[1..]), rest) && |Shown(ds)| == 1 + |Shown(ds[1..])|
    ensures Fits(ds[1..], o.(radix := 10)) && ToDigit(ds[0].c) < 10
  {
    hide ToDigit, Fits;
    ShownStep(ds);
    ShownOne(ds[0]);
    FitsTail(ds, o.(radix := 10));
    FromSplit(s, p, Shown([ds[0]]), Shown(ds[1..]), rest);
    FromAt(s, p, Shown(ds), rest);
    assert At(s, p + 0) == Shown(ds)[0];
  }

  lemma {:induction false} ExponentValue(ds: seq<Digit>)
    requires ds != []
    ensures Accumulate(ToDigit(ds[0].c), Values(ds[1..])) == NatIn(Values(ds), 10)
  {
    hide ToDigit, NatIn, Pow, Accumulate;
    var c := ToDigit(ds[0].c);
    assert Values(ds) == [c] + Values(ds[1..]);
    AccumulateOne(0, c, Values(ds[1..]));
    AccumulateNat(0, Values(ds));
  }

  /** The digits that are read, and what follows them. */
  lemma ParsedAs(s: string, o: Options, start: nat, p: nat, neg: bool, z: Scan, end: Scan, ds: seq<nat>)
    requires z == SkipZeros(s, o, start, Scan(p, 0, -1)) && ReadDigits(s, o, start, z) == (end, ds) && end.p > start
    ensures var dotPos := if end.dot < 0 then end.pos else end.dot;
            var q := if At(s, end.p + 1) == '+' || At(s, end.p + 1) == '-' then end.p + 2 else end.p + 1;
            var c := ToDigit(At(s, q));
            var e := ReadExponent(s, o, q + 1, c);
            && (!ExponentFollows(s, o, start, end.p) ==>
                  ParseDigits(s, o, start, p, neg) == Number(o.radix, neg, ds, z.pos, dotPos, 0, false, end.p))
            && (ExponentFollows(s, o, start, end.p) && c < 10 ==>
                  ParseDigits(s, o, start, p, neg) ==
                    Number(o.radix, neg, ds, z.pos, dotPos, if At(s, end.p + 1) == '-' then -(e.1 as int) else e.1,
                           At(s, end.p) == 'p' || At(s, end.p) == 'P', e.0))
  {
    hide ReadDigits, SkipZeros, ReadExponent, ToDigit, ExponentFollows;
  }

  /** The digits are read, and then the exponent stands. */
  lemma {:induction false} DigitsScan(s: string, n: Numeral, o: Options, rest: string, p: nat, all: seq<nat>, z: Scan)
    requires Stands(s, n, rest) && WellFormed(n) && o.radix == n.radix && Fits(n.whole, o) && Fits(n.frac, o)
    requires (o.intOnly ==> !n.dot) && p == |n.sign| + |n.prefix| && all == Values(n.whole) + Values(n.frac)
    requires z == SkipZeros(s, o, |n.sign|, Scan(p, 0, -1))
    ensures z.pos == LeadingZeros(all) && ReadDigits(s, o, |n.sign|, z) == (BodyEnd(n, p), all[z.pos..])
    ensures BodyEnd(n, p).p > |n.sign|
  {
    hide ToDigit, Marks, ReadDigits, SkipZeros, Text, Fits, Shown, Fraction, Tail, AllIn, LeadingZeros, Ends, Values, Body,
         Delimits;
    PartsStand(s, n, rest);
    TailEnds(n, o, rest);
    BodyRun(s, o, |n.sign|, p, n, Tail(n) + rest);
    ScansRun(s, o, |n.sign|, p, all, BodyEnd(n, p));
    BodyLong(n);
  }

  lemma {:induction false} MeansWithTail(s: string, n: Numeral, o: Options, rest: string, p: nat, all: seq<nat>, z: Scan)
    requires WellFormed(n) && o.radix == n.radix && n.exp != [] && !o.intOnly && Fits(n.exp, o.(radix := 10)) && Delimits(rest)
    requires p == |n.sign| + |n.prefix| && all == Values(n.whole) + Values(n.frac) && z.pos == LeadingZeros(all)
    requires z == SkipZeros(s, o, |n.sign|, Scan(p, 0, -1)) && ReadDigits(s, o, |n.sign|, z) == (BodyEnd(n, p), all[z.pos..])
    requires BodyEnd(n, p).p > |n.sign| && BodyEnd(n, p).p + |Tail(n)| == |Text(n)| && From(s, BodyEnd(n, p).p, Tail(n), rest)
    ensures ParseDigits(s, o, |n.sign|, p, n.sign == "-") == Meaning(n)
  {
    hide ToDigit, Marks, ReadDigits, SkipZeros, ReadExponent, Text, Fits, Shown, Fraction, Tail, NatIn, AllIn, LeadingZeros,
         ParseDigits, Meaning, Values, Delimits, From;
    ParsedAs(s, o, |n.sign|, p, n.sign == "-", z, BodyEnd(n, p), all[z.pos..]);
    MeaningIs(n);
    MarkIs(n.mark, n.radix);
    TailRun(s, o, BodyEnd(n, p).p, n, rest);
  }

  lemma {:induction false} MeansWithout(s: string, n: Numeral, o: Options, rest: string, p: nat, all: seq<nat>, z: Scan)
    requires WellFormed(n) && o.radix == n.radix && n.exp == [] && Delimits(rest)
    requires p == |n.sign| + |n.prefix| && all == Values(n.whole) + Values(n.frac) && z.pos == LeadingZeros(all)
    requires z == SkipZeros(s, o, |n.sign|, Scan(p, 0, -1)) && ReadDigits(s, o, |n.sign|, z) == (BodyEnd(n, p), all[z.pos..])
    requires BodyEnd(n, p).p > |n.sign| && BodyEnd(n, p).p + |Tail(n)| == |Text(n)| && From(s, BodyEnd(n, p).p, Tail(n), rest)
    ensures ParseDigits(s, o, |n.sign|, p, n.sign == "-") == Meaning(n)
  {
    hide ToDigit, Marks, ReadDigits, SkipZeros, ReadExponent, Text, Fits, Shown, Fraction, NatIn, AllIn, LeadingZeros,
         ParseDigits, Meaning, Values, Delimits, From;
    ParsedAs(s, o, |n.sign|, p, n.sign == "-", z, BodyEnd(n, p), all[z.pos..]);
    MeaningIs(n);
    NoTail(s, o, BodyEnd(n, p).p, n, rest);
  }

  /** Behind the prefix the numeral is read as what it means. */
  lemma {:induction false} DigitsMean(s: string, n: Numeral, o: Options, rest: string)
    requires Stands(s, n, rest) && WellFormed(n) && o.radix == n.radix
    requires Fits(n.whole, o) && Fits(n.frac, o) && Fits(n.exp, o.(radix := 10)) && (o.intOnly ==> !n.dot && n.exp == [])
    ensures ParseDigits(s, o, |n.sign|, |n.sign| + |n.prefix|, n.sign == "-") == Meaning(n)
  {
    hide ToDigit, Marks, ReadDigits, SkipZeros, Text, Fits, Shown, Fraction, Tail, AllIn, LeadingZeros,
         ParseDigits, Meaning, Values, Delimits, From, Body;
    var p := |n.sign| + |n.prefix|;
    var all, z := Values(n.whole) + Values(n.frac), SkipZeros(s, o, |n.sign|, Scan(p, 0, -1));
    PartsStand(s, n, rest);
    DigitsScan(s, n, o, rest, p, all, z);
    if n.exp != [] {
      MeansWithTail(s, n, o, rest, p, all, z);
    } else {
      MeansWithout(s, n, o, rest, p, all, z);
    }
  }

  lemma MeaningIs(n: Numeral)
    ensures var all := Values(n.whole) + Values(n.frac);
            var e, z := NatIn(Values(n.exp), 10), LeadingZeros(all);
            Meaning(n) == Number(n.radix, n.sign == "-", all[z..], z, |n.whole|, if n.expSign == "-" then -(e as int) else e,
                                 n.exp != [] && (n.mark == 'p' || n.mark == 'P'), |Text(n)|)
  {
  }

  lemma BodyLong(n: Numeral)
    requires WellFormed(n)
    ensures |Shown(n.whole) + Fraction(n)| > 0
  {
    if n.whole != [] { ShownSome(n.whole); }
  }

  lemma NoTail(s: string, o: Options, q: nat, n: Numeral, rest: string)
    requires n.exp == [] && From(s, q, Tail(n), rest) && Delimits(rest)
    ensures Tail(n) == "" && !ExponentMark(o, At(s, q)) && NatIn(Values(n.exp), 10) == 0
  {
    DelimiterAt(s, q, rest);
    hide ToDigit;
  }

  /** A numeral without its sign does not begin with one. */
  lemma {:induction false} NoSign(n: Numeral)
    requires WellFormed(n) && (n.prefix == "" || n.prefix[0] == '0')
    ensures var t := n.prefix + Body(n); t != "" && t[0] != '+' && t[0] != '-'
  {
    hide Body, Marks, ToDigit;
    BodyStarts(n);
    if n.prefix == "" {
      if n.whole != [] { NotDot(n.whole[0].c); }
      assert n.prefix + Body(n) == Body(n);
    }
  }

  lemma {:induction false} SignRun(s: string, n: Numeral, rest: string)
    requires Stands(s, n, rest) && WellFormed(n) && (n.prefix == "" || n.prefix[0] == '0')
    ensures SkipSign(s) == |n.sign| && (At(s, 0) == '-' <==> n.sign == "-")
  {
    NoSign(n);
    TextStarts(n);
    hide Text, Body, Delimits;
    var t := n.prefix + Body(n);
    assert s[0] == (n.sign + t)[0];
    assert n.sign == "" ==> n.sign + t == t;
  }

  lemma TextStarts(n: Numeral)
    ensures Text(n) == n.sign + (n.prefix + Body(n))
  {
    hide Body;
  }

  /** js_atod reads a numeral of every radix as what it means, to its end; only in radices that have `I` and `y` among their
      digits the digits Infinity are the number infinity. */
  lemma {:induction false} ParseNumeral(n: Numeral, o: Options, rest: string)
    requires WellFormed(n) && Admits(n, o) && Delimits(rest) && (o.radix == 0 || ValidRadix(o.radix))
    ensures var s, start := Text(n) + rest, |n.sign|;
            Parse(s, o) == if !o.intOnly && StartsInfinity(s, start) then Infinite(n.sign == "-", start + 8) else Meaning(n)
  {
    hide Prefix, ParseDigits, Text, StartsInfinity, Meaning, ToDigit, Marks, Effective, Delimits;
    var s := Text(n) + rest;
    SignRun(s, n, rest);
    PrefixRun(s, n, o, rest);
    EffectiveIs(n, o);
    DigitsMean(s, n, Effective(n, o), rest);
    NotInfinity(s, |n.sign|);
  }

  lemma NotInfinity(s: string, p: nat)
    ensures StartsInfinity(s, p) ==> At(s, p) == 'I' && At(s, p + 7) == 'y'
  {
    if StartsInfinity(s, p) {
      assert s[p..p + 8][0] == s[p] && s[p..p + 8][7] == s[p + 7];
      assert "Infinity"[0] == 'I' && "Infinity"[7] == 'y';
    }
  }

  // ---- numbers in a radix ----

  /** The digits of `k` in a radix, written in one case. */
  function Written(k: nat, radix: nat, digits: string): (ds: seq<Digit>)
    requires ValidRadix(radix) && |digits| == 36
    ensures ds != [] && !ds[0].sep
    decreases k
  {
    if k < radix then [Digit(false, digits[k])] else Written(k / radix, radix, digits) + [Digit(false, digits[k % radix])]
  }

  /** The digits, each in the case one likes. */
  predicate IsAlphabet(digits: string) {
    |digits| == 36 && forall d: nat :: d < 36 ==> digits[d] == LOWER[d] || digits[d] == UPPER[d]
  }

  lemma AlphabetValue(digits: string, d: nat)
    requires IsAlphabet(digits) && d < 36
    ensures ToDigit(digits[d]) == d
  {
    DigitValue(digits[d], d);
  }

  lemma {:induction false} WrittenIs(k: nat, radix: nat, digits: string)
    requires ValidRadix(radix) && |digits| == 36 && forall d: nat :: d < 36 ==> ToDigit(digits[d]) == d
    ensures var ds := Written(k, radix, digits);
            AllIn(ds, radix) && NatIn(Values(ds), radix) == k && (k > 0 ==> Values(ds)[0] > 0) && (k == 0 ==> Values(ds) == [0])
    decreases k
  {
    hide NatIn, ToDigit;
    if k < radix {
      OneValue(k, radix, digits[k]);
    } else {
      WrittenIs(k / radix, radix, digits);
      AnotherValue(Written(k / radix, radix, digits), k % radix, radix, digits[k % radix]);
      Division(k, radix);
    }
  }

  lemma {:induction false} OneValue(k: nat, radix: nat, c: char)
    requires ToDigit(c) == k
    ensures Values([Digit(false, c)]) == [k] && NatIn([k], radix) == k
  {
    hide NatIn, ToDigit;
    NatNone(radix);
    NatSnoc([], k, radix);
    assert Values([Digit(false, c)]) == [] + [k];
  }

  lemma {:induction false} AnotherValue(ds: seq<Digit>, d: nat, radix: nat, c: char)
    requires ToDigit(c) == d
    ensures Values(ds + [Digit(false, c)]) == Values(ds) + [d] && NatIn(Values(ds) + [d], radix) == NatIn(Values(ds), radix) * radix + d
  {
    hide NatIn, ToDigit;
    NatSnoc(Values(ds), d, radix);
  }

  lemma Division(k: nat, radix: nat)
    requires radix > 0
    ensures k / radix * radix + k % radix == k && (k >= radix ==> k / radix > 0)
  {
  }

  /** An integer written in radix `r`, in whatever case, behind a sign and a prefix, is read back under every option
      that admits it. */
  lemma {:induction false} WrittenThenRead(k: nat, radix: nat, digits: string, sign: string, prefix: string, o: Options)
    requires ValidRadix(radix) && IsAlphabet(digits) && IsSign(sign) && (o.radix == 0 || ValidRadix(o.radix))
    requires Admits(Numeral(radix, sign, prefix, Written(k, radix, digits), false, [], 'e', "", []), o)
    ensures var s := sign + prefix + Shown(Written(k, radix, digits));
            var r := Parse(s, o);
            if !o.intOnly && StartsInfinity(s, |sign|) then r == Infinite(sign == "-", |sign| + 8)
            else r.Number? && r.radix == radix && r.neg == (sign == "-") && r.exp == 0 && r.p == |s|
                 && NatIn(r.digits, radix) == k && r.dotPos - r.sigPos == |r.digits|
  {
    hide Parse, Admits, NatIn, ToDigit, Shown, Written;
    var ds := Written(k, radix, digits);
    var n := Numeral(radix, sign, prefix, ds, false, [], 'e', "", []);
    forall d: nat | d < 36 ensures ToDigit(digits[d]) == d { AlphabetValue(digits, d); }
    WrittenIs(k, radix, digits);
    ParseNumeral(n, o, "");
    assert Text(n) + "" == Text(n);
    NatNone(radix);
    NatNone(10);
    assert sign + prefix + (Shown(ds) + "" + "") == sign + prefix + Shown(ds);
    assert Values(ds) + Values([]) == Values(ds);
    OneOrNoZero(Values(ds));
  }

  lemma OneOrNoZero(vs: seq<nat>)
    requires vs != []
    ensures vs[0] > 0 ==> LeadingZeros(vs) == 0 && vs[0..] == vs
    ensures vs == [0] ==> LeadingZeros(vs) == 1 && vs[1..] == []
  {
    assert LeadingZeros([]) == 0;
  }
}
