/** What js_atod reads is a numeral: the other half of the grammar. */
module DtGrammar {
  import opened DtArith
  import opened DtText
  import opened DtMeaning
  import opened DtNumeral

  // ---- the digits that stand at a place ----

  /** No digit of the radix stands at `p`, with a separator in front or not. */
  predicate NoDigit(s: string, o: Options, start: nat, p: nat) {
    ToDigit(At(s, p)) >= o.radix && !(IsSep(o, At(s, p)) && p > start && ToDigit(At(s, p + 1)) < o.radix)
  }

  /** As many digits as there are from `p` on, up to a dot or something else. */
  function Run(s: string, o: Options, start: nat, p: nat): (ds: seq<Digit>)
    requires ValidRadix(o.radix)
    decreases if p <= |s| then |s| - p else 0
  {
    if p >= |s| || IsDot(s, o, start, p) || NoDigit(s, o, start, p) then []
    else if ToDigit(At(s, p)) < o.radix then [Digit(false, At(s, p))] + Run(s, o, start, p + 1)
    else [Digit(true, At(s, p + 1))] + Run(s, o, start, p + 2)
  }

  lemma {:induction false} RunIs(s: string, o: Options, start: nat, p: nat)
    requires ValidRadix(o.radix) && start <= p <= |s|
    ensures var ds := Run(s, o, start, p);
            var q := p + |Shown(ds)|;
            && q <= |s| && From(s, p, Shown(ds), s[q..]) && Fits(ds, o) && (ds != [] && ds[0].sep ==> p > start)
            && (IsDot(s, o, start, q) || NoDigit(s, o, start, q))
    decreases |s| - p
  {
    hide ToDigit, Fits, IsDot, From, Run, NoDigit, Shown;
    RunStep(s, o, start, p);
    if p >= |s| || IsDot(s, o, start, p) || NoDigit(s, o, start, p) {
      NoRun();
      NothingFits(o);
      NothingStands(s, p);
      if p >= |s| { EndHasNoDigit(s, o, start, p); }
    } else {
      var d := NextDigit(s, o, p);
      ShownOne(d);
      DigitInString(s, o, start, p);
      var next := p + |Shown([d])|;
      RunIs(s, o, start, next);
      MoreFits(d, Run(s, o, start, next), o);
      MoreStands(s, p, d, Run(s, o, start, next));
    }
  }

  function NextDigit(s: string, o: Options, p: nat): Digit {
    if ToDigit(At(s, p)) < o.radix then Digit(false, At(s, p)) else Digit(true, At(s, p + 1))
  }

  lemma RunStep(s: string, o: Options, start: nat, p: nat)
    requires ValidRadix(o.radix)
    ensures var d := NextDigit(s, o, p);
            Run(s, o, start, p) == if p >= |s| || IsDot(s, o, start, p) || NoDigit(s, o, start, p) then []
                                   else [d] + Run(s, o, start, p + if d.sep then 2 else 1)
  {
    hide ToDigit;
  }

  lemma DigitInString(s: string, o: Options, start: nat, p: nat)
    requires ValidRadix(o.radix) && p < |s| && !NoDigit(s, o, start, p)
    ensures var d := NextDigit(s, o, p);
            && ToDigit(d.c) < o.radix && (d.sep ==> o.underscores && p > start && At(s, p) == '_' && At(s, p + 1) == d.c && p + 2 <= |s|)
            && (!d.sep ==> At(s, p) == d.c)
  {
    hide ToDigit;
    InString(s, p + 1);
  }

  lemma NothingFits(o: Options)
    ensures Fits([], o)
  {
  }

  lemma NothingStands(s: string, p: nat)
    requires p <= |s|
    ensures From(s, p, "", s[p..])
  {
    assert "" + s[p..] == s[p..];
  }

  lemma EndHasNoDigit(s: string, o: Options, start: nat, p: nat)
    requires ValidRadix(o.radix) && p >= |s|
    ensures NoDigit(s, o, start, p)
  {
  }

  /** A digit stands within the string. */
  lemma InString(s: string, p: nat)
    ensures ToDigit(At(s, p)) < 36 ==> p < |s|
  {
  }

  lemma MoreFits(d: Digit, ds: seq<Digit>, o: Options)
    requires Fits(ds, o) && ToDigit(d.c) < o.radix && (d.sep ==> o.underscores)
    ensures Fits([d] + ds, o)
  {
    hide ToDigit;
    var all := [d] + ds;
    forall i | 0 <= i < |all| ensures ToDigit(all[i].c) < o.radix && (all[i].sep ==> o.underscores) {
      if i > 0 {
        assert all[i] == ds[i - 1];
        if ds[i - 1].sep { assert Separated(ds); }
      }
    }
  }

  lemma {:induction false} MoreStands(s: string, p: nat, d: Digit, ds: seq<Digit>)
    requires p + |Shown([d])| <= |s| && (if d.sep then At(s, p) == '_' && At(s, p + 1) == d.c else At(s, p) == d.c)
    requires var next := p + |Shown([d])|; next + |Shown(ds)| <= |s| && From(s, next, Shown(ds), s[next + |Shown(ds)|..])
    ensures var all := [d] + ds;
            var q := p + |Shown(all)|;
            q <= |s| && From(s, p, Shown(all), s[q..]) && Shown(all) == Shown([d]) + Shown(ds)
  {
    var all := [d] + ds;
    ShownOne(d);
    ShownStep(all);
    assert all[1..] == ds && [all[0]] == [d];
    var next := p + |Shown([d])|;
    assert s[p..] == Shown([d]) + s[next..];
    assert Shown([d]) + (Shown(ds) + s[next + |Shown(ds)|..]) == Shown([d]) + Shown(ds) + s[next + |Shown(ds)|..];
  }

  // ---- integer part and fraction ----

  lemma {:induction false} StopRun(s: string, o: Options, start: nat, c: Scan)
    requires ValidRadix(o.radix) && if IsDot(s, o, start, c.p) then c.dot >= 0 else NoDigit(s, o, start, c.p)
    ensures ReadDigits(s, o, start, c) == (c, [])
  {
    hide ReadDigits, ToDigit, IsDot;
    if IsDot(s, o, start, c.p) {
      NoDigits(s, o, start, c);
    } else {
      ReadStep(s, o, start, c);
    }
  }

  /** A dot is passed, whatever stands behind it. */
  lemma {:induction false} DotSame(s: string, o: Options, start: nat, c: Scan)
    requires ValidRadix(o.radix) && IsDot(s, o, start, c.p) && c.dot < 0
    ensures ReadDigits(s, o, start, c) == ReadDigits(s, o, start, Scan(c.p + 1, c.pos, c.pos))
  {
    hide ReadDigits, ToDigit;
    var d := Scan(c.p + 1, c.pos, c.pos);
    DotIsNone();
    ReadStep(s, o, start, c);
    if IsDot(s, o, start, d.p) {
      NoDigits(s, o, start, d);
    } else {
      ReadStep(s, o, start, d);
    }
  }

  lemma DotIsNone()
    ensures ToDigit('.') == 36
  {
  }

  /** Where the integer part ends, and whether a dot follows it. */
  function WholeEnd(s: string, o: Options, start: nat, p: nat): nat
    requires ValidRadix(o.radix)
  {
    p + |Shown(Run(s, o, start, p))|
  }

  function HasDot(s: string, o: Options, start: nat, p: nat): bool
    requires ValidRadix(o.radix)
  {
    IsDot(s, o, start, WholeEnd(s, o, start, p))
  }

  function FracAt(s: string, o: Options, start: nat, p: nat): seq<Digit>
    requires ValidRadix(o.radix)
  {
    if HasDot(s, o, start, p) then Run(s, o, start, WholeEnd(s, o, start, p) + 1) else []
  }

  lemma {:induction false} WholeRead(s: string, o: Options, start: nat, p: nat, ds: seq<Digit>)
    requires ValidRadix(o.radix) && start <= p <= |s| && ds == Run(s, o, start, p)
    ensures var q := p + |Shown(ds)|;
            && q <= |s| && s[p..q] == Shown(ds) && Fits(ds, o) && (IsDot(s, o, start, q) || NoDigit(s, o, start, q))
            && ReadDigits(s, o, start, Scan(p, 0, -1)) == Join(Values(ds), ReadDigits(s, o, start, Scan(q, |ds|, -1)))
  {
    hide ReadDigits, ToDigit, Shown, Run, Fits, IsDot, NoDigit;
    var q := p + |Shown(ds)|;
    RunIs(s, o, start, p);
    DigitsRun(s, o, start, Scan(p, 0, -1), ds, s[q..]);
  }

  /** A fraction is read, or nothing. */
  lemma {:induction false} DotRead(s: string, o: Options, start: nat, c: Scan, n: Numeral)
    requires ValidRadix(o.radix) && start <= c.p <= |s| && c.dot == -1 && (IsDot(s, o, start, c.p) || NoDigit(s, o, start, c.p))
    requires n.dot == IsDot(s, o, start, c.p) && n.frac == if n.dot then Run(s, o, start, c.p + 1) else []
    ensures var q := c.p + |Fraction(n)|;
            && q <= |s| && s[c.p..q] == Fraction(n) && Fits(n.frac, o) && ToDigit(At(s, q)) >= o.radix
            && ReadDigits(s, o, start, c) == (Scan(q, c.pos + |n.frac|, if n.dot then c.pos else -1), Values(n.frac))
  {
    hide ReadDigits, ToDigit, Shown, Run, Fits, IsDot;
    if n.dot {
      FractionRead(s, o, start, c, n.frac);
    } else {
      NothingFits(o);
      StopRun(s, o, start, c);
      NoRun();
    }
  }

  /** The scan of digits reads integer part and fraction. */
  lemma {:induction false} BodyRead(s: string, o: Options, start: nat, p: nat, n: Numeral)
    requires ValidRadix(o.radix) && start <= p <= |s|
    requires n.whole == Run(s, o, start, p) && n.dot == HasDot(s, o, start, p) && n.frac == FracAt(s, o, start, p)
    ensures ReadDigits(s, o, start, Scan(p, 0, -1)) == (BodyEnd(n, p), Values(n.whole) + Values(n.frac))
    ensures BodyEnd(n, p).p <= |s| && s[p..BodyEnd(n, p).p] == Shown(n.whole) + Fraction(n)
    ensures Fits(n.whole, o) && Fits(n.frac, o)
    ensures ToDigit(At(s, BodyEnd(n, p).p)) >= o.radix
  {
    hide ReadDigits, ToDigit, Shown, Run, Fits, IsDot, Fraction, Values, NoDigit;
    var q := p + |Shown(n.whole)|;
    WholeRead(s, o, start, p, n.whole);
    DotRead(s, o, start, Scan(q, |n.whole|, -1), n);
    Slices(s, p, q, q + |Fraction(n)|);
  }

  lemma Slices(s: string, p: nat, q: nat, r: nat)
    requires p <= q <= r <= |s|
    ensures s[p..q] + s[q..r] == s[p..r]
  {
  }

  lemma {:induction false} FractionRead(s: string, o: Options, start: nat, c: Scan, ds: seq<Digit>)
    requires ValidRadix(o.radix) && start <= c.p <= |s| && IsDot(s, o, start, c.p) && c.dot < 0 && ds == Run(s, o, start, c.p + 1)
    ensures var q := c.p + 1 + |Shown(ds)|;
            && q <= |s| && ReadDigits(s, o, start, c) == (Scan(q, c.pos + |ds|, c.pos), Values(ds))
            && s[c.p..q] == "." + Shown(ds) && Fits(ds, o) && ToDigit(At(s, q)) >= o.radix
  {
    hide ReadDigits, ToDigit, Shown, Run, Fits;
    var d := Scan(c.p + 1, c.pos, c.pos);
    RunIs(s, o, start, d.p);
    var q := d.p + |Shown(ds)|;
    DotSame(s, o, start, c);
    DotIsNone();
    DigitsRun(s, o, start, d, ds, s[q..]);
    StopRun(s, o, start, Scan(q, d.pos + |ds|, d.dot));
    assert Values(ds) + [] == Values(ds);
  }

  // ---- the exponent ----

  /** Digits of an exponent are decimal, and a dot ends them. */
  function ForExponent(o: Options): Options { o.(radix := 10, intOnly := true) }

  function ExponentAt(s: string, o: Options, d: nat): (ds: seq<Digit>)
    ensures ds != []
  {
    [Digit(false, At(s, d))] + Run(s, ForExponent(o), 0, d + 1)
  }

  lemma {:induction false} ExponentRead(s: string, o: Options, d: nat)
    requires d < |s| && ToDigit(At(s, d)) < 10
    ensures var ds := ExponentAt(s, o, d);
            var q := d + |Shown(ds)|;
            && q <= |s| && s[d..q] == Shown(ds) && AllIn(ds, 10) && Fits(ds, o.(radix := 10)) && !ds[0].sep
            && ReadExponent(s, o, d + 1, ToDigit(At(s, d))) == (q, NatIn(Values(ds), 10))
  {
    hide ToDigit, Run, ReadExponent, Shown, NatIn, Fits;
    var e := ForExponent(o);
    var first, more := Digit(false, At(s, d)), Run(s, e, 0, d + 1);
    RunIs(s, e, 0, d + 1);
    MoreFits(first, more, e);
    ShownOne(first);
    MoreStands(s, d, first, more);
    var ds := ExponentAt(s, o, d);
    var q := d + |Shown(ds)|;
    SameFits(ds, o);
    ExponentWhole(s, o, d, ds, s[q..]);
    ExponentStep(s, o, q, NatIn(Values(ds), 10));
    DotIsNone();
  }

  lemma SameFits(ds: seq<Digit>, o: Options)
    requires Fits(ds, ForExponent(o))
    ensures Fits(ds, o.(radix := 10)) && AllIn(ds, 10)
  {
  }

  // ---- the numeral ----

  /** Sign, prefix, integer part and fraction that stand at the start of a string. */
  function HeadAt(s: string, start: nat, f: Prefixed): Numeral
    requires ValidRadix(f.o.radix) && start <= f.p <= |s|
  {
    Numeral(f.o.radix, s[..start], s[start..f.p], Run(s, f.o, start, f.p), HasDot(s, f.o, start, f.p), FracAt(s, f.o, start, f.p),
            'e', "", [])
  }

  /** The exponent that stands at `q`, if there is one. */
  function WithTail(s: string, o: Options, start: nat, q: nat, n: Numeral): Numeral {
    if !ExponentFollows(s, o, start, q) then n
    else n.(mark := At(s, q), expSign := if At(s, q + 1) == '+' || At(s, q + 1) == '-' then [At(s, q + 1)] else "",
            exp := ExponentAt(s, o, ExponentDigitAt(s, q)))
  }

  /** The place of the first digit of an exponent. */
  function ExponentDigitAt(s: string, q: nat): nat {
    if At(s, q + 1) == '+' || At(s, q + 1) == '-' then q + 2 else q + 1
  }

  lemma SignAt(s: string)
    ensures var k := SkipSign(s); k <= |s| && IsSign(s[..k]) && (s[..k] == "-" <==> At(s, 0) == '-')
  {
    if SkipSign(s) == 1 { assert s[..1] == [s[0]]; } else { assert s[..0] == ""; }
  }

  lemma {:induction false} TailIs(s: string, o: Options, start: nat, q: nat, n: Numeral)
    requires ValidRadix(o.radix) && q <= |s| && ExponentFollows(s, o, start, q) && ToDigit(At(s, ExponentDigitAt(s, q))) < 10
    requires n.mark == At(s, q) && n.exp == ExponentAt(s, o, ExponentDigitAt(s, q))
    requires n.expSign == if At(s, q + 1) == '+' || At(s, q + 1) == '-' then [At(s, q + 1)] else ""
    ensures var d := ExponentDigitAt(s, q);
            && q + |Tail(n)| <= |s| && s[q..q + |Tail(n)|] == Tail(n)
            && Marks(n.mark, o.radix) && IsSign(n.expSign) && AllIn(n.exp, 10) && Fits(n.exp, o.(radix := 10)) && !n.exp[0].sep
            && ReadExponent(s, o, d + 1, ToDigit(At(s, d))) == (q + |Tail(n)|, NatIn(Values(n.exp), 10))
    ensures n.expSign == "-" <==> At(s, q + 1) == '-'
  {
    hide ToDigit, ReadExponent, Shown, NatIn, Fits, ExponentAt, Values, AllIn;
    var d := ExponentDigitAt(s, q);
    InString(s, d);
    ExponentRead(s, o, d);
    MarkOf(o, n.mark);
    var t := [n.mark] + n.expSign;
    assert s[q..d] == t;
    Slices(s, q, d, d + |Shown(n.exp)|);
  }

  lemma MarkOf(o: Options, c: char)
    requires ValidRadix(o.radix) && ExponentMark(o, c)
    ensures Marks(c, o.radix)
  {
  }

  // ---- what the prefix says ----

  /** The numeral has the digits that stand behind the prefix. */
  predicate HasDigits(s: string, f: Prefixed, start: nat, n: Numeral)
    requires ValidRadix(f.o.radix)
  {
    && start <= f.p <= |s| && n.prefix == s[start..f.p] && n.radix == f.o.radix && n.whole == Run(s, f.o, start, f.p)
    && Fits(n.whole, f.o) && Fits(n.frac, f.o) && Fits(n.exp, f.o.(radix := 10)) && (n.dot || n.exp != [] ==> !f.o.intOnly)
  }

  /** A digit without a separator is the first of the run. */
  lemma {:induction false} RunStarts(s: string, o: Options, start: nat, p: nat)
    requires ValidRadix(o.radix) && ToDigit(At(s, p)) < o.radix
    ensures var ds := Run(s, o, start, p); ds != [] && ds[0] == Digit(false, At(s, p)) && ds[1..] == Run(s, o, start, p + 1)
  {
    RunStep(s, o, start, p);
    InString(s, p);
    DotIsNone();
    hide ToDigit;
  }

  /** Without separators, the digits that stand in a row are all in the run. */
  lemma {:induction false} RunHas(s: string, o: Options, start: nat, p: nat, j: nat)
    requires ValidRadix(o.radix) && p <= j && forall i :: p <= i <= j ==> ToDigit(At(s, i)) < o.radix
    ensures var ds := Run(s, o, start, p); j - p < |ds| && ds[j - p].c == At(s, j)
    decreases j - p
  {
    hide ToDigit, Run;
    RunStarts(s, o, start, p);
    if p < j { RunHas(s, o, start, p + 1, j); }
  }

  lemma {:induction false} PastOctalIs(s: string, p: nat)
    ensures forall i :: p <= i < PastOctal(s, p) ==> '0' <= At(s, i) <= '7'
    decreases if p <= |s| then |s| - p else 0
  {
    if '0' <= At(s, p) <= '7' { PastOctalIs(s, p + 1); }
  }

  lemma NotSeparated(n: Numeral, o: Options)
    requires Fits(n.whole, o) && Fits(n.frac, o) && Fits(n.exp, o.(radix := 10))
    ensures AnySeparated(n) ==> o.underscores
  {
  }

  /** The options admit what has been read. */
  lemma {:induction false} PrefixAdmits(s: string, o: Options, start: nat, n: Numeral)
    requires o.radix == 0 || ValidRadix(o.radix)
    requires var f := Prefix(s, o, start); !f.fail && HasDigits(s, f, start, n)
    ensures Admits(n, o)
  {
    hide ToDigit, Run, PastOctal, Fits, AnySeparated, HasEightOrNine;
    var f := Prefix(s, o, start);
    NotSeparated(n, f.o);
    if f.p == start + 2 {
      LetterAdmits(s, o, start, n);
    } else if f.p == start + 1 {
      assert n.prefix == [At(s, start)];
    } else {
      PlainAdmits(s, o, start, n);
    }
  }

  lemma {:induction false} LetterAdmits(s: string, o: Options, start: nat, n: Numeral)
    requires o.radix == 0 || ValidRadix(o.radix)
    requires var f := Prefix(s, o, start);
             !f.fail && f.p == start + 2 && HasDigits(s, f, start, n) && (AnySeparated(n) ==> f.o.underscores)
    ensures Admits(n, o)
  {
    hide ToDigit, Run, PastOctal, Fits, AnySeparated, HasEightOrNine, LegacyStart;
    assert n.prefix == [At(s, start), At(s, start + 1)];
  }

  lemma {:induction false} RunFirst(s: string, o: Options, start: nat, p: nat)
    requires ValidRadix(o.radix) && Run(s, o, start, p) != [] && !Run(s, o, start, p)[0].sep
    ensures var ds := Run(s, o, start, p); At(s, p) == ds[0].c && ds[1..] == Run(s, o, start, p + 1)
  {
    RunStep(s, o, start, p);
    hide ToDigit;
  }

  /** A zero and another digit in front of an 8 or a 9. */
  lemma {:induction false} LegacyDecimal(s: string, o: Options, start: nat, n: Numeral)
    requires o.radix == 10 && n.whole == Run(s, o, start, start) && At(s, start) == '0' && '0' <= At(s, start + 1) <= '9'
    requires var c := At(s, PastOctal(s, start + 1)); c == '8' || c == '9'
    ensures LegacyStart(n) && HasEightOrNine(n.whole)
  {
    hide Run, PastOctal, ToDigit;
    var q := PastOctal(s, start + 1);
    PastOctalIs(s, start + 1);
    forall i | start <= i <= q ensures ToDigit(At(s, i)) < 10 { OctalDigit(At(s, i)); }
    RunHas(s, o, start, start, q);
    OctalDigit(At(s, start + 1));
    RunStarts(s, o, start, start);
    RunStarts(s, o, start, start + 1);
  }

  /** Two digits in a row stand in the string. */
  lemma {:induction false} RunChars(s: string, o: Options, start: nat, ds: seq<Digit>)
    requires ValidRadix(o.radix) && start <= |s| && ds == Run(s, o, start, start) && |ds| > 1 && !ds[1].sep
    ensures At(s, start) == ds[0].c && At(s, start + 1) == ds[1].c
  {
    hide Run, ToDigit, Fits, IsDot, NoDigit, From;
    RunIs(s, o, start, start);
    RunFirst(s, o, start, start);
    RunFirst(s, o, start, start + 1);
  }

  lemma {:induction false} PlainAdmits(s: string, o: Options, start: nat, n: Numeral)
    requires o.radix == 0 || ValidRadix(o.radix)
    requires var f := Prefix(s, o, start);
             !f.fail && f.p == start && HasDigits(s, f, start, n) && (AnySeparated(n) ==> f.o.underscores)
    ensures Admits(n, o)
  {
    hide ToDigit, Run, PastOctal, Fits, AnySeparated, HasEightOrNine;
    var f := Prefix(s, o, start);
    assert n.prefix == "";
    if At(s, start) == '0' && '0' <= At(s, start + 1) <= '9' && o.radix == 0 && o.legacyOctal {
      LegacyDecimal(s, f.o, start, n);
    } else if LegacyStart(n) && o.radix == 0 && o.legacyOctal {
      RunChars(s, f.o, start, n.whole);
    }
  }

  // ---- the theorem ----

  /** What a number that has been read says about the scan. */
  lemma {:induction false} NumberRead(s: string, o: Options, start: nat, p: nat, neg: bool, end: Scan, all: seq<nat>)
    requires ValidRadix(o.radix) && start <= p && ReadDigits(s, o, start, Scan(p, 0, -1)) == (end, all)
    requires ParseDigits(s, o, start, p, neg).Number?
    ensures end.p > start && (ExponentFollows(s, o, start, end.p) ==> ToDigit(At(s, ExponentDigitAt(s, end.p))) < 10)
    ensures var d, z := ExponentDigitAt(s, end.p), LeadingZeros(all);
            var dotPos, e := if end.dot < 0 then end.pos else end.dot, ReadExponent(s, o, d + 1, ToDigit(At(s, d)));
            ParseDigits(s, o, start, p, neg) ==
              if ExponentFollows(s, o, start, end.p) then
                Number(o.radix, neg, all[z..], z, dotPos, if At(s, end.p + 1) == '-' then -(e.1 as int) else e.1,
                       At(s, end.p) == 'p' || At(s, end.p) == 'P', e.0)
              else Number(o.radix, neg, all[z..], z, dotPos, 0, false, end.p)
  {
    hide ReadDigits, SkipZeros, ReadExponent, ToDigit, LeadingZeros, ParseDigits, ExponentFollows;
    ScansRun(s, o, start, p, all, end);
    var z := SkipZeros(s, o, start, Scan(p, 0, -1));
    NumberHas(s, o, start, p, neg, z, end, all[z.pos..]);
    ParsedAs(s, o, start, p, neg, z, end, all[z.pos..]);
  }

  lemma {:induction false} NumberHas(s: string, o: Options, start: nat, p: nat, neg: bool, z: Scan, end: Scan, ds: seq<nat>)
    requires z == SkipZeros(s, o, start, Scan(p, 0, -1)) && ReadDigits(s, o, start, z) == (end, ds) && end.p >= start
    requires ParseDigits(s, o, start, p, neg).Number?
    ensures end.p > start && (ExponentFollows(s, o, start, end.p) ==> ToDigit(At(s, ExponentDigitAt(s, end.p))) < 10)
  {
    hide ReadDigits, SkipZeros, ReadExponent, ToDigit;
  }

  /** The digits behind sign and prefix are as they must be. */
  lemma {:induction false} DigitsWell(s: string, o: Options, start: nat, p: nat, n: Numeral)
    requires ValidRadix(o.radix) && start <= p <= |s| && BodyEnd(n, p).p > start
    requires p > start ==> ToDigit(At(s, p)) < o.radix
    requires n.whole == Run(s, o, start, p) && n.dot == HasDot(s, o, start, p) && n.frac == FracAt(s, o, start, p)
    ensures n.whole != [] ==> !n.whole[0].sep
    ensures n.whole == [] ==> p == start && n.frac != [] && !n.frac[0].sep
  {
    hide ToDigit, Run, Fits, From, NoDigit, Shown;
    RunIs(s, o, start, p);
    if p > start {
      RunStarts(s, o, start, p);
    } else if n.whole == [] {
      NoRun();
      RunStarts(s, o, start, p + 1);
    }
  }

  lemma PrefixEnds(s: string, o: Options, start: nat)
    requires (o.radix == 0 || ValidRadix(o.radix)) && start <= |s|
    ensures var f := Prefix(s, o, start);
            start <= f.p <= |s| && (!f.fail && f.p > start ==> ToDigit(At(s, f.p)) < f.o.radix)
  {
  }

  /** The exponent of the numeral that stands there, or none. */
  predicate HasTail(s: string, o: Options, start: nat, q: nat, n: Numeral) {
    if ExponentFollows(s, o, start, q) then
      && ToDigit(At(s, ExponentDigitAt(s, q))) < 10
      && n.mark == At(s, q) && n.exp == ExponentAt(s, o, ExponentDigitAt(s, q))
      && n.expSign == if At(s, q + 1) == '+' || At(s, q + 1) == '-' then [At(s, q + 1)] else ""
    else n.mark == 'e' && n.exp == [] && n.expSign == ""
  }

  lemma {:induction false} TailOrNone(s: string, o: Options, start: nat, q: nat, n: Numeral)
    requires ValidRadix(o.radix) && q <= |s| && HasTail(s, o, start, q, n)
    ensures q + |Tail(n)| <= |s| && s[q..q + |Tail(n)|] == Tail(n)
    ensures IsSign(n.expSign) && AllIn(n.exp, 10) && Fits(n.exp, o.(radix := 10))
    ensures n.exp != [] ==> Marks(n.mark, o.radix) && !n.exp[0].sep && !o.intOnly
  {
    hide ToDigit, ReadExponent, NatIn, ExponentAt, Values, Fits, Shown;
    if ExponentFollows(s, o, start, q) {
      TailIs(s, o, start, q, n);
    } else {
      NothingFits(o.(radix := 10));
    }
  }

  /** The parts of the numeral, one behind the other. */
  lemma TextSlices(s: string, start: nat, p: nat, q: nat, r: nat, n: Numeral)
    requires start <= p <= q <= r <= |s| && n.sign == s[..start] && n.prefix == s[start..p]
    requires s[p..q] == Shown(n.whole) + Fraction(n) && s[q..r] == Tail(n)
    ensures Text(n) == s[..r] && |Text(n)| == r
  {
    hide Shown, Fraction, Tail;
    Slices(s, 0, start, p);
    Slices(s, p, q, r);
    Slices(s, 0, p, r);
  }

  /** What stands behind sign and prefix is read as the numeral means. */
  lemma {:induction false} MeansRead(s: string, o: Options, start: nat, p: nat, n: Numeral)
    requires ValidRadix(o.radix) && start <= p <= |s| && n.radix == o.radix && (n.sign == "-" <==> At(s, 0) == '-')
    requires n.whole == Run(s, o, start, p) && n.dot == HasDot(s, o, start, p) && n.frac == FracAt(s, o, start, p)
    requires ParseDigits(s, o, start, p, At(s, 0) == '-').Number? && HasTail(s, o, start, BodyEnd(n, p).p, n)
    requires |Text(n)| == BodyEnd(n, p).p + |Tail(n)|
    ensures BodyEnd(n, p).p > start && ParseDigits(s, o, start, p, At(s, 0) == '-') == Meaning(n)
  {
    hide ReadDigits, ReadExponent, ToDigit, Run, ParseDigits, Meaning, Fits, Values, NatIn, Text, Shown, Fraction, HasDot,
         ExponentAt, LeadingZeros, Marks, AllIn;
    var end := BodyEnd(n, p);
    BodyRead(s, o, start, p, n);
    NumberRead(s, o, start, p, At(s, 0) == '-', end, Values(n.whole) + Values(n.frac));
    MeaningIs(n);
    if ExponentFollows(s, o, start, end.p) {
      TailIs(s, o, start, end.p, n);
    } else {
      NoValue();
    }
  }

  lemma NoValue()
    ensures NatIn(Values([]), 10) == 0
  {
  }

  lemma {:induction false} ReadsWell(s: string, o: Options, start: nat, p: nat, n: Numeral)
    requires ValidRadix(o.radix) && start <= p <= |s| && n.radix == o.radix && IsSign(n.sign) && n.prefix == s[start..p]
    requires p > start ==> ToDigit(At(s, p)) < o.radix
    requires n.whole == Run(s, o, start, p) && n.dot == HasDot(s, o, start, p) && n.frac == FracAt(s, o, start, p)
    requires BodyEnd(n, p).p > start && HasTail(s, o, start, BodyEnd(n, p).p, n)
    ensures WellFormed(n) && Fits(n.whole, o) && Fits(n.frac, o) && Fits(n.exp, o.(radix := 10))
    ensures n.dot || n.exp != [] ==> !o.intOnly
  {
    hide ReadDigits, ToDigit, Run, Fits, Values, Shown, Fraction, Marks, AllIn, HasTail;
    BodyRead(s, o, start, p, n);
    DigitsWell(s, o, start, p, n);
    TailOrNone(s, o, start, BodyEnd(n, p).p, n);
    FitsAll(n.whole, o);
    FitsAll(n.frac, o);
  }

  lemma WithTailIs(s: string, o: Options, start: nat, q: nat, n: Numeral)
    requires n.mark == 'e' && n.exp == [] && n.expSign == ""
    requires ExponentFollows(s, o, start, q) ==> ToDigit(At(s, ExponentDigitAt(s, q))) < 10
    ensures HasTail(s, o, start, q, WithTail(s, o, start, q, n))
  {
    hide ToDigit, ExponentAt;
  }

  lemma SameBody(n: Numeral, n': Numeral, p: nat)
    requires n.whole == n'.whole && n.dot == n'.dot && n.frac == n'.frac
    ensures BodyEnd(n, p) == BodyEnd(n', p) && Fraction(n) == Fraction(n')
  {
  }

  lemma NoneInfinite(s: string, o: Options)
    requires (o.radix == 0 || ValidRadix(o.radix)) && Parse(s, o).Number?
    ensures var start, f := SkipSign(s), Prefix(s, o, SkipSign(s));
            && !f.fail && Parse(s, o) == ParseDigits(s, f.o, start, f.p, At(s, 0) == '-')
            && (o.intOnly || !StartsInfinity(s, start))
  {
    hide Prefix, ParseDigits, StartsInfinity;
    NotInfinity(s, SkipSign(s));
  }

  /** Every number that js_atod reads is a numeral that the options admit, and it means what has been read. */
  lemma {:induction false} OnlyNumerals(s: string, o: Options) returns (n: Numeral)
    requires (o.radix == 0 || ValidRadix(o.radix)) && Parse(s, o).Number?
    ensures WellFormed(n) && Admits(n, o)
    ensures Parse(s, o) == Meaning(n) && |Text(n)| <= |s| && s[..|Text(n)|] == Text(n)
    ensures o.intOnly || !StartsInfinity(s, |n.sign|)
  {
    hide ReadDigits, ReadExponent, ToDigit, Run, Prefix, ParseDigits, Parse, Meaning, StartsInfinity, Fits, Values, NatIn,
         Text, Admits, Shown, Fraction, HasDot, FracAt, ExponentAt, LeadingZeros, Marks, AllIn, Tail, Body, HasTail,
         WellFormed;
    var start := SkipSign(s);
    var f := Prefix(s, o, start);
    NoneInfinite(s, o);
    SignAt(s);
    PrefixEnds(s, o, start);
    var head := HeadAt(s, start, f);
    var end := BodyEnd(head, f.p);
    n := WithTail(s, f.o, start, end.p, head);
    BodyRead(s, f.o, start, f.p, head);
    NumberRead(s, f.o, start, f.p, At(s, 0) == '-', end, Values(head.whole) + Values(head.frac));
    SameBody(head, n, f.p);
    WithTailIs(s, f.o, start, end.p, head);
    TailOrNone(s, f.o, start, end.p, n);
    ReadsWell(s, f.o, start, f.p, n);
    TextSlices(s, start, f.p, end.p, end.p + |Tail(n)|, n);
    MeansRead(s, f.o, start, f.p, n);
    PrefixAdmits(s, o, start, n);
  }

  /** A whole string is a numeral exactly when it is read to its end, unless it begins with Infinity. */
  lemma {:induction false} NumeralIff(s: string, o: Options)
    requires o.radix == 0 || ValidRadix(o.radix)
    ensures Parse(s, o).Number? && Parse(s, o).p == |s| <==> IsNumeral(s, o)
  {
    hide Parse, WellFormed, Admits, Text, StartsInfinity, Meaning;
    if Parse(s, o).Number? && Parse(s, o).p == |s| {
      var n := OnlyNumerals(s, o);
      MeaningEnds(n);
      assert s[..|s|] == s;
    }
    if IsNumeral(s, o) {
      var n :| WellFormed(n) && Admits(n, o) && s == Text(n) && (o.intOnly || !StartsInfinity(s, |n.sign|));
      assert Text(n) + "" == Text(n);
      ParseNumeral(n, o, "");
      MeaningEnds(n);
    }
  }

  ghost predicate IsNumeral(s: string, o: Options) {
    exists n :: WellFormed(n) && Admits(n, o) && s == Text(n) && (o.intOnly || !StartsInfinity(s, |n.sign|))
  }

  lemma MeaningEnds(n: Numeral)
    ensures Meaning(n).Number? && Meaning(n).p == |Text(n)|
  {
    hide Text, LeadingZeros;
  }
}
