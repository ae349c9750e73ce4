/** Printing a number and reading it back. */
module DtRoundTrip {
  import opened DtArith
  import opened DtLimb
  import opened DtScale
  import opened DtDouble
  import opened DtRange
  import opened DtDecimal
  import opened DtSearch
  import opened DtText
  import opened DtTables
  import opened DtMeaning
  import opened DtPrint
  import opened DtAtod
  import opened DtDtoa
  import N = DtNumeral

  predicate AllDigits(t: string) { forall i :: 0 <= i < |t| ==> '0' <= t[i] <= '9' }

  function DigitsOf(t: string): (ds: seq<nat>)
    ensures |ds| == |t| && forall i :: 0 <= i < |t| ==> ds[i] == ToDigit(t[i])
  {
    seq(|t|, i requires 0 <= i < |t| => ToDigit(t[i]))
  }

  function LeadingZeros(t: string): (z: nat)
    ensures z <= |t| && (z < |t| ==> t[z] != '0') && forall i :: 0 <= i < z ==> t[i] == '0'
  {
    if t == "" || t[0] != '0' then 0 else 1 + LeadingZeros(t[1..])
  }

  /** A decimal numeral: integer part, fraction (empty: no dot), and an exponent (empty digits: none). */
  datatype Decimal = Decimal(whole: string, frac: string, expNeg: bool, exp: string)

  predicate WellFormed(n: Decimal) {
    n.whole != "" && AllDigits(n.whole) && AllDigits(n.frac) && AllDigits(n.exp)
  }

  function Dot(n: Decimal): string { if n.frac == "" then "" else "." + n.frac }

  function Tail(n: Decimal): string {
    if n.exp == "" then "" else (if n.expNeg then "e-" else "e+") + n.exp
  }

  function Text(neg: bool, n: Decimal): string { (if neg then "-" else "") + n.whole + Dot(n) + Tail(n) }

  function Signed(neg: bool, v: nat): int { if neg then -(v as int) else v }

  /** What js_atod makes of a numeral. */
  function Meaning(neg: bool, n: Decimal): Parsed {
    var all := n.whole + n.frac;
    var z := LeadingZeros(all);
    Number(10, neg, DigitsOf(all[z..]), z, |n.whole|, Signed(n.expNeg, NatIn(DigitsOf(n.exp), 10)), false, |Text(neg, n)|)
  }

  // ---- how a decimal numeral is read ----

  /** Digits without separators. */
  function Plain(t: string): (ds: seq<N.Digit>)
    ensures |ds| == |t| && forall i :: 0 <= i < |t| ==> ds[i] == N.Digit(false, t[i])
  {
    seq(|t|, i requires 0 <= i < |t| => N.Digit(false, t[i]))
  }

  /** The numeral as one of the numerals of every radix. */
  function InRadix(neg: bool, n: Decimal): N.Numeral {
    N.Numeral(10, if neg then "-" else "", "", Plain(n.whole), n.frac != "", Plain(n.frac), 'e', if n.expNeg then "-" else "+", Plain(n.exp))
  }

  lemma {:induction false} PlainShown(t: string)
    ensures N.Shown(Plain(t)) == t
    decreases |t|
  {
    if t != "" {
      assert Plain(t)[1..] == Plain(t[1..]);
      PlainShown(t[1..]);
      assert "" + [t[0]] + t[1..] == t;
    }
  }

  lemma {:induction false} SameText(neg: bool, n: Decimal)
    ensures N.Text(InRadix(neg, n)) == Text(neg, n)
  {
    hide N.Shown, Plain;
    PlainShown(n.whole);
    PlainShown(n.frac);
    PlainShown(n.exp);
    var sign, tail := if neg then "-" else "", Tail(n);
    assert ['e'] + "-" == "e-" && ['e'] + "+" == "e+";
    assert sign + "" + (n.whole + Dot(n) + tail) == sign + n.whole + Dot(n) + tail;
  }

  lemma {:induction false} SameZeros(t: string, vs: seq<nat>)
    requires vs == DigitsOf(t)
    ensures N.LeadingZeros(vs) == LeadingZeros(t)
    decreases |t|
  {
    if t != "" {
      OnlyZero(t[0]);
      SameZeros(t[1..], vs[1..]);
    }
  }

  lemma OnlyZero(c: char)
    ensures ToDigit(c) == 0 <==> c == '0'
  {
  }

  lemma {:induction false} SameValues(t: string)
    ensures N.Values(Plain(t)) == DigitsOf(t)
  {
    hide ToDigit;
  }

  lemma {:induction false} SameMeaning(neg: bool, n: Decimal)
    ensures N.Meaning(InRadix(neg, n)) == Meaning(neg, n)
  {
    hide LeadingZeros, N.LeadingZeros, NatIn, Text, N.Text, ToDigit, N.Values, DigitsOf, Plain;
    var all := n.whole + n.frac;
    SameValues(n.whole);
    SameValues(n.frac);
    SameValues(n.exp);
    DigitsJoin(n.whole, n.frac);
    SameZeros(all, DigitsOf(all));
    SameText(neg, n);
    DigitsFrom(all, LeadingZeros(all));
    N.MeaningIs(InRadix(neg, n));
    hide N.Meaning;
  }

  lemma DigitsFrom(t: string, k: nat)
    requires k <= |t|
    ensures DigitsOf(t)[k..] == DigitsOf(t[k..])
  {
  }

  lemma {:induction false} NatOfNone()
    ensures NatIn(DigitsOf(""), 10) == 0
  {
  }

  /** Options without a radix, or with radix 10, for numbers that need not be integers. */
  predicate ForNumerals(o: Options) { (o.radix == 0 || o.radix == 10) && !o.intOnly }

  /** A zero in front of another digit could stand for radix 8. */
  predicate Unprefixed(n: Decimal, o: Options) { o.radix == 10 || |n.whole| == 1 || (n.whole != "" && n.whole[0] != '0') }

  lemma InRadixWell(neg: bool, n: Decimal, o: Options)
    requires WellFormed(n) && ForNumerals(o) && Unprefixed(n, o)
    ensures N.WellFormed(InRadix(neg, n)) && N.Admits(InRadix(neg, n), o)
  {
    hide ToDigit;
    assert !N.AnySeparated(InRadix(neg, n));
  }

  /** js_atod reads a numeral as what it means, to the end of the string. */
  lemma {:induction false} ParseDecimal(neg: bool, n: Decimal, o: Options)
    requires WellFormed(n) && ForNumerals(o) && Unprefixed(n, o)
    ensures Parse(Text(neg, n), o) == Meaning(neg, n)
  {
    hide Parse, Text, N.Text, StartsInfinity, Meaning, N.Meaning, N.Body, N.Admits, Plain;
    var m := InRadix(neg, n);
    InRadixWell(neg, n, o);
    assert N.Text(m) + "" == N.Text(m);
    N.ParseNumeral(m, o, "");
    N.BodyAt(N.Text(m), m, "");
    N.NotInfinity(N.Text(m), |m.sign|);
    SameText(neg, n);
    SameMeaning(neg, n);
  }

  // ---- the layouts of js_dtoa are numerals ----

  function NumeralOf(mant: nat, p: nat, exp10: int, mode: ExpMode): Decimal
    requires p >= 1
  {
    var digits := Dec(mant, p);
    if Exponential(exp10, mode) then Decimal(digits[..1], digits[1..], exp10 - 1 < 0, DecNat(Abs(exp10 - 1)))
    else if exp10 <= 0 then Decimal("0", Zeros(-exp10) + digits, false, "")
    else if exp10 < p then Decimal(digits[..exp10], digits[exp10..], false, "")
    else Decimal(digits + Zeros(exp10 - p), "", false, "")
  }

  lemma {:induction false} LayoutIsNumeral(neg: bool, mant: nat, p: nat, exp10: int, mode: ExpMode)
    requires p >= 1
    ensures WellFormed(NumeralOf(mant, p, exp10, mode))
    ensures (if neg then "-" else "") + FreeText(mant, p, exp10, mode) == Text(neg, NumeralOf(mant, p, exp10, mode))
  {
    var digits, sign := Dec(mant, p), if neg then "-" else "";
    var n := NumeralOf(mant, p, exp10, mode);
    DigitsStay(digits);
    hide Dec, Zeros, Places, AllDigits;
    if Exponential(exp10, mode) {
      DotInside(digits, 1);
      FreeParts(sign, n.whole, Dot(n), Tail(n));
    } else if exp10 <= 0 {
      ZerosStay(-exp10, digits);
      Fraction(sign, Zeros(-exp10), digits);
    } else if exp10 < p {
      DotInside(digits, exp10);
      FreeParts(sign, n.whole, Dot(n), "");
      assert n.whole + Dot(n) + "" == n.whole + Dot(n);
    } else {
      PaddedStay(digits, exp10 - p);
      FreeParts(sign, digits + Zeros(exp10 - p), "", "");
      assert digits + Zeros(exp10 - p) + "" + "" == digits + Zeros(exp10 - p);
    }
  }

  lemma {:induction false} DigitsStay(t: string)
    requires forall i :: 0 <= i < |t| ==> '0' <= t[i] <= '9'
    ensures AllDigits(t) && forall i :: 0 <= i <= |t| ==> AllDigits(t[..i]) && AllDigits(t[i..])
    ensures AllDigits("0") && AllDigits("") && forall v: nat :: AllDigits(DecNat(v))
  {
  }

  lemma {:induction false} ZerosStay(k: nat, t: string)
    requires AllDigits(t)
    ensures AllDigits(Zeros(k) + t)
  {
  }

  lemma {:induction false} PaddedStay(t: string, k: nat)
    requires AllDigits(t)
    ensures AllDigits(t + Zeros(k))
  {
  }

  lemma DotInside(digits: string, k: nat)
    requires k <= |digits|
    ensures InsertDot(digits, k) == digits[..k] + (if digits[k..] == "" then "" else "." + digits[k..])
  {
    assert digits[..k] + digits[k..] == digits;
    assert digits[..k] + ("." + digits[k..]) == digits[..k] + "." + digits[k..];
  }

  lemma Fraction(sign: string, zeros: string, digits: string)
    ensures sign + ("0." + zeros + digits) == sign + "0" + ("." + (zeros + digits)) + ""
  {
    assert "0." + zeros + digits == "0" + ("." + (zeros + digits));
  }

  lemma FreeParts(a: string, b: string, c: string, d: string)
    ensures a + (b + c + d) == a + b + c + d
  {
  }

  /** The digits of a printed number are those of its mantissa, with the zeros that have been put behind them. */
  function PadOf(p: nat, exp10: int, mode: ExpMode): nat {
    if !Exponential(exp10, mode) && exp10 > p then exp10 - p else 0
  }

  lemma {:induction false} FirstDigitOf(v: nat, n: nat)
    requires n >= 1 && Pow(10, n - 1) <= v < Pow(10, n)
    ensures Dec(v, n)[0] != '0'
    decreases n
  {
    PowOne(10);
    if n > 1 {
      PowStep(10, n - 1);
      PowStep(10, n - 2);
      FirstDigitOf(v / 10, n - 1);
    }
  }

  lemma {:induction false} NatOfDec(v: nat, n: nat)
    requires v < Pow(10, n)
    ensures NatIn(DigitsOf(Dec(v, n)), 10) == v
    decreases n
  {
    PowOne(10);
    if n > 0 {
      PowStep(10, n - 1);
      NatOfDec(v / 10, n - 1);
      var t := Dec(v / 10, n - 1);
      assert DigitsOf(t + [DigitChar(v % 10)]) == DigitsOf(t) + [v % 10];
      NatSnoc(DigitsOf(t), v % 10, 10);
    } else {
      assert DigitsOf(Dec(v, n)) == [];
    }
  }

  lemma {:induction false} NatOfPadded(ds: seq<nat>, k: nat)
    ensures NatIn(ds + DigitsOf(Zeros(k)), 10) == NatIn(ds, 10) * Pow(10, k)
  {
    hide NatIn, Pow, Zeros;
    NatConcat(ds, DigitsOf(Zeros(k)), 10);
    ZeroDigits(DigitsOf(Zeros(k)), 10);
  }

  lemma {:induction false} LeadingOf(k: nat, t: string)
    requires t != "" && t[0] != '0'
    ensures LeadingZeros(Zeros(k) + t) == k
  {
    hide LeadingZeros, Zeros;
    var all := Zeros(k) + t;
    var z := LeadingZeros(all);
    assert all[k] == t[0];
    forall i | 0 <= i < k ensures all[i] == '0' { assert all[i] == Zeros(k)[i]; }
  }

  /** What js_atod makes of the text: the digits, and the place of the first one. */
  lemma {:induction false} PrintedMeaning(neg: bool, mant: nat, p: nat, exp10: int, mode: ExpMode)
    requires p >= 1 && Pow(10, p - 1) <= mant < Pow(10, p)
    ensures var n := Meaning(neg, NumeralOf(mant, p, exp10, mode));
            && n.digits == DigitsOf(Dec(mant, p)) + DigitsOf(Zeros(PadOf(p, exp10, mode)))
            && n.radix == 10 && !n.binary && FirstPlace(n) == exp10 && n.neg == neg
  {
    hide Pow, Dec, NatIn, DecNat, Meaning, LeadingZeros, Zeros, DigitsOf, FirstPlace, PadOf;
    var digits := Dec(mant, p);
    FirstDigitOf(mant, p);
    NatOfNone();
    MeaningIs(neg, NumeralOf(mant, p, exp10, mode));
    PlainPlace(Meaning(neg, NumeralOf(mant, p, exp10, mode)));
    PadIs(p, exp10, mode);
    if Exponential(exp10, mode) {
      ExponentOf(exp10 - 1);
      SplitMeaning(neg, digits, 1, exp10 - 1 < 0, DecNat(Abs(exp10 - 1)), exp10 - 1);
    } else if exp10 <= 0 {
      FractionMeaning(neg, digits, exp10);
    } else if exp10 < p {
      SplitMeaning(neg, digits, exp10, false, "", 0);
    } else {
      PaddedMeaning(neg, digits, exp10 - p);
    }
  }

  lemma PadIs(p: nat, exp10: int, mode: ExpMode)
    ensures PadOf(p, exp10, mode) == if !Exponential(exp10, mode) && exp10 > p then exp10 - p else 0
  {
  }

  lemma {:induction false} SplitMeaning(neg: bool, digits: string, k: nat, expNeg: bool, exp: string, e: int)
    requires digits != "" && digits[0] != '0' && k <= |digits| && Signed(expNeg, NatIn(DigitsOf(exp), 10)) == e
    ensures var n := Meaning(neg, Decimal(digits[..k], digits[k..], expNeg, exp));
            && n.digits == DigitsOf(digits) + DigitsOf(Zeros(0)) && n.neg == neg && n.radix == 10 && !n.binary
            && n.sigPos == 0 && n.dotPos == k && n.exp == e
  {
    NoPadding(digits);
    hide NatIn, Meaning, LeadingZeros, Zeros, DigitsOf;
    AllOfDigits(digits[..k], digits[k..], digits, 0);
    MeaningFrom(neg, Decimal(digits[..k], digits[k..], expNeg, exp), DigitsOf(digits) + DigitsOf(Zeros(0)), 0, e);
  }

  lemma {:induction false} FractionMeaning(neg: bool, digits: string, exp10: int)
    requires digits != "" && digits[0] != '0' && exp10 <= 0
    ensures var n := Meaning(neg, Decimal("0", Zeros(-exp10) + digits, false, ""));
            && n.digits == DigitsOf(digits) + DigitsOf(Zeros(0)) && n.neg == neg && n.radix == 10 && !n.binary
            && n.sigPos == 1 - exp10 && n.dotPos == 1 && n.exp == 0
  {
    NoPadding(digits);
    NatOfNone();
    hide NatIn, Meaning, LeadingZeros, Zeros, DigitsOf;
    AllOfFraction(exp10, digits);
    MeaningFrom(neg, Decimal("0", Zeros(-exp10) + digits, false, ""), DigitsOf(digits) + DigitsOf(Zeros(0)), 1 - exp10, 0);
  }

  lemma {:induction false} PaddedMeaning(neg: bool, digits: string, pad: nat)
    requires digits != "" && digits[0] != '0'
    ensures var n := Meaning(neg, Decimal(digits + Zeros(pad), "", false, ""));
            && n.digits == DigitsOf(digits) + DigitsOf(Zeros(pad)) && n.neg == neg && n.radix == 10 && !n.binary
            && n.sigPos == 0 && n.dotPos == |digits| + pad && n.exp == 0
  {
    NatOfNone();
    hide NatIn, Meaning, LeadingZeros, DigitsOf;
    assert digits + Zeros(pad) + "" == digits + Zeros(pad);
    AllOfDigits(digits + Zeros(pad), "", digits, pad);
    MeaningFrom(neg, Decimal(digits + Zeros(pad), "", false, ""), DigitsOf(digits) + DigitsOf(Zeros(pad)), 0, 0);
  }

  lemma {:induction false} MeaningFrom(neg: bool, num: Decimal, ds: seq<nat>, z: nat, e: int)
    requires LeadingZeros(num.whole + num.frac) == z && DigitsOf((num.whole + num.frac)[z..]) == ds
    requires Signed(num.expNeg, NatIn(DigitsOf(num.exp), 10)) == e
    ensures var n := Meaning(neg, num);
            n.digits == ds && n.sigPos == z && n.dotPos == |num.whole| && n.exp == e && n.neg == neg && n.radix == 10 && !n.binary
  {
    hide LeadingZeros, DigitsOf, NatIn, Text;
  }

  lemma {:induction false} NoPadding(digits: string)
    ensures Zeros(0) == "" && digits + Zeros(0) == digits && DigitsOf(digits) + DigitsOf(Zeros(0)) == DigitsOf(digits)
    ensures forall i :: 0 <= i <= |digits| ==> digits[..i] + digits[i..] == digits
    ensures digits + "" == digits
  {
    assert DigitsOf("") == [];
  }

  /** The digits behind `0.` and zeros. */
  lemma {:induction false} AllOfFraction(exp10: int, digits: string)
    requires exp10 <= 0 && digits != "" && digits[0] != '0'
    ensures var all := "0" + (Zeros(-exp10) + digits);
            LeadingZeros(all) == 1 - exp10 && all[1 - exp10..] == digits
  {
    ZerosJoin(1, -exp10);
    assert Zeros(1) == "0" by { assert Zeros(0) == ""; }
    LeadingOf(1 - exp10, digits);
    hide LeadingZeros, Zeros;
    assert "0" + (Zeros(-exp10) + digits) == Zeros(1 - exp10) + digits by {
      assert "0" + (Zeros(-exp10) + digits) == "0" + Zeros(-exp10) + digits;
    }
  }

  /** The digits where the first one stands in front. */
  lemma {:induction false} AllOfDigits(whole: string, frac: string, digits: string, pad: nat)
    requires digits != "" && digits[0] != '0' && whole + frac == digits + Zeros(pad)
    ensures LeadingZeros(whole + frac) == 0
    ensures DigitsOf((whole + frac)[0..]) == DigitsOf(digits) + DigitsOf(Zeros(pad))
  {
    var rest := digits + Zeros(pad);
    LeadingOf(0, rest);
    assert Zeros(0) + rest == rest by { assert Zeros(0) == ""; }
    assert rest[0..] == rest;
    DigitsJoin(digits, Zeros(pad));
  }

  lemma {:induction false} ZerosJoin(a: nat, b: nat)
    ensures Zeros(a) + Zeros(b) == Zeros(a + b)
  {
  }

  lemma DigitsJoin(a: string, b: string)
    ensures DigitsOf(a + b) == DigitsOf(a) + DigitsOf(b)
  {
  }

  lemma {:induction false} ExponentOf(e: int)
    ensures NatIn(DigitsOf(DecNat(Abs(e))), 10) == Abs(e)
  {
    HasPlaces(Abs(e));
    NatOfDec(Abs(e), Places(Abs(e)));
  }

  // ---- reading back ----

  lemma {:induction false} SameAnswer(b: nat, c: nat, mant: nat, f: int, k: nat, padded: nat)
    requires Reads(b, mant, f) && Reads(c, padded, f - k) && padded == mant * Pow(10, k)
    ensures b == c
  {
    PaddedCross(mant, f, k);
    hide Pow, Num, Den, NearestTo;
    NearestSame(c, Num(padded, 0, 10, f - k), Den(0, 10, f - k), Num(mant, 0, 10, f), Den(0, 10, f));
    NearestUnique(b, c, Num(mant, 0, 10, f), Den(0, 10, f));
  }

  /** The digits that js_atod keeps: those of the mantissa, and some of the zeros. */
  lemma {:induction false} KeptOf(mant: nat, p: nat, k: nat, ds: seq<nat>) returns (j: nat)
    requires 1 <= p <= P_MAX && mant < Pow(10, p) && ds == DigitsOf(Dec(mant, p)) + DigitsOf(Zeros(k))
    ensures |Kept(ds, 10)| == p + j && NatIn(Kept(ds, 10), 10) == mant * Pow(10, j)
  {
    SomeDigits38();
    j := if p + k <= 38 then k else 38 - p;
    NatOfDec(mant, p);
    NatOfPadded(DigitsOf(Dec(mant, p)), j);
    hide Pow, NatIn, Dec;
    forall i | 0 <= i < j ensures DigitsOf(Zeros(k))[i] == DigitsOf(Zeros(j))[i] { }
    assert Kept(ds, 10) == DigitsOf(Dec(mant, p)) + DigitsOf(Zeros(j));
  }

  lemma {:induction false} AnswersBack(neg: bool, b: nat, mant: nat, p: nat, exp10: int, mode: ExpMode, c: nat)
    requires Found(b, mant, p, exp10) && -340 <= exp10 <= 310
    requires Answers(Meaning(neg, NumeralOf(mant, p, exp10, mode)), c)
    ensures b == c
  {
    var n := Meaning(neg, NumeralOf(mant, p, exp10, mode));
    PrintedMeaning(neg, mant, p, exp10, mode);
    SmallExponent(neg, mant, p, exp10, mode);
    hide Pow, NatIn, Dec, Reads, Meaning, NumeralOf, Zeros, Answers, Kept, PadOf, Exponential;
    DigitsAnswer(b, mant, p, exp10, PadOf(p, exp10, mode), n, c);
  }

  lemma {:induction false} DigitsAnswer(b: nat, mant: nat, p: nat, exp10: int, pad: nat, n: Parsed, c: nat)
    requires Found(b, mant, p, exp10) && -340 <= exp10 <= 310
    requires n.Number? && n.radix == 10 && n.digits == DigitsOf(Dec(mant, p)) + DigitsOf(Zeros(pad))
    requires FirstPlace(n) == exp10 && -400 <= n.exp <= 400 && Answers(n, c)
    ensures b == c
  {
    hide Pow, NatIn, Dec, Reads, Zeros;
    assert |n.digits| == p + pad;
    UseAnswers(n, c);
    hide Answers;
    var j := KeptOf(mant, p, pad, n.digits);
    SameAnswer(b, c, mant, exp10 - p, j, NatIn(Kept(n.digits, 10), 10));
  }

  lemma {:induction false} SmallExponent(neg: bool, mant: nat, p: nat, exp10: int, mode: ExpMode)
    requires p >= 1 && -340 <= exp10 <= 310
    ensures -400 <= Meaning(neg, NumeralOf(mant, p, exp10, mode)).exp <= 400
  {
    ExponentOf(exp10 - 1);
    hide Dec, Places, LeadingZeros, Text, Zeros;
    assert NatIn(DigitsOf(""), 10) == 0;
  }

  // ---- integers and zero ----

  lemma {:induction false} IntegerReads(b: nat, k: nat)
    requires b <= INF && IsInteger(b, k)
    ensures Reads(b, k, 0)
  {
    PowOne(2);
    PowOne(10);
    hide Pow, V;
    assert Num(k, 0, 10, 0) == k && Den(0, 10, 0) == 1;
    forall c: nat | c <= INF ensures NoNearer(b, c, Units(k), 1) {
      if c != b && V(c) == V(b) { VInjective(b, c); }
    }
  }

  function IntegerNumeral(k: nat): Decimal { Decimal(DecNat(k), "", false, "") }

  lemma {:induction false} IntegerAnswers(neg: bool, b: nat, k: nat, c: nat)
    requires 0 < k < P53 && b <= INF && IsInteger(b, k) && Answers(Meaning(neg, IntegerNumeral(k)), c)
    ensures b == c
  {
    hide Pow, Dec, Places, Reads, ReadsIn, Answers, NatIn, Meaning, FirstPlace, Kept;
    var n := Meaning(neg, IntegerNumeral(k));
    IntegerMeaning(neg, k);
    IntegerReads(b, k);
    UseAnswers(n, c);
    ReadsTen(b, k, 0);
    ReadsTen(c, k, 0);
    if b != c { OnlyOne(b, c, k, 10, 0); }
  }

  lemma ReadsTen(b: nat, mant: nat, f: int)
    ensures Reads(b, mant, f) == ReadsIn(b, mant, 10, f)
  {
  }

  lemma {:induction false} IntegerMeaning(neg: bool, k: nat)
    requires 0 < k < P53
    ensures var n := Meaning(neg, IntegerNumeral(k));
            && n.Number? && n.radix == 10 && n.digits != [] && n.exp == 0 && FirstPlace(n) == |n.digits| <= 16
            && Kept(n.digits, 10) == n.digits && NatIn(n.digits, 10) == k
  {
    hide Pow, Dec, NatIn, Places, MaxDigits, Meaning, DigitsOf, LeadingZeros, FirstPlace, Text;
    var p, t := Places(k), DecNat(k);
    HasPlaces(k);
    SixteenPlaces(k);
    FirstDigitOf(k, p);
    NatOfDec(k, p);
    SomeDigits38();
    MeaningIs(neg, IntegerNumeral(k));
    PlainPlace(Meaning(neg, IntegerNumeral(k)));
    NoPadding(t);
    NatOfNone();
    AllOfDigits(t, "", t, 0);
    MeaningFrom(neg, IntegerNumeral(k), DigitsOf(t), 0, 0);
  }

  lemma SomeDigits38()
    ensures MaxDigits(10) == 38
  {
  }

  lemma UseAnswers(n: Parsed, c: nat)
    requires n.Number? && n.radix == 10 && Answers(n, c) && n.digits != [] && -1000 <= n.exp <= 1000 && -1000 <= FirstPlace(n) <= 1000
    ensures Reads(c, NatIn(Kept(n.digits, 10), 10), FirstPlace(n) - |Kept(n.digits, 10)|)
  {
    hide ReadsIn, NatIn, Kept;
    WrapNothing(FirstPlace(n));
  }

  lemma {:induction false} SixteenPlaces(k: nat)
    requires k < P53
    ensures Places(k) <= 16
  {
    TenTo16();
    hide Pow;
    PlacesBound(k, 16);
  }

  lemma {:induction false} ZeroAnswers(neg: bool, mode: ExpMode, c: nat)
    requires Answers(Meaning(neg, NumeralOf(0, 1, 1, mode)), c)
    ensures c == 0
  {
    OneDigit(0);
    assert Zeros(0) == "" && "0" + "" == "0" && "0"[..1] == "0" && "0"[1..] == "";
    assert LeadingZeros("0") == 1 by { assert LeadingZeros("") == 0; }
    hide Dec, Places, NatIn, Text;
    assert "0"[1..] == "" && DigitsOf("") == [];
  }

  // ---- lengths ----

  lemma {:induction false} TextLength(neg: bool, mant: nat, p: nat, exp10: int, mode: ExpMode)
    requires 1 <= p <= P_MAX && -340 <= exp10 <= 310
    ensures |(if neg then "-" else "") + FreeText(mant, p, exp10, mode)| <= 1000
  {
    TenPlaces(Abs(exp10 - 1));
    hide Dec, Places;
  }

  lemma {:induction false} StartsWithDigit(mant: nat, p: nat, exp10: int, mode: ExpMode, o: Options)
    requires p >= 1 && (Pow(10, p - 1) <= mant < Pow(10, p) || (mant == 0 && p == 1 && exp10 == 1))
    ensures Unprefixed(NumeralOf(mant, p, exp10, mode), o)
  {
    hide Pow, Dec, DecNat, Zeros;
    if Pow(10, p - 1) <= mant < Pow(10, p) { FirstDigitOf(mant, p); }
  }

  lemma {:induction false} StartsWithPlace(k: nat, o: Options)
    requires k > 0
    ensures Unprefixed(IntegerNumeral(k), o)
  {
    hide Pow, Dec, Places;
    HasPlaces(k);
    FirstDigitOf(k, Places(k));
  }

  // ---- the round trip ----

  /** Every number comes back from its text in the free format, whatever the layout; only the sign of zero needs the flag
      that prints it. */
  method PrintThenParse(d: Double, mode: ExpMode, minusZero: bool, o: Options) returns (s: string, r: Double, next: nat)
    requires (d.Bits? ==> d.b <= INF) && ForNumerals(o)
    ensures d.Nan? ==> r.Nan?
    ensures d.Bits? && (d.b > 0 || minusZero || !d.neg) ==> r == d && next == |s|
    ensures d.Bits? && d.b == 0 && d.neg && !minusZero ==> r == Bits(false, 0) && next == |s|
  {
    hide FreeText, IsText, Answers, Parse, Meaning, NumeralOf, Found, Text;
    ghost var printed;
    s, printed := JsDtoa(d, mode, minusZero);
    if d.Nan? {
      NotANumberText(o);
    } else if d.b == INF {
      InfinityText(d.neg, o);
    } else if d.b == 0 {
      ghost var neg := d.neg && minusZero;
      ZeroText(neg, mode, o, s);
    } else {
      ghost var t :| s == (if d.neg then "-" else "") + t && IsText(t, d.b, mode, printed);
      FiniteText(d.neg, d.b, mode, printed, o, t, s);
    }
    r, next := JsAtod(s, o);
  }

  lemma {:induction false} NotANumberText(o: Options)
    requires ForNumerals(o)
    ensures Parse("NaN", o).NotANumber? && |"NaN"| < 0x4000_0000
  {
  }

  lemma {:induction false} InfinityText(neg: bool, o: Options)
    requires ForNumerals(o)
    ensures var s := (if neg then "-" else "") + "Infinity"; |s| < 0x4000_0000 && Parse(s, o) == Infinite(neg, |s|)
  {
    var s := (if neg then "-" else "") + "Infinity";
    var start := if neg then 1 else 0;
    assert s[start..start + 8] == "Infinity";
    assert s[start] == 'I';
  }

  lemma {:induction false} ZeroText(neg: bool, mode: ExpMode, o: Options, s: string)
    requires ForNumerals(o) && s == (if neg then "-" else "") + FreeText(0, 1, 1, mode)
    ensures |s| < 0x4000_0000
    ensures var n := Parse(s, o); n.Number? && n.radix == 10 && n.neg == neg && n.p == |s| && forall c: nat :: Answers(n, c) ==> c == 0
  {
    hide Parse, Answers, NumeralOf, FreeText, Text, WellFormed;
    var n := NumeralOf(0, 1, 1, mode);
    TextLength(neg, 0, 1, 1, mode);
    LayoutIsNumeral(neg, 0, 1, 1, mode);
    StartsWithDigit(0, 1, 1, mode, o);
    ParseDecimal(neg, n, o);
    MeaningIs(neg, n);
    hide Meaning;
    forall c: nat | Answers(Meaning(neg, n), c) ensures c == 0 { ZeroAnswers(neg, mode, c); }
  }

  lemma MeaningIs(neg: bool, n: Decimal)
    ensures Meaning(neg, n).Number? && Meaning(neg, n).radix == 10 && Meaning(neg, n).neg == neg && Meaning(neg, n).p == |Text(neg, n)|
  {
  }

  lemma {:induction false} StartsFound(b: nat, mant: nat, p: nat, exp10: int, mode: ExpMode, o: Options)
    requires Found(b, mant, p, exp10)
    ensures Unprefixed(NumeralOf(mant, p, exp10, mode), o)
  {
    hide Pow, Dec, NumeralOf, Unprefixed, Reads;
    StartsWithDigit(mant, p, exp10, mode, o);
  }

  lemma {:induction false} FiniteText(neg: bool, b: nat, mode: ExpMode, d: Printed, o: Options, t: string, s: string)
    requires ForNumerals(o) && 0 < b < INF && IsText(t, b, mode, d) && s == (if neg then "-" else "") + t
    ensures |s| < 0x4000_0000
    ensures var n := Parse(s, o); n.Number? && n.radix == 10 && n.neg == neg && n.p == |s| && forall c: nat :: Answers(n, c) ==> c == b
  {
    hide Parse, Answers, NumeralOf, IntegerNumeral, FreeText, Text, WellFormed, Found, IsInteger, Dec, Places;
    match d {
      case Integer(k) =>
        var n := IntegerNumeral(k);
        IntegerText(neg, k);
        StartsWithPlace(k, o);
        ParseDecimal(neg, n, o);
        MeaningIs(neg, n);
        hide Meaning;
        forall c: nat | Answers(Meaning(neg, n), c) ensures c == b { IntegerAnswers(neg, b, k, c); }
      case Digits(mant, p, exp10) =>
        FoundBounds(b, mant, p, exp10);
        var n := NumeralOf(mant, p, exp10, mode);
        TextLength(neg, mant, p, exp10, mode);
        LayoutIsNumeral(neg, mant, p, exp10, mode);
        StartsFound(b, mant, p, exp10, mode, o);
        ParseDecimal(neg, n, o);
        MeaningIs(neg, n);
        hide Meaning;
        forall c: nat | Answers(Meaning(neg, n), c) ensures c == b { AnswersBack(neg, b, mant, p, exp10, mode, c); }
    }
  }

  lemma {:induction false} IntegerText(neg: bool, k: nat)
    requires k < P53
    ensures WellFormed(IntegerNumeral(k)) && (if neg then "-" else "") + DecNat(k) == Text(neg, IntegerNumeral(k))
    ensures |Text(neg, IntegerNumeral(k))| <= 1000
  {
    SixteenPlaces(k);
    hide Dec, Places;
    var sign, t := if neg then "-" else "", DecNat(k);
    assert sign + t + "" + "" == sign + t;
  }

  // ---- the overflow of the exponent ----

  /** An exponent one below the limit, behind nine digits, gives zero instead of infinity. */
  lemma {:induction false} OverflowExample(o: Options, b: nat)
    requires ForNumerals(o)
    ensures var n := Parse("123456789e+2147483639", o);
            && n.Number? && n.radix == 10 && (Answers(n, b) ==> b == 0)
            && !ReadsIn(0, Mant(n), 10, Exponent(n)) && ReadsIn(INF, Mant(n), 10, Exponent(n))
  {
    hide Parse, Text, ReadsIn, NatIn, Pow, LeadingZeros, DigitsOf, Answers, Kept, Mant, Exponent;
    var num := Decimal("123456789", "", false, "2147483639");
    ExampleText();
    ParseDecimal(false, num, o);
    ExampleDigits();
    ExampleExponent();
    ExampleOverflows(Meaning(false, num), b);
  }

  lemma {:induction false} ExampleOverflows(n: Parsed, b: nat)
    requires n.Number? && n.radix == 10 && n.digits == [1, 2, 3, 4, 5, 6, 7, 8, 9]
    requires n.sigPos == 0 && n.dotPos == 9 && n.exp == 2147483639
    ensures Answers(n, b) ==> b == 0
    ensures !ReadsIn(0, Mant(n), 10, Exponent(n)) && ReadsIn(INF, Mant(n), 10, Exponent(n))
  {
    hide ReadsIn, NatIn, Pow, Wrap, LastPlace, LeastPlace, Beyond, Vanishing, MaxDigits;
    NinePlaces(n);
    PlaceBounds(10);
    WrapFar(FirstPlace(n));
    TooLong(n.digits, 10, Exponent(n));
    TooSmall(n.digits, 10, Wrap(FirstPlace(n)) - Length(n));
    OnlyOne(0, INF, Mant(n), 10, Exponent(n));
    if b != 0 { OnlyOne(b, 0, Mant(n), 10, Wrap(FirstPlace(n)) - Length(n)); }
  }

  lemma NinePlaces(n: Parsed)
    requires n.Number? && n.radix == 10 && |n.digits| == 9 && n.sigPos == 0 && n.dotPos == 9 && n.exp == 2147483639
    ensures FirstPlace(n) == 2147483648 && Counted(n) == n.digits && Length(n) == 9 && PerDigit(10) == 1 && Base(10) == 10
  {
  }

  lemma ExampleText()
    ensures "123456789e+2147483639" == Text(false, Decimal("123456789", "", false, "2147483639"))
    ensures WellFormed(Decimal("123456789", "", false, "2147483639"))
  {
    assert "" + "123456789" + "" + ("e+" + "2147483639") == "123456789e+2147483639";
  }

  lemma {:induction false} ExampleDigits()
    ensures "123456789" + "" == "123456789" && LeadingZeros("123456789") == 0
    ensures DigitsOf("123456789"[0..]) == [1, 2, 3, 4, 5, 6, 7, 8, 9]
  {
    assert "123456789"[0..] == "123456789";
  }

  lemma {:induction false} ExampleExponent()
    ensures NatIn(DigitsOf("2147483639"), 10) == 2147483639
  {
    var ds := [2, 1, 4, 7, 4, 8, 3, 6, 3, 9];
    assert DigitsOf("2147483639") == ds;
    ExampleNat(ds);
  }

  lemma {:induction false} ExampleNat(ds: seq<nat>)
    requires ds == [2, 1, 4, 7, 4, 8, 3, 6, 3, 9]
    ensures NatIn(ds, 10) == 2147483639
  {
    hide NatIn;
    NatNone(10);
    NatTakes(ds, 1);
    NatTakes(ds, 2);
    NatTakes(ds, 3);
    NatTakes(ds, 4);
    NatTakes(ds, 5);
    NatTakes(ds, 6);
    NatTakes(ds, 7);
    NatTakes(ds, 8);
    NatTakes(ds, 9);
    NatTakes(ds, 10);
    assert ds[..0] == [] && ds[..10] == ds;
  }

  lemma {:induction false} NatTakes(ds: seq<nat>, k: nat)
    requires 1 <= k <= |ds|
    ensures NatIn(ds[..k], 10) == NatIn(ds[..k - 1], 10) * 10 + ds[k - 1]
  {
    assert ds[..k] == ds[..k - 1] + [ds[k - 1]];
    NatSnoc(ds[..k - 1], ds[k - 1], 10);
  }
}
