/** Printing a number (js_dtoa in the free format, radix 10). */
module DtDtoa {
  import opened DtArith
  import opened DtLimb
  import opened DtBig
  import opened DtPow
  import opened DtScale
  import opened DtDouble
  import opened DtDecimal
  import opened DtSearch
  import opened DtText
  import opened DtPrint
  import opened DtAtod

  datatype ExpMode = Auto | Enabled | Disabled

  function Zeros(n: nat): (s: string)
    ensures |s| == n && forall i :: 0 <= i < n ==> s[i] == '0'
  {
    if n == 0 then "" else Zeros(n - 1) + "0"
  }

  predicate Exponential(exp10: int, mode: ExpMode) {
    mode == Enabled || (mode == Auto && (exp10 <= -6 || exp10 > P_MAX + 4))
  }

  function ExponentText(e: int): string { (if e < 0 then "e-" else "e+") + DecNat(Abs(e)) }

  /** The text for `mant * 10^(exp10 - p)` with the `p` digits of `mant`. */
  function FreeText(mant: nat, p: nat, exp10: int, mode: ExpMode): string
    requires p >= 1
  {
    var digits := Dec(mant, p);
    if Exponential(exp10, mode) then InsertDot(digits, 1) + ExponentText(exp10 - 1)
    else if exp10 <= 0 then "0." + Zeros(-exp10) + digits
    else if exp10 < p then InsertDot(digits, exp10)
    else digits + Zeros(exp10 - p)
  }

  /** Leading zero bits of a nonzero 64-bit word. */
  function Clz64(v: nat): nat
    requires 0 < v < U64
  {
    if v >= B then Clz32(v / B) else 32 + Clz32(v)
  }

  lemma {:induction false} Clz64Normal(v: nat)
    requires 0 < v < U64
    ensures U64 / 2 <= v * Pow(2, Clz64(v)) < U64
  {
    hide Pow, Clz32;
    if v >= B {
      Halves(Clz32(v / B));
      TwoWords(v, v / B, v % B, Pow(2, Clz32(v / B)));
    } else {
      var z := Clz32(v);
      PowAdd(2, 32, z);
      TwoTo32();
      Assoc(v, B, Pow(2, z));
      Assoc(B, v, Pow(2, z));
      assert v * B == B * v;
    }
  }

  /** Shifting the high word until its highest bit is set leaves room for the low word. */
  lemma TwoWords(v: nat, h: nat, l: nat, p: nat)
    requires v == h * B + l && l < B && p > 0 && Normal(h * p)
    requires exists g: nat :: p * g == B
    ensures U64 / 2 <= v * p < U64
  {
    var g: nat :| p * g == B;
    assert v * p == h * p * B + l * p by { Assoc(h, B, p); Assoc(h, p, B); assert B * p == p * B; }
    MulMono(0, l, p);
    MulStrict(l, B, p);
    // h * p is a multiple of p below B = g * p, so (h + 1) * p <= B
    assert g * p == p * g;
    MulCancelStrict(h, g, p);
    MulMono(h + 1, g, p);
    assert (h + 1) * p == h * p + p;
  }

  /** Splitting the bits of a nonzero finite number into a normalized mantissa and an exponent. */
  method Unpack(b: nat) returns (m: nat, e: int)
    requires 0 < b < INF
    ensures NormalForm(m, e) && Canonical(m, e) && b == BitsOf(m, e) && SameValue(V(b), m, e)
  {
    e, m := b / P52, b % P52;
    if e == 0 {
      var l := Clz64(m) - 11;
      ClzMantissa(m);
      e := e - (l - 1);
      m := m * Pow(2, l);
      e := e - 1022;
      SubnormalForm(b, m, l);
    } else {
      m := m + P52;
      e := e - 1022;
      NormalUnpacked(b, m, e);
    }
  }

  lemma {:induction false} ClzMantissa(b: nat)
    requires 0 < b < P52
    ensures var l := Clz64(b) - 11; 1 <= l <= 52 && P52 <= b * Pow(2, l) < P53
  {
    var z := Clz64(b);
    Clz64Normal(b);
    Powers52();
    PowAdd(2, 11, 53);
    PowAdd(2, 52, 12);
    assert Pow(2, 11) == 2048;
    hide Pow, Clz64;
    MulStrict(b, P52, Pow(2, 11));
    if z <= 11 {
      PowMono(2, z, 11);
      MulMono(Pow(2, z), Pow(2, 11), b);
    }
    PowAdd(2, z - 11, 11);
    Assoc(b, Pow(2, z - 11), Pow(2, 11));
    MulCancel(P52, b * Pow(2, z - 11), 2048);
    MulMono(1, b, Pow(2, z - 11));
    if z - 11 > 52 { PowMono(2, 53, z - 11); }
  }

  lemma {:induction false} SubnormalForm(b: nat, m: nat, l: nat)
    requires 0 < b < P52 && m == b * Pow(2, l) && P52 <= m < P53 && l <= 52
    ensures l >= 1
    ensures NormalForm(m, -1021 - l) && Canonical(m, -1021 - l) && b == BitsOf(m, -1021 - l) && SameValue(V(b), m, -1021 - l)
  {
    PowOne(2);
    VSmall(b);
    var e := -1021 - l;
    assert l >= 1;
    DivUnique(m, Pow(2, l), b, 0);
    hide Pow;
    PowAdd(2, l, 1074);
    assert 53 - e == l + 1074;
    Assoc(b, Pow(2, l), Pow(2, 1074));
  }

  lemma {:induction false} NormalUnpacked(b: nat, m: nat, e: int)
    requires P52 <= b < INF && m == b % P52 + P52 && e == b / P52 - 1022
    ensures NormalForm(m, e) && Canonical(m, e) && b == BitsOf(m, e) && SameValue(V(b), m, e)
  {
    var k := b / P52 - 1;
    assert m % P52 == b % P52;
    assert V(b) == m * Pow(2, k);
    hide Pow, V;
    PowAdd(2, k, Pos(53 - e));
    assert k + Pos(53 - e) == Pos(e - 53) + 1074;
    Assoc(m, Pow(2, k), Pow(2, Pos(53 - e)));
  }

  // ---- integers ----

  /** The number with bits `b` is the integer `k`. */
  ghost predicate IsInteger(b: nat, k: nat) { b <= INF && V(b) == k * Pow(2, 1074) }

  /** The shortcut for integers below 2^53: the low bits of the mantissa are zero. */
  lemma {:induction false} IntegerForm(b: nat, m: nat, e: int)
    requires 0 < b < INF && NormalForm(m, e) && SameValue(V(b), m, e) && 1 <= e <= 53 && m % Pow(2, 53 - e) == 0
    ensures 0 < m / Pow(2, 53 - e) < P53 && IsInteger(b, m / Pow(2, 53 - e))
  {
    var p := Pow(2, 53 - e);
    PowOne(2);
    hide V;
    assert m == m / p * p by { hide Pow; DivMod(m, p); }
    var k, t := m / p, Pow(2, 1074);
    hide Pow;
    assert V(b) * p == m * t;
    Assoc(k, p, t);
    Assoc(k, t, p);
    assert p * t == t * p;
    assert V(b) * p == k * t * p;
    MulCancel(V(b), k * t, p);
    MulCancel(k * t, V(b), p);
    MulMono(1, p, k);
    assert 0 * p == 0;
  }

  /** What js_dtoa has printed: an integer, or the digits found by the search. */
  datatype Printed = Integer(k: nat) | Digits(mant: nat, p: nat, exp10: int)

  ghost predicate IsText(s: string, b: nat, mode: ExpMode, d: Printed) {
    match d
    case Integer(k) => 0 < k < P53 && IsInteger(b, k) && s == DecNat(k)
    case Digits(mant, p, exp10) =>
      Found(b, mant, p, exp10) && -340 <= exp10 <= 310 && s == FreeText(mant, p, exp10, mode)
  }

  method PutExponent(e: int) returns (s: string)
    requires -400 <= e <= 400
    ensures s == ExponentText(e)
  {
    hide DecNat;
    var t := U32ToA(Abs(e));
    s := (if e < 0 then "e-" else "e+") + t;
  }

  method PutZeros(n: nat) returns (s: string)
    ensures s == Zeros(n)
  {
    s := "";
    for i := 0 to n
      invariant s == Zeros(i)
    {
      s := s + "0";
    }
  }

  /** The end of js_dtoa: the three layouts. */
  method Layout(tmp: Mpb, p: nat, exp10: int, mode: ExpMode) returns (s: string)
    requires tmp.Valid() && 1 <= p && -340 <= exp10 <= 310
    modifies tmp, tmp.tab
    ensures s == FreeText(old(tmp.Value()), p, exp10, mode)
  {
    hide Dec, Val, Zeros, ExponentText;
    var t;
    if Exponential(exp10, mode) {
      s := OutputDigits(tmp, p, 1);
      t := PutExponent(exp10 - 1);
      s := s + t;
    } else if exp10 <= 0 {
      s := PutZeros(-exp10);
      t := OutputDigits(tmp, p, p);
      s := "0." + s + t;
    } else {
      s := OutputDigits(tmp, p, if p < exp10 then p else exp10);
      if exp10 >= p {
        t := PutZeros(exp10 - p);
        s := s + t;
      }
    }
  }

  /** js_dtoa for the free format in radix 10. */
  method JsDtoa(d: Double, mode: ExpMode, minusZero: bool) returns (s: string, ghost printed: Printed)
    requires d.Bits? ==> d.b <= INF
    ensures d.Nan? ==> s == "NaN"
    ensures d.Bits? && d.b == INF ==> s == (if d.neg then "-" else "") + "Infinity"
    ensures d.Bits? && d.b == 0 ==> s == (if d.neg && minusZero then "-" else "") + FreeText(0, 1, 1, mode)
    ensures d.Bits? && 0 < d.b < INF ==>
              exists t :: s == (if d.neg then "-" else "") + t && IsText(t, d.b, mode, printed)
  {
    printed := Integer(0);
    hide FreeText, IsText, Found, Dec, Pow, SameValue, V, BitsOf, Val, FirstExponent;
    if d.Nan? {
      return "NaN", printed;
    }
    var b := d.b;
    if b == INF {
      return (if d.neg then "-" else "") + "Infinity", printed;
    }
    var tmp := new Mpb(CAPACITY);
    if b == 0 {
      var t := Layout(tmp, 1, 1, mode);
      return (if d.neg && minusZero then "-" else "") + t, printed;
    }
    var t;
    t, printed := JsDtoaFinite(tmp, b, mode);
    s := (if d.neg then "-" else "") + t;
  }

  /** The text of a nonzero finite number, without its sign. */
  method JsDtoaFinite(tmp: Mpb, b: nat, mode: ExpMode) returns (s: string, ghost printed: Printed)
    requires tmp.Valid() && tmp.tab.Length == CAPACITY && 0 < b < INF
    modifies tmp, tmp.tab
    ensures IsText(s, b, mode, printed)
  {
    hide FreeText, Found, Dec, Pow, SameValue, V, BitsOf, Val, FirstExponent, IsInteger;
    var m, e := Unpack(b);
    if 1 <= e <= 53 && m % Pow(2, 53 - e) == 0 && mode != Enabled {
      IntegerForm(b, m, e);
      var k := m / Pow(2, 53 - e);
      s := U64ToA(k);
      printed := Integer(k);
    } else {
      var mant, p, exp10 := FreeDigits(tmp, m, e, b);
      FoundBounds(b, mant, p, exp10);
      ExponentRange(e, exp10, 1);
      LargeEnoughExponent(e, exp10);
      tmp.SetU64(mant);
      s := Layout(tmp, p, exp10, mode);
      printed := Digits(mant, p, exp10);
    }
  }

  lemma {:induction false} FoundBounds(b: nat, mant: nat, p: nat, exp10: int)
    requires Found(b, mant, p, exp10)
    ensures 1 <= p <= P_MAX && 0 < mant < U64
  {
    hide Pow, Reads;
    TenFits(p);
  }

  lemma LargeEnoughExponent(e: int, exp10: int)
    requires -1073 <= e <= 1024 && FirstExponent(e) <= exp10 <= FirstExponent(e) + 1
    ensures -340 <= exp10 <= 310
  {
    FirstExponentBounds(e);
  }
}
