/** What js_dtoa prints, against the text that ECMAScript prescribes for a number. */
module DtEcma {
  import opened DtArith
  import opened DtLimb
  import opened DtScale
  import opened DtDouble
  import opened DtDecimal
  import opened DtSearch
  import opened DtShortest
  import opened DtText
  import opened DtPrint
  import opened DtDtoa
  import opened DtRoundTrip

  /** Number::toString (section 6.1.6.1.20 of ECMA-262), for the `k` digits `t` of a number `s * 10^(n - k)`. */
  function NumberToString(t: string, n: int): string
    requires t != ""
  {
    var k := |t|;
    if k <= n <= 21 then t + Zeros(n - k)
    else if 0 < n <= 21 then t[..n] + "." + t[n..]
    else if -6 < n <= 0 then "0." + Zeros(-n) + t
    else
      var e := n - 1;
      (if k == 1 then t else t[..1] + "." + t[1..]) + (if e < 0 then "e-" else "e+") + DecNat(Abs(e))
  }

  lemma {:induction false} LayoutIs(mant: nat, p: nat, exp10: int)
    requires 1 <= p <= P_MAX
    ensures FreeText(mant, p, exp10, Auto) == NumberToString(Dec(mant, p), exp10)
  {
    var t := Dec(mant, p);
    hide Dec, Zeros, DecNat;
    if exp10 <= -6 || exp10 > 21 {
      DotInside(t, 1);
      if p == 1 { assert t[..1] == t && t[1..] == ""; }
    } else if 0 < exp10 < p {
      DotInside(t, exp10);
    }
  }

  // ---- integers ----

  /** Without its trailing zeros. */
  lemma {:induction false} WithoutZeros(v: nat, p: nat) returns (s: nat, k: nat)
    requires p >= 1 && Pow(10, p - 1) <= v < Pow(10, p)
    ensures 1 <= k <= p && Pow(10, k - 1) <= s < Pow(10, k) && s % 10 != 0 && v == s * Pow(10, p - k)
    ensures Dec(v, p) == Dec(s, k) + Zeros(p - k)
    decreases p
  {
    PowOne(10);
    if v % 10 != 0 {
      s, k := v, p;
      assert Dec(v, p) + "" == Dec(v, p);
    } else {
      PowStep(10, p - 1);
      if p >= 2 { PowStep(10, p - 2); }
      s, k := WithoutZeros(v / 10, p - 1);
      ZeroBehind(v, p, s, k);
    }
  }

  lemma {:induction false} ZeroBehind(v: nat, p: nat, s: nat, k: nat)
    requires p >= 1 && v % 10 == 0 && k <= p - 1 && v / 10 == s * Pow(10, p - 1 - k) && Dec(v / 10, p - 1) == Dec(s, k) + Zeros(p - 1 - k)
    ensures v == s * Pow(10, p - k) && Dec(v, p) == Dec(s, k) + Zeros(p - k)
  {
    PowStep(10, p - 1 - k);
    Assoc(s, Pow(10, p - 1 - k), 10);
    hide Pow;
    assert DigitChar(0) == '0';
    assert Dec(v, p) == Dec(v / 10, p - 1) + "0";
    assert Zeros(p - k) == Zeros(p - 1 - k) + "0";
  }

  /** The numbers next to an integer below 2^53 are at most one away. */
  lemma {:induction false} SmallGap(b: nat, k: nat)
    requires 0 < b < INF && IsInteger(b, k) && 0 < k < P53
    ensures V(b + 1) - V(b) <= Pow(2, 1074) && V(b) - V(b - 1) <= Pow(2, 1074)
  {
    Gaps(b);
    Powers52();
    PowStrict(2, 53, 1074);
    hide Pow, V, Lopsided;
    MulMono(1, k, Pow(2, 1074));
    if b < P53 {
      VSmall(b);
    } else {
      UpperGap(b, k);
    }
  }

  lemma {:induction false} UpperGap(b: nat, k: nat)
    requires P53 <= b < INF && IsInteger(b, k) && k < P53
    ensures V(b + 1) - V(b) <= Pow(2, 1074)
  {
    var q, e := Binade(b);
    VBinade(q, e);
    VBinade(q + 1, e);
    hide V, Pow, Lopsided;
    NextMultiple(q, Pow(2, e));
    BelowP53(q, e, k);
  }

  lemma {:induction false} BelowP53(q: nat, e: nat, k: nat)
    requires P52 <= q && q * Pow(2, e) == k * Pow(2, 1074) && k < P53
    ensures Pow(2, e) <= Pow(2, 1074)
  {
    if e > 1074 {
      PowMono(2, 1075, e);
      PowStep(2, 1074);
      hide Pow;
      MulMono(P52, q, Pow(2, e));
      MulStrict(k, P53, Pow(2, 1074));
    } else {
      PowMono(2, e, 1074);
    }
  }

  /** Whatever is read as an integer below 2^53 has at least its digits. */
  lemma {:induction false} IntegerShort(b: nat, k: nat, a: nat, g: int)
    requires 0 < b < INF && IsInteger(b, k) && 0 < k < P53 && Reads(b, a, g)
    ensures a >= k || (g > 0 && k == a * Pow(10, g))
  {
    ReadsIff(b, a, g);
    SmallGap(b, k);
    if g >= 0 { UnitPositive(g); } else { UnitNegative(-g); }
    hide V, Reads, Unit, Den, Pow;
    if g >= 0 {
      IntegerAtUnit(b, k, Mul(a, Unit(g)), a * Pow(10, g), Pow(2, 1074), a, Pow(10, g));
      if g == 0 { PowOne(10); }
    } else {
      PowMono(10, 1, -g);
      PowOne(10);
      IntegerBelowUnit(b, k, Mul(a, Unit(g)), Pow(10, -g), Pow(2, 1074), a);
    }
  }

  lemma {:induction false} UnitPositive(f: int)
    requires f >= 0
    ensures Unit(f) == Pow(10, f) * Pow(2, 1074) && Den(0, 10, f) == 1
  {
    PowOne(2);
    PowOne(10);
    hide Pow;
  }

  lemma {:induction false} IntegerAtUnit(b: nat, k: nat, x: nat, j: nat, t: nat, a: nat, p: nat)
    requires 0 < b < INF && Inside(b, x, 1) && V(b) == k * t && V(b + 1) - V(b) <= t && V(b) - V(b - 1) <= t && t > 0
    requires x == Mul(a, p * t) && j == a * p
    ensures j == k
  {
    hide V;
    Assoc(a, p, t);
    if j > k { MulMono(k + 1, j, t); NextMultiple(k, t); }
    if j < k { MulMono(j + 1, k, t); NextMultiple(j, t); }
  }

  lemma {:induction false} IntegerBelowUnit(b: nat, k: nat, x: nat, d: nat, t: nat, a: nat)
    requires 0 < b < INF && Inside(b, x, d) && V(b) == k * t && V(b + 1) - V(b) <= t && V(b) - V(b - 1) <= t && t > 0
    requires x == Mul(a, t) && d >= 10 && k > 0
    ensures a >= k
  {
    Gaps(b);
    hide V, Lopsided;
    if a < k {
      var low := V(b) - V(b - 1);
      MulStrict(a, k, t);
      MulMono(1, d, k * t);
      MulMono(low, t, d);
      // 2 * (k * t * d - a * t) > t * d
      FarBelow(a, k, t, d);
    }
  }

  lemma FarBelow(a: nat, k: nat, t: nat, d: nat)
    requires a < k && t > 0 && d >= 10
    ensures 2 * (k * t * d - a * t) > t * d
  {
    var x := t * d;
    Swap(k, t, d);
    Assoc(k, t, d);
    MulMono(a, k - 1, t);
    MulMono(1, k, x);
    MulMono(10, d, t);
    MulMono(10 * t, x, k);
    Assoc(k, 10, t);
  }

  /** The digits of an integer without its trailing zeros are the fewest. */
  lemma {:induction false} IntegerShortest(b: nat, v: nat, s: nat, k: nat, j: nat)
    requires 0 < b < INF && IsInteger(b, v) && 0 < v < P53
    requires k >= 1 && Pow(10, k - 1) <= s && s % 10 != 0 && v == s * Pow(10, j)
    ensures Shortest(b, k) && Reads(b, s, j)
  {
    IntegerReads(b, v);
    PaddedCross(s, j, j);
    hide Pow, IsInteger, NearestTo, Num, Den;
    assert v == Mul(s, Pow(10, j));
    NearestSame(b, Num(v, 0, 10, 0), Den(0, 10, 0), Num(s, 0, 10, j), Den(0, 10, j));
    forall a: nat, g: int | a < Pow(10, k - 1) ensures !Reads(b, a, g) {
      if Reads(b, a, g) {
        IntegerShort(b, v, a, g);
        FewestDigits(v, s, j, a, g);
      }
    }
  }

  lemma {:induction false} FewestDigits(v: nat, s: nat, j: nat, a: nat, g: int)
    requires v == s * Pow(10, j) && s % 10 != 0 && (a >= v || (g > 0 && v == a * Pow(10, g)))
    ensures a >= s
  {
    hide Pow;
    if a >= v {
      MulMono(1, Pow(10, j), s);
    } else if g <= j {
      PowAdd(10, j - g, g);
      MoreDigits(a, s, Pow(10, j - g), Pow(10, g));
    } else {
      PowAdd(10, g - j, j);
      PowStep(10, g - j - 1);
      MoreZeros(a, s, Pow(10, g - j - 1), Pow(10, j));
    }
  }

  lemma MoreDigits(a: nat, s: nat, p: nat, q: nat)
    requires p > 0 && q > 0 && a * q == s * (p * q)
    ensures a >= s
  {
    Assoc(s, p, q);
    MulCancel(s * p, a, q);
    MulMono(1, p, s);
  }

  lemma MoreZeros(a: nat, s: nat, p: nat, q: nat)
    requires q > 0 && s * q == a * (10 * p * q)
    ensures s % 10 == 0
  {
    Assoc(a, 10 * p, q);
    MulCancel(s, a * (10 * p), q);
    MulCancel(a * (10 * p), s, q);
    Times10(a, p);
  }

  /** What js_dtoa prints in the automatic layout is what ECMAScript prescribes: the digits stand for a decimal that is read as
      the number, none of them is a trailing zero, and there are no fewer, unless the search passes over a shorter decimal. */
  lemma {:induction false} AutoText(t: string, b: nat, d: Printed) returns (s: nat, k: nat, n: int)
    requires 0 < b < INF && IsText(t, b, Auto, d)
    ensures k >= 1 && Pow(10, k - 1) <= s < Pow(10, k) && s % 10 != 0 && Reads(b, s, n - k)
    ensures t == NumberToString(Dec(s, k), n)
    ensures d.Digits? ==> (Shortest(b, k) <==> !SkipsSome(b))
    ensures d.Integer? ==> Shortest(b, k)
  {
    hide Pow, Dec, Reads, RoundedTo, NumberToString, FreeText, IsInteger, Places, Shortest, SkipsSome;
    match d {
      case Integer(v) =>
        n := Places(v);
        HasPlaces(v);
        SixteenPlaces(v);
        s, k := WithoutZeros(v, n);
        IntegerShortest(b, v, s, k, n - k);
        PaddedText(Dec(s, k), n);
      case Digits(mant, p, exp10) =>
        s, k, n := mant, p, exp10;
        RoundedBounds(b, p, mant, exp10 - p);
        LayoutIs(mant, p, exp10);
        ShortestIff(b, mant, p, exp10);
    }
  }

  lemma PaddedText(t: string, n: nat)
    requires 1 <= |t| <= n <= 21
    ensures t + Zeros(n - |t|) == NumberToString(t, n)
  {
  }
}
