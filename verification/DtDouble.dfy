/** Non-negative binary64 numbers by their bits, and rounding to the nearest one. */
module DtDouble {
  import opened DtArith
  import opened DtLimb
  import opened DtBig
  import opened DtPow
  import opened DtScale

  const P52 := 0x10_0000_0000_0000
  const P53 := 0x20_0000_0000_0000
  const INF := 0x7ff0_0000_0000_0000

  /** The number with bits `b`, in units of 2^-1074. Infinity stands where the next number would be. */
  function V(b: nat): nat
    requires b <= INF
  {
    if b < P52 then b else (P52 + b % P52) * Pow(2, b / P52 - 1)
  }

  /** The fraction `n / d` in the same unit, times `d`. */
  function Units(n: nat): nat { Mul(n, Pow(2, 1074)) }

  /** Round to nearest, ties to even (section 4.3.1 of IEEE 754-2019): no other number is nearer to `n / d`, and when one
      is as near, `b` is the even one. */
  ghost predicate NearestTo(b: nat, n: nat, d: nat) {
    b <= INF && forall c: nat :: c <= INF ==> NoNearer(b, c, Units(n), d)
  }

  ghost predicate NoNearer(b: nat, c: nat, x: nat, d: nat)
    requires b <= INF && c <= INF
  {
    && Distance(x, V(b) * d) <= Distance(x, V(c) * d)
    && (c != b && Distance(x, V(b) * d) == Distance(x, V(c) * d) ==> b % 2 == 0)
  }

  /** `b` is the number nearest to `mant * base^f`. */
  ghost predicate ReadsIn(b: nat, mant: nat, base: nat, f: int)
    requires base > 0
  {
    NearestTo(b, Num(mant, 0, base, f), Den(0, base, f))
  }

  /** Assembling mantissa and exponent, at the end of js_atod; the value is `m * 2^(e - 53)`. */
  function BitsOf(m: nat, e: int): nat {
    if m == 0 then 0
    else if e > 1024 then INF
    else if e < -1073 then 0
    else if e < -1021 then m / Pow(2, -e - 1021)
    else (e + 1022) * P52 + m % P52
  }

  /** The mantissa has its highest bit set, and no more bits than the number keeps. */
  predicate Canonical(m: nat, e: int) { m == 0 || (P52 <= m < P53 && (-1073 <= e < -1021 ==> m % Pow(2, -e - 1021) == 0)) }

  /** The precision of a number below `2^e`: fewer bits for subnormal ones. */
  function Precision(e: int): int { if e < -1021 then 53 - (-1021 - e) else 53 }

  /** The bits of the multiple `q` of the unit that numbers below `2^e` have. */
  function RoundBits(q: nat, e: int): nat {
    if e > 1024 then INF else if e < -1021 then q else q + (e + 1021) * P52
  }

  // ---- the numbers with a common unit ----

  lemma {:induction false} VSmall(b: nat)
    requires b <= P53
    ensures V(b) == b
  {
    PowOne(2);
    if b == P53 {
      assert b / P52 == 2 && b % P52 == 0;
    } else if b >= P52 {
      assert b / P52 == 1 && b % P52 == b - P52;
    }
  }

  lemma {:induction false} VBinade(q: nat, k: nat)
    requires P52 <= q <= P53 && q + k * P52 <= INF
    ensures V(q + k * P52) == q * Pow(2, k)
  {
    var b := q + k * P52;
    if q == P53 {
      assert b / P52 == k + 2 && b % P52 == 0;
      PowStep(2, k);
    } else {
      assert b / P52 == k + 1 && b % P52 == q - P52;
    }
  }

  /** Above, the numbers are multiples of the unit; below, they are all smaller. */
  lemma {:induction false} VMultiple(c: nat, k: nat) returns (j: nat)
    requires c <= INF
    ensures c / P52 >= k + 1 || k == 0 ==> V(c) == j * Pow(2, k)
    ensures c / P52 <= k ==> V(c) < P52 * Pow(2, k)
  {
    var e := c / P52;
    PowOne(2);
    j := 0;
    if k == 0 {
      j := V(c);
      if e <= k { VSmall(c); }
    } else if e >= k + 1 {
      PowAdd(2, k, e - 1 - k);
      var x, y := Pow(2, k), Pow(2, e - 1 - k);
      j := (P52 + c % P52) * y;
      Assoc(P52 + c % P52, y, x);
      assert x * y == y * x;
    } else {
      PowMono(2, e, k);
      if e > 0 {
        PowStep(2, e - 1);
        MulStrict(P52 + c % P52, 2 * P52, Pow(2, e - 1));
        MulMono(Pow(2, e), Pow(2, k), P52);
      } else {
        MulMono(1, Pow(2, k), P52);
      }
    }
  }

  /** A number that lies below the whole binade is farther than the binade's least one. */
  lemma BelowIsFarther(x: int, least: int, v: int, d: int)
    requires least * d <= x && v < least && d > 0
    ensures Distance(x, least * d) < Distance(x, v * d)
  {
    MulStrict(v, least, d);
  }

  /** Rounding to a multiple of the unit is rounding to the nearest number. `x / d` is the number in units of 2^-1074,
      `2^k` the unit. */
  lemma {:induction false} UnitNearest(x: nat, d: nat, k: nat, q: nat, c: nat)
    requires d > 0 && c <= INF && Mul(d, Pow(2, k)) > 0 && q == RoundDiv(x, Mul(d, Pow(2, k)), Nearest)
    requires q <= P53 && q + k * P52 <= INF && (k == 0 || (P52 <= q && P52 * Pow(2, k) * d <= x))
    ensures NoNearer(q + k * P52, c, x, d)
  {
    hide Pow, V, RoundDiv, Mul;
    var u, b := Pow(2, k), q + k * P52;
    UnitNumber(q, k);
    UnitDistance(q, u, d);
    var j := VMultiple(c, k);
    if c / P52 >= k + 1 || k == 0 {
      UnitDistance(j, u, d);
      RoundDivNearest(x, Mul(d, u), Nearest, j);
      if c != b && j == q { VInjective(b, c); }
    } else {
      UnitDistance(P52, u, d);
      RoundDivNearest(x, Mul(d, u), Nearest, P52);
      BelowIsFarther(x, P52 * u, V(c), d);
    }
  }

  /** The bits of a multiple of the unit, and their parity. */
  lemma {:induction false} UnitNumber(q: nat, k: nat)
    requires q <= P53 && q + k * P52 <= INF && (k == 0 || P52 <= q)
    ensures V(q + k * P52) == q * Pow(2, k) && (q + k * P52) % 2 == q % 2
  {
    if k == 0 {
      VSmall(q);
      PowOne(2);
    } else {
      VBinade(q, k);
    }
    assert q + k * P52 == q + 2 * (k * (P52 / 2));
  }

  lemma {:induction false} UnitDistance(j: nat, u: nat, d: nat)
    ensures j * Mul(d, u) == j * u * d
  {
    Assoc(j, u, d);
  }

  lemma {:induction false} VInjective(b: nat, c: nat)
    requires b <= INF && c <= INF && V(b) == V(c)
    ensures b == c
  {
    if b < c { VIncreases(b, c); } else if c < b { VIncreases(c, b); }
  }

  lemma {:induction false} VIncreases(b: nat, c: nat)
    requires b < c <= INF
    ensures V(b) < V(c)
  {
    var e, f := b / P52, c / P52;
    if c < P52 {
    } else if e == f {
      MulStrict(P52 + b % P52, P52 + c % P52, Pow(2, e - 1));
    } else {
      var j := VMultiple(b, e);
      PowMono(2, e, f - 1);
      MulMono(Pow(2, e), Pow(2, f - 1), P52);
      MulMono(P52, P52 + c % P52, Pow(2, f - 1));
    }
  }

  /** At or beyond the end of the range infinity is nearest. */
  lemma {:induction false} Overflows(x: nat, d: nat, c: nat)
    requires d > 0 && c <= INF && V(INF) * d <= x
    ensures NoNearer(INF, c, x, d)
  {
    if c < INF {
      VIncreases(c, INF);
      hide V;
      BelowIsFarther(x, V(INF), V(c), d);
    }
  }

  // ---- round_to_d ----

  /** `w / 2^eOffset` lies between `2^(e-1)` and `2^e`. */
  ghost predicate IsExponent(w: nat, eOffset: int, e: int) {
    e + eOffset >= 1 && Pow(2, e + eOffset - 1) <= w < Pow(2, e + eOffset)
  }

  lemma {:induction false} ExponentUnique(w: nat, a: nat, b: nat)
    requires Pow(2, a) <= w < Pow(2, a + 1) && Pow(2, b) <= w < Pow(2, b + 1)
    ensures a == b
  {
    hide Pow;
    if a < b { PowMono(2, a + 1, b); } else if b < a { PowMono(2, b + 1, a); }
  }

  /** Rounding keeps a number within its binade. */
  lemma {:induction false} ShiftBounds(w: nat, p: int, shift: int, mode: Mode)
    requires p + shift >= 1 && Pow(2, p + shift - 1) <= w < Pow(2, p + shift)
    ensures p >= 1 ==> Pow(2, p - 1) <= RoundShift(w, shift, mode) <= Pow(2, p)
    ensures p == 0 ==> RoundShift(w, shift, mode) <= 1
    ensures p < 0 ==> RoundShift(w, shift, mode) == 0
  {
    if shift <= 0 {
      PowAdd(2, p + shift - 1, -shift);
      PowAdd(2, p + shift, -shift);
      hide Pow;
      MulMono(Pow(2, p + shift - 1), w, Pow(2, -shift));
      MulMono(w, Pow(2, p + shift), Pow(2, -shift));
    } else {
      var s := Pow(2, shift);
      DivMod(w, s);
      var q := w / s;
      if p >= 1 {
        PowAdd(2, p - 1, shift);
        PowAdd(2, p, shift);
        hide Pow;
        assert (q + 1) * s == q * s + s;
        MulCancelStrict(Pow(2, p - 1), q + 1, s);
        MulCancelStrict(q, Pow(2, p), s);
      } else {
        PowMono(2, p + shift, shift);
        if p < 0 { PowStrict(2, p + shift, shift); }
        hide Pow;
        DivUnique(w, s, 0, w);
      }
    }
  }

  lemma {:induction false} Powers52()
    ensures Pow(2, 52) == P52 && Pow(2, 53) == P53 && Pow(2, 64) == U64
  {
    hide Pow;
    TwoTo32();
    SmallPowers();
    PowAdd(2, 32, 20);
    PowAdd(2, 52, 1);
    PowAdd(2, 32, 32);
  }

  /** The bits tell mantissa and exponent. */
  lemma {:induction false} BitsOnce(m: nat, e: int, m': nat, e': int)
    requires Canonical(m, e) && Canonical(m', e') && BitsOf(m, e) == BitsOf(m', e') && 0 < BitsOf(m, e) < INF
    ensures m == m' && e == e'
  {
    BitsRange(m, e);
    BitsRange(m', e');
    if e < -1021 {
      var q, k, k' := BitsOf(m, e), -e - 1021, -e' - 1021;
      hide BitsOf;
      SameLength(q, k, k', m, m');
    } else {
      var r, r' := m - P52, m' - P52;
      assert m % P52 == r && m' % P52 == r';
    }
  }

  lemma {:induction false} BitsRange(m: nat, e: int)
    requires Canonical(m, e) && 0 < BitsOf(m, e) < INF
    ensures P52 <= m < P53 && -1073 <= e <= 1024
    ensures e < -1021 ==> BitsOf(m, e) < P52 && m == BitsOf(m, e) * Pow(2, -e - 1021)
    ensures e >= -1021 ==> BitsOf(m, e) >= P52
  {
    if e < -1021 {
      var k := -e - 1021;
      DivMod(m, Pow(2, k));
      PowStep(2, k - 1);
      hide Pow;
      MulMono(2, Pow(2, k), BitsOf(m, e));
    }
  }

  lemma {:induction false} SameLength(q: nat, k: nat, k': nat, m: nat, m': nat)
    requires m == q * Pow(2, k) && m' == q * Pow(2, k') && P52 <= m < P53 && P52 <= m' < P53
    ensures k == k'
  {
    if k < k' { TwiceAsLong(q, k, k'); } else if k' < k { TwiceAsLong(q, k', k); }
  }

  lemma {:induction false} TwiceAsLong(q: nat, k: nat, k': nat)
    requires k < k'
    ensures q * Pow(2, k') >= 2 * (q * Pow(2, k))
  {
    PowMono(2, k + 1, k');
    PowStep(2, k);
    hide Pow;
    MulMono(Pow(2, k + 1), Pow(2, k'), q);
    Assoc(q, Pow(2, k), 2);
  }

  /** round_to_d: mantissa and exponent of the rounded value. `el` is the exponent of the value. */
  method RoundToD(a: Mpb, eOffset: int, mode: Mode, ghost el: int) returns (m: nat, e: int)
    requires a.Valid() && a.Normalized() && a.tab.Length >= 6
    requires a.Value() > 0 ==> IsExponent(a.Value(), eOffset, el)
    modifies a, a.tab
    ensures a.Valid()
    ensures old(a.Value()) == 0 ==> m == 0
    ensures old(a.Value()) > 0 ==> BitsOf(m, e) == RoundBits(RoundShift(old(a.Value()), el + eOffset - Precision(el), mode), el)
    ensures Canonical(m, e)
  {
    hide Pow, Val, RoundShift, BitsOf, RoundBits;
    ghost var w := a.Value();
    var fl := a.FloorLog2();
    if fl == -1 {
      return 0, 0;
    }
    ExponentUnique(w, fl, el + eOffset - 1);
    e := fl + 1 - eOffset;
    var prec1, eMin := 53, -1021;
    var prec := if e < eMin then prec1 - (eMin - e) else prec1;
    ShiftBounds(w, prec, e + eOffset - prec, mode);
    Powers52();
    FewLimbs(a.tab[..a.len], fl);
    a.ShrRound(e + eOffset - prec, mode);
    ghost var q := a.Value();
    PrecisionBound(q, prec);
    TwoLimbs(a.tab[..a.len], q);
    m := a.GetU64();
    Assembled(m, prec, e, el);
    m := m * Pow(2, 53 - prec);
    if m >= P53 {
      m := m / 2;
      e := e + 1;
    }
  }

  lemma {:induction false} FewLimbs(s: seq<limb>, fl: nat)
    requires s != [] && (|s| == 1 || s[|s| - 1] != 0) && Val(s) < Pow(2, fl + 1)
    ensures fl <= 63 ==> |s| <= 2
  {
    hide Val, Pow;
    if fl <= 63 && |s| > 2 {
      TopLimb(s);
      PowMono(2, fl + 1, 64);
      Powers52();
      PowOne(B);
      PowMono(B, 2, |s| - 1);
    }
  }

  lemma {:induction false} PrecisionBound(q: nat, prec: int)
    requires prec <= 53 && (prec >= 1 ==> Pow(2, prec - 1) <= q <= Pow(2, prec)) && (prec == 0 ==> q <= 1) && (prec < 0 ==> q == 0)
    ensures q <= P53
  {
    hide Pow;
    Powers52();
    if prec >= 1 { PowMono(2, prec, 53); }
  }

  lemma {:induction false} TwoLimbs(s: seq<limb>, q: nat)
    requires s != [] && (|s| == 1 || s[|s| - 1] != 0) && Val(s) == q <= P53
    ensures |s| <= 2
  {
    hide Val;
    PowOne(B);
    LenBound(s, 2);
  }

  /** The mantissa, shifted up and renormalized, gives the bits of the rounded multiple of the unit. */
  lemma {:induction false} Assembled(q: nat, prec: int, e: int, el: int)
    requires e == el && prec == Precision(el) && q <= P53
    requires (prec >= 1 ==> Pow(2, prec - 1) <= q <= Pow(2, prec)) && (prec == 0 ==> q <= 1) && (prec < 0 ==> q == 0)
    ensures var m := q * Pow(2, 53 - prec);
            && (m >= P53 ==> Canonical(m / 2, e + 1) && m / 2 > 0 && BitsOf(m / 2, e + 1) == RoundBits(q, el))
            && (m < P53 ==> Canonical(m, e) && BitsOf(m, e) == RoundBits(q, el))
  {
    Powers52();
    PowOne(2);
    if prec == 53 {
      hide Pow;
      NormalBits(q, e);
    } else if prec >= 0 {
      SubnormalBits(q, prec, e);
    } else {
      assert 0 * Pow(2, 53 - prec) == 0;
    }
  }

  lemma {:induction false} NormalBits(q: nat, e: int)
    requires e >= -1021 && P52 <= q <= P53
    ensures q == P53 ==> q / 2 == P52 && BitsOf(P52, e + 1) == RoundBits(q, e)
    ensures q < P53 ==> BitsOf(q, e) == RoundBits(q, e)
  {
    hide Pow;
    if q < P53 { assert q % P52 == q - P52; }
  }

  lemma {:induction false} SubnormalBits(q: nat, prec: int, e: int)
    requires e < -1021 && 0 <= prec == e + 1074 <= 52
    requires (prec >= 1 ==> Pow(2, prec - 1) <= q <= Pow(2, prec)) && (prec == 0 ==> q <= 1)
    ensures var m := q * Pow(2, 53 - prec);
            && (m >= P53 ==> Canonical(m / 2, e + 1) && BitsOf(m / 2, e + 1) == RoundBits(q, e))
            && (m < P53 ==> Canonical(m, e) && BitsOf(m, e) == RoundBits(q, e))
  {
    var u := Pow(2, 53 - prec);
    var m := q * u;
    Powers52();
    PowOne(2);
    PowStep(2, 52 - prec);
    PowAdd(2, prec, 53 - prec);
    if prec >= 1 { PowAdd(2, prec - 1, 53 - prec); MulMono(Pow(2, prec - 1), q, u); }
    MulMono(q, Pow(2, prec), u);
    if m >= P53 {
      MulCancel(Pow(2, prec), q, u);
      assert q == Pow(2, prec) && m == P53;
      if prec < 52 {
        PowAdd(2, prec, 52 - prec);
        DivUnique(P52, Pow(2, 52 - prec), q, 0);
      }
    } else if m > 0 {
      assert prec >= 1;
      DivUnique(m, u, q, 0);
    } else {
      if q > 0 { MulStrict(0, q, u); }
    }
  }

  // ---- the result is the nearest number ----

  /** A quotient at least a power of two, read off its sticky form. */
  lemma {:induction false} StickyAbove(n: nat, p: nat, a: nat)
    requires p > 0 && a >= 1 && Pow(2, a) <= Sticky(n / p, n % p != 0)
    ensures Mul(Pow(2, a), p) <= n
  {
    PowStep(2, a - 1);
    var t, q := Pow(2, a), n / p;
    assert t % 2 == 0 by { hide Pow; assert t == 2 * Pow(2, a - 1); }
    DivMod(n, p);
    assert q >= t;
    hide Pow;
    MulMono(t, q, p);
  }

  /** The number itself is at least as large as the least number of its binade. */
  lemma {:induction false} AtLeast(v: nat, r1: nat, rs: nat, f: int, eOffset: int, w: nat, el: int)
    requires r1 >= 1 && Scaled(v, r1, rs, f, eOffset, w) && IsExponent(w, eOffset, el) && el >= -1073
    requires f < 0 && r1 > 1 ==> el + eOffset >= 2
    ensures Mul(Pow(2, el + 1073), Den(0, Radix(r1, rs), f)) <= Units(Num(v, 0, Radix(r1, rs), f))
  {
    hide Pow, Mul, Radix, Sticky;
    PowOne(2);
    PowOne(Radix(r1, rs));
    if f >= 0 {
      RadixPower(r1, rs, f);
      assert rs * f == f * rs;
      AtLeastUp(v, r1, rs, f, rs * f, w, el);
    } else if r1 == 1 {
      PowOfOne(-f);
      RadixPower(1, rs, -f);
      assert rs * -f == -(f * rs);
      AtLeastOne(v, rs, f, rs * -f, w, el);
    } else {
      RadixPower(r1, rs, -f);
      assert rs * -f == -(f * rs);
      var k := eOffset + f * rs;
      AtLeastDown(v, r1, rs, -f, rs * -f, k, eOffset, w, el);
    }
  }

  lemma {:induction false} AtLeastUp(v: nat, r1: nat, rs: nat, f: nat, g: nat, w: nat, el: int)
    requires r1 >= 1 && w == v * Pow(r1, f) && Pow(Radix(r1, rs), f) == Mul(Pow(r1, f), Pow(2, g))
    requires el - g >= 1 && Pow(2, el - g - 1) <= w
    ensures Mul(Pow(2, el + 1073), Den(0, Radix(r1, rs), f)) <= Units(Num(v, 0, Radix(r1, rs), f))
  {
    PowOne(2);
    PowOne(Radix(r1, rs));
    hide Pow, Radix;
    var c := Pow(2, el - g - 1);
    assert w == Mul(v, Pow(r1, f));
    MulMono(c, w, Pow(2, g + 1074));
    assert Mul(c, Pow(2, g + 1074)) <= Mul(w, Pow(2, g + 1074));
    hide Mul;
    MulOne(1);
    MulOne(v);
    MulOne(Pow(2, el + 1073));
    PowMul(2, el - g - 1, g + 1074);
    // n = v * (r1^f * 2^g) * 2^1074
    MulAssoc(v, Pow(r1, f), Pow(2, g));
    MulAssoc(w, Pow(2, g), Pow(2, 1074));
    PowMul(2, g, 1074);
  }

  lemma {:induction false} AtLeastOne(v: nat, rs: nat, f: int, g: nat, w: nat, el: int)
    requires f < 0 && w == v * 1 && Pow(Radix(1, rs), -f) == Mul(1, Pow(2, g))
    requires el + g >= 1 && Pow(2, el + g - 1) <= w && el >= -1073
    ensures Mul(Pow(2, el + 1073), Den(0, Radix(1, rs), f)) <= Units(Num(v, 0, Radix(1, rs), f))
  {
    PowOne(2);
    PowOne(Radix(1, rs));
    hide Pow, Radix;
    MulMono(Pow(2, el + g - 1), v, Pow(2, 1074));
    assert Mul(Pow(2, el + g - 1), Pow(2, 1074)) <= Mul(v, Pow(2, 1074));
    hide Mul;
    MulOne(v);
    MulOne(Pow(2, g));
    PowMul(2, el + 1073, g);
    PowMul(2, el + g - 1, 1074);
  }

  lemma {:induction false} AtLeastDown(v: nat, r1: nat, rs: nat, f: int, g: nat, k: nat, eOffset: int, w: nat, el: int)
    requires r1 >= 1 && f > 0 && eOffset == g + k && Pow(Radix(r1, rs), f) == Mul(Pow(r1, f), Pow(2, g))
    requires w == Sticky(v * Pow(2, k) / Pow(r1, f), v * Pow(2, k) % Pow(r1, f) != 0)
    requires el + eOffset >= 2 && Pow(2, el + eOffset - 1) <= w && el >= -1073
    ensures Mul(Pow(2, el + 1073), Den(0, Radix(r1, rs), -f)) <= Units(Num(v, 0, Radix(r1, rs), -f))
  {
    PowOne(2);
    PowOne(Radix(r1, rs));
    hide Pow, Radix, Sticky;
    var p, a := Pow(r1, f), el + eOffset - 1;
    StickyAbove(v * Pow(2, k), p, a);
    assert Mul(Pow(2, a), p) <= Mul(v, Pow(2, k));
    MulMono(Mul(Pow(2, a), p), Mul(v, Pow(2, k)), Pow(2, 1074));
    assert Mul(Mul(Pow(2, a), p), Pow(2, 1074)) <= Mul(Mul(v, Pow(2, k)), Pow(2, 1074));
    DownMul(v, p, a, k, el, g);
    assert Mul(Mul(Pow(2, el + 1073), Mul(p, Pow(2, g))), Pow(2, k)) <= Mul(Mul(v, Pow(2, 1074)), Pow(2, k));
    MulCancel(Mul(Pow(2, el + 1073), Mul(p, Pow(2, g))), Mul(v, Pow(2, 1074)), Pow(2, k));
    hide Mul;
    MulOne(v);
    MulOne(Mul(p, Pow(2, g)));
  }

  lemma {:induction false} DownMul(v: nat, p: nat, a: nat, k: nat, el: int, g: nat)
    requires a == el + g + k - 1 && el >= -1073
    ensures Mul(Mul(Pow(2, a), p), Pow(2, 1074)) == Mul(Mul(Pow(2, el + 1073), Mul(p, Pow(2, g))), Pow(2, k))
    ensures Mul(Mul(v, Pow(2, k)), Pow(2, 1074)) == Mul(Mul(v, Pow(2, 1074)), Pow(2, k))
  {
    hide Pow, Mul;
    MulAssoc(v, Pow(2, k), Pow(2, 1074));
    MulAssoc(v, Pow(2, 1074), Pow(2, k));
    MulComm(Pow(2, k), Pow(2, 1074));
    MulComm(Pow(2, a), p);
    MulAssoc(p, Pow(2, a), Pow(2, 1074));
    PowMul(2, a, 1074);
    var t := Pow(2, el + 1073);
    MulComm(t, Mul(p, Pow(2, g)));
    MulAssoc(p, Pow(2, g), t);
    PowMul(2, g, el + 1073);
    MulAssoc(p, Pow(2, g + (el + 1073)), Pow(2, k));
    PowMul(2, g + (el + 1073), k);
  }

  /** The unit of numbers below `2^e` is `2^(UnitLog(e) - 1074)`. */
  function UnitLog(e: int): nat
    requires e <= 1024
  {
    if e < -1021 then 0 else e + 1021
  }

  /** Rounding the scaled bignum is rounding the exact fraction to a multiple of the unit. */
  lemma {:induction false} UnitQuotient(v: nat, r1: nat, rs: nat, f: int, eOffset: int, w: nat, el: int)
    requires r1 >= 1 && el <= 1024 && Scaled(v, r1, rs, f, eOffset, w)
    requires f < 0 && r1 > 1 ==> el + eOffset - Precision(el) >= 2
    ensures Mul(Den(0, Radix(r1, rs), f), Pow(2, UnitLog(el))) > 0
    ensures RoundShift(w, el + eOffset - Precision(el), Nearest)
         == RoundDiv(Units(Num(v, 0, Radix(r1, rs), f)), Mul(Den(0, Radix(r1, rs), f), Pow(2, UnitLog(el))), Nearest)
  {
    var e, k := Precision(el) - el, UnitLog(el);
    assert k == 1074 - e && eOffset - e == el + eOffset - Precision(el);
    hide Pow, RoundDiv, RoundShift, Scaled, Radix, Num, Den, Units;
    ScaledRounds(v, r1, rs, f, eOffset, w, e, Nearest);
    UnitCross(v, Radix(r1, rs), f, e, k);
    RoundDivCross(Num(v, e, Radix(r1, rs), f), Den(e, Radix(r1, rs), f),
                  Units(Num(v, 0, Radix(r1, rs), f)), Mul(Den(0, Radix(r1, rs), f), Pow(2, k)), Nearest);
  }

  lemma {:induction false} UnitCross(v: nat, radix: nat, f: int, e: int, k: nat)
    requires radix > 0 && k == 1074 - e
    ensures Mul(Num(v, e, radix, f), Mul(Den(0, radix, f), Pow(2, k))) == Mul(Units(Num(v, 0, radix, f)), Den(e, radix, f))
  {
    PowOne(2);
    hide Pow, Mul;
    var a, b := Pow(radix, Pos(f)), Pow(radix, Pos(-f));
    MulOne(v);
    MulOne(b);
    var i, j := Pow(2, Pos(e)), Pow(2, Pos(-e));
    MulAssoc(v, i, a);
    MulComm(i, a);
    MulAssoc(v, a, i);
    MulQuad(Mul(v, a), i, b, Pow(2, k));
    PowMul(2, Pos(e), k);
    MulComm(j, b);
    MulQuad(Mul(v, a), Pow(2, 1074), b, j);
    PowMul(2, 1074, Pos(-e));
  }

  lemma {:induction false} InfinityIs()
    ensures V(INF) == Pow(2, 2098)
  {
    assert INF / P52 == 2047 && INF % P52 == 0;
    Powers52();
    PowAdd(2, 52, 2046);
    hide Pow;
    assert V(INF) == P52 * Pow(2, 2046);
  }

  /** Rounding to a multiple of the unit gives the nearest number, whatever fraction `x / d` the bignum `w` stands for. */
  lemma {:induction false} FractionNearest(x: nat, d: nat, eOffset: int, w: nat, el: int)
    requires d > 0 && IsExponent(w, eOffset, el)
    requires el >= -1073 ==> Mul(Pow(2, el + 1073), d) <= x
    requires el <= 1024 ==> Mul(d, Pow(2, UnitLog(el))) > 0
    requires el <= 1024 ==> RoundShift(w, el + eOffset - Precision(el), Nearest) == RoundDiv(x, Mul(d, Pow(2, UnitLog(el))), Nearest)
    ensures var b := RoundBits(RoundShift(w, el + eOffset - Precision(el), Nearest), el);
            b <= INF && forall c: nat :: c <= INF ==> NoNearer(b, c, x, d)
  {
    var b := RoundBits(RoundShift(w, el + eOffset - Precision(el), Nearest), el);
    ShiftBounds(w, Precision(el), el + eOffset - Precision(el), Nearest);
    Powers52();
    hide Pow, RoundShift, NoNearer, RoundDiv, Mul;
    if el > 1024 {
      PowMono(2, 2098, el + 1073);
      InfinityIs();
      TooLarge(Pow(2, 2098), Pow(2, el + 1073), d, x);
      forall c: nat | c <= INF ensures NoNearer(b, c, x, d) { Overflows(x, d, c); }
    } else {
      var k, q := UnitLog(el), RoundShift(w, el + eOffset - Precision(el), Nearest);
      PrecisionBound(q, Precision(el));
      if k > 0 {
        PowAdd(2, 52, k);
        SameProduct(P52 * Pow(2, k), Pow(2, el + 1073), d, x);
      }
      assert q + k * P52 <= INF && b == q + k * P52;
      forall c: nat | c <= INF ensures NoNearer(b, c, x, d) { UnitNearest(x, d, k, q, c); }
    }
  }

  /** The theorem about round_to_d: the scaled bignum, rounded, gives the binary64 number nearest to the exact value. */
  lemma {:induction false} RoundedNearest(v: nat, r1: nat, rs: nat, f: int, eOffset: int, w: nat, el: int)
    requires r1 >= 1 && Scaled(v, r1, rs, f, eOffset, w) && IsExponent(w, eOffset, el)
    requires f < 0 && r1 > 1 ==> el + eOffset >= 56
    ensures NearestTo(RoundBits(RoundShift(w, el + eOffset - Precision(el), Nearest), el),
                      Num(v, 0, Radix(r1, rs), f), Den(0, Radix(r1, rs), f))
  {
    var n, d := Num(v, 0, Radix(r1, rs), f), Den(0, Radix(r1, rs), f);
    hide Pow, RoundShift, Scaled, Radix, Num, Den, Units, NoNearer, RoundDiv, Mul, RoundBits;
    if el >= -1073 { AtLeast(v, r1, rs, f, eOffset, w, el); }
    if el <= 1024 { UnitQuotient(v, r1, rs, f, eOffset, w, el); }
    FractionNearest(Units(n), d, eOffset, w, el);
  }

  // ---- a sum of bits, the last ones dropped ----

  /** The bignum `w` stands for the `t` bits longer number `all`: the dropped bits show in the last one being set. */
  ghost predicate Cut(all: nat, t: nat, w: nat) {
    w == Sticky(all / Pow(2, t), all % Pow(2, t) != 0) && (t > 0 ==> Pow(2, 55) <= w)
  }

  /** round_to_d on such a bignum gives the number nearest to `all * 2^(e - t)`. */
  lemma {:induction false} CutNearest(all: nat, t: nat, w: nat, e: int, el: int)
    requires Cut(all, t, w) && IsExponent(w, -e, el)
    ensures NearestTo(RoundBits(RoundShift(w, el - e - Precision(el), Nearest), el), Num(all, 0, 2, e - t), Den(0, 2, e - t))
  {
    var n, d := Num(all, 0, 2, e - t), Den(0, 2, e - t);
    PowOne(2);
    assert Radix(1, 1) == 2;
    hide Pow, RoundShift, Radix, Num, Den, Units, NoNearer, RoundDiv, Mul, RoundBits;
    if t == 0 {
      NothingCut(all, w, e);
      RoundedNearest(all, 1, 1, e, -e, w, el);
    } else {
      ExponentAbove(w, el - e - 1, 55);
      if el >= -1073 { CutAtLeast(all, t, w, e, el); }
      if el <= 1024 { CutQuotient(all, t, w, e, el); }
      FractionNearest(Units(n), d, -e, w, el);
    }
  }

  lemma {:induction false} NothingCut(all: nat, w: nat, e: int)
    requires Cut(all, 0, w)
    ensures Scaled(all, 1, 1, e, -e, w)
  {
    PowOne(2);
    PowOfOne(Abs(e));
  }

  lemma {:induction false} ExponentAbove(w: nat, k: nat, a: nat)
    requires Pow(2, a) <= w < Pow(2, k + 1)
    ensures a <= k
  {
    hide Pow;
    if k < a { PowMono(2, k + 1, a); }
  }

  lemma {:induction false} BitParts(all: nat, f: int)
    ensures Num(all, 0, 2, f) == Mul(all, Pow(2, Pos(f))) && Den(0, 2, f) == Pow(2, Pos(-f))
    ensures Units(Num(all, 0, 2, f)) == Mul(all, Pow(2, Pos(f) + 1074))
  {
    PowOne(2);
    hide Pow, Mul;
    MulOne(all);
    MulOne(Pow(2, Pos(-f)));
    MulAssoc(all, Pow(2, Pos(f)), Pow(2, 1074));
    PowMul(2, Pos(f), 1074);
  }

  lemma {:induction false} CutAtLeast(all: nat, t: nat, w: nat, e: int, el: int)
    requires t > 0 && Cut(all, t, w) && IsExponent(w, -e, el) && el >= -1073 && el - e >= 2
    ensures Mul(Pow(2, el + 1073), Den(0, 2, e - t)) <= Units(Num(all, 0, 2, e - t))
  {
    hide Pow, Mul, Sticky, Num, Den, Units;
    BitParts(all, e - t);
    var a, i, j := el - e - 1, Pos(e - t), Pos(t - e);
    StickyAbove(all, Pow(2, t), a);
    PowMul(2, a, t);
    PowMul(2, el + 1073, j);
    PowMul(2, a + t, i + 1074);
    assert a + t + (i + 1074) == el + 1073 + j;
    ProductMono(Pow(2, a + t), all, Pow(2, i + 1074));
  }

  lemma {:induction false} ProductMono(a: nat, b: nat, c: nat)
    requires a <= b
    ensures Mul(a, c) <= Mul(b, c)
  {
    MulMono(a, b, c);
  }

  lemma {:induction false} CutQuotient(all: nat, t: nat, w: nat, e: int, el: int)
    requires t > 0 && Cut(all, t, w) && el <= 1024 && el - e >= 56
    ensures Mul(Den(0, 2, e - t), Pow(2, UnitLog(el))) > 0
    ensures RoundShift(w, el - e - Precision(el), Nearest)
         == RoundDiv(Units(Num(all, 0, 2, e - t)), Mul(Den(0, 2, e - t), Pow(2, UnitLog(el))), Nearest)
  {
    var k, s, i, j := UnitLog(el), el - e - Precision(el), Pos(e - t), Pos(t - e);
    hide Pow, Mul, Sticky, Num, Den, Units, RoundDiv;
    BitParts(all, e - t);
    FourDivides(s);
    assert RoundShift(w, s, Nearest) == RoundDiv(w, Pow(2, s), Nearest);
    StickyMul(all, Pow(2, t), Pow(2, s), Nearest);
    PowMul(2, t, s);
    PowMul(2, j, k);
    MulAssoc(all, Pow(2, i + 1074), Pow(2, t + s));
    PowMul(2, i + 1074, t + s);
    assert i + 1074 + (t + s) == j + k;
    RoundDivCross(all, Pow(2, t + s), Mul(all, Pow(2, i + 1074)), Pow(2, j + k), Nearest);
  }

  lemma {:induction false} TooLarge(a: nat, b: nat, d: nat, x: nat)
    requires a <= b && Mul(b, d) <= x
    ensures a * d <= x
  {
    MulMono(a, b, d);
  }

  lemma {:induction false} SameProduct(a: nat, b: nat, d: nat, x: nat)
    requires a == b && Mul(b, d) <= x
    ensures a * d <= x
  {
  }

  /** There is only one nearest number. */
  lemma {:induction false} NearestUnique(b: nat, c: nat, n: nat, d: nat)
    requires d > 0 && NearestTo(b, n, d) && NearestTo(c, n, d)
    ensures b == c
  {
    var x := Units(n);
    assert NoNearer(b, c, x, d) && NoNearer(c, b, x, d);
    if b != c {
      OddNeighbour(b, c, x, d);
    }
  }

  /** Between two even numbers there is a third, and it is nearer to whatever is as near to both. */
  lemma {:induction false} OddNeighbour(b: nat, c: nat, x: nat, d: nat)
    requires d > 0 && b <= INF && c <= INF && b != c && b % 2 == 0 && c % 2 == 0
    requires Distance(x, V(b) * d) == Distance(x, V(c) * d)
    ensures exists o: nat :: o <= INF && !NoNearer(b, o, x, d)
  {
    var lo, hi := if b < c then b else c, if b < c then c else b;
    var o := lo + 1;
    VIncreases(lo, o);
    VIncreases(o, hi);
    MulStrict(V(lo), V(o), d);
    MulStrict(V(o), V(hi), d);
    hide V;
    assert !NoNearer(b, o, x, d);
  }

  /** Every nonzero bignum has an exponent. */
  lemma {:induction false} HasExponent(w: nat, eOffset: int, k: nat)
    requires Pow(2, k) <= w < Pow(2, k + 1)
    ensures IsExponent(w, eOffset, k + 1 - eOffset)
  {
  }

  /** The bignum has room for mul_pow and for rounding. */
  ghost predicate ScalingRoom(v: nat, len: nat, r1: nat, rs: nat, f: int, capacity: nat)
    requires OddRadix(r1)
  {
    && capacity >= 6
    && (r1 > 1 ==>
          && (f >= 0 ==> v * Pow(r1, f) < Pow(B, capacity))
          && (f < 0 ==> len + DivLimbs(r1, -f) + 56 / 32 + 1 <= capacity))
  }

  /** mul_pow_round_to_d: the binary64 number nearest to `a * radix^f`. */
  method MulPowRoundToD(a: Mpb, r1: nat, rs: nat, f: int) returns (m: nat, e: int)
    requires a.Valid() && a.Normalized() && OddRadix(r1) && rs <= 5 && Abs(f) < B
    requires ScalingRoom(a.Value(), a.len, r1, rs, f, a.tab.Length)
    modifies a, a.tab
    ensures a.Valid()
    ensures old(a.Value()) == 0 ==> m == 0
    ensures old(a.Value()) > 0 ==>
              NearestTo(BitsOf(m, e), Num(old(a.Value()), 0, Radix(r1, rs), f), Den(0, Radix(r1, rs), f))
    ensures Canonical(m, e)
  {
    ghost var v := a.Value();
    hide Pow, Val, Scaled, Radix, Num, Den, NearestTo, BitsOf, RoundBits, RoundShift, IsExponent, Precision;
    var eOffset := MulPow(a, r1, rs, f, false, 55);
    ghost var el := ScaledExponent(v, r1, rs, f, eOffset, a.Value());
    m, e := RoundToD(a, eOffset, Nearest, el);
  }

  lemma {:induction false} ScaledExponent(v: nat, r1: nat, rs: nat, f: int, eOffset: int, w: nat) returns (el: int)
    requires r1 >= 1 && Scaled(v, r1, rs, f, eOffset, w) && (f < 0 && r1 > 1 && v > 0 ==> w >= Pow(2, 55))
    ensures v == 0 ==> w == 0
    ensures v > 0 ==>
      && w > 0 && IsExponent(w, eOffset, el)
      && NearestTo(RoundBits(RoundShift(w, el + eOffset - Precision(el), Nearest), el),
                   Num(v, 0, Radix(r1, rs), f), Den(0, Radix(r1, rs), f))
  {
    hide Pow, Scaled, Radix, Num, Den, NearestTo, RoundBits, RoundShift;
    el := 0;
    if v > 0 {
      ScaledPositive(v, r1, rs, f, eOffset, w);
      var k := Log2(w);
      HasExponent(w, eOffset, k);
      el := k + 1 - eOffset;
      if f < 0 && r1 > 1 { LogAtLeast(w, k, 55); }
      RoundedNearest(v, r1, rs, f, eOffset, w, el);
    } else {
      ScaledZero(v, r1, rs, f, eOffset, w);
    }
  }

  lemma {:induction false} ScaledZero(v: nat, r1: nat, rs: nat, f: int, eOffset: int, w: nat)
    requires r1 >= 1 && v == 0 && Scaled(v, r1, rs, f, eOffset, w)
    ensures w == 0
  {
    if f < 0 && r1 > 1 {
      DivUnique(0, Pow(r1, -f), 0, 0);
    }
  }

  ghost function Log2(w: nat): (k: nat)
    requires w > 0
    ensures Pow(2, k) <= w < Pow(2, k + 1)
  {
    PowOne(2);
    if w == 1 then 0
    else
      var k := Log2(w / 2);
      PowStep(2, k);
      PowStep(2, k + 1);
      k + 1
  }

  lemma {:induction false} LogAtLeast(w: nat, k: nat, e: nat)
    requires Pow(2, k) <= w < Pow(2, k + 1) && Pow(2, e) <= w
    ensures k >= e
  {
    hide Pow;
    if k < e { PowMono(2, k + 1, e); }
  }
}
