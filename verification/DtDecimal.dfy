/** Decimals against the binary64 numbers: the nearest decimal of so many digits, and which decimals are read as a number. */
module DtDecimal {
  import opened DtArith
  import opened DtScale
  import opened DtDouble

  // ---- rounding and bounds ----

  lemma RoundAtLeast(n: nat, d: nat, k: nat)
    requires d > 0 && (2 * k - 1) * d < 2 * n
    ensures RoundDiv(n, d, Nearest) >= k
  {
    RoundDivNearest(n, d, Nearest, k);
    var r := RoundDiv(n, d, Nearest);
    hide RoundDiv;
    assert (k - 1) * d == k * d - d && (2 * k - 1) * d == 2 * (k * d) - d;
    if r < k {
      MulMono(r, k - 1, d);
    }
  }

  lemma RoundAtMost(n: nat, d: nat, k: nat)
    requires d > 0 && n <= k * d
    ensures RoundDiv(n, d, Nearest) <= k
  {
    RoundDivNearest(n, d, Nearest, k);
    var r := RoundDiv(n, d, Nearest);
    hide RoundDiv;
    assert (k + 1) * d == k * d + d;
    if r > k {
      MulMono(k + 1, r, d);
    }
  }

  /** What a rounded quotient says about the quotient. */
  lemma RoundedFrom(n: nat, d: nat, r: nat)
    requires d > 0 && r == RoundDiv(n, d, Nearest)
    ensures 2 * Distance(n, r * d) <= d
  {
    DivMod(n, d);
    var q := n / d;
    assert (q + 1) * d == q * d + d;
  }

  lemma DistanceTimes(a: int, b: int, k: int)
    requires k >= 0
    ensures Distance(a * k, b * k) == Distance(a, b) * k
  {
    if a < b {
      MulMono(a, b, k);
      assert (b - a) * k == b * k - a * k;
    } else {
      MulMono(b, a, k);
      assert (a - b) * k == a * k - b * k;
    }
  }

  // ---- fractions written in different ways ----

  lemma CrossDistance(x: nat, d: nat, x': nat, d': nat, v: nat)
    requires x * d' == x' * d && d > 0 && d' > 0
    ensures Distance(x, v * d) * d' == Distance(x', v * d') * d
  {
    DistanceTimes(x, v * d, d');
    DistanceTimes(x', v * d', d);
    Assoc(v, d, d');
    Assoc(v, d', d);
    assert d * d' == d' * d;
  }

  lemma SameOrder(x: nat, d: nat, x': nat, d': nat, v: nat, w: nat)
    requires d > 0 && d' > 0 && x * d' == x' * d
    ensures Distance(x, v * d) <= Distance(x, w * d) <==> Distance(x', v * d') <= Distance(x', w * d')
    ensures Distance(x, v * d) == Distance(x, w * d) <==> Distance(x', v * d') == Distance(x', w * d')
  {
    CrossDistance(x, d, x', d', v);
    CrossDistance(x, d, x', d', w);
    var a, b, a', b' := Distance(x, v * d), Distance(x, w * d), Distance(x', v * d'), Distance(x', w * d');
    assert a * d' == a' * d && b * d' == b' * d;
    if a < b { MulStrict(a, b, d'); MulCancelStrict(a', b', d); }
    if b < a { MulStrict(b, a, d'); MulCancelStrict(b', a', d); }
    if a == b { MulCancel(a', b', d); MulCancel(b', a', d); }
  }

  lemma {:induction false} UnitsCross(n: nat, d: nat, n': nat, d': nat)
    requires Mul(n, d') == Mul(n', d)
    ensures Units(n) * d' == Units(n') * d
  {
    var t := Pow(2, 1074);
    hide Pow;
    assert n * d' == n' * d;
    Assoc(n, t, d');
    Assoc(n, d', t);
    assert t * d' == d' * t && t * d == d * t;
    Assoc(n', t, d);
    Assoc(n', d, t);
  }

  /** Being nearest to a fraction does not depend on how it is written. */
  lemma {:induction false} NearestSame(b: nat, n: nat, d: nat, n': nat, d': nat)
    requires d > 0 && d' > 0 && Mul(n, d') == Mul(n', d) && NearestTo(b, n, d)
    ensures NearestTo(b, n', d')
  {
    forall c: nat | c <= INF ensures NoNearer(b, c, Units(n'), d') {
      assert NoNearer(b, c, Units(n), d);
      UnitsCross(n, d, n', d');
      hide V, Units;
      SameOrder(Units(n), d, Units(n'), d', V(b), V(c));
    }
  }

  lemma {:induction false} NumLinear(r: nat, f: int)
    ensures Units(Num(r, 0, 10, f)) == Mul(r, Units(Num(1, 0, 10, f)))
  {
    PowOne(2);
    hide Pow, Mul;
    MulOne(r);
    MulOne(1);
    MulOne(Pow(10, Pos(f)));
    MulAssoc(r, Pow(10, Pos(f)), Pow(2, 1074));
  }

  /** Zeros behind the mantissa and a smaller exponent leave the number the same. */
  lemma {:induction false} PaddedCross(mant: nat, f: int, k: nat)
    ensures Mul(Num(Mul(mant, Pow(10, k)), 0, 10, f - k), Den(0, 10, f)) == Mul(Num(mant, 0, 10, f), Den(0, 10, f - k))
  {
    PowOne(2);
    hide Pow, Mul;
    var a, b, c, d := Pow(10, Pos(f - k)), Pow(10, Pos(-f)), Pow(10, Pos(f)), Pow(10, Pos(-(f - k)));
    MulOne(mant);
    MulOne(Mul(mant, Pow(10, k)));
    MulOne(b);
    MulOne(d);
    MulAssoc(mant, Pow(10, k), a);
    MulAssoc(mant, Mul(Pow(10, k), a), b);
    MulAssoc(mant, c, d);
    PowMul(10, k, Pos(f - k));
    PowMul(10, k + Pos(f - k), Pos(-f));
    PowMul(10, Pos(f), Pos(-(f - k)));
    assert k + Pos(f - k) + Pos(-f) == Pos(f) + Pos(-(f - k));
  }

  lemma {:induction false} ZeroCross(k: nat, f: int)
    ensures Mul(Num(Mul(10, k), 0, 10, f), Den(0, 10, f + 1)) == Mul(Num(k, 0, 10, f + 1), Den(0, 10, f))
  {
    PowOne(2);
    PowOne(10);
    hide Pow, Mul;
    MulOne(Mul(10, k));
    MulOne(k);
    var a, b, c, d := Pow(10, Pos(f)), Pow(10, Pos(-(f + 1))), Pow(10, Pos(f + 1)), Pow(10, Pos(-f));
    MulOne(b);
    MulOne(d);
    MulComm(10, k);
    MulAssoc(k, 10, a);
    MulAssoc(k, Mul(10, a), b);
    MulAssoc(10, a, b);
    MulAssoc(k, c, d);
    PowMul(10, Pos(f), Pos(-(f + 1)));
    PowMul(10, Pos(f + 1), Pos(-f));
    PowMul(10, 1, Pos(f) + Pos(-(f + 1)));
    assert 1 + (Pos(f) + Pos(-(f + 1))) == Pos(f + 1) + Pos(-f);
  }

  // ---- the nearest decimal of so many digits ----

  /** The number nearest to `mant * 10^f` has the bits `b`. */
  ghost predicate Reads(b: nat, mant: nat, f: int) { ReadsIn(b, mant, 10, f) }

  /** A number that is at least the lower end of the decade has a mantissa of full length. */
  ghost predicate LongEnough(n: nat, d: nat, p: nat) {
    (20 * p - 1) * d <= 20 * n
  }

  /** `10^f` on the scale of `NearestTo`: in units of 2^-1074, times `Den(0, 10, f)`. */
  function Unit(f: int): (u: nat)
    ensures u > 0
  {
    Units(Num(1, 0, 10, f))
  }

  /** The number with bits `b` on that scale. */
  function Scaled10(b: nat, f: int): nat
    requires b <= INF
  {
    Mul(V(b), Den(0, 10, f))
  }

  /** `mant * 10^f` is the number correctly rounded to `k` digits, ties to even. */
  ghost predicate RoundedTo(b: nat, k: nat, mant: nat, f: int)
    requires b <= INF && k >= 1
  {
    && Pow(10, k - 1) <= mant < Pow(10, k)
    && mant == RoundDiv(Scaled10(b, f), Unit(f), Nearest)
    && LongEnough(Scaled10(b, f), Unit(f), Pow(10, k - 1))
  }

  /** One place less. */
  lemma {:induction false} UnitStep(b: nat, f: int)
    requires b <= INF
    ensures if f >= 0 then Scaled10(b, f + 1) == Scaled10(b, f) && Unit(f + 1) == 10 * Unit(f)
            else Scaled10(b, f) == 10 * Scaled10(b, f + 1) && Unit(f + 1) == Unit(f)
  {
    PowOne(2);
    PowOne(10);
    hide V;
    PowStep(10, Pos(f));
    PowStep(10, Pos(-f - 1));
    hide Pow;
    assert Num(1, 0, 10, f) == Pow(10, Pos(f)) && Num(1, 0, 10, f + 1) == Pow(10, Pos(f + 1));
    assert Den(0, 10, f) == Pow(10, Pos(-f)) && Den(0, 10, f + 1) == Pow(10, Pos(-f - 1));
    if f >= 0 { Assoc(10, Pow(10, f), Pow(2, 1074)); } else { Times10(V(b), Pow(10, -f - 1)); }
  }

  lemma Times10(v: nat, p: nat)
    ensures v * (10 * p) == 10 * (v * p)
  {
  }

  /** A rounded mantissa that ends in a zero is, without it, the mantissa rounded to a digit less. */
  lemma {:induction false} RoundedStep(b: nat, k: nat, mant: nat, f: int)
    requires b <= INF && k >= 2 && RoundedTo(b, k, mant, f) && mant % 10 == 0
    ensures RoundedTo(b, k - 1, mant / 10, f + 1)
  {
    UnitStep(b, f);
    PowStep(10, k - 1);
    PowStep(10, k - 2);
    RoundedFrom(Scaled10(b, f), Unit(f), mant);
    hide Pow, Scaled10, Unit, RoundDiv, LongEnough;
    StepInts(Scaled10(b, f), Unit(f), Scaled10(b, f + 1), Unit(f + 1), mant / 10, Pow(10, k - 2));
  }

  lemma StepInts(n: nat, d: nat, n': nat, d': nat, q: nat, k: nat)
    requires d > 0 && ((n' == n && d' == 10 * d) || (n == 10 * n' && d' == d)) && q >= k
    requires 2 * Distance(n, 10 * q * d) <= d
    ensures RoundDiv(n', d', Nearest) == q && LongEnough(n', d', k)
  {
    hide RoundDiv;
    TenTimes(n, d, n', d', q);
    ClearlyNearest(n', d', q);
    MulMono(k, q, d');
    EndOfDecade(n', d', q * d', k);
  }

  lemma TenTimes(n: nat, d: nat, n': nat, d': nat, q: nat)
    requires (n' == n && d' == 10 * d) || (n == 10 * n' && d' == d)
    requires 2 * Distance(n, 10 * q * d) <= d
    ensures 20 * Distance(n', q * d') <= d'
  {
    var t := q * d;
    Assoc(10, q, d);
    Times10(q, d);
  }

  lemma ClearlyNearest(n: nat, d: nat, q: nat)
    requires d > 0 && 20 * Distance(n, q * d) <= d
    ensures RoundDiv(n, d, Nearest) == q
  {
    RoundDivNearest(n, d, Nearest, q);
    var r := RoundDiv(n, d, Nearest);
    hide RoundDiv;
    if r < q {
      MulMono(r + 1, q, d);
      NextMultiple(r, d);
    } else if r > q {
      MulMono(q + 1, r, d);
      NextMultiple(q, d);
    }
  }

  lemma NextMultiple(q: int, d: int)
    ensures (q + 1) * d == q * d + d
  {
  }

  lemma EndOfDecade(n: int, d: int, t: int, k: int)
    requires 20 * Distance(n, t) <= d && k * d <= t
    ensures (20 * k - 1) * d <= 20 * n
  {
    var x := k * d;
    assert (20 * k - 1) * d == 20 * x - d;
  }

  /** A bound in a larger unit, in a smaller one. */
  lemma {:induction false} Finer(b: nat, f: int, h: nat, q: nat)
    requires b <= INF && h >= 1 && q * Unit(f + h) <= 20 * Scaled10(b, f + h)
    ensures 10 * q * Unit(f) <= 20 * Scaled10(b, f)
    decreases h
  {
    var g := f + h - 1;
    UnitStep(b, g);
    hide Unit, Scaled10;
    Times10(q, Unit(g));
    Assoc(10, q, Unit(g));
    if h > 1 {
      Assoc(10, q, Unit(f));
      Finer(b, f, h - 1, 10 * q);
      MulMono(10 * q, 10 * (10 * q), Unit(f));
    }
  }

  /** A tie with an even number goes to it. */
  lemma RoundAtEven(n: nat, d: nat, k: nat)
    requires d > 0 && (2 * k - 1) * d <= 2 * n && k % 2 == 0
    ensures RoundDiv(n, d, Nearest) >= k
  {
    RoundDivNearest(n, d, Nearest, k);
    var r := RoundDiv(n, d, Nearest);
    hide RoundDiv;
    if r < k {
      TwiceLess(k, d);
      NextMultiple(k - 1, d);
      MulMono(r, k - 1, d);
      if r < k - 1 { MulMono(r, k - 2, d); NextMultiple(k - 2, d); }
      TieOrNearer(n, d, r * d, k * d, r == k - 1);
    }
  }

  lemma TwiceLess(k: int, d: int)
    ensures (2 * k - 1) * d == 2 * (k * d) - d
  {
  }

  lemma TieOrNearer(n: int, d: int, low: int, high: int, next: bool)
    requires d > 0 && 2 * high - d <= 2 * n && low <= high - d && (next || low <= high - 2 * d)
    requires Distance(n, low) <= Distance(n, high)
    ensures next && Distance(n, low) == Distance(n, high)
  {
  }

  /** There is only one such mantissa, with only one exponent. */
  lemma {:induction false} RoundedOnce(b: nat, k: nat, m1: nat, f1: int, m2: nat, f2: int)
    requires b <= INF && k >= 1 && RoundedTo(b, k, m1, f1) && RoundedTo(b, k, m2, f2)
    ensures m1 == m2 && f1 == f2
  {
    if f1 < f2 {
      NoSmallerUnit(b, k, m1, f1, m2, f2);
    } else if f2 < f1 {
      NoSmallerUnit(b, k, m2, f2, m1, f1);
    }
  }

  lemma {:induction false} NoSmallerUnit(b: nat, k: nat, m1: nat, f1: int, m2: nat, f2: int)
    requires b <= INF && k >= 1 && RoundedTo(b, k, m1, f1) && RoundedTo(b, k, m2, f2)
    ensures f1 >= f2
  {
    if f1 < f2 {
      PowStep(10, k - 1);
      hide Pow, Scaled10, Unit, RoundDiv, LongEnough;
      LongInFiner(b, f1, f2 - f1, Pow(10, k - 1));
    }
  }

  /** What is long enough in a larger unit has another digit in a smaller one. */
  lemma {:induction false} LongInFiner(b: nat, f: int, h: nat, p: nat)
    requires b <= INF && h >= 1 && p >= 1 && LongEnough(Scaled10(b, f + h), Unit(f + h), p)
    ensures RoundDiv(Scaled10(b, f), Unit(f), Nearest) >= 10 * p
  {
    hide Scaled10, Unit, RoundDiv;
    var q := 20 * p - 1;
    Finer(b, f, h, q);
    HalfOfIt(p, Unit(f), Scaled10(b, f));
    RoundAtEven(Scaled10(b, f), Unit(f), 10 * p);
  }

  lemma HalfOfIt(p: nat, u: nat, w: nat)
    requires p >= 1 && 10 * (20 * p - 1) * u <= 20 * w
    ensures (2 * (10 * p) - 1) * u <= 2 * w
  {
    var t := p * u;
    assert 10 * (20 * p - 1) * u == 200 * t - 10 * u && (2 * (10 * p) - 1) * u == 20 * t - u;
  }

  // ---- the decimals that are read as a number ----

  /** What lies between the middles towards the neighbours, and on them when the number is even. */
  ghost predicate Inside(b: nat, x: nat, d: nat)
    requires 0 < b < INF
  {
    var v := V(b) * d;
    if x >= v then
      2 * (x - v) < (V(b + 1) - V(b)) * d || (2 * (x - v) == (V(b + 1) - V(b)) * d && b % 2 == 0)
    else
      2 * (v - x) < (V(b) - V(b - 1)) * d || (2 * (v - x) == (V(b) - V(b - 1)) * d && b % 2 == 0)
  }

  /** A fraction is nearest to a number exactly inside that interval. */
  lemma {:induction false} InsideIff(b: nat, x: nat, d: nat)
    requires 0 < b < INF && d > 0
    ensures Inside(b, x, d) <==> forall c: nat :: c <= INF ==> NoNearer(b, c, x, d)
  {
    VIncreases(b, b + 1);
    VIncreases(b - 1, b);
    GapsTimes(V(b - 1), V(b), V(b + 1), d);
    if forall c: nat :: c <= INF ==> NoNearer(b, c, x, d) {
      assert NoNearer(b, b + 1, x, d) && NoNearer(b, b - 1, x, d);
      hide V;
    }
    if Inside(b, x, d) {
      forall c: nat | c <= INF ensures NoNearer(b, c, x, d) { InsideNearer(b, c, x, d); }
    }
  }

  lemma GapsTimes(u: nat, v: nat, w: nat, d: nat)
    requires u < v < w && d > 0
    ensures u * d < v * d < w * d && (w - v) * d == w * d - v * d && (v - u) * d == v * d - u * d
  {
    MulStrict(u, v, d);
    MulStrict(v, w, d);
  }

  lemma {:induction false} InsideNearer(b: nat, c: nat, x: nat, d: nat)
    requires 0 < b < INF && d > 0 && Inside(b, x, d) && c <= INF
    ensures NoNearer(b, c, x, d)
  {
    VIncreases(b, b + 1);
    VIncreases(b - 1, b);
    GapsTimes(V(b - 1), V(b), V(b + 1), d);
    if c > b + 1 { VIncreases(b + 1, c); } else if c < b - 1 { VIncreases(c, b - 1); }
    hide V;
    if c > b { MulMono(V(b + 1), V(c), d); } else if c < b { MulMono(V(c), V(b - 1), d); }
  }
}
