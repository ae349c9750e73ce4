/** How short and how close the digits are that js_dtoa finds. */
module DtShortest {
  import opened DtArith
  import opened DtLimb
  import opened DtScale
  import opened DtDouble
  import opened DtDecimal
  import opened DtLog
  import opened DtSearch

  // ---- the nearest decimal ----

  /** How far `a * 10^g` is from the number, on the scale of `g`. */
  ghost function Off(b: nat, a: nat, g: int): nat
    requires b <= INF
  {
    Distance(Mul(a, Unit(g)), Scaled10(b, g))
  }

  /** `mant * 10^f` is no farther from the number than `a * 10^g`. */
  ghost predicate NoFarther(b: nat, mant: nat, f: int, a: nat, g: int)
    requires b <= INF
  {
    Mul(Off(b, mant, f), Den(0, 10, g)) <= Mul(Off(b, a, g), Den(0, 10, f))
  }

  /** Units and numbers on two scales. */
  lemma {:induction false} Aligned(b: nat, g: int, h: nat)
    requires b <= INF
    ensures Unit(g + h) * Den(0, 10, g) == Pow(10, h) * (Unit(g) * Den(0, 10, g + h))
    ensures Scaled10(b, g + h) * Den(0, 10, g) == Scaled10(b, g) * Den(0, 10, g + h)
  {
    UnitsAligned(g, h);
    hide Pow, Num, Den, Units, V, Unit;
    Swap(V(b), Den(0, 10, g + h), Den(0, 10, g));
  }

  lemma {:induction false} UnitsAligned(g: int, h: nat)
    ensures Unit(g + h) * Den(0, 10, g) == Pow(10, h) * (Unit(g) * Den(0, 10, g + h))
  {
    var j, d, d' := Pow(10, h), Den(0, 10, g), Den(0, 10, g + h);
    PaddedCross(1, g + h, h);
    NumLinear(j, g);
    hide Pow, Num, Den, Units;
    MulOne(j);
    UnitsCross(Num(j, 0, 10, g), d, Num(1, 0, 10, g + h), d');
    UnitIs(g);
    UnitIs(g + h);
    hide Unit;
    assert Mul(j, Unit(g)) == j * Unit(g);
    Assoc(j, Unit(g), d');
  }

  lemma UnitIs(f: int)
    ensures Unit(f) == Units(Num(1, 0, 10, f))
  {
  }

  lemma Swap(a: nat, x: nat, y: nat)
    ensures a * x * y == a * y * x
  {
    Assoc(a, x, y);
    Assoc(a, y, x);
  }

  /** No decimal with at most `k` digits is nearer to the number than the one it is rounded to. */
  lemma {:induction false} ClosestDecimal(b: nat, k: nat, mant: nat, f: int, a: nat, g: int)
    requires b <= INF && k >= 1 && RoundedTo(b, k, mant, f) && a < Pow(10, k)
    ensures NoFarther(b, mant, f, a, g)
  {
    var w, u, z, t, p, q := Scaled10(b, f), Unit(f), Scaled10(b, g), Unit(g), Den(0, 10, f), Den(0, 10, g);
    if g >= f {
      Aligned(b, f, g - f);
      hide Pow, Num, Den, Units, V, Unit, Scaled10, RoundDiv, LongEnough;
      RoundDivNearest(w, u, Nearest, a * Pow(10, g - f));
      OnGrid(w, u, p, z, t, q, mant, a, Pow(10, g - f));
    } else {
      Aligned(b, g, f - g);
      PowStep(10, k - 1);
      PowMono(10, 1, f - g);
      PowOne(10);
      hide Pow, Num, Den, Units, V, Unit, Scaled10, RoundDiv;
      RoundDivNearest(w, u, Nearest, Pow(10, k - 1));
      OffGrid(w, u, p, z, t, q, mant, a, Pow(10, f - g), Pow(10, k - 1));
    }
  }

  lemma OnGrid(w: nat, u: nat, p: nat, z: nat, t: nat, q: nat, mant: nat, a: nat, h: nat)
    requires t * p == h * (u * q) && z * p == w * q && Distance(w, mant * u) <= Distance(w, a * h * u)
    ensures Mul(Distance(Mul(mant, u), w), q) <= Mul(Distance(Mul(a, t), z), p)
  {
    Assoc(a, t, p);
    Assoc(a, h, u * q);
    Assoc(a * h, u, q);
    DistanceTimes(a * t, z, p);
    DistanceTimes(a * h * u, w, q);
    MulMono(Distance(w, mant * u), Distance(w, a * h * u), q);
  }

  lemma OffGrid(w: nat, u: nat, p: nat, z: nat, t: nat, q: nat, mant: nat, a: nat, h: nat, k: nat)
    requires u * q == h * (t * p) && w * q == z * p && h >= 10 && a < 10 * k
    requires LongEnough(w, u, k) && Distance(w, mant * u) <= Distance(w, k * u)
    ensures Mul(Distance(Mul(mant, u), w), q) <= Mul(Distance(Mul(a, t), z), p)
  {
    Below(u * q, t * p, a, h, k);
    Assoc(a, t, p);
    MulMono((20 * k - 1) * u, 20 * w, q);
    Assoc(20 * k - 1, u, q);
    Assoc(20, w, q);
    Assoc(k, u, q);
    TwiceTen(k, u * q);
    MulMono(Distance(w, mant * u), Distance(w, k * u), q);
    DistanceTimes(w, k * u, q);
    DistanceTimes(a * t, z, p);
    FartherInts(a * t * p, k * u * q, w * q, u * q);
  }

  /** Ten times the other decimal is at least a unit below the decade. */
  lemma Below(uq: nat, tp: nat, a: nat, h: nat, k: nat)
    requires uq == h * tp && h >= 10 && a < 10 * k
    ensures 10 * (a * tp) <= 10 * (k * uq) - uq
  {
    MulMono(a, 10 * k - 1, tp);
    MulMono(10, h, tp);
    MulMono(10 * tp, uq, 10 * k - 1);
    assert (10 * k - 1) * (10 * tp) == 10 * ((10 * k - 1) * tp);
    assert (10 * k - 1) * uq == 10 * (k * uq) - uq;
  }

  lemma TwiceTen(k: int, x: int)
    ensures (20 * k - 1) * x == 20 * (k * x) - x
  {
  }

  lemma FartherInts(y: int, k: int, w: int, u: int)
    requires 10 * y <= 10 * k - u && 20 * k - u <= 20 * w && u >= 0
    ensures Distance(w, k) <= Distance(y, w) && y <= w
  {
  }

  // ---- reading back ----

  /** Powers of two whose lower neighbour is only half as far as the upper one. */
  predicate Lopsided(b: nat) { b % P52 == 0 && b > P52 }

  lemma {:induction false} Gaps(b: nat)
    requires 0 < b < INF
    ensures V(b - 1) < V(b) < V(b + 1)
    ensures if Lopsided(b) then V(b + 1) - V(b) == 2 * (V(b) - V(b - 1)) && b % 2 == 0 else V(b + 1) - V(b) == V(b) - V(b - 1)
  {
    hide V;
    if b < P53 {
      VSmall(b - 1);
      VSmall(b);
      VSmall(b + 1);
    } else {
      var q, k := Binade(b);
      if q == P52 { GapsAtPower(k); } else { GapsWithin(q, k); }
    }
  }

  lemma Binade(b: nat) returns (q: nat, k: nat)
    requires b >= P53
    ensures b == q + k * P52 && P52 <= q < P53 && k >= 1 && (Lopsided(b) <==> q == P52) && b % 2 == q % 2
  {
    k := b / P52 - 1;
    q := P52 + b % P52;
    assert b == q + 2 * (k * 0x8_0000_0000_0000);
  }

  lemma {:induction false} GapsWithin(q: nat, k: nat)
    requires P52 < q < P53 && q + k * P52 < INF
    ensures var b := q + k * P52; V(b - 1) < V(b) < V(b + 1) && V(b + 1) - V(b) == V(b) - V(b - 1)
  {
    VBinade(q - 1, k);
    VBinade(q, k);
    VBinade(q + 1, k);
    hide Pow, V;
    NextMultiple(q, Pow(2, k));
    NextMultiple(q - 1, Pow(2, k));
  }

  lemma {:induction false} GapsAtPower(k: nat)
    requires k >= 1 && P52 + k * P52 < INF
    ensures var b := P52 + k * P52; V(b - 1) < V(b) < V(b + 1) && V(b + 1) - V(b) == 2 * (V(b) - V(b - 1))
  {
    VBinade(P52, k);
    VBinade(P52 + 1, k);
    VBinade(P53 - 1, k - 1);
    PowStep(2, k - 1);
    hide Pow, V;
    assert P53 - 1 + (k - 1) * P52 == P52 + k * P52 - 1;
  }

  lemma {:induction false} ReadsIff(b: nat, a: nat, g: int)
    requires 0 < b < INF
    ensures Reads(b, a, g) <==> Inside(b, Mul(a, Unit(g)), Den(0, 10, g))
  {
    NumLinear(a, g);
    InsideIff(b, Mul(a, Unit(g)), Den(0, 10, g));
    hide Num, Den, Inside, NoNearer, Mul;
  }

  /** Whatever is no farther is inside too, unless it lies below and the other one above. */
  lemma {:induction false} StaysInside(b: nat, x: nat, d: nat, y: nat, d': nat)
    requires 0 < b < INF && d > 0 && d' > 0 && Inside(b, y, d')
    requires Distance(x, V(b) * d) * d' <= Distance(y, V(b) * d') * d
    ensures Inside(b, x, d) || (Lopsided(b) && x < V(b) * d && y > V(b) * d')
  {
    Gaps(b);
    var low, high := V(b) - V(b - 1), V(b + 1) - V(b);
    var v, w := V(b) * d, V(b) * d';
    hide V, Lopsided;
    SmallRadius(Distance(x, v), d, Distance(y, w), d', if y >= w then high else low, if x >= v then high else low, b % 2 == 0);
  }

  lemma SmallRadius(a: nat, d: nat, a': nat, d': nat, g': nat, g: nat, even: bool)
    requires d > 0 && d' > 0 && a * d' <= a' * d && (2 * a' < g' * d' || (2 * a' == g' * d' && even))
    ensures g' <= g ==> 2 * a < g * d || (2 * a == g * d && even)
  {
    if g' <= g {
      MulMono(g', g, d);
      Assoc(2, a, d');
      Assoc(2, a', d);
      Swap(g', d', d);
      if 2 * a' < g' * d' { MulStrict(2 * a', g' * d', d); }
      if 2 * a > g' * d { MulStrict(g' * d, 2 * a, d'); }
      if 2 * a == g' * d && 2 * a' < g' * d' { assert 2 * a * d' == g' * d * d'; }
    }
  }

  /** If a decimal of at most `k` digits is read as the number, and the one it is rounded to is not, then that one lies below
      a power of two, and the next one above is read as the number too. */
  lemma {:induction false} FewerDigits(b: nat, k: nat, mant: nat, f: int, a: nat, g: int)
    requires 0 < b < INF && k >= 1 && RoundedTo(b, k, mant, f) && !Reads(b, mant, f)
    requires a < Pow(10, k) && Reads(b, a, g)
    ensures Lopsided(b) && Reads(b, mant + 1, f)
  {
    var x, d, y, d' := Mul(mant, Unit(f)), Den(0, 10, f), Mul(a, Unit(g)), Den(0, 10, g);
    ReadsIff(b, mant, f);
    ReadsIff(b, mant + 1, f);
    ReadsIff(b, a, g);
    ClosestDecimal(b, k, mant, f, a, g);
    assert Distance(x, V(b) * d) * d' <= Distance(y, V(b) * d') * d;
    hide Pow, V, Unit, Den, Inside, Lopsided, RoundedTo, Reads;
    StaysInside(b, x, d, y, d');
    NextIsNearer(b, k, mant, f, a, g);
    StaysInside(b, Mul(mant + 1, Unit(f)), d, y, d');
  }

  /** The next decimal lies between the number and every other one above it. */
  lemma {:induction false} NextIsNearer(b: nat, k: nat, mant: nat, f: int, a: nat, g: int)
    requires b <= INF && k >= 1 && RoundedTo(b, k, mant, f) && a < Pow(10, k)
    requires Mul(mant, Unit(f)) < Scaled10(b, f) && Mul(a, Unit(g)) > Scaled10(b, g)
    ensures Mul(mant + 1, Unit(f)) >= Scaled10(b, f)
    ensures Distance(Mul(mant + 1, Unit(f)), Scaled10(b, f)) * Den(0, 10, g) <= Distance(Mul(a, Unit(g)), Scaled10(b, g)) * Den(0, 10, f)
  {
    var w, u, z, t, p, q := Scaled10(b, f), Unit(f), Scaled10(b, g), Unit(g), Den(0, 10, f), Den(0, 10, g);
    RoundedFrom(w, u, mant);
    NextMultiple(mant, u);
    if g >= f {
      Aligned(b, f, g - f);
      hide Pow, Num, Den, Units, V, Unit, Scaled10, RoundDiv, LongEnough;
      NextOnGrid(w, u, p, z, t, q, mant, a, Pow(10, g - f));
    } else {
      Aligned(b, g, f - g);
      PowStep(10, k - 1);
      PowMono(10, 1, f - g);
      PowOne(10);
      hide Pow, Num, Den, Units, V, Unit, Scaled10, RoundDiv;
      NothingAbove(w, u, p, z, t, q, a, Pow(10, f - g), Pow(10, k - 1));
    }
  }

  lemma NextOnGrid(w: nat, u: nat, p: nat, z: nat, t: nat, q: nat, mant: nat, a: nat, h: nat)
    requires t * p == h * (u * q) && z * p == w * q && p > 0 && u > 0 && q > 0
    requires mant * u < w <= (mant + 1) * u && a * t > z
    ensures Distance(Mul(mant + 1, u), w) * q <= Distance(Mul(a, t), z) * p
  {
    Assoc(a, t, p);
    Assoc(a, h, u * q);
    Assoc(a * h, u, q);
    MulStrict(z, a * t, p);
    // w * q < a * h * u * q
    MulCancelStrict(w, a * h * u, q);
    MulCancelStrict(mant, a * h, u);
    MulMono(mant + 1, a * h, u);
    DistanceTimes(a * t, z, p);
    DistanceTimes(a * h * u, w, q);
    MulMono(Distance((mant + 1) * u, w), Distance(a * h * u, w), q);
  }

  lemma NothingAbove(w: nat, u: nat, p: nat, z: nat, t: nat, q: nat, a: nat, h: nat, k: nat)
    requires u * q == h * (t * p) && w * q == z * p && h >= 10 && a < 10 * k && p > 0
    requires LongEnough(w, u, k)
    ensures a * t <= z
  {
    Below(u * q, t * p, a, h, k);
    Assoc(a, t, p);
    MulMono((20 * k - 1) * u, 20 * w, q);
    Assoc(20 * k - 1, u, q);
    Assoc(20, w, q);
    TwiceTen(k, u * q);
    FartherInts(a * t * p, k * (u * q), w * q, u * q);
    MulCancel(a * t, z, p);
  }

  // ---- what the search finds ----

  /** No decimal with fewer than `p` digits is read as the number. */
  ghost predicate Shortest(b: nat, p: nat)
    requires p >= 1
  {
    forall a: nat, g: int :: a < Pow(10, p - 1) ==> !Reads(b, a, g)
  }

  /** Rounded to `k` digits the number is not read back, but with the next decimal above it is. */
  ghost predicate Skips(b: nat, k: nat)
    requires b <= INF && k >= 1
  {
    exists mant: nat, f: int :: RoundedTo(b, k, mant, f) && !Reads(b, mant, f) && Reads(b, mant + 1, f)
  }

  /** Some shorter decimal is passed over, because the search tries only the nearest one. */
  ghost predicate SkipsSome(b: nat)
    requires b <= INF
  {
    exists k :: 1 <= k < P_MAX && Skips(b, k)
  }

  /** js_dtoa finds the fewest digits exactly when it passes over no shorter decimal. */
  lemma {:induction false} ShortestIff(b: nat, mant: nat, p: nat, exp10: int)
    requires 0 < b < INF && Found(b, mant, p, exp10)
    ensures Shortest(b, p) <==> !SkipsSome(b)
  {
    hide Pow, RoundedTo, Reads, Lopsided;
    if !Shortest(b, p) {
      var a: nat, g: int :| a < Pow(10, p - 1) && Reads(b, a, g);
      ShorterIsSkipped(b, p, a, g);
    }
    if SkipsSome(b) {
      var k :| 1 <= k < P_MAX && Skips(b, k);
      if k >= p {
        assert ReadsAt(b, k);
        NotBoth(b, k);
      } else {
        SkippedIsShorter(b, p, k);
      }
    }
  }

  lemma {:induction false} ShorterIsSkipped(b: nat, p: nat, a: nat, g: int)
    requires 0 < b < INF && 1 <= p <= P_MAX && (p > 1 ==> FailsAt(b, p - 1)) && a < Pow(10, p - 1) && Reads(b, a, g)
    ensures SkipsSome(b)
  {
    if p == 1 {
      PowOne(10);
      NothingReads(b, a, g);
    } else {
      hide Pow, RoundedTo, Reads, Lopsided;
      var mant: nat, f: int :| RoundedTo(b, p - 1, mant, f) && !Reads(b, mant, f);
      FewerDigits(b, p - 1, mant, f, a, g);
      assert Skips(b, p - 1);
    }
  }

  /** Zero is read as zero. */
  lemma {:induction false} NothingReads(b: nat, a: nat, g: int)
    requires 0 < b < INF && a == 0
    ensures !Reads(b, a, g)
  {
    ReadsIff(b, a, g);
    Gaps(b);
    hide Reads, Unit, Den, Lopsided;
    if b == 1 { VSmall(0); } else { VIncreases(0, b - 1); }
    hide V;
    FarFromZero(V(b), V(b - 1), Den(0, 10, g), Unit(g), b);
  }

  lemma FarFromZero(v: nat, u: nat, d: nat, t: nat, b: nat)
    requires u < v && d > 0 && (b == 1 ==> u == 0) && (b > 1 ==> u > 0)
    ensures Mul(0, t) == 0 && 0 < v * d && (2 * (v * d) < (v - u) * d || 2 * (v * d) == (v - u) * d ==> false)
  {
    MulStrict(0, v, d);
    MulMono(v - u, v, d);
  }

  lemma {:induction false} NotBoth(b: nat, k: nat)
    requires b <= INF && k >= 1 && ReadsAt(b, k)
    ensures !Skips(b, k)
  {
    hide RoundedTo, Reads;
    if Skips(b, k) {
      var m1: nat, f1: int :| RoundedTo(b, k, m1, f1) && Reads(b, m1, f1);
      var m2: nat, f2: int :| RoundedTo(b, k, m2, f2) && !Reads(b, m2, f2);
      RoundedOnce(b, k, m1, f1, m2, f2);
    }
  }

  lemma {:induction false} SkippedIsShorter(b: nat, p: nat, k: nat)
    requires 0 < b < INF && 1 <= k < p && Skips(b, k)
    ensures !Shortest(b, p)
  {
    hide RoundedTo, Reads, Pow;
    var mant: nat, f: int :| RoundedTo(b, k, mant, f) && !Reads(b, mant, f) && Reads(b, mant + 1, f);
    RoundedBounds(b, k, mant, f);
    PowMono(10, k, p - 1);
    if mant + 1 == Pow(10, k) {
      OneDigitReads(b, k, f);
      PowStrict(10, 0, k);
      PowOne(10);
      assert Reads(b, 1, f + k);
    }
  }

  lemma {:induction false} OneDigitReads(b: nat, k: nat, f: int)
    requires Reads(b, Pow(10, k), f)
    ensures Reads(b, 1, f + k)
  {
    PaddedCross(1, f + k, k);
    hide Pow, NearestTo, Num, Den;
    MulOne(Pow(10, k));
    NearestSame(b, Num(Pow(10, k), 0, 10, f), Den(0, 10, f), Num(1, 0, 10, f + k), Den(0, 10, f + k));
  }

  /** That happens to powers of two only. */
  lemma {:induction false} SkipsLopsided(b: nat)
    requires 0 < b < INF && SkipsSome(b)
    ensures Lopsided(b)
  {
    hide RoundedTo, Reads, Pow, Lopsided;
    var k :| 1 <= k < P_MAX && Skips(b, k);
    var mant: nat, f: int :| RoundedTo(b, k, mant, f) && !Reads(b, mant, f) && Reads(b, mant + 1, f);
    RoundedBounds(b, k, mant, f);
    if mant + 1 == Pow(10, k) {
      OneDigitReads(b, k, f);
      PowStrict(10, 0, k);
      PowOne(10);
      FewerDigits(b, k, mant, f, 1, f + k);
    } else {
      FewerDigits(b, k, mant, f, mant + 1, f);
    }
  }

  /** And no decimal with as many digits is nearer to the number. */
  lemma {:induction false} FoundIsClosest(b: nat, mant: nat, p: nat, exp10: int, a: nat, g: int)
    requires 0 < b < INF && Found(b, mant, p, exp10) && a < Pow(10, p)
    ensures NoFarther(b, mant, exp10 - p, a, g)
  {
    hide Pow, RoundedTo, Reads, NoFarther;
    ClosestDecimal(b, p, mant, exp10 - p, a, g);
  }

  // ---- a number that is not printed shortest ----

  /** 2^-44 */
  const EXAMPLE := 0x3d30_0000_0000_0000

  /** Rounded to 16 digits it is 5684341886080801 * 10^-29, which is read as another number; 5684341886080802 * 10^-29 is
      read as 2^-44. js_dtoa prints 17 digits. */
  lemma {:induction false} SkippedExample(mant: nat, p: nat, exp10: int)
    requires Found(EXAMPLE, mant, p, exp10)
    ensures Reads(EXAMPLE, 5684341886080802, -29) && !Shortest(EXAMPLE, p) && p == P_MAX
  {
    ExampleDecimals();
    hide Pow, RoundedTo, Reads, Lopsided;
    var k := 16;
    assert Skips(EXAMPLE, k);
    assert SkipsSome(EXAMPLE);
    ShortestIff(EXAMPLE, mant, p, exp10);
    if p < P_MAX {
      assert ReadsAt(EXAMPLE, k);
      NotBoth(EXAMPLE, k);
    }
  }

  lemma {:induction false} ExampleDecimals()
    ensures RoundedTo(EXAMPLE, 16, 5684341886080801, -29)
    ensures !Reads(EXAMPLE, 5684341886080801, -29) && Reads(EXAMPLE, 5684341886080801 + 1, -29)
  {
    var b, t := EXAMPLE, Pow(2, 977);
    ExampleParts();
    ReadsIff(b, 5684341886080801, -29);
    ReadsIff(b, 5684341886080802, -29);
    Gaps(b);
    hide V, Unit, Reads, Pow, Den, RoundDiv, Lopsided;
    assert Lopsided(b) by { ExampleLopsided(); }
    ExampleInside(t);
    TenTo16();
    PowStep(10, 15);
    ExampleRounds(b, t);
  }

  lemma ExampleLopsided()
    ensures Lopsided(EXAMPLE)
  {
  }

  lemma {:induction false} ExampleParts()
    ensures var t := Pow(2, 977);
            && V(EXAMPLE) == 0x20_0000_0000_0000 * t && V(EXAMPLE + 1) == 0x20_0000_0000_0002 * t
            && Unit(-29) == 0x2_0000_0000_0000_0000_0000_0000 * t && Den(0, 10, -29) == 1_0000_0000_0000_0000_0000_0000_0000_0
  {
    ExampleNumber();
    ExampleUnit();
  }

  lemma {:induction false} ExampleNumber()
    ensures var t := Pow(2, 977); V(EXAMPLE) == 0x20_0000_0000_0000 * t && V(EXAMPLE + 1) == 0x20_0000_0000_0002 * t
  {
    VBinade(P52, 978);
    VBinade(P52 + 1, 978);
    PowStep(2, 977);
    hide Pow, V;
    assert EXAMPLE == P52 + 978 * P52;
  }

  lemma {:induction false} ExampleUnit()
    ensures Unit(-29) == 0x2_0000_0000_0000_0000_0000_0000 * Pow(2, 977) && Den(0, 10, -29) == 1_0000_0000_0000_0000_0000_0000_0000_0
  {
    UnitNegative(29);
    Ten29();
    Two97();
    hide Pow, Unit, Den;
    PowAdd(2, 97, 977);
  }

  lemma {:induction false} UnitNegative(f: int)
    requires f >= 0
    ensures Unit(-f) == Pow(2, 1074) && Den(0, 10, -f) == Pow(10, f)
  {
    PowOne(2);
    PowOne(10);
    hide Pow, Mul;
    MulOne(1);
    MulOne(Pow(10, f));
    MulOne(Pow(2, 1074));
  }

  lemma {:induction false} Two97()
    ensures Pow(2, 97) == 0x2_0000_0000_0000_0000_0000_0000
  {
    PowOne(2);
    Powers52();
    TwoTo32();
    hide Pow;
    PowAdd(2, 64, 33);
    PowAdd(2, 32, 1);
  }

  lemma {:induction false} Ten29()
    ensures Pow(10, 29) == 1_0000_0000_0000_0000_0000_0000_0000_0
  {
    assert Pow(10, 8) == 1_0000_0000 && Pow(10, 5) == 1_0000_0;
    hide Pow;
    PowAdd(10, 8, 8);
    PowAdd(10, 16, 8);
    PowAdd(10, 24, 5);
  }

  lemma {:induction false} ExampleRounds(b: nat, t: nat)
    requires b == EXAMPLE && t > 0 && Unit(-29) == 0x2_0000_0000_0000_0000_0000_0000 * t
    requires Scaled10(b, -29) == 0x20_0000_0000_0000 * t * 1_0000_0000_0000_0000_0000_0000_0000_0
    requires Pow(10, 16) == 1_0000_0000_0000_0000 && Pow(10, 16) == 10 * Pow(10, 15)
    ensures RoundedTo(b, 16, 5684341886080801, -29)
  {
    hide Unit, Scaled10, RoundDiv, Pow;
    var u := 0x1000_0000_0000 * (0x20_0000_0000_0000 * t);
    RoundDivScale(1_0000_0000_0000_0000_0000_0000_0000_0, 0x1000_0000_0000, 0x20_0000_0000_0000 * t, Nearest);
    RoundDivParts(1_0000_0000_0000_0000_0000_0000_0000_0, 0x1000_0000_0000, 5684341886080801, 8566849142784, Nearest);
  }

  lemma {:induction false} ExampleInside(t: nat)
    requires t > 0 && V(EXAMPLE) == 0x20_0000_0000_0000 * t && V(EXAMPLE + 1) == 0x20_0000_0000_0002 * t
    requires Lopsided(EXAMPLE) && V(EXAMPLE + 1) - V(EXAMPLE) == 2 * (V(EXAMPLE) - V(EXAMPLE - 1))
    requires Unit(-29) == 0x2_0000_0000_0000_0000_0000_0000 * t && Den(0, 10, -29) == 1_0000_0000_0000_0000_0000_0000_0000_0
    ensures !Inside(EXAMPLE, Mul(5684341886080801, Unit(-29)), Den(0, 10, -29))
    ensures Inside(EXAMPLE, Mul(5684341886080802, Unit(-29)), Den(0, 10, -29))
  {
    hide V, Unit, Den, Lopsided;
  }
}
