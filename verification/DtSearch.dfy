/** The search of the free format for the fewest digits that read back as the same number, in radix 10. */
module DtSearch {
  import opened DtArith
  import opened DtLimb
  import opened DtBig
  import opened DtPow
  import opened DtScale
  import opened DtDouble
  import opened DtLog
  import opened DtDecimal

  /** Digits that are always enough (dtoa_max_digits_table for radix 10). */
  const P_MAX := 17

  lemma RadixTen()
    ensures Radix(5, 1) == 10
  {
    PowOne(2);
  }

  // ---- the neighbours of a number ----

  /** Every other number is at least a 2^53rd part of `V(b)` away. */
  lemma {:induction false} GapBound(b: nat, c: nat)
    requires 0 < b < INF && c <= INF && b != c
    ensures V(b) <= P53 * Distance(V(b), V(c))
  {
    if c > b {
      if c > b + 1 { VIncreases(b + 1, c); }
      GapUp(b);
    } else {
      if c < b - 1 { VIncreases(c, b - 1); }
      GapDown(b);
    }
  }

  lemma {:induction false} GapUp(b: nat)
    requires b < INF
    ensures V(b) < V(b + 1) && V(b) <= P53 * (V(b + 1) - V(b))
  {
    VIncreases(b, b + 1);
    if b + 1 <= P53 {
      VSmall(b);
      VSmall(b + 1);
    } else {
      var k := b / P52 - 1;
      var q := b - k * P52;
      VBinade(q, k);
      VBinade(q + 1, k);
      Gap(q, Pow(2, k));
    }
  }

  lemma Gap(q: nat, u: nat)
    requires q <= P53
    ensures (q + 1) * u - q * u == u && q * u <= P53 * u
  {
    MulMono(q, P53, u);
  }

  lemma {:induction false} GapDown(b: nat)
    requires 0 < b <= INF
    ensures V(b - 1) < V(b) && V(b) <= P53 * (V(b) - V(b - 1))
  {
    VIncreases(b - 1, b);
    if b <= P53 {
      VSmall(b);
      VSmall(b - 1);
    } else {
      var k := (b - 1) / P52 - 1;
      var q := b - k * P52;
      VBinade(q, k);
      VBinade(q - 1, k);
      Gap(q - 1, Pow(2, k));
      MulMono(q, P53, Pow(2, k));
    }
  }

  /** A decimal within half a unit of its last digit of `V(b)` reads back as `b` when that unit is small enough. `x / d` is
      the decimal in units of 2^-1074, and `k / d` the unit of its last digit. */
  lemma {:induction false} CloseEnough(b: nat, x: nat, d: nat, k: nat, c: nat)
    requires 0 < b < INF && c <= INF && d > 0
    requires 2 * Distance(x, V(b) * d) <= k
    requires (20 * Pow(10, 16) - 1) * k <= 20 * (V(b) * d)
    ensures NoNearer(b, c, x, d)
  {
    if c != b {
      GapBound(b, c);
      if b < c { VIncreases(b, c); } else { VIncreases(c, b); }
      TenTo16();
      hide V, Pow;
      GapTimes(V(b), V(c), d);
      CloseInts(x, V(b) * d, V(c) * d, Distance(V(b), V(c)) * d, k);
    }
  }

  lemma {:induction false} TenTo16()
    ensures Pow(10, 16) == 1_0000_0000_0000_0000 && Pow(10, 17) == 10_0000_0000_0000_0000
  {
    assert Pow(10, 8) == 1_0000_0000;
    hide Pow;
    PowAdd(10, 8, 8);
    PowStep(10, 16);
  }

  lemma GapTimes(v: nat, w: nat, d: nat)
    requires v != w && d > 0 && v <= P53 * Distance(v, w)
    ensures v * d <= P53 * (Distance(v, w) * d) && Distance(v * d, w * d) == Distance(v, w) * d > 0
  {
    var g := Distance(v, w);
    MulMono(v, P53 * g, d);
    Assoc(P53, g, d);
    MulStrict(0, g, d);
    if v < w { assert (v + g) * d == v * d + g * d; } else { assert (w + g) * d == w * d + g * d; }
  }

  lemma CloseInts(x: int, v: int, w: int, g: int, k: int)
    requires 2 * Distance(x, v) <= k && (20 * 1_0000_0000_0000_0000 - 1) * k <= 20 * v && v <= P53 * g
    requires g == Distance(v, w) > 0
    ensures Distance(x, v) < Distance(x, w)
  {
  }

  // ---- the first try ----

  /** `v` units of 2^-1074 are `m * 2^(e - 53)`. */
  ghost predicate SameValue(v: nat, m: nat, e: int) {
    Mul(v, Pow(2, Pos(53 - e))) == Mul(m, Pow(2, Pos(e - 53) + 1074))
  }

  /** The digit string, the number and the unit of the last digit on a common scale. */
  lemma {:induction false} ScaleIdentity(v: nat, m: nat, e: int, f: int)
    requires SameValue(v, m, e)
    ensures Mul(Mul(v, Den(0, 10, -f)), Den(e - 53, 10, f)) == Mul(Num(m, e - 53, 10, f), Units(Num(1, 0, 10, -f)))
  {
    PowOne(2);
    PowOne(10);
    hide Pow, Mul;
    var p, a, b := Pow(10, Abs(f)), Pow(2, Pos(53 - e)), Pow(2, Pos(e - 53));
    MulOne(1);
    MulOne(p);
    MulOne(a);
    MulOne(v);
    MulOne(Mul(m, b));
    MulOne(Pow(2, 1074));
    PowMul(2, Pos(e - 53), 1074);
    MulAssoc(m, b, Pow(2, 1074));
    // both sides are p * (v * a)
    if f >= 0 {
      MulAssoc(v, p, a);
      MulComm(p, a);
      MulAssoc(v, a, p);
      MulAssoc(Mul(m, b), p, Pow(2, 1074));
      MulComm(p, Pow(2, 1074));
      MulAssoc(Mul(m, b), Pow(2, 1074), p);
    } else {
      MulAssoc(v, a, p);
      MulComm(p, Pow(2, 1074));
      MulAssoc(Mul(m, b), Pow(2, 1074), p);
    }
  }

  /** The mantissa of P_MAX digits reads back as the number, which the search does not check. */
  lemma {:induction false} FirstTryWorks(b: nat, m: nat, e: int, f: int, r: nat)
    requires 0 < b < INF && SameValue(V(b), m, e)
    requires LongEnough(Num(m, e - 53, 10, f), Den(e - 53, 10, f), Pow(10, 16))
    requires r == RoundDiv(Num(m, e - 53, 10, f), Den(e - 53, 10, f), Nearest)
    ensures NearestTo(b, Num(r, 0, 10, -f), Den(0, 10, -f))
  {
    var n, d := Num(m, e - 53, 10, f), Den(e - 53, 10, f);
    var l, k := Den(0, 10, -f), Units(Num(1, 0, 10, -f));
    var x := Units(Num(r, 0, 10, -f));
    ScaleIdentity(V(b), m, e, f);
    NumLinear(r, -f);
    RoundedFrom(n, d, r);
    TenTo16();
    hide Pow, V, Num, Den, Units, RoundDiv, NoNearer;
    FirstTryInts(V(b), n, d, l, k, r, x, Pow(10, 16));
    forall c: nat | c <= INF ensures NoNearer(b, c, x, l) {
      CloseEnough(b, x, l, k, c);
    }
  }

  lemma {:induction false} FirstTryInts(v: nat, n: nat, d: nat, l: nat, k: nat, r: nat, x: nat, p: nat)
    requires Mul(Mul(v, l), d) == Mul(n, k) && x == Mul(r, k) && d > 0 && p > 0
    requires 2 * Distance(n, r * d) <= d && (20 * p - 1) * d <= 20 * n
    ensures 2 * Distance(x, v * l) <= k && (20 * p - 1) * k <= 20 * (v * l)
  {
    var w, q := v * l, 20 * p - 1;
    assert w * d == n * k && x == r * k;
    DistanceTimes(n, r * d, k);
    assert r * d * k == x * d by { Assoc(r, d, k); Assoc(r, k, d); assert d * k == k * d; }
    assert Distance(w * d, x * d) == Distance(n, r * d) * k;
    DistanceTimes(w, x, d);
    MulMono(2 * Distance(n, r * d), d, k);
    Assoc(2, Distance(n, r * d), k);
    Assoc(2, Distance(w, x), d);
    assert d * k == k * d;
    MulCancel(2 * Distance(w, x), k, d);
    MulMono(q * d, 20 * n, k);
    Assoc(q, d, k);
    Assoc(q, k, d);
    Assoc(20, n, k);
    Assoc(20, w, d);
    MulCancel(q * k, 20 * w, d);
  }

  // ---- the decimal exponent ----

  /** Mantissa and exponent as js_dtoa normalizes them. */
  predicate NormalForm(m: nat, e: int) { P52 <= m < P53 && -1073 <= e <= 1024 }

  function FirstExponent(e: int): int { 1 + MulLog2Radix(e - 1) }

  lemma {:induction false} MulMonoM(a: nat, b: nat, c: nat)
    requires a <= b
    ensures Mul(a, c) <= Mul(b, c)
    ensures a < b && c > 0 ==> Mul(a, c) < Mul(b, c)
  {
    MulMono(a, b, c);
    if a < b && c > 0 { MulStrict(a, b, c); }
  }

  /** `10^t <= 2^a`, on whichever side of the fraction the powers stand. */
  ghost predicate TenAtMost(t: int, a: int) {
    Mul(Pow(10, Pos(t)), Pow(2, Pos(-a))) <= Mul(Pow(2, Pos(a)), Pow(10, Pos(-t)))
  }

  ghost predicate TwoBelow(a: int, t: int) {
    Mul(Pow(2, Pos(a)), Pow(10, Pos(-t))) < Mul(Pow(10, Pos(t)), Pow(2, Pos(-a)))
  }

  lemma {:induction false} ExponentExact(e: int)
    requires -1073 <= e <= 1024
    ensures TenAtMost(FirstExponent(e) - 1, e - 1) && TwoBelow(e - 1, FirstExponent(e))
  {
    hide Pow, Mul, MulLog2Radix, FirstExponent;
    First(e);
    LogExact(e - 1);
    var a, t := e - 1, MulLog2Radix(e - 1);
    OneSide(2, a);
    OneSide(10, t);
    OneSide(10, t + 1);
  }

  /** One of the two powers is 1. */
  lemma {:induction false} OneSide(b: nat, a: int)
    ensures Pow(b, 0) == 1 && forall x: nat :: Mul(x, Pow(b, 0)) == x && Mul(Pow(b, 0), x) == x
    ensures a >= 0 ==> Pos(-a) == 0
    ensures a <= 0 ==> Pos(a) == 0
  {
    PowOne(b);
    forall x: nat ensures Mul(x, 1) == x && Mul(1, x) == x { MulOne(x); }
  }

  /** `10^k * Den` on the scale of the powers themselves. */
  lemma {:induction false} DenTimes(e: int, f: int, k: nat, t: int)
    requires f == k - t
    ensures Mul(Pow(10, k), Mul(Den(e - 53, 10, f), Mul(Pow(2, Pos(e - 1)), Pow(10, Pos(-t)))))
         == Mul(Mul(Pow(10, Pos(t)), Pow(2, Pos(-(e - 1)))), Mul(Pow(2, 52 + Pos(e - 53)), Pow(10, Pos(f))))
  {
    hide Pow, Mul;
    var i, j := Pos(53 - e), Pos(e - 1);
    var u, v := Pos(-f), Pos(-t);
    // left: 2^(i + j) * 10^(k + u + v)
    MulQuad(Pow(2, i), Pow(10, u), Pow(2, j), Pow(10, v));
    PowMul(2, i, j);
    PowMul(10, u, v);
    var two := Pow(2, i + j);
    MulComm(two, Pow(10, u + v));
    MulAssoc(Pow(10, k), Pow(10, u + v), two);
    PowMul(10, k, u + v);
    // right: 10^(t + f) * 2^(...)
    var x, y := Pos(-(e - 1)), 52 + Pos(e - 53);
    MulComm(Pow(2, y), Pow(10, Pos(f)));
    MulQuad(Pow(10, Pos(t)), Pow(2, x), Pow(10, Pos(f)), Pow(2, y));
    PowMul(10, Pos(t), Pos(f));
    PowMul(2, x, y);
    assert k + (u + v) == Pos(t) + Pos(f);
    assert i + j == x + y;
  }

  /** The number, scaled to `p` digits by the first exponent, has at least `p` digits. */
  lemma {:induction false} AtLeastDigits(m: nat, e: int, p: nat)
    requires NormalForm(m, e) && p >= 1
    ensures var f := p - FirstExponent(e);
            Mul(Pow(10, p - 1), Den(e - 53, 10, f)) <= Num(m, e - 53, 10, f)
  {
    hide Pow, Mul, Den, FirstExponent;
    var t := FirstExponent(e) - 1;
    var f := p - 1 - t;
    ExponentExact(e);
    DenTimes(e, f, p - 1, t);
    Powers52();
    var c, d := Mul(Pow(2, Pos(e - 1)), Pow(10, Pos(-t))), Den(e - 53, 10, f);
    var g := Mul(Pow(2, 52 + Pos(e - 53)), Pow(10, Pos(f)));
    MulMonoM(Mul(Pow(10, Pos(t)), Pow(2, Pos(-(e - 1)))), c, g);
    MulAssoc(Pow(10, p - 1), d, c);
    MulComm(c, g);
    // 10^(p-1) * d * c <= g * c
    CancelM(Mul(Pow(10, p - 1), d), g, c);
    PowMul(2, 52, Pos(e - 53));
    MulMonoM(P52, m, Pow(2, Pos(e - 53)));
    MulMonoM(Mul(P52, Pow(2, Pos(e - 53))), Mul(m, Pow(2, Pos(e - 53))), Pow(10, Pos(f)));
  }

  lemma {:induction false} CancelM(a: nat, b: nat, c: nat)
    requires c > 0
    ensures Mul(a, c) <= Mul(b, c) ==> a <= b
    ensures Mul(a, c) < Mul(b, c) ==> a < b
  {
    if Mul(a, c) <= Mul(b, c) { MulCancel(a, b, c); }
    if Mul(a, c) < Mul(b, c) { MulCancelStrict(a, b, c); }
  }

  /** And less than twice the first number with one digit more. */
  lemma {:induction false} BelowTwice(m: nat, e: int, p: nat)
    requires NormalForm(m, e)
    ensures var f := p - FirstExponent(e);
            Num(m, e - 53, 10, f) < 2 * Mul(Pow(10, p), Den(e - 53, 10, f))
  {
    hide Pow, Mul, Den, FirstExponent;
    var t := FirstExponent(e);
    var f := p - t;
    ExponentExact(e);
    DenTimes(e, f, p, t);
    Powers52();
    PowStep(2, 52);
    var c, d := Mul(Pow(2, Pos(e - 1)), Pow(10, Pos(-t))), Den(e - 53, 10, f);
    var g := Mul(Pow(2, 52 + Pos(e - 53)), Pow(10, Pos(f)));
    MulMonoM(c, Mul(Pow(10, Pos(t)), Pow(2, Pos(-(e - 1)))), g);
    MulAssoc(Pow(10, p), d, c);
    MulComm(c, g);
    CancelM(g, Mul(Pow(10, p), d), c);
    PowMul(2, 52, Pos(e - 53));
    MulMonoM(m, 2 * P52, Pow(2, Pos(e - 53)));
    MulMonoM(Mul(m, Pow(2, Pos(e - 53))), Mul(2 * P52, Pow(2, Pos(e - 53))), Pow(10, Pos(f)));
    DoubleM(P52, Pow(2, Pos(e - 53)), Pow(10, Pos(f)));
  }

  lemma {:induction false} DoubleM(a: nat, b: nat, c: nat)
    ensures Mul(Mul(2 * a, b), c) == 2 * Mul(Mul(a, b), c)
  {
    Assoc(2, a, b);
    Assoc(2, a * b, c);
  }

  /** One decimal exponent more is a tenth. */
  lemma {:induction false} NextExponent(m: nat, e: int, f: int)
    ensures Mul(10, Mul(Num(m, e, 10, f - 1), Den(e, 10, f))) == Mul(Num(m, e, 10, f), Den(e, 10, f - 1))
  {
    PowOne(10);
    hide Pow, Mul;
    var a, b := Mul(m, Pow(2, Pos(e))), Pow(2, Pos(-e));
    MulOne(a);
    MulOne(b);
    MulQuad(a, Pow(10, Pos(f - 1)), b, Pow(10, Pos(-f)));
    MulQuad(a, Pow(10, Pos(f)), b, Pow(10, Pos(-(f - 1))));
    var c := Mul(a, b);
    PowMul(10, Pos(f - 1), Pos(-f));
    PowMul(10, Pos(f), Pos(-(f - 1)));
    var i := Pos(f - 1) + Pos(-f);
    assert Pos(f) + Pos(-(f - 1)) == i + 1;
    PowMul(10, 1, i);
    MulComm(10, Mul(c, Pow(10, i)));
    MulAssoc(c, Pow(10, i), 10);
    MulComm(Pow(10, i), 10);
  }

  // ---- the mantissa for a number of digits ----

  /** The number times `10^f` has a mantissa of `p` digits. */
  ghost predicate Mantissa(m: nat, e: int, f: int, p: nat, mant: nat)
    requires p >= 1
  {
    && mant == RoundDiv(Num(m, e - 53, 10, f), Den(e - 53, 10, f), Nearest)
    && Pow(10, p - 1) <= mant < Pow(10, p)
    && LongEnough(Num(m, e - 53, 10, f), Den(e - 53, 10, f), Pow(10, p - 1))
  }

  /** With the first exponent the mantissa is long enough, and below twice its bound. */
  lemma {:induction false} FirstMantissa(m: nat, e: int, p: nat, mant: nat)
    requires NormalForm(m, e) && p >= 1
    requires var f := p - FirstExponent(e); mant == RoundDiv(Num(m, e - 53, 10, f), Den(e - 53, 10, f), Nearest)
    ensures mant <= 2 * Pow(10, p)
    ensures mant < Pow(10, p) ==> Mantissa(m, e, p - FirstExponent(e), p, mant)
  {
    var f := p - FirstExponent(e);
    AtLeastDigits(m, e, p);
    BelowTwice(m, e, p);
    hide Pow, Num, Den, RoundDiv, FirstExponent;
    FirstInts(Num(m, e - 53, 10, f), Den(e - 53, 10, f), Pow(10, p - 1), Pow(10, p));
  }

  lemma {:induction false} FirstInts(n: nat, d: nat, k: nat, l: nat)
    requires d > 0 && Mul(k, d) <= n < 2 * Mul(l, d)
    ensures k <= RoundDiv(n, d, Nearest) <= 2 * l && LongEnough(n, d, k)
  {
    hide RoundDiv;
    assert (2 * k - 1) * d == 2 * (k * d) - d && (20 * k - 1) * d == 20 * (k * d) - d && 2 * l * d == 2 * (l * d);
    RoundAtLeast(n, d, k);
    RoundAtMost(n, d, 2 * l);
  }

  /** When it is too long, one decimal exponent more makes it fit. */
  lemma {:induction false} SecondMantissa(m: nat, e: int, p: nat, first: nat, mant: nat)
    requires NormalForm(m, e) && p >= 1 && first >= Pow(10, p)
    requires var f := p - FirstExponent(e); first == RoundDiv(Num(m, e - 53, 10, f), Den(e - 53, 10, f), Nearest)
    requires var f := p - FirstExponent(e) - 1; mant == RoundDiv(Num(m, e - 53, 10, f), Den(e - 53, 10, f), Nearest)
    ensures Mantissa(m, e, p - FirstExponent(e) - 1, p, mant)
  {
    var f := p - FirstExponent(e);
    BelowTwice(m, e, p);
    NextExponent(m, e - 53, f);
    PowStep(10, p - 1);
    RoundedFrom(Num(m, e - 53, 10, f), Den(e - 53, 10, f), first);
    hide Pow, Num, Den, RoundDiv, FirstExponent;
    SecondInts(Num(m, e - 53, 10, f), Den(e - 53, 10, f), Num(m, e - 53, 10, f - 1), Den(e - 53, 10, f - 1), first, Pow(10, p - 1));
  }

  lemma {:induction false} SecondInts(n: nat, d: nat, n': nat, d': nat, first: nat, k: nat)
    requires d > 0 && d' > 0 && k > 0 && n < 2 * Mul(10 * k, d) && Mul(10, Mul(n', d)) == Mul(n, d')
    requires 2 * Distance(n, first * d) <= d && first >= 10 * k
    ensures k <= RoundDiv(n', d', Nearest) < 10 * k && LongEnough(n', d', k)
  {
    hide RoundDiv;
    assert 10 * (n' * d) == n * d';
    MulMono(10 * k, first, d);
    assert (20 * k - 1) * d == 2 * (10 * k * d) - d;
    // (20k - 1) * d <= 2n
    MulMono((20 * k - 1) * d, 2 * n, d');
    ScaledDown2(n', d, d', n, k);
    // n < 20k * d
    assert 2 * (10 * k * d) == 20 * k * d;
    MulMono(n, 20 * k * d, d');
    UpperDown(n', d, d', n, k);
    assert (2 * k - 1) * d' == 2 * (k * d') - d' && (20 * k - 1) * d' == 20 * (k * d') - d';
    RoundAtLeast(n', d', k);
    RoundAtMost(n', d', 2 * k);
  }

  lemma ScaledDown2(n': int, d: int, d': int, n: int, k: int)
    requires d > 0 && 10 * (n' * d) == n * d' && (20 * k - 1) * d * d' <= 2 * n * d'
    ensures (20 * k - 1) * d' <= 20 * n'
  {
    var q := 20 * k - 1;
    Assoc(q, d, d');
    Assoc(q, d', d);
    assert d * d' == d' * d;
    Assoc(2, n, d');
    Assoc(20, n', d);
    MulCancel(q * d', 20 * n', d);
  }

  lemma UpperDown(n': int, d: int, d': int, n: int, k: int)
    requires d > 0 && 10 * (n' * d) == n * d' && n * d' <= 20 * k * d * d'
    ensures n' <= 2 * k * d'
  {
    Assoc(20 * k, d, d');
    assert d * d' == d' * d;
    Assoc(20 * k, d', d);
    assert 20 * k * d' == 10 * (2 * k * d') by { Assoc(10, 2 * k, d'); }
    Assoc(10, n', d);
    MulCancel(10 * n', 20 * k * d', d);
  }

  // ---- room ----

  lemma FirstExponentBounds(e: int)
    requires -1073 <= e <= 1024
    ensures -323 <= FirstExponent(e) <= 308 + 1
    ensures FirstExponent(e) <= 17 ==> e <= 60
    ensures 3 * FirstExponent(e) <= e + 3 || e <= 0
    ensures 5050445 * (e - 1) < 0x100_0000 * FirstExponent(e)
  {
  }

  lemma {:induction false} FivePower(m: nat, f: nat)
    requires m < U64
    ensures m * Pow(5, f) < Pow(B, 2 + (3 * f + 31) / 32)
  {
    var k := (3 * f + 31) / 32;
    PowBase(5, 8, f);
    PowPower(2, 3, f);
    assert Pow(2, 3) == 8;
    PowMono(2, 3 * f, 32 * k);
    PowPower(2, 32, k);
    TwoTo32();
    PowAdd(B, 2, k);
    PowOne(B);
    hide Pow;
    MulMono(Pow(5, f), Pow(B, k), m);
    MulStrict(m, U64, Pow(B, k));
  }

  /** The 52 limbs are enough for every try. */
  lemma {:induction false} RoomForTry(m: nat, e: int, f: int)
    requires NormalForm(m, e) && f <= 17 - FirstExponent(e) && f >= -FirstExponent(e)
    ensures RoundingRoom(m, e - 53, 5, 1, f, 34, CAPACITY) && Abs(f) < B
  {
    hide Pow, FirstExponent, DivLimbs, ExtraBits;
    FirstExponentBounds(e);
    if f >= 0 {
      FivePower(m, f);
      PowMono(B, 2 + (3 * f + 31) / 32, 34);
      assert f * 1 == f;
    } else {
      assert -f * 1 == -f;
      SmallDivision(e, -f);
    }
  }

  lemma SmallDivision(e: int, f: int)
    requires -1073 <= e <= 1024 && 0 < f && FirstExponent(e) - 17 <= f <= FirstExponent(e)
    ensures DivLimbs(5, f) <= 24 && ExtraBits(true, e - 53, f + 32 * DivLimbs(5, f), -1) <= 640
  {
    FirstExponentBounds(e);
    assert DivLimbs(5, f) == (f + 12) / 13;
  }

  // ---- one try ----

  /** The inner loop: the mantissa of `p` digits and its decimal exponent. */
  method MantissaFor(tmp: Mpb, m: nat, e: int, p: nat) returns (mant: nat, exp10: int)
    requires tmp.Valid() && tmp.tab.Length == CAPACITY && NormalForm(m, e) && 1 <= p <= P_MAX
    modifies tmp, tmp.tab
    ensures tmp.Valid() && Mantissa(m, e, p - exp10, p, mant) && FirstExponent(e) <= exp10 <= FirstExponent(e) + 1
  {
    hide Pow, Num, Den, RoundDiv, RoundingRoom, FirstExponent, Mantissa, MulLog2Radix, Radix;
    RadixTen();
    TenFits(p);
    var mantMax := PowUi(10, p);
    exp10 := 1 + MulLog2Radix(e - 1);
    assert exp10 == FirstExponent(e) by { First(e); }
    RoomForTry(m, e, p - exp10);
    MulPowRound(tmp, m, e - 53, 5, 1, p - exp10, Nearest, 34);
    FirstMantissa(m, e, p, tmp.Value());
    SmallValue(tmp.tab[..tmp.len], 2 * Pow(10, p));
    mant := tmp.GetU64();
    if mant >= mantMax {
      ghost var first := mant;
      exp10 := exp10 + 1;
      RoomForTry(m, e, p - exp10);
      MulPowRound(tmp, m, e - 53, 5, 1, p - exp10, Nearest, 34);
      SecondMantissa(m, e, p, first, tmp.Value());
      MantissaBound(m, e, p - exp10, p, tmp.Value());
      SmallValue(tmp.tab[..tmp.len], Pow(10, p));
      mant := tmp.GetU64();
    }
  }

  lemma First(e: int)
    ensures FirstExponent(e) == 1 + MulLog2Radix(e - 1)
  {
  }

  lemma {:induction false} MantissaBound(m: nat, e: int, f: int, p: nat, mant: nat)
    requires p >= 1 && Mantissa(m, e, f, p, mant)
    ensures 0 < mant < Pow(10, p) && Pow(10, p - 1) <= mant
  {
    hide Num, Den, RoundDiv, LongEnough;
  }

  lemma {:induction false} TenFits(p: nat)
    requires 1 <= p <= P_MAX
    ensures 2 * Pow(10, p) < U64
  {
    TenTo16();
    hide Pow;
    PowMono(10, p, 17);
  }

  lemma {:induction false} SmallValue(s: seq<limb>, bound: nat)
    requires s != [] && (|s| == 1 || s[|s| - 1] != 0) && Val(s) <= bound < U64
    ensures |s| <= 2
  {
    hide Val;
    PowOne(B);
    LenBound(s, 2);
  }

  // ---- the search ----

  /** The number, rounded to `k` digits, reads back as itself. */
  ghost predicate ReadsAt(b: nat, k: nat)
    requires b <= INF && k >= 1
  {
    exists mant: nat, f: int :: RoundedTo(b, k, mant, f) && Reads(b, mant, f)
  }

  /** The number, rounded to `k` digits, is read as another one. */
  ghost predicate FailsAt(b: nat, k: nat)
    requires b <= INF && k >= 1
  {
    exists mant: nat, f: int :: RoundedTo(b, k, mant, f) && !Reads(b, mant, f)
  }

  /** What the search has found so far: the number, rounded to `p` digits, the last one not zero; with these and with any
      more digits it reads back. */
  ghost predicate Enough(b: nat, mant: nat, p: nat, exp10: int) {
    && b <= INF && 1 <= p <= P_MAX && mant % 10 != 0 && RoundedTo(b, p, mant, exp10 - p) && Reads(b, mant, exp10 - p)
    && forall k :: p <= k <= P_MAX ==> ReadsAt(b, k)
  }

  /** What it finds in the end: with one digit less the number does not read back. */
  ghost predicate Found(b: nat, mant: nat, p: nat, exp10: int) {
    Enough(b, mant, p, exp10) && (p > 1 ==> FailsAt(b, p - 1))
  }

  /** The mantissa that js_dtoa computes is the rounded number. */
  lemma {:induction false} IsRounded(b: nat, m: nat, e: int, f: int, p: nat, mant: nat)
    requires b <= INF && SameValue(V(b), m, e) && p >= 1 && Mantissa(m, e, f, p, mant)
    ensures RoundedTo(b, p, mant, -f)
  {
    var n, d, w, u := Num(m, e - 53, 10, f), Den(e - 53, 10, f), Scaled10(b, -f), Unit(-f);
    ScaleIdentity(V(b), m, e, f);
    hide Pow, V, Num, Den, Units, RoundDiv, Mul;
    RoundDivCross(w, u, n, d, Nearest);
    LongCross(n, d, w, u, Pow(10, p - 1));
  }

  lemma LongCross(n: nat, d: nat, w: nat, u: nat, p: nat)
    requires d > 0 && Mul(w, d) == Mul(n, u) && LongEnough(n, d, p)
    ensures LongEnough(w, u, p)
  {
    var q := 20 * p - 1;
    MulMono(q * d, 20 * n, u);
    Assoc(q, d, u);
    Assoc(q, u, d);
    Assoc(20, n, u);
    Assoc(20, w, d);
    assert d * u == u * d;
    MulCancel(q * u, 20 * w, d);
  }

  /** A trailing zero digit is dropped; the value stays. */
  lemma {:induction false} DropZero(mant: nat, p: nat, f: int)
    requires mant % 10 == 0 && p >= 1 && Pow(10, p - 1) <= mant < Pow(10, p)
    ensures p >= 2 && Pow(10, p - 2) <= mant / 10 < Pow(10, p - 1)
    ensures Mul(Num(mant, 0, 10, f), Den(0, 10, f + 1)) == Mul(Num(mant / 10, 0, 10, f + 1), Den(0, 10, f))
  {
    PowOne(10);
    PowStep(10, p - 1);
    if p >= 2 { PowStep(10, p - 2); }
    var k := mant / 10;
    assert mant == Mul(10, k);
    ZeroCross(k, f);
  }

  /** The number, rounded to `k` digits, reads back if `mant * 10^f` does. */
  ghost predicate AsGood(b: nat, k: nat, mant: nat, f: int)
    requires b <= INF && k >= 1
  {
    exists n: nat, h: int :: RoundedTo(b, k, n, h) && (Reads(b, n, h) <==> Reads(b, mant, f))
  }

  ghost predicate AllAsGood(b: nat, p: nat, p0: nat, mant: nat, f: int)
    requires b <= INF && p >= 1
  {
    forall k :: p <= k <= p0 ==> AsGood(b, k, mant, f)
  }

  lemma {:induction false} ZeroDropped(b: nat, mant: nat, f: int)
    requires mant % 10 == 0 && Mul(Num(mant, 0, 10, f), Den(0, 10, f + 1)) == Mul(Num(mant / 10, 0, 10, f + 1), Den(0, 10, f))
    ensures Reads(b, mant, f) <==> Reads(b, mant / 10, f + 1)
  {
    hide NearestTo, Num, Den;
    if Reads(b, mant, f) {
      NearestSame(b, Num(mant, 0, 10, f), Den(0, 10, f), Num(mant / 10, 0, 10, f + 1), Den(0, 10, f + 1));
    }
    if Reads(b, mant / 10, f + 1) {
      NearestSame(b, Num(mant / 10, 0, 10, f + 1), Den(0, 10, f + 1), Num(mant, 0, 10, f), Den(0, 10, f));
    }
  }

  lemma {:induction false} StillAsGood(b: nat, p: nat, p0: nat, mant: nat, f: int, mant': nat, f': int)
    requires b <= INF && p >= 2 && RoundedTo(b, p - 1, mant', f') && (Reads(b, mant, f) <==> Reads(b, mant', f'))
    requires AllAsGood(b, p, p0, mant, f)
    ensures AllAsGood(b, p - 1, p0, mant', f')
  {
    hide RoundedTo, Reads;
    assert AsGood(b, p - 1, mant', f');
    forall k | p <= k <= p0 ensures AsGood(b, k, mant', f') {
      assert AsGood(b, k, mant, f);
      var n: nat, h: int :| RoundedTo(b, k, n, h) && (Reads(b, n, h) <==> Reads(b, mant, f));
    }
  }

  /** `while ((mant % radix) == 0)`: the trailing zeros go. */
  method RemoveZeros(mant0: nat, p0: nat, ghost exp10: int, ghost b: nat) returns (mant: nat, p: nat)
    requires b <= INF && p0 >= 1 && RoundedTo(b, p0, mant0, exp10 - p0)
    ensures 1 <= p <= p0 && mant % 10 != 0 && RoundedTo(b, p, mant, exp10 - p)
    ensures Reads(b, mant0, exp10 - p0) <==> Reads(b, mant, exp10 - p)
    ensures AllAsGood(b, p, p0, mant, exp10 - p)
  {
    hide Pow, Num, Den, Reads, RoundedTo, AllAsGood;
    mant, p := mant0, p0;
    FirstAsGood(b, p, mant, exp10 - p);
    while mant % 10 == 0
      invariant 1 <= p <= p0 && RoundedTo(b, p, mant, exp10 - p)
      invariant Reads(b, mant0, exp10 - p0) <==> Reads(b, mant, exp10 - p)
      invariant AllAsGood(b, p, p0, mant, exp10 - p)
      decreases p
    {
      RoundedBounds(b, p, mant, exp10 - p);
      DropZero(mant, p, exp10 - p);
      ZeroDropped(b, mant, exp10 - p);
      RoundedStep(b, p, mant, exp10 - p);
      StillAsGood(b, p, p0, mant, exp10 - p, mant / 10, exp10 - p + 1);
      mant, p := mant / 10, p - 1;
    }
  }

  lemma {:induction false} FirstAsGood(b: nat, p: nat, mant: nat, f: int)
    requires b <= INF && p >= 1 && RoundedTo(b, p, mant, f)
    ensures AllAsGood(b, p, p, mant, f)
  {
    hide RoundedTo, Reads;
    assert AsGood(b, p, mant, f);
  }

  lemma {:induction false} RoundedBounds(b: nat, p: nat, mant: nat, f: int)
    requires b <= INF && p >= 1 && RoundedTo(b, p, mant, f)
    ensures 0 < mant && Pow(10, p - 1) <= mant < Pow(10, p)
  {
    hide RoundDiv, Scaled10, Unit, LongEnough;
  }

  /** The bignum has room to convert back. */
  lemma {:induction false} RoomToRead(mant: nat, len: nat, f: int)
    requires mant < U64 && len <= 2 && -340 <= f <= 310
    ensures ScalingRoom(mant, len, 5, 1, f, CAPACITY) && Abs(f) < B
  {
    hide Pow;
    if f >= 0 {
      FivePower(mant, f);
      PowMono(B, 2 + (3 * f + 31) / 32, CAPACITY);
    } else {
      assert DivLimbs(5, -f) == (-f + 12) / 13;
    }
  }

  /** Converting digits back to binary. */
  method ReadBack(tmp: Mpb, mant: nat, f: int) returns (m: nat, e: int)
    requires tmp.Valid() && tmp.tab.Length == CAPACITY && 0 < mant < U64 && -340 <= f <= 310
    modifies tmp, tmp.tab
    ensures tmp.Valid() && Canonical(m, e) && Reads(BitsOf(m, e), mant, f)
  {
    hide Pow, Num, Den, NearestTo, BitsOf, ScalingRoom, Radix, Canonical;
    RadixTen();
    tmp.SetU64(mant);
    RoomToRead(mant, tmp.len, f);
    m, e := MulPowRoundToD(tmp, 5, 1, f);
  }

  /** Another mantissa or another exponent is another number. */
  lemma {:induction false} ReadsOther(m: nat, e: int, m1: nat, e1: int, mant: nat, f: int)
    requires Canonical(m, e) && Canonical(m1, e1) && 0 < BitsOf(m, e) < INF && Reads(BitsOf(m1, e1), mant, f)
    ensures Reads(BitsOf(m, e), mant, f) <==> m == m1 && e == e1
  {
    hide NearestTo, BitsOf, Canonical, Num, Den;
    if Reads(BitsOf(m, e), mant, f) {
      NearestUnique(BitsOf(m, e), BitsOf(m1, e1), Num(mant, 0, 10, f), Den(0, 10, f));
      BitsOnce(m, e, m1, e1);
    }
  }

  /** The loop of JS_DTOA_FORMAT_FREE: ever fewer digits, as long as they read back as the same number. */
  method FreeDigits(tmp: Mpb, m: nat, e: int, ghost b: nat) returns (mantFound: nat, pFound: nat, eFound: int)
    requires tmp.Valid() && tmp.tab.Length == CAPACITY && NormalForm(m, e) && Canonical(m, e)
    requires 0 < b < INF && b == BitsOf(m, e) && SameValue(V(b), m, e)
    modifies tmp, tmp.tab
    ensures tmp.Valid() && Found(b, mantFound, pFound, eFound)
    ensures FirstExponent(e) <= eFound <= FirstExponent(e) + 1
  {
    hide Pow, Reads, BitsOf, V, SameValue, FirstExponent, Mantissa, RoundedTo, Enough, AllAsGood, FailsAt, Canonical;
    var p := P_MAX;
    mantFound, pFound, eFound := 0, 0, 0;
    while true
      invariant tmp.Valid() && 1 <= p <= P_MAX
      invariant if pFound == 0 then p == P_MAX else p == pFound - 1
      invariant pFound > 0 ==> Enough(b, mantFound, pFound, eFound) && FirstExponent(e) <= eFound <= FirstExponent(e) + 1
      decreases p
    {
      ghost var tried := p;
      var mant, exp10 := MantissaFor(tmp, m, e, p);
      if p == P_MAX { PMaxWorks(b, m, e, p - exp10, mant); }
      IsRounded(b, m, e, p - exp10, p, mant);
      ghost var first := mant;
      mant, p := RemoveZeros(mant, p, exp10, b);
      RoundedBounds(b, p, mant, exp10 - p);
      if pFound != 0 {
        TenFits(p);
        ExponentRange(e, exp10, p);
        var m1, e1 := ReadBack(tmp, mant, exp10 - p);
        ReadsOther(m, e, m1, e1, mant, exp10 - p);
        if m1 != m || e1 != e {
          LessFails(b, tried, first, exp10 - tried);
          break;
        }
      }
      assert Reads(b, mant, exp10 - p);
      NowEnough(b, mant, p, exp10, tried, mantFound, pFound, eFound);
      mantFound, pFound, eFound := mant, p, exp10;
      if p == 1 {
        break;
      }
      p := p - 1;
    }
  }

  lemma {:induction false} LessFails(b: nat, k: nat, mant: nat, f: int)
    requires b <= INF && k >= 1 && RoundedTo(b, k, mant, f) && !Reads(b, mant, f)
    ensures FailsAt(b, k)
  {
    hide RoundedTo, Reads;
  }

  /** Every count of digits from the one tried down to the one that is left reads back. */
  lemma {:induction false} NowEnough(b: nat, mant: nat, p: nat, exp10: int, tried: nat, mantFound: nat, pFound: nat, eFound: int)
    requires b <= INF && 1 <= p <= tried && mant % 10 != 0 && RoundedTo(b, p, mant, exp10 - p) && Reads(b, mant, exp10 - p)
    requires AllAsGood(b, p, tried, mant, exp10 - p)
    requires if pFound == 0 then tried == P_MAX else tried == pFound - 1 && Enough(b, mantFound, pFound, eFound)
    ensures Enough(b, mant, p, exp10)
  {
    hide RoundedTo, Reads;
    forall k | p <= k <= P_MAX ensures ReadsAt(b, k) {
      if k <= tried { assert AsGood(b, k, mant, exp10 - p); }
    }
  }

  lemma {:induction false} PMaxWorks(b: nat, m: nat, e: int, f: int, mant: nat)
    requires 0 < b < INF && SameValue(V(b), m, e) && Mantissa(m, e, f, P_MAX, mant)
    ensures Reads(b, mant, -f)
  {
    hide Pow, V, Num, Den, NearestTo, RoundDiv;
    FirstTryWorks(b, m, e, f, mant);
  }

  lemma ExponentRange(e: int, exp10: int, p: nat)
    requires -1073 <= e <= 1024 && FirstExponent(e) <= exp10 <= FirstExponent(e) + 1 && 1 <= p <= P_MAX
    ensures -340 <= exp10 - p <= 310
  {
    FirstExponentBounds(e);
  }
}
