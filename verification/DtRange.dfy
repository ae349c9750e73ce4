/** Where the range of binary64 numbers ends: the numbers that round to infinity and those that round to zero. */
module DtRange {
  import opened DtArith
  import opened DtBig
  import opened DtScale
  import opened DtDouble

  /** At least halfway from the largest number to 2^1024. */
  ghost predicate Beyond(mant: nat, base: nat, f: int)
    requires base > 0
  {
    Mul((2 * P53 - 1) * Pow(2, 970), Den(0, base, f)) <= Num(mant, 0, base, f)
  }

  /** At most half of the least number. */
  ghost predicate Vanishing(mant: nat, base: nat, f: int)
    requires base > 0
  {
    Mul(Num(mant, 0, base, f), Pow(2, 1075)) <= Den(0, base, f)
  }

  lemma Halfway(x: nat, a: nat, b: nat, d: nat)
    requires a < b && d > 0
    ensures Distance(x, b * d) <= Distance(x, a * d) <==> (a + b) * d <= 2 * x
    ensures Distance(x, a * d) <= Distance(x, b * d) <==> 2 * x <= (a + b) * d
  {
    MulStrict(a, b, d);
    assert (a + b) * d == a * d + b * d;
  }

  lemma {:induction false} LargestIs()
    ensures V(INF - 1) == (P53 - 1) * Pow(2, 2045) && V(INF - 1) + V(INF) == (2 * P53 - 1) * Pow(2, 2045)
  {
    hide V, Pow;
    VBinade(P53 - 1, 2045);
    VBinade(P53, 2045);
  }

  lemma ScaleBoth(a: nat, n: nat, t: nat)
    requires t > 0
    ensures a <= n <==> a * t <= n * t
  {
    if a <= n { MulMono(a, n, t); } else { MulStrict(n, a, t); }
  }

  /** In units of 2^-1074. */
  lemma {:induction false} BeyondUnits(n: nat, d: nat)
    ensures Mul((2 * P53 - 1) * Pow(2, 970), d) <= n <==> Mul(V(INF - 1) + V(INF), d) <= 2 * Units(n)
  {
    LargestIs();
    hide V;
    PowAdd(2, 970, 1075);
    PowStep(2, 1074);
    hide Pow;
    BeyondParts(n, d, 2 * P53 - 1, Pow(2, 970), Pow(2, 1074), Pow(2, 2045));
  }

  lemma BeyondParts(n: nat, d: nat, c: nat, a: nat, t: nat, all: nat)
    requires t > 0 && all == a * (2 * t)
    ensures Mul(c * a, d) <= n <==> Mul(c * all, d) <= 2 * Mul(n, t)
  {
    ScaleBoth(c * a * d, n, 2 * t);
    assert n * (2 * t) == 2 * (n * t);
    calc {
      c * a * d * (2 * t);
      { Assoc(c * a, d, 2 * t); Assoc(c * a, 2 * t, d); assert d * (2 * t) == 2 * t * d; }
      c * a * (2 * t) * d;
      { Assoc(c, a, 2 * t); }
      c * all * d;
    }
  }

  lemma {:induction false} VanishingUnits(n: nat, d: nat)
    ensures Mul(n, Pow(2, 1075)) <= d <==> 2 * Units(n) <= d
  {
    PowStep(2, 1074);
    hide Pow;
    assert n * (2 * Pow(2, 1074)) == 2 * (n * Pow(2, 1074));
  }

  /** Infinity is the nearest number exactly from halfway on. */
  lemma {:induction false} InfinityIff(mant: nat, base: nat, f: int)
    requires base > 0
    ensures ReadsIn(INF, mant, base, f) <==> Beyond(mant, base, f)
  {
    var n, d := Num(mant, 0, base, f), Den(0, base, f);
    var x := Units(n);
    hide Num, Den, Units, V, Pow, Mul, NoNearer;
    BeyondUnits(n, d);
    if Beyond(mant, base, f) {
      forall c: nat | c <= INF ensures NoNearer(INF, c, x, d) { InfinityNearer(x, d, c); }
    } else {
      LargestNearer(x, d);
      assert !NoNearer(INF, INF - 1, x, d);
    }
  }

  lemma {:induction false} LargestNearer(x: nat, d: nat)
    requires d > 0 && Mul(V(INF - 1) + V(INF), d) > 2 * x
    ensures !NoNearer(INF, INF - 1, x, d)
  {
    VIncreases(INF - 1, INF);
    hide V;
    Halfway(x, V(INF - 1), V(INF), d);
  }

  lemma {:induction false} InfinityNearer(x: nat, d: nat, c: nat)
    requires d > 0 && c <= INF && Mul(V(INF - 1) + V(INF), d) <= 2 * x
    ensures NoNearer(INF, c, x, d)
  {
    if c < INF {
      if c < INF - 1 { VIncreases(c, INF - 1); }
      VIncreases(c, INF);
      hide V;
      MulMono(V(c) + V(INF), V(INF - 1) + V(INF), d);
      Halfway(x, V(c), V(INF), d);
    }
  }

  /** Zero is the nearest number exactly up to half of the least one. */
  lemma {:induction false} ZeroIff(mant: nat, base: nat, f: int)
    requires base > 0
    ensures ReadsIn(0, mant, base, f) <==> Vanishing(mant, base, f)
  {
    var n, d := Num(mant, 0, base, f), Den(0, base, f);
    var x := Units(n);
    VanishingUnits(n, d);
    VSmall(0);
    VSmall(1);
    Halfway(x, 0, 1, d);
    hide Num, Den, Units, V, Pow;
    if Vanishing(mant, base, f) {
      forall c: nat | c <= INF ensures NoNearer(0, c, x, d) {
        if c > 0 {
          VIncreases(0, c);
          Halfway(x, 0, V(c), d);
          MulMono(1, V(c), d);
        }
      }
    } else {
      assert !NoNearer(0, 1, x, d);
    }
  }

  // ---- by the place of the first digit ----

  /** A number whose first digit is at place `q` or above, where base^q is at least 2^1024. */
  lemma {:induction false} FarAbove(mant: nat, base: nat, f: int, p: nat, q: nat)
    requires base >= 2 && Pow(base, p) <= mant && f + p >= q && Pow(2, 1024) <= Pow(base, q)
    ensures Beyond(mant, base, f)
  {
    hide Pow;
    PowAdd(2, 54, 970);
    Powers52();
    PowStep(2, 53);
    MulMono(2 * P53 - 1, 2 * P53, Pow(2, 970));
    // base^q * base^(-f) <= mant * base^f
    PowAdd(base, q, Pos(-f));
    PowMono(base, q + Pos(-f), p + Pos(f));
    PowAdd(base, p, Pos(f));
    PlainParts(mant, base, f);
    MulMono((2 * P53 - 1) * Pow(2, 970), Pow(base, q), Pow(base, Pos(-f)));
    MulMono(Pow(base, p), mant, Pow(base, Pos(f)));
  }

  lemma {:induction false} PlainParts(mant: nat, base: nat, f: int)
    requires base > 0
    ensures Num(mant, 0, base, f) == mant * Pow(base, Pos(f)) && Den(0, base, f) == Pow(base, Pos(-f))
  {
    PowOne(2);
    hide Pow;
    MulOne(mant);
    MulOne(Pow(base, Pos(-f)));
  }

  /** A number whose first digit is behind the place `-q`, where base^q is at least 2^1075. */
  lemma {:induction false} FarBelow(mant: nat, base: nat, f: int, p: nat, q: nat)
    requires base >= 2 && mant < Pow(base, p) && f + p + q <= 0 && Pow(2, 1075) <= Pow(base, q)
    ensures Vanishing(mant, base, f)
  {
    hide Pow;
    PowOne(base);
    PowAdd(base, p, q);
    PowMono(base, p + q, -f);
    PlainParts(mant, base, f);
    MulMono(mant, Pow(base, p), Pow(2, 1075));
    MulMono(Pow(2, 1075), Pow(base, q), Pow(base, p));
  }

  /** No number is both. */
  lemma {:induction false} NotBoth(mant: nat, base: nat, f: int)
    requires base > 0
    ensures !(Beyond(mant, base, f) && Vanishing(mant, base, f))
  {
    hide ReadsIn, Beyond, Vanishing;
    InfinityIff(mant, base, f);
    ZeroIff(mant, base, f);
    if ReadsIn(INF, mant, base, f) && ReadsIn(0, mant, base, f) {
      OnlyOne(INF, 0, mant, base, f);
    }
  }

  lemma {:induction false} OnlyOne(b: nat, c: nat, mant: nat, base: nat, f: int)
    requires base > 0 && b != c
    ensures !(ReadsIn(b, mant, base, f) && ReadsIn(c, mant, base, f))
  {
    hide Num, Den;
    if ReadsIn(b, mant, base, f) && ReadsIn(c, mant, base, f) {
      NearestUnique(b, c, Num(mant, 0, base, f), Den(0, base, f));
    }
  }
}
