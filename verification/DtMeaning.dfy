/** What js_atod answers, in every radix, and when that is the nearest number. */
module DtMeaning {
  import opened DtArith
  import opened DtLimb
  import opened DtBig
  import opened DtPow
  import opened DtScale
  import opened DtDouble
  import opened DtRange
  import opened DtText
  import opened DtTables

  const INT32 := 0x1_0000_0000

  /** The low 32 bits of a result, as an int. C leaves the overflow of a signed operation undefined; to wrap around is one
      possible outcome, and it is the one modelled. */
  function Wrap(x: int): int { (x + 0x8000_0000) % INT32 - 0x8000_0000 }

  predicate IsInt32(x: int) { -0x8000_0000 <= x < 0x8000_0000 }

  /** From here on js_atod no longer reads the digits of an exponent. */
  const HUGE := 2147483640

  /** The digits that go into the bignum. */
  function Kept(ds: seq<nat>, radix: nat): seq<nat>
    requires ValidRadix(radix)
  {
    if |ds| <= MaxDigits(radix) then ds else ds[..MaxDigits(radix)]
  }

  /** The digits that decide the answer: all of them when the radix is a power of two, and otherwise those in the bignum. */
  function Counted(n: Parsed): seq<nat>
    requires n.Number? && ValidRadix(n.radix)
  {
    if RadixBits(n.radix) > 0 then n.digits else Kept(n.digits, n.radix)
  }

  /** The number is a multiple of a power of this base, ... */
  function Base(radix: nat): (base: nat)
    ensures radix >= 2 ==> base >= 2
  {
    if RadixBits(radix) > 0 then 2 else radix
  }

  /** ... in which a digit takes so many places, ... */
  function PerDigit(radix: nat): nat { if RadixBits(radix) > 0 then RadixBits(radix) else 1 }

  /** ... and a unit of the exponent so many. */
  function PerExponent(n: Parsed): nat
    requires n.Number?
  {
    if n.binary then 1 else PerDigit(n.radix)
  }

  /** The place behind which the first digit stands. */
  function FirstPlace(n: Parsed): int
    requires n.Number?
  {
    n.exp * PerExponent(n) + (n.dotPos - n.sigPos) * PerDigit(n.radix)
  }

  function Mant(n: Parsed): nat
    requires n.Number? && ValidRadix(n.radix)
  {
    NatIn(Counted(n), n.radix)
  }

  function Length(n: Parsed): nat
    requires n.Number? && ValidRadix(n.radix)
  {
    |Counted(n)| * PerDigit(n.radix)
  }

  /** The number is `Mant * Base^Exponent`. */
  function Exponent(n: Parsed): int
    requires n.Number? && ValidRadix(n.radix)
  {
    FirstPlace(n) - Length(n)
  }

  /** What js_atod answers for a number: the nearest one, but with the place of the first digit as an int. */
  ghost predicate Answers(n: Parsed, b: nat)
    requires n.Number? && ValidRadix(n.radix)
  {
    if n.digits == [] then b == 0
    else if n.exp >= HUGE then b == INF
    else if n.exp <= -HUGE then b == 0
    else ReadsIn(b, Mant(n), Base(n.radix), Wrap(FirstPlace(n)) - Length(n))
  }

  // ---- digits and places ----

  lemma {:induction false} NatNone(radix: nat)
    ensures NatIn([], radix) == 0
  {
  }

  lemma {:induction false} NatConcat(a: seq<nat>, b: seq<nat>, radix: nat)
    ensures NatIn(a + b, radix) == NatIn(a, radix) * Pow(radix, |b|) + NatIn(b, radix)
    decreases |b|
  {
    hide Pow, NatIn;
    if b == [] {
      assert a + b == a;
      NatNone(radix);
      PowOne(radix);
    } else {
      var k := |b| - 1;
      var c, d := b[..k], b[k];
      assert a + b == a + c + [d] && b == c + [d];
      NatConcat(a, c, radix);
      NatSnoc(a + c, d, radix);
      NatSnoc(c, d, radix);
      PowStep(radix, k);
      ConcatStep(NatIn(a, radix), Pow(radix, k), NatIn(c, radix), d, radix);
    }
  }

  lemma ConcatStep(a: nat, p: nat, c: nat, d: nat, radix: nat)
    ensures (a * p + c) * radix + d == a * (p * radix) + (c * radix + d)
  {
    Assoc(a, p, radix);
  }

  /** Zeros only. */
  predicate AllZero(ds: seq<nat>) { forall i :: 0 <= i < |ds| ==> ds[i] == 0 }

  lemma {:induction false} ZeroDigits(ds: seq<nat>, radix: nat)
    requires radix > 0
    ensures NatIn(ds, radix) == 0 <==> AllZero(ds)
    decreases |ds|
  {
    if ds != [] {
      var k := |ds| - 1;
      ZeroDigits(ds[..k], radix);
      assert AllZero(ds) <==> AllZero(ds[..k]) && ds[k] == 0 by {
        assert forall i :: 0 <= i < k ==> ds[..k][i] == ds[i];
      }
      Positive(NatIn(ds[..k], radix), radix);
    }
  }

  /** When the radix is a power of two, the digits behind the kept ones are the low bits, and the kept ones have 56 bits. */
  lemma {:induction false} KeptCut(ds: seq<nat>, radix: nat)
    requires ValidRadix(radix) && RadixBits(radix) > 0 && AreDigits(ds, radix) && ds != [] && ds[0] > 0
    ensures var k := |Kept(ds, radix)|;
            k <= |ds| && Cut(NatIn(ds, radix), (|ds| - k) * RadixBits(radix),
                             Sticky(NatIn(Kept(ds, radix), radix), !AllZero(ds[k..])))
  {
    hide Pow, NatIn, Sticky, RadixBits, Kept;
    var kept := Kept(ds, radix);
    KeptParts(ds, radix);
    var low, rb := ds[|kept|..], RadixBits(radix);
    OddAndShift(radix);
    NatConcat(kept, low, radix);
    NatBound(low, radix);
    ZeroDigits(low, radix);
    PowPower(2, rb, |low|);
    assert |low| * rb == rb * |low|;
    DivUnique(NatIn(ds, radix), Pow(radix, |low|), NatIn(kept, radix), NatIn(low, radix));
    if |low| > 0 {
      KeptLong(kept, radix);
      StickyAtLeast(NatIn(kept, radix), !AllZero(low));
    } else {
      assert rb * |low| == 0;
    }
  }

  lemma KeptParts(ds: seq<nat>, radix: nat)
    requires ValidRadix(radix) && AreDigits(ds, radix) && ds != [] && ds[0] > 0
    ensures var kept := Kept(ds, radix);
            && 0 < |kept| <= |ds| && ds == kept + ds[|kept|..] && (|kept| < |ds| ==> |kept| == MaxDigits(radix))
            && AreDigits(kept, radix) && kept[0] == ds[0]
  {
    hide MaxDigits;
    SomeDigits(radix);
  }

  lemma SomeDigits(radix: nat)
    requires ValidRadix(radix)
    ensures 12 <= MaxDigits(radix) < 5 * DigitsPerLimb(radix)
  {
    hide MaxDigits, MaxExponent, MinExponent, DigitsPerLimb, RadixBits, LogAbove, Odd;
    RoomEntries(radix);
  }

  lemma BitsKept(radix: nat)
    requires ValidRadix(radix) && RadixBits(radix) > 0
    ensures MaxDigits(radix) >= 1 && 55 <= RadixBits(radix) * (MaxDigits(radix) - 1)
  {
    hide MaxDigits, MaxExponent, MinExponent, DigitsPerLimb, RadixBits, LogAbove, Odd;
    RoomEntries(radix);
  }

  lemma {:induction false} KeptLong(kept: seq<nat>, radix: nat)
    requires ValidRadix(radix) && RadixBits(radix) > 0 && AreDigits(kept, radix) && |kept| == MaxDigits(radix)
    requires kept != [] && kept[0] > 0
    ensures Pow(2, 55) <= NatIn(kept, radix)
  {
    hide Pow, NatIn, MaxDigits, RadixBits;
    NatBound(kept, radix);
    OddAndShift(radix);
    BitsKept(radix);
    PowPower(2, RadixBits(radix), |kept| - 1);
    PowMono(2, 55, RadixBits(radix) * (|kept| - 1));
  }

  /** Where the digits stand: at or behind the place of the first one. */
  lemma {:induction false} DigitPlaces(ds: seq<nat>, radix: nat)
    requires ValidRadix(radix) && AreDigits(ds, radix) && ds != [] && ds[0] > 0
    ensures var p := |ds| * PerDigit(radix);
            && p >= PerDigit(radix)
            && Pow(Base(radix), p - PerDigit(radix)) <= NatIn(ds, radix) < Pow(Base(radix), p)
  {
    hide Pow, NatIn;
    NatBound(ds, radix);
    OddAndShift(radix);
    PowerOf(radix, |ds|);
    PowerOf(radix, |ds| - 1);
    assert (|ds| - 1) * PerDigit(radix) == |ds| * PerDigit(radix) - PerDigit(radix);
    MulMono(1, |ds|, PerDigit(radix));
  }

  lemma {:induction false} PowerOf(radix: nat, n: nat)
    requires ValidRadix(radix)
    ensures Pow(radix, n) == Pow(Base(radix), n * PerDigit(radix))
  {
    OddAndShift(radix);
    hide Pow;
    if RadixBits(radix) > 0 {
      PowPower(2, RadixBits(radix), n);
      assert RadixBits(radix) * n == n * PerDigit(radix);
    }
  }

  /** The places at which the range ends, as js_atod has them. */
  function LastPlace(radix: nat): int
    requires ValidRadix(radix)
  {
    if RadixBits(radix) > 0 then 1024 + RadixBits(radix) - 1 else MaxExponent(radix)
  }

  function LeastPlace(radix: nat): int
    requires ValidRadix(radix)
  {
    if RadixBits(radix) > 0 then -1075 else MinExponent(radix)
  }

  lemma {:induction false} PlaceBounds(radix: nat)
    requires ValidRadix(radix)
    ensures 0 < LastPlace(radix) <= 1028 && -1100 <= LeastPlace(radix) < 0
    ensures LastPlace(radix) - PerDigit(radix) + 1 >= 0
    ensures Pow(2, 1024) <= Pow(Base(radix), LastPlace(radix) - PerDigit(radix) + 1)
    ensures Pow(2, 1075) <= Pow(Base(radix), -LeastPlace(radix))
  {
    hide Pow, MaxExponent, MinExponent;
    if RadixBits(radix) == 0 { RangeEntries(radix); }
  }

  /** A number whose first digit is beyond the last place is nearest to infinity. */
  lemma {:induction false} TooLong(ds: seq<nat>, radix: nat, f: int)
    requires ValidRadix(radix) && AreDigits(ds, radix) && ds != [] && ds[0] > 0
    requires f + |ds| * PerDigit(radix) > LastPlace(radix)
    ensures Beyond(NatIn(ds, radix), Base(radix), f) && ReadsIn(INF, NatIn(ds, radix), Base(radix), f)
  {
    hide Pow, NatIn, Beyond, ReadsIn, LastPlace;
    DigitPlaces(ds, radix);
    PlaceBounds(radix);
    var r := PerDigit(radix);
    FarAbove(NatIn(ds, radix), Base(radix), f, |ds| * r - r, LastPlace(radix) - r + 1);
    InfinityIff(NatIn(ds, radix), Base(radix), f);
  }

  /** A number whose first digit is behind the least place is nearest to zero. */
  lemma {:induction false} TooSmall(ds: seq<nat>, radix: nat, f: int)
    requires ValidRadix(radix) && AreDigits(ds, radix) && ds != [] && ds[0] > 0
    requires f + |ds| * PerDigit(radix) <= LeastPlace(radix)
    ensures Vanishing(NatIn(ds, radix), Base(radix), f) && ReadsIn(0, NatIn(ds, radix), Base(radix), f)
  {
    hide Pow, NatIn, Vanishing, ReadsIn, LeastPlace;
    DigitPlaces(ds, radix);
    PlaceBounds(radix);
    FarBelow(NatIn(ds, radix), Base(radix), f, |ds| * PerDigit(radix), -LeastPlace(radix));
    ZeroIff(NatIn(ds, radix), Base(radix), f);
  }

  // ---- when the answer is the nearest number ----

  /** A number as js_atod reads it. */
  predicate WellRead(n: Parsed) {
    n.Number? && ValidRadix(n.radix) && AreDigits(n.digits, n.radix) && n.digits != [] && n.digits[0] > 0
  }

  lemma {:induction false} CountedWell(n: Parsed)
    requires WellRead(n)
    ensures AreDigits(Counted(n), n.radix) && Counted(n) != [] && Counted(n)[0] > 0
  {
    KeptParts(n.digits, n.radix);
  }

  /** The condition for the answer to be the nearest number. */
  ghost predicate RightPlace(n: Parsed)
    requires n.Number? && ValidRadix(n.radix)
  {
    var f := Wrap(FirstPlace(n)) - Length(n);
    if n.exp >= HUGE then Beyond(Mant(n), Base(n.radix), Exponent(n))
    else if n.exp <= -HUGE then Vanishing(Mant(n), Base(n.radix), Exponent(n))
    else if IsInt32(FirstPlace(n)) then true
    else if FirstPlace(n) > 0 then Beyond(Mant(n), Base(n.radix), f)
    else Vanishing(Mant(n), Base(n.radix), f)
  }

  /** The exact condition for js_atod to answer with the number nearest to what is written: the place of the first digit
      fits an int; or the place that comes out when it does not is beyond the same end of the range. */
  lemma {:induction false} NearestIff(n: Parsed, b: nat)
    requires WellRead(n) && Answers(n, b)
    ensures ReadsIn(b, Mant(n), Base(n.radix), Exponent(n)) <==> RightPlace(n)
  {
    hide ReadsIn, Beyond, Vanishing, Pow, NatIn, Counted, FirstPlace, LastPlace, LeastPlace, PerDigit, RadixBits, Wrap, Base;
    var m, base, f := Mant(n), Base(n.radix), Wrap(FirstPlace(n)) - Length(n);
    CountedWell(n);
    PlaceBounds(n.radix);
    BothEnds(m, base, Exponent(n));
    BothEnds(m, base, f);
    if -HUGE < n.exp < HUGE {
      if IsInt32(FirstPlace(n)) {
        WrapNothing(FirstPlace(n));
      } else if FirstPlace(n) > 0 {
        TooLong(Counted(n), n.radix, Exponent(n));
        OnlyThis(b, INF, m, base, Exponent(n), f);
      } else {
        TooSmall(Counted(n), n.radix, Exponent(n));
        OnlyThis(b, 0, m, base, Exponent(n), f);
      }
    }
  }

  lemma WrapNothing(x: int)
    requires IsInt32(x)
    ensures Wrap(x) == x
  {
  }

  lemma WrapFar(x: int)
    requires !IsInt32(x) && -0x1_0000_0000 - 0x4000_0000 <= x < 0x1_0000_0000 + 0x4000_0000
    ensures Wrap(x) == if x > 0 then x - INT32 else x + INT32
  {
  }

  lemma {:induction false} BothEnds(m: nat, base: nat, f: int)
    requires base > 0
    ensures ReadsIn(INF, m, base, f) <==> Beyond(m, base, f)
    ensures ReadsIn(0, m, base, f) <==> Vanishing(m, base, f)
    ensures !(Beyond(m, base, f) && Vanishing(m, base, f))
  {
    hide ReadsIn, Beyond, Vanishing;
    InfinityIff(m, base, f);
    ZeroIff(m, base, f);
    NotBoth(m, base, f);
  }

  lemma {:induction false} OnlyThis(b: nat, c: nat, m: nat, base: nat, e: int, f: int)
    requires base > 0 && ReadsIn(c, m, base, e) && ReadsIn(b, m, base, f)
    ensures ReadsIn(b, m, base, e) <==> ReadsIn(c, m, base, f)
  {
    hide ReadsIn;
    if b != c {
      OnlyOne(b, c, m, base, e);
      OnlyOne(b, c, m, base, f);
    }
  }

  /** In the other radices, over strings shorter than 2^30 characters, nothing comes back into the range. */
  lemma {:induction false} NearestIffPlain(n: Parsed, b: nat)
    requires WellRead(n) && Answers(n, b) && RadixBits(n.radix) == 0
    requires n.sigPos <= 0x4000_0000 && 0 <= n.dotPos <= 0x4000_0000
    ensures ReadsIn(b, Mant(n), Base(n.radix), Exponent(n)) <==> IsInt32(FirstPlace(n)) || n.exp >= HUGE || n.exp <= -HUGE
  {
    hide ReadsIn, Beyond, Vanishing, Pow, NatIn, Counted, FirstPlace, LastPlace, LeastPlace, PerDigit, Base, RadixBits, Wrap;
    NearestIff(n, b);
    var m, base, f := Mant(n), Base(n.radix), Wrap(FirstPlace(n)) - Length(n);
    CountedWell(n);
    PlaceBounds(n.radix);
    PlainPlace(n);
    if n.exp >= HUGE {
      TooLong(Counted(n), n.radix, Exponent(n));
    } else if n.exp <= -HUGE {
      TooSmall(Counted(n), n.radix, Exponent(n));
    } else if !IsInt32(FirstPlace(n)) {
      BothEnds(m, base, f);
      WrapFar(FirstPlace(n));
      if FirstPlace(n) > 0 { TooSmall(Counted(n), n.radix, f); } else { TooLong(Counted(n), n.radix, f); }
    }
  }

  lemma PlainPlace(n: Parsed)
    requires n.Number? && RadixBits(n.radix) == 0
    ensures FirstPlace(n) == n.exp + n.dotPos - n.sigPos
  {
  }

  /** In radix 16, "1@536870912" reads as zero: the exponent times four is 2^31. */
  lemma {:induction false} ShiftedExample(b: nat)
    requires Answers(Number(16, false, [1], 0, 1, 536870912, false, 11), b)
    ensures b == 0 && !ReadsIn(b, 1, 2, 4 * 536870912)
  {
    hide ReadsIn, Beyond, Vanishing, Pow, NatIn, LastPlace, LeastPlace, Wrap, MaxDigits;
    var n := Number(16, false, [1], 0, 1, 536870912, false, 11);
    NatNone(16);
    NatSnoc([], 1, 16);
    assert [] + [1] == [1];
    WrapFar(0x8000_0004);
    PlaceBounds(16);
    ShiftedPlaces(n);
    TooSmall([1], 16, -0x8000_0000);
    TooLong([1], 16, 0x8000_0000);
    if b != 0 { OnlyOne(b, 0, 1, 2, -0x8000_0000); }
    OnlyOne(0, INF, 1, 2, 0x8000_0000);
  }

  lemma ShiftedPlaces(n: Parsed)
    requires n == Number(16, false, [1], 0, 1, 536870912, false, 11)
    ensures Counted(n) == [1] && FirstPlace(n) == 0x8000_0004 && Length(n) == 4 && PerDigit(16) == 4 && Base(16) == 2
  {
  }
}
