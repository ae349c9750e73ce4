/** The tables by radix that js_atod uses, and what makes their entries right. */
module DtTables {
  import opened DtArith
  import opened DtText
  import opened DtPow
  import opened DtScale

  // ---- lower bounds of the binary logarithms of odd numbers ----

  ghost predicate Low(r: nat, a: nat, m: nat, e: nat) { Mul(m, Pow(2, e)) <= Pow(r, a) }

  lemma {:induction false} StartLow(r: nat)
    ensures Low(r, 1, r, 0)
  {
    PowOne(r);
  }

  /** Squares a bound, and drops `k` bits. */
  lemma {:induction false} Step(r: nat, a: nat, m: nat, e: nat, odd: bool, k: nat, x: nat)
    requires Low(r, a, m, e) && x * Pow(2, k) <= m * m * (if odd then r else 1)
    ensures Low(r, if odd then 2 * a + 1 else 2 * a, x, 2 * e + k)
  {
    PowOne(r);
    PowAdd(r, a, a);
    PowAdd(r, 2 * a, 1);
    hide Pow;
    var t, p, g := Pow(2, e), Pow(r, a), if odd then r else 1;
    SquareMono(Mul(m, t), p, g);
    assert Mul(Mul(x, Pow(2, k)), Mul(t, t)) <= Mul(Mul(Mul(m, m), g), Mul(t, t)) by {
      MulMono(x * Pow(2, k), m * m * g, Mul(t, t));
    }
    hide Mul;
    MulAssoc(x, Pow(2, k), Mul(t, t));
    PowMul(2, e, e);
    PowMul(2, k, 2 * e);
    MulQuad(m, t, m, t);
    Rotate(Mul(m, m), g, Mul(t, t));
  }

  lemma {:induction false} SquareMono(a: nat, p: nat, g: nat)
    requires a <= p
    ensures Mul(Mul(a, a), g) <= p * p * g
  {
    MulMono(a, p, a);
    MulMono(a, p, p);
    MulMono(a * a, p * p, g);
  }

  lemma {:induction false} Rotate(a: nat, b: nat, c: nat)
    ensures Mul(Mul(a, b), c) == Mul(Mul(a, c), b)
  {
    hide Mul;
    MulAssoc(a, b, c);
    MulComm(b, c);
    MulAssoc(a, c, b);
  }

  lemma {:induction false} Last(r: nat, a: nat, m: nat, e: nat, d: nat)
    requires Low(r, a, m, e) && Pow(2, d) <= m
    ensures Pow(2, e + d) <= Pow(r, a)
  {
    PowAdd(2, d, e);
    MulMono(Pow(2, d), m, Pow(2, e));
  }

  lemma {:induction false} SmallTwos()
    ensures Pow(2, 0) == 1 && Pow(2, 2) == 4 && Pow(2, 3) == 8 && Pow(2, 5) == 32 && Pow(2, 8) == 256
  {
  }

  lemma {:induction false} Twos()
    ensures Pow(2, 0) == 1
    ensures Pow(2, 32) == 4294967296
    ensures Pow(2, 34) == 17179869184
    ensures Pow(2, 37) == 137438953472
    ensures Pow(2, 64) == 18446744073709551616
    ensures Pow(2, 72) == 4722366482869645213696
    ensures Pow(2, 74) == 18889465931478580854784
    ensures Pow(2, 79) == 604462909807314587353088
    ensures Pow(2, 83) == 9671406556917033397649408
    ensures Pow(2, 84) == 19342813113834066795298816
    ensures Pow(2, 96) == 79228162514264337593543950336
    ensures Pow(2, 128) == 340282366920938463463374607431768211456
  {
    hide Pow;
    SmallTwos();
    PowAdd(2, 8, 8);
    PowAdd(2, 16, 16);
    PowAdd(2, 32, 2);
    PowAdd(2, 32, 5);
    PowAdd(2, 32, 32);
    PowAdd(2, 64, 8);
    PowAdd(2, 72, 2);
    PowAdd(2, 74, 5);
    PowAdd(2, 64, 16);
    PowAdd(2, 80, 3);
    PowAdd(2, 79, 5);
    PowAdd(2, 64, 32);
    PowAdd(2, 96, 32);
  }

  lemma {:induction false} Three()
    ensures Pow(2, 84) <= Pow(3, 53)
  {
    hide Pow, Low;
    StartLow(3);
    Twos();
    Step(3, 1, 3, 0, true, 0, 27);
    Step(3, 3, 27, 0, false, 0, 729);
    Step(3, 6, 729, 0, true, 0, 1594323);
    Step(3, 13, 1594323, 0, false, 0, 2541865828329);
    Step(3, 26, 2541865828329, 0, true, 0, 19383245667680019896796723);
    Last(3, 53, 19383245667680019896796723, 0, 84);
  }

  lemma {:induction false} Five()
    ensures Pow(2, 202) <= Pow(5, 87)
  {
    hide Pow, Low;
    StartLow(5);
    Twos();
    Step(5, 1, 5, 0, false, 0, 25);
    Step(5, 2, 25, 0, true, 0, 3125);
    Step(5, 5, 3125, 0, false, 0, 9765625);
    Step(5, 10, 9765625, 0, true, 0, 476837158203125);
    Step(5, 21, 476837158203125, 0, true, 32, 264697796016968855958);
    Step(5, 43, 264697796016968855958, 32, true, 64, 18991135491519597494824);
    Last(5, 87, 18991135491519597494824, 128, 74);
  }

  lemma {:induction false} Seven()
    ensures Pow(2, 160) <= Pow(7, 57)
  {
    hide Pow, Low;
    StartLow(7);
    Twos();
    Step(7, 1, 7, 0, true, 0, 343);
    Step(7, 3, 343, 0, true, 0, 823543);
    Step(7, 7, 823543, 0, false, 0, 678223072849);
    Step(7, 14, 678223072849, 0, false, 0, 459986536544739960976801);
    Step(7, 28, 459986536544739960976801, 0, true, 96, 18694278014466336371);
    Last(7, 57, 18694278014466336371, 96, 64);
  }

  lemma {:induction false} Eleven()
    ensures Pow(2, 83) <= Pow(11, 24)
  {
    hide Pow, Low;
    StartLow(11);
    Twos();
    Step(11, 1, 11, 0, true, 0, 1331);
    Step(11, 3, 1331, 0, false, 0, 1771561);
    Step(11, 6, 1771561, 0, false, 0, 3138428376721);
    Step(11, 12, 3138428376721, 0, false, 0, 9849732675807611094711841);
    Last(11, 24, 9849732675807611094711841, 0, 83);
  }

  lemma {:induction false} Thirteen()
    ensures Pow(2, 37) <= Pow(13, 10)
  {
    hide Pow, Low;
    StartLow(13);
    Twos();
    Step(13, 1, 13, 0, false, 0, 169);
    Step(13, 2, 169, 0, true, 0, 371293);
    Step(13, 5, 371293, 0, false, 0, 137858491849);
    Last(13, 10, 137858491849, 0, 37);
  }

  lemma {:induction false} Seventeen()
    ensures Pow(2, 1075) <= Pow(17, 263)
  {
    hide Pow, Low;
    StartLow(17);
    Twos();
    Step(17, 1, 17, 0, false, 0, 289);
    Step(17, 2, 289, 0, false, 0, 83521);
    Step(17, 4, 83521, 0, false, 0, 6975757441);
    Step(17, 8, 6975757441, 0, false, 0, 48661191875666868481);
    Step(17, 16, 48661191875666868481, 0, false, 64, 128364744764645699313);
    Step(17, 32, 128364744764645699313, 64, true, 64, 15185207197274488619505);
    Step(17, 65, 15185207197274488619505, 192, true, 64, 212505729138267750568614395);
    Step(17, 131, 212505729138267750568614395, 448, true, 96, 9689706528833843429041458);
    Last(17, 263, 9689706528833843429041458, 992, 83);
  }

  lemma {:induction false} Nineteen()
    ensures Pow(2, 72) <= Pow(19, 17)
  {
    hide Pow, Low;
    StartLow(19);
    Twos();
    Step(19, 1, 19, 0, false, 0, 361);
    Step(19, 2, 361, 0, false, 0, 130321);
    Step(19, 4, 130321, 0, false, 0, 16983563041);
    Step(19, 8, 16983563041, 0, true, 0, 5480386857784802185939);
    Last(19, 17, 5480386857784802185939, 0, 72);
  }

  lemma {:induction false} TwentyThree()
    ensures Pow(2, 104) <= Pow(23, 23)
  {
    hide Pow, Low;
    StartLow(23);
    Twos();
    Step(23, 1, 23, 0, false, 0, 529);
    Step(23, 2, 529, 0, true, 0, 6436343);
    Step(23, 5, 6436343, 0, true, 0, 952809757913927);
    Step(23, 11, 952809757913927, 0, true, 32, 4861612804198617123615);
    Last(23, 23, 4861612804198617123615, 32, 72);
  }

  lemma {:induction false} TwentyNine()
    ensures Pow(2, 34) <= Pow(29, 7)
  {
    hide Pow, Low;
    StartLow(29);
    Twos();
    Step(29, 1, 29, 0, true, 0, 24389);
    Step(29, 3, 24389, 0, true, 0, 17249876309);
    Last(29, 7, 17249876309, 0, 34);
  }

  lemma {:induction false} ThirtyOne()
    ensures Pow(2, 431) <= Pow(31, 87)
  {
    hide Pow, Low;
    StartLow(31);
    Twos();
    Step(31, 1, 31, 0, false, 0, 961);
    Step(31, 2, 961, 0, true, 0, 28629151);
    Step(31, 5, 28629151, 0, false, 0, 819628286980801);
    Step(31, 10, 819628286980801, 0, true, 32, 4848816057991131847519);
    Step(31, 21, 4848816057991131847519, 32, true, 64, 39510578624547801134459325);
    Step(31, 43, 39510578624547801134459325, 128, true, 96, 610813869524374325356084);
    Last(31, 87, 610813869524374325356084, 352, 79);
  }

  lemma {:induction false} ThirtyThree()
    ensures Pow(2, 1024) <= Pow(33, 203)
  {
    hide Pow, Low;
    StartLow(33);
    Twos();
    Step(33, 1, 33, 0, true, 0, 35937);
    Step(33, 3, 35937, 0, false, 0, 1291467969);
    Step(33, 6, 1291467969, 0, false, 0, 1667889514952984961);
    Step(33, 12, 1667889514952984961, 0, true, 32, 21374139311950051608908800885);
    Step(33, 25, 21374139311950051608908800885, 32, false, 96, 5766306030944439607718220404);
    Step(33, 50, 5766306030944439607718220404, 160, true, 96, 13849360860857440510279067406);
    Step(33, 101, 13849360860857440510279067406, 416, true, 128, 18600899992742979662);
    Last(33, 203, 18600899992742979662, 960, 64);
  }

  /** `2^b <= r^a` gives a bound for every other exponent. */
  lemma {:induction false} Bound(r: nat, a: nat, b: nat, n: nat, t: nat)
    requires r >= 2 && a > 0 && Pow(2, b) <= Pow(r, a) && t * a <= b * n
    ensures Pow(2, t) <= Pow(r, n)
  {
    PowPower(2, b, n);
    PowPower(r, a, n);
    PowBase(Pow(2, b), Pow(r, a), n);
    PowMono(2, t * a, b * n);
    PowPower(2, t, a);
    PowPower(r, n, a);
    hide Pow;
    assert a * n == n * a;
    if Pow(r, n) < Pow(2, t) { PowBaseStrict(Pow(r, n), Pow(2, t), a); }
  }

  /** Bounds multiply. */
  lemma {:induction false} Times(p: nat, q: nat, n: nat, s: nat, t: nat)
    requires Pow(2, s) <= Pow(p, n) && Pow(2, t) <= Pow(q, n)
    ensures Pow(2, s + t) <= Pow(p * q, n)
  {
    PowProduct(p, q, n);
    PowAdd(2, s, t);
    hide Pow;
    MulMono(Pow(2, s), Pow(p, n), Pow(2, t));
    MulMono(Pow(2, t), Pow(q, n), Pow(p, n));
  }

  // ---- the odd part of a radix ----

  function Shift(radix: nat): nat {
    if radix % 32 == 0 then 5 else if radix % 16 == 0 then 4 else if radix % 8 == 0 then 3
    else if radix % 4 == 0 then 2 else if radix % 2 == 0 then 1 else 0
  }

  function Odd(radix: nat): nat {
    radix / (if radix % 32 == 0 then 32 else if radix % 16 == 0 then 16 else if radix % 8 == 0 then 8
             else if radix % 4 == 0 then 4 else if radix % 2 == 0 then 2 else 1)
  }

  lemma {:induction false} OddAndShift(radix: nat)
    requires ValidRadix(radix)
    ensures OddRadix(Odd(radix)) && Shift(radix) <= 5 && Radix(Odd(radix), Shift(radix)) == radix
    ensures Odd(radix) * Pow(2, Shift(radix)) == radix
    ensures Odd(radix) == 1 <==> RadixBits(radix) > 0
    ensures RadixBits(radix) > 0 ==> RadixBits(radix) == Shift(radix) && Pow(2, RadixBits(radix)) == radix
  {
    SmallTwos();
    assert Pow(2, 1) == 2 && Pow(2, 4) == 16;
  }

  // ---- the tables ----

  /** `radix ^ DIGITS_PER_LIMB`; 0 stands for 2^32. */
  const RADIX_BASE: seq<nat> :=
    [0x0000_0000, 0xcfd4_1b91, 0x0000_0000, 0x48c2_7395, 0x81bf_1000, 0x75db_9c97, 0x4000_0000, 0xcfd4_1b91, 0x3b9a_ca00,
     0x8c8b_6d2b, 0x19a1_0000, 0x309f_1021, 0x57f6_c100, 0x98c2_9b81, 0x0000_0000, 0x1875_4571, 0x247d_bc80, 0x3547_667b,
     0x4c4b_4000, 0x6b5a_6e1d, 0x94ac_e180, 0xcaf1_8367, 0x0b64_0000, 0x0e8d_4a51, 0x1269_ae40, 0x1717_9149, 0x1cb9_1000,
     0x2374_4899, 0x2b73_a840, 0x34e6_3b41, 0x4000_0000, 0x4cfa_3cc1, 0x5c13_d840, 0x6d91_b519, 0x81bf_1000]

  /** Significant digits that are used (atod_max_digits_table). */
  const MAX_DIGITS: seq<nat> :=
    [64, 80, 32, 55, 49, 45, 21, 40, 38, 37, 35, 34, 33, 32, 16, 31, 30, 30, 29, 29, 28, 28, 27, 27, 27, 26, 26, 26, 26, 25, 12,
     25, 25, 24, 24]

  const MAX_EXPONENT: seq<int> :=
    [1024, 647, 512, 442, 397, 365, 342, 324, 309, 297, 286, 277, 269, 263, 256, 251, 246, 242, 237, 234, 230, 227, 224, 221,
     218, 216, 214, 211, 209, 207, 205, 203, 202, 200, 199]

  const MIN_EXPONENT: seq<int> :=
    [-1075, -679, -538, -463, -416, -383, -359, -340, -324, -311, -300, -291, -283, -276, -269, -263, -258, -254, -249, -245,
     -242, -238, -235, -232, -229, -227, -224, -222, -220, -217, -215, -214, -212, -210, -208]

  function DigitsPerLimb(radix: nat): nat
    requires ValidRadix(radix)
  {
    DIGITS_PER_LIMB[radix - 2]
  }

  function RadixBase(radix: nat): nat
    requires ValidRadix(radix)
  {
    RADIX_BASE[radix - 2]
  }

  function MaxDigits(radix: nat): nat
    requires ValidRadix(radix)
  {
    MAX_DIGITS[radix - 2]
  }

  function MaxExponent(radix: nat): int
    requires ValidRadix(radix)
  {
    MAX_EXPONENT[radix - 2]
  }

  function MinExponent(radix: nat): int
    requires ValidRadix(radix)
  {
    MIN_EXPONENT[radix - 2]
  }

  /** A full limb holds exactly the digits that fit. */
  ghost predicate LimbEntry(radix: nat)
    requires ValidRadix(radix)
  {
    var d, base := DigitsPerLimb(radix), RadixBase(radix);
    1 <= d <= 32 && base < B && Pow(radix, d) == if base == 0 then B else base
  }

  /** Nothing between zero and infinity is beyond the largest or the smallest exponent. */
  ghost predicate RangeEntry(radix: nat)
    requires ValidRadix(radix)
  {
    && 0 < MaxExponent(radix) <= 1024 && -1100 <= MinExponent(radix) < 0
    && Pow(2, 1024) <= Pow(radix, MaxExponent(radix)) && Pow(2, 1075) <= Pow(radix, -MinExponent(radix))
  }

  // ---- every entry is right ----

  lemma {:induction false} ExactStep(r: nat, a: nat, m: nat, odd: bool)
    requires Pow(r, a) == m
    ensures Pow(r, if odd then 2 * a + 1 else 2 * a) == m * m * (if odd then r else 1)
  {
    PowOne(r);
    PowAdd(r, a, a);
    PowAdd(r, 2 * a, 1);
  }
  lemma {:induction false} LimbFirst(radix: nat)
    requires 2 <= radix <= 5
    ensures LimbEntry(radix)
  {
    hide Pow;
    PowOne(radix);
    var base, d := RADIX_BASE[radix - 2], DIGITS_PER_LIMB[radix - 2];
    if radix == 2 {
      ExactStep(radix, 1, Pow(radix, 1), false);
      ExactStep(radix, 2, Pow(radix, 2), false);
      ExactStep(radix, 4, Pow(radix, 4), false);
      ExactStep(radix, 8, Pow(radix, 8), false);
      ExactStep(radix, 16, Pow(radix, 16), false);
    } else if radix == 3 {
      ExactStep(radix, 1, Pow(radix, 1), false);
      ExactStep(radix, 2, Pow(radix, 2), true);
      ExactStep(radix, 5, Pow(radix, 5), false);
      ExactStep(radix, 10, Pow(radix, 10), false);
    } else if radix == 4 {
      ExactStep(radix, 1, Pow(radix, 1), false);
      ExactStep(radix, 2, Pow(radix, 2), false);
      ExactStep(radix, 4, Pow(radix, 4), false);
      ExactStep(radix, 8, Pow(radix, 8), false);
    } else if radix == 5 {
      ExactStep(radix, 1, Pow(radix, 1), true);
      ExactStep(radix, 3, Pow(radix, 3), false);
      ExactStep(radix, 6, Pow(radix, 6), true);
    }
  }

  lemma {:induction false} LimbSecond(radix: nat)
    requires 6 <= radix <= 9
    ensures LimbEntry(radix)
  {
    hide Pow;
    PowOne(radix);
    var base, d := RADIX_BASE[radix - 2], DIGITS_PER_LIMB[radix - 2];
    if radix == 6 {
      ExactStep(radix, 1, Pow(radix, 1), true);
      ExactStep(radix, 3, Pow(radix, 3), false);
      ExactStep(radix, 6, Pow(radix, 6), false);
    } else if radix == 7 {
      ExactStep(radix, 1, Pow(radix, 1), false);
      ExactStep(radix, 2, Pow(radix, 2), true);
      ExactStep(radix, 5, Pow(radix, 5), true);
    } else if radix == 8 || radix == 9 {
      ExactStep(radix, 1, Pow(radix, 1), false);
      ExactStep(radix, 2, Pow(radix, 2), true);
      ExactStep(radix, 5, Pow(radix, 5), false);
    }
  }

  lemma {:induction false} LimbThird(radix: nat)
    requires 10 <= radix <= 15
    ensures LimbEntry(radix)
  {
    hide Pow;
    PowOne(radix);
    var base, d := RADIX_BASE[radix - 2], DIGITS_PER_LIMB[radix - 2];
    if radix == 10 || radix == 11 {
      ExactStep(radix, 1, Pow(radix, 1), false);
      ExactStep(radix, 2, Pow(radix, 2), false);
      ExactStep(radix, 4, Pow(radix, 4), true);
    } else if 12 <= radix <= 15 {
      ExactStep(radix, 1, Pow(radix, 1), false);
      ExactStep(radix, 2, Pow(radix, 2), false);
      ExactStep(radix, 4, Pow(radix, 4), false);
    }
  }

  lemma {:induction false} LimbFourth(radix: nat)
    requires 16 <= radix <= 22
    ensures LimbEntry(radix)
  {
    hide Pow;
    PowOne(radix);
    var base, d := RADIX_BASE[radix - 2], DIGITS_PER_LIMB[radix - 2];
    if radix == 16 {
      ExactStep(radix, 1, Pow(radix, 1), false);
      ExactStep(radix, 2, Pow(radix, 2), false);
      ExactStep(radix, 4, Pow(radix, 4), false);
    } else if 17 <= radix <= 22 {
      ExactStep(radix, 1, Pow(radix, 1), true);
      ExactStep(radix, 3, Pow(radix, 3), true);
    }
  }

  lemma {:induction false} LimbFifth(radix: nat)
    requires 23 <= radix <= 29
    ensures LimbEntry(radix)
  {
    hide Pow;
    PowOne(radix);
    var base, d := RADIX_BASE[radix - 2], DIGITS_PER_LIMB[radix - 2];
    if radix == 23 {
      ExactStep(radix, 1, Pow(radix, 1), true);
      ExactStep(radix, 3, Pow(radix, 3), true);
    } else if 24 <= radix <= 29 {
      ExactStep(radix, 1, Pow(radix, 1), true);
      ExactStep(radix, 3, Pow(radix, 3), false);
    }
  }

  lemma {:induction false} LimbLast(radix: nat)
    requires 30 <= radix <= 36
    ensures LimbEntry(radix)
  {
    hide Pow;
    PowOne(radix);
    var base, d := RADIX_BASE[radix - 2], DIGITS_PER_LIMB[radix - 2];
    if 30 <= radix <= 36 {
      ExactStep(radix, 1, Pow(radix, 1), true);
      ExactStep(radix, 3, Pow(radix, 3), false);
    }
  }

  lemma LimbEntries(radix: nat)
    requires ValidRadix(radix)
    ensures LimbEntry(radix)
  {
    hide LimbEntry;
    if radix <= 5 {
      LimbFirst(radix);
    } else if radix <= 9 {
      LimbSecond(radix);
    } else if radix <= 15 {
      LimbThird(radix);
    } else if radix <= 22 {
      LimbFourth(radix);
    } else if radix <= 29 {
      LimbFifth(radix);
    } else {
      LimbLast(radix);
    }
  }

  lemma {:induction false} RangeOf(radix: nat, a: nat, b: nat)
    requires ValidRadix(radix) && Odd(radix) > 1 && a > 0 && Pow(2, b) <= Pow(Odd(radix), a)
    requires var s, m, n := Shift(radix), MAX_EXPONENT[radix - 2], -MIN_EXPONENT[radix - 2];
             (1024 - s * m) * a <= b * m && (1075 - s * n) * a <= b * n
    ensures RangeEntry(radix)
  {
    hide Pow, Shift, Odd;
    OddAndShift(radix);
    PowerAtLeast(radix, a, b, MAX_EXPONENT[radix - 2], 1024);
    PowerAtLeast(radix, a, b, -MIN_EXPONENT[radix - 2], 1075);
  }

  lemma {:induction false} PowerAtLeast(radix: nat, a: nat, b: nat, n: nat, t: nat)
    requires ValidRadix(radix) && Odd(radix) > 1 && a > 0 && Pow(2, b) <= Pow(Odd(radix), a)
    requires (t - Shift(radix) * n) * a <= b * n
    ensures Pow(2, t) <= Pow(radix, n)
  {
    hide Pow, Shift, Odd;
    OddAndShift(radix);
    var s, r1 := Shift(radix), Odd(radix);
    var u: nat := if t > s * n then t - s * n else 0;
    PowOne(2);
    if u == 0 {
      PowMono(r1, 0, n);
      PowOne(r1);
    } else {
      Bound(r1, a, b, n, u);
    }
    PowPower(2, s, n);
    Times(r1, Pow(2, s), n, u, s * n);
    PowMono(2, t, u + s * n);
  }

  lemma {:induction false} RangeThree(radix: nat)
    requires ValidRadix(radix) && Odd(radix) == 3
    ensures RangeEntry(radix)
  {
    hide Pow, RangeEntry;
    Three();
    RangeOf(radix, 53, 84);
  }

  lemma {:induction false} RangeFive(radix: nat)
    requires ValidRadix(radix) && Odd(radix) == 5
    ensures RangeEntry(radix)
  {
    hide Pow, RangeEntry;
    Five();
    RangeOf(radix, 87, 202);
  }

  lemma {:induction false} RangeSeven(radix: nat)
    requires ValidRadix(radix) && Odd(radix) == 7
    ensures RangeEntry(radix)
  {
    hide Pow, RangeEntry;
    Seven();
    RangeOf(radix, 57, 160);
  }

  lemma {:induction false} RangeEleven(radix: nat)
    requires ValidRadix(radix) && Odd(radix) == 11
    ensures RangeEntry(radix)
  {
    hide Pow, RangeEntry;
    Eleven();
    RangeOf(radix, 24, 83);
  }

  lemma {:induction false} RangeThirteen(radix: nat)
    requires ValidRadix(radix) && Odd(radix) == 13
    ensures RangeEntry(radix)
  {
    hide Pow, RangeEntry;
    Thirteen();
    RangeOf(radix, 10, 37);
  }

  lemma {:induction false} RangeSeventeen(radix: nat)
    requires ValidRadix(radix) && Odd(radix) == 17
    ensures RangeEntry(radix)
  {
    hide Pow, RangeEntry;
    Seventeen();
    RangeOf(radix, 263, 1075);
  }

  lemma {:induction false} RangeNineteen(radix: nat)
    requires ValidRadix(radix) && Odd(radix) == 19
    ensures RangeEntry(radix)
  {
    hide Pow, RangeEntry;
    Nineteen();
    RangeOf(radix, 17, 72);
  }

  lemma {:induction false} RangeTwentyThree(radix: nat)
    requires ValidRadix(radix) && Odd(radix) == 23
    ensures RangeEntry(radix)
  {
    hide Pow, RangeEntry;
    TwentyThree();
    RangeOf(radix, 23, 104);
  }

  lemma {:induction false} RangeTwentyNine(radix: nat)
    requires ValidRadix(radix) && Odd(radix) == 29
    ensures RangeEntry(radix)
  {
    hide Pow, RangeEntry;
    TwentyNine();
    RangeOf(radix, 7, 34);
  }

  lemma {:induction false} RangeThirtyOne(radix: nat)
    requires ValidRadix(radix) && Odd(radix) == 31
    ensures RangeEntry(radix)
  {
    hide Pow, RangeEntry;
    ThirtyOne();
    RangeOf(radix, 87, 431);
  }

  lemma {:induction false} RangeThirtyThree(radix: nat)
    requires ValidRadix(radix) && Odd(radix) == 33
    ensures RangeEntry(radix)
  {
    hide Pow, RangeEntry;
    ThirtyThree();
    RangeOf(radix, 203, 1024);
  }

  lemma {:induction false} RangeNine(radix: nat)
    requires ValidRadix(radix) && Odd(radix) == 9
    ensures RangeEntry(radix)
  {
    hide Pow, RangeEntry;
    Three();
    Times(3, 3, 53, 84, 84);
    RangeOf(radix, 53, 168);
  }

  lemma {:induction false} RangeTwentySeven(radix: nat)
    requires ValidRadix(radix) && Odd(radix) == 27
    ensures RangeEntry(radix)
  {
    hide Pow, RangeEntry;
    Three();
    Times(3, 3, 53, 84, 84);
    Times(9, 3, 53, 168, 84);
    RangeOf(radix, 53, 252);
  }

  lemma {:induction false} RangeTwentyFive(radix: nat)
    requires ValidRadix(radix) && Odd(radix) == 25
    ensures RangeEntry(radix)
  {
    hide Pow, RangeEntry;
    Five();
    Times(5, 5, 87, 202, 202);
    RangeOf(radix, 87, 404);
  }

  lemma {:induction false} RangeFifteen(radix: nat)
    requires ValidRadix(radix) && Odd(radix) == 15
    ensures RangeEntry(radix)
  {
    hide Pow, RangeEntry;
    Three();
    Five();
    Bound(3, 53, 84, 4611, 7308);
    Bound(5, 87, 202, 4611, 10706);
    Times(3, 5, 4611, 7308, 10706);
    RangeOf(radix, 4611, 18014);
  }

  lemma {:induction false} RangeTwentyOne(radix: nat)
    requires ValidRadix(radix) && Odd(radix) == 21
    ensures RangeEntry(radix)
  {
    hide Pow, RangeEntry;
    Three();
    Seven();
    Bound(3, 53, 84, 3021, 4788);
    Bound(7, 57, 160, 3021, 8480);
    Times(3, 7, 3021, 4788, 8480);
    RangeOf(radix, 3021, 13268);
  }

  lemma {:induction false} RangeThirtyFive(radix: nat)
    requires ValidRadix(radix) && Odd(radix) == 35
    ensures RangeEntry(radix)
  {
    hide Pow, RangeEntry;
    Five();
    Seven();
    Bound(5, 87, 202, 4959, 11514);
    Bound(7, 57, 160, 4959, 13920);
    Times(5, 7, 4959, 11514, 13920);
    RangeOf(radix, 4959, 25434);
  }

  lemma RangeEntries(radix: nat)
    requires ValidRadix(radix) && RadixBits(radix) == 0
    ensures RangeEntry(radix)
  {
    hide RangeEntry;
    OddAndShift(radix);
    if Odd(radix) == 3 {
      RangeThree(radix);
    } else if Odd(radix) == 5 {
      RangeFive(radix);
    } else if Odd(radix) == 7 {
      RangeSeven(radix);
    } else if Odd(radix) == 9 {
      RangeNine(radix);
    } else if Odd(radix) == 11 {
      RangeEleven(radix);
    } else if Odd(radix) == 13 {
      RangeThirteen(radix);
    } else if Odd(radix) == 15 {
      RangeFifteen(radix);
    } else if Odd(radix) == 17 {
      RangeSeventeen(radix);
    } else if Odd(radix) == 19 {
      RangeNineteen(radix);
    } else if Odd(radix) == 21 {
      RangeTwentyOne(radix);
    } else if Odd(radix) == 23 {
      RangeTwentyThree(radix);
    } else if Odd(radix) == 25 {
      RangeTwentyFive(radix);
    } else if Odd(radix) == 27 {
      RangeTwentySeven(radix);
    } else if Odd(radix) == 29 {
      RangeTwentyNine(radix);
    } else if Odd(radix) == 31 {
      RangeThirtyOne(radix);
    } else if Odd(radix) == 33 {
      RangeThirtyThree(radix);
    } else if Odd(radix) == 35 {
      RangeThirtyFive(radix);
    }
  }

  /** An upper bound of the binary logarithm. */
  function LogAbove(radix: nat): nat {
    if radix <= 2 then 1 else if radix <= 4 then 2 else if radix <= 8 then 3 else if radix <= 16 then 4
    else if radix <= 32 then 5 else 6
  }

  lemma {:induction false} BelowLog(radix: nat)
    requires ValidRadix(radix)
    ensures radix <= Pow(2, LogAbove(radix))
  {
    SmallTwos();
    assert Pow(2, 1) == 2 && Pow(2, 4) == 16 && Pow(2, 6) == 64;
  }

  /** The bignum of js_atod is large enough: the digits that are used take at most six limbs, the largest number 52, and
      52 are enough to divide. */
  predicate RoomEntry(radix: nat)
    requires ValidRadix(radix)
  {
    && 12 <= MaxDigits(radix) < 5 * DigitsPerLimb(radix)
    && (RadixBits(radix) > 0 ==> 55 <= RadixBits(radix) * (MaxDigits(radix) - 1))
    && LogAbove(radix) * MaxExponent(radix) <= 32 * 52
    && (RadixBits(radix) == 0 ==> MaxDigits(radix) - MinExponent(radix) - 1 <= 44 * DigitsPerLimb(Odd(radix)))
  }

  lemma RoomFirst(radix: nat)
    requires 2 <= radix <= 3
    ensures RoomEntry(radix)
  {
    assert radix == 2 || radix == 3;
  }

  lemma RoomSecond(radix: nat)
    requires 4 <= radix <= 6
    ensures RoomEntry(radix)
  {
    assert radix == 4 || radix == 5 || radix == 6;
  }

  lemma RoomThird(radix: nat)
    requires 7 <= radix <= 9
    ensures RoomEntry(radix)
  {
    assert radix == 7 || radix == 8 || radix == 9;
  }

  lemma RoomFourth(radix: nat)
    requires 10 <= radix <= 11
    ensures RoomEntry(radix)
  {
    assert radix == 10 || radix == 11;
  }

  lemma RoomFifth(radix: nat)
    requires 12 <= radix <= 13
    ensures RoomEntry(radix)
  {
    assert radix == 12 || radix == 13;
  }

  lemma RoomSixth(radix: nat)
    requires 14 <= radix <= 15
    ensures RoomEntry(radix)
  {
    assert radix == 14 || radix == 15;
  }

  lemma RoomSeventh(radix: nat)
    requires 16 <= radix <= 18
    ensures RoomEntry(radix)
  {
    assert radix == 16 || radix == 17 || radix == 18;
  }

  lemma RoomEighth(radix: nat)
    requires 19 <= radix <= 22
    ensures RoomEntry(radix)
  {
    assert radix == 19 || radix == 20 || radix == 21 || radix == 22;
  }

  lemma RoomNinth(radix: nat)
    requires 23 <= radix <= 26
    ensures RoomEntry(radix)
  {
    assert radix == 23 || radix == 24 || radix == 25 || radix == 26;
  }

  lemma RoomTenth(radix: nat)
    requires 27 <= radix <= 31
    ensures RoomEntry(radix)
  {
    assert radix == 27 || radix == 28 || radix == 29 || radix == 30 || radix == 31;
  }

  lemma RoomLast(radix: nat)
    requires 32 <= radix <= 36
    ensures RoomEntry(radix)
  {
    assert radix == 32 || radix == 33 || radix == 34 || radix == 35 || radix == 36;
  }

  lemma RoomEntries(radix: nat)
    requires ValidRadix(radix)
    ensures RoomEntry(radix)
  {
    hide RoomEntry;
    if radix <= 3 {
      RoomFirst(radix);
    } else if radix <= 6 {
      RoomSecond(radix);
    } else if radix <= 9 {
      RoomThird(radix);
    } else if radix <= 11 {
      RoomFourth(radix);
    } else if radix <= 13 {
      RoomFifth(radix);
    } else if radix <= 15 {
      RoomSixth(radix);
    } else if radix <= 18 {
      RoomSeventh(radix);
    } else if radix <= 22 {
      RoomEighth(radix);
    } else if radix <= 26 {
      RoomNinth(radix);
    } else if radix <= 31 {
      RoomTenth(radix);
    } else {
      RoomLast(radix);
    }
  }
}
