/** Scaling a bignum by a power of the radix, and rounding the result to an integer. */
module DtScale {
  import opened DtArith
  import opened DtLimb
  import opened DtBig
  import opened DtPow

  function Abs(x: int): nat { if x < 0 then -x else x }

  function Pos(x: int): nat { if x < 0 then 0 else x }

  lemma {:induction false} DigitsFit(r: nat)
    requires OddRadix(r) && r > 1
    ensures 1 <= DIGITS_PER_LIMB[r - 2] <= 32 && Pow(r, DIGITS_PER_LIMB[r - 2]) < B
  {
    if r <= 11 {
      SmallDigitsFit(r);
    } else {
      LargeDigitsFit(r);
    }
  }

  lemma {:induction false} SmallDigitsFit(r: nat)
    requires OddRadix(r) && 1 < r <= 11
    ensures 1 <= DIGITS_PER_LIMB[r - 2] <= 32 && Pow(r, DIGITS_PER_LIMB[r - 2]) < B
  {
    hide Pow;
    if r == 3 {
      ThreeFits();
    } else if r == 5 {
      Pow5Table(13);
    } else if r == 7 {
      SevenFits();
    } else {
      NineAndElevenFit();
    }
  }

  lemma {:induction false} NineAndElevenFit()
    ensures Pow(9, 10) < B && Pow(11, 9) < B
  {
    assert Pow(9, 3) == 729 && Pow(11, 3) == 1331;
    PowAdd(9, 3, 3);
    PowAdd(9, 6, 3);
    PowStep(9, 9);
    PowAdd(11, 3, 3);
    PowAdd(11, 6, 3);
  }

  lemma {:induction false} ThreeFits()
    ensures Pow(3, 20) < B
  {
    assert Pow(3, 4) == 81;
    PowAdd(3, 4, 4);
    PowAdd(3, 8, 4);
    PowAdd(3, 12, 8);
  }

  lemma {:induction false} SevenFits()
    ensures Pow(7, 11) < B
  {
    assert Pow(7, 3) == 343;
    PowAdd(7, 3, 3);
    PowAdd(7, 6, 3);
    PowAdd(7, 9, 2);
    PowOne(7);
  }

  lemma {:induction false} LargeDigitsFit(r: nat)
    requires OddRadix(r) && 11 < r
    ensures 1 <= DIGITS_PER_LIMB[r - 2] <= 32 && Pow(r, DIGITS_PER_LIMB[r - 2]) < B
  {
    if r <= 15 {
      assert Pow(15, 4) == 50625;
      PowAdd(15, 4, 4);
      PowBase(r, 15, 8);
    } else if r <= 23 {
      assert Pow(23, 3) == 12167;
      PowAdd(23, 3, 3);
      PowStep(23, 6);
      PowBase(r, 23, 7);
    } else {
      assert Pow(35, 3) == 42875;
      PowAdd(35, 3, 3);
      PowBase(r, 35, 6);
    }
  }

  /** `w / 2^eOffset` is `v * (r1 * 2^rs)^f`, up to bits below the last one; these show in the last one being set. */
  ghost predicate Scaled(v: nat, r1: nat, rs: nat, f: int, eOffset: int, w: nat)
    requires r1 >= 1
  {
    var k := eOffset + f * rs;
    && k >= 0
    && if f >= 0 || r1 == 1 then k == 0 && w == v * Pow(r1, Abs(f))
       else w == Sticky(v * Pow(2, k) / Pow(r1, -f), v * Pow(2, k) % Pow(r1, -f) != 0)
  }

  /** Limbs mul_pow makes room for before it divides. */
  function DivLimbs(r1: nat, f: nat): nat
    requires OddRadix(r1) && r1 > 1
  {
    var d := DIGITS_PER_LIMB[r1 - 2];
    (f + d - 1) / d
  }

  /** Bits mul_pow keeps for rounding. */
  function ExtraBits(isInt: bool, e: int, eOffset: int, log2: int): nat {
    if isInt then Pos(2 + e - eOffset) else Pos(e - log2)
  }

  /** The bignum is large enough. */
  ghost predicate HasRoom(a: Mpb, r1: nat, rs: nat, f: int, isInt: bool, e: int)
    requires a.Valid() && OddRadix(r1)
    reads a, a.tab
  {
    r1 > 1 ==>
      && (f >= 0 ==> a.Value() * Pow(r1, f) < Pow(B, a.tab.Length))
      && (f < 0 ==>
            var l := DivLimbs(r1, -f);
            a.len + l + ExtraBits(isInt, e, -f * rs + 32 * l, -1) / 32 + 1 <= a.tab.Length)
  }

  /** mul_pow */
  method MulPow(a: Mpb, r1: nat, rs: nat, f: int, isInt: bool, e: int) returns (eOffset: int)
    requires a.Valid() && a.Normalized() && OddRadix(r1) && rs <= 5 && Abs(f) < B && HasRoom(a, r1, rs, f, isInt, e)
    requires isInt || e >= 0
    modifies a, a.tab
    ensures a.Valid() && a.Normalized() && Scaled(old(a.Value()), r1, rs, f, eOffset, a.Value())
    ensures isInt && f < 0 && r1 > 1 ==> eOffset - e >= 2
    ensures !isInt && f < 0 && r1 > 1 && old(a.Value()) > 0 ==> a.Value() >= Pow(2, e)
  {
    hide Pow, Val, Sticky;
    eOffset := -f * rs;
    ghost var v := a.Value();
    if r1 != 1 {
      if f >= 0 {
        MulUp(a, r1, f);
      } else {
        eOffset := DivDown(a, r1, rs, -f, isInt, e);
      }
    } else {
      PowOfOne(Abs(f));
    }
  }

  lemma {:induction false} PowOfOne(n: nat)
    ensures Pow(1, n) == 1
  {
    if n > 0 {
      PowOfOne(n - 1);
    }
  }

  method MulUp(a: Mpb, r1: nat, f0: nat)
    requires a.Valid() && a.Normalized() && OddRadix(r1) && r1 > 1 && f0 < B && a.Value() * Pow(r1, f0) < Pow(B, a.tab.Length)
    modifies a, a.tab
    ensures a.Valid() && a.Normalized() && a.Value() == old(a.Value()) * Pow(r1, f0)
  {
    var d := DIGITS_PER_LIMB[r1 - 2];
    DigitsFit(r1);
    ghost var v := a.Value();
    PowOne(r1);
    hide Pow, Val;
    var f, b, n0 := f0, 0, 0;
    while f != 0
      invariant 0 <= f <= f0 && a.Valid() && a.Normalized() && a.Value() == v * Pow(r1, f0 - f)
      invariant n0 > 0 ==> n0 <= d && b == Pow(r1, n0) < B
    {
      var n := if f < d then f else d;
      PowMono(r1, n, d);
      if n != n0 {
        b := PowUi(r1, n);
        n0 := n;
      }
      UpStep(v, r1, f0, f, n);
      PowPositive(r1, n);
      a.MulBy(b);
      f := f - n;
    }
  }

  lemma {:induction false} UpStep(v: nat, r: nat, f0: nat, f: nat, n: nat)
    requires r >= 1 && n <= f <= f0
    ensures v * Pow(r, f0 - f) * Pow(r, n) == v * Pow(r, f0 - (f - n)) <= v * Pow(r, f0)
  {
    PowAdd(r, f0 - f, n);
    PowMono(r, f0 - (f - n), f0);
    var x, y, z := Pow(r, f0 - f), Pow(r, n), Pow(r, f0);
    hide Pow;
    Assoc(v, x, y);
    MulMono(x * y, z, v);
  }

  method DivDown(a: Mpb, r1: nat, rs: nat, f0: int, isInt: bool, e: int) returns (eOffset: int)
    requires a.Valid() && a.Normalized() && OddRadix(r1) && r1 > 1 && rs <= 5 && 0 < f0 < B && (isInt || e >= 0)
    requires var l := DivLimbs(r1, f0);
             a.len + l + ExtraBits(isInt, e, f0 * rs + 32 * l, -1) / 32 + 1 <= a.tab.Length
    modifies a, a.tab
    ensures a.Valid() && a.Normalized() && Scaled(old(a.Value()), r1, rs, -f0, eOffset, a.Value())
    ensures isInt ==> eOffset - e >= 2
    ensures !isInt && old(a.Value()) > 0 ==> a.Value() >= Pow(2, e)
  {
    hide Pow, Val, Sticky, RoundDiv, Inverse, Scaled;
    var d := DIGITS_PER_LIMB[r1 - 2];
    DigitsFit(r1);
    ghost var v := a.Value();
    var l := (f0 + d - 1) / d;
    DivUp(f0, d, l);
    eOffset := f0 * rs + l * 32;
    var extraBits;
    ghost var log2 := 0;
    if !isInt {
      var k := a.FloorLog2();
      log2 := Pos(k);
      extraBits := if e - k > 0 then e - k else 0;
    } else {
      extraBits := if 2 + e - eOffset > 0 then 2 + e - eOffset else 0;
    }
    eOffset := eOffset + extraBits;
    Room(l, extraBits, ExtraBits(isInt, e, f0 * rs + 32 * l, -1));
    ghost var shift := l * 32 + extraBits;
    a.ShlBy(l * 32 + extraBits);
    var inexact := DivideOut(a, r1, d, f0);
    ghost var q := a.Value();
    QuotientLarge(v, r1, f0, d, l, extraBits, log2, if isInt then 0 else e);
    a.SetSticky(inexact);
    StickyAtLeast(q, inexact);
    ScaledDown(v, r1, rs, f0, shift, eOffset, a.Value());
  }

  lemma DivUp(f: nat, d: nat, l: nat)
    requires f > 0 && d > 0 && l == (f + d - 1) / d
    ensures l >= 1 && f <= l * d
  {
    DivMod(f + d - 1, d);
    if l < 1 { MulMono(l, 0, d); }
  }

  lemma Room(l: nat, extra: nat, most: nat)
    requires l >= 1 && extra <= most
    ensures (l * 32 + extra) / 32 + (if (l * 32 + extra) % 32 != 0 then 1 else 0) <= l + most / 32 + 1
    ensures l * 32 + extra > 0
  {
  }

  lemma StickyAtLeast(q: nat, inexact: bool)
    ensures Sticky(q, inexact) >= q
  {
  }

  lemma {:induction false} ScaledDown(v: nat, r1: nat, rs: nat, f: int, shift: nat, eOffset: int, w: nat)
    requires r1 > 1 && f > 0 && eOffset == f * rs + shift
    requires w == Sticky(v * Pow(2, shift) / Pow(r1, f), v * Pow(2, shift) % Pow(r1, f) != 0)
    ensures Scaled(v, r1, rs, -f, eOffset, w)
  {
    hide Pow, Sticky;
    assert eOffset + -f * rs == shift;
  }

  /** Divides by `r1^f0`, `d` digits at a time. */
  method DivideOut(a: Mpb, r1: nat, d: nat, f0: nat) returns (inexact: bool)
    requires a.Valid() && r1 > 1 && 1 <= d < B && Pow(r1, d) < B && f0 > 0
    modifies a, a.tab
    ensures a.Valid() && a.Normalized() && a.Value() == old(a.Value()) / Pow(r1, f0) && a.len <= old(a.len)
    ensures inexact <==> old(a.Value()) % Pow(r1, f0) != 0
  {
    ghost var n := a.Value();
    PowOne(r1);
    hide Pow, Val, Inverse;
    var f, n0, b, bInv, shift := f0, 0, 0, 0, 0;
    inexact := false;
    while f != 0
      invariant 0 <= f <= f0 && a.Valid() && (f < f0 ==> a.Normalized()) && a.len <= old(a.len)
      invariant a.Value() == n / Pow(r1, f0 - f) && (inexact <==> n % Pow(r1, f0 - f) != 0)
      invariant n0 > 0 ==> n0 <= d && shift < 32 && b == Pow(r1, n0) * Pow(2, shift) && Normal(b) && bInv == Inverse(b)
    {
      var m := if f < d then f else d;
      PowMono(r1, m, d);
      if m != n0 {
        b, bInv, shift := PowUiInv(r1, m);
        n0 := m;
      }
      DivTwice(n, Pow(r1, f0 - f), Pow(r1, m));
      PowAdd(r1, f0 - f, m);
      var r := a.DivBy(Pow(r1, m), b, bInv, shift);
      inexact := inexact || r != 0;
      f := f - m;
    }
  }

  /** Enough bits are left: the divisor is below the room made for it. */
  lemma {:induction false} QuotientLarge(v: nat, r1: nat, f: nat, d: nat, l: nat, extra: nat, log2: nat, e: nat)
    requires r1 >= 1 && d >= 1 && Pow(r1, d) < B && f <= l * d
    ensures v > 0 && Pow(2, log2) <= v && log2 + extra >= e ==> v * Pow(2, l * 32 + extra) / Pow(r1, f) >= Pow(2, e)
  {
    if v > 0 && Pow(2, log2) <= v && log2 + extra >= e {
      var p, q, x := Pow(r1, f), Pow(2, l * 32), Pow(2, extra);
      PowMono(r1, f, l * d);
      PowPower(r1, d, l);
      assert d * l == l * d;
      PowBase(Pow(r1, d), B, l);
      TwoTo32();
      PowPower(2, 32, l);
      assert p <= q;
      PowAdd(2, l * 32, extra);
      PowAdd(2, log2, extra);
      PowMono(2, e, log2 + extra);
      MulMono(Pow(2, log2), v, x);
      hide Pow;
      LargeEnough(v, p, q, x, Pow(2, e));
    }
  }

  lemma LargeEnough(v: nat, p: nat, q: nat, x: nat, t: nat)
    requires 0 < p <= q && t <= v * x
    ensures v * (q * x) / p >= t
  {
    Assoc(v, x, q);
    assert x * q == q * x;
    MulMono(t, v * x, q);
    MulMono(p, q, t);
    var n := v * (q * x);
    var q' := n / p;
    DivMod(n, p);
    assert (q' + 1) * p == q' * p + p;
    if q' < t {
      MulMono(q' + 1, t, p);
    }
  }

  // ---- mul_pow_round ----

  /** `m * 2^e * radix^f` as a fraction. */
  function Num(m: nat, e: int, radix: nat, f: int): nat { Mul(Mul(m, Pow(2, Pos(e))), Pow(radix, Pos(f))) }

  function Den(e: int, radix: nat, f: int): (d: nat)
    requires radix > 0
    ensures d > 0
  {
    Mul(Pow(2, Pos(-e)), Pow(radix, Pos(-f)))
  }

  /** The radix with odd part `r1`. */
  function Radix(r1: nat, rs: nat): (r: nat)
    requires r1 > 0
    ensures r > 0
  {
    Mul(r1, Pow(2, rs))
  }

  lemma {:induction false} MulOne(a: nat)
    ensures Mul(a, 1) == a == Mul(1, a)
  {
  }

  /** A shift, either way, as a fraction. */
  lemma {:induction false} ShiftAsFraction(v: nat, shift: int, mode: Mode)
    ensures RoundShift(v, shift, mode) == RoundDiv(Mul(v, Pow(2, Pos(-shift))), Pow(2, Pos(shift)), mode)
  {
    PowOne(2);
    hide Pow;
    if shift <= 0 {
      RoundDivExact(v * Pow(2, -shift), 1, mode);
    } else {
      assert v * 1 == v;
    }
  }

  /** A power of the radix splits into its odd and its even part. */
  lemma {:induction false} RadixPower(r1: nat, rs: nat, n: nat)
    requires r1 > 0
    ensures Pow(Radix(r1, rs), n) == Mul(Pow(r1, n), Pow(2, rs * n))
  {
    PowProduct(r1, Pow(2, rs), n);
    PowPower(2, rs, n);
  }

  lemma {:induction false} UpRounds(v: nat, r1: nat, rs: nat, f: nat, g: nat, e: int, mode: Mode)
    requires r1 > 0 && Pow(Radix(r1, rs), f) == Mul(Pow(r1, f), Pow(2, g))
    ensures RoundShift(Mul(v, Pow(r1, f)), -e - g, mode) == RoundDiv(Num(v, e, Radix(r1, rs), f), Den(e, Radix(r1, rs), f), mode)
  {
    PowOne(Radix(r1, rs));
    hide Pow, RoundDiv, RoundShift, Mul, Radix;
    var s, w := -e - g, Mul(v, Pow(r1, f));
    UpCross(v, r1, rs, f, g, e, s);
    hide Num, Den;
    ShiftAsFraction(w, s, mode);
    RoundDivCross(Mul(w, Pow(2, Pos(-s))), Pow(2, Pos(s)), Num(v, e, Radix(r1, rs), f), Den(e, Radix(r1, rs), f), mode);
  }

  lemma {:induction false} UpCross(v: nat, r1: nat, rs: nat, f: nat, g: nat, e: int, s: int)
    requires r1 > 0 && Pow(Radix(r1, rs), f) == Mul(Pow(r1, f), Pow(2, g)) && s == -e - g
    ensures Mul(Mul(Mul(v, Pow(r1, f)), Pow(2, Pos(-s))), Den(e, Radix(r1, rs), f))
         == Mul(Num(v, e, Radix(r1, rs), f), Pow(2, Pos(s)))
  {
    PowOne(Radix(r1, rs));
    hide Pow, Mul, Radix;
    var w, ep, en := Mul(v, Pow(r1, f)), Pow(2, Pos(e)), Pow(2, Pos(-e));
    MulOne(en);
    MulQuad(v, ep, Pow(r1, f), Pow(2, g));
    PowMul(2, Pos(e), g);
    MulAssoc(w, Pow(2, Pos(-s)), en);
    PowMul(2, Pos(-s), Pos(-e));
    MulAssoc(w, Pow(2, Pos(e) + g), Pow(2, Pos(s)));
    PowMul(2, Pos(e) + g, Pos(s));
  }

  lemma {:induction false} DownRounds(v: nat, r1: nat, rs: nat, f: int, g: nat, shift: nat, e: int, w: nat, mode: Mode)
    requires r1 > 0 && f > 0 && g + shift - e >= 2 && Pow(Radix(r1, rs), f) == Mul(Pow(r1, f), Pow(2, g))
    requires w == Sticky(Mul(v, Pow(2, shift)) / Pow(r1, f), Mul(v, Pow(2, shift)) % Pow(r1, f) != 0)
    ensures RoundShift(w, g + shift - e, mode) == RoundDiv(Num(v, e, Radix(r1, rs), -f), Den(e, Radix(r1, rs), -f), mode)
  {
    hide Pow, RoundDiv, Mul, Radix, Sticky, Num, Den;
    var s: nat := g + shift - e;
    FourDivides(s);
    StickyMul(Mul(v, Pow(2, shift)), Pow(r1, f), Pow(2, s), mode);
    DownCross(v, r1, rs, f, g, shift, e, s);
    RoundDivCross(Mul(v, Pow(2, shift)), Mul(Pow(r1, f), Pow(2, s)),
                  Num(v, e, Radix(r1, rs), -f), Den(e, Radix(r1, rs), -f), mode);
  }

  /** Cross-multiplied, both sides are `v * r1^f` times the same power of two. */
  lemma {:induction false} DownCross(v: nat, r1: nat, rs: nat, f: int, g: nat, shift: nat, e: int, s: nat)
    requires r1 > 0 && f > 0 && s == g + shift - e && Pow(Radix(r1, rs), f) == Mul(Pow(r1, f), Pow(2, g))
    ensures Mul(Mul(v, Pow(2, shift)), Den(e, Radix(r1, rs), -f))
         == Mul(Num(v, e, Radix(r1, rs), -f), Mul(Pow(r1, f), Pow(2, s)))
  {
    PowOne(Radix(r1, rs));
    hide Pow, Mul, Radix;
    var i, j := Pos(-e), Pos(e);
    var t := shift + (i + g);
    assert t == j + s;
    MulOne(Mul(v, Pow(2, j)));
    PowMul(2, i, g);
    PowMul(2, shift, i + g);
    PowMul(2, j, s);
    CrossParts(v, Pow(r1, f), Pow(2, shift), Pow(2, i), Pow(2, g), Pow(2, j), Pow(2, s), Pow(2, i + g), Pow(2, t));
  }

  lemma {:induction false} CrossParts(v: nat, p: nat, a: nat, b: nat, c: nat, d: nat, x: nat, bc: nat, all: nat)
    requires bc == Mul(b, c) && all == Mul(a, bc) && all == Mul(d, x)
    ensures Mul(Mul(v, a), Mul(b, Mul(p, c))) == Mul(Mul(v, d), Mul(p, x))
  {
    hide Mul;
    MulAssoc(b, p, c);
    MulComm(b, p);
    MulAssoc(p, b, c);
    MulQuad(v, a, p, bc);
    MulQuad(v, d, p, x);
  }

  lemma {:induction false} FourDivides(s: nat)
    requires s >= 2
    ensures Pow(2, s) % 4 == 0
  {
    hide Pow;
    PowStep(2, s - 1);
    PowStep(2, s - 2);
    assert Pow(2, s) == 4 * Pow(2, s - 2);
  }

  lemma {:induction false} StickyMul(n: nat, p: nat, w: nat, mode: Mode)
    requires p > 0 && w > 0 && w % 4 == 0
    ensures Mul(p, w) > 0 && RoundDiv(Sticky(n / p, n % p != 0), w, mode) == RoundDiv(n, Mul(p, w), mode)
  {
    hide RoundDiv, Sticky;
    StickyRounds(n, p, w, mode);
  }

  lemma {:induction false} ScaledRounds(v: nat, r1: nat, rs: nat, f: int, eOffset: int, w: nat, e: int, mode: Mode)
    requires r1 >= 1 && Scaled(v, r1, rs, f, eOffset, w) && (f < 0 && r1 > 1 ==> eOffset - e >= 2)
    ensures RoundShift(w, eOffset - e, mode) == RoundDiv(Num(v, e, Radix(r1, rs), f), Den(e, Radix(r1, rs), f), mode)
  {
    hide Pow, RoundDiv, RoundShift, Num, Den, Sticky, Radix;
    if f >= 0 {
      RadixPower(r1, rs, f);
      assert rs * f == f * rs;
      UpRounds(v, r1, rs, f, rs * f, e, mode);
    } else if r1 == 1 {
      PowOfOne(-f);
      OneRounds(v, rs, f, eOffset, e, mode);
    } else {
      var k := eOffset + f * rs;
      RadixPower(r1, rs, -f);
      assert rs * -f == -(f * rs);
      DownRounds(v, r1, rs, -f, rs * -f, k, e, w, mode);
    }
  }

  lemma {:induction false} OneRounds(v: nat, rs: nat, f: int, eOffset: int, e: int, mode: Mode)
    requires f < 0 && eOffset + f * rs == 0
    ensures RoundShift(v, eOffset - e, mode) == RoundDiv(Num(v, e, Radix(1, rs), f), Den(e, Radix(1, rs), f), mode)
  {
    var s, g: nat := eOffset - e, -f;
    PowOne(Radix(1, rs));
    hide Pow, RoundDiv, RoundShift, Mul, Radix;
    RadixPower(1, rs, g);
    PowOfOne(g);
    ShiftAsFraction(v, s, mode);
    assert rs * g == eOffset;
    var ep, en := Pow(2, Pos(e)), Pow(2, Pos(-e));
    MulOne(Pow(2, rs * g));
    MulOne(Mul(v, ep));
    PowMul(2, Pos(-e), rs * g);
    MulAssoc(v, Pow(2, Pos(-s)), Pow(2, Pos(-e) + rs * g));
    PowMul(2, Pos(-s), Pos(-e) + rs * g);
    MulAssoc(v, ep, Pow(2, Pos(s)));
    PowMul(2, Pos(e), Pos(s));
    RoundDivCross(Mul(v, Pow(2, Pos(-s))), Pow(2, Pos(s)), Num(v, e, Radix(1, rs), f), Den(e, Radix(1, rs), f), mode);
  }

  /** The temporary bignum is large enough for mul_pow_round. */
  ghost predicate RoundingRoom(m: nat, e: int, r1: nat, rs: nat, f: int, room: nat, capacity: nat)
    requires OddRadix(r1)
  {
    if f >= 0 || r1 == 1 then m * Pow(r1, Abs(f)) < Pow(B, room) && room >= 1 && room + Pos(e + f * rs) / 32 + 1 <= capacity
    else 2 + DivLimbs(r1, -f) + ExtraBits(true, e, -f * rs + 32 * DivLimbs(r1, -f), -1) / 32 + 1 <= capacity
  }

  /** A normalized bignum below `B^room` has at most `room` limbs. */
  lemma {:induction false} LenBound(s: seq<limb>, room: nat)
    requires s != [] && room >= 1 && (|s| == 1 || s[|s| - 1] != 0) && Val(s) < Pow(B, room)
    ensures |s| <= room
  {
    hide Val, Pow;
    TopLimb(s);
    if |s| > room { PowMono(B, room, |s| - 1); }
  }

  /** mul_pow_round: `m * 2^e * radix^f` rounded to an integer. */
  method MulPowRound(tmp: Mpb, m: nat, e: int, r1: nat, rs: nat, f: int, mode: Mode, ghost room: nat)
    requires tmp.Valid() && tmp.tab.Length >= 2 && m < U64 && OddRadix(r1) && rs <= 5 && Abs(f) < B
    requires RoundingRoom(m, e, r1, rs, f, room, tmp.tab.Length)
    modifies tmp, tmp.tab
    ensures tmp.Valid() && tmp.Value() == RoundDiv(Num(m, e, Radix(r1, rs), f), Den(e, Radix(r1, rs), f), mode)
    ensures m > 0 ==> tmp.Normalized()
  {
    hide Pow, Val, Num, Den, Radix, RoundDiv, RoundShift, Scaled, Sticky;
    tmp.SetU64(m);
    if f >= 0 {
      RoomToMultiply(m, r1, f, room, tmp.tab.Length);
    }
    ghost var len := tmp.len;
    var eOffset := MulPow(tmp, r1, rs, f, true, e);
    ghost var w := tmp.Value();
    ScaledRounds(m, r1, rs, f, eOffset, w, e, mode);
    if m > 0 { ScaledPositive(m, r1, rs, f, eOffset, w); }
    if f >= 0 || r1 == 1 {
      ScaledUp(m, r1, rs, f, eOffset, w);
      LenBound(tmp.tab[..tmp.len], room);
    }
    tmp.ShrRound(-e + eOffset, mode);
  }

  lemma {:induction false} RoomToMultiply(m: nat, r1: nat, f: int, room: nat, capacity: nat)
    requires f >= 0 && m * Pow(r1, f) < Pow(B, room) && room <= capacity
    ensures m * Pow(r1, f) < Pow(B, capacity)
  {
    PowMono(B, room, capacity);
  }

  lemma {:induction false} ScaledUp(v: nat, r1: nat, rs: nat, f: int, eOffset: int, w: nat)
    requires r1 >= 1 && Scaled(v, r1, rs, f, eOffset, w) && (f >= 0 || r1 == 1)
    ensures w == v * Pow(r1, Abs(f)) && eOffset == -(f * rs)
  {
  }

  lemma {:induction false} ScaledPositive(v: nat, r1: nat, rs: nat, f: int, eOffset: int, w: nat)
    requires r1 >= 1 && v > 0 && Scaled(v, r1, rs, f, eOffset, w)
    ensures w > 0
  {
    if f >= 0 || r1 == 1 {
      Positive(v, Pow(r1, Abs(f)));
    } else {
      var n, p := v * Pow(2, eOffset + f * rs), Pow(r1, -f);
      Positive(v, Pow(2, eOffset + f * rs));
      hide Pow;
      DivMod(n, p);
    }
  }
}
