/** Writing digits: the buffers of u32toa, u64toa and output_digits, filled from the right. */
module DtPrint {
  import opened DtArith
  import opened DtLimb
  import opened DtBig
  import opened DtText

  /** How many digits a number has; zero has one. */
  function Places(v: nat): (n: nat)
    ensures n >= 1
  {
    if v < 10 then 1 else 1 + Places(v / 10)
  }

  /** A number without leading zeros. */
  function DecNat(v: nat): string { Dec(v, Places(v)) }

  lemma {:induction false} PlacesBound(v: nat, n: nat)
    requires v < Pow(10, n) && n >= 1
    ensures Places(v) <= n && v < Pow(10, Places(v))
    ensures v > 0 ==> Pow(10, Places(v) - 1) <= v
    decreases n
  {
    PowOne(10);
    PowStep(10, n - 1);
    if v >= 10 {
      PlacesBound(v / 10, n - 1);
      PowStep(10, Places(v / 10));
      PowStep(10, Places(v / 10) - 1);
    }
  }

  lemma {:induction false} PlacesIs(v: nat, n: nat)
    requires n >= 1 && Pow(10, n - 1) <= v < Pow(10, n)
    ensures Places(v) == n
  {
    PlacesBound(v, n);
    hide Pow, Places;
    if Places(v) < n { PowMono(10, Places(v), n - 1); }
  }

  /** The digits of the high part, then those of the low part. */
  lemma {:induction false} DecSplit(v: nat, a: nat, b: nat, h: nat, l: nat)
    requires v == h * Pow(10, b) + l && l < Pow(10, b)
    ensures Dec(v, a + b) == Dec(h, a) + Dec(l, b) && Dec(l, b) == Dec(v, b)
    decreases b
  {
    if b == 0 {
      PowOne(10);
      assert Dec(v, a) + "" == Dec(v, a);
    } else {
      var p := Pow(10, b - 1);
      PowStep(10, b - 1);
      assert h * (10 * p) == 10 * (h * p) by { Assoc(h, 10, p); Assoc(10, h, p); }
      hide Pow;
      LastDigit(v, h * p, l);
      DecSplit(v / 10, a, b - 1, h, l / 10);
      DecGlue(v, a, b, h, l);
    }
  }

  lemma LastDigit(v: nat, hp: nat, l: nat)
    requires v == 10 * hp + l
    ensures v / 10 == hp + l / 10 && v % 10 == l % 10
  {
  }

  lemma {:induction false} DecGlue(v: nat, a: nat, b: nat, h: nat, l: nat)
    requires b > 0 && l % 10 == v % 10
    requires Dec(v / 10, a + (b - 1)) == Dec(h, a) + Dec(l / 10, b - 1) && Dec(l / 10, b - 1) == Dec(v / 10, b - 1)
    ensures Dec(v, a + b) == Dec(h, a) + Dec(l, b) && Dec(l, b) == Dec(v, b)
  {
    assert a + b - 1 == a + (b - 1);
    var c := [DigitChar(v % 10)];
    assert Dec(v, a + b) == Dec(v / 10, a + (b - 1)) + c;
    assert Dec(l, b) == Dec(l / 10, b - 1) + c;
    assert Dec(h, a) + Dec(l / 10, b - 1) + c == Dec(h, a) + (Dec(l / 10, b - 1) + c);
  }

  /** u32toa_len: exactly `len` digits, written into the buffer from offset `at`. */
  method U32ToALen(buf: array<char>, at: nat, n0: nat, len: nat)
    requires at + len <= buf.Length
    modifies buf
    ensures buf[at..at + len] == Dec(n0, len)
    ensures forall j :: 0 <= j < at || at + len <= j < buf.Length ==> buf[j] == old(buf[j])
  {
    var n, i := n0, len;
    assert buf[at + len..at + len] == "";
    while i > 0
      invariant 0 <= i <= len
      invariant Dec(n0, len) == Dec(n, i) + buf[at + i..at + len]
      invariant forall j :: 0 <= j < at || at + len <= j < buf.Length ==> buf[j] == old(buf[j])
    {
      i := i - 1;
      ghost var tail := buf[at + i + 1..at + len];
      buf[at + i] := DigitChar(n % 10);
      assert buf[at + i + 1..at + len] == tail;
      assert buf[at + i..at + len] == [DigitChar(n % 10)] + tail;
      assert Dec(n, i + 1) + tail == Dec(n / 10, i) + ([DigitChar(n % 10)] + tail);
      n := n / 10;
    }
    assert Dec(n, 0) == "";
  }

  /** u32toa: digits are produced from the right until nothing is left. */
  method U32ToA(n0: nat) returns (s: string)
    requires n0 < B
    ensures s == DecNat(n0)
  {
    var buf := new char[10];
    var q, n := 10, n0;
    TenPlaces(n0);
    ghost var total := Places(n0);
    q := q - 1;
    buf[q] := DigitChar(n % 10);
    n := n / 10;
    DecOne(n0);
    assert buf[9..10] == [DigitChar(n0 % 10)];
    while n != 0
      invariant 10 - total <= q <= 9
      invariant n == 0 ==> q == 10 - total
      invariant n != 0 ==> q - Places(n) == 10 - total
      invariant DecNat(n0) == Dec(n, q - (10 - total)) + buf[q..10]
    {
      q := q - 1;
      ghost var tail := buf[q + 1..10];
      buf[q] := DigitChar(n % 10);
      assert buf[q + 1..10] == tail;
      assert buf[q..10] == [DigitChar(n % 10)] + tail;
      assert Dec(n, q + 1 - (10 - total)) + tail == Dec(n / 10, q - (10 - total)) + ([DigitChar(n % 10)] + tail);
      n := n / 10;
    }
    s := buf[q..10];
    assert Dec(0, 0) == "";
  }

  lemma {:induction false} TenPlaces(n: nat)
    requires n < B
    ensures Places(n) <= 10
  {
    assert Pow(10, 5) == 100000;
    PowAdd(10, 5, 5);
    hide Pow;
    PlacesBound(n, 10);
  }

  lemma {:induction false} DecOne(v: nat)
    ensures DecNat(v) == Dec(v / 10, Places(v) - 1) + [DigitChar(v % 10)]
    ensures v / 10 != 0 ==> Places(v) - 1 == Places(v / 10)
    ensures v / 10 == 0 ==> Places(v) == 1
  {
  }

  const TEN9 := 10_0000_0000

  lemma {:induction false} DecNatSplit(n: nat, h: nat, l: nat)
    requires n == h * TEN9 + l && l < TEN9 && h > 0
    ensures DecNat(n) == DecNat(h) + Dec(l, 9)
  {
    assert Pow(10, 9) == TEN9;
    hide Pow, Places;
    var p := Places(h);
    HasPlaces(h);
    PowAdd(10, p - 1, 9);
    PowAdd(10, p, 9);
    assert (Pow(10, p) - 1) * TEN9 == Pow(10, p) * TEN9 - TEN9;
    MulMono(Pow(10, p - 1), h, TEN9);
    MulMono(h, Pow(10, p) - 1, TEN9);
    PlacesIs(n, p + 9);
    DecSplit(n, p, 9, h, l);
  }

  lemma {:induction false} HasPlaces(v: nat)
    ensures v < Pow(10, Places(v)) && (v > 0 ==> Pow(10, Places(v) - 1) <= v)
  {
    BelowPower(v);
    PlacesBound(v, v + 1);
  }

  lemma {:induction false} BelowPower(v: nat)
    ensures v < Pow(10, v + 1)
  {
    PowOne(10);
    if v > 0 {
      BelowPower(v - 1);
      PowStep(10, v);
    }
  }

  method NineDigits(n: nat) returns (s: string)
    ensures s == Dec(n, 9)
  {
    var buf := new char[9];
    U32ToALen(buf, 0, n, 9);
    s := buf[0..9];
  }

  /** u64toa: in groups of nine digits. */
  method U64ToA(n0: nat) returns (s: string)
    requires n0 < U64
    ensures s == DecNat(n0)
  {
    hide Dec, Places;
    if n0 < B {
      s := U32ToA(n0);
      return;
    }
    var n1, n := n0 / TEN9, n0 % TEN9;
    DecNatSplit(n0, n1, n);
    if n1 >= B {
      var n2 := n1 / TEN9;
      DecNatSplit(n1, n2, n1 % TEN9);
      n1 := n1 % TEN9;
      SmallNat(n2);
      s := "";
      if n2 >= 10 {
        s := s + [DigitChar(n2 / 10)];
        n2 := n2 % 10;
      }
      s := s + [DigitChar(n2)];
      var t := NineDigits(n1);
      s := s + t;
    } else {
      s := U32ToA(n1);
    }
    var t := NineDigits(n);
    s := s + t;
  }

  lemma {:induction false} SmallNat(v: nat)
    requires v < 100
    ensures DecNat(v) == (if v >= 10 then "" + [DigitChar(v / 10)] else "") + [DigitChar(if v >= 10 then v % 10 else v)]
  {
    OneDigit(v % 10);
    if v >= 10 {
      OneDigit(v / 10);
      assert Places(v) == 2;
      assert Dec(v, 2) == Dec(v / 10, 1) + [DigitChar(v % 10)];
    } else {
      assert v % 10 == v;
    }
  }

  lemma {:induction false} OneDigit(d: nat)
    requires d < 10
    ensures Dec(d, 1) == [DigitChar(d)]
  {
    assert Dec(d / 10, 0) == "";
  }

  // ---- output_digits ----

  /** mp_div1 in place, and dropping the leading zero limbs. */
  method DivideSmall(a: Mpb, b: limb) returns (r: limb)
    requires a.Valid() && b > 0
    modifies a, a.tab
    ensures a.Valid() && a.Value() == old(a.Value()) / b && r == old(a.Value()) % b
  {
    hide Val;
    ghost var v := a.Value();
    r := MpDiv1(a.tab, a.len, b, 0);
    DivUnique(v, b, a.Value(), r);
    a.Renorm();
  }

  /** The low digits do not depend on what stands above them. */
  lemma {:induction false} DecLow(v: nat, r: nat, n: nat)
    requires v % TEN9 == r && n <= 9
    ensures Dec(v, n) == Dec(r, n)
  {
    assert Pow(10, 9) == TEN9;
    PowAdd(10, n, 9 - n);
    hide Pow, Dec;
    var p, c := Pow(10, n), Pow(10, 9 - n);
    DivMod(v, TEN9);
    DivMod(r, p);
    HighPart(v / TEN9, c, p, r / p);
    DecSplit(v, 0, n, v / TEN9 * c + r / p, r % p);
    DecSplit(r, 0, n, r / p, r % p);
  }

  lemma HighPart(h: nat, c: nat, p: nat, q: nat)
    requires c * p == TEN9 || p * c == TEN9
    ensures h * c >= 0 && (h * c + q) * p == h * TEN9 + q * p
  {
    assert c * p == p * c;
    Assoc(h, c, p);
    MulMono(0, h, c);
  }

  /** The digits with a dot behind the first `dotPos`, if there are more. */
  function InsertDot(s: string, dotPos: nat): string
    requires dotPos <= |s|
  {
    if dotPos == |s| then s else s[..dotPos] + "." + s[dotPos..]
  }

  /** output_digits in radix 10: nine digits at a time, from the right. */
  method OutputDigits(a: Mpb, nDigits1: nat, dotPos: nat) returns (s: string)
    requires a.Valid() && dotPos <= nDigits1
    modifies a, a.tab
    ensures a.Valid() && s == InsertDot(Dec(old(a.Value()), nDigits1), dotPos)
  {
    hide Dec, Val;
    var buf := new char[nDigits1];
    var nDigits := nDigits1;
    ghost var v := a.Value();
    assert buf[nDigits1..nDigits1] == "";
    while nDigits != 0
      invariant 0 <= nDigits <= nDigits1 && a.Valid() && fresh(buf)
      invariant Dec(v, nDigits1) == Dec(a.Value(), nDigits) + buf[nDigits..nDigits1]
    {
      var n := if nDigits < 9 then nDigits else 9;
      ghost var cur, tail, end := a.Value(), buf[nDigits..nDigits1], nDigits;
      nDigits := nDigits - n;
      var r := DivideSmall(a, TEN9);
      U32ToALen(buf, nDigits, r, n);
      assert buf[end..nDigits1] == tail;
      assert buf[nDigits..nDigits1] == buf[nDigits..end] + tail;
      GroupStep(cur, r, end, n);
      JoinGroups(Dec(cur / TEN9, nDigits), buf[nDigits..end], tail);
    }
    NoDigit(a.Value());
    var digits := buf[0..nDigits1];
    s := if dotPos == nDigits1 then digits else digits[..dotPos] + "." + digits[dotPos..];
  }

  lemma {:induction false} NoDigit(v: nat)
    ensures Dec(v, 0) == ""
  {
  }

  lemma {:induction false} GroupStep(v: nat, r: nat, nDigits: nat, n: nat)
    requires r == v % TEN9 && nDigits > 0 && n == if nDigits < 9 then nDigits else 9
    ensures Dec(v, nDigits) == Dec(v / TEN9, nDigits - n) + Dec(r, n)
  {
    if n < 9 {
      DecLow(v, r, n);
      assert Dec(v / TEN9, 0) == "";
      assert "" + Dec(r, n) == Dec(r, n);
    } else {
      assert Pow(10, 9) == TEN9;
      hide Pow, Dec;
      DecSplit(v, nDigits - 9, 9, v / TEN9, r);
    }
  }

  lemma JoinGroups(a: string, b: string, c: string)
    ensures a + b + c == a + (b + c)
  {
  }
}
