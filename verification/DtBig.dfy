/** Bignums of a fixed capacity (mpb_t): shifting with rounding, and what the conversions do with them. */
module DtBig {
  import opened DtArith
  import opened DtLimb

  /** Limbs in the bignums of the conversions (DBIGNUM_LEN_MAX). */
  const CAPACITY := 52

  /** `v / 2^shift` rounded; a negative shift multiplies. */
  function RoundShift(v: nat, shift: int, mode: Mode): nat {
    if shift <= 0 then v * Pow(2, -shift) else RoundDiv(v, Pow(2, shift), mode)
  }

  function Bit(v: nat, k: nat): int { v / Pow(2, k) % 2 }

  /** The three things the rounding looks at decide it: the bit below the point, whether anything lies below that, and
      the bit above. */
  lemma {:induction false} RoundByBits(v: nat, shift: nat, mode: Mode)
    requires shift > 0
    ensures var half, low := Bit(v, shift - 1) == 1, v % Pow(2, shift - 1) != 0;
            var up := mode != Truncate && half && (mode == NearestAway || low || Bit(v, shift) == 1);
            RoundShift(v, shift, mode) == v / Pow(2, shift) + (if up then 1 else 0)
  {
    var h := Pow(2, shift - 1);
    assert Pow(2, shift) == 2 * h == h * 2;
    hide Pow, RoundDiv;
    DivTwice(v, h, 2);
    DivMod(v, h);
    BitsToParts(v, h, v / h, v % h, mode);
  }

  lemma BitsToParts(v: nat, h: nat, a: nat, l: nat, mode: Mode)
    requires v == a * h + l && l < h
    ensures var up := mode != Truncate && a % 2 == 1 && (mode == NearestAway || l != 0 || a / 2 % 2 == 1);
            RoundDiv(v, 2 * h, mode) == a / 2 + (if up then 1 else 0)
  {
    hide RoundDiv;
    var q, b := a / 2, a % 2;
    assert a == q * 2 + b;
    ScaleParts(a, 2, q, b, h);
    RoundDivParts(v, 2 * h, q, b * h + l, mode);
  }

  lemma {:induction false} PowSplit(k: nat)
    ensures Pow(2, k) == Pow(B, k / 32) * Pow(2, k % 32)
  {
    assert k == 32 * (k / 32) + k % 32;
    PowAdd(2, 32 * (k / 32), k % 32);
    PowPower(2, 32, k / 32);
    TwoTo32();
  }

  /** The value of the limbs from limb `l` on is the value without its low `32 * l` bits. */
  lemma {:induction false} DropLimbs(s: seq<limb>, l: nat)
    requires l <= |s|
    ensures Val(s) / Pow(B, l) == Val(s[l..]) && Val(s) % Pow(B, l) == Val(s[..l])
  {
    assert s == s[..l] + s[l..];
    hide Val, Pow;
    ValConcat(s[..l], s[l..]);
    ValBound(s[..l]);
    DivParts(Val(s), Pow(B, l), Val(s[l..]), Val(s[..l]));
  }

  lemma DivParts(n: int, p: int, v: int, w: int)
    requires n == w + p * v && 0 <= w < p
    ensures n / p == v && n % p == w
  {
    assert p * v == v * p;
    DivUnique(n, p, v, w);
  }

  lemma DivBig(v: nat, p: nat)
    requires v < p
    ensures v / p == 0 && v % p == v
  {
    DivUnique(v, p, 0, v);
  }

  /** Cutting `k` bits off: first whole limbs, then the rest. */
  lemma {:induction false} CutBits(s: seq<limb>, k: nat)
    ensures k / 32 <= |s| ==> Val(s) / Pow(2, k) == Val(s[k / 32..]) / Pow(2, k % 32)
    ensures k / 32 <= |s| ==> (Val(s) % Pow(2, k) == 0 <==> Val(s[..k / 32]) == 0 && Val(s[k / 32..]) % Pow(2, k % 32) == 0)
    ensures k / 32 >= |s| ==> Val(s) / Pow(2, k) == 0 && Val(s) % Pow(2, k) == Val(s)
  {
    hide Val, Pow;
    var l := k / 32;
    PowSplit(k);
    PowPositive(2, k % 32);
    PowPositive(B, l);
    if l <= |s| {
      DropLimbs(s, l);
      DivTwice(Val(s), Pow(B, l), Pow(2, k % 32));
    }
    if l >= |s| {
      ValBound(s);
      PowMono(B, |s|, l);
      MulMono(1, Pow(2, k % 32), Pow(B, l));
      DivBig(Val(s), Pow(2, k));
    }
  }

  /** Cutting fewer than 32 bits off touches the quotient of the lowest limb only. */
  lemma {:induction false} LowLimb(s: seq<limb>, k: nat)
    requires s != [] && k < 32
    ensures Val(s) % Pow(2, k) == s[0] % Pow(2, k)
    ensures Val(s) / Pow(2, k) % 2 == s[0] / Pow(2, k) % 2
  {
    var w := Val(s[1..]);
    assert Val(s) == s[0] + B * w;
    hide Val, Pow;
    Halves(k);
    PowStep(2, 31 - k);
    LowPart(s[0], w, Pow(2, k), Pow(2, 31 - k));
  }

  lemma LowPart(x: limb, w: nat, p: nat, h: nat)
    requires p * (2 * h) == B && p > 0
    ensures (x + B * w) % p == x % p && (x + B * w) / p % 2 == x / p % 2
  {
    var g := h * w;
    assert B * w == 2 * g * p by {
      Assoc(p, 2 * h, w);
      Assoc(2, h, w);
      assert p * (2 * g) == 2 * g * p;
    }
    MulMono(0, h, w);
    AddMultiple(x, B * w, p, g);
  }

  lemma AddMultiple(x: nat, y: nat, p: nat, g: nat)
    requires p > 0 && y == 2 * g * p
    ensures (x + y) % p == x % p && (x + y) / p % 2 == x / p % 2
  {
    var q, r := Quotient(x, p);
    assert (2 * g + q) * p == 2 * g * p + q * p;
    DivUnique(x, p, q, r);
    DivUnique(x + y, p, 2 * g + q, r);
  }

  lemma {:induction false} LowZero(s: seq<limb>)
    ensures Val(s) == 0 <==> forall i :: 0 <= i < |s| ==> s[i] == 0
  {
    if forall i :: 0 <= i < |s| ==> s[i] == 0 { ValZeros(s); }
    if Val(s) == 0 { ZeroVal(s); }
  }

  /** The carry of adding one is a limb of its own, and needs every bit set. */
  lemma CarryLimb(v: nat, w: nat, k: nat, p: nat)
    requires w + k * p == v + 1 && v < p
    ensures k <= 1 && (k == 1 ==> w == 0 && v + 1 == p)
  {
    if k >= 2 { MulMono(2, k, p); }
  }

  /** The highest limb is nonzero exactly when the value needs all the limbs. */
  lemma {:induction false} TopLimb(s: seq<limb>)
    requires s != []
    ensures s[|s| - 1] != 0 <==> Val(s) >= Pow(B, |s| - 1)
  {
    hide Val, Pow;
    var n := |s| - 1;
    var x := s[n];
    assert s == s[..n] + [x];
    ValSnoc(s[..n], x);
    ValBound(s[..n]);
    if x != 0 { MulMono(1, x, Pow(B, n)); }
  }

  /** Any of the low `k` bits is set exactly when a whole limb below has one or the limb that is cut does. */
  lemma {:induction false} LowBits(s: seq<limb>, k: nat, m: nat)
    requires m == if k / 32 < |s| then k / 32 else |s|
    ensures Val(s) % Pow(2, k) != 0 <==> Val(s[..m]) != 0 || (k / 32 < |s| && s[k / 32] % Pow(2, k % 32) != 0)
  {
    hide Val, Pow;
    CutBits(s, k);
    if k / 32 < |s| {
      LowLimb(s[k / 32..], k % 32);
    } else {
      assert s[..m] == s;
    }
  }

  lemma TimesPower(v: nat, p: nat)
    ensures 0 + p * v == v * p
  {
  }

  lemma {:induction false} MovedValue(zeros: seq<limb>, s: seq<limb>)
    requires forall j :: 0 <= j < |zeros| ==> zeros[j] == 0
    ensures Val(zeros + s) == Val(s) * Pow(B, |zeros|)
  {
    ValZeros(zeros);
    ValConcat(zeros, s);
    TimesPower(Val(s), Pow(B, |zeros|));
  }

  lemma SameLimbs(s: seq<limb>, t: seq<limb>)
    requires |s| == |t| && forall j :: 0 <= j < |s| ==> s[j] == t[j]
    ensures s == t
  {
  }

  class Mpb {
    const tab: array<limb>
    var len: nat

    /** Room for `capacity` limbs; the value is zero. */
    constructor (capacity: nat)
      requires capacity >= 1
      ensures Valid() && Normalized() && Value() == 0 && len == 1 && tab.Length == capacity && fresh(tab)
    {
      tab := new limb[capacity](_ => 0);
      len := 1;
      new;
      assert tab[..1] == [0] && [0 as limb][1..] == [];
    }

    ghost predicate Valid()
      reads this
    {
      1 <= len <= tab.Length
    }

    ghost function Value(): nat
      requires Valid()
      reads this, tab
    {
      Val(tab[..len])
    }

    /** No leading zero limb. */
    ghost predicate Normalized()
      requires Valid()
      reads this, tab
    {
      len == 1 || tab[len - 1] != 0
    }

    /** mpb_renorm */
    method Renorm()
      requires Valid()
      modifies this`len
      ensures Valid() && Normalized() && len <= old(len) && Value() == old(Value())
    {
      while len > 1 && tab[len - 1] == 0
        invariant Valid() && len <= old(len) && Value() == old(Value())
      {
        assert tab[..len] == tab[..len - 1] + [tab[len - 1]];
        ValSnoc(tab[..len - 1], tab[len - 1]);
        len := len - 1;
      }
    }

    /** mpb_get_bit */
    method GetBit(k: nat) returns (bit: int)
      requires Valid()
      ensures bit == Bit(Value(), k)
    {
      hide Val, Pow;
      var l := k / 32;
      CutBits(tab[..len], k);
      if l >= len {
        bit := 0;
      } else {
        assert tab[..len][l..] == tab[l..len];
        LowLimb(tab[l..len], k % 32);
        bit := tab[l] / Pow(2, k % 32) % 2;
      }
    }

    /** Whether any of the lowest `k` bits is set: the oring in mpb_shr_round. */
    method AnyBelow(k: nat) returns (any: bool)
      requires Valid()
      ensures any == (Value() % Pow(2, k) != 0)
    {
      hide Val, Pow;
      var l := k / 32;
      var m := if l < len then l else len;
      any := false;
      for i := 0 to m
        invariant any <==> exists j :: 0 <= j < i && tab[j] != 0
      {
        any := any || tab[i] != 0;
      }
      LowZero(tab[..m]);
      assert any <==> Val(tab[..m]) != 0 by {
        assert forall j :: 0 <= j < m ==> tab[..m][j] == tab[j];
      }
      LowBits(tab[..len], k, m);
      assert tab[..len][..m] == tab[..m];
      if l < len {
        any := any || tab[l] % Pow(2, k % 32) != 0;
      }
    }

    /** mpb_shr_round for a negative shift: multiplication by a power of two. */
    method ShlBy(n: nat)
      requires Valid() && n > 0 && len + n / 32 + (if n % 32 != 0 then 1 else 0) <= tab.Length
      modifies this, tab
      ensures Valid() && Value() == old(Value()) * Pow(2, n)
      ensures old(Normalized()) && old(Value()) > 0 ==> Normalized()
      ensures len <= old(len) + n / 32 + (if n % 32 != 0 then 1 else 0)
    {
      var l, shift := n / 32, n % 32;
      PowSplit(n);
      ghost var v := Value();
      if shift != 0 {
        ShiftUp(shift);
      } else {
        PowOne(2);
      }
      assert Value() == v * Pow(2, shift);
      Assoc(v, Pow(2, shift), Pow(B, l));
      assert Pow(2, shift) * Pow(B, l) == Pow(B, l) * Pow(2, shift);
      if l > 0 {
        MoveUp(l);
      } else {
        PowOne(B);
      }
    }

    /** Shift by less than a limb. */
    method ShiftUp(shift: nat)
      requires Valid() && 1 <= shift < 32 && len + 1 <= tab.Length
      modifies this, tab
      ensures Valid() && Normalized() && Value() == old(Value()) * Pow(2, shift) && len <= old(len) + 1
    {
      hide Pow, Val;
      PowPositive(2, shift);
      var h := MpShl(tab, len, shift, 0);
      ghost var low := tab[..len];
      Halves(shift);
      HighLimb(h, shift);
      tab[len] := h;
      assert tab[..len] == low;
      assert tab[..len + 1] == low + [h];
      ValSnoc(low, h);
      len := len + 1;
      Renorm();
    }

    /** Multiplication by a power of the limb base. */
    method MoveUp(l: nat)
      requires Valid() && len + l <= tab.Length && l > 0
      modifies this, tab
      ensures Valid() && len == old(len) + l && Value() == old(Value()) * Pow(B, l)
      ensures old(Normalized()) && old(Value()) > 0 ==> Normalized()
    {
      hide Pow, Val;
      ghost var was, n := tab[..len], len;
      TopLimb(was);
      CopyUp(l);
      ClearLow(l);
      len := len + l;
      ghost var zeros := tab[..l];
      SameLimbs(tab[..len], zeros + was);
      MovedValue(zeros, was);
      if n == 1 {
        ValOne(was[0]);
        assert was == [was[0]];
      }
      assert tab[len - 1] == was[n - 1];
    }

    /** Zeros in the low limbs. */
    method ClearLow(l: nat)
      requires l <= tab.Length
      modifies tab
      ensures forall j :: 0 <= j < tab.Length ==> tab[j] == if j < l then 0 else old(tab[j])
    {
      for k := 0 to l
        invariant forall j :: 0 <= j < tab.Length ==> tab[j] == if j < k then 0 else old(tab[j])
      {
        tab[k] := 0;
      }
    }

    /** The limbs, from the highest down, each `l` places up. */
    method CopyUp(l: nat)
      requires Valid() && len + l <= tab.Length && l > 0
      modifies tab
      ensures forall j :: l <= j < len + l ==> tab[j] == old(tab[j - l])
    {
      ghost var was := tab[..];
      var i := len;
      while i > 0
        invariant 0 <= i <= len
        invariant forall j :: 0 <= j < i ==> tab[j] == was[j]
        invariant forall j :: i + l <= j < len + l ==> tab[j] == was[j - l]
      {
        i := i - 1;
        tab[i + l] := tab[i];
      }
    }

    /** mpb_shr_round: `round(value / 2^shift)`; the shift can be negative. */
    method ShrRound(shift: int, mode: Mode)
      requires Valid()
      requires shift < 0 ==> len + (-shift) / 32 + (if (-shift) % 32 != 0 then 1 else 0) <= tab.Length
      modifies this, tab
      ensures Valid() && Value() == RoundShift(old(Value()), shift, mode)
      ensures old(Normalized()) && (old(Value()) > 0 || shift >= 0) ==> Normalized()
      ensures shift >= 0 ==> len <= old(len)
      ensures shift < 0 ==> len <= old(len) + (-shift) / 32 + (if (-shift) % 32 != 0 then 1 else 0)
    {
      hide Val, RoundDiv;
      PowOne(2);
      if shift < 0 {
        ShlBy(-shift);
      } else if shift > 0 {
        RoundByBits(Value(), shift, mode);
        var addOne := RoundsUp(shift, mode);
        ShrBy(shift, addOne);
      }
    }

    /** Whether the rounding goes up: the first part of mpb_shr_round. */
    method RoundsUp(shift: nat, mode: Mode) returns (up: bool)
      requires Valid() && shift > 0
      ensures up <==>
        && mode != Truncate && Bit(Value(), shift - 1) == 1
        && (mode == NearestAway || Value() % Pow(2, shift - 1) != 0 || Bit(Value(), shift) == 1)
    {
      hide Val, Pow, Bit;
      if mode == Truncate {
        return false;
      }
      var bit1 := GetBit(shift - 1);
      if bit1 != 1 {
        return false;
      }
      if mode == NearestAway {
        return true;
      }
      var bit2 := AnyBelow(shift - 1);
      if bit2 {
        return true;
      }
      var even := GetBit(shift);
      return even == 1;
    }

    /** The second part: the limbs move down, and one is added. */
    method ShrBy(n: nat, addOne: bool)
      requires Valid() && n > 0
      modifies this, tab
      ensures Valid() && Value() == old(Value()) / Pow(2, n) + (if addOne then 1 else 0) && len <= old(len)
      ensures old(Normalized()) ==> Normalized()
    {
      hide Val, Pow;
      var l, shift := n / 32, n % 32;
      CutBits(tab[..len], n);
      ghost var v, was, size := Value(), tab[..], len;
      if l >= len {
        len := 1;
        tab[0] := if addOne then 1 else 0;
        ValOne(tab[0]);
        assert tab[..1] == [tab[0]];
      } else {
        if l > 0 {
          MoveDown(l);
        }
        assert Value() == Val(was[l..size]) by { if l == 0 { assert was[0..size] == tab[..len]; } }
        assert was[..size][l..] == was[l..size];
        PowOne(2);
        if shift != 0 {
          ShiftDown(shift);
        }
        assert Value() == v / Pow(2, n);
        if addOne {
          AddOne(size);
        }
      }
    }

    method MoveDown(l: nat)
      requires Valid() && 0 < l < len
      modifies this, tab
      ensures Valid() && len == old(len) - l && Value() == Val(old(tab[l..len]))
      ensures old(Normalized()) ==> Normalized()
    {
      ghost var was := tab[..];
      len := len - l;
      for i := 0 to len
        invariant len == old(len) - l
        invariant forall j :: 0 <= j < i ==> tab[j] == was[j + l]
        invariant forall j :: i <= j < tab.Length ==> tab[j] == was[j]
      {
        tab[i] := tab[i + l];
      }
      SameLimbs(tab[..len], was[l..old(len)]);
      SameLimbs(was[l..old(len)], old(tab[l..len]));
    }

    /** The result is below half the room its limbs have. */
    method ShiftDown(shift: nat)
      requires Valid() && 1 <= shift < 32
      modifies this, tab
      ensures Valid() && Normalized() && Value() == old(Value()) / Pow(2, shift) && len <= old(len)
      ensures 2 * Value() < Pow(B, old(len))
    {
      hide Val, Pow;
      ValBound(tab[..len]);
      ghost var v, p := Value(), Pow(2, shift);
      PowPositive(2, shift);
      var r := MpShr(tab, len, shift, 0);
      DivUnique(v, p, Val(tab[..len]), r);
      PowMono(2, 1, shift);
      PowOne(2);
      MulMono(2, p, v / p);
      assert v / p * p <= v;
      Renorm();
    }

    method AddOne(ghost size: nat)
      requires Valid() && len <= size <= tab.Length && (len == size ==> 2 * Value() < Pow(B, size))
      modifies this, tab
      ensures Valid() && Value() == old(Value()) + 1 && len <= size
      ensures old(Normalized()) ==> Normalized()
    {
      hide Val, Pow;
      ghost var n, v := len, Value();
      ValBound(tab[..len]);
      PowMono(B, 1, len);
      PowOne(B);
      TopLimb(tab[..len]);
      var a := MpAddUi(tab, 1, len);
      ghost var low := tab[..len];
      CarryLimb(v, Val(low), a, Pow(B, len));
      if a != 0 {
        tab[len] := a;
        assert tab[..len] == low;
        assert tab[..len + 1] == low + [a];
        ValSnoc(low, a);
        len := len + 1;
      } else {
        TopLimb(low);
      }
    }

    /** mpb_set_u64 */
    method SetU64(m: nat)
      requires Valid() && m < U64 && tab.Length >= 2
      modifies this, tab
      ensures Valid() && Normalized() && Value() == m && len <= 2
    {
      tab[0] := m % B;
      tab[1] := m / B;
      len := if tab[1] == 0 then 1 else 2;
      ValTwo(tab[..len]);
    }

    /** mpb_get_u64 */
    method GetU64() returns (m: nat)
      requires Valid() && len <= 2
      ensures m == Value()
    {
      ValTwo(tab[..len]);
      if len == 1 {
        m := tab[0];
      } else {
        m := tab[0] + tab[1] * B;
      }
    }

    /** mpb_floor_log2 */
    method FloorLog2() returns (k: int)
      requires Valid() && Normalized()
      ensures Value() == 0 ==> k == -1
      ensures Value() > 0 ==> k >= 0 && Pow(2, k) <= Value() < Pow(2, k + 1)
    {
      var v := tab[len - 1];
      ghost var s := tab[..len];
      assert s == s[..len - 1] + [v];
      ValSnoc(s[..len - 1], v);
      if v == 0 {
        assert s[..0] == [];
        k := -1;
      } else {
        var z := Clz32(v);
        k := len * 32 - 1 - z;
        ValBound(s[..len - 1]);
        TopBits(Val(s[..len - 1]), v, z, len - 1);
      }
    }

    /** Multiplication in mul_pow: the carry becomes a limb of its own. */
    method MulBy(b: limb)
      requires Valid() && Value() * b < Pow(B, tab.Length)
      modifies this, tab
      ensures Valid() && Value() == old(Value()) * b && len <= old(len) + 1
      ensures old(Normalized()) && b > 0 ==> Normalized()
    {
      hide Val, Pow;
      ghost var v := Value();
      TopLimb(tab[..len]);
      var h := MpMul1(tab, len, b, 0);
      ghost var low := tab[..len];
      if h != 0 {
        MulMono(1, h, Pow(B, len));
        if len == tab.Length { assert v * b < Pow(B, len); }
        tab[len] := h;
        assert tab[..len] == low;
        assert tab[..len + 1] == low + [h];
        ValSnoc(low, h);
        len := len + 1;
      } else {
        TopLimb(low);
        if b > 0 { MulMono(1, b, v); }
      }
    }

    /** mpb_mul1_base; 0 stands for the base 2^32. */
    method Mul1Base(base: limb, a: limb)
      requires Valid() && Normalized() && len + 2 <= tab.Length
      modifies this, tab
      ensures Valid() && Normalized() && Value() == old(Value()) * (if base == 0 then B else base) + a && len <= old(len) + 1
    {
      hide Val, Pow;
      ValBound(tab[..len]);
      if tab[0] == 0 && len == 1 {
        ValOne(tab[0]);
        assert tab[..1] == [tab[0]];
        tab[0] := a;
        ValOne(a);
        assert tab[..1] == [a];
      } else if base == 0 {
        PushLow(a);
        Renorm();
      } else {
        var h := MpMul1(tab, len, base, a);
        ghost var low := tab[..len];
        tab[len] := h;
        assert tab[..len] == low;
        assert tab[..len + 1] == low + [h];
        ValSnoc(low, h);
        len := len + 1;
        Renorm();
      }
    }

    /** Every limb one place up, and `a` below them. The loop also moves the limb behind the last one. */
    method PushLow(a: limb)
      requires Valid() && len + 2 <= tab.Length
      modifies this, tab
      ensures Valid() && Value() == old(Value()) * B + a && len == old(len) + 1
    {
      ghost var was := tab[..];
      var i := len + 1;
      while i > 0
        invariant 0 <= i <= len + 1 && len == old(len)
        invariant forall j :: 0 <= j < i ==> tab[j] == was[j]
        invariant forall j :: i < j <= len + 1 ==> tab[j] == was[j - 1]
      {
        i := i - 1;
        tab[i + 1] := tab[i];
      }
      tab[0] := a;
      len := len + 1;
      assert tab[..len] == [a] + was[..len - 1];
      assert tab[..len][1..] == was[..len - 1];
    }

    /** Division in mul_pow by `d`, whose normalized form is `b`. */
    method DivBy(ghost d: limb, b: limb, bInv: limb, shift: nat) returns (r: limb)
      requires Valid() && shift < 32 && d * Pow(2, shift) == b && Normal(b) && bInv == Inverse(b) && d > 0
      modifies this, tab
      ensures Valid() && Normalized() && Value() == old(Value()) / d && r == old(Value()) % d && len <= old(len)
    {
      hide Val, Pow, Inverse;
      ghost var v := Value();
      r := MpDiv1Norm(tab, len, d, b, 0, bInv, shift);
      assert Value() == Val(tab[..len]);
      DivUnique(v, d, Value(), r);
      Renorm();
    }

    /** Sets the lowest bit when `inexact`. */
    method SetSticky(inexact: bool)
      requires Valid()
      modifies tab
      ensures Valid() && Value() == Sticky(old(Value()), inexact)
      ensures old(Normalized()) ==> Normalized()
    {
      ghost var s := tab[..len];
      var w: nat := Val(s[1..]);
      assert s == [s[0]] + s[1..];
      if inexact && tab[0] % 2 == 0 {
        tab[0] := tab[0] + 1;
        assert tab[..len] == [s[0] + 1] + s[1..];
        assert tab[..len][1..] == s[1..];
      }
      assert (s[0] + B * w) % 2 == s[0] % 2;
    }
  }

  /** What a limb's shift pushes out fits a limb. */
  lemma {:induction false} HighLimb(h: nat, shift: nat)
    requires shift < 32 && h < Pow(2, shift)
    ensures h < B
  {
    Halves(shift);
    MulMono(1, Pow(2, 32 - shift), Pow(2, shift));
  }

  /** Leading zero bits of a nonzero limb. */
  function Clz32(v: limb): (z: nat)
    requires v > 0
    ensures z < 32 && v * Pow(2, z) < B && Normal(v * Pow(2, z))
  {
    assert v < B;
    TwoTo32();
    ClzUp(v, 0)
  }

  function ClzUp(v: limb, z: nat): (r: nat)
    requires v > 0 && z <= 31 && v * Pow(2, z) < B
    ensures z <= r < 32 && v * Pow(2, r) < B && Normal(v * Pow(2, r))
    decreases 32 - z
  {
    PowStep(2, z);
    assert v * Pow(2, z + 1) == 2 * (v * Pow(2, z)) by { Assoc(v, Pow(2, z), 2); }
    if v * Pow(2, z) >= B / 2 then z
    else
      LastBit(v, z);
      ClzUp(v, z + 1)
  }

  lemma {:induction false} LastBit(v: limb, z: nat)
    requires v > 0 && z <= 31 && v * Pow(2, z) < B / 2
    ensures z < 31
  {
    if z == 31 {
      TwoTo32();
      assert Pow(2, 32) == 2 * Pow(2, 31);
      MulMono(1, v, Pow(2, 31));
    }
  }

  lemma {:induction false} ValTwo(s: seq<limb>)
    requires 1 <= |s| <= 2
    ensures Val(s) == if |s| == 1 then s[0] else s[0] + s[1] * B
  {
    if |s| == 1 {
      assert s == [s[0]];
      ValOne(s[0]);
    } else {
      assert s[1..] == [s[1]];
      ValOne(s[1]);
    }
  }

  /** The highest bit of a number is the highest bit of its highest limb. */
  lemma {:induction false} TopBits(low: nat, v: limb, z: nat, n: nat)
    requires v > 0 && z < 32 && Normal(v * Pow(2, z)) && low < Pow(B, n)
    ensures var k := (n + 1) * 32 - 1 - z; k >= 0 && Pow(2, k) <= low + v * Pow(B, n) < Pow(2, k + 1)
  {
    var k, p := (n + 1) * 32 - 1 - z, Pow(B, n);
    PowPower(2, 32, n);
    TwoTo32();
    assert p == Pow(2, 32 * n);
    var t, u := Pow(2, 31 - z), Pow(2, z);
    PowAdd(2, 31 - z, z);
    PowAdd(2, 31, 1);
    PowOne(2);
    PowAdd(2, 31 - z, 32 * n);
    PowStep(2, k);
    hide Pow;
    assert k == 31 - z + 32 * n;
    assert t * u == B / 2;
    MulCancel(t, v, u);
    assert 2 * t * u == B by { Assoc(2, t, u); }
    MulCancelStrict(v, 2 * t, u);
    MulMono(t, v, p);
    MulMono(v, 2 * t - 1, p);
    assert (2 * t - 1) * p == 2 * (t * p) - p by { Assoc(2, t, p); }
  }
}
