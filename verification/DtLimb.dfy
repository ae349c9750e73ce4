/** Numbers as arrays of 32-bit limbs, least significant first, changed in place. */
module DtLimb {
  import opened DtArith

  /** The number the limbs stand for. */
  function Val(s: seq<limb>): nat {
    if s == [] then 0 else s[0] + B * Val(s[1..])
  }

  lemma {:induction false} ValConcat(s: seq<limb>, t: seq<limb>)
    ensures Val(s + t) == Val(s) + Pow(B, |s|) * Val(t)
    decreases s
  {
    if s == [] {
      assert s + t == t;
    } else {
      assert (s + t)[1..] == s[1..] + t;
      ValConcat(s[1..], t);
      Assoc(B, Pow(B, |s| - 1), Val(t));
    }
  }

  lemma {:induction false} ValOne(x: limb)
    ensures Val([x]) == x
  {
    assert [x][1..] == [];
  }

  lemma {:induction false} ValSnoc(s: seq<limb>, x: limb)
    ensures Val(s + [x]) == Val(s) + x * Pow(B, |s|)
  {
    hide Val, Pow;
    ValOne(x);
    ValConcat(s, [x]);
    var p := Pow(B, |s|);
    assert p * x == x * p;
  }

  lemma {:induction false} ValBound(s: seq<limb>)
    ensures Val(s) < Pow(B, |s|)
  {
    if s != [] {
      ValBound(s[1..]);
    }
  }

  lemma {:induction false} ValZeros(s: seq<limb>)
    requires forall i :: 0 <= i < |s| ==> s[i] == 0
    ensures Val(s) == 0
  {
    if s != [] {
      ValZeros(s[1..]);
    }
  }

  lemma {:induction false} ZeroVal(s: seq<limb>)
    requires Val(s) == 0
    ensures forall i :: 0 <= i < |s| ==> s[i] == 0
  {
    if s != [] {
      ZeroVal(s[1..]);
    }
  }

  /** One limb further: the prefix grows by its last limb. */
  lemma {:induction false} PrefixStep(a: seq<limb>, i: nat)
    requires i < |a|
    ensures Val(a[..i + 1]) == Val(a[..i]) + a[i] * Pow(B, i)
  {
    assert a[..i + 1] == a[..i] + [a[i]];
    ValSnoc(a[..i], a[i]);
  }

  /** One limb further down: the suffix grows by its first limb. */
  lemma {:induction false} SuffixStep(a: seq<limb>, i: nat, n: nat)
    requires i < n <= |a|
    ensures Val(a[i..n]) == a[i] + B * Val(a[i + 1..n])
  {
    assert a[i..n][1..] == a[i + 1..n];
  }

  lemma {:induction false} Split(a: seq<limb>, i: nat, n: nat)
    requires i <= n <= |a|
    ensures Val(a[..n]) == Val(a[..i]) + Pow(B, i) * Val(a[i..n])
  {
    assert a[..n] == a[..i] + a[i..n];
    ValConcat(a[..i], a[i..n]);
  }

  lemma {:induction false} TwoTo32()
    ensures Pow(2, 32) == B
  {
    assert Pow(2, 8) == 256;
    PowAdd(2, 8, 8);
    PowAdd(2, 16, 16);
  }

  /** The value of a bit in a limb, and the two parts a shift cuts a limb into. */
  lemma {:induction false} Halves(shift: nat)
    requires shift <= 32
    ensures Pow(2, shift) * Pow(2, 32 - shift) == B && Pow(2, shift) > 0 && Pow(2, 32 - shift) > 0
  {
    PowAdd(2, shift, 32 - shift);
    TwoTo32();
  }

  // ---- mp_add_ui ----

  lemma AddStep(v: int, w: int, k: int, b: int, x: int, p: int)
    requires v + k * p == w + b && 0 <= k < B && 0 <= x < B
    ensures var a, k' := (x + k) % B, if (x + k) % B < k then 1 else 0;
            v + a * p + k' * (B * p) == w + x * p + b
  {
    var a, k' := (x + k) % B, if (x + k) % B < k then 1 else 0;
    assert x + k == a + k' * B;
    assert (x + k) * p == a * p + k' * B * p;
    Assoc(k', B, p);
    assert (x + k) * p == x * p + k * p;
  }

  method MpAddUi(tab: array<limb>, b: limb, n: nat) returns (k: limb)
    requires n <= tab.Length
    modifies tab
    ensures Val(tab[..n]) + k * Pow(B, n) == old(Val(tab[..n])) + b
    ensures forall j :: n <= j < tab.Length ==> tab[j] == old(tab[j])
  {
    hide Val, Pow;
    ghost var was := tab[..];
    k := b;
    DivStart(b);
    assert tab[..0] == [] == was[..0];
    var i := 0;
    while i < n && k != 0
      invariant 0 <= i <= n && Val(tab[..i]) + k * Pow(B, i) == Val(was[..i]) + b
      invariant forall j :: i <= j < tab.Length ==> tab[j] == was[j]
    {
      ghost var v := tab[..i];
      AddStep(Val(v), Val(was[..i]), k, b, tab[i], Pow(B, i));
      var a: limb := (tab[i] + k) % B;
      k := if a < k then 1 else 0;
      tab[i] := a;
      assert tab[..i] == v;
      PrefixStep(tab[..], i);
      assert tab[..][..i + 1] == tab[..i + 1] && tab[..][..i] == tab[..i];
      PrefixStep(was, i);
      PowStep(B, i);
      i := i + 1;
    }
    AddRest(was, tab[..], i, n, b, k);
    assert old(tab[..n]) == was[..n] && tab[..][..n] == tab[..n];
  }

  /** Without a carry the higher limbs stay. */
  lemma {:induction false} AddRest(was: seq<limb>, now: seq<limb>, i: nat, n: nat, b: nat, k: nat)
    requires i <= n <= |now| == |was| && (i == n || k == 0) && Val(now[..i]) + k * Pow(B, i) == Val(was[..i]) + b
    requires forall j :: i <= j < |now| ==> now[j] == was[j]
    ensures Val(now[..n]) + k * Pow(B, n) == Val(was[..n]) + b
  {
    hide Val, Pow;
    Split(now, i, n);
    Split(was, i, n);
    assert now[i..n] == was[i..n];
  }

  // ---- mp_mul1 ----

  lemma MulStep(v: int, w: int, l: int, l0: int, a: int, b: int, p: int)
    requires v + l * p == w * b + l0
    ensures var t := a * b + l; v + t % B * p + t / B * (B * p) == (w + a * p) * b + l0
  {
    var t := a * b + l;
    assert t == t / B * B + t % B;
    calc {
      v + t % B * p + t / B * (B * p);
      { Assoc(t / B, B, p); }
      v + t % B * p + t / B * B * p;
      v + t * p;
      v + a * b * p + l * p;
      w * b + l0 + a * b * p;
      { assert a * b * p == a * p * b by { Assoc(a, b, p); Assoc(a, p, b); } }
      (w + a * p) * b + l0;
    }
  }

  lemma CarryFits(a: limb, b: limb, l: limb)
    ensures 0 <= (a * b + l) / B < B
  {
    MulMono(a, B - 1, b);
    MulMono(0, a, b);
  }

  method MpMul1(tab: array<limb>, n: nat, b: limb, l0: limb) returns (l: limb)
    requires n <= tab.Length
    modifies tab
    ensures Val(tab[..n]) + l * Pow(B, n) == old(Val(tab[..n])) * b + l0
    ensures forall j :: n <= j < tab.Length ==> tab[j] == old(tab[j])
  {
    ghost var was := tab[..];
    l := l0;
    PowOne(B);
    assert Val(tab[..0]) == 0 == Val(was[..0]);
    hide Val, Pow;
    for i := 0 to n
      invariant Val(tab[..i]) + l * Pow(B, i) == Val(was[..i]) * b + l0
      invariant forall j :: i <= j < tab.Length ==> tab[j] == was[j]
    {
      ghost var v := tab[..i];
      MulStep(Val(v), Val(was[..i]), l, l0, tab[i], b, Pow(B, i));
      CarryFits(tab[i], b, l);
      var t: int := tab[i] * b + l;
      tab[i] := t % B;
      l := t / B;
      assert tab[..i] == v;
      PrefixStep(tab[..], i);
      assert tab[..][..i + 1] == tab[..i + 1] && tab[..][..i] == tab[..i];
      PrefixStep(was, i);
      PowStep(B, i);
    }
    assert old(tab[..n]) == was[..n];
  }

  // ---- mp_div1 ----

  /** The top limbs have been divided; the next one, `x`, joins the remainder. */
  lemma DivStep(w: int, q: int, r: int, x: int, b: int, q': int, r': int)
    requires w == q * b + r && r * B + x == q' * b + r'
    ensures x + B * w == (q' + B * q) * b + r'
  {
    Assoc(B, q, b);
  }

  lemma QuotientFits(r: int, x: int, b: int)
    requires 0 <= r < b && 0 <= x < B
    ensures 0 <= (r * B + x) / b < B && 0 <= (r * B + x) % b < b
  {
    var t := r * B + x;
    DivMod(t, b);
    assert t < b * B;
    var q := t / b;
    if q >= B { MulMono(B, q, b); }
    if q < 0 { MulMono(q, -1, b); }
  }

  /** Two limbs divided by one. */
  method DivideTwo(a1: limb, a0: limb, b: limb) returns (q: limb, r: limb)
    requires a1 < b
    ensures a1 * B + a0 == q * b + r && r < b
  {
    QuotientFits(a1, a0, b);
    var a: int := a1 * B + a0;
    DivMod(a, b);
    q := a / b;
    r := a % b;
  }

  method MpDiv1(tab: array<limb>, n: nat, b: limb, r0: limb) returns (r: limb)
    requires n <= tab.Length && r0 < b
    modifies tab
    ensures old(Val(tab[..n])) + r0 * Pow(B, n) == Val(tab[..n]) * b + r && r < b
    ensures forall j :: n <= j < tab.Length ==> tab[j] == old(tab[j])
  {
    hide Val, Pow;
    ghost var was := tab[..];
    r := r0;
    var i := n;
    assert tab[n..n] == [] == was[n..n];
    DivStart(r0);
    while i > 0
      invariant 0 <= i <= n && r < b
      invariant Val(was[i..n]) + r0 * Pow(B, n - i) == Val(tab[i..n]) * b + r
      invariant forall j :: 0 <= j < i || n <= j < tab.Length ==> tab[j] == was[j]
    {
      i := i - 1;
      ghost var v, r', x := tab[i + 1..n], r, tab[i];
      var q;
      q, r := DivideTwo(r, tab[i], b);
      DivStep(Val(was[i + 1..n]) + r0 * Pow(B, n - i - 1), Val(v), r', x, b, q, r);
      tab[i] := q;
      assert tab[i + 1..n] == v;
      SuffixStep(tab[..], i, n);
      assert tab[..][i..n] == tab[i..n] && tab[..][i + 1..n] == tab[i + 1..n];
      SuffixStep(was, i, n);
      HighStep(r0, n - i - 1);
    }
    assert tab[0..n] == tab[..n] && was[0..n] == was[..n] == old(tab[..n]);
  }

  lemma {:induction false} HighStep(r: int, k: nat)
    ensures B * (r * Pow(B, k)) == r * Pow(B, k + 1)
  {
    PowStep(B, k);
    var p := Pow(B, k);
    hide Pow;
    assert B * (r * p) == r * (B * p);
  }

  // ---- mp_shr and mp_shl ----

  /** `a >> shift` below the low bits of the limb above: the shift of the two together. */
  lemma ShrStep(q: int, w: int, l: limb, a: limb, s: int, s': int)
    requires s > 0 && s' > 0 && s * s' == B && w == q * s + l % s
    ensures 0 <= a / s < s' && 0 <= l % s * s' + a / s < B
    ensures a + B * w == (l % s * s' + a / s + B * q) * s + a % s
  {
    DivMod(a, s);
    var u, r, m := a / s, a % s, l % s;
    if u >= s' { MulMono(s', u, s); }
    if u < 0 { MulMono(u, -1, s); }
    MulMono(0, m, s');
    MulMono(m, s - 1, s');
    assert (s - 1) * s' == s * s' - s';
    calc {
      (m * s' + u + B * q) * s + r;
      m * s' * s + u * s + B * q * s + r;
      { Assoc(B, q, s); Assoc(m, s', s); }
      m * (s' * s) + a + B * (q * s);
    }
  }

  method MpShr(tab: array<limb>, n: nat, shift: nat, high: limb) returns (r: limb)
    requires n <= tab.Length && 1 <= shift < 32
    modifies tab
    ensures old(Val(tab[..n])) + high % Pow(2, shift) * Pow(B, n) == Val(tab[..n]) * Pow(2, shift) + r && r < Pow(2, shift)
    ensures forall j :: n <= j < tab.Length ==> tab[j] == old(tab[j])
  {
    ghost var was := tab[..];
    Halves(shift);
    ghost var s, s' := Pow(2, shift), Pow(2, 32 - shift);
    var l: limb := high;
    var i := n;
    PowOne(B);
    assert tab[n..n] == [] == was[n..n];
    hide Pow;
    ghost var h: int := high % s;
    while i > 0
      invariant 0 <= i <= n
      invariant Val(was[i..n]) + h * Pow(B, n - i) == Val(tab[i..n]) * s + l % s
      invariant forall j :: 0 <= j < i || n <= j < tab.Length ==> tab[j] == was[j]
    {
      hide Val;
      i := i - 1;
      ghost var v := tab[i + 1..n];
      var a := tab[i];
      ShrStep(Val(v), Val(was[i + 1..n]) + h * Pow(B, n - i - 1), l, a, s, s');
      tab[i] := l % Pow(2, shift) * Pow(2, 32 - shift) + a / Pow(2, shift);
      l := a;
      assert tab[i + 1..n] == v;
      SuffixStep(tab[..], i, n);
      assert tab[..][i..n] == tab[i..n] && tab[..][i + 1..n] == tab[i + 1..n];
      SuffixStep(was, i, n);
      HighStep(h, n - i - 1);
    }
    assert tab[0..n] == tab[..n] && was[0..n] == was[..n] == old(tab[..n]);
    r := l % Pow(2, shift);
  }

  lemma ShlStep(v: int, w: int, l: int, low: int, a: limb, s: int, s': int, p: int)
    requires s > 0 && s' > 0 && s * s' == B && v + l * p == w * s + low && 0 <= l < s
    ensures 0 <= a / s' < s && 0 <= a % s' * s + l < B
    ensures v + (a % s' * s + l) * p + a / s' * (B * p) == (w + a * p) * s + low
  {
    DivMod(a, s');
    var u, r := a / s', a % s';
    if u >= s { MulMono(s, u, s'); }
    if u < 0 { MulMono(u, -1, s'); }
    MulMono(0, r, s);
    MulMono(r, s' - 1, s);
    assert (s' - 1) * s == s' * s - s;
    assert r * s + u * B == a * s by {
      Assoc(u, s', s);
    }
    ShlSum(v, l, w, low, u, r, a, s, p);
  }

  lemma ShlSum(v: int, l: int, w: int, low: int, u: int, r: int, a: int, s: int, p: int)
    requires v + l * p == w * s + low && r * s + u * B == a * s
    ensures v + (r * s + l) * p + u * (B * p) == (w + a * p) * s + low
  {
    calc {
      v + (r * s + l) * p + u * (B * p);
      { Assoc(u, B, p); }
      v + l * p + r * s * p + u * B * p;
      v + l * p + (r * s + u * B) * p;
      { assert (r * s + u * B) * p == a * s * p; Assoc(a, s, p); Assoc(a, p, s); }
      v + l * p + a * p * s;
    }
  }

  method MpShl(tab: array<limb>, n: nat, shift: nat, low: limb) returns (l: limb)
    requires n <= tab.Length && 1 <= shift < 32 && low < Pow(2, shift)
    modifies tab
    ensures Val(tab[..n]) + l * Pow(B, n) == old(Val(tab[..n])) * Pow(2, shift) + low && l < Pow(2, shift)
    ensures forall j :: n <= j < tab.Length ==> tab[j] == old(tab[j])
  {
    ghost var was := tab[..];
    Halves(shift);
    ghost var s, s' := Pow(2, shift), Pow(2, 32 - shift);
    l := low;
    PowOne(B);
    assert Val(tab[..0]) == 0 == Val(was[..0]);
    hide Val, Pow;
    for i := 0 to n
      invariant Val(tab[..i]) + l * Pow(B, i) == Val(was[..i]) * s + low && l < s
      invariant forall j :: i <= j < tab.Length ==> tab[j] == was[j]
    {
      ghost var v := tab[..i];
      var a := tab[i];
      ShlStep(Val(v), Val(was[..i]), l, low, a, s, s', Pow(B, i));
      tab[i] := a % Pow(2, 32 - shift) * Pow(2, shift) + l;
      l := a / Pow(2, 32 - shift);
      assert tab[..i] == v;
      PrefixStep(tab[..], i);
      assert tab[..][..i + 1] == tab[..i + 1] && tab[..][..i] == tab[..i];
      PrefixStep(was, i);
      PowStep(B, i);
    }
    assert old(tab[..n]) == was[..n];
  }

  // ---- division by a precomputed inverse ----

  /** A divisor with its highest bit set. */
  predicate Normal(d: int) {
    B / 2 <= d < B
  }

  /** udiv1norm_init. The quotient fits a limb. */
  function Inverse(d: limb): (inv: limb)
    requires Normal(d)
    ensures (inv + B) * d < B * B <= (inv + B) * d + d
  {
    var a1: int := B - d - 1;
    InverseFits(d, a1);
    (a1 * B + (B - 1)) / d
  }

  lemma InverseFits(d: int, a1: int)
    requires Normal(d) && a1 == B - d - 1
    ensures var q := (a1 * B + (B - 1)) / d; 0 <= q < B && (q + B) * d < B * B <= (q + B) * d + d
  {
    var n := a1 * B + (B - 1);
    DivMod(n, d);
    var q := n / d;
    if q >= B { MulMono(B, q, d); }
    if q < 0 { MulMono(q, -1, d); }
    assert (q + B) * d == q * d + B * d;
  }

  lemma SmallIdentity(a1: int, a0: int, d: int, v: int, q: int, t: int)
    requires v * a1 + a0 == q * B + t
    ensures B * (a1 * B + a0 - q * d) == a1 * (B * B - v * d) + a0 * (B - d) + t * d
  {
    var qd, va := q * d, v * a1;
    assert (va + a0) * d == (q * B + t) * d;
    assert (va + a0) * d == va * d + a0 * d;
    assert (q * B + t) * d == B * qd + t * d by { Assoc(B, q, d); }
    assert va * d == a1 * (v * d) by { Assoc(a1, v, d); }
    assert a1 * (B * B - v * d) == B * B * a1 - a1 * (v * d);
    assert a0 * (B - d) == B * a0 - a0 * d;
  }

  /** The estimate is the quotient or one less. */
  lemma EstimateSmall(a1: int, a0: int, d: int, v: int, q: int, t: int)
    requires Normal(d) && 0 <= a1 < d && 0 <= a0 < B / 2 && v * d < B * B <= v * d + d
    requires v * a1 + a0 == q * B + t && 0 <= t < B
    ensures 0 <= a1 * B + a0 - q * d < 2 * d
  {
    SmallIdentity(a1, a0, d, v, q, t);
    var r := a1 * B + a0 - q * d;
    SmallBounds(a1, a0, d, B * B - v * d, t, r);
  }

  lemma SmallBounds(a1: int, a0: int, d: int, k: int, t: int, r: int)
    requires Normal(d) && 0 <= a1 < d && 0 <= a0 < B / 2 && 0 < k <= d && 0 <= t < B
    requires B * r == a1 * k + a0 * (B - d) + t * d
    ensures 0 <= r < 2 * d
  {
    var x, y, z, w := a1 * k, a0 * (B - d), t * d, d * d;
    MulBounds(a1, d - 1, k, d);
    assert (d - 1) * d == w - d;
    MulBounds(a0, B / 2, B - d, B - d);
    MulBounds(t, B - 1, d, d);
    HalfSquare(d);
    SmallSum(x, y, z, w, d, r);
  }

  lemma MulBounds(a: int, a': int, b: int, b': int)
    requires 0 <= a <= a' && 0 <= b <= b'
    ensures 0 <= a * b <= a' * b'
  {
    MulMono(0, a, b);
    MulMono(a, a', b);
    MulMono(b, b', a');
  }

  lemma HalfSquare(d: int)
    requires Normal(d)
    ensures 2 * (d * d) + B * B <= 3 * B * d
  {
    MulMono(0, B - d, 2 * d - B);
    assert (2 * d - B) * (B - d) == 2 * d * (B - d) - B * (B - d);
    assert 2 * d * (B - d) == 2 * d * B - 2 * (d * d);
  }

  lemma SmallSum(x: int, y: int, z: int, w: int, d: int, r: int)
    requires Normal(d) && 0 <= x <= w - d && 0 <= y <= B / 2 * (B - d) && 0 <= z <= (B - 1) * d
    requires 2 * w + B * B <= 3 * B * d && B * r == x + y + z
    ensures 0 <= r < 2 * d
  {
  }

  lemma LargeIdentity(c: int, a0: int, d: int, v: int, q: int, t: int)
    requires v * c + a0 + d - 2 * B == q * B + t
    ensures B * ((c - 1) * B + a0 - q * d) == c * (B * B - v * d) + a0 * (B - d) - (B - d) * (B - d) + t * d
  {
    var qd, vc := q * d, v * c;
    assert (vc + a0 + d - 2 * B) * d == (q * B + t) * d;
    assert (vc + a0 + d - 2 * B) * d == vc * d + a0 * d + d * d - 2 * B * d;
    assert (q * B + t) * d == B * qd + t * d by { Assoc(B, q, d); }
    assert vc * d == c * (v * d) by { Assoc(c, v, d); }
    assert c * (B * B - v * d) == B * B * c - c * (v * d);
    assert a0 * (B - d) == B * a0 - a0 * d;
    assert (B - d) * (B - d) == B * B - 2 * B * d + d * d;
  }

  lemma EstimateLarge(a1: int, a0: int, d: int, v: int, q: int, t: int)
    requires Normal(d) && 0 <= a1 < d && B / 2 <= a0 < B && v * d < B * B <= v * d + d
    requires v * (a1 + 1) + a0 + d - 2 * B == q * B + t && 0 <= t < B
    ensures 0 <= a1 * B + a0 - q * d < 2 * d
  {
    LargeIdentity(a1 + 1, a0, d, v, q, t);
    var r := a1 * B + a0 - q * d;
    LargeBounds(a1 + 1, a0, d, B * B - v * d, t, r);
  }

  lemma LargeBounds(c: int, a0: int, d: int, k: int, t: int, r: int)
    requires Normal(d) && 1 <= c <= d && B / 2 <= a0 < B && 0 < k <= d && 0 <= t < B
    requires B * r == c * k + a0 * (B - d) - (B - d) * (B - d) + t * d
    ensures 0 <= r < 2 * d
  {
    var e := B - d;
    var x, y, z, w, u := c * k, a0 * e, t * d, d * d, e * e;
    MulBounds(c, d, k, d);
    MulMono(e, a0, e);
    MulMono(a0, B - 1, e);
    MulBounds(t, B - 1, d, d);
    assert u == B * B - 2 * B * d + w;
    LargeSum(x, y, z, w, u, d, r);
  }

  lemma LargeSum(x: int, y: int, z: int, w: int, u: int, d: int, r: int)
    requires Normal(d) && 0 <= x <= w && u <= y <= (B - 1) * (B - d) && 0 <= z <= (B - 1) * d
    requires u == B * B - 2 * B * d + w && B * r == x + y - u + z
    ensures 0 <= r < 2 * d
  {
  }

  /** udiv1norm: the quotient and the remainder of `a1 * B + a0` by `d`, without dividing. All operations wrap around as
      the machine's do. */
  method UDiv1Norm(a1: limb, a0: limb, d: limb, dInv: limb) returns (q: limb, r: limb)
    requires Normal(d) && a1 < d && dInv == Inverse(d)
    ensures a1 * B + a0 == q * d + r && r < d
  {
    hide Inverse;
    var high := a0 >= B / 2;
    var nAdj: int := if high then (a0 + d) % B else a0;
    var a: int := dInv * (if high then a1 + 1 else a1) + nAdj;
    Estimate(a1, a0, d, dInv, a);
    var q1: int := (a / B + a1) % B;
    var n: int := a1 * B + a0;
    var a': int := (n - q1 * d - d) % U64;
    var ah: int := a' / B;
    Correct(n, d, a / B + a1, q1, a', ah);
    q := (q1 + 1 + ah) % B;
    r := (a' % B + (if ah == 0 then 0 else d)) % B;
  }

  lemma Estimate(a1: limb, a0: limb, d: limb, dInv: limb, a: int)
    requires Normal(d) && a1 < d && (dInv + B) * d < B * B <= (dInv + B) * d + d
    requires a == if a0 >= B / 2 then dInv * (a1 + 1) + (a0 + d) % B else dInv * a1 + a0
    ensures 0 <= a < U64 && 0 <= a / B + a1 && 0 <= a1 * B + a0 - (a / B + a1) * d < 2 * d
  {
    var v, q0, t := dInv + B, a / B + a1, a % B;
    assert a == a / B * B + t;
    if a0 >= B / 2 {
      MulBounds(dInv, B - 1, a1 + 1, B - 1);
      assert v * (a1 + 1) == dInv * (a1 + 1) + B * (a1 + 1);
      EstimateLarge(a1, a0, d, v, q0, t);
    } else {
      MulBounds(dInv, B - 1, a1, B - 1);
      assert v * a1 == dInv * a1 + B * a1;
      EstimateSmall(a1, a0, d, v, q0, t);
    }
  }

  lemma Correct(n: int, d: int, q0: int, q1: int, a: int, ah: int)
    requires Normal(d) && 0 <= n < d * B && q0 >= 0 && 0 <= n - q0 * d < 2 * d
    requires q1 == q0 % B && a == (n - q1 * d - d) % U64 && ah == a / B
    ensures n == (q1 + 1 + ah) % B * d + (a % B + (if ah == 0 then 0 else d)) % B
    ensures 0 <= (a % B + (if ah == 0 then 0 else d)) % B < d
  {
    var s := n - q0 * d - d;
    assert (q0 + 1) * d == q0 * d + d;
    if q0 >= B { MulMono(B, q0, d); }
    if q0 + 1 >= B { MulMono(B, q0 + 1, d); }
    assert q1 == q0;
    if s >= 0 {
      CorrectUp(n, q0, d, s);
    } else {
      CorrectKeep(n, q0, d, s);
    }
  }

  lemma CorrectUp(n: int, q0: int, d: int, s: int)
    requires d < B && 0 <= s < d && 0 <= q0 < B - 1 && s == n - q0 * d - d
    ensures s % U64 == s && s / B == 0 && (q0 + 1) % B == q0 + 1 && s % B == s && n == (q0 + 1) * d + s
  {
  }

  lemma CorrectKeep(n: int, q0: int, d: int, s: int)
    requires 0 < d < B && -d <= s < 0 && 0 <= q0 < B && s == n - q0 * d - d
    ensures s % U64 == s + U64 && (s + U64) / B == B - 1 && (s + U64) % B == s + B
    ensures (q0 + 1 + (B - 1)) % B == q0 && (s + B + d) % B == s + d && n == q0 * d + (s + d)
  {
  }

  /** mp_div1norm: division by `b / 2^shift`, where `b` has its highest bit set. */
  method MpDiv1Norm(tab: array<limb>, n: nat, ghost d: limb, b: limb, r0: limb, bInv: limb, shift: nat) returns (r: limb)
    requires n <= tab.Length && shift < 32 && d * Pow(2, shift) == b && Normal(b) && bInv == Inverse(b) && r0 < d
    modifies tab
    ensures old(Val(tab[..n])) + r0 * Pow(B, n) == Val(tab[..n]) * d + r && r < d
    ensures forall j :: n <= j < tab.Length ==> tab[j] == old(tab[j])
  {
    hide Inverse, Val, Pow;
    ghost var v, p, s := Val(tab[..n]), Pow(B, n), Pow(2, shift);
    r := r0;
    if shift != 0 {
      PowPositive(2, shift);
      var h := MpShl(tab, n, shift, 0);
      RemainderFits(r0, d, s, h);
      r := r0 * Pow(2, shift) + h;
      Shifted(v, Val(tab[..n]), h, r0, p, s);
    } else {
      PowOne(2);
    }
    ghost var was := tab[..];
    assert Val(was[..n]) + r * p == (v + r0 * p) * s by { assert was[..n] == tab[..n]; }
    var i := n;
    ghost var top: int := r;
    assert tab[n..n] == [] == was[n..n];
    DivStart(top);
    while i > 0
      invariant 0 <= i <= n && r < b
      invariant Val(was[i..n]) + top * Pow(B, n - i) == Val(tab[i..n]) * b + r
      invariant forall j :: 0 <= j < i || n <= j < tab.Length ==> tab[j] == was[j]
    {
      i := i - 1;
      ghost var w := tab[i + 1..n];
      ghost var r', x := r, tab[i];
      var q;
      q, r := UDiv1Norm(r, tab[i], b, bInv);
      DivStep(Val(was[i + 1..n]) + top * Pow(B, n - i - 1), Val(w), r', x, b, q, r);
      tab[i] := q;
      assert tab[i + 1..n] == w;
      SuffixStep(tab[..], i, n);
      assert tab[..][i..n] == tab[i..n] && tab[..][i + 1..n] == tab[i + 1..n];
      SuffixStep(was, i, n);
      HighStep(top, n - i - 1);
    }
    assert tab[0..n] == tab[..n] && was[0..n] == was[..n];
    Unshift(v + r0 * p, Val(tab[..n]), d, b, s, r);
    r := r / Pow(2, shift);
  }

  lemma {:induction false} PowPositive(b: nat, n: nat)
    requires b > 0
    ensures Pow(b, n) >= 1
  {
  }

  lemma {:induction false} DivStart(top: int)
    ensures Val([]) == 0 && top * Pow(B, 0) == top
  {
  }

  lemma RemainderFits(r0: int, d: int, s: int, h: int)
    requires 0 <= r0 < d && 0 <= h < s
    ensures 0 <= r0 * s + h < d * s
  {
    MulMono(r0, d - 1, s);
    MulMono(0, r0, s);
    assert (d - 1) * s == d * s - s;
  }

  lemma Shifted(v: int, w: int, h: int, r0: int, p: int, s: int)
    requires w + h * p == v * s
    ensures w + (r0 * s + h) * p == (v + r0 * p) * s
  {
    assert (r0 * s + h) * p == r0 * s * p + h * p;
    Assoc(r0, s, p);
    Assoc(r0, p, s);
  }

  /** The remainder of a shifted division is a multiple of the shift. */
  lemma Unshift(v: int, q: int, d: int, b: int, s: int, r: int)
    requires v * s == q * b + r && d * s == b && s > 0 && 0 <= r < b
    ensures v == q * d + r / s && 0 <= r / s < d
  {
    var r' := v - q * d;
    assert r == r' * s by {
      Assoc(q, d, s);
      assert (v - q * d) * s == v * s - q * d * s;
    }
    DivUnique(r, s, r', 0);
    MulCancelStrict(r', d, s);
    MulCancel(0, r', s);
  }
}
