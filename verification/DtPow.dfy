/** Powers of the radix and their precomputed inverses; scaling a bignum by a power of the radix. */
module DtPow {
  import opened DtArith
  import opened DtLimb
  import opened DtBig

  /** Digits that fit a limb, by radix (index radix - 2). */
  const DIGITS_PER_LIMB: seq<nat> :=
    [32, 20, 16, 13, 12, 11, 10, 10, 9, 9, 8, 8, 8, 8, 8, 7, 7, 7, 7, 7, 7, 7, 6, 6, 6, 6, 6, 6, 6, 6, 6, 6, 6, 6, 6]

  const POW5: seq<nat> :=
    [0x00000005, 0x00000019, 0x0000007d, 0x00000271, 0x00000c35, 0x00003d09, 0x0001312d, 0x0005f5e1, 0x001dcd65,
     0x009502f9, 0x02e90edd, 0x0e8d4a51, 0x48c27395, 0x6bcc41e9, 0x1afd498d, 0x86f26fc1, 0xa2bc2ec5]

  const POW5_HIGH: seq<nat> := [0x01, 0x07, 0x23, 0xb1]

  const POW5_INV: seq<nat> :=
    [0x99999999, 0x47ae147a, 0x0624dd2f, 0xa36e2eb1, 0x4f8b588e, 0x0c6f7a0b, 0xad7f29ab, 0x5798ee23, 0x12e0be82,
     0xb7cdfd9d, 0x5fd7fe17, 0x19799812, 0xc25c2684]

  /** The odd part of a radix. */
  predicate OddRadix(r: nat) { r % 2 == 1 && 1 <= r <= 35 }

  /** The entry `n` of the table of powers, with its high part. */
  function Pow5(n: nat): nat
    requires 1 <= n <= 17
  {
    POW5[n - 1] + (if n >= 14 then POW5_HIGH[n - 14] * B else 0)
  }

  lemma {:induction false} Pow5Table(n: nat)
    requires 1 <= n <= 17
    ensures Pow5(n) == Pow(5, n) && Pow(5, n) < U64 && (n <= 13 ==> Pow(5, n) < B)
    ensures n <= 13 ==> POW5[n - 1] == Pow(5, n)
  {
    if n == 1 {
      PowOne(5);
    } else {
      Pow5Table(n - 1);
      PowStep(5, n - 1);
      hide Pow;
      assert Pow5(n) == 5 * Pow5(n - 1);
    }
  }

  /** Leading zeros of the powers of five below 2^32. */
  ghost const POW5_SHIFT: seq<nat> := [29, 27, 25, 22, 20, 18, 15, 13, 11, 8, 6, 4, 1]

  lemma {:induction false} ClzUnique(v: limb, z: nat)
    requires v > 0 && z < 32 && Normal(v * Pow(2, z))
    ensures Clz32(v) == z
  {
    NotEarlier(v, Clz32(v), z);
    NotEarlier(v, z, Clz32(v));
  }

  lemma {:induction false} NotEarlier(v: limb, c: nat, z: nat)
    requires Normal(v * Pow(2, c)) && Normal(v * Pow(2, z))
    ensures c >= z
  {
    if c < z {
      PowStrict(2, c, z);
      var x, y := Pow(2, c), Pow(2, z);
      hide Pow;
      MulMono(2 * x, y, v);
      Assoc(2, x, v);
    }
  }

  lemma InverseUnique(d: limb, inv: limb)
    requires Normal(d) && (inv + B) * d < B * B <= (inv + B) * d + d
    ensures Inverse(d) == inv
  {
    var i := Inverse(d);
    hide Inverse;
    assert (i + B + 1) * d == (i + B) * d + d && (inv + B + 1) * d == (inv + B) * d + d;
    if i < inv {
      MulMono(i + B + 1, inv + B, d);
    } else if inv < i {
      MulMono(inv + B + 1, i + B, d);
    }
  }

  /** The precomputed inverses are those udiv1norm_init computes. */
  lemma {:induction false} Pow5InvTable(n: nat)
    requires 1 <= n <= 13
    ensures 0 < Pow(5, n) < B && Clz32(Pow(5, n)) == POW5_SHIFT[n - 1]
    ensures Inverse(Pow(5, n) * Pow(2, Clz32(Pow(5, n)))) == POW5_INV[n - 1]
  {
    Pow5Table(n);
    var v, z, inv := POW5[n - 1], POW5_SHIFT[n - 1], POW5_INV[n - 1];
    NormalTable(n);
    assert Pow(5, n) == v;
    hide Pow, Inverse, Clz32;
    ClzUnique(v, z);
    InverseUnique(v * Pow(2, z), inv);
  }

  lemma {:induction false} NormalTable(n: nat)
    requires 1 <= n <= 13
    ensures var d := POW5[n - 1] * Pow(2, POW5_SHIFT[n - 1]);
            Normal(d) && (POW5_INV[n - 1] + B) * d < B * B <= (POW5_INV[n - 1] + B) * d + d
  {
    SmallPowers();
    if n <= 4 {
      NormalFirst(n);
    } else if n <= 8 {
      NormalMiddle(n);
    } else {
      NormalLast(n);
    }
  }

  /** An entry of the tables is right: power, shifted one, inverse. */
  predicate Entry(v: nat, p: nat, inv: nat) {
    Normal(v * p) && (inv + B) * (v * p) < B * B <= (inv + B) * (v * p) + v * p
  }

  lemma NormalFirst(n: nat)
    requires 1 <= n <= 4
    ensures Entry(POW5[n - 1], [0x2000_0000, 0x800_0000, 0x200_0000, 0x40_0000][n - 1], POW5_INV[n - 1])
  {
  }

  lemma NormalMiddle(n: nat)
    requires 5 <= n <= 8
    ensures Entry(POW5[n - 1], [0x10_0000, 0x4_0000, 0x8000, 0x2000][n - 5], POW5_INV[n - 1])
  {
  }

  lemma NormalLast(n: nat)
    requires 9 <= n <= 13
    ensures Entry(POW5[n - 1], [0x800, 0x100, 0x40, 0x10, 2][n - 9], POW5_INV[n - 1])
  {
  }

  lemma {:induction false} SmallPowers()
    ensures Pow(2, 1) == 2 && Pow(2, 4) == 0x10 && Pow(2, 6) == 0x40 && Pow(2, 8) == 0x100 && Pow(2, 11) == 0x800
    ensures Pow(2, 13) == 0x2000 && Pow(2, 15) == 0x8000 && Pow(2, 18) == 0x4_0000 && Pow(2, 20) == 0x10_0000
    ensures Pow(2, 22) == 0x40_0000 && Pow(2, 25) == 0x200_0000 && Pow(2, 27) == 0x800_0000 && Pow(2, 29) == 0x2000_0000
  {
    assert Pow(2, 1) == 2 && Pow(2, 4) == 0x10 && Pow(2, 2) == 4 && Pow(2, 3) == 8;
    PowAdd(2, 2, 4);
    PowAdd(2, 4, 4);
    PowAdd(2, 3, 8);
    PowAdd(2, 2, 11);
    PowAdd(2, 2, 13);
    PowAdd(2, 3, 15);
    PowAdd(2, 2, 18);
    PowAdd(2, 2, 20);
    PowAdd(2, 3, 22);
    PowAdd(2, 2, 25);
    PowAdd(2, 2, 27);
  }

  method PowTable(a: nat, b: nat) returns (r: nat)
    requires (a == 5 || a == 10) && 1 <= b <= 17
    ensures r == Pow(a, b)
  {
    Pow5Table(b);
    PowProduct(5, 2, b);
    hide Pow;
    r := POW5[b - 1];
    if b >= 14 {
      r := r + POW5_HIGH[b - 14] * B;
    }
    if a == 10 {
      r := r * Pow(2, b);
    }
  }

  /** pow_ui: by table for 5 and 10, otherwise by squaring. */
  method PowUi(a: nat, b: nat) returns (r: nat)
    requires a >= 1 && Pow(a, b) < U64 && b < B
    ensures r == Pow(a, b)
  {
    PowOne(a);
    PowOne(2);
    hide Pow, Clz32;
    if b == 0 {
      return 1;
    }
    if b == 1 {
      return a;
    }
    if (a == 5 || a == 10) && b <= 17 {
      r := PowTable(a, b);
      return;
    }
    r := a;
    var nBits := 32 - Clz32(b);
    TopOne(b, nBits);
    var i := nBits - 1;
    while i > 0
      invariant 0 <= i < nBits && r == Pow(a, b / Pow(2, i))
    {
      i := i - 1;
      NextBit(a, b, i);
      r := r * r;
      if b / Pow(2, i) % 2 == 1 {
        r := r * a;
      }
    }
    assert b / Pow(2, 0) == b;
  }

  /** The highest bit stands alone. */
  lemma {:induction false} TopOne(b: nat, nBits: nat)
    requires 0 < b < B && nBits == 32 - Clz32(b)
    ensures b / Pow(2, nBits - 1) == 1
  {
    hide Pow, Clz32;
    var z := Clz32(b);
    Halves(z);
    PowStep(2, 31 - z);
    var p, u := Pow(2, 31 - z), Pow(2, z);
    assert u * (2 * p) == 2 * p * u;
    TopOneParts(b, p, u);
  }

  lemma TopOneParts(b: nat, p: nat, u: nat)
    requires 2 * p * u == B && p > 0 && u > 0 && Normal(b * u)
    ensures b / p == 1
  {
    Assoc(2, p, u);
    MulCancel(p, b, u);
    MulCancelStrict(b, 2 * p, u);
    DivUnique(b, p, 1, b - p);
  }

  lemma {:induction false} NextBit(a: nat, b: nat, i: nat)
    requires a >= 1
    ensures var h := Pow(a, b / Pow(2, i + 1));
            Pow(a, b / Pow(2, i)) == if b / Pow(2, i) % 2 == 1 then h * h * a else h * h
  {
    PowStep(2, i);
    DivTwice(b, Pow(2, i), 2);
    var n, m := b / Pow(2, i), b / Pow(2, i + 1);
    PowAdd(a, m, m);
    PowAdd(a, 2 * m, 1);
    PowOne(a);
    hide Pow;
    assert m == n / 2;
  }

  /** pow_ui_inv: a power, normalized, with its inverse. */
  method PowUiInv(a: nat, b: nat) returns (r: limb, inv: limb, shift: nat)
    requires a >= 1 && b < B && Pow(a, b) < B
    ensures shift < 32 && r == Pow(a, b) * Pow(2, shift) && Normal(r) && inv == Inverse(r)
  {
    if a == 5 && 1 <= b <= 13 {
      Pow5Table(b);
      Pow5InvTable(b);
      var v: limb := POW5[b - 1];
      shift := Clz32(v);
      r := v * Pow(2, shift);
      inv := POW5_INV[b - 1];
    } else {
      var v := PowUi(a, b);
      shift := Clz32(v);
      r := v * Pow(2, shift);
      inv := Inverse(r);
    }
  }
}
