/** Powers, exact division and rounding of fractions. */
module DtArith {
  const B := 0x1_0000_0000

  type limb = x: int | 0 <= x < B

  const U64 := 0x1_0000_0000_0000_0000

  function Pow(b: nat, n: nat): (r: nat)
    ensures b > 0 ==> r > 0
    decreases n
  {
    if n == 0 then 1 else b * Pow(b, n - 1)
  }

  lemma {:induction false} PowOne(b: nat)
    ensures Pow(b, 0) == 1 && Pow(b, 1) == b && Pow(b, 2) == b * b
  {
    assert Pow(b, 1) == b * Pow(b, 0);
    assert Pow(b, 2) == b * Pow(b, 1);
  }

  lemma {:induction false} PowStep(b: nat, n: nat)
    ensures Pow(b, n + 1) == b * Pow(b, n) == Pow(b, n) * b
  {
  }

  lemma Assoc(a: int, b: int, c: int)
    ensures a * b * c == a * (b * c)
  {
  }

  lemma {:induction false} PowAdd(b: nat, m: nat, n: nat)
    ensures Pow(b, m + n) == Pow(b, m) * Pow(b, n)
    decreases m
  {
    if m > 0 {
      PowAdd(b, m - 1, n);
      Assoc(b, Pow(b, m - 1), Pow(b, n));
    }
  }

  lemma {:induction false} PowProduct(a: nat, b: nat, n: nat)
    ensures Pow(a * b, n) == Pow(a, n) * Pow(b, n)
    decreases n
  {
    if n > 0 {
      PowProduct(a, b, n - 1);
      var x, y := Pow(a, n - 1), Pow(b, n - 1);
      hide Pow;
      calc {
        a * b * (x * y);
        a * (b * (x * y));
        a * (x * (b * y));
        a * x * (b * y);
      }
    }
  }

  lemma {:induction false} PowPower(b: nat, m: nat, n: nat)
    ensures Pow(Pow(b, m), n) == Pow(b, m * n)
    decreases n
  {
    if n > 0 {
      PowPower(b, m, n - 1);
      assert m * n == m + m * (n - 1);
      PowAdd(b, m, m * (n - 1));
    } else {
      assert m * n == 0;
    }
  }

  lemma {:induction false} PowMono(b: nat, m: nat, n: nat)
    requires b >= 1 && m <= n
    ensures Pow(b, m) <= Pow(b, n)
  {
    PowAdd(b, m, n - m);
    MulMono(1, Pow(b, n - m), Pow(b, m));
  }

  lemma {:induction false} PowStrict(b: nat, m: nat, n: nat)
    requires b >= 2 && m < n
    ensures b * Pow(b, m) <= Pow(b, n)
  {
    PowStep(b, m);
    PowMono(b, m + 1, n);
  }

  lemma {:induction false} PowBase(a: nat, b: nat, n: nat)
    requires a <= b
    ensures Pow(a, n) <= Pow(b, n)
    decreases n
  {
    if n > 0 {
      PowBase(a, b, n - 1);
      MulMono(Pow(a, n - 1), Pow(b, n - 1), a);
      MulMono(a, b, Pow(b, n - 1));
    }
  }

  lemma {:induction false} PowBaseStrict(x: nat, y: nat, n: nat)
    requires x < y && n > 0
    ensures Pow(x, n) < Pow(y, n)
    decreases n
  {
    PowOne(x);
    PowOne(y);
    if n > 1 {
      PowBaseStrict(x, y, n - 1);
      PowStep(x, n - 1);
      PowStep(y, n - 1);
      hide Pow;
      var a, b := Pow(x, n - 1), Pow(y, n - 1);
      MulMono(a, b, x);
      MulStrict(x, y, b);
    }
  }

  lemma MulMono(a: int, b: int, c: int)
    requires a <= b && c >= 0
    ensures a * c <= b * c && c * a <= c * b
  {
  }

  lemma MulStrict(a: int, b: int, c: int)
    requires a < b && c > 0
    ensures a * c < b * c && c * a < c * b
  {
  }

  lemma MulCancel(a: int, b: int, c: int)
    requires c > 0 && (a * c <= b * c || c * a <= c * b)
    ensures a <= b
  {
    if a > b { MulStrict(b, a, c); }
  }

  lemma MulCancelStrict(a: int, b: int, c: int)
    requires c > 0 && (a * c < b * c || c * a < c * b)
    ensures a < b
  {
    if a >= b { MulMono(b, a, c); }
  }

  /** A product under a name; hidden, it keeps a proof that only rearranges factors out of the solver's arithmetic. */
  function Mul(a: nat, b: nat): (c: nat)
    ensures a > 0 && b > 0 ==> c > 0
  {
    Positive(a, b);
    a * b
  }

  lemma Positive(a: int, b: int)
    requires a >= 0 && b >= 0
    ensures a * b >= 0 && (a > 0 && b > 0 ==> a * b > 0)
  {
    MulMono(0, a, b);
    if a > 0 && b > 0 { MulStrict(0, a, b); }
  }

  lemma {:induction false} MulAssoc(a: nat, b: nat, c: nat)
    ensures Mul(Mul(a, b), c) == Mul(a, Mul(b, c))
  {
    Assoc(a, b, c);
  }

  lemma {:induction false} MulComm(a: nat, b: nat)
    ensures Mul(a, b) == Mul(b, a)
  {
  }

  lemma {:induction false} MulQuad(a: nat, b: nat, c: nat, d: nat)
    ensures Mul(Mul(a, b), Mul(c, d)) == Mul(Mul(a, c), Mul(b, d))
  {
    hide Mul;
    MulAssoc(a, b, Mul(c, d));
    MulAssoc(b, c, d);
    MulComm(b, c);
    MulAssoc(c, b, d);
    MulAssoc(a, c, Mul(b, d));
  }

  lemma {:induction false} PowMul(b: nat, i: nat, j: nat)
    ensures Mul(Pow(b, i), Pow(b, j)) == Pow(b, i + j)
  {
    PowAdd(b, i, j);
  }

  lemma DivMod(n: int, d: int)
    requires d > 0
    ensures n == n / d * d + n % d && 0 <= n % d < d
  {
  }

  /** A quotient and a remainder, as numbers of their own. */
  lemma Quotient(n: nat, d: nat) returns (q: nat, r: nat)
    requires d > 0
    ensures n == q * d + r && r < d
  {
    DivMod(n, d);
    q, r := n / d, n % d;
  }

  lemma DivUnique(n: int, d: int, q: int, r: int)
    requires d > 0 && n == q * d + r && 0 <= r < d
    ensures n / d == q && n % d == r
  {
    DivMod(n, d);
    var q' := n / d;
    assert (q + 1) * d == q * d + d && (q' + 1) * d == q' * d + d;
    if q < q' {
      MulMono(q + 1, q', d);
    } else if q > q' {
      MulMono(q' + 1, q, d);
    }
  }

  /** Dividing by `b` and then by `c` is dividing by `b * c`, and that leaves something exactly when one of the two does. */
  lemma DivTwice(n: nat, b: nat, c: nat)
    requires b > 0 && c > 0
    ensures b * c > 0 && n / b / c == n / (b * c)
    ensures n % (b * c) == 0 <==> n % b == 0 && n / b % c == 0
  {
    MulStrict(0, b, c);
    DivMod(n, b);
    DivMod(n / b, c);
    var q, r, s := n / b / c, n / b % c, n % b;
    assert n == q * (b * c) + (r * b + s) by {
      calc {
        n;
        (q * c + r) * b + s;
        q * c * b + r * b + s;
        { Assoc(q, c, b); }
        q * (c * b) + r * b + s;
      }
    }
    MulMono(r, c - 1, b);
    assert (c - 1) * b == c * b - b;
    MulMono(0, r, b);
    DivUnique(n, b * c, q, r * b + s);
    if r > 0 { MulStrict(0, r, b); }
  }

  // ---- rounding a fraction to an integer ----

  datatype Mode = Nearest | NearestAway | Truncate

  /** `n / d` rounded: to nearest with ties to even, to nearest with ties away from zero, or toward zero. */
  function RoundDiv(n: nat, d: nat, mode: Mode): nat
    requires d > 0
  {
    Rounded(n / d, n % d, d, mode)
  }

  function Rounded(q: nat, r: int, d: int, mode: Mode): nat {
    if mode == Truncate then q
    else if 2 * r > d || (2 * r == d && (mode == NearestAway || q % 2 == 1)) then q + 1
    else q
  }

  lemma RoundDivParts(n: nat, d: nat, q: nat, r: nat, mode: Mode)
    requires n == q * d + r && r < d
    ensures RoundDiv(n, d, mode) == Rounded(q, r, d, mode)
  {
    DivUnique(n, d, q, r);
  }

  /** No integer is nearer, and of two equally near ones the mode decides. */
  lemma RoundDivNearest(n: nat, d: nat, mode: Mode, k: int)
    requires d > 0 && mode != Truncate
    ensures Distance(n, RoundDiv(n, d, mode) * d) <= Distance(n, k * d)
    ensures k != RoundDiv(n, d, mode) && Distance(n, RoundDiv(n, d, mode) * d) == Distance(n, k * d) ==>
              if mode == Nearest then RoundDiv(n, d, mode) % 2 == 0 else RoundDiv(n, d, mode) > k
  {
    var q, r := n / d, n % d;
    DivMod(n, d);
    assert (q + 1) * d == q * d + d;
    if k <= q {
      MulMono(k, q, d);
      if k < q { MulMono(k + 1, q, d); assert (k + 1) * d == k * d + d; }
    } else {
      MulMono(q + 1, k, d);
      if k > q + 1 { MulMono(q + 2, k, d); assert (q + 2) * d == q * d + 2 * d; }
    }
  }

  function Distance(a: int, b: int): nat { if a < b then b - a else a - b }

  /** Rounding depends on the fraction, not on how it is written. */
  lemma RoundDivScale(n: nat, d: nat, k: nat, mode: Mode)
    requires d > 0 && k > 0
    ensures d * k > 0 && RoundDiv(n * k, d * k, mode) == RoundDiv(n, d, mode)
  {
    MulStrict(0, d, k);
    var q, r := n / d, n % d;
    DivMod(n, d);
    ScaleParts(n, d, q, r, k);
    MulStrict(r, d, k);
    MulMono(0, r, k);
    hide RoundDiv;
    RoundDivParts(n, d, q, r, mode);
    RoundDivParts(n * k, d * k, q, r * k, mode);
    assert 2 * (r * k) == (2 * r) * k;
    if 2 * r < d { MulStrict(2 * r, d, k); } else if 2 * r > d { MulStrict(d, 2 * r, k); }
  }

  lemma ScaleParts(n: int, d: int, q: int, r: int, k: int)
    requires n == q * d + r
    ensures n * k == q * (d * k) + r * k
  {
    calc {
      n * k;
      q * d * k + r * k;
      { Assoc(q, d, k); }
      q * (d * k) + r * k;
    }
  }

  lemma RoundDivExact(q: nat, d: nat, mode: Mode)
    requires d > 0
    ensures RoundDiv(q * d, d, mode) == q
  {
    DivUnique(q * d, d, q, 0);
  }

  lemma RoundDivSame(n: nat, d: nat, n': nat, d': nat, mode: Mode)
    requires d > 0 && d' > 0 && n * d' == n' * d
    ensures RoundDiv(n, d, mode) == RoundDiv(n', d', mode)
  {
    RoundDivScale(n, d, d', mode);
    RoundDivScale(n', d', d, mode);
    assert d * d' == d' * d;
  }

  lemma {:induction false} RoundDivCross(n: nat, d: nat, n': nat, d': nat, mode: Mode)
    requires d > 0 && d' > 0 && Mul(n, d') == Mul(n', d)
    ensures RoundDiv(n, d, mode) == RoundDiv(n', d', mode)
  {
    hide RoundDiv;
    RoundDivSame(n, d, n', d', mode);
  }

  /** A quotient whose lowest bit is set when the division left something. */
  function Sticky(q: nat, inexact: bool): nat {
    if inexact && q % 2 == 0 then q + 1 else q
  }

  lemma TwoDivisions(n: int, d: int, w: int, a: int, rem: int, q: int, r: int)
    requires n == a * d + rem && a == q * w + r && 0 <= rem < d && 0 <= r < w
    ensures n == q * (d * w) + (r * d + rem) && 0 <= r * d + rem < d * w
  {
    ScaleParts(a, w, q, r, d);
    assert w * d == d * w;
    MulMono(r, w - 1, d);
    assert (w - 1) * d == w * d - d;
    MulMono(0, r, d);
  }

  /** Two further bits and the sticky bit are enough to round as if the division had been exact. */
  lemma StickyRounds(n: nat, d: nat, w: nat, mode: Mode)
    requires d > 0 && w > 0 && w % 4 == 0
    ensures d * w > 0
    ensures RoundDiv(Sticky(n / d, n % d != 0), w, mode) == RoundDiv(n, d * w, mode)
  {
    hide RoundDiv, Sticky;
    MulStrict(0, d, w);
    DivMod(n, d);
    StickyDivided(n, d, w, n / d, n % d, mode);
  }

  lemma StickyDivided(n: nat, d: nat, w: nat, a: nat, rem: nat, mode: Mode)
    requires n == a * d + rem && rem < d && w > 0 && w % 4 == 0 && d * w > 0
    ensures RoundDiv(Sticky(a, rem != 0), w, mode) == RoundDiv(n, d * w, mode)
  {
    hide RoundDiv, Sticky;
    var q, r := Quotient(a, w);
    StickyParts(n, d, w, a, rem, q, r, mode);
  }

  lemma StickyParts(n: nat, d: nat, w: nat, a: nat, rem: nat, q: nat, r: nat, mode: Mode)
    requires n == a * d + rem && a == q * w + r && rem < d && r < w && w % 4 == 0 && d * w > 0
    ensures RoundDiv(Sticky(a, rem != 0), w, mode) == RoundDiv(n, d * w, mode)
  {
    TwoDivisions(n, d, w, a, rem, q, r);
    EvenSplit(q, w, r);
    var r' := if rem != 0 && r % 2 == 0 then r + 1 else r;
    assert Sticky(a, rem != 0) == q * w + r';
    hide RoundDiv, Sticky;
    RoundDivParts(n, d * w, q, r * d + rem, mode);
    RoundDivParts(q * w + r', w, q, r', mode);
    StickyCompare(d, w, r, rem);
  }

  /** The parity of `q * w + r` is that of `r` for even `w`. */
  lemma EvenSplit(q: nat, w: nat, r: nat)
    requires w % 4 == 0 && r < w
    ensures (q * w + r) % 2 == r % 2
    ensures r % 2 == 0 ==> r + 1 < w
  {
    HalfOf(q, w, w / 2);
  }

  lemma HalfOf(q: nat, w: nat, h: nat)
    requires w == 2 * h
    ensures q * w == 2 * (q * h)
  {
    Assoc(2, q, h);
  }

  lemma StickyCompare(d: nat, w: nat, r: nat, rem: nat)
    requires d > 0 && w % 4 == 0 && r < w && rem < d
    ensures var r' := if rem != 0 && r % 2 == 0 then r + 1 else r;
            && (2 * r' > w <==> 2 * (r * d + rem) > d * w)
            && (2 * r' == w <==> 2 * (r * d + rem) == d * w)
  {
    var h := w / 2;
    assert d * w == d * (2 * h) == 2 * (h * d);
    if r < h {
      MulMono(r, h - 1, d);
      assert (h - 1) * d == h * d - d;
    } else if r > h {
      MulMono(h + 1, r, d);
      assert (h + 1) * d == h * d + d;
    }
  }
}
