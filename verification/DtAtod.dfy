/** Reading a number (js_atod). */
module DtAtod {
  import opened DtArith
  import opened DtLimb
  import opened DtBig
  import opened DtPow
  import opened DtScale
  import opened DtDouble
  import opened DtRange
  import opened DtText
  import opened DtTables
  import opened DtMeaning

  // ---- the scans as loops ----

  /** Past the digits 0 to 7. */
  method PastOctalLoop(s: string, p0: nat) returns (p: nat)
    ensures p == PastOctal(s, p0)
  {
    p := p0;
    while '0' <= At(s, p) <= '7'
      invariant PastOctal(s, p) == PastOctal(s, p0)
      decreases |s| - p
    {
      p := p + 1;
    }
  }

  /** The prefix and the default radix. */
  method ParsePrefix(s: string, o: Options, start: nat) returns (fail: bool, p: nat, o': Options)
    requires o.radix == 0 || ValidRadix(o.radix)
    ensures Prefixed(fail, p, o') == Prefix(s, o, start)
  {
    fail, p, o' := false, start, o;
    if At(s, p) == '0' {
      var c, prefix := At(s, p + 1), true;
      if (c == 'x' || c == 'X') && (o.radix == 0 || o.radix == 16) {
        p := p + 2;
        o' := o.(radix := 16);
      } else if (c == 'o' || c == 'O') && o.radix == 0 && o.binOct {
        p := p + 2;
        o' := o.(radix := 8);
      } else if (c == 'b' || c == 'B') && o.radix == 0 && o.binOct {
        p := p + 2;
        o' := o.(radix := 2);
      } else if '0' <= c <= '9' && o.radix == 0 && o.legacyOctal {
        o' := o.(underscores := false);
        var q := PastOctalLoop(s, p + 1);
        if At(s, q) == '8' || At(s, q) == '9' {
          prefix := false;
        } else {
          p := p + 1;
          o' := o'.(radix := 8);
        }
      } else {
        prefix := false;
      }
      if prefix {
        fail := ToDigit(At(s, p)) >= o'.radix;
        return;
      }
    }
    if o'.radix == 0 {
      o' := o'.(radix := 10);
    }
  }

  /** One round of the scan of zeros. */
  method NextZero(s: string, o: Options, start: nat, p0: nat, pos: nat, dot0: int) returns (stop: bool, p: nat, dotPos: int)
    requires dot0 <= pos
    ensures dotPos <= pos
    ensures stop ==> SkipZeros(s, o, start, Scan(p0, pos, dot0)) == Scan(p, pos, dotPos)
    ensures !stop ==>
      && p0 < p <= |s|
      && SkipZeros(s, o, start, Scan(p0, pos, dot0)) == SkipZeros(s, o, start, Scan(p, pos + 1, dotPos))
  {
    hide SkipZeros, IsDot;
    SkipStep(s, o, start, Scan(p0, pos, dot0));
    p, dotPos := p0, dot0;
    if IsDot(s, o, start, p) {
      if dotPos >= 0 {
        return true, p, dotPos;
      }
      dotPos := pos;
      p := p + 1;
    }
    if IsSep(o, At(s, p)) && p > start && At(s, p + 1) == '0' {
      p := p + 1;
    }
    stop := At(s, p) != '0';
    if !stop {
      p := p + 1;
    }
  }

  method SkipZerosLoop(s: string, o: Options, start: nat, p0: nat) returns (p: nat, pos: nat, dotPos: int)
    ensures Scan(p, pos, dotPos) == SkipZeros(s, o, start, Scan(p0, 0, -1)) && dotPos <= pos <= |s|
  {
    hide SkipZeros;
    p, pos, dotPos := p0, 0, -1;
    while true
      invariant SkipZeros(s, o, start, Scan(p, pos, dotPos)) == SkipZeros(s, o, start, Scan(p0, 0, -1))
      invariant dotPos <= pos <= |s| && (pos > 0 ==> pos <= p <= |s|)
      decreases |s| + 1 - p
    {
      var stop;
      stop, p, dotPos := NextZero(s, o, start, p, pos, dotPos);
      if stop {
        return;
      }
      pos := pos + 1;
    }
  }

  /** What the table entries of a radix promise. */
  lemma EntryFacts(radix: nat)
    requires ValidRadix(radix)
    ensures var d, base := DigitsPerLimb(radix), RadixBase(radix);
            1 <= d <= 32 && base < B && Pow(radix, d) == (if base == 0 then B else base) && MaxDigits(radix) < 5 * d
  {
    hide DigitsPerLimb, RadixBase, MaxDigits, Pow;
    LimbEntries(radix);
    SomeDigits(radix);
  }

  function FullBase(radix: nat): nat
    requires ValidRadix(radix)
  {
    if RadixBase(radix) == 0 then B else RadixBase(radix)
  }

  /** Where the scan of the digits stands: the limb that is being filled and the digits in it, the full limbs, the digits
      used, and whether a digit that is not zero was left out. */
  datatype Filling = Filling(curLimb: limb, limbDigits: nat, limbs: nat, digitCount: nat, extra: bool)

  /** The digits read so far are in the bignum and in the limb. */
  ghost predicate Collected(done: seq<nat>, radix: nat, value: nat, g: Filling)
    requires ValidRadix(radix)
  {
    var kept := Kept(done, radix);
    && AreDigits(done, radix) && g.digitCount == |kept| <= |done|
    && g.digitCount == g.limbs * DigitsPerLimb(radix) + g.limbDigits && g.limbDigits < DigitsPerLimb(radix)
    && NatIn(kept, radix) == value * Pow(radix, g.limbDigits) + g.curLimb && g.curLimb < Pow(radix, g.limbDigits)
    && (g.extra <==> !AllZero(done[g.digitCount..]))
  }

  lemma {:induction false} CollectedNone(radix: nat)
    requires ValidRadix(radix)
    ensures Collected([], radix, 0, Filling(0, 0, 0, 0, false))
  {
    hide Pow, MaxDigits, DigitsPerLimb;
    EntryFacts(radix);
    NatNone(radix);
    PowOne(radix);
  }

  lemma {:induction false} CollectedAll(done: seq<nat>, radix: nat, value: nat, g: Filling)
    requires ValidRadix(radix) && Collected(done, radix, value, g)
    ensures g.digitCount == |Kept(done, radix)| <= |done| && (g.extra <==> !AllZero(done[g.digitCount..]))
    ensures g.limbDigits < DigitsPerLimb(radix) && g.limbs <= 4 && g.digitCount <= MaxDigits(radix)
    ensures NatIn(Kept(done, radix), radix) == value * Pow(radix, g.limbDigits) + g.curLimb
  {
    hide Pow, NatIn, MaxDigits, DigitsPerLimb;
    EntryFacts(radix);
    MulCancelStrict(g.limbs, 5, DigitsPerLimb(radix));
  }

  /** A digit that is left out. */
  lemma {:induction false} LeaveOut(done: seq<nat>, radix: nat, c: nat, value: nat, g: Filling)
    requires ValidRadix(radix) && Collected(done, radix, value, g) && c < radix && g.digitCount >= MaxDigits(radix)
    ensures Collected(done + [c], radix, value, g.(extra := g.extra || c != 0))
  {
    hide Pow, NatIn, MaxDigits, DigitsPerLimb;
    assert Kept(done + [c], radix) == Kept(done, radix);
    var low := done[g.digitCount..];
    assert (done + [c])[g.digitCount..] == low + [c];
    assert forall i :: 0 <= i < |low| ==> (low + [c])[i] == low[i];
    assert (low + [c])[|low|] == c;
  }

  function Shifted(value: nat, base: nat, low: nat): nat {
    Positive(value, base);
    value * base + low
  }

  /** A digit that is used. */
  lemma {:induction false} PutIn(done: seq<nat>, radix: nat, c: nat, value: nat, g: Filling, cur: limb)
    requires ValidRadix(radix) && Collected(done, radix, value, g) && c < radix && g.digitCount < MaxDigits(radix)
    requires cur == g.curLimb * radix + c
    ensures g.limbDigits + 1 < DigitsPerLimb(radix) ==>
              Collected(done + [c], radix, value, Filling(cur, g.limbDigits + 1, g.limbs, g.digitCount + 1, g.extra))
    ensures g.limbDigits + 1 == DigitsPerLimb(radix) ==>
              Collected(done + [c], radix, Shifted(value, FullBase(radix), cur), Filling(0, 0, g.limbs + 1, g.digitCount + 1, g.extra))
  {
    hide Pow, NatIn, MaxDigits, DigitsPerLimb, RadixBase;
    var d, n := DigitsPerLimb(radix), g.limbDigits;
    EntryFacts(radix);
    assert Kept(done, radix) == done && Kept(done + [c], radix) == done + [c];
    NatSnoc(done, c, radix);
    PowStep(radix, n);
    PowOne(radix);
    BoundStep(g.curLimb, Pow(radix, n), c, radix);
    ConcatStep(value, Pow(radix, n), g.curLimb, c, radix);
    NoneLeft(done, g.digitCount);
    NoneLeft(done + [c], g.digitCount + 1);
    assert (g.limbs + 1) * d == g.limbs * d + d;
  }

  lemma {:induction false} CollectedLimb(done: seq<nat>, radix: nat, value: nat, g: Filling)
    requires ValidRadix(radix) && Collected(done, radix, value, g)
    ensures g.limbDigits < DigitsPerLimb(radix) && g.curLimb < Pow(radix, g.limbDigits)
  {
    hide Pow, NatIn, MaxDigits, DigitsPerLimb;
  }

  /** The limb has room for another digit. */
  lemma {:induction false} LimbRoom(done: seq<nat>, radix: nat, c: nat, value: nat, g: Filling)
    requires ValidRadix(radix) && Collected(done, radix, value, g) && c < radix
    ensures 0 <= g.curLimb * radix + c < B
  {
    hide Pow, NatIn, MaxDigits, DigitsPerLimb, RadixBase, Collected;
    var d, n := DigitsPerLimb(radix), g.limbDigits;
    CollectedLimb(done, radix, value, g);
    EntryFacts(radix);
    PowStep(radix, n);
    PowMono(radix, n + 1, d);
    BoundStep(g.curLimb, Pow(radix, n), c, radix);
  }

  lemma NoneLeft(ds: seq<nat>, k: nat)
    requires k == |ds|
    ensures AllZero(ds[k..])
  {
  }

  /** One round of the scan: past a dot and a separator to a digit, or to the end of the digits. */
  method NextDigit(s: string, o: Options, start: nat, p0: nat, pos: nat, dot0: int) returns (stop: bool, p: nat, dotPos: int, c: nat)
    requires dot0 <= pos && ValidRadix(o.radix)
    ensures dotPos <= pos
    ensures stop ==> ReadDigits(s, o, start, Scan(p0, pos, dot0)) == (Scan(p, pos, dotPos), [])
    ensures !stop ==>
      && c < o.radix && p0 < p <= |s|
      && var r := ReadDigits(s, o, start, Scan(p, pos + 1, dotPos)); ReadDigits(s, o, start, Scan(p0, pos, dot0)) == (r.0, [c] + r.1)
  {
    hide ReadDigits, IsDot, ToDigit;
    p, dotPos, c := p0, dot0, 0;
    if !SecondDot(s, o, start, Scan(p0, pos, dot0)) { ReadStep(s, o, start, Scan(p0, pos, dot0)); }
    if IsDot(s, o, start, p) {
      if dotPos >= 0 {
        NoDigits(s, o, start, Scan(p0, pos, dot0));
        return true, p, dotPos, 0;
      }
      dotPos := pos;
      p := p + 1;
    }
    if IsSep(o, At(s, p)) && p > start && ToDigit(At(s, p + 1)) < o.radix {
      p := p + 1;
    }
    c := ToDigit(At(s, p));
    stop := c >= o.radix;
    if !stop {
      NotPastEnd(s, p);
      p := p + 1;
    }
  }

  lemma NotPastEnd(s: string, p: nat)
    requires ToDigit(At(s, p)) < 36
    ensures p < |s|
  {
  }

  /** A digit joins the limb that is being filled; a full limb goes into the bignum. */
  method Collect(tmp: Mpb, radix: nat, maxDigits: nat, digitsPerLimb: nat, radixBase: limb, c: nat, g: Filling, ghost done: seq<nat>)
    returns (g': Filling)
    requires ValidRadix(radix) && maxDigits == MaxDigits(radix) && digitsPerLimb == DigitsPerLimb(radix) && radixBase == RadixBase(radix)
    requires tmp.Valid() && tmp.Normalized() && tmp.tab.Length == CAPACITY && tmp.len <= 1 + g.limbs
    requires Collected(done, radix, tmp.Value(), g) && c < radix
    modifies tmp, tmp.tab
    ensures tmp.Valid() && tmp.Normalized() && tmp.len <= 1 + g'.limbs
    ensures Collected(done + [c], radix, tmp.Value(), g')
  {
    hide Collected, NatIn, Pow, Val, MaxDigits, DigitsPerLimb, RadixBase, Kept;
    CollectedAll(done, radix, tmp.Value(), g);
    if g.digitCount < maxDigits {
      LimbRoom(done, radix, c, tmp.Value(), g);
      var cur: limb := g.curLimb * radix + c;
      PutIn(done, radix, c, tmp.Value(), g, cur);
      g' := Filling(cur, g.limbDigits + 1, g.limbs, g.digitCount + 1, g.extra);
      if g'.limbDigits == digitsPerLimb {
        tmp.Mul1Base(radixBase, g'.curLimb);
        g' := Filling(0, 0, g.limbs + 1, g.digitCount + 1, g.extra);
      }
    } else {
      LeaveOut(done, radix, c, tmp.Value(), g);
      g' := g.(extra := g.extra || c != 0);
    }
  }

  method ReadDigitsLoop(s: string, o: Options, start: nat, p0: nat, pos0: nat, dot0: int, tmp: Mpb)
    returns (p: nat, pos: nat, dotPos: int, digitCount: nat, extra: bool)
    requires ValidRadix(o.radix) && tmp.Valid() && tmp.Normalized() && tmp.Value() == 0 && tmp.len == 1
    requires tmp.tab.Length == CAPACITY && dot0 <= pos0
    modifies tmp, tmp.tab
    ensures tmp.Valid() && tmp.Normalized() && tmp.len <= 6
    ensures var r := ReadDigits(s, o, start, Scan(p0, pos0, dot0));
            && Scan(p, pos, dotPos) == r.0 && digitCount == |Kept(r.1, o.radix)| <= |r.1| && dotPos <= pos
            && tmp.Value() == NatIn(Kept(r.1, o.radix), o.radix) && (extra <==> !AllZero(r.1[digitCount..]))
  {
    hide Pow, NatIn, Val, Collected, ReadDigits, Kept, MaxDigits, DigitsPerLimb, RadixBase, AllZero;
    p, pos, dotPos, digitCount := p0, pos0, dot0, 0;
    var maxDigits, digitsPerLimb, radixBase := MaxDigits(o.radix), DigitsPerLimb(o.radix), RadixBase(o.radix);
    EntryFacts(o.radix);
    var g := Filling(0, 0, 0, 0, false);
    ghost var done: seq<nat> := [];
    ghost var r := ReadDigits(s, o, start, Scan(p0, pos0, dot0));
    assert done + r.1 == r.1;
    CollectedNone(o.radix);
    while true
      invariant tmp.Valid() && tmp.Normalized() && tmp.tab.Length == CAPACITY && tmp.len <= 1 + g.limbs
      invariant Collected(done, o.radix, tmp.Value(), g)
      invariant dotPos <= pos && r == Joined(done, ReadDigits(s, o, start, Scan(p, pos, dotPos)))
      decreases |s| + 1 - p
    {
      var stop, c;
      ghost var rest := ReadDigits(s, o, start, Scan(p, pos, dotPos));
      stop, p, dotPos, c := NextDigit(s, o, start, p, pos, dotPos);
      if stop {
        assert done + [] == done;
        assert r == (Scan(p, pos, dotPos), done);
        digitCount, extra := g.digitCount, g.extra;
        Flush(tmp, o.radix, g, done);
        return;
      }
      pos := pos + 1;
      JoinedStep(done, c, rest, ReadDigits(s, o, start, Scan(p, pos, dotPos)));
      g := Collect(tmp, o.radix, maxDigits, digitsPerLimb, radixBase, c, g, done);
      done := done + [c];
    }
  }

  /** The digits left over go into the bignum. */
  method Flush(tmp: Mpb, radix: nat, g: Filling, ghost done: seq<nat>)
    requires ValidRadix(radix) && tmp.Valid() && tmp.Normalized() && tmp.tab.Length == CAPACITY && tmp.len <= 1 + g.limbs
    requires Collected(done, radix, tmp.Value(), g)
    modifies tmp, tmp.tab
    ensures tmp.Valid() && tmp.Normalized() && tmp.len <= 6
    ensures g.digitCount == |Kept(done, radix)| <= |done| && tmp.Value() == NatIn(Kept(done, radix), radix)
    ensures g.extra <==> !AllZero(done[g.digitCount..])
  {
    hide Pow, NatIn, Val, Collected, Kept, MaxDigits, DigitsPerLimb, RadixBase, AllZero;
    CollectedAll(done, radix, tmp.Value(), g);
    LastLimb(done, radix, tmp.Value(), g);
    if g.limbDigits != 0 {
      var base := PowUi(radix, g.limbDigits);
      tmp.Mul1Base(base, g.curLimb);
    }
  }

  lemma {:induction false} LastLimb(done: seq<nat>, radix: nat, value: nat, g: Filling)
    requires ValidRadix(radix) && Collected(done, radix, value, g)
    ensures 0 < Pow(radix, g.limbDigits) < B && g.limbDigits < 32
    ensures NatIn(Kept(done, radix), radix) == if g.limbDigits == 0 then value else Shifted(value, Pow(radix, g.limbDigits), g.curLimb)
  {
    hide Pow, NatIn, Kept, MaxDigits, DigitsPerLimb;
    EntryFacts(radix);
    PowOne(radix);
    PowStrict(radix, g.limbDigits, DigitsPerLimb(radix));
  }

  ghost function Joined(done: seq<nat>, r: (Scan, seq<nat>)): (Scan, seq<nat>) { (r.0, done + r.1) }

  lemma JoinedStep(done: seq<nat>, c: nat, r: (Scan, seq<nat>), q: (Scan, seq<nat>))
    requires r == (q.0, [c] + q.1)
    ensures Joined(done, r) == Joined(done + [c], q)
  {
    assert done + ([c] + q.1) == done + [c] + q.1;
  }

  /** The digits of an exponent behind the first. */
  method ReadExponentLoop(s: string, o: Options, p0: nat, c0: nat) returns (p: nat, expn: nat, overflow: bool)
    requires c0 < 10
    ensures var r := ReadExponent(s, o, p0, c0);
            p == r.0 && (overflow <==> r.1 >= HUGE) && (!overflow ==> expn == r.1)
  {
    p, expn, overflow := p0, c0, false;
    ghost var v: nat := c0;
    while true
      invariant ReadExponent(s, o, p, v) == ReadExponent(s, o, p0, c0)
      invariant (overflow <==> v >= HUGE) && (!overflow ==> expn == v) && (overflow ==> expn <= HUGE)
      decreases |s| + 1 - p
    {
      if IsSep(o, At(s, p)) && ToDigit(At(s, p + 1)) < 10 {
        p := p + 1;
      }
      var c := ToDigit(At(s, p));
      if c >= 10 {
        return;
      }
      if !overflow {
        if expn > (0x7fff_ffff - 2 - 9) / 10 {
          overflow := true;
        } else {
          expn := expn * 10 + c;
        }
      }
      v := v * 10 + c;
      p := p + 1;
    }
  }

  ghost predicate ExponentRead(s: string, o: Options, start: nat, p0: nat, fail: bool, p: nat, expn: int, overflow: bool,
                               negative: bool, binary: bool) {
    && (!ExponentFollows(s, o, start, p0) ==> !fail && p == p0 && expn == 0 && !overflow && !binary)
    && (ExponentFollows(s, o, start, p0) ==>
          && negative == (At(s, p0 + 1) == '-') && binary == (At(s, p0) == 'p' || At(s, p0) == 'P')
          && var q := if At(s, p0 + 1) == '+' || At(s, p0 + 1) == '-' then p0 + 2 else p0 + 1;
             var c := ToDigit(At(s, q));
             && fail == (c >= 10) && (fail ==> p == q)
             && (!fail ==>
                   var r := ReadExponent(s, o, q + 1, c);
                   && p == r.0 && (overflow <==> r.1 >= HUGE)
                   && (!overflow ==> expn == if negative then -(r.1 as int) else r.1)))
  }

  /** The exponent part, if there is one. `fail` when it has no digits. */
  method ParseExponent(s: string, o: Options, start: nat, p0: nat)
    returns (fail: bool, p: nat, expn: int, overflow: bool, negative: bool, binary: bool)
    ensures ExponentRead(s, o, start, p0, fail, p, expn, overflow, negative, binary)
  {
    hide ReadExponent;
    fail, p, expn, overflow, negative, binary := false, p0, 0, false, false, false;
    if ExponentFollows(s, o, start, p0) {
      binary := At(s, p) == 'p' || At(s, p) == 'P';
      p := p + 1;
      if At(s, p) == '+' {
        p := p + 1;
      } else if At(s, p) == '-' {
        negative := true;
        p := p + 1;
      }
      var c := ToDigit(At(s, p));
      if c >= 10 {
        fail := true;
        return;
      }
      p, expn, overflow := ReadExponentLoop(s, o, p + 1, c);
      if negative {
        expn := -expn;
      }
    }
  }

  /** What the scans add up to. */
  lemma {:induction false} ScansAre(s: string, o: Options, start: nat, p0: nat, neg: bool, z: Scan, d: Scan, ds: seq<nat>, fail: bool,
                                    p: nat, expn: int, overflow: bool, negative: bool, binary: bool)
    requires z == SkipZeros(s, o, start, Scan(p0, 0, -1)) && (d, ds) == ReadDigits(s, o, start, z)
    requires ExponentRead(s, o, start, d.p, fail, p, expn, overflow, negative, binary)
    ensures fail || p == start ==> ParseDigits(s, o, start, p0, neg) == NotANumber(p)
    ensures !fail && p != start ==>
      && ParseDigits(s, o, start, p0, neg).Number? && var n := ParseDigits(s, o, start, p0, neg);
         && n == Number(o.radix, neg, ds, z.pos, if d.dot < 0 then d.pos else d.dot, n.exp, binary, p)
         && (overflow ==> if negative then n.exp <= -HUGE else n.exp >= HUGE)
         && (!overflow ==> n.exp == expn && -HUGE < expn < HUGE)
  {
    hide ReadDigits, SkipZeros, ReadExponent, StartsInfinity;
  }

  // ---- from the digits and the exponent to the number ----

  /** The bignum holds the kept digits; in a power of two its last bit also stands for those left out. */
  ghost predicate Holds(n: Parsed, digitCount: nat, w: nat)
    requires n.Number? && ValidRadix(n.radix)
  {
    var kept := Kept(n.digits, n.radix);
    && digitCount == |kept| <= |n.digits|
    && w == if RadixBits(n.radix) > 0 then Sticky(NatIn(kept, n.radix), !AllZero(n.digits[digitCount..])) else NatIn(kept, n.radix)
  }

  lemma WrapParts(x: int) returns (k: int)
    ensures x == Wrap(x) + k * INT32 && IsInt32(Wrap(x))
  {
    k := (x + 0x8000_0000) / INT32;
  }

  lemma WrapUnique(x: int, y: int, k: int)
    requires IsInt32(y) && x == y + k * INT32
    ensures Wrap(x) == y
  {
    DivUnique(x + 0x8000_0000, INT32, k, y + 0x8000_0000);
  }

  lemma WrapSum(x: int, y: int)
    ensures Wrap(Wrap(x) + y) == Wrap(x + y) && Wrap(x - Wrap(y)) == Wrap(x - y)
  {
    hide Wrap;
    var k := WrapParts(x);
    var i := WrapParts(Wrap(x) + y);
    WrapUnique(x + y, Wrap(Wrap(x) + y), i + k);
    k := WrapParts(y);
    i := WrapParts(x - Wrap(y));
    WrapUnique(x - y, Wrap(x - Wrap(y)), i - k);
  }

  lemma WrapNear(x: int, y: int)
    requires -3000 < Wrap(x) < 3000 && -3000 < y < 3000
    ensures Wrap(x - y) == Wrap(x) - y
  {
  }

  /** The branches that put exponent and mantissa together. */
  method AssembleBits(m: nat, e: int) returns (a: nat)
    ensures a == BitsOf(m, e)
  {
    if m == 0 {
      a := 0;
    } else if e > 1024 {
      a := INF;
    } else if e < -1073 {
      a := 0;
    } else if e < -1021 {
      a := m / Pow(2, -e - 1021);
    } else {
      a := (e + 1022) * P52 + m % P52;
    }
  }

  /** The place of the first digit as an int. */
  function Place(n: Parsed): int
    requires n.Number?
  {
    Wrap(FirstPlace(n))
  }

  lemma {:induction false} GuardLong(n: Parsed)
    requires WellRead(n) && Place(n) > LastPlace(n.radix)
    ensures ReadsIn(INF, Mant(n), Base(n.radix), Place(n) - Length(n))
  {
    hide Pow, NatIn, Counted, LastPlace, PerDigit, ReadsIn, Beyond, Place, Base;
    CountedWell(n);
    TooLong(Counted(n), n.radix, Place(n) - Length(n));
  }

  lemma {:induction false} GuardSmall(n: Parsed)
    requires WellRead(n) && Place(n) <= LeastPlace(n.radix)
    ensures ReadsIn(0, Mant(n), Base(n.radix), Place(n) - Length(n))
  {
    hide Pow, NatIn, Counted, LeastPlace, PerDigit, ReadsIn, Vanishing, Place, Base;
    CountedWell(n);
    TooSmall(Counted(n), n.radix, Place(n) - Length(n));
  }

  /** The steps of the exponent, each wrapped, are one sum, wrapped. */
  lemma WrapSteps(a: int, x: int, z: int)
    ensures Wrap(Wrap(a - Wrap(x)) + z) == Wrap(Wrap(Wrap(a) - Wrap(x)) + z) == Wrap(a - x + z)
  {
    hide Wrap;
    WrapSum(a, x);
    WrapSum(Wrap(a), x);
    WrapSum(a, -x);
    WrapSum(a - x, z);
  }

  lemma {:induction false} BinaryPlaces(n: Parsed, digitCount: nat, rb: nat, expnOffset: int, w: nat)
    requires WellRead(n) && rb == RadixBits(n.radix) > 0 && Holds(n, digitCount, w)
    requires expnOffset == n.sigPos + digitCount - n.dotPos
    ensures var e := Wrap((if n.binary then n.exp else Wrap(n.exp * rb)) - Wrap(expnOffset * rb));
            && Wrap(e + digitCount * rb) == Place(n)
            && (-3000 < Place(n) < 3000 ==> e - (|n.digits| - digitCount) * rb == Place(n) - Length(n))
    ensures LastPlace(n.radix) == 1024 + rb - 1 && LeastPlace(n.radix) == -1075
  {
    hide Wrap, Kept, NatIn, Sticky;
    var x, z := expnOffset * rb, digitCount * rb;
    var a := if n.binary then n.exp else n.exp * rb;
    assert (n.dotPos - n.sigPos) * rb == z - x;
    WrapSteps(a, x, z);
    WrapSum(a, -x);
    WrapSum(Wrap(a), -x);
    WrapSum(a, x);
    WrapSum(Wrap(a), x);
    assert FirstPlace(n) == a - x + z;
    FewBits(n, digitCount, rb, w);
    if -3000 < Place(n) < 3000 { WrapNear(FirstPlace(n), z); }
    assert (|n.digits| - digitCount) * rb == |n.digits| * rb - z;
  }

  lemma {:induction false} FewBits(n: Parsed, digitCount: nat, rb: nat, w: nat)
    requires WellRead(n) && rb == RadixBits(n.radix) && Holds(n, digitCount, w)
    ensures 1 <= digitCount <= MaxDigits(n.radix) && digitCount < 160 && digitCount * rb < 3000
  {
    hide NatIn, Sticky, MaxDigits, DigitsPerLimb;
    SomeDigits(n.radix);
    EntryFacts(n.radix);
    MulMono(digitCount, 160, rb);
  }

  /** The bignum stands for all the digits. */
  lemma {:induction false} CutRounds(n: Parsed, digitCount: nat, w: nat, expn: int) returns (el: int)
    requires WellRead(n) && RadixBits(n.radix) > 0 && Holds(n, digitCount, w)
    ensures digitCount <= |n.digits| && w > 0 && IsExponent(w, -expn, el)
    ensures ReadsIn(RoundBits(RoundShift(w, el - expn - Precision(el), Nearest), el), Mant(n), Base(n.radix),
                    expn - (|n.digits| - digitCount) * RadixBits(n.radix))
  {
    hide NatIn, RoundBits, RoundShift, Precision, Cut, ReadsIn, IsExponent, RadixBits, Holds, AreDigits;
    CutOf(n, digitCount, w);
    el := CutReads(NatIn(n.digits, n.radix), (|n.digits| - digitCount) * RadixBits(n.radix), w, expn);
  }

  lemma {:induction false} CutOf(n: Parsed, digitCount: nat, w: nat)
    requires WellRead(n) && RadixBits(n.radix) > 0 && Holds(n, digitCount, w)
    ensures digitCount <= |n.digits| && w > 0
    ensures Cut(NatIn(n.digits, n.radix), (|n.digits| - digitCount) * RadixBits(n.radix), w)
  {
    hide NatIn, Cut, Kept, RadixBits, Sticky, AllZero, Pow;
    KeptCut(n.digits, n.radix);
    KeptParts(n.digits, n.radix);
    NatBound(Kept(n.digits, n.radix), n.radix);
    StickyAtLeast(NatIn(Kept(n.digits, n.radix), n.radix), !AllZero(n.digits[digitCount..]));
  }

  lemma {:induction false} CutReads(all: nat, t: nat, w: nat, expn: int) returns (el: int)
    requires w > 0 && Cut(all, t, w)
    ensures IsExponent(w, -expn, el)
    ensures ReadsIn(RoundBits(RoundShift(w, el - expn - Precision(el), Nearest), el), all, 2, expn - t)
  {
    hide Pow, RoundBits, RoundShift, Precision, Cut, Num, Den, NearestTo;
    var k := Log2(w);
    HasExponent(w, -expn, k);
    el := k + 1 + expn;
    CutNearest(all, t, w, expn, el);
  }

  /** A power of two: the dropped digits show in the last bit, and the bignum only has to be rounded. */
  method AssembleBinary(tmp: Mpb, radixBits: nat, digitCount: nat, expn0: int, expnOffset: int, binary: bool, ghost n: Parsed)
    returns (a: nat)
    requires tmp.Valid() && tmp.Normalized() && tmp.tab.Length == CAPACITY
    requires WellRead(n) && radixBits == RadixBits(n.radix) > 0 && Holds(n, digitCount, tmp.Value())
    requires expn0 == n.exp && expnOffset == n.sigPos + digitCount - n.dotPos && binary == n.binary
    modifies tmp, tmp.tab
    ensures ReadsIn(a, Mant(n), Base(n.radix), Place(n) - Length(n))
  {
    hide Pow, ReadsIn, BitsOf, Val, Holds, FirstPlace, LastPlace, LeastPlace, Mant, Place, Wrap, RoundBits, RoundShift, IsExponent,
         Precision, RadixBits, Length, Base;
    var expn := expn0;
    if !binary {
      expn := Wrap(expn * radixBits);
    }
    expn := Wrap(expn - Wrap(expnOffset * radixBits));
    var expn1 := Wrap(expn + digitCount * radixBits);
    BinaryPlaces(n, digitCount, radixBits, expnOffset, tmp.Value());
    FewBits(n, digitCount, radixBits, tmp.Value());
    if expn1 >= 1024 + radixBits {
      GuardLong(n);
      a := INF;
    } else if expn1 <= -1075 {
      GuardSmall(n);
      a := 0;
    } else {
      SmallBits(n.radix);
      ghost var el := CutRounds(n, digitCount, tmp.Value(), expn);
      var m, e := RoundToD(tmp, -expn, Nearest, el);
      a := AssembleBits(m, e);
    }
  }

  lemma SmallBits(radix: nat)
    ensures RadixBits(radix) <= 5
  {
  }

  /** The bignum has room for the conversion in every other radix. */
  lemma {:induction false} RoomToConvert(radix: nat, v: nat, len: nat, f: int, k: nat)
    requires ValidRadix(radix) && RadixBits(radix) == 0 && v < Pow(radix, k) && 1 <= k <= MaxDigits(radix) && len <= 6
    requires MinExponent(radix) < f + k <= MaxExponent(radix)
    ensures OddRadix(Odd(radix)) && Shift(radix) <= 5
    ensures ScalingRoom(v, len, Odd(radix), Shift(radix), f, CAPACITY) && Abs(f) < B
  {
    hide Pow, MaxDigits, MaxExponent, MinExponent, Odd, Shift, RadixBits;
    OddAndShift(radix);
    RangeEntries(radix);
    RoomFacts(radix);
    if f >= 0 {
      RoomUp(radix, v, f, k);
    } else {
      LimbsFew(-f, DigitsPerLimb(Odd(radix)));
    }
  }

  lemma RoomFacts(radix: nat)
    requires ValidRadix(radix) && RadixBits(radix) == 0
    ensures ValidRadix(Odd(radix)) && Odd(radix) <= radix
    ensures MaxDigits(radix) - MinExponent(radix) - 1 <= 44 * DigitsPerLimb(Odd(radix)) && DigitsPerLimb(Odd(radix)) >= 1
    ensures LogAbove(radix) * MaxExponent(radix) <= 32 * 52 && MaxDigits(radix) < 160
  {
    hide MaxDigits, MaxExponent, MinExponent, RadixBits, LogAbove, DigitsPerLimb;
    OddAndShift(radix);
    RoomEntries(radix);
    EntryFacts(radix);
    EntryFacts(Odd(radix));
  }

  lemma LimbsFew(f: nat, d: nat)
    requires d >= 1 && f <= 44 * d
    ensures (f + d - 1) / d <= 44
  {
    DivMod(f + d - 1, d);
    var q := (f + d - 1) / d;
    if q >= 45 { MulMono(45, q, d); }
  }

  lemma {:induction false} RoomUp(radix: nat, v: nat, f: nat, k: nat)
    requires ValidRadix(radix) && v < Pow(radix, k) && f + k <= MaxExponent(radix) && 0 < Odd(radix) <= radix
    requires LogAbove(radix) * MaxExponent(radix) <= 32 * 52
    ensures v * Pow(Odd(radix), f) < Pow(B, 52)
  {
    hide Pow, MaxExponent, Odd, LogAbove;
    PowBase(Odd(radix), radix, f);
    MulStrict(v, Pow(radix, k), Pow(Odd(radix), f));
    MulMono(Pow(Odd(radix), f), Pow(radix, f), Pow(radix, k));
    PowAdd(radix, k, f);
    var e: nat := MaxExponent(radix);
    PowMono(radix, k + f, e);
    BelowLog(radix);
    PowBase(radix, Pow(2, LogAbove(radix)), e);
    PowPower(2, LogAbove(radix), e);
    PowMono(2, LogAbove(radix) * e, 32 * 52);
    PowPower(2, 32, 52);
    TwoTo32();
  }

  lemma {:induction false} PlainPlaces(n: Parsed, digitCount: nat, expnOffset: int, w: nat)
    requires WellRead(n) && RadixBits(n.radix) == 0 && Holds(n, digitCount, w)
    requires expnOffset == n.sigPos + digitCount - n.dotPos
    ensures var e := Wrap(n.exp - expnOffset);
            && Wrap(e + digitCount) == Place(n)
            && (-3000 < Place(n) < 3000 ==> e == Place(n) - Length(n) == Place(n) - digitCount)
    ensures LastPlace(n.radix) == MaxExponent(n.radix) && LeastPlace(n.radix) == MinExponent(n.radix)
    ensures Mant(n) == w && Base(n.radix) == n.radix && 1 <= digitCount <= MaxDigits(n.radix) && 0 < w < Pow(n.radix, digitCount)
  {
    hide Wrap, Kept, NatIn, Pow, RadixBits, MaxDigits, MaxExponent, MinExponent;
    PlainPlace(n);
    WrapSum(n.exp - expnOffset, digitCount);
    FewDigits(n, digitCount, w);
    if -3000 < Place(n) < 3000 { WrapNear(FirstPlace(n), digitCount); }
    KeptParts(n.digits, n.radix);
    NatBound(Kept(n.digits, n.radix), n.radix);
  }

  lemma {:induction false} FewDigits(n: Parsed, digitCount: nat, w: nat)
    requires WellRead(n) && Holds(n, digitCount, w)
    ensures 1 <= digitCount <= MaxDigits(n.radix) && digitCount < 160
  {
    hide NatIn, Sticky, MaxDigits, DigitsPerLimb;
    SomeDigits(n.radix);
    EntryFacts(n.radix);
  }

  /** The other radices: the bignum is scaled by a power of the radix. */
  method AssemblePlain(tmp: Mpb, radix: nat, digitCount: nat, expn0: int, expnOffset: int, ghost n: Parsed) returns (a: nat)
    requires tmp.Valid() && tmp.Normalized() && tmp.len <= 6 && tmp.tab.Length == CAPACITY
    requires WellRead(n) && radix == n.radix && RadixBits(radix) == 0 && Holds(n, digitCount, tmp.Value())
    requires expn0 == n.exp && expnOffset == n.sigPos + digitCount - n.dotPos
    modifies tmp, tmp.tab
    ensures ReadsIn(a, Mant(n), Base(radix), Place(n) - Length(n))
  {
    hide Pow, ReadsIn, BitsOf, Val, Holds, FirstPlace, LastPlace, LeastPlace, Mant, Place, Wrap, RadixBits, Length, Base,
         MaxDigits, MaxExponent, MinExponent, ScalingRoom, Odd, Shift;
    var expn := Wrap(expn0 - expnOffset);
    var expn1 := Wrap(expn + digitCount);
    PlainPlaces(n, digitCount, expnOffset, tmp.Value());
    PlaceBounds(radix);
    if expn1 >= MaxExponent(radix) + 1 {
      GuardLong(n);
      a := INF;
    } else if expn1 <= MinExponent(radix) {
      GuardSmall(n);
      a := 0;
    } else {
      a := Convert(tmp, radix, expn, digitCount);
    }
  }

  method Convert(tmp: Mpb, radix: nat, f: int, ghost k: nat) returns (a: nat)
    requires tmp.Valid() && tmp.Normalized() && tmp.len <= 6 && tmp.tab.Length == CAPACITY
    requires ValidRadix(radix) && RadixBits(radix) == 0 && 1 <= k <= MaxDigits(radix) && 0 < tmp.Value() < Pow(radix, k)
    requires MinExponent(radix) < f + k <= MaxExponent(radix)
    modifies tmp, tmp.tab
    ensures ReadsIn(a, old(tmp.Value()), radix, f)
  {
    hide Pow, Num, Den, NearestTo, BitsOf, ScalingRoom, Radix, Val, RadixBits, MaxDigits, MaxExponent, MinExponent, Odd, Shift;
    var radixShift, radix1 := Shift(radix), Odd(radix);
    OddAndShift(radix);
    RoomToConvert(radix, tmp.Value(), tmp.len, f, k);
    var m, e := MulPowRoundToD(tmp, radix1, radixShift, f);
    a := AssembleBits(m, e);
  }

  /** A binary64 number: its sign and the bits of its magnitude, or NaN. */
  datatype Double = Nan | Bits(neg: bool, b: nat)

  /** The answer for what has been read: the number, and where it ends. */
  ghost predicate IsAnswer(n: Parsed, r: Double, next: nat) {
    match n
    case NotANumber(p) => r == Nan && next == p
    case Infinite(neg, p) => r == Bits(neg, INF) && next == p
    case Number(radix, neg, _, _, _, _, _, p) => r.Bits? && r.neg == neg && next == p && ValidRadix(radix) && Answers(n, r.b)
  }

  /** js_atod, on strings no longer than those of the interpreter (JS_STRING_LEN_MAX), whose places an int can count. */
  method JsAtod(s: string, o: Options) returns (r: Double, next: nat)
    requires |s| < 0x4000_0000 && (o.radix == 0 || ValidRadix(o.radix))
    ensures IsAnswer(Parse(s, o), r, next)
  {
    hide ReadDigits, SkipZeros, ReadExponent, ReadsIn, Pow, NatIn, Val, ExponentRead, StartsInfinity, At, SkipSign, Answers, Kept,
         Prefix, ParseDigits, AllZero, RadixBits;
    ParsedWell(s, o);
    ghost var n := Parse(s, o);
    var tmp := new Mpb(CAPACITY);
    var start := SkipSign(s);
    var isNeg := At(s, 0) == '-';
    if At(s, start) != '0' && !o.intOnly && StartsInfinity(s, start) {
      return Bits(isNeg, INF), start + 8;
    }
    var fail, p, o' := ParsePrefix(s, o, start);
    PrefixWell(s, o, start);
    if fail {
      return Nan, p;
    }
    assert n == ParseDigits(s, o', start, p, isNeg);
    ghost var p0 := p;
    var pos, dotPos, digitCount, extra;
    p, pos, dotPos := SkipZerosLoop(s, o', start, p);
    var sigPos := pos;
    ghost var z := Scan(p, pos, dotPos);
    ghost var rd := ReadDigits(s, o', start, z);
    p, pos, dotPos, digitCount, extra := ReadDigitsLoop(s, o', start, p, pos, dotPos, tmp);
    if dotPos < 0 {
      dotPos := pos;
    }
    var radixBits := RadixBits(o'.radix);
    tmp.SetSticky(radixBits != 0 && extra);
    var expn, overflow, negative, binary;
    fail, p, expn, overflow, negative, binary := ParseExponent(s, o', start, p);
    ScansAre(s, o', start, p0, isNeg, z, rd.0, rd.1, fail, p, expn, overflow, negative, binary);
    if fail || p == start {
      return Nan, p;
    }
    StickyOnly(rd.1, o'.radix, digitCount, extra);
    r := Evaluate(tmp, isNeg, o'.radix, sigPos, dotPos, digitCount, expn, overflow, negative, binary, n);
    next := p;
  }

  lemma PrefixWell(s: string, o: Options, p: nat)
    requires o.radix == 0 || ValidRadix(o.radix)
    ensures ValidRadix(Prefix(s, o, p).o.radix)
  {
    hide Prefix;
    assert ValidRadix(Prefix(s, o, p).o.radix);
  }

  /** What the sticky bit makes of the bignum. */
  lemma {:induction false} StickyOnly(ds: seq<nat>, radix: nat, digitCount: nat, extra: bool)
    requires ValidRadix(radix) && digitCount == |Kept(ds, radix)| <= |ds| && (extra <==> !AllZero(ds[digitCount..]))
    ensures Sticky(NatIn(Kept(ds, radix), radix), RadixBits(radix) != 0 && extra)
         == if RadixBits(radix) > 0 then Sticky(NatIn(Kept(ds, radix), radix), !AllZero(ds[digitCount..]))
            else NatIn(Kept(ds, radix), radix)
  {
  }

  /** The end of js_atod, once everything has been read. */
  method Evaluate(tmp: Mpb, isNeg: bool, radix: nat, sigPos: nat, dotPos: int, digitCount: nat, expn: int, overflow: bool,
                  negative: bool, binary: bool, ghost n: Parsed) returns (r: Double)
    requires tmp.Valid() && tmp.Normalized() && tmp.len <= 6 && tmp.tab.Length == CAPACITY
    requires n.Number? && n.neg == isNeg && n.radix == radix && n.sigPos == sigPos && n.dotPos == dotPos && n.binary == binary
    requires ValidRadix(radix) && AreDigits(n.digits, radix) && (n.digits != [] ==> n.digits[0] > 0)
    requires Holds(n, digitCount, tmp.Value())
    requires overflow ==> if negative then n.exp <= -HUGE else n.exp >= HUGE
    requires !overflow ==> n.exp == expn && -HUGE < expn < HUGE
    modifies tmp, tmp.tab
    ensures r.Bits? && r.neg == isNeg && Answers(n, r.b)
  {
    hide ReadsIn, Pow, NatIn, Val, Answers, Kept, Place, Holds, RadixBits, Base, Length, Mant;
    KeptCount(n, digitCount, tmp.Value());
    if digitCount == 0 {
      r := Bits(isNeg, 0);
      AnswersZero(n);
    } else if overflow {
      r := Bits(isNeg, if negative then 0 else INF);
      AnswersHuge(n, r.b);
    } else {
      var a;
      if RadixBits(radix) != 0 {
        a := AssembleBinary(tmp, RadixBits(radix), digitCount, expn, sigPos + digitCount - dotPos, binary, n);
      } else {
        a := AssemblePlain(tmp, radix, digitCount, expn, sigPos + digitCount - dotPos, n);
      }
      r := Bits(isNeg, a);
      AnswersFinite(n, a);
    }
  }

  lemma {:induction false} KeptCount(n: Parsed, digitCount: nat, w: nat)
    requires n.Number? && ValidRadix(n.radix) && AreDigits(n.digits, n.radix) && (n.digits != [] ==> n.digits[0] > 0)
    requires Holds(n, digitCount, w)
    ensures digitCount == 0 <==> n.digits == []
  {
    hide NatIn, Sticky, MaxDigits;
    SomeDigits(n.radix);
  }

  lemma AnswersZero(n: Parsed)
    requires n.Number? && ValidRadix(n.radix) && n.digits == []
    ensures Answers(n, 0)
  {
  }

  lemma AnswersHuge(n: Parsed, b: nat)
    requires n.Number? && ValidRadix(n.radix) && n.digits != [] && ((n.exp >= HUGE && b == INF) || (n.exp <= -HUGE && b == 0))
    ensures Answers(n, b)
  {
  }

  lemma AnswersFinite(n: Parsed, b: nat)
    requires n.Number? && ValidRadix(n.radix) && n.digits != [] && -HUGE < n.exp < HUGE
    requires ReadsIn(b, Mant(n), Base(n.radix), Place(n) - Length(n))
    ensures Answers(n, b)
  {
  }
}
