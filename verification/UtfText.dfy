/** Whole strings in UTF-8 and in UTF-16 units, and the buffer conversions between them. */
module UtfText {
  import opened ReInput
  import opened UtfCode

  // ----- UTF-8 bytes to units -----

  /** The code points that the decoder reads from the bytes. */
  function Points(s: seq<U8>): seq<CodePoint> {
    if s == [] then [] else [DecodeLen(s).c] + Points(s[DecodeLen(s).read..])
  }

  function UnitsOf(c: CodePoint): (u: seq<U16>)
    ensures |u| == if c > 0xFFFF then 2 else 1
  {
    if c > 0xFFFF then [HiSurrogate(c), LoSurrogate(c)] else [c]
  }

  function HiSurrogate(c: CodePoint): U16
    requires c > 0xFFFF
  {
    c / 1024 - 0x1_0000 / 1024 + 0xD800
  }

  function LoSurrogate(c: CodePoint): U16 { c % 1024 + 0xDC00 }

  function AllUnits(ps: seq<CodePoint>): seq<U16> {
    if ps == [] then [] else UnitsOf(ps[0]) + AllUnits(ps[1..])
  }

  /** The units of a string of bytes. */
  function Units(s: seq<U8>): seq<U16> { AllUnits(Points(s)) }

  // ----- units to UTF-8 bytes -----

  predicate PairAt(u: seq<U16>, i: nat) {
    i + 1 < |u| && IsHiSurrogate(u[i]) && IsLoSurrogate(u[i + 1])
  }

  /** The code points of a string of units; a surrogate that is not part of a pair is one by itself. */
  function PointsOfUnits(u: seq<U16>): seq<CodePoint> {
    if u == [] then []
    else if PairAt(u, 0) then [FromSurrogate(u[0], u[1])] + PointsOfUnits(u[2..])
    else [u[0]] + PointsOfUnits(u[1..])
  }

  function EncodeAll(ps: seq<CodePoint>): seq<U8> {
    if ps == [] then [] else Encode(ps[0]) + EncodeAll(ps[1..])
  }

  /** The bytes of a string of units. */
  function Bytes(u: seq<U16>): seq<U8> { EncodeAll(PointsOfUnits(u)) }

  // ----- round trips -----

  /** Decoding encoded code points gives them back. */
  lemma {:induction false} PointsEncodeAll(ps: seq<CodePoint>)
    ensures Points(EncodeAll(ps)) == ps
  {
    hide DecodeLen, Encode;
    if ps != [] {
      var rest := EncodeAll(ps[1..]);
      DecodeEncode(ps[0], rest);
      assert (Encode(ps[0]) + rest)[EncodeLen(ps[0])..] == rest;
      PointsEncodeAll(ps[1..]);
    }
  }

  /** UTF-16 of a code point (section 2.1 of RFC 2781): itself, or twenty bits in two surrogates. */
  lemma UnitsAre(c: CodePoint)
    ensures c < 0x1_0000 ==> UnitsOf(c) == [c]
    ensures c >= 0x1_0000 ==>
              var u: seq<int> := UnitsOf(c);
              && |u| == 2 && 0xD800 <= u[0] < 0xDC00 && 0xDC00 <= u[1] < 0xE000
              && c == 0x1_0000 + (u[0] - 0xD800) * 0x400 + (u[1] - 0xDC00)
  {
  }

  lemma Surrogates(hi: U16, lo: U16)
    requires IsHiSurrogate(hi) && IsLoSurrogate(lo)
    ensures var c := FromSurrogate(hi, lo); 0x1_0000 <= c < 0x11_0000 && HiSurrogate(c) == hi && LoSurrogate(c) == lo
  {
  }

  /** Splitting units into code points and back changes nothing, whatever the surrogates. */
  lemma {:induction false} UnitsOfPoints(u: seq<U16>)
    ensures AllUnits(PointsOfUnits(u)) == u
  {
    if u != [] {
      if PairAt(u, 0) {
        Surrogates(u[0], u[1]);
        UnitsOfPoints(u[2..]);
        var c := FromSurrogate(u[0], u[1]);
        assert ([c] + PointsOfUnits(u[2..]))[1..] == PointsOfUnits(u[2..]);
        assert u == [u[0], u[1]] + u[2..];
      } else {
        UnitsOfPoints(u[1..]);
        assert ([u[0]] + PointsOfUnits(u[1..]))[1..] == PointsOfUnits(u[1..]);
        assert u == [u[0]] + u[1..];
      }
    }
  }

  /** Encoding a 16-bit string and decoding it again is the identity, lone surrogates included. */
  lemma RoundTrip(u: seq<U16>)
    ensures Units(Bytes(u)) == u
  {
    PointsEncodeAll(PointsOfUnits(u));
    UnitsOfPoints(u);
  }

  /** How many bytes were not part of an encoded code point. */
  function Errors(s: seq<U8>): nat {
    if s == [] then 0
    else (if BeginsWith(s, DecodeLen(s).c) then 0 else 1) + Errors(s[DecodeLen(s).read..])
  }

  /** Each error stands for one byte and is encoded as three. */
  lemma {:induction false} ErrorsCounted(s: seq<U8>)
    ensures |EncodeAll(Points(s))| == |s| + 2 * Errors(s)
    ensures Errors(s) == 0 ==> EncodeAll(Points(s)) == s
  {
    hide DecodeLen, Encode;
    if s != [] {
      var d := DecodeLen(s);
      DecodeExact(s, d.c);
      ErrorsCounted(s[d.read..]);
      assert Points(s)[1..] == Points(s[d.read..]);
      if BeginsWith(s, d.c) {
        assert s == s[..d.read] + s[d.read..];
      }
    }
  }

  /** A byte string is free of errors exactly when it is the encoding of what it decodes to. */
  lemma WellFormed(s: seq<U8>)
    ensures Errors(s) == 0 <==> EncodeAll(Points(s)) == s
  {
    ErrorsCounted(s);
  }
}
