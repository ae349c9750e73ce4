/** Code points, their UTF-8 encoding and their UTF-16 units. */
module UtfCode {
  import opened ReInput

  type U8 = x: int | 0 <= x < 0x100
  type U16 = x: int | 0 <= x < 0x1_0000
  type CodePoint = x: int | 0 <= x < 0x11_0000

  const REPLACEMENT: CodePoint := 0xFFFD

  /** utf8_encode_len */
  function EncodeLen(c: nat): nat {
    if c < 0x80 then 1 else if c < 0x800 then 2 else if c < 0x1_0000 then 3 else if c < 0x11_0000 then 4 else 3
  }

  function Trail(x: int): U8 { x % 64 + 0x80 }

  /** utf8_encode; what is not a code point is encoded as U+FFFD. */
  function Encode(c: nat): (s: seq<U8>)
    ensures |s| == EncodeLen(c)
  {
    if c < 0x80 then [c]
    else if c < 0x800 then [c / 64 + 0xC0, Trail(c)]
    else if c < 0x1_0000 then [c / 4096 + 0xE0, Trail(c / 64), Trail(c)]
    else if c < 0x11_0000 then [c / 262144 + 0xF0, Trail(c / 4096), Trail(c / 64), Trail(c)]
    else [0xEF, 0xBF, 0xBD]
  }

  /** The byte sequences of section 3 of RFC 3629: leading bits by length, six bits in every further byte, and no longer than
      needed. */
  predicate IsUtf8(s: seq<int>, c: int) {
    if |s| == 1 then s[0] < 0x80 && c == s[0]
    else if |s| == 2 then
      && 0xC0 <= s[0] < 0xE0 && 0x80 <= s[1] < 0xC0
      && c == (s[0] - 0xC0) * 0x40 + (s[1] - 0x80) && c >= 0x80
    else if |s| == 3 then
      && 0xE0 <= s[0] < 0xF0 && 0x80 <= s[1] < 0xC0 && 0x80 <= s[2] < 0xC0
      && c == (s[0] - 0xE0) * 0x1000 + (s[1] - 0x80) * 0x40 + (s[2] - 0x80) && c >= 0x800
    else
      && |s| == 4 && 0xF0 <= s[0] < 0xF8 && 0x80 <= s[1] < 0xC0 && 0x80 <= s[2] < 0xC0 && 0x80 <= s[3] < 0xC0
      && c == (s[0] - 0xF0) * 0x4_0000 + (s[1] - 0x80) * 0x1000 + (s[2] - 0x80) * 0x40 + (s[3] - 0x80) && c >= 0x1_0000
  }

  /** The encoder gives the one such sequence of a code point, and that of U+FFFD for anything larger. */
  lemma EncodeIs(c: nat, s: seq<U8>)
    ensures c < 0x11_0000 ==> (s == Encode(c) <==> IsUtf8(s, c))
    ensures c >= 0x11_0000 ==> Encode(c) == Encode(REPLACEMENT)
  {
    if c < 0x11_0000 {
      EncodedIs(c);
      if IsUtf8(s, c) { OnlyOne(c, s); }
    }
  }

  lemma EncodedIs(c: CodePoint)
    ensures IsUtf8(Encode(c), c)
  {
    Digits(c);
  }

  lemma OnlyOne(c: CodePoint, s: seq<U8>)
    requires IsUtf8(s, c)
    ensures s == Encode(c)
  {
    hide Encode;
    assert s == s[..|s|];
    if |s| == 1 {
      FromOne(s[0]);
    } else if |s| == 2 {
      FromTwo(s[0], s[1], c);
    } else if |s| == 3 {
      FromThree(s[0], s[1], s[2], c);
    } else {
      FromFour(s[0], s[1], s[2], s[3], c);
    }
  }

  lemma FromOne(b: U8)
    requires b < 0x80
    ensures Encode(b) == [b]
  {
  }

  lemma FromTwo(b: U8, x: U8, c: CodePoint)
    requires IsUtf8([b, x], c)
    ensures Encode(c) == [b, x]
  {
    Shifted(0, 0, b as int - 0xC0, x as int - 0x80, c);
  }

  lemma FromThree(b: U8, x: U8, y: U8, c: CodePoint)
    requires IsUtf8([b, x, y], c)
    ensures Encode(c) == [b, x, y]
  {
    Shifted(0, b as int - 0xE0, x as int - 0x80, y as int - 0x80, c);
  }

  lemma FromFour(b: U8, x: U8, y: U8, z: U8, c: CodePoint)
    requires IsUtf8([b, x, y, z], c)
    ensures Encode(c) == [b, x, y, z]
  {
    Shifted(b as int - 0xF0, x as int - 0x80, y as int - 0x80, z as int - 0x80, c);
  }

  predicate IsTrail(b: U8) { 0x80 <= b <= 0xBF }

  /** How many bytes utf8_decode may look at, from the first byte. */
  function NeededBytes(b: U8): nat {
    if b < 0xC2 then 1 else if b < 0xE0 then 2 else if b < 0xF0 then 3 else if b < 0xF5 then 4 else 1
  }

  /** The smallest second byte that does not make the encoding too long. */
  function LowestTrail(b: U8): U8 { if b == 0xE0 then 0xA0 else if b == 0xF0 then 0x90 else 0x80 }

  /** The largest second byte that stays below 0x110000. */
  function HighestTrail(b: U8): U8 { if b == 0xF4 then 0x8F else 0xBF }

  /** A code point, or none for an error, and the number of bytes read. */
  datatype Decoded = Decoded(c: CodePoint, read: nat)

  function Join2(b: int, x: int): int { (b - 0xC0) * 64 + (x - 0x80) }

  function Join3(b: int, x: int, y: int): int { (b - 0xE0) * 4096 + (x - 0x80) * 64 + (y - 0x80) }

  function Join4(b: int, x: int, y: int, z: int): int {
    (b - 0xF0) * 262144 + (x - 0x80) * 4096 + (y - 0x80) * 64 + (z - 0x80)
  }

  /** utf8_decode */
  function Decode(p: seq<U8>): (d: Decoded)
    requires p != [] && NeededBytes(p[0]) <= |p|
    ensures 1 <= d.read <= |p|
  {
    var b := p[0];
    if b < 0x80 then Decoded(b, 1)
    else if 0xC2 <= b < 0xE0 && IsTrail(p[1]) then Decoded(Join2(b, p[1]), 2)
    else if 0xE0 <= b < 0xF0 && LowestTrail(b) <= p[1] <= 0xBF && IsTrail(p[2]) then
      Decoded(Join3(b, p[1], p[2]), 3)
    else if 0xF0 <= b < 0xF5 && LowestTrail(b) <= p[1] <= HighestTrail(b) && IsTrail(p[2]) && IsTrail(p[3]) then
      Decoded(Join4(b, p[1], p[2], p[3]), 4)
    else Decoded(REPLACEMENT, 1)
  }

  /** utf8_decode_len: `p` holds all the bytes there are. */
  function DecodeLen(p: seq<U8>): (d: Decoded)
    ensures d.read <= |p| && (p != [] ==> 1 <= d.read)
  {
    if p == [] then Decoded(REPLACEMENT, 0)
    else if (|p| == 1 && p[0] < 0x80) || (|p| == 2 && p[0] < 0xE0) || (|p| == 3 && p[0] < 0xF0) || |p| > 3 then Decode(p)
    else Decoded(REPLACEMENT, 1)
  }

  lemma Digits(c: nat)
    ensures c == (c / 64) * 64 + c % 64
    ensures c / 64 == (c / 4096) * 64 + (c / 64) % 64
    ensures c / 4096 == (c / 262144) * 64 + (c / 4096) % 64
  {
    assert c / 4096 == c / 64 / 64;
    assert c / 262144 == c / 4096 / 64;
  }

  /** Decoding an encoded code point gives it back, whatever follows it. */
  lemma DecodeEncode(c: CodePoint, rest: seq<U8>)
    ensures DecodeLen(Encode(c) + rest) == Decoded(c, EncodeLen(c))
  {
    Digits(c);
    var p := Encode(c) + rest;
    assert p[0] == Encode(c)[0];
    if c >= 0x80 {
      assert p[1] == Encode(c)[1];
    }
    if c >= 0x800 {
      assert p[2] == Encode(c)[2];
    }
    if c >= 0x1_0000 {
      assert p[3] == Encode(c)[3];
    }
  }

  predicate BeginsWith(p: seq<U8>, c: CodePoint) {
    EncodeLen(c) <= |p| && p[..EncodeLen(c)] == Encode(c)
  }

  /** The decoder takes the encoding of a code point when there is one, and one byte when there is none. */
  lemma DecodeExact(p: seq<U8>, c: CodePoint)
    requires p != []
    ensures BeginsWith(p, c) ==> DecodeLen(p) == Decoded(c, EncodeLen(c))
    ensures BeginsWith(p, DecodeLen(p).c) || DecodeLen(p) == Decoded(REPLACEMENT, 1)
  {
    if BeginsWith(p, c) {
      DecodeEncode(c, p[EncodeLen(c)..]);
      assert p == Encode(c) + p[EncodeLen(c)..];
    }
    hide DecodeLen, Encode;
    DecodedPrefix(p);
  }

  lemma DecodedPrefix(p: seq<U8>)
    requires p != []
    ensures BeginsWith(p, DecodeLen(p).c) || DecodeLen(p) == Decoded(REPLACEMENT, 1)
  {
    var d := DecodeLen(p);
    if d.read == 2 {
      Encoded2(p[0], p[1]);
      assert p[..2] == [p[0], p[1]];
    } else if d.read == 3 {
      Encoded3(p[0], p[1], p[2]);
      assert p[..3] == [p[0], p[1], p[2]];
    } else if d.read == 4 {
      Encoded4(p[0], p[1], p[2], p[3]);
      assert p[..4] == [p[0], p[1], p[2], p[3]];
    }
  }

  lemma Encoded2(b: U8, x: U8)
    requires 0xC2 <= b < 0xE0 && IsTrail(x)
    ensures Encode(Join2(b, x)) == [b, x]
  {
  }

  lemma Encoded3(b: U8, x: U8, y: U8)
    requires 0xE0 <= b < 0xF0 && LowestTrail(b) <= x <= 0xBF && IsTrail(y)
    ensures Encode(Join3(b, x, y)) == [b, x, y]
  {
    var c := Join3(b, x, y);
    assert c / 64 == (b - 0xE0 as int) * 64 + (x - 0x80 as int);
    assert c / 4096 == b - 0xE0;
  }

  lemma Encoded4(b: U8, x: U8, y: U8, z: U8)
    requires 0xF0 <= b < 0xF5 && LowestTrail(b) <= x <= HighestTrail(b) && IsTrail(y) && IsTrail(z)
    ensures Encode(Join4(b, x, y, z)) == [b, x, y, z]
  {
    Shifted(b - 0xF0, x as int - 0x80, y as int - 0x80, z as int - 0x80, Join4(b, x, y, z));
  }

  lemma Shifted(h: int, x: int, y: int, z: int, c: int)
    requires 0 <= x < 64 && 0 <= y < 64 && 0 <= z < 64 && c == h * 262144 + x * 4096 + y * 64 + z
    ensures c / 262144 == h && c / 4096 == h * 64 + x && c / 64 == h * 4096 + x * 64 + y && c % 64 == z
  {
  }
}
