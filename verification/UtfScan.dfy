/** Scanning a UTF-8 string ahead of its conversion, and the 8-bit conversions. */
module UtfScan {
  import opened ReInput
  import opened UtfCode
  import opened UtfText
  import opened UtfBuf

  /** The bits of the scan's result. */
  datatype Kind = Kind(nonAscii: bool, has16Bit: bool, hasNonBmp1: bool, hasErrors: bool)

  const PlainAscii := Kind(false, false, false, false)

  predicate AnyAbove(ps: seq<int>, x: int) {
    exists k :: 0 <= k < |ps| && ps[k] > x
  }

  lemma AnyStep(c: int, rest: seq<int>, x: int)
    ensures AnyAbove([c] + rest, x) <==> c > x || AnyAbove(rest, x)
  {
    var all := [c] + rest;
    if AnyAbove(rest, x) {
      var k :| 0 <= k < |rest| && rest[k] > x;
      assert all[k + 1] > x;
    }
    if c > x {
      assert all[0] > x;
    }
    if AnyAbove(all, x) {
      var k :| 0 <= k < |all| && all[k] > x;
      assert k > 0 ==> rest[k - 1] > x;
    }
  }

  /** A unit above 0xFF means a code point above 0xFF. */
  lemma {:induction false} UnitsAbove(ps: seq<CodePoint>)
    ensures AnyAbove(AllUnits(ps), 0xFF) <==> AnyAbove(ps, 0xFF)
  {
    hide AnyAbove;
    if ps == [] {
      assert !AnyAbove([], 0xFF) by { NoneAbove(0xFF); }
    } else {
      UnitsAbove(ps[1..]);
      assert ps == [ps[0]] + ps[1..];
      AnyStep(ps[0], ps[1..], 0xFF);
      var rest := AllUnits(ps[1..]);
      if ps[0] > 0xFFFF {
        var hi, lo := HiSurrogate(ps[0]), LoSurrogate(ps[0]);
        assert [hi, lo] + rest == [hi] + ([lo] + rest);
        AnyStep(hi, [lo] + rest, 0xFF);
      } else {
        AnyStep(ps[0], rest, 0xFF);
      }
    }
  }

  lemma NoneAbove(x: int)
    ensures !AnyAbove([], x)
  {
  }

  /** Bytes below 0x80 are a unit each. */
  lemma {:induction false} AsciiMeans(s: seq<U8>)
    requires forall k :: 0 <= k < |s| ==> s[k] < 0x80
    ensures Points(s) == s && |Units(s)| == |s| && Errors(s) == 0
  {
    hide DecodeLen;
    if s != [] {
      OneByte(s);
      AsciiMeans(s[1..]);
      UnitsStep(s);
      FirstByte(s);
    }
  }

  lemma FirstByte(s: seq<U8>)
    requires s != [] && s[0] < 0x80
    ensures BeginsWith(s, s[0])
  {
    assert s[..1] == [s[0]];
  }

  lemma PointsStep(s: seq<U8>)
    requires s != []
    ensures Points(s) == [DecodeLen(s).c] + Points(s[DecodeLen(s).read..])
    ensures Errors(s) == (if s[0] >= 0x80 && DecodeLen(s).read == 1 then 1 else 0) + Errors(s[DecodeLen(s).read..])
  {
    ErrorIsOneByte(s);
  }

  lemma ErrorIsOneByte(s: seq<U8>)
    requires s != []
    ensures BeginsWith(s, DecodeLen(s).c) <==> !(s[0] >= 0x80 && DecodeLen(s).read == 1)
  {
    var d := DecodeLen(s);
    DecodedPrefix(s);
    if BeginsWith(s, d.c) {
      DecodeExact(s, d.c);
      assert s[..d.read][0] == Encode(d.c)[0];
    } else if s[0] < 0x80 {
      FirstByte(s);
    }
  }

  /** What the scan reports about a string. */
  ghost predicate Reports(kind: Kind, s: seq<U8>) {
    && (kind.nonAscii <==> AnyAbove(s, 0x7F))
    && (kind.has16Bit <==> AnyAbove(Points(s), 0xFF))
    && (kind.hasNonBmp1 <==> AnyAbove(Points(s), 0xFFFF))
    && (kind.hasErrors <==> Errors(s) > 0)
  }

  /** utf8_scan */
  method Scan(buf: seq<U8>) returns (kind: Kind, len: nat)
    ensures len == |Units(buf)| && Reports(kind, buf)
  {
    kind, len := PlainAscii, |buf|;
    var high := false;
    for i := 0 to |buf|
      invariant high <==> exists k :: 0 <= k < i && buf[k] > 0x7F
    {
      if buf[i] >= 0x80 {
        high := true;
      }
    }
    if high {
      kind, len := ScanUnits(buf);
    } else {
      AsciiMeans(buf);
    }
  }

  /** The second part of the scan, for a string that is not plain ASCII. */
  method ScanUnits(buf: seq<U8>) returns (kind: Kind, len: nat)
    requires AnyAbove(buf, 0x7F)
    ensures len == |Units(buf)| && Reports(kind, buf)
  {
    hide AnyAbove, Units, Points, Errors, DecodeLen, UnitsOf;
    kind, len := PlainAscii.(nonAscii := true), 0;
    var p := 0;
    assert buf[0..] == buf;
    while p < |buf|
      invariant p <= |buf| && kind.nonAscii
      invariant len + |Units(buf[p..])| == |Units(buf)|
      invariant kind.has16Bit || AnyAbove(Points(buf[p..]), 0xFF) <==> AnyAbove(Points(buf), 0xFF)
      invariant kind.hasNonBmp1 || AnyAbove(Points(buf[p..]), 0xFFFF) <==> AnyAbove(Points(buf), 0xFFFF)
      invariant kind.hasErrors || Errors(buf[p..]) > 0 <==> Errors(buf) > 0
      decreases |buf| - p
    {
      ghost var s := buf[p..];
      ghost var d := DecodeLen(s);
      UnitsStep(s);
      PointsStep(s);
      Rest(buf, p, d.read);
      AnyStep(d.c, Points(buf[p + d.read..]), 0xFF);
      AnyStep(d.c, Points(buf[p + d.read..]), 0xFFFF);
      len := len + 1;
      if buf[p] >= 0x80 {
        var got := DecodeLen(buf[p..]);
        if got.read == 1 {
          kind := kind.(hasErrors := true);
        }
        if got.c > 0xFF {
          kind := kind.(has16Bit := true);
          if got.c > 0xFFFF {
            len := len + 1;
            kind := kind.(hasNonBmp1 := true);
          }
        }
        p := p + got.read;
      } else {
        OneByte(s);
        p := p + 1;
      }
    }
    ScanEnds(buf, p);
  }

  lemma ScanEnds(s: seq<U8>, p: nat)
    requires p == |s|
    ensures Units(s[p..]) == [] && Errors(s[p..]) == 0 && Points(s[p..]) == []
    ensures !AnyAbove(Points(s[p..]), 0xFF) && !AnyAbove(Points(s[p..]), 0xFFFF)
  {
  }

  /** The scan's length is the number of units the decoder stores, its error bit whether the bytes are well formed. */
  method ScanThenDecode(buf: seq<U8>) returns (dest: array<U16>, kind: Kind)
    ensures dest[..] == Units(buf) && Reports(kind, buf)
    ensures kind.hasErrors <==> EncodeAll(Points(buf)) != buf
    ensures kind.has16Bit <==> AnyAbove(Units(buf), 0xFF)
  {
    var len;
    kind, len := Scan(buf);
    dest := new U16[len](_ => 0);
    ghost var blank: seq<U16> := dest[..];
    var n := DecodeBuf16(dest, buf);
    AllStored(blank, dest[..], Units(buf));
    WellFormed(buf);
    UnitsAbove(Points(buf));
  }

  // ----- 8-bit strings -----

  /** No character of an 8-bit string is a surrogate: its bytes are the encodings of its characters. */
  lemma {:induction false} Latin1Points(u: seq<U8>)
    ensures PointsOfUnits(u) == u
  {
    if u != [] {
      Latin1Points(u[1..]);
      assert u == [u[0]] + u[1..];
    }
  }

  /** utf8_encode_buf8: as for 16-bit strings. */
  method EncodeBuf8(dest: array<U8>, src: seq<U8>) returns (j: nat, ghost fit: nat)
    modifies dest
    ensures j == |Bytes(src)| && fit == Fitting(src, dest.Length)
    ensures Terminated(old(dest[..]), dest[..], Bytes(src), fit)
  {
    hide Stored, Terminated, EncodeAll, Encode, PointsOfUnits, Fitting;
    Latin1Points(src);
    ghost var was, done: seq<U8> := dest[..], [];
    NothingStored(was);
    var i := 0;
    j := 0;
    assert src[0..] == src && done + EncodeAll(src) == EncodeAll(src);
    while i < |src|
      invariant i <= |src| && j == |done| && (dest.Length > 0 ==> j < dest.Length)
      invariant Stored(was, dest[..], done) && done + EncodeAll(src[i..]) == EncodeAll(src)
      invariant j + Fitting(src[i..], dest.Length - j) == Fitting(src, dest.Length)
    {
      var c := src[i];
      EncodeAllFrom(src, i);
      FittingStep(c, src[i + 1..], dest.Length - j);
      if j + EncodeLen(c) >= dest.Length {
        fit := j;
        Terminate(dest, j, was, done, Bytes(src));
        var rest := CountRest8(src, i);
        j := j + rest;
        return;
      }
      WritePoint(dest, j, c, was, done);
      Grown(done, Encode(c), EncodeAll(src[i + 1..]), EncodeAll(src));
      done := done + Encode(c);
      i := i + 1;
      j := j + EncodeLen(c);
    }
    EncodeAllEnds(src, i);
    FittingStep(0, [], dest.Length - j);
    assert done + [] == done;
    fit := j;
    Terminate(dest, j, was, done, Bytes(src));
  }

  lemma EncodeAllFrom(ps: seq<CodePoint>, i: nat)
    requires i < |ps|
    ensures EncodeAll(ps[i..]) == Encode(ps[i]) + EncodeAll(ps[i + 1..])
    ensures ps[i..] == [ps[i]] + ps[i + 1..]
  {
    assert ps[i..][1..] == ps[i + 1..];
  }

  lemma EncodeAllEnds(ps: seq<CodePoint>, i: nat)
    requires i == |ps|
    ensures EncodeAll(ps[i..]) == [] && ps[i..] == []
  {
  }

  /** After an overflow: the length of what was not written. */
  method CountRest8(src: seq<U8>, i0: nat) returns (length: nat)
    requires i0 <= |src|
    ensures length == |EncodeAll(src[i0..])|
  {
    hide EncodeAll, Encode;
    length := 0;
    var i := i0;
    while i < |src|
      invariant i0 <= i <= |src|
      invariant length + |EncodeAll(src[i..])| == |EncodeAll(src[i0..])|
    {
      EncodeAllFrom(src, i);
      length := length + 1 + if src[i] >= 0x80 then 1 else 0;
      i := i + 1;
    }
    EncodeAllEnds(src, i);
  }

  function Low8(c: CodePoint): U8 { c % 0x100 }

  function AllLow8(ps: seq<CodePoint>): (s: seq<U8>)
    ensures |s| == |ps|
  {
    if ps == [] then [] else [Low8(ps[0])] + AllLow8(ps[1..])
  }

  lemma {:induction false} Latin1Low8(u: seq<U8>)
    ensures AllLow8(u) == u
  {
    if u != [] {
      Latin1Low8(u[1..]);
      assert u == [u[0]] + u[1..];
    }
  }

  /** The decoded characters and the terminator, which takes the place of the last one when the buffer is full. */
  ghost predicate Ended(was: seq<U8>, now: seq<U8>, s: seq<U8>) {
    && |now| == |was|
    && forall k :: 0 <= k < |now| ==>
         now[k] == if k == |s| || (k == |now| - 1 && |now| <= |s|) then 0 else if k < |s| then s[k] else was[k]
  }

  lemma EndStored(was: seq<U8>, now: seq<U8>, s: seq<U8>)
    requires Stored(was, now, s)
    ensures Ended(was, if |s| < |now| then now[|s| := 0] else if |now| > 0 then now[|now| - 1 := 0] else now, s)
  {
  }

  lemma ShortEncode(c: CodePoint)
    requires c < 0x800
    ensures c < 0x80 ==> Encode(c) == [c]
    ensures c >= 0x80 ==> |Encode(c)| == 2 && Encode(c)[0] >= 0xC0
    ensures c >= 0x80 ==> Encode(c)[0] as int * 64 + Encode(c)[1] as int - (0xC0 * 64 + 0x80) == c
  {
  }

  /** The one or two bytes of a code point below 0x800 that starts at `p`. */
  lemma ShortPoint(src: seq<U8>, p: nat, ps: seq<CodePoint>)
    requires p < |src| && src[p..] == EncodeAll(ps) && forall k :: 0 <= k < |ps| ==> ps[k] < 0x800
    ensures ps != [] && p + EncodeLen(ps[0]) <= |src| && src[p + EncodeLen(ps[0])..] == EncodeAll(ps[1..])
    ensures src[p] >= 0xC0 <==> ps[0] >= 0x80
    ensures src[p] < 0xC0 ==> src[p] == ps[0]
    ensures src[p] >= 0xC0 ==> src[p] as int * 64 + src[p + 1] as int - (0xC0 * 64 + 0x80) == ps[0]
  {
    hide Encode;
    var first := Encode(ps[0]);
    ShortEncode(ps[0]);
    assert src[p..] == first + EncodeAll(ps[1..]);
    assert src[p] == src[p..][0] == first[0];
    assert src[p + |first|..] == src[p..][|first|..];
    if ps[0] >= 0x80 {
      assert src[p + 1] == src[p..][1] == first[1];
    }
  }

  lemma NoPoints(ps: seq<CodePoint>)
    ensures |EncodeAll(ps)| == 0 ==> ps == []
  {
  }

  /** utf8_decode_buf8: `src` encodes code points below 0x800, whose low 8 bits are stored. */
  method DecodeBuf8(dest: array<U8>, src: seq<U8>, ghost points: seq<CodePoint>) returns (i: nat)
    requires src == EncodeAll(points) && forall k :: 0 <= k < |points| ==> points[k] < 0x800
    modifies dest
    ensures i == |points| && Ended(old(dest[..]), dest[..], AllLow8(points))
  {
    hide Stored, Ended, EncodeAll, EncodeLen, AllLow8;
    ghost var was, done, left: seq<CodePoint> := dest[..], [], points;
    NothingStored(was);
    var p := 0;
    i := 0;
    assert src[0..] == src && [] + AllLow8(points) == AllLow8(points);
    while p < |src|
      invariant p <= |src| && src[p..] == EncodeAll(left) && forall k :: 0 <= k < |left| ==> left[k] < 0x800
      invariant i == |done| && i + |left| == |points| && done + AllLow8(left) == AllLow8(points)
      invariant Stored(was, dest[..], done)
      decreases |left|
    {
      ShortPoint(src, p, left);
      Low8Step(left);
      LenBelow(left[0]);
      var c := src[p];
      p := p + 1;
      var low: U8 := c;
      if c >= 0xC0 {
        low := (c as int * 64 + src[p] as int - (0xC0 * 64 + 0x80)) % 0x100;
        p := p + 1;
      }
      Put(dest, i, low, was, done);
      Grown(done, [low], AllLow8(left[1..]), AllLow8(points));
      done := done + [low];
      left := left[1..];
      i := i + 1;
    }
    NoPoints(left);
    NoLow8(done, left);
    EndStored(was, dest[..], done);
    ghost var before: seq<U8> := dest[..];
    if i < dest.Length {
      dest[i] := 0;
      assert dest[..] == before[i := 0];
    } else if dest.Length > 0 {
      dest[dest.Length - 1] := 0;
      assert dest[..] == before[dest.Length - 1 := 0];
    }
  }

  lemma Low8Step(ps: seq<CodePoint>)
    requires ps != []
    ensures AllLow8(ps) == [Low8(ps[0])] + AllLow8(ps[1..])
  {
  }

  lemma LenBelow(c: CodePoint)
    requires c < 0x800
    ensures EncodeLen(c) == if c < 0x80 then 1 else 2
  {
  }

  lemma NoLow8(done: seq<U8>, ps: seq<CodePoint>)
    requires ps == []
    ensures done + AllLow8(ps) == done
  {
  }

  /** An 8-bit string comes back from its encoding when both buffers have room for the terminator. */
  method EncodeThenDecode8(src: seq<U8>, room: nat) returns (back: array<U8>, length: nat)
    ensures length == |Bytes(src)|
    ensures length < room ==> back[..] == src + [0]
  {
    hide Stored, Terminated, Ended, Bytes, Fitting, EncodeAll;
    var bytes := new U8[room](_ => 0);
    back := new U8[0];
    ghost var fit;
    ghost var was: seq<U8> := bytes[..];
    length, fit := EncodeBuf8(bytes, src);
    if length < room {
      Latin1Points(src);
      FittingBytes(src, room);
      AllTerminated(was, bytes[..], src, fit);
      BytesOf8(src);
      Latin1Low8(src);
      back := new U8[|src| + 1](_ => 0);
      ghost var blank: seq<U8> := back[..];
      var n := DecodeBuf8(back, bytes[..length], src);
      AllEnded(blank, back[..], src);
    }
  }

  lemma BytesOf8(src: seq<U8>)
    ensures Bytes(src) == EncodeAll(src)
  {
    Latin1Points(src);
  }

  lemma AllEnded(was: seq<U8>, now: seq<U8>, s: seq<U8>)
    requires Ended(was, now, s) && |now| == |s| + 1
    ensures now == s + [0]
  {
  }
}
