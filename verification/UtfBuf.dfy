/** The buffer conversions, which write as much as fits and always report the full length. */
module UtfBuf {
  import opened ReInput
  import opened UtfCode
  import opened UtfText

  /** The first `|s|` entries of the buffer, as many as there are, hold `s`; the rest is as before. */
  ghost predicate Stored<T>(was: seq<T>, now: seq<T>, s: seq<T>) {
    && |now| == |was|
    && forall k :: 0 <= k < |now| ==> now[k] == if k < |s| then s[k] else was[k]
  }

  lemma StoreMore<T>(was: seq<T>, now: seq<T>, s: seq<T>, x: T)
    requires Stored(was, now, s)
    ensures Stored(was, if |s| < |now| then now[|s| := x] else now, s + [x])
  {
  }

  lemma NothingStored<T>(was: seq<T>)
    ensures Stored(was, was, [])
  {
  }

  /** `if (i < dest_len) dest[i] = x` */
  method Put<T>(dest: array<T>, i: nat, x: T, ghost was: seq<T>, ghost s: seq<T>)
    requires Stored(was, dest[..], s) && i == |s|
    modifies dest
    ensures Stored(was, dest[..], s + [x])
  {
    StoreMore(was, dest[..], s, x);
    hide Stored;
    ghost var before := dest[..];
    if i < dest.Length {
      dest[i] := x;
      assert dest[..] == before[i := x];
    }
  }

  // ----- decoding -----

  lemma UnitsStep(s: seq<U8>)
    requires s != []
    ensures Units(s) == UnitsOf(DecodeLen(s).c) + Units(s[DecodeLen(s).read..])
  {
    hide DecodeLen, UnitsOf;
    assert Points(s)[1..] == Points(s[DecodeLen(s).read..]);
  }

  lemma OneByte(s: seq<U8>)
    requires s != [] && s[0] < 0x80
    ensures DecodeLen(s) == Decoded(s[0], 1)
  {
  }

  lemma Rest<T>(s: seq<T>, p: nat, n: nat)
    requires p + n <= |s|
    ensures s[p..][n..] == s[p + n..]
  {
  }

  lemma Grown<T>(done: seq<T>, x: seq<T>, rest: seq<T>, all: seq<T>)
    requires done + (x + rest) == all
    ensures (done + x) + rest == all
  {
  }

  /** utf8_decode_buf16 */
  method DecodeBuf16(dest: array<U16>, src: seq<U8>) returns (i: nat)
    modifies dest
    ensures i == |Units(src)| && Stored(old(dest[..]), dest[..], Units(src))
  {
    hide Stored, Units, DecodeLen, UnitsOf;
    ghost var was, done: seq<U16> := dest[..], [];
    NothingStored(was);
    i := 0;
    var p := 0;
    assert src[0..] == src && done + Units(src) == Units(src);
    while p < |src|
      invariant p <= |src| && i == |done|
      invariant done + Units(src[p..]) == Units(src)
      invariant Stored(was, dest[..], done)
      decreases |src| - p
    {
      var c: CodePoint := src[p];
      var n := 1;
      ghost var d := DecodeLen(src[p..]);
      UnitsStep(src[p..]);
      Rest(src, p, d.read);
      Grown(done, UnitsOf(d.c), Units(src[p + d.read..]), Units(src));
      if c >= 0x80 {
        var got := DecodeLen(src[p..]);
        c, n := got.c, got.read;
      } else {
        OneByte(src[p..]);
      }
      UnitsAre(c);
      if c > 0xFFFF {
        Put(dest, i, HiSurrogate(c), was, done);
        done := done + [HiSurrogate(c)];
        i := i + 1;
        Put(dest, i, LoSurrogate(c), was, done);
        done := done + [LoSurrogate(c)];
      } else {
        Put(dest, i, c, was, done);
        done := done + [c];
      }
      i := i + 1;
      p := p + n;
    }
    NoUnits(src, p);
    assert done + [] == done;
  }

  lemma UnitsAre(c: CodePoint)
    ensures c > 0xFFFF ==> UnitsOf(c) == [HiSurrogate(c)] + [LoSurrogate(c)]
    ensures c <= 0xFFFF ==> UnitsOf(c) == [c]
  {
  }

  lemma NoUnits(s: seq<U8>, p: nat)
    requires p == |s|
    ensures Units(s[p..]) == []
  {
  }

  // ----- encoding -----

  /** How many bytes of the encoding are written when one byte is kept for the terminator. */
  function Fitting(ps: seq<CodePoint>, room: int): nat {
    if ps == [] || EncodeLen(ps[0]) >= room then 0
    else EncodeLen(ps[0]) + Fitting(ps[1..], room - EncodeLen(ps[0]))
  }

  /** The whole encoding fits exactly when there is room for it and the terminator. */
  lemma {:induction false} FittingAll(ps: seq<CodePoint>, room: int)
    ensures Fitting(ps, room) <= |EncodeAll(ps)|
    ensures room > 0 ==> (Fitting(ps, room) == |EncodeAll(ps)| <==> |EncodeAll(ps)| < room)
    ensures room > 0 ==> Fitting(ps, room) < room
  {
    hide Encode;
    if ps != [] {
      FittingAll(ps[1..], room - EncodeLen(ps[0]));
    }
  }

  lemma FittingBytes(u: seq<U16>, room: int)
    ensures room > 0 ==> (Fitting(PointsOfUnits(u), room) == |Bytes(u)| <==> |Bytes(u)| < room)
  {
    FittingAll(PointsOfUnits(u), room);
  }

  /** What the encoder leaves in the buffer: the part that fits and a terminator after it. */
  ghost predicate Terminated(was: seq<U8>, now: seq<U8>, bytes: seq<U8>, fit: nat) {
    && |now| == |was| && fit <= |bytes| && (was != [] ==> fit < |was|)
    && forall k :: 0 <= k < |now| ==> now[k] == if k < fit then bytes[k] else if k == fit then 0 else was[k]
  }

  lemma TerminatorStored(was: seq<U8>, now: seq<U8>, done: seq<U8>, bytes: seq<U8>)
    requires Stored(was, now, done) && done <= bytes && (was != [] ==> |done| < |was|)
    ensures Terminated(was, if |done| < |now| then now[|done| := 0] else now, bytes, |done|)
  {
  }

  /** The bytes and the fitting part, from the first code point on. */
  lemma BytesStep(u: seq<U16>)
    requires u != []
    ensures PointsOfUnits(u) != []
    ensures PairAt(u, 0) ==> Bytes(u) == Encode(FromSurrogate(u[0], u[1])) + Bytes(u[2..])
    ensures !PairAt(u, 0) ==> Bytes(u) == Encode(u[0]) + Bytes(u[1..])
    ensures PairAt(u, 0) ==> PointsOfUnits(u)[1..] == PointsOfUnits(u[2..]) && PointsOfUnits(u)[0] == FromSurrogate(u[0], u[1])
    ensures !PairAt(u, 0) ==> PointsOfUnits(u)[1..] == PointsOfUnits(u[1..]) && PointsOfUnits(u)[0] == u[0]
  {
    hide Encode, FromSurrogate;
    if PairAt(u, 0) {
      Surrogates(u[0], u[1]);
    }
  }

  /** The code point at unit `i`, and how many units it takes. */
  method ReadUnits(src: seq<U16>, i: nat) returns (c: CodePoint, n: nat)
    requires i < |src|
    ensures n == (if PairAt(src[i..], 0) then 2 else 1) && i + n <= |src|
    ensures Bytes(src[i..]) == Encode(c) + Bytes(src[i + n..])
    ensures PointsOfUnits(src[i..]) == [c] + PointsOfUnits(src[i + n..])
  {
    hide Encode, Bytes, PointsOfUnits, FromSurrogate;
    BytesStep(src[i..]);
    c, n := src[i], 1;
    if c >= 0x80 {
      if IsHiSurrogate(c) && i + 1 < |src| && IsLoSurrogate(src[i + 1]) {
        Surrogates(src[i], src[i + 1]);
        c := FromSurrogate(c, src[i + 1]);
        n := 2;
      }
    }
    Rest(src, i, n);
    HeadTail(PointsOfUnits(src[i..]));
  }

  lemma HeadTail<T>(s: seq<T>)
    ensures s != [] ==> s == [s[0]] + s[1..]
  {
  }

  /** utf8_encode into the buffer, where it fits. */
  method WritePoint(dest: array<U8>, j: nat, c: CodePoint, ghost was: seq<U8>, ghost s: seq<U8>)
    requires Stored(was, dest[..], s) && j == |s| && j + EncodeLen(c) <= dest.Length
    modifies dest
    ensures Stored(was, dest[..], s + Encode(c))
  {
    hide Stored, Encode;
    var bytes := Encode(c);
    ghost var done: seq<U8> := s;
    assert s + bytes[..0] == s;
    for k := 0 to |bytes|
      invariant done == s + bytes[..k] && Stored(was, dest[..], done)
    {
      Put(dest, j + k, bytes[k], was, done);
      OneMore(s, bytes, k);
      done := done + [bytes[k]];
    }
    assert bytes[..|bytes|] == bytes;
  }

  lemma OneMore<T>(s: seq<T>, t: seq<T>, k: nat)
    requires k < |t|
    ensures (s + t[..k]) + [t[k]] == s + t[..k + 1]
  {
  }

  /** After an overflow: the length of what was not written. */
  method CountRest(src: seq<U16>, i0: nat) returns (length: nat)
    requires i0 <= |src|
    ensures length == |Bytes(src[i0..])|
  {
    hide Bytes, Encode, PointsOfUnits;
    length := 0;
    var i := i0;
    while i < |src|
      invariant i0 <= i <= |src|
      invariant length + |Bytes(src[i..])| == |Bytes(src[i0..])|
      decreases |src| - i
    {
      var c, n := ReadUnits(src, i);
      i := i + n;
      length := length + EncodeLen(c);
    }
    NoBytes(src, i);
  }

  lemma NoBytes(src: seq<U16>, i: nat)
    requires i == |src|
    ensures Bytes(src[i..]) == [] && PointsOfUnits(src[i..]) == []
  {
  }

  lemma FittingStep(c: CodePoint, rest: seq<CodePoint>, room: int)
    ensures Fitting([c] + rest, room) == if EncodeLen(c) >= room then 0 else EncodeLen(c) + Fitting(rest, room - EncodeLen(c))
    ensures Fitting([], room) == 0
  {
    assert ([c] + rest)[1..] == rest;
  }

  /** utf8_encode_buf16: the result is the full length; `fit` bytes of it were written. */
  method EncodeBuf16(dest: array<U8>, src: seq<U16>) returns (j: nat, ghost fit: nat)
    modifies dest
    ensures j == |Bytes(src)| && fit == Fitting(PointsOfUnits(src), dest.Length)
    ensures Terminated(old(dest[..]), dest[..], Bytes(src), fit)
  {
    hide Stored, Terminated, Bytes, Encode, PointsOfUnits, Fitting;
    ghost var was, done: seq<U8> := dest[..], [];
    NothingStored(was);
    var i := 0;
    j := 0;
    assert src[0..] == src && done + Bytes(src) == Bytes(src);
    while i < |src|
      invariant i <= |src| && j == |done| && (dest.Length > 0 ==> j < dest.Length)
      invariant Stored(was, dest[..], done) && done + Bytes(src[i..]) == Bytes(src)
      invariant j + Fitting(PointsOfUnits(src[i..]), dest.Length - j) == Fitting(PointsOfUnits(src), dest.Length)
      decreases |src| - i
    {
      var c, n := ReadUnits(src, i);
      FittingStep(c, PointsOfUnits(src[i + n..]), dest.Length - j);
      if j + EncodeLen(c) >= dest.Length {
        fit := j;
        Terminate(dest, j, was, done, Bytes(src));
        var rest := CountRest(src, i);
        j := j + rest;
        return;
      }
      WritePoint(dest, j, c, was, done);
      Grown(done, Encode(c), Bytes(src[i + n..]), Bytes(src));
      done := done + Encode(c);
      i := i + n;
      j := j + EncodeLen(c);
    }
    NoBytes(src, i);
    FittingStep(0, [], dest.Length - j);
    assert done + [] == done;
    fit := j;
    Terminate(dest, j, was, done, Bytes(src));
  }

  /** `if (j < dest_len) dest[j] = 0` */
  method Terminate(dest: array<U8>, j: nat, ghost was: seq<U8>, ghost done: seq<U8>, ghost bytes: seq<U8>)
    requires Stored(was, dest[..], done) && j == |done| && done <= bytes && (dest.Length > 0 ==> j < dest.Length)
    modifies dest
    ensures Terminated(was, dest[..], bytes, j)
  {
    hide Terminated;
    assert was != [] ==> j < |was| by {
      assert |was| == dest.Length;
    }
    TerminatorStored(was, dest[..], done, bytes);
    ghost var before: seq<U8> := dest[..];
    if j < dest.Length {
      dest[j] := 0;
      assert dest[..] == before[j := 0];
    }
  }

  // ----- from units to bytes and back through the buffers -----

  /** With room for the terminator the buffer holds an encoding from which the units come back. */
  method EncodeThenDecode(src: seq<U16>, room: nat) returns (back: array<U16>, length: nat)
    ensures length == |Bytes(src)|
    ensures length < room ==> back[..] == src
  {
    hide Stored, Terminated, Bytes, Fitting, Units;
    var bytes := new U8[room](_ => 0);
    back := new U16[0];
    ghost var fit;
    ghost var was: seq<U8> := bytes[..];
    length, fit := EncodeBuf16(bytes, src);
    if length < room {
      FittingBytes(src, room);
      AllTerminated(was, bytes[..], src, fit);
      var text := bytes[..length];
      RoundTrip(src);
      back := new U16[|src|](_ => 0);
      ghost var blank: seq<U16> := back[..];
      var n := DecodeBuf16(back, text);
      AllStored(blank, back[..], src);
    }
  }

  lemma AllTerminated(was: seq<U8>, now: seq<U8>, src: seq<U16>, fit: nat)
    requires Terminated(was, now, Bytes(src), fit) && fit == |Bytes(src)| && fit < |now|
    ensures now[..fit] == Bytes(src)
  {
  }

  lemma AllStored<T>(was: seq<T>, now: seq<T>, s: seq<T>)
    requires Stored(was, now, s) && |s| == |now|
    ensures now == s
  {
  }
}
