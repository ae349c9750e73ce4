/** unicode_normalize as it works on its buffers. */
module UniNormalize {
  import opened UniOrder
  import opened UniHangul
  import opened UniNorm

  /** The growing buffer (DynBuf), as far as to_nfd_rec uses it. */
  class DynBuf {
    var words: seq<int>

    constructor ()
      ensures words == []
    {
      words := [];
    }

    /** dbuf_put_u32 */
    method Put(c: int)
      modifies this
      ensures words == old(words) + [c]
    {
      words := words + [c];
    }
  }

  /** to_nfd_rec: the full decomposition is appended. */
  method ToNfdRec(dbuf: DynBuf, src: seq<int>, tb: Tables)
    requires WellFormed(tb)
    modifies dbuf
    ensures dbuf.words == old(dbuf.words) + Nfd(src, tb)
    decreases Weight(src, tb.size)
  {
    hide WellFormed, Nfd, Nfd1, Weight;
    ghost var was := dbuf.words;
    NfdNone(tb);
    assert was + [] == was;
    for i := 0 to |src|
      invariant dbuf.words == was + Nfd(src[..i], tb)
    {
      var c := src[i];
      NfdSnoc(src, i, tb);
      ghost var front := dbuf.words;
      if 0xac00 <= c < 0xd7a4 {
        c := c - 0xac00;
        dbuf.Put(0x1100 + c / 588);
        dbuf.Put(0x1161 + c % 588 / 28);
        var v := c % 28;
        if v != 0 {
          dbuf.Put(0x11a7 + v);
        }
        assert dbuf.words == front + Jamo(src[i]);
        JamoNfd(src[i], tb);
      } else {
        var res := tb.decomp(c);
        OtherNfd(c, tb);
        if res != [] {
          LighterParts(src, i, tb);
          ToNfdRec(dbuf, res, tb);
        } else {
          dbuf.Put(c);
        }
      }
      assert dbuf.words == front + Nfd1(src[i], tb);
      JoinAssoc(was, Nfd(src[..i], tb), Nfd1(src[i], tb));
    }
    assert src[..|src|] == src;
  }

  lemma {:induction false} NfdSnoc(s: seq<int>, i: nat, tb: Tables)
    requires WellFormed(tb) && i < |s|
    ensures Nfd(s[..i + 1], tb) == Nfd(s[..i], tb) + Nfd1(s[i], tb)
  {
    hide WellFormed, Nfd, Nfd1;
    assert s[..i + 1] == s[..i] + [s[i]];
    NfdConcat(s[..i], [s[i]], tb);
    NfdOne(s[i], tb);
  }

  lemma JamoNfd(c: int, tb: Tables)
    requires WellFormed(tb) && IsSyllable(c)
    ensures Nfd1(c, tb) == Jamo(c)
  {
  }

  lemma OtherNfd(c: int, tb: Tables)
    requires WellFormed(tb) && !IsSyllable(c)
    ensures Nfd1(c, tb) == if tb.decomp(c) == [] then [c] else Nfd(tb.decomp(c), tb)
  {
  }

  lemma {:induction false} LighterParts(s: seq<int>, i: nat, tb: Tables)
    requires WellFormed(tb) && i < |s| && tb.decomp(s[i]) != []
    ensures Weight(tb.decomp(s[i]), tb.size) < Weight(s, tb.size)
  {
    hide WellFormed, Weight;
    TableAt(s[i], tb);
    WeightOf(s, tb.size, i);
  }

  /** The inner loop of the composition: the starter that the character composes with, or -1. */
  method FindStarter(buf: array<int>, outLen: nat, c: int, tb: Tables) returns (starterPos: int)
    requires outLen <= buf.Length
    ensures starterPos == Starter(buf[..outLen], outLen, tb.cc(c), tb)
  {
    var lastCc := tb.cc(c);
    starterPos := outLen - 1;
    while starterPos >= 0
      invariant -1 <= starterPos < outLen
      invariant Starter(buf[..outLen], outLen, tb.cc(c), tb) == Starter(buf[..outLen], starterPos + 1, lastCc, tb)
    {
      var cc := tb.cc(buf[starterPos]);
      if cc == 0 {
        return;
      }
      if cc >= lastCc {
        return -1;
      }
      lastCc := 256;
      starterPos := starterPos - 1;
    }
  }

  /** The composition, in place. */
  method ComposeInPlace(buf: array<int>, len: nat, tb: Tables) returns (outLen: nat)
    requires 1 <= len <= buf.Length
    modifies buf
    ensures outLen <= len && buf[..outLen] == Compose(old(buf[..len]), tb)
  {
    hide Starter, ComposePair;
    ghost var s := buf[..len];
    FirstStays(s, tb);
    outLen := 1;
    var i := 1;
    assert buf[..1] == s[..1] && buf[1..len] == s[1..];
    while i < len
      invariant 1 <= outLen <= i <= len
      invariant ComposeFrom(buf[..outLen], buf[i..len], tb) == Compose(s, tb)
    {
      ghost var done, todo := buf[..outLen], buf[i..len];
      var c := buf[i];
      assert todo[0] == c && todo[1..] == buf[i + 1..len];
      var starterPos := FindStarter(buf, outLen, c, tb);
      var p := if starterPos >= 0 then ComposePair(buf[starterPos], c, tb) else 0;
      if p != 0 {
        buf[starterPos] := p;
        assert buf[..outLen] == done[starterPos := p];
        assert buf[i + 1..len] == todo[1..];
      } else {
        buf[outLen] := c;
        outLen := outLen + 1;
        assert buf[..outLen] == done + [c];
        assert buf[i + 1..len] == todo[1..];
      }
      i := i + 1;
    }
    ComposeNothing(buf[..outLen], tb);
    assert buf[i..len] == [];
  }

  lemma FirstStays(s: seq<int>, tb: Tables)
    requires s != []
    ensures ComposeFrom(s[..1], s[1..], tb) == Compose(s, tb)
  {
    assert [] + [s[0]] == s[..1];
  }

  datatype Form = FormC | FormD | FormKC | FormKD

  predicate IsCompat(form: Form) { form.FormKC? || form.FormKD? }

  predicate Composes(form: Form) { form.FormC? || form.FormKC? }

  /** unicode_normalize, with the tables for canonical and for compatibility decomposition. */
  method UnicodeNormalize(src: seq<nat>, form: Form, canonical: Tables, compat: Tables) returns (buf: array<int>, outLen: nat)
    requires WellFormed(if IsCompat(form) then compat else canonical)
    requires form.FormC? ==> Latin1Tables(canonical)
    ensures fresh(buf) && outLen <= buf.Length
    ensures var tb := if IsCompat(form) then compat else canonical;
            buf[..outLen] == if Composes(form) then Nfc(src, tb) else Order(Nfd(src, tb), tb.cc)
  {
    hide WellFormed, Latin1Tables, Nfd, Order, Compose;
    var tb := if IsCompat(form) then compat else canonical;
    if form.FormC? {
      var latin1 := AllLatin1(src);
      if latin1 {
        ComposedStays(src, tb);
        buf := new int[|src|](i requires 0 <= i < |src| => src[i]);
        assert buf[..|src|] == src;
        return buf, |src|;
      }
    }
    var dbuf := new DynBuf();
    ToNfdRec(dbuf, src, tb);
    var words := dbuf.words;
    assert words == Nfd(src, tb);
    outLen := |words|;
    buf := new int[outLen](i requires 0 <= i < |words| => words[i]);
    assert buf[..outLen] == words;
    ghost var places := SortCc(buf, outLen, tb.cc);
    if outLen <= 1 || !Composes(form) {
      ShortStays(buf[..outLen], tb);
      return;
    }
    outLen := ComposeInPlace(buf, outLen, tb);
  }

  lemma ShortStays(s: seq<int>, tb: Tables)
    ensures |s| <= 1 ==> Compose(s, tb) == s
  {
    if |s| == 1 {
      FirstStays(s, tb);
      ComposeNothing(s, tb);
      assert s[..1] == s && s[1..] == [];
    }
  }

  method AllLatin1(src: seq<nat>) returns (all: bool)
    ensures all ==> forall i :: 0 <= i < |src| ==> src[i] < 0x100
    ensures !all ==> exists i :: 0 <= i < |src| && src[i] >= 0x100
  {
    for i := 0 to |src|
      invariant forall j :: 0 <= j < i ==> src[j] < 0x100
    {
      if src[i] >= 0x100 {
        return false;
      }
    }
    return true;
  }
}
