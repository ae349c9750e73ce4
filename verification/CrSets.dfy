/** Lists of points as sets of characters: consecutive pairs are half-open intervals. */
module CrSets {
  type U32 = x: int | 0 <= x < 0x1_0000_0000

  const UINT32_MAX: U32 := 0xFFFF_FFFF

  predicate At(s: seq<U32>, k: int, c: int) {
    0 <= k && 2 * k + 1 < |s| && s[2 * k] <= c < s[2 * k + 1]
  }

  /** The character `c` is in one of the intervals. */
  ghost predicate In(s: seq<U32>, c: int) {
    exists k :: At(s, k, c)
  }

  ghost predicate Nondecreasing(s: seq<U32>) {
    forall i, j :: 0 <= i < j < |s| ==> s[i] <= s[j]
  }

  ghost predicate Strict(s: seq<U32>) {
    forall i, j :: 0 <= i < j < |s| ==> s[i] < s[j]
  }

  /** An odd number of the points is at or below `c`. */
  ghost predicate Odd(s: seq<U32>, c: int) {
    s != [] && (Odd(s[..|s| - 1], c) != (s[|s| - 1] <= c))
  }

  lemma OddAppend(s: seq<U32>, v: U32, c: int)
    ensures Odd(s + [v], c) <==> (Odd(s, c) != (v <= c))
  {
    assert (s + [v])[..|s|] == s;
  }

  /** At or above all points only their number matters. */
  lemma {:induction false} OddAbove(s: seq<U32>, c: int)
    requires forall i :: 0 <= i < |s| ==> s[i] <= c
    ensures Odd(s, c) <==> |s| % 2 == 1
  {
    if s != [] {
      OddAbove(s[..|s| - 1], c);
    }
  }

  lemma InPrefix(s: seq<U32>, c: int)
    requires |s| % 2 == 0 && s != []
    ensures In(s, c) <==> In(s[..|s| - 2], c) || s[|s| - 2] <= c < s[|s| - 1]
  {
    var t := s[..|s| - 2];
    if In(s, c) {
      var k :| At(s, k, c);
      if k < |t| / 2 {
        assert At(t, k, c);
      }
    }
    if In(t, c) {
      var k :| At(t, k, c);
      assert At(s, k, c);
    }
    if s[|s| - 2] <= c < s[|s| - 1] {
      assert At(s, |t| / 2, c);
    }
  }

  lemma NotInAbove(s: seq<U32>, c: int)
    requires forall i :: 0 <= i < |s| ==> s[i] <= c
    ensures !In(s, c)
  {
  }

  /** For points in order, being in an interval is having an odd number of points at or below. */
  lemma {:induction false} OddIsIn(s: seq<U32>, c: int)
    requires Nondecreasing(s) && |s| % 2 == 0
    ensures Odd(s, c) <==> In(s, c)
  {
    if s != [] {
      var n := |s|;
      var t := s[..n - 2];
      OddIsIn(t, c);
      InPrefix(s, c);
      assert s[..n - 1][..n - 2] == t;
      if s[n - 2] <= c {
        NotInAbove(t, c);
      }
    }
  }

  /** Strictly increasing points are the only such points for their set. */
  lemma {:induction false} StrictUnique(s: seq<U32>, t: seq<U32>)
    requires Strict(s) && Strict(t) && |s| % 2 == 0 && |t| % 2 == 0
    requires forall c :: In(s, c) <==> In(t, c)
    ensures s == t
    decreases |s| + |t|
  {
    hide In, Strict;
    if s == [] || t == [] {
      EmptyAlike(s, t);
    } else {
      SameLast(s, t);
      var s', t' := s[..|s| - 2], t[..|t| - 2];
      StrictPrefix(s);
      StrictPrefix(t);
      forall c
        ensures In(s', c) <==> In(t', c)
      {
        SameRest(s, t, c);
      }
      StrictUnique(s', t');
      assert s == s' + s[|s| - 2..] && t == t' + t[|t| - 2..];
    }
  }

  lemma EmptyAlike(s: seq<U32>, t: seq<U32>)
    requires Strict(s) && Strict(t) && |s| % 2 == 0 && |t| % 2 == 0 && (s == [] || t == [])
    requires forall c :: In(s, c) <==> In(t, c)
    ensures s == t
  {
    if s != [] {
      assert At(s, 0, s[0]);
      assert In(s, s[0]);
    }
    if t != [] {
      assert At(t, 0, t[0]);
      assert In(t, t[0]);
    }
  }

  lemma StrictPrefix(s: seq<U32>)
    requires Strict(s) && |s| >= 2
    ensures Strict(s[..|s| - 2])
  {
  }

  lemma SameRest(s: seq<U32>, t: seq<U32>, c: int)
    requires Strict(s) && Strict(t) && |s| % 2 == 0 && |t| % 2 == 0 && s != [] && t != []
    requires s[|s| - 1] == t[|t| - 1] && s[|s| - 2] == t[|t| - 2]
    requires In(s, c) <==> In(t, c)
    ensures In(s[..|s| - 2], c) <==> In(t[..|t| - 2], c)
  {
    hide In;
    InPrefix(s, c);
    InPrefix(t, c);
    if c >= s[|s| - 2] {
      NotInAbove(s[..|s| - 2], c);
      NotInAbove(t[..|t| - 2], c);
    }
  }

  lemma SameLast(s: seq<U32>, t: seq<U32>)
    requires Strict(s) && Strict(t) && |s| % 2 == 0 && |t| % 2 == 0 && s != [] && t != []
    requires forall c :: In(s, c) <==> In(t, c)
    ensures s[|s| - 1] == t[|t| - 1] && s[|s| - 2] == t[|t| - 2]
  {
    LastNotBelow(s, t);
    LastNotBelow(t, s);
    StartNotBelow(s, t);
    StartNotBelow(t, s);
  }

  lemma LastNotBelow(s: seq<U32>, t: seq<U32>)
    requires Strict(s) && Strict(t) && |s| % 2 == 0 && |t| % 2 == 0 && s != [] && t != []
    requires forall c :: In(s, c) <==> In(t, c)
    ensures s[|s| - 1] <= t[|t| - 1]
  {
    var c := s[|s| - 1] as int - 1;
    assert At(s, |s| / 2 - 1, c);
    assert In(s, c);
    if t[|t| - 1] <= c {
      NotInAbove(t, c);
    }
  }

  lemma StartNotBelow(s: seq<U32>, t: seq<U32>)
    requires Strict(s) && Strict(t) && |s| % 2 == 0 && |t| % 2 == 0 && s != [] && t != []
    requires s[|s| - 1] == t[|t| - 1]
    requires forall c :: In(s, c) <==> In(t, c)
    ensures t[|t| - 2] <= s[|s| - 2]
  {
    hide In;
    var c := t[|t| - 2] as int - 1;
    InPrefix(s, c);
    InPrefix(t, c);
    NotInAbove(t[..|t| - 2], c);
  }

  // ----- what cr_compress leaves -----

  function Compress(s: seq<U32>): (r: seq<U32>)
    ensures |r| % 2 == 0 && |r| <= |s|
    decreases |s|, 1
  {
    if |s| < 2 then []
    else if s[0] == s[1] then Compress(s[2..])
    else Extend(s)
  }

  /** The first interval, together with the ones that begin where it ends. */
  function Extend(s: seq<U32>): (r: seq<U32>)
    requires |s| >= 2
    ensures |r| % 2 == 0 && |r| <= |s|
    decreases |s|, 0
  {
    if |s| >= 4 && s[1] == s[2] then Extend([s[0]] + s[3..])
    else s[..2] + Compress(s[2..])
  }

  /** Compressing points in order keeps the set and leaves strictly increasing points. */
  lemma {:induction false} CompressMeans(s: seq<U32>)
    requires Nondecreasing(s) && |s| % 2 == 0
    ensures Strict(Compress(s)) && (forall v :: v in Compress(s) ==> v in s)
    ensures forall c :: In(Compress(s), c) <==> In(s, c)
    decreases |s|, 1
  {
    if |s| >= 2 {
      if s[0] == s[1] {
        CompressMeans(s[2..]);
        forall c
          ensures In(Compress(s), c) <==> In(s, c)
        {
          InFirst(s, c);
        }
      } else {
        ExtendMeans(s);
      }
    }
  }

  lemma InFirst(s: seq<U32>, c: int)
    requires |s| >= 2
    ensures In(s, c) <==> s[0] <= c < s[1] || In(s[2..], c)
  {
    if In(s, c) {
      var k :| At(s, k, c);
      if k > 0 {
        assert At(s[2..], k - 1, c);
      }
    }
    if s[0] <= c < s[1] {
      assert At(s, 0, c);
    }
    if In(s[2..], c) {
      var k :| At(s[2..], k, c);
      assert At(s, k + 1, c);
    }
  }

  lemma {:induction false} ExtendMeans(s: seq<U32>)
    requires Nondecreasing(s) && |s| % 2 == 0 && |s| >= 2 && s[0] < s[1]
    ensures Strict(Extend(s)) && (forall v :: v in Extend(s) ==> v in s)
    ensures forall c :: In(Extend(s), c) <==> In(s, c)
    decreases |s|, 0
  {
    if |s| >= 4 && s[1] == s[2] {
      var joined := [s[0]] + s[3..];
      ExtendMeans(joined);
      assert joined[2..] == s[4..] == s[2..][2..];
      forall c
        ensures In(Extend(s), c) <==> In(s, c)
      {
        InFirst(s, c);
        InFirst(s[2..], c);
        InFirst(joined, c);
      }
    } else {
      var rest := Compress(s[2..]);
      CompressMeans(s[2..]);
      forall v | v in rest
        ensures v > s[1]
      {
        assert v in s[2..];
      }
      assert forall k :: 0 <= k < |rest| ==> rest[k] in rest;
      var all := s[..2] + rest;
      assert all[2..] == rest;
      forall c
        ensures In(all, c) <==> In(s, c)
      {
        InFirst(all, c);
        InFirst(s, c);
      }
    }
  }
}
