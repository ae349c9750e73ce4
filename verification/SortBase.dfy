/** What sorting with a comparison function means, and how exchanges keep the elements. */
module SortBase {
  type Cmp<!T(!new)> = (T, T) -> int

  /** The comparison ranks the elements: any two compare, consistently and transitively. */
  ghost predicate TotalPreorder<T(!new)>(cmp: Cmp<T>) {
    && (forall x, y :: cmp(x, y) < 0 <==> cmp(y, x) > 0)
    && (forall x, y, z :: cmp(x, y) <= 0 && cmp(y, z) <= 0 ==> cmp(x, z) <= 0)
  }

  function Compare<T(!new)>(cmp: Cmp<T>, x: T, y: T): int { cmp(x, y) }

  ghost predicate Le<T(!new)>(cmp: Cmp<T>, x: T, y: T) { cmp(x, y) <= 0 }

  lemma LeFacts<T(!new)>(cmp: Cmp<T>, x: T, y: T)
    requires TotalPreorder(cmp)
    ensures Compare(cmp, x, y) <= 0 <==> Le(cmp, x, y)
    ensures Compare(cmp, x, y) >= 0 <==> Le(cmp, y, x)
    ensures Le(cmp, x, x) && (Le(cmp, x, y) || Le(cmp, y, x))
  {
  }

  lemma LeTrans<T(!new)>(cmp: Cmp<T>, x: T, y: T, z: T)
    requires TotalPreorder(cmp) && Le(cmp, x, y) && Le(cmp, y, z)
    ensures Le(cmp, x, z)
  {
  }

  ghost predicate Sorted<T(!new)>(cmp: Cmp<T>, s: seq<T>) {
    forall i, j :: 0 <= i < j < |s| ==> Le(cmp, s[i], s[j])
  }

  /** `t` is `s` with its elements between `lo` and `hi` rearranged. */
  ghost predicate Rearranged<T>(s: seq<T>, t: seq<T>, lo: nat, hi: nat) {
    && lo <= hi <= |s| == |t|
    && s[..lo] == t[..lo] && s[hi..] == t[hi..] && multiset(s[lo..hi]) == multiset(t[lo..hi])
  }

  lemma RearrangedRefl<T>(s: seq<T>, lo: nat, hi: nat)
    requires lo <= hi <= |s|
    ensures Rearranged(s, s, lo, hi)
  {
  }

  lemma RearrangedTrans<T>(s: seq<T>, t: seq<T>, u: seq<T>, lo: nat, hi: nat)
    requires Rearranged(s, t, lo, hi) && Rearranged(t, u, lo, hi)
    ensures Rearranged(s, u, lo, hi)
  {
  }

  lemma RearrangedAll<T>(s: seq<T>, t: seq<T>, lo: nat, hi: nat)
    requires Rearranged(s, t, lo, hi)
    ensures multiset(s) == multiset(t)
  {
    assert s == s[..lo] + s[lo..hi] + s[hi..];
    assert t == t[..lo] + t[lo..hi] + t[hi..];
  }

  /** Rearranging a part rearranges the whole. */
  lemma RearrangedWider<T>(s: seq<T>, t: seq<T>, lo: nat, hi: nat, lo': nat, hi': nat)
    requires Rearranged(s, t, lo, hi) && lo' <= lo && hi <= hi' <= |s|
    ensures Rearranged(s, t, lo', hi')
  {
    assert s[lo'..hi'] == s[lo'..lo] + s[lo..hi] + s[hi..hi'];
    assert t[lo'..hi'] == t[lo'..lo] + t[lo..hi] + t[hi..hi'];
    assert s[lo'..lo] == s[..lo][lo'..] && t[lo'..lo] == t[..lo][lo'..];
    assert s[hi..hi'] == s[hi..][..hi' - hi] && t[hi..hi'] == t[hi..][..hi' - hi];
    assert s[..lo'] == s[..lo][..lo'] && t[..lo'] == t[..lo][..lo'];
    assert s[hi'..] == s[hi..][hi' - hi..] && t[hi'..] == t[hi..][hi' - hi..];
  }

  /** Every element of the new part was in the old one. */
  lemma CameFrom<T>(s: seq<T>, t: seq<T>, lo: nat, hi: nat, i: nat) returns (j: nat)
    requires Rearranged(s, t, lo, hi) && lo <= i < hi
    ensures lo <= j < hi && s[j] == t[i]
  {
    assert t[lo..hi][i - lo] == t[i];
    assert t[i] in multiset(t[lo..hi]);
    assert t[i] in s[lo..hi];
    var k :| 0 <= k < |s[lo..hi]| && s[lo..hi][k] == t[i];
    j := lo + k;
  }

  function Exchanged<T>(s: seq<T>, i: nat, j: nat): seq<T>
    requires i < |s| && j < |s|
  {
    s[i := s[j]][j := s[i]]
  }

  lemma ExchangedRearranges<T>(s: seq<T>, i: nat, j: nat, lo: nat, hi: nat)
    requires lo <= i < hi <= |s| && lo <= j < hi
    ensures Rearranged(s, Exchanged(s, i, j), lo, hi)
  {
    var t := Exchanged(s, i, j);
    assert t[lo..hi] == s[lo..hi][i - lo := s[j]][j - lo := s[i]];
    assert s[lo..hi][i - lo] == s[i] && s[lo..hi][j - lo] == s[j];
  }

  ghost predicate Holds<T>(a: array<T>, s: seq<T>)
    reads a
  {
    a[..] == s
  }

  /** Compares two elements of the array. */
  method CompareAt<T(!new)>(cmp: Cmp<T>, a: array<T>, i: nat, j: nat, ghost now: seq<T>) returns (c: int)
    requires TotalPreorder(cmp) && Holds(a, now) && |now| == a.Length && i < |now| && j < |now|
    ensures c <= 0 <==> Le(cmp, now[i], now[j])
    ensures c >= 0 <==> Le(cmp, now[j], now[i])
  {
    c := cmp(a[i], a[j]);
  }

  /** An exchange inside a part that is being rearranged; `next` is the new contents. */
  method Exchange<T>(a: array<T>, i: nat, j: nat, ghost was: seq<T>, ghost now: seq<T>, ghost lo: nat, ghost hi: nat)
    returns (ghost next: seq<T>)
    requires Holds(a, now) && Rearranged(was, now, lo, hi) && lo <= i < hi <= |now| == a.Length && lo <= j < hi
    modifies a
    ensures Holds(a, next) && |next| == |now| && next == Exchanged(now, i, j) && Rearranged(was, next, lo, hi)
  {
    hide Rearranged;
    ExchangedRearranges(now, i, j, lo, hi);
    next := Exchanged(now, i, j);
    RearrangedTrans(was, now, next, lo, hi);
    a[i], a[j] := a[j], a[i];
  }

  /** `now` is `was` with the blocks of `n` elements at `i` and at `j` exchanged. */
  ghost predicate BlocksExchanged<T>(was: seq<T>, now: seq<T>, i: nat, j: nat, n: nat)
    requires i + n <= j && j + n <= |was|
  {
    && |now| == |was|
    && forall k :: 0 <= k < |was| ==>
         now[k] == was[if i <= k < i + n then k - i + j else if j <= k < j + n then k - j + i else k]
  }

  lemma NoBlocks<T>(was: seq<T>, i: nat, j: nat)
    requires i <= j <= |was|
    ensures BlocksExchanged(was, was, i, j, 0)
  {
  }

  lemma OneMoreExchanged<T>(was: seq<T>, s: seq<T>, i: nat, j: nat, m: nat)
    requires i + m + 1 <= j && j + m + 1 <= |was| && BlocksExchanged(was, s, i, j, m)
    ensures BlocksExchanged(was, Exchanged(s, i + m, j + m), i, j, m + 1)
  {
    var t := Exchanged(s, i + m, j + m);
    forall k | 0 <= k < |was|
      ensures t[k] == was[if i <= k < i + m + 1 then k - i + j else if j <= k < j + m + 1 then k - j + i else k]
    {
      assert s[k] == was[if i <= k < i + m then k - i + j else if j <= k < j + m then k - j + i else k];
      assert s[i + m] == was[i + m] && s[j + m] == was[j + m];
    }
  }

  /** Exchanges two blocks of `n` elements that do not overlap. */
  method SwapBlock<T>(a: array<T>, i: nat, j: nat, n: nat, ghost was: seq<T>, ghost lo: nat, ghost hi: nat)
    returns (ghost next: seq<T>)
    requires Holds(a, was) && lo <= i && i + n <= j && j + n <= hi <= |was| == a.Length
    modifies a
    ensures Holds(a, next) && |next| == |was| && Rearranged(was, next, lo, hi)
    ensures BlocksExchanged(was, next, i, j, n)
  {
    hide Holds, Rearranged, BlocksExchanged, Exchanged;
    next := was;
    RearrangedRefl(was, lo, hi);
    NoBlocks(was, i, j);
    for m := 0 to n
      invariant Holds(a, next) && |next| == |was|
      invariant Rearranged(was, next, lo, hi)
      invariant BlocksExchanged(was, next, i, j, m)
    {
      OneMoreExchanged(was, next, i, j, m);
      next := Exchange(a, i + m, j + m, was, next, lo, hi);
    }
  }
}
