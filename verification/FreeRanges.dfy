/**
 The abstract value of the physical memory allocator: the sequence of free address ranges
 (both ends inclusive), in address order. A sequence is canonical when its ranges hold at
 least two bytes each, are strictly sorted and are never adjacent.
 */
module FreeRanges {

  /** One past the largest address a `usize` can hold. */
  const ADDRESS_LIMIT: int := 0x1_0000_0000_0000_0000

  datatype Range = Range(first: int, last: int) {

    function Size(): int {
      last - first + 1
    }

    predicate Contains(a: int) {
      first <= a <= last
    }

    predicate Encloses(s: int, e: int) {
      first <= s && e <= last
    }

    predicate Disjoint(s: int, e: int) {
      last < s || e < first
    }
  }

  ghost predicate Canonical(rs: seq<Range>) {
    && (forall k :: 0 <= k < |rs| ==> 0 <= rs[k].first < rs[k].last && rs[k].last + 1 < ADDRESS_LIMIT)
    && (forall j, k {:trigger Precedes(rs, j, k)} :: 0 <= j < k < |rs| ==> Precedes(rs, j, k))
  }

  /** Range j ends, with a gap, before range k. */
  ghost predicate Precedes(rs: seq<Range>, j: nat, k: nat)
    requires j < |rs| && k < |rs|
  {
    rs[j].last + 1 < rs[k].first
  }

  /** The free set denoted by the sequence. */
  ghost predicate Covers(rs: seq<Range>, a: int) {
    exists k :: 0 <= k < |rs| && rs[k].Contains(a)
  }

  ghost predicate DisjointFrom(rs: seq<Range>, s: int, e: int) {
    forall k :: 0 <= k < |rs| ==> rs[k].Disjoint(s, e)
  }

  ghost predicate EnclosedBy(rs: seq<Range>, s: int, e: int) {
    exists k :: 0 <= k < |rs| && rs[k].Encloses(s, e)
  }

  /** The bytes of the first n ranges. */
  function TotalOf(rs: seq<Range>, n: nat): int
    requires n <= |rs|
  {
    if n == 0 then 0 else TotalOf(rs, n - 1) + rs[n - 1].Size()
  }

  function Total(rs: seq<Range>): int {
    TotalOf(rs, |rs|)
  }

  /** What is left of the range `r` once [s, e] has been taken out of it. */
  function Remains(r: Range, s: int, e: int): seq<Range> {
    (if r.first < s then [Range(r.first, s - 1)] else [])
    + (if e < r.last then [Range(e + 1, r.last)] else [])
  }

  /** The ranges after [s, e] has been taken out of range k. */
  function Carve(rs: seq<Range>, k: nat, s: int, e: int): seq<Range>
    requires k < |rs|
  {
    rs[..k] + Remains(rs[k], s, e) + rs[k + 1..]
  }

  predicate JoinsLeft(rs: seq<Range>, j: nat, s: int)
    requires j <= |rs|
  {
    0 < j && rs[j - 1].last + 1 == s
  }

  predicate JoinsRight(rs: seq<Range>, j: nat, e: int)
    requires j <= |rs|
  {
    j < |rs| && rs[j].first == e + 1
  }

  /** The range that [s, e] grows into when it is released between ranges j - 1 and j. */
  function Joined(rs: seq<Range>, j: nat, s: int, e: int): Range
    requires j <= |rs|
  {
    Range(if JoinsLeft(rs, j, s) then rs[j - 1].first else s, if JoinsRight(rs, j, e) then rs[j].last else e)
  }

  /** The ranges after [s, e] has been released between ranges j - 1 and j. */
  function Release(rs: seq<Range>, j: nat, s: int, e: int): seq<Range>
    requires j <= |rs|
  {
    rs[..if JoinsLeft(rs, j, s) then j - 1 else j]
    + [Joined(rs, j, s, e)]
    + rs[if JoinsRight(rs, j, e) then j + 1 else j..]
  }

  /** The ranges once range k has grown to the end of range k + 1. */
  function Merged(rs: seq<Range>, k: nat): seq<Range>
    requires k + 1 < |rs|
  {
    rs[..k] + [Range(rs[k].first, rs[k + 1].last)] + rs[k + 2..]
  }

  /** How many ranges begin before `a`; the place of an interval starting at `a`. */
  function Below(rs: seq<Range>, a: int): (j: nat)
    ensures j <= |rs|
  {
    BelowFrom(rs, a, 0)
  }

  function BelowFrom(rs: seq<Range>, a: int, k: nat): (j: nat)
    requires k <= |rs|
    ensures k <= j <= |rs|
    decreases |rs| - k
  {
    if k == |rs| || a <= rs[k].first then k else BelowFrom(rs, a, k + 1)
  }

  /** Exactly the first j ranges begin before `a`, in a sorted sequence. */
  ghost predicate IsBelow(rs: seq<Range>, j: nat, a: int) {
    && j <= |rs|
    && (forall k :: 0 <= k < j ==> rs[k].first < a)
    && (j < |rs| ==> a <= rs[j].first)
  }

  lemma BelowUnique(rs: seq<Range>, a: int, j: nat)
    requires IsBelow(rs, j, a)
    ensures Below(rs, a) == j
  {
    BelowFromUnique(rs, a, j, 0);
  }

  lemma {:induction false} BelowFromUnique(rs: seq<Range>, a: int, j: nat, k: nat)
    requires IsBelow(rs, j, a) && k <= j
    ensures BelowFrom(rs, a, k) == j
    decreases j - k
  {
    if k < j {
      BelowFromUnique(rs, a, j, k + 1);
    }
  }

  lemma BelowIs(rs: seq<Range>, a: int)
    ensures IsBelow(rs, Below(rs, a), a)
  {
    BelowFromIs(rs, a, 0);
  }

  lemma {:induction false} BelowFromIs(rs: seq<Range>, a: int, k: nat)
    requires k <= |rs| && forall i :: 0 <= i < k ==> rs[i].first < a
    ensures IsBelow(rs, BelowFrom(rs, a, k), a)
    decreases |rs| - k
  {
    if k < |rs| && rs[k].first < a {
      BelowFromIs(rs, a, k + 1);
    }
  }

  /** An address between two neighbouring ranges is not free. */
  lemma BetweenRanges(rs: seq<Range>, j: nat, a: int)
    requires Canonical(rs) && j <= |rs|
    requires forall k :: 0 <= k < j ==> rs[k].last < a
    requires j < |rs| ==> a < rs[j].first
    ensures !Covers(rs, a)
  {
    forall k | 0 <= k < |rs|
      ensures !rs[k].Contains(a)
    {
      if j < k {
        assert Precedes(rs, j, k);
      }
    }
  }

  /** An address lies in at most one range. */
  lemma OnlyContaining(rs: seq<Range>, k: nat, a: int)
    requires Canonical(rs) && k < |rs| && rs[k].Contains(a)
    ensures Covers(rs, a)
    ensures forall i :: 0 <= i < |rs| && rs[i].Contains(a) ==> i == k
  {
    forall i | 0 <= i < |rs| && rs[i].Contains(a)
      ensures i == k
    {
      assert i < k ==> Precedes(rs, i, k);
      assert k < i ==> Precedes(rs, k, i);
    }
  }

  // ---------------------------------------------------------------- concatenation

  lemma {:induction false} TotalOfConcat(xs: seq<Range>, ys: seq<Range>, n: nat)
    requires n <= |xs| + |ys|
    ensures TotalOf(xs + ys, n) == if n <= |xs| then TotalOf(xs, n) else TotalOf(xs, |xs|) + TotalOf(ys, n - |xs|)
  {
    if n > 0 {
      TotalOfConcat(xs, ys, n - 1);
    }
  }

  lemma TotalConcat(xs: seq<Range>, ys: seq<Range>)
    ensures Total(xs + ys) == Total(xs) + Total(ys)
  {
    TotalOfConcat(xs, ys, |xs| + |ys|);
  }

  lemma CoversConcat(xs: seq<Range>, ys: seq<Range>, a: int)
    ensures Covers(xs + ys, a) <==> Covers(xs, a) || Covers(ys, a)
  {
    if Covers(xs, a) {
      var k :| 0 <= k < |xs| && xs[k].Contains(a);
      assert (xs + ys)[k].Contains(a);
    }
    if Covers(ys, a) {
      var k :| 0 <= k < |ys| && ys[k].Contains(a);
      assert (xs + ys)[|xs| + k].Contains(a);
    }
  }

  /** Every range of `xs` ends, with a gap, before every range of `ys`. */
  ghost predicate Before(xs: seq<Range>, ys: seq<Range>) {
    forall j, k :: 0 <= j < |xs| && 0 <= k < |ys| ==> xs[j].last + 1 < ys[k].first
  }

  lemma CanonicalPairs(rs: seq<Range>)
    requires Canonical(rs)
    ensures forall j, k :: 0 <= j < k < |rs| ==> rs[j].last + 1 < rs[k].first
  {
    forall j, k | 0 <= j < k < |rs|
      ensures rs[j].last + 1 < rs[k].first
    {
      assert Precedes(rs, j, k);
    }
  }

  lemma CanonicalConcat(xs: seq<Range>, ys: seq<Range>)
    ensures Canonical(xs + ys) <==> Canonical(xs) && Canonical(ys) && Before(xs, ys)
  {
    var zs := xs + ys;
    if Canonical(zs) {
      CanonicalPairs(zs);
      assert forall k :: 0 <= k < |xs| ==> zs[k] == xs[k];
      assert forall k :: 0 <= k < |ys| ==> zs[|xs| + k] == ys[k];
    } else if Canonical(xs) && Canonical(ys) && Before(xs, ys) {
      CanonicalPairs(xs);
      CanonicalPairs(ys);
    }
  }

  /** The three pieces around position k (or around an insertion point) are canonical and ordered. */
  lemma Pieces(xs: seq<Range>, ys: seq<Range>, zs: seq<Range>)
    ensures Canonical(xs + ys + zs)
       <==> Canonical(xs) && Canonical(ys) && Canonical(zs) && Before(xs, ys) && Before(xs, zs) && Before(ys, zs)
    ensures Total(xs + ys + zs) == Total(xs) + Total(ys) + Total(zs)
    ensures forall a :: Covers(xs + ys + zs, a) <==> Covers(xs, a) || Covers(ys, a) || Covers(zs, a)
  {
    CanonicalConcat(xs, ys);
    CanonicalConcat(xs + ys, zs);
    if Before(xs, zs) && Before(ys, zs) {
      assert Before(xs + ys, zs);
    }
    if Before(xs + ys, zs) {
      forall j, k | 0 <= j < |xs| && 0 <= k < |zs|
        ensures xs[j].last + 1 < zs[k].first
      {
        assert (xs + ys)[j] == xs[j];
      }
      forall j, k | 0 <= j < |ys| && 0 <= k < |zs|
        ensures ys[j].last + 1 < zs[k].first
      {
        assert (xs + ys)[|xs| + j] == ys[j];
      }
    }
    TotalConcat(xs, ys);
    TotalConcat(xs + ys, zs);
    forall a
      ensures Covers(xs + ys + zs, a) <==> Covers(xs, a) || Covers(ys, a) || Covers(zs, a)
    {
      CoversConcat(xs, ys, a);
      CoversConcat(xs + ys, zs, a);
    }
  }

  lemma Singleton(r: Range)
    ensures Total([r]) == r.Size()
    ensures forall a :: Covers([r], a) <==> r.Contains(a)
    ensures Canonical([r]) <==> 0 <= r.first < r.last && r.last + 1 < ADDRESS_LIMIT
  {
    assert TotalOf([r], 1) == TotalOf([r], 0) + [r][0].Size();
    forall a
      ensures Covers([r], a) <==> r.Contains(a)
    {
      assert [r][0].Contains(a) == r.Contains(a);
    }
    assert [r][0] == r;
  }

  lemma TotalPositive(rs: seq<Range>)
    requires forall k :: 0 <= k < |rs| ==> rs[k].first < rs[k].last
    ensures Total(rs) >= 2 * |rs|
  {
    TotalOfPositive(rs, |rs|);
  }

  lemma {:induction false} TotalOfPositive(rs: seq<Range>, n: nat)
    requires n <= |rs| && forall k :: 0 <= k < |rs| ==> rs[k].first < rs[k].last
    ensures TotalOf(rs, n) >= 2 * n
  {
    if n > 0 {
      TotalOfPositive(rs, n - 1);
    }
  }

  /** A range is no larger than all of them together, and as large only if it is alone. */
  lemma TotalAtLeast(rs: seq<Range>, k: nat)
    requires k < |rs| && forall i :: 0 <= i < |rs| ==> rs[i].first < rs[i].last
    ensures Total(rs) >= rs[k].Size()
    ensures Total(rs) == rs[k].Size() ==> |rs| == 1
  {
    TotalOfAtLeast(rs, k, |rs|);
  }

  lemma {:induction false} TotalOfAtLeast(rs: seq<Range>, k: nat, n: nat)
    requires k < n <= |rs| && forall i :: 0 <= i < |rs| ==> rs[i].first < rs[i].last
    ensures TotalOf(rs, n) >= rs[k].Size() + 2 * (n - 1)
  {
    if k == n - 1 {
      TotalOfPositive(rs, n - 1);
    } else {
      TotalOfAtLeast(rs, k, n - 1);
    }
  }

  // ---------------------------------------------------------------- taking an interval

  lemma RemainsOf(r: Range, s: int, e: int)
    requires Canonical([r]) && r.Encloses(s, e) && s <= e
    requires r.first < s ==> r.first < s - 1
    requires e < r.last ==> e + 1 < r.last
    ensures Canonical(Remains(r, s, e))
    ensures Total(Remains(r, s, e)) == r.Size() - (e - s + 1)
    ensures forall a :: Covers(Remains(r, s, e), a) <==> r.Contains(a) && !(s <= a <= e)
    ensures forall k :: 0 <= k < |Remains(r, s, e)| ==> r.first <= Remains(r, s, e)[k].first && Remains(r, s, e)[k].last <= r.last
  {
    Singleton(r);
    Singleton(Range(r.first, s - 1));
    Singleton(Range(e + 1, r.last));
    TwoSides(r, s, e, if r.first < s then [Range(r.first, s - 1)] else [], if e < r.last then [Range(e + 1, r.last)] else []);
  }

  lemma TwoSides(r: Range, s: int, e: int, lo: seq<Range>, hi: seq<Range>)
    requires Canonical(lo) && Canonical(hi) && s <= e
    requires lo == if r.first < s then [Range(r.first, s - 1)] else []
    requires hi == if e < r.last then [Range(e + 1, r.last)] else []
    ensures Canonical(lo + hi) && Total(lo + hi) == Total(lo) + Total(hi)
    ensures forall a :: Covers(lo + hi, a) <==> Covers(lo, a) || Covers(hi, a)
  {
    CanonicalConcat(lo, hi);
    TotalConcat(lo, hi);
    forall a
      ensures Covers(lo + hi, a) <==> Covers(lo, a) || Covers(hi, a)
    {
      CoversConcat(lo, hi, a);
    }
  }

  /** Carving removes exactly the interval from the free set, and keeps the form canonical. */
  lemma CarveRemoves(rs: seq<Range>, k: nat, s: int, e: int)
    requires Canonical(rs) && k < |rs| && rs[k].Encloses(s, e) && s <= e
    requires rs[k].first < s ==> rs[k].first < s - 1
    requires e < rs[k].last ==> e + 1 < rs[k].last
    ensures Canonical(Carve(rs, k, s, e))
    ensures forall a :: Covers(Carve(rs, k, s, e), a) <==> Covers(rs, a) && !(s <= a <= e)
    ensures Total(Carve(rs, k, s, e)) == Total(rs) - (e - s + 1)
  {
    var r := rs[k];
    assert rs == rs[..k] + [r] + rs[k + 1..];
    ShrinkMiddle(rs[..k], r, rs[k + 1..], Remains(r, s, e), s, e);
  }

  lemma ShrinkMiddle(lo: seq<Range>, r: Range, hi: seq<Range>, mid: seq<Range>, s: int, e: int)
    requires Canonical(lo + [r] + hi) && r.Encloses(s, e) && s <= e && mid == Remains(r, s, e)
    requires r.first < s ==> r.first < s - 1
    requires e < r.last ==> e + 1 < r.last
    ensures Canonical(lo + mid + hi)
    ensures forall a :: Covers(lo + mid + hi, a) <==> Covers(lo + [r] + hi, a) && !(s <= a <= e)
    ensures Total(lo + mid + hi) == Total(lo + [r] + hi) - (e - s + 1)
  {
    Singleton(r);
    Pieces(lo, [r], hi);
    Pieces(lo, mid, hi);
    RemainsOf(r, s, e);
    assert [r][0] == r;
    forall a
      ensures r.Contains(a) ==> !Covers(lo, a) && !Covers(hi, a)
    {
    }
  }

  // ---------------------------------------------------------------- releasing an interval

  /** Where the ranges lie around a disjoint interval. */
  lemma Around(rs: seq<Range>, s: int, e: int)
    requires Canonical(rs) && s <= e && DisjointFrom(rs, s, e)
    ensures forall k :: 0 <= k < Below(rs, s) ==> rs[k].last < s
    ensures forall k :: Below(rs, s) <= k < |rs| ==> e < rs[k].first
  {
    var j := Below(rs, s);
    BelowIs(rs, s);
    forall k | 0 <= k < |rs|
      ensures k < j ==> rs[k].last < s
      ensures j <= k ==> e < rs[k].first
    {
      assert rs[k].Disjoint(s, e);
      if j < k {
        assert Precedes(rs, j, k);
      }
    }
  }

  ghost function LeftPart(rs: seq<Range>, j: nat, s: int): seq<Range>
    requires j <= |rs|
  {
    rs[..if JoinsLeft(rs, j, s) then j - 1 else j]
  }

  ghost function RightPart(rs: seq<Range>, j: nat, e: int): seq<Range>
    requires j <= |rs|
  {
    rs[if JoinsRight(rs, j, e) then j + 1 else j..]
  }

  /** What the joined range replaces. */
  ghost function Absorbed(rs: seq<Range>, j: nat, s: int, e: int): seq<Range>
    requires j <= |rs|
  {
    rs[if JoinsLeft(rs, j, s) then j - 1 else j..if JoinsRight(rs, j, e) then j + 1 else j]
  }

  lemma AbsorbedBy(rs: seq<Range>, j: nat, s: int, e: int)
    requires j <= |rs| && s <= e
    requires Canonical(rs)
    ensures Total([Joined(rs, j, s, e)]) == Total(Absorbed(rs, j, s, e)) + (e - s + 1)
    ensures forall a :: Covers([Joined(rs, j, s, e)], a) <==> Covers(Absorbed(rs, j, s, e), a) || s <= a <= e
  {
    var left := if JoinsLeft(rs, j, s) then [rs[j - 1]] else [];
    var right := if JoinsRight(rs, j, e) then [rs[j]] else [];
    assert Absorbed(rs, j, s, e) == left + right;
    TotalConcat(left, right);
    Singleton(Joined(rs, j, s, e));
    if 0 < j { Singleton(rs[j - 1]); }
    if j < |rs| { Singleton(rs[j]); }
    forall a
      ensures Covers([Joined(rs, j, s, e)], a) <==> Covers(Absorbed(rs, j, s, e), a) || s <= a <= e
    {
      CoversConcat(left, right, a);
    }
  }

  /** Releasing a disjoint interval adds exactly that interval, and coalescing keeps the form canonical. */
  lemma ReleaseAdds(rs: seq<Range>, s: int, e: int)
    requires Canonical(rs) && 0 <= s <= e && e + 1 < ADDRESS_LIMIT && DisjointFrom(rs, s, e)
    requires s == e ==> JoinsLeft(rs, Below(rs, s), s) || JoinsRight(rs, Below(rs, s), e)
    ensures Canonical(Release(rs, Below(rs, s), s, e))
    ensures forall a :: Covers(Release(rs, Below(rs, s), s, e), a) <==> Covers(rs, a) || s <= a <= e
    ensures Total(Release(rs, Below(rs, s), s, e)) == Total(rs) + (e - s + 1)
  {
    var j := Below(rs, s);
    ReleaseParts(rs, j, s, e);
    AbsorbedBy(rs, j, s, e);
    JoinedFits(rs, s, e);
    GrowMiddle(LeftPart(rs, j, s), Absorbed(rs, j, s, e), Joined(rs, j, s, e), RightPart(rs, j, e), s, e);
  }

  lemma ReleaseParts(rs: seq<Range>, j: nat, s: int, e: int)
    requires j <= |rs|
    ensures rs == LeftPart(rs, j, s) + Absorbed(rs, j, s, e) + RightPart(rs, j, e)
    ensures Release(rs, j, s, e) == LeftPart(rs, j, s) + [Joined(rs, j, s, e)] + RightPart(rs, j, e)
  {
  }

  lemma GrowMiddle(lo: seq<Range>, mid: seq<Range>, r: Range, hi: seq<Range>, s: int, e: int)
    requires Canonical(lo + mid + hi) && Canonical([r]) && Before(lo, [r]) && Before([r], hi)
    requires Total([r]) == Total(mid) + (e - s + 1)
    requires forall a :: Covers([r], a) <==> Covers(mid, a) || s <= a <= e
    ensures Canonical(lo + [r] + hi)
    ensures forall a :: Covers(lo + [r] + hi, a) <==> Covers(lo + mid + hi, a) || s <= a <= e
    ensures Total(lo + [r] + hi) == Total(lo + mid + hi) + (e - s + 1)
  {
    Pieces(lo, mid, hi);
    Pieces(lo, [r], hi);
    BeforeThrough(lo, r, hi);
  }

  lemma BeforeThrough(lo: seq<Range>, r: Range, hi: seq<Range>)
    requires Canonical([r]) && Before(lo, [r]) && Before([r], hi)
    ensures Before(lo, hi)
  {
    assert [r][0] == r;
  }

  lemma JoinedFits(rs: seq<Range>, s: int, e: int)
    requires Canonical(rs) && 0 <= s <= e && e + 1 < ADDRESS_LIMIT && DisjointFrom(rs, s, e)
    requires s == e ==> JoinsLeft(rs, Below(rs, s), s) || JoinsRight(rs, Below(rs, s), e)
    ensures Canonical([Joined(rs, Below(rs, s), s, e)])
    ensures Before(LeftPart(rs, Below(rs, s), s), [Joined(rs, Below(rs, s), s, e)])
    ensures Before([Joined(rs, Below(rs, s), s, e)], RightPart(rs, Below(rs, s), e))
  {
    var j := Below(rs, s);
    Around(rs, s, e);
    Singleton(Joined(rs, j, s, e));
    LeftFits(rs, j, s, e);
    RightFits(rs, j, s, e);
  }

  lemma LeftFits(rs: seq<Range>, j: nat, s: int, e: int)
    requires Canonical(rs) && j <= |rs|
    requires forall k :: 0 <= k < j ==> rs[k].last < s
    ensures Before(LeftPart(rs, j, s), [Joined(rs, j, s, e)])
  {
    var lo := LeftPart(rs, j, s);
    forall i | 0 <= i < |lo|
      ensures lo[i].last + 1 < Joined(rs, j, s, e).first
    {
      assert lo[i] == rs[i];
      if i < j - 1 {
        assert Precedes(rs, i, j - 1);
      }
    }
  }

  lemma RightFits(rs: seq<Range>, j: nat, s: int, e: int)
    requires Canonical(rs) && j <= |rs|
    requires forall k :: j <= k < |rs| ==> e < rs[k].first
    ensures Before([Joined(rs, j, s, e)], RightPart(rs, j, e))
  {
    var hi := RightPart(rs, j, e);
    forall i | 0 <= i < |hi|
      ensures Joined(rs, j, s, e).last + 1 < hi[i].first
    {
      var k := |rs| - |hi| + i;
      assert hi[i] == rs[k];
      if j < k {
        assert Precedes(rs, j, k);
      }
    }
  }

  // The forms of a release, by the neighbours it joins.

  lemma ReleaseBoth(rs: seq<Range>, j: nat, s: int, e: int)
    requires j <= |rs| && JoinsLeft(rs, j, s) && JoinsRight(rs, j, e)
    ensures Release(rs, j, s, e) == Merged(rs, j - 1)
  {
  }

  lemma ReleaseLeft(rs: seq<Range>, j: nat, s: int, e: int)
    requires j <= |rs| && JoinsLeft(rs, j, s) && !JoinsRight(rs, j, e)
    ensures Release(rs, j, s, e) == rs[j - 1 := Range(rs[j - 1].first, e)]
  {
  }

  lemma ReleaseRight(rs: seq<Range>, j: nat, s: int, e: int)
    requires j <= |rs| && !JoinsLeft(rs, j, s) && JoinsRight(rs, j, e)
    ensures Release(rs, j, s, e) == rs[j := Range(s, rs[j].last)]
  {
  }

  // ---------------------------------------------------------------- canonical form

  lemma TailCovers(rs: seq<Range>, a: int)
    requires Canonical(rs) && rs != []
    ensures Covers(rs[1..], a) <==> Covers(rs, a) && rs[0].last < a
  {
    CanonicalPairs(rs);
    if Covers(rs[1..], a) {
      var k :| 0 <= k < |rs[1..]| && rs[1..][k].Contains(a);
      assert rs[k + 1].Contains(a);
    }
    if Covers(rs, a) && rs[0].last < a {
      var k :| 0 <= k < |rs| && rs[k].Contains(a);
      assert rs[1..][k - 1].Contains(a);
    }
  }

  lemma HeadAgrees(rs: seq<Range>, ts: seq<Range>)
    requires Canonical(rs) && Canonical(ts) && rs != [] && ts != []
    requires forall a :: Covers(rs, a) <==> Covers(ts, a)
    ensures rs[0].first >= ts[0].first
    ensures rs[0].first == ts[0].first ==> rs[0].last <= ts[0].last
  {
    CanonicalPairs(rs);
    CanonicalPairs(ts);
    assert rs[0].Contains(rs[0].first);
    assert Covers(rs, rs[0].first);
    var k :| 0 <= k < |ts| && ts[k].Contains(rs[0].first);
    var a := ts[0].last + 1;
    assert !Covers(ts, a) by {
      assert forall i :: 0 < i < |ts| ==> ts[0].last + 1 < ts[i].first;
    }
    assert !rs[0].Contains(a);
  }

  /** A canonical sequence is determined by the free set it denotes. */
  lemma {:induction false} CanonicalUnique(rs: seq<Range>, ts: seq<Range>)
    requires Canonical(rs) && Canonical(ts)
    requires forall a :: Covers(rs, a) <==> Covers(ts, a)
    ensures rs == ts
  {
    if rs == [] || ts == [] {
      if rs != [] {
        assert rs[0].Contains(rs[0].first);
        assert Covers(rs, rs[0].first);
      }
      if ts != [] {
        assert ts[0].Contains(ts[0].first);
        assert Covers(ts, ts[0].first);
      }
    } else {
      HeadAgrees(rs, ts);
      HeadAgrees(ts, rs);
      forall a
        ensures Covers(rs[1..], a) <==> Covers(ts[1..], a)
      {
        TailCovers(rs, a);
        TailCovers(ts, a);
      }
      CanonicalTail(rs);
      CanonicalTail(ts);
      CanonicalUnique(rs[1..], ts[1..]);
      assert rs == [rs[0]] + rs[1..] && ts == [ts[0]] + ts[1..];
    }
  }

  lemma CanonicalTail(rs: seq<Range>)
    requires Canonical(rs) && rs != []
    ensures Canonical(rs[1..])
  {
    assert rs == [rs[0]] + rs[1..];
    CanonicalConcat([rs[0]], rs[1..]);
  }

  /** Releasing what was just carved out restores the very same sequence of ranges. */
  lemma ReleaseUndoesCarve(rs: seq<Range>, k: nat, s: int, e: int)
    requires Canonical(rs) && k < |rs| && rs[k].Encloses(s, e) && s <= e
    requires rs[k].first < s ==> rs[k].first < s - 1
    requires e < rs[k].last ==> e + 1 < rs[k].last
    ensures DisjointFrom(Carve(rs, k, s, e), s, e)
    ensures Release(Carve(rs, k, s, e), Below(Carve(rs, k, s, e), s), s, e) == rs
  {
    var rest := Carve(rs, k, s, e);
    CarveRemoves(rs, k, s, e);
    UncoveredIsDisjoint(rest, s, e);
    if s == e { StubJoins(rs, k, s); }
    ReleaseAdds(rest, s, e);
    var back := Release(rest, Below(rest, s), s, e);
    forall a
      ensures Covers(back, a) <==> Covers(rs, a)
    {
      if s <= a <= e {
        assert rs[k].Contains(a);
      }
    }
    CanonicalUnique(back, rs);
  }

  /** A single byte taken out of a range leaves a piece of that range beside it. */
  lemma StubJoins(rs: seq<Range>, k: nat, s: int)
    requires Canonical(rs) && k < |rs| && rs[k].Contains(s)
    ensures var rest := Carve(rs, k, s, s);
            JoinsLeft(rest, Below(rest, s), s) || JoinsRight(rest, Below(rest, s), s)
  {
    var rest := Carve(rs, k, s, s);
    CanonicalPairs(rs);
    assert forall i :: 0 <= i < k ==> rest[i] == rs[i];
    if rs[k].first < s {
      assert rest[k] == Range(rs[k].first, s - 1);
      BelowUnique(rest, s, k + 1);
    } else {
      assert rest[k] == Range(s + 1, rs[k].last);
      BelowUnique(rest, s, k);
    }
  }

  lemma UncoveredIsDisjoint(rs: seq<Range>, s: int, e: int)
    requires Canonical(rs) && s <= e
    requires forall a :: s <= a <= e ==> !Covers(rs, a)
    ensures DisjointFrom(rs, s, e)
  {
    forall i | 0 <= i < |rs|
      ensures rs[i].Disjoint(s, e)
    {
      if !rs[i].Disjoint(s, e) {
        var a := if rs[i].first < s then s else rs[i].first;
        assert rs[i].Contains(a);
        assert Covers(rs, a);
      }
    }
  }
}
