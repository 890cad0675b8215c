/**
 What a caller of the allocator can rely on: the effect of one call on the free set, and the
 safety of whole runs of calls. Everything here is proved from the relations that the methods
 of `MemoryAllocator` are proved against.
 */
module AllocatorRuns {
  import opened Wrappers
  import opened Arithmetic
  import opened FreeRanges
  import opened PageOrders
  import opened MemoryPool
  import opened AllocatorSpec

  // ---------------------------------------------------------------- one call

  /** A successful allocation removes exactly the returned interval, which was free and is aligned. */
  lemma AllocateRemoves(v: View, n: int, alignOrder: nat, a: int, v': View)
    requires Canonical(v.ranges) && n > 0
    requires AllocatePost(v, n, alignOrder, Ok(a), v')
    ensures Canonical(v'.ranges) && v'.ranges != [] && v'.freeSize == v.freeSize - n
    ensures forall b :: a <= b < a + n ==> Covers(v.ranges, b)
    ensures forall b :: Covers(v'.ranges, b) <==> Covers(v.ranges, b) && !(a <= b < a + n)
    ensures Total(v'.ranges) == Total(v.ranges) - n
    ensures alignOrder != 0 ==> a % Pow2(alignOrder) == 0
  {
    var k := Source(v, n, alignOrder, a, v');
    TakesFree(v.ranges, k, a, n);
  }

  lemma TakesFree(rs: seq<Range>, k: nat, a: int, n: int)
    requires Canonical(rs) && k < |rs| && n > 0 && rs[k].Encloses(a, a + n - 1) && CleanCut(rs[k], a, n)
    requires rs[k] == Range(a, a + n - 1) ==> |rs| > 1
    ensures Canonical(Carve(rs, k, a, a + n - 1)) && Carve(rs, k, a, a + n - 1) != []
    ensures forall b :: a <= b < a + n ==> Covers(rs, b)
    ensures forall b :: Covers(Carve(rs, k, a, a + n - 1), b) <==> Covers(rs, b) && !(a <= b < a + n)
    ensures DisjointFrom(Carve(rs, k, a, a + n - 1), a, a + n - 1)
    ensures Total(Carve(rs, k, a, a + n - 1)) == Total(rs) - n
  {
    CarveRemoves(rs, k, a, a + n - 1);
    CarveLength(rs, k, a, a + n - 1);
    UncoveredIsDisjoint(Carve(rs, k, a, a + n - 1), a, a + n - 1);
    forall b | a <= b < a + n
      ensures Covers(rs, b)
    {
      assert rs[k].Contains(b);
    }
  }

  /** The range a successful allocation was taken from. */
  lemma Source(v: View, n: int, alignOrder: nat, a: int, v': View) returns (k: nat)
    requires Canonical(v.ranges) && n > 0
    requires AllocatePost(v, n, alignOrder, Ok(a), v')
    ensures Chosen(v.ranges, k, n, alignOrder) && v.ranges[k].Encloses(a, a + n - 1)
    ensures CleanCut(v.ranges[k], a, n)
    ensures v' == View(Carve(v.ranges, k, a, a + n - 1), v.freeSize - n)
    ensures v.ranges[k] == Range(a, a + n - 1) ==> |v.ranges| > 1
    ensures alignOrder != 0 ==> a % Pow2(alignOrder) == 0
  {
    k :| Chosen(v.ranges, k, n, alignOrder) && AllocatedFrom(v, k, n, alignOrder, Ok(a), v');
    SourceOf(v, k, n, alignOrder, a, v');
  }

  lemma SourceOf(v: View, k: nat, n: int, alignOrder: nat, a: int, v': View)
    requires Canonical(v.ranges) && n > 0
    requires Chosen(v.ranges, k, n, alignOrder) && AllocatedFrom(v, k, n, alignOrder, Ok(a), v')
    ensures v.ranges[k].Encloses(a, a + n - 1) && CleanCut(v.ranges[k], a, n)
    ensures v' == View(Carve(v.ranges, k, a, a + n - 1), v.freeSize - n)
    ensures v.ranges[k] == Range(a, a + n - 1) ==> |v.ranges| > 1
    ensures alignOrder != 0 ==> a % Pow2(alignOrder) == 0
  {
    CandidateInside(v.ranges[k], n, alignOrder);
    PassesExactly(v.ranges, k, a, n);
  }

  /** The allocation is made from a smallest range in which an aligned part is large enough, at the first address
      of that range that is aligned. */
  lemma AllocateIsBestFit(v: View, n: int, alignOrder: nat, a: int, v': View)
    requires Canonical(v.ranges) && n > 0
    requires AllocatePost(v, n, alignOrder, Ok(a), v')
    ensures exists k :: 0 <= k < |v.ranges| && v.ranges[k].Encloses(a, a + n - 1)
                     && (forall b :: v.ranges[k].first <= b && b % Pow2(alignOrder) == 0 ==> a <= b)
                     && forall i, b :: 0 <= i < |v.ranges| && Offers(v.ranges[i], b, n, alignOrder) ==> v.ranges[k].Size() <= v.ranges[i].Size()
  {
    var k: nat :| Chosen(v.ranges, k, n, alignOrder) && AllocatedFrom(v, k, n, alignOrder, Ok(a), v');
    CandidateInside(v.ranges[k], n, alignOrder);
    if alignOrder != 0 {
      AlignAddressAndAvailableSizeMeaning(v.ranges[k].first, v.ranges[k].Size(), alignOrder);
    }
    forall i, b | 0 <= i < |v.ranges| && Offers(v.ranges[i], b, n, alignOrder)
      ensures v.ranges[k].Size() <= v.ranges[i].Size()
    {
      FitsExactly(v.ranges[i], n, alignOrder);
    }
  }

  /** The n bytes at b are an aligned part of the range. */
  predicate Offers(r: Range, b: int, n: int, alignOrder: nat) {
    r.Encloses(b, b + n - 1) && b % Pow2(alignOrder) == 0
  }

  /** A range fits exactly if an aligned part of it is large enough. */
  lemma FitsExactly(r: Range, n: int, alignOrder: nat)
    requires 0 <= r.first < r.last && n > 0
    ensures Fits(r, n, alignOrder) <==> exists b :: Offers(r, b, n, alignOrder)
  {
    if alignOrder != 0 {
      AlignAddressAndAvailableSizeMeaning(r.first, r.Size(), alignOrder);
    }
    if Fits(r, n, alignOrder) {
      var b := Candidate(r, alignOrder).0;
      CandidateInside(r, n, alignOrder);
      assert Offers(r, b, n, alignOrder);
    }
  }

  /** The range cannot give the n bytes: they are the whole of the only range, or a split finds the pool exhausted. */
  predicate Blocked(rs: seq<Range>, k: nat, n: int, alignOrder: nat)
    requires k < |rs|
  {
    var a := Candidate(rs[k], alignOrder).0;
    || (rs[k] == Range(a, a + n - 1) && |rs| == 1)
    || (rs[k].first < a && a + n - 1 < rs[k].last && |rs| == POOL_SIZE)
  }

  lemma FailsFrom(v: View, k: nat, n: int, alignOrder: nat, r: Result<int, MemoryError>, v': View)
    requires Canonical(v.ranges) && n > 0 && Chosen(v.ranges, k, n, alignOrder) && AllocatedFrom(v, k, n, alignOrder, r, v')
    ensures r.Err? <==> Blocked(v.ranges, k, n, alignOrder)
  {
    CandidateInside(v.ranges[k], n, alignOrder);
  }

  /** When an allocation fails: the counter does not exceed the request, nothing fits, or a smallest range that fits is blocked. */
  lemma AllocateFails(v: View, n: int, alignOrder: nat, r: Result<int, MemoryError>, v': View)
    requires Canonical(v.ranges) && n > 0 && AllocatePost(v, n, alignOrder, r, v')
    ensures v.freeSize <= n || (forall k: nat :: Chosen(v.ranges, k, n, alignOrder) ==> Blocked(v.ranges, k, n, alignOrder)) ==> r.Err?
    ensures r.Err? ==>
              || v.freeSize <= n
              || (forall k :: 0 <= k < |v.ranges| ==> !Fits(v.ranges[k], n, alignOrder))
              || exists k: nat :: Chosen(v.ranges, k, n, alignOrder) && Blocked(v.ranges, k, n, alignOrder)
    ensures r.Err? ==> v' == v && (r == Err(NoMemory) || r == Err(NoEntry))
    ensures r == Err(NoMemory) <==> v.freeSize <= n || (forall k :: 0 <= k < |v.ranges| ==> !Fits(v.ranges[k], n, alignOrder))
  {
    if v.freeSize > n && exists k :: 0 <= k < |v.ranges| && Fits(v.ranges[k], n, alignOrder) {
      var m: nat :| Chosen(v.ranges, m, n, alignOrder) && AllocatedFrom(v, m, n, alignOrder, r, v');
      FailsFrom(v, m, n, alignOrder, r, v');
    }
  }

  /** Without an alignment it fails exactly if the counter does not exceed the request, every range is too small,
      or the request is for the whole of the only range. */
  lemma UnalignedFails(v: View, n: int, r: Result<int, MemoryError>, v': View)
    requires Canonical(v.ranges) && n > 0 && AllocatePost(v, n, 0, r, v')
    ensures r.Err? <==>
              || v.freeSize <= n
              || (forall k :: 0 <= k < |v.ranges| ==> v.ranges[k].Size() < n)
              || (|v.ranges| == 1 && v.ranges[0].Size() == n)
  {
    AllocateFails(v, n, 0, r, v');
    assert forall k :: 0 <= k < |v.ranges| ==> (Fits(v.ranges[k], n, 0) <==> v.ranges[k].Size() >= n);
  }

  /** A request that some aligned part of a free range can hold is served, unless it is for the whole of the only
      range, or a split may find the pool exhausted. */
  lemma AllocateFindsFit(v: View, n: int, alignOrder: nat, r: Result<int, MemoryError>, v': View, k: nat, b: int)
    requires Canonical(v.ranges) && n > 0 && v.freeSize >= Total(v.ranges)
    requires AllocatePost(v, n, alignOrder, r, v')
    requires k < |v.ranges| && Offers(v.ranges[k], b, n, alignOrder)
    requires |v.ranges| > 1 || n < v.ranges[0].Size()
    requires |v.ranges| < POOL_SIZE || alignOrder == 0
    ensures r.Ok?
  {
    FitsExactly(v.ranges[k], n, alignOrder);
    TotalAtLeast(v.ranges, k);
    AllocateFails(v, n, alignOrder, r, v');
  }

  /** Releasing what was just allocated succeeds, and restores the same sequence of free ranges. */
  lemma FreeUndoesAllocate(v: View, n: int, alignOrder: nat, a: int, v1: View, r: Outcome, v2: View)
    requires Canonical(v.ranges) && n > 0 && |v.ranges| <= POOL_SIZE
    requires AllocatePost(v, n, alignOrder, Ok(a), v1) && v1.freeSize != 0
    requires FreePost(v1, a, n, r, v2)
    ensures Releasable(v1.ranges, a, n)
    ensures r == Ok(()) && v2.ranges == v.ranges
  {
    var k := Source(v, n, alignOrder, a, v1);
    CarveRestores(v.ranges, k, a, n);
    FreeRestores(v1, v.ranges, a, n, r, v2);
  }

  lemma CarveRestores(rs: seq<Range>, k: nat, a: int, n: int)
    requires Canonical(rs) && n > 0 && k < |rs| <= POOL_SIZE && rs[k].Encloses(a, a + n - 1) && CleanCut(rs[k], a, n)
    ensures Releasable(Carve(rs, k, a, a + n - 1), a, n) && Restores(Carve(rs, k, a, a + n - 1), rs, a, a + n - 1)
  {
    RestoresRanges(rs, k, a, a + n - 1);
    ReleasableAgain(rs, k, a, n, Carve(rs, k, a, a + n - 1));
  }

  /** Releasing [s, e] turns `rest` into `rs`, and there is room for it. */
  ghost predicate Restores(rest: seq<Range>, rs: seq<Range>, s: int, e: int) {
    var j := Below(rest, s);
    && DisjointFrom(rest, s, e)
    && Release(rest, j, s, e) == rs
    && (JoinsLeft(rest, j, s) || JoinsRight(rest, j, e) || |rest| < POOL_SIZE)
  }

  lemma FreeRestores(v: View, rs: seq<Range>, a: int, n: int, r: Outcome, v': View)
    requires v.freeSize != 0 && n > 0 && Restores(v.ranges, rs, a, a + n - 1) && FreePost(v, a, n, r, v')
    ensures r == Ok(()) && v'.ranges == rs
  {
    GivenWhenRoom(v, a, n, r, v');
  }

  lemma ReleasableAgain(rs: seq<Range>, k: nat, a: int, n: int, rest: seq<Range>)
    requires Canonical(rs) && n > 0 && k < |rs| && rs[k].Encloses(a, a + n - 1)
    requires rest == Carve(rs, k, a, a + n - 1) && DisjointFrom(rest, a, a + n - 1)
    ensures Releasable(rest, a, n)
  {
    CanonicalBounds(rs, k);
    if n == 1 {
      StubJoins(rs, k, a);
    }
  }

  /** A disjoint release for which there is room succeeds. */
  lemma GivenWhenRoom(v: View, s: int, n: int, r: Outcome, v': View)
    requires v.freeSize != 0 && n > 0 && DisjointFrom(v.ranges, s, s + n - 1) && FreePost(v, s, n, r, v')
    requires var j := Below(v.ranges, s);
             JoinsLeft(v.ranges, j, s) || JoinsRight(v.ranges, j, s + n - 1) || |v.ranges| < POOL_SIZE
    ensures r == Ok(()) && v' == View(Release(v.ranges, Below(v.ranges, s), s, s + n - 1), v.freeSize + 2 * n)
  {
    DisjointNotEnclosed(v.ranges, s, s + n - 1);
  }

  lemma CanonicalBounds(rs: seq<Range>, k: nat)
    requires Canonical(rs) && k < |rs|
    ensures 0 <= rs[k].first && rs[k].last + 1 < ADDRESS_LIMIT
  {
  }

  lemma RestoresRanges(rs: seq<Range>, k: nat, s: int, e: int)
    requires Canonical(rs) && k < |rs| <= POOL_SIZE && rs[k].Encloses(s, e) && s <= e && CleanCut(rs[k], s, e - s + 1)
    ensures Restores(Carve(rs, k, s, e), rs, s, e)
  {
    ReleaseUndoesCarve(rs, k, s, e);
    var rest := Carve(rs, k, s, e);
    if !JoinsLeft(rest, Below(rest, s), s) && !JoinsRight(rest, Below(rest, s), e) {
      ReleaseLength(rest, Below(rest, s), s, e);
    }
  }

  lemma ReleaseLength(rs: seq<Range>, j: nat, s: int, e: int)
    requires j <= |rs| && !JoinsLeft(rs, j, s) && !JoinsRight(rs, j, e)
    ensures |Release(rs, j, s, e)| == |rs| + 1
  {
  }

  /** A release of bytes that are all free already changes nothing. */
  lemma DoubleFreeIsRejected(v: View, s: int, n: int, r: Outcome, v': View)
    requires v.freeSize != 0 && n > 0 && EnclosedBy(v.ranges, s, s + n - 1) && FreePost(v, s, n, r, v')
    ensures r == Err(InvalidRequest) && v' == v
  {
  }

  // ---------------------------------------------------------------- reserving

  lemma ReserveSource(v: View, s: int, n: int, alignOrder: nat, v': View) returns (k: nat)
    requires n > 0 && Requested(s, n, alignOrder).1 > 0 && ReservePost(v, s, n, alignOrder, Ok(()), v')
    requires Canonical(v.ranges) && Reservable(v, s, n, alignOrder)
    ensures var (a, m) := Requested(s, n, alignOrder);
            && k < |v.ranges| && v.ranges[k].Encloses(a, a + m - 1) && CleanCut(v.ranges[k], a, m)
            && (v.ranges[k] == Range(a, a + m - 1) ==> |v.ranges| > 1)
            && v' == View(Carve(v.ranges, k, a, a + m - 1), v.freeSize - m)
  {
    var (a, m) := Requested(s, n, alignOrder);
    assert Covers(v.ranges, a);
    k :| 0 <= k < |v.ranges| && v.ranges[k].Contains(a);
    assert Passes(v.ranges, k, a, m);
    PassesExactly(v.ranges, k, a, m);
    assert TakenFrom(v, k, a, m, Ok(()), v');
  }

  lemma ReserveError(v: View, s: int, n: int, alignOrder: nat, r: Outcome, v': View)
    requires r.Err? && ReservePost(v, s, n, alignOrder, r, v')
    ensures v' == v
  {
    var (a, m) := Requested(s, n, alignOrder);
    if Covers(v.ranges, a) {
      var k: nat :| k < |v.ranges| && v.ranges[k].Contains(a);
      if n != 0 && v.freeSize >= n && m != 0 && v.freeSize >= m {
        assert TakenFrom(v, k, a, m, r, v');
      }
    }
  }

  /** A successful reservation removes exactly the least aligned interval around the requested bytes, all of which
      were free. */
  lemma ReserveRemoves(v: View, s: int, n: int, alignOrder: nat, v': View) returns (a: int, m: int)
    requires Canonical(v.ranges) && n > 0 && Reservable(v, s, n, alignOrder) && ReservePost(v, s, n, alignOrder, Ok(()), v')
    ensures a % Pow2(alignOrder) == 0 && m % Pow2(alignOrder) == 0
    ensures a <= s < a + Pow2(alignOrder) && s + n <= a + m < s + n + Pow2(alignOrder)
    ensures forall b :: a <= b < a + m ==> Covers(v.ranges, b)
    ensures forall b :: Covers(v'.ranges, b) <==> Covers(v.ranges, b) && !(a <= b < a + m)
    ensures v'.freeSize == v.freeSize - m
  {
    a, m := s, n;
    if alignOrder != 0 {
      AlignAddressAndSizeMeaning(s, n, alignOrder);
      a, m := AlignAddressAndSize(s, n, alignOrder).0, AlignAddressAndSize(s, n, alignOrder).1;
    }
    var k := ReserveSource(v, s, n, alignOrder, v');
    TakesFree(v.ranges, k, a, m);
  }

  /** Why a reservation without an alignment is refused: the counter is below the request; it begins with a byte that is not
      free, or with the last byte of a range while it asks for more; or it asks for all that is free, or neither begins
      nor ends with its range while the pool is full. */
  lemma ReserveFails(v: View, s: int, n: int, r: Outcome, v': View)
    requires Canonical(v.ranges) && n > 0 && Reservable(v, s, n, 0) && ReservePost(v, s, n, 0, r, v')
    ensures r.Err? ==> v' == v
    ensures r == Err(NoMemory) <==> v.freeSize < n
    ensures r == Err(InvalidRequest) <==> v.freeSize >= n && (!Covers(v.ranges, s) || (n != 1 && !Covers(v.ranges, s + 1)))
    ensures r == Err(NoEntry) <==>
              && v.freeSize >= n && Covers(v.ranges, s) && (n == 1 || Covers(v.ranges, s + 1))
              && (v.ranges == [Range(s, s + n - 1)]
                  || (|v.ranges| == POOL_SIZE && Covers(v.ranges, s - 1)
                      && forall k :: 0 <= k < |v.ranges| && v.ranges[k].Contains(s) ==> v.ranges[k].last != s + n - 1))
    ensures r.Err? ==> r == Err(NoMemory) || r == Err(InvalidRequest) || r == Err(NoEntry)
  {
    if v.freeSize >= n && Covers(v.ranges, s) {
      var k: nat :| k < |v.ranges| && v.ranges[k].Contains(s);
      assert TakenFrom(v, k, s, n, r, v') && Passes(v.ranges, k, s, n);
      PassesExactly(v.ranges, k, s, n);
      CoversNear(v.ranges, k, s, s + 1);
      CoversNear(v.ranges, k, s, s - 1);
      forall i | 0 <= i < |v.ranges| && v.ranges[i].Contains(s)
        ensures i == k
      {
        assert i < k ==> Precedes(v.ranges, i, k);
        assert k < i ==> Precedes(v.ranges, k, i);
      }
    }
  }

  /** Next to a free byte, a byte is free exactly if it lies in the same range. */
  lemma CoversNear(rs: seq<Range>, k: nat, b: int, c: int)
    requires Canonical(rs) && k < |rs| && rs[k].Contains(b) && (c == b + 1 || c == b - 1)
    ensures Covers(rs, c) <==> rs[k].Contains(c)
  {
    forall i | 0 <= i < |rs| && rs[i].Contains(c)
      ensures i == k
    {
      assert i < k ==> Precedes(rs, i, k);
      assert k < i ==> Precedes(rs, k, i);
    }
  }

  // ---------------------------------------------------------------- releasing

  /** The first release makes exactly its bytes free. */
  lemma SeedFrees(v: View, s: int, n: int, r: Outcome, v': View)
    requires v.freeSize == 0 && FreePost(v, s, n, r, v')
    ensures r == Ok(()) && v'.freeSize == n
    ensures forall b :: Covers(v'.ranges, b) <==> s <= b < s + n
  {
    Singleton(Range(s, s + n - 1));
  }

  lemma FreeOutcome(v: View, s: int, n: int, r: Outcome, v': View)
    requires v.freeSize != 0 && n > 0 && DisjointFrom(v.ranges, s, s + n - 1) && FreePost(v, s, n, r, v')
    ensures if r.Ok? then v' == View(Release(v.ranges, Below(v.ranges, s), s, s + n - 1), v.freeSize + 2 * n) else v' == v
  {
    DisjointNotEnclosed(v.ranges, s, s + n - 1);
  }

  lemma NotCovered(rs: seq<Range>, s: int, e: int, b: int)
    requires DisjointFrom(rs, s, e) && s <= b <= e
    ensures !Covers(rs, b)
  {
    forall k | 0 <= k < |rs|
      ensures !rs[k].Contains(b)
    {
      assert rs[k].Disjoint(s, e);
    }
  }

  lemma EnclosedIsCovered(rs: seq<Range>, s: int, e: int)
    requires EnclosedBy(rs, s, e)
    ensures forall b :: s <= b <= e ==> Covers(rs, b)
  {
    var k :| 0 <= k < |rs| && rs[k].Encloses(s, e);
    forall b | s <= b <= e
      ensures Covers(rs, b)
    {
      assert rs[k].Contains(b);
    }
  }

  /** A disjoint interval joins the range on its left, or on its right, exactly if the byte beside it is free. */
  lemma JoinsFree(rs: seq<Range>, s: int, e: int)
    requires Canonical(rs) && s <= e && DisjointFrom(rs, s, e)
    ensures JoinsLeft(rs, Below(rs, s), s) <==> Covers(rs, s - 1)
    ensures JoinsRight(rs, Below(rs, s), e) <==> Covers(rs, e + 1)
  {
    var j := Below(rs, s);
    Around(rs, s, e);
    if JoinsLeft(rs, j, s) {
      assert rs[j - 1].Contains(s - 1);
    }
    if JoinsRight(rs, j, e) {
      assert rs[j].Contains(e + 1);
    }
    forall k | 0 <= k < |rs| && (rs[k].Contains(s - 1) || rs[k].Contains(e + 1))
      ensures if rs[k].Contains(s - 1) then k == j - 1 else k == j
    {
      assert rs[k].Disjoint(s, e);
      assert k < j - 1 ==> Precedes(rs, k, j - 1);
      assert j < k ==> Precedes(rs, j, k);
    }
  }

  /** Every later release adds exactly its bytes to the free set; it is refused, without an effect, exactly if they are free
      already, or if they join no free range and the pool is full. */
  lemma FreeAdds(v: View, s: int, n: int, r: Outcome, v': View)
    requires Canonical(v.ranges) && v.freeSize != 0 && n > 0 && Releasable(v.ranges, s, n) && FreePost(v, s, n, r, v')
    ensures r.Ok? ==> forall b :: Covers(v'.ranges, b) <==> Covers(v.ranges, b) || s <= b < s + n
    ensures r.Ok? ==> forall b :: s <= b < s + n ==> !Covers(v.ranges, b)
    ensures r.Ok? ==> v'.freeSize == v.freeSize + 2 * n
    ensures r.Err? ==> v' == v && r == Err(if Covers(v.ranges, s) then InvalidRequest else NoEntry)
    ensures r.Err? <==> (forall b :: s <= b < s + n ==> Covers(v.ranges, b))
                        || (!Covers(v.ranges, s - 1) && !Covers(v.ranges, s + n) && |v.ranges| == POOL_SIZE)
  {
    if EnclosedBy(v.ranges, s, s + n - 1) {
      EnclosedIsCovered(v.ranges, s, s + n - 1);
    } else {
      JoinsFree(v.ranges, s, s + n - 1);
      NotCovered(v.ranges, s, s + n - 1, s);
      ReleaseAdds(v.ranges, s, s + n - 1);
      forall b | s <= b < s + n
        ensures !Covers(v.ranges, b)
      {
        NotCovered(v.ranges, s, s + n - 1, b);
      }
    }
  }

  // ---------------------------------------------------------------- the granule

  lemma GranularConcat(xs: seq<Range>, ys: seq<Range>, g: nat)
    ensures Granular(xs + ys, g) <==> Granular(xs, g) && Granular(ys, g)
  {
    var zs := xs + ys;
    if Granular(zs, g) {
      assert forall k :: 0 <= k < |xs| ==> zs[k] == xs[k];
      assert forall k :: 0 <= k < |ys| ==> zs[|xs| + k] == ys[k];
    }
  }

  lemma CarveGranular(rs: seq<Range>, k: nat, s: int, n: int, g: nat)
    requires Granular(rs, g) && k < |rs| && s % g == 0 && n % g == 0
    ensures Granular(Carve(rs, k, s, s + n - 1), g)
  {
    SumMod(s, n, g);
    assert rs == rs[..k] + rs[k..] && rs == rs[..k + 1] + rs[k + 1..];
    GranularConcat(rs[..k], rs[k..], g);
    GranularConcat(rs[..k + 1], rs[k + 1..], g);
    GranularConcat(rs[..k], Remains(rs[k], s, s + n - 1), g);
    GranularConcat(rs[..k] + Remains(rs[k], s, s + n - 1), rs[k + 1..], g);
  }

  lemma ReleaseGranular(rs: seq<Range>, j: nat, s: int, n: int, g: nat)
    requires Granular(rs, g) && j <= |rs| && s % g == 0 && n % g == 0
    ensures Granular(Release(rs, j, s, s + n - 1), g)
  {
    var e := s + n - 1;
    SumMod(s, n, g);
    ReleaseParts(rs, j, s, e);
    GranularConcat(LeftPart(rs, j, s) + Absorbed(rs, j, s, e), RightPart(rs, j, e), g);
    GranularConcat(LeftPart(rs, j, s), Absorbed(rs, j, s, e), g);
    GranularConcat(LeftPart(rs, j, s), [Joined(rs, j, s, e)], g);
    GranularConcat(LeftPart(rs, j, s) + [Joined(rs, j, s, e)], RightPart(rs, j, e), g);
  }

  /** Cuts at multiples of the granule leave no one-byte piece, so no assertion of the original can fail. */
  lemma GranularCut(r: Range, s: int, n: int, g: nat)
    requires g >= 2 && r.first % g == 0 && (r.last + 1) % g == 0 && s % g == 0 && n % g == 0 && n > 0
    requires r.Encloses(s, s + n - 1)
    ensures CleanCut(r, s, n)
  {
    SumMod(s, n, g);
    SumMod(s, r.first, g);
    SumMod(r.last + 1, s + n, g);
    if r.first < s { AtLeastGranule(s - r.first, g); }
    if s + n - 1 < r.last { AtLeastGranule(r.last + 1 - (s + n), g); }
  }

  /** For a request in whole granules that begins in a free range, the assertions hold if and only if it lies in
      that range, or a full pool refuses it first. */
  lemma GranularPasses(rs: seq<Range>, k: nat, s: int, n: int, g: nat)
    requires Granular(rs, g) && k < |rs| && rs[k].first < rs[k].last && rs[k].Contains(s)
    requires s % g == 0 && n % g == 0 && n > 0
    ensures Passes(rs, k, s, n) <==> rs[k].Encloses(s, s + n - 1) || (|rs| == POOL_SIZE && rs[k].first < s)
  {
    PassesExactly(rs, k, s, n);
    SumMod(rs[k].last + 1, s, g);
    AtLeastGranule(rs[k].last + 1 - s, g);
    if rs[k].Encloses(s, s + n - 1) {
      GranularCut(rs[k], s, n, g);
    }
  }

  lemma AtLeastGranule(d: int, g: nat)
    requires g >= 2 && d % g == 0 && d > 0
    ensures d >= g
  {
    if d < g {
      ModUnique(d, 0, d, g);
    }
  }

  lemma GranularAllocates(rs: seq<Range>, n: int, alignOrder: nat, gOrder: nat)
    requires Canonical(rs) && gOrder > 0 && Granular(rs, Pow2(gOrder)) && n > 0 && n % Pow2(gOrder) == 0
    ensures AllocatesCleanly(rs, n, alignOrder)
    ensures forall k :: 0 <= k < |rs| && Fits(rs[k], n, alignOrder) ==> Candidate(rs[k], alignOrder).0 % Pow2(gOrder) == 0
  {
    var g := Pow2(gOrder);
    forall k | 0 <= k < |rs| && Fits(rs[k], n, alignOrder)
      ensures Passes(rs, k, Candidate(rs[k], alignOrder).0, n)
      ensures Candidate(rs[k], alignOrder).0 % g == 0
    {
      CandidateInside(rs[k], n, alignOrder);
      CandidateGranular(rs[k], alignOrder, gOrder);
      GranularCut(rs[k], Candidate(rs[k], alignOrder).0, n, g);
      PassesExactly(rs, k, Candidate(rs[k], alignOrder).0, n);
    }
  }

  lemma CandidateGranular(r: Range, alignOrder: nat, gOrder: nat)
    requires 0 <= r.first < r.last && r.first % Pow2(gOrder) == 0
    ensures Candidate(r, alignOrder).0 % Pow2(gOrder) == 0
  {
    if alignOrder != 0 {
      AlignAddressAndAvailableSizeMeaning(r.first, r.Size(), alignOrder);
      var (a, n) := AlignAddressAndAvailableSize(r.first, r.Size(), alignOrder);
      if alignOrder <= gOrder {
        Pow2Divides(alignOrder, gOrder);
        MultipleOfMultiple(r.first, Pow2(gOrder), Pow2(alignOrder));
        assert a <= r.first;
      } else {
        Pow2Divides(gOrder, alignOrder);
        MultipleOfMultiple(a, Pow2(alignOrder), Pow2(gOrder));
      }
    }
  }

  /** An aligned reservation of a granular interval is granular. */
  lemma RequestedGranular(s: int, n: int, alignOrder: nat, gOrder: nat)
    requires n > 0 && s % Pow2(gOrder) == 0 && n % Pow2(gOrder) == 0
    ensures var (a, m) := Requested(s, n, alignOrder);
            a % Pow2(gOrder) == 0 && m % Pow2(gOrder) == 0 && m > 0 && a <= s && s + n <= a + m
  {
    if alignOrder != 0 {
      var (a, m) := AlignAddressAndSize(s, n, alignOrder);
      AlignAddressAndSizeMeaning(s, n, alignOrder);
      if alignOrder <= gOrder {
        Pow2Divides(alignOrder, gOrder);
        MultipleOfMultiple(s, Pow2(gOrder), Pow2(alignOrder));
        MultipleOfMultiple(n, Pow2(gOrder), Pow2(alignOrder));
        SumMod(s, a, Pow2(alignOrder));
        ModUnique(s - a, 0, s - a, Pow2(alignOrder));
        SumMod(m, n, Pow2(alignOrder));
        ModUnique(m - n, 0, m - n, Pow2(alignOrder));
      } else {
        Pow2Divides(gOrder, alignOrder);
        MultipleOfMultiple(a, Pow2(alignOrder), Pow2(gOrder));
        MultipleOfMultiple(m, Pow2(alignOrder), Pow2(gOrder));
      }
    }
  }
}
