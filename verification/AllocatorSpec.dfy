/**
 What the allocator's operations do to the sequence of free ranges and to the free-size
 counter. The methods of the allocator are proved against these relations; the properties
 of runs are proved from them.
 */
module AllocatorSpec {
  import opened Wrappers
  import opened FreeRanges
  import opened PageOrders
  import opened MemoryPool

  /** The part of the allocator's state a caller can tell apart. */
  datatype View = View(ranges: seq<Range>, freeSize: int)

  type Outcome = Result<(), MemoryError>

  /** `set_range` asserts that a range begins before it ends. */
  predicate CanSetRange(start: int, end: int) {
    start < end
  }

  /** Every range that is set when n bytes at s are taken out of range k, branch by branch. A full pool is noticed first. */
  predicate Passes(rs: seq<Range>, k: nat, s: int, n: int)
    requires k < |rs|
  {
    var r, e := rs[k], s + n - 1;
    if r.first == s then r.last == e || CanSetRange(s + n, r.last)
    else if r.last == s then n != 1 || CanSetRange(r.first, s - 1)
    else if r.last == e then CanSetRange(r.first, s - 1)
    else |rs| == POOL_SIZE || (CanSetRange(s + n, r.last) && CanSetRange(r.first, s - 1))
  }

  /** The bytes lie in the range, and no piece of one byte is left over. */
  predicate CleanCut(r: Range, s: int, n: int) {
    var e := s + n - 1;
    r.Encloses(s, e) && (r.first < s ==> r.first < s - 1) && (e < r.last ==> e + 1 < r.last)
  }

  /** A request that is refused after its range has been found. */
  predicate Refused(rs: seq<Range>, k: nat, s: int, n: int)
    requires k < |rs|
  {
    && rs[k].first < s
    && ((s == rs[k].last && n != 1) || (s < rs[k].last && s + n - 1 != rs[k].last && |rs| == POOL_SIZE))
  }

  /** No assertion fails if and only if the bytes can be taken cleanly, or the request is refused. */
  lemma PassesExactly(rs: seq<Range>, k: nat, s: int, n: int)
    requires k < |rs| && rs[k].first < rs[k].last && rs[k].Contains(s) && n > 0
    ensures Passes(rs, k, s, n) <==> CleanCut(rs[k], s, n) || Refused(rs, k, s, n)
  {
  }

  /** A request that begins in a free range and runs past its end: the assertion does fail. */
  lemma OverrunFails()
    ensures !Passes([Range(0, 0xFFF)], 0, 0x800, 0x1000)
  {
  }

  ghost predicate CleanCuts(rs: seq<Range>, s: int, n: int) {
    forall k :: 0 <= k < |rs| && rs[k].Contains(s) ==> Passes(rs, k, s, n)
  }

  /** Taking n bytes at s out of range k. */
  ghost predicate TakenFrom(v: View, k: nat, s: int, n: int, r: Outcome, v': View)
    requires k < |v.ranges|
  {
    var e := s + n - 1;
    var range := v.ranges[k];
    if s == range.last && n != 1 then
      r == Err(InvalidRequest) && v' == v
    else if range == Range(s, e) && |v.ranges| == 1 then
      r == Err(NoEntry) && v' == v
    else if range.first < s && e != range.last && |v.ranges| == POOL_SIZE then
      r == Err(NoEntry) && v' == v
    else
      r == Ok(()) && v' == View(Carve(v.ranges, k, s, e), v.freeSize - n)
  }

  /** Taking bytes moves the counter with the free bytes, and never takes the last of them. */
  lemma TakenTotal(rs: seq<Range>, freeSize: int, k: nat, s: int, n: int, r: Outcome, rs': seq<Range>)
    requires Canonical(rs) && k < |rs| && rs[k].Contains(s) && n > 0 && Passes(rs, k, s, n)
    requires TakenFrom(View(rs, n), k, s, n, r, View(rs', if r.Ok? then 0 else n))
    ensures rs' != []
    ensures Total(rs') == if r.Ok? then Total(rs) - n else Total(rs)
    ensures TakenFrom(View(rs, freeSize), k, s, n, r, View(rs', if r.Ok? then freeSize - n else freeSize))
  {
    PassesExactly(rs, k, s, n);
    if r.Ok? {
      CarveRemoves(rs, k, s, s + n - 1);
      CarveLength(rs, k, s, s + n - 1);
    }
  }

  lemma CarveLength(rs: seq<Range>, k: nat, s: int, e: int)
    requires k < |rs| && rs[k].Encloses(s, e)
    ensures Carve(rs, k, s, e) == [] <==> |rs| == 1 && rs[k] == Range(s, e)
  {
  }

  /** A cut from one side shortens the range in place. */
  lemma CarveSide(rs: seq<Range>, k: nat, s: int, e: int, r: Range)
    requires Canonical(rs) && k < |rs| && rs[k].Encloses(s, e) && s <= e && CleanCut(rs[k], s, e - s + 1)
    requires Remains(rs[k], s, e) == [r]
    ensures Carve(rs, k, s, e) == rs[k := r] && Canonical(rs[k := r])
  {
    CarveRemoves(rs, k, s, e);
    assert rs[k := r] == rs[..k] + [r] + rs[k + 1..];
  }

  /** Taking n bytes at s, wherever they lie. */
  ghost predicate Taken(v: View, s: int, n: int, r: Outcome, v': View) {
    if n == 0 then
      r == Err(InvalidRequest) && v' == v
    else if v.freeSize < n then
      r == Err(NoMemory) && v' == v
    else
      && (!Covers(v.ranges, s) ==> r == Err(InvalidRequest) && v' == v)
      && (forall k :: 0 <= k < |v.ranges| && v.ranges[k].Contains(s) ==> TakenFrom(v, k, s, n, r, v'))
  }

  /** What `reserve_memory` takes when an alignment order is given. */
  function Requested(s: int, n: int, alignOrder: nat): (int, int) {
    if alignOrder == 0 then (s, n) else AlignAddressAndSize(s, n, alignOrder)
  }

  /** No assertion fails in a reservation. */
  ghost predicate Reservable(v: View, s: int, n: int, alignOrder: nat) {
    0 < n <= v.freeSize ==>
      var (a, m) := Requested(s, n, alignOrder);
      m <= v.freeSize ==> CleanCuts(v.ranges, a, m)
  }

  ghost predicate ReservePost(v: View, s: int, n: int, alignOrder: nat, r: Outcome, v': View) {
    if n == 0 then
      r == Err(InvalidRequest) && v' == v
    else if v.freeSize < n then
      r == Err(NoMemory) && v' == v
    else
      var (a, m) := Requested(s, n, alignOrder);
      Taken(v, a, m, r, v')
  }

  /** A release the allocator is meant for: of bytes that are all allocated, or all free already. */
  ghost predicate Releasable(rs: seq<Range>, s: int, n: int) {
    var e := s + n - 1;
    && 0 <= s
    && s + n < ADDRESS_LIMIT
    && (|| EnclosedBy(rs, s, e)
        || (DisjointFrom(rs, s, e) && (n == 1 ==> JoinsLeft(rs, Below(rs, s), s) || JoinsRight(rs, Below(rs, s), e))))
  }

  /** Releasing n bytes at s; the counter grows by `credit`. */
  ghost predicate Given(v: View, s: int, n: int, credit: int, r: Outcome, v': View) {
    var e := s + n - 1;
    var j := Below(v.ranges, s);
    if n == 0 || EnclosedBy(v.ranges, s, e) then
      r == Err(InvalidRequest) && v' == v
    else if !JoinsLeft(v.ranges, j, s) && !JoinsRight(v.ranges, j, e) && |v.ranges| == POOL_SIZE then
      r == Err(NoEntry) && v' == v
    else
      r == Ok(()) && v' == View(Release(v.ranges, j, s, e), v.freeSize + credit)
  }

  /** `free`: the first call seeds the list, every later one credits the released size twice. */
  ghost predicate FreePost(v: View, s: int, n: int, r: Outcome, v': View) {
    if v.freeSize == 0 then
      r == Ok(()) && v' == View([Range(s, s + n - 1)], n)
    else
      Given(v, s, n, 2 * n, r, v')
  }

  // ---------------------------------------------------------------- allocation

  /** Where in the range r an allocation of n bytes would start, and how much is available from there. */
  function Candidate(r: Range, alignOrder: nat): (int, int) {
    if alignOrder == 0 then (r.first, r.Size()) else AlignAddressAndAvailableSize(r.first, r.Size(), alignOrder)
  }

  predicate Fits(r: Range, n: int, alignOrder: nat) {
    r.Size() >= n && Candidate(r, alignOrder).1 >= n
  }

  /** Range k is one that `allocate` may choose: it fits, and no range that fits is smaller. */
  ghost predicate Chosen(rs: seq<Range>, k: nat, n: int, alignOrder: nat) {
    && k < |rs|
    && Fits(rs[k], n, alignOrder)
    && forall i :: 0 <= i < |rs| && Fits(rs[i], n, alignOrder) ==> rs[k].Size() <= rs[i].Size()
  }

  ghost predicate AllocatedFrom(v: View, k: nat, n: int, alignOrder: nat, r: Result<int, MemoryError>, v': View)
    requires k < |v.ranges|
  {
    var a := Candidate(v.ranges[k], alignOrder).0;
    Passes(v.ranges, k, a, n) &&
    match r
    case Ok(address) => address == a && TakenFrom(v, k, a, n, Ok(()), v')
    case Err(error) => TakenFrom(v, k, a, n, Err(error), v')
  }

  ghost predicate AllocatePost(v: View, n: int, alignOrder: nat, r: Result<int, MemoryError>, v': View) {
    if n == 0 then
      r == Err(InvalidRequest) && v' == v
    else if v.freeSize <= n then
      r == Err(NoMemory) && v' == v
    else if forall k :: 0 <= k < |v.ranges| ==> !Fits(v.ranges[k], n, alignOrder) then
      r == Err(NoMemory) && v' == v
    else
      exists k: nat :: Chosen(v.ranges, k, n, alignOrder) && AllocatedFrom(v, k, n, alignOrder, r, v')
  }

  /** Every bound of every free range is a multiple of the granule. */
  ghost predicate Granular(rs: seq<Range>, granule: nat) {
    && granule >= 2
    && forall k :: 0 <= k < |rs| ==> rs[k].first % granule == 0 && (rs[k].last + 1) % granule == 0
  }

  /** No assertion fails in an allocation of n bytes, whichever of the smallest ranges that fit it is made from. */
  ghost predicate AllocatesCleanly(rs: seq<Range>, n: int, alignOrder: nat) {
    forall k: nat :: Chosen(rs, k, n, alignOrder) ==> Passes(rs, k, Candidate(rs[k], alignOrder).0, n)
  }

  /** An allocation starts inside the range it is taken from, and ends inside it. */
  lemma CandidateInside(r: Range, n: int, alignOrder: nat)
    requires 0 <= r.first < r.last && n > 0 && Fits(r, n, alignOrder)
    ensures var a := Candidate(r, alignOrder).0; r.Encloses(a, a + n - 1) && r.Contains(a)
    ensures alignOrder != 0 ==> Candidate(r, alignOrder).0 % Pow2(alignOrder) == 0
  {
    if alignOrder != 0 {
      AlignAddressAndAvailableSizeMeaning(r.first, r.Size(), alignOrder);
    }
  }

  // ---------------------------------------------------------------- releasing

  /** Where the entry found by the previous-address search (the first entry if there is none) lies. */
  ghost predicate Found(rs: seq<Range>, j: nat, k: nat, s: int) {
    && IsBelow(rs, j, s)
    && k < |rs|
    && k == (if 0 < j == |rs| && s < rs[j - 1].last then (if j > 1 then j - 2 else 0) else if j > 0 then j - 1 else 0)
  }

  /** A disjoint release goes right behind the entry found, or before the first entry. */
  ghost predicate Beside(rs: seq<Range>, j: nat, k: nat, s: int, e: int) {
    && j <= |rs| && k < |rs|
    && (forall i :: 0 <= i < j ==> rs[i].last < s)
    && (forall i :: j <= i < |rs| ==> e < rs[i].first)
    && k == (if j > 0 then j - 1 else 0)
  }

  /** The search leads a release to one of three places, whichever entry it lands on. */
  lemma Approach(rs: seq<Range>, j: nat, k: nat, s: int, n: int)
    requires Canonical(rs) && n > 0 && Releasable(rs, s, n) && Found(rs, j, k, s)
    ensures j == Below(rs, s)
    ensures EnclosedBy(rs, s, s + n - 1) ==>
              || rs[k].Encloses(s, s + n - 1)
              || (k + 1 < |rs| && rs[k].last + 1 < rs[k + 1].first && rs[k + 1].Encloses(s, s + n - 1))
    ensures !EnclosedBy(rs, s, s + n - 1) ==> DisjointFrom(rs, s, s + n - 1) && Beside(rs, j, k, s, s + n - 1)
  {
    BelowUnique(rs, s, j);
    if k + 1 < |rs| { assert Precedes(rs, k, k + 1); }
    if EnclosedBy(rs, s, s + n - 1) {
      var m :| 0 <= m < |rs| && rs[m].Encloses(s, s + n - 1);
      EnclosedPlace(rs, j, m, s);
    } else {
      Around(rs, s, s + n - 1);
    }
  }

  lemma EnclosedPlace(rs: seq<Range>, j: nat, m: nat, s: int)
    requires Canonical(rs) && IsBelow(rs, j, s) && m < |rs| && rs[m].Contains(s)
    ensures m == if rs[m].first == s then j else j - 1
  {
    assert j < m ==> Precedes(rs, j, m);
    assert m < j - 1 ==> Precedes(rs, m, j - 1);
  }

  /** A disjoint release between ranges j - 1 and j. */
  ghost predicate ReleasedAt(rs: seq<Range>, j: nat, s: int, e: int, r: Outcome, rs': seq<Range>)
    requires j <= |rs|
  {
    if !JoinsLeft(rs, j, s) && !JoinsRight(rs, j, e) && |rs| == POOL_SIZE then
      r == Err(NoEntry) && rs' == rs
    else
      r == Ok(()) && rs' == Release(rs, j, s, e)
  }

  /** A disjoint release moves the counter with the free bytes. */
  lemma GivenTotal(rs: seq<Range>, freeSize: int, j: nat, s: int, e: int, r: Outcome, rs': seq<Range>)
    requires Canonical(rs) && 0 <= s <= e && e + 1 < ADDRESS_LIMIT && DisjointFrom(rs, s, e) && j == Below(rs, s)
    requires s == e ==> JoinsLeft(rs, j, s) || JoinsRight(rs, j, e)
    requires ReleasedAt(rs, j, s, e, r, rs')
    ensures Total(rs') == if r.Ok? then Total(rs) + (e - s + 1) else Total(rs)
    ensures Given(View(rs, freeSize), s, e - s + 1, e - s + 1, r, View(rs', if r.Ok? then freeSize + (e - s + 1) else freeSize))
    ensures rs != [] ==> rs' != []
  {
    DisjointNotEnclosed(rs, s, e);
    ReleaseTotal(rs, j, s, e);
  }

  lemma DisjointNotEnclosed(rs: seq<Range>, s: int, e: int)
    requires s <= e && DisjointFrom(rs, s, e)
    ensures !EnclosedBy(rs, s, e)
  {
  }

  lemma ReleaseTotal(rs: seq<Range>, j: nat, s: int, e: int)
    requires Canonical(rs) && 0 <= s <= e && e + 1 < ADDRESS_LIMIT && DisjointFrom(rs, s, e) && j == Below(rs, s)
    requires s == e ==> JoinsLeft(rs, j, s) || JoinsRight(rs, j, e)
    ensures Total(Release(rs, j, s, e)) == Total(rs) + (e - s + 1)
    ensures Release(rs, j, s, e) != []
  {
    ReleaseAdds(rs, s, e);
  }
}
