/**
 Whole runs of the allocator and its clients: who owns which bytes. A client frees only what
 it was given; reserved regions (the devicetree blob, program segments, the stack) are never
 freed. A request is only made where no assertion of the allocator fails; that this is so for every
 request in multiples of a granule 2^gOrder >= 2 is proved at the end.
 */
module AllocatorSystem {
  import opened Wrappers
  import opened Arithmetic
  import opened FreeRanges
  import opened PageOrders
  import opened MemoryPool
  import opened AllocatorSpec
  import opened AllocatorRuns

  /** Bytes handed out: to a client, or reserved for good. */
  datatype Holding = Holding(start: int, size: int, reserved: bool) {
    function End(): int {
      start + size - 1
    }
  }

  /** `surplus` is what `free_size` has been credited too much. */
  datatype System = System(view: View, surplus: int, held: seq<Holding>)

  datatype Op =
    | AllocateOp(size: int, alignOrder: nat)
    | ReserveOp(start: int, size: int, alignOrder: nat)
    | FreeOp(index: nat)

  ghost predicate DisjointHoldings(a: Holding, b: Holding) {
    a.End() < b.start || b.End() < a.start
  }

  ghost predicate GoodHolding(h: Holding, rs: seq<Range>) {
    h.size > 0 && DisjointFrom(rs, h.start, h.End()) && 0 <= h.start && h.End() + 1 < ADDRESS_LIMIT
  }

  /** Holdings are disjoint from the free set and from each other. */
  ghost predicate Owned(held: seq<Holding>, rs: seq<Range>) {
    && (forall i :: 0 <= i < |held| ==> GoodHolding(held[i], rs))
    && (forall i, j :: 0 <= i < j < |held| ==> DisjointHoldings(held[i], held[j]))
  }

  function HeldBytes(held: seq<Holding>, n: nat): int
    requires n <= |held|
  {
    if n == 0 then 0 else HeldBytes(held, n - 1) + held[n - 1].size
  }

  /** What holds in every state of every run that began with `total` bytes. */
  ghost predicate Safe(sys: System, total: int) {
    var rs := sys.view.ranges;
    && Canonical(rs) && rs != []
    && sys.surplus >= 0
    && sys.view.freeSize == Total(rs) + sys.surplus
    && Owned(sys.held, rs)
    && Total(rs) + HeldBytes(sys.held, |sys.held|) == total
  }

  // ---------------------------------------------------------------- steps

  function Dropped(held: seq<Holding>, i: nat): seq<Holding>
    requires i < |held|
  {
    held[..i] + held[i + 1..]
  }

  ghost predicate AllocateStep(sys: System, n: int, alignOrder: nat, sys': System) {
    && 0 <= n
    && exists r: Result<int, MemoryError> ::
         && AllocatePost(sys.view, n, alignOrder, r, sys'.view)
         && sys'.surplus == sys.surplus
         && sys'.held == if r.Ok? then sys.held + [Holding(r.value, n, false)] else sys.held
  }

  ghost predicate ReserveStep(sys: System, s: int, n: int, alignOrder: nat, sys': System) {
    && 0 <= n && Reservable(sys.view, s, n, alignOrder)
    && exists r: Outcome ::
         && ReservePost(sys.view, s, n, alignOrder, r, sys'.view)
         && sys'.surplus == sys.surplus
         && var (a, m) := Requested(s, n, alignOrder);
            sys'.held == if r.Ok? then sys.held + [Holding(a, m, true)] else sys.held
  }

  ghost predicate FreeStep(sys: System, i: nat, sys': System) {
    && i < |sys.held| && !sys.held[i].reserved
    && Releasable(sys.view.ranges, sys.held[i].start, sys.held[i].size)
    && exists r: Outcome ::
         && FreePost(sys.view, sys.held[i].start, sys.held[i].size, r, sys'.view)
         && sys'.surplus == (if r.Ok? then sys.surplus + sys.held[i].size else sys.surplus)
         && sys'.held == if r.Ok? then Dropped(sys.held, i) else sys.held
  }

  ghost predicate Step(sys: System, op: Op, sys': System) {
    match op
    case AllocateOp(n, alignOrder) => AllocateStep(sys, n, alignOrder, sys')
    case ReserveOp(s, n, alignOrder) => ReserveStep(sys, s, n, alignOrder, sys')
    case FreeOp(i) => FreeStep(sys, i, sys')
  }

  /** The state after the first `free` on an empty allocator has seeded it. */
  ghost predicate Seeded(sys: System, s: int, n: int) {
    && 0 <= s && 2 <= n && s + n < ADDRESS_LIMIT
    && FreePost(View([], 0), s, n, Ok(()), sys.view)
    && sys.surplus == 0 && sys.held == []
  }

  ghost predicate Run(states: seq<System>, ops: seq<Op>) {
    && |states| == |ops| + 1
    && forall i :: 0 <= i < |ops| ==> Step(states[i], ops[i], states[i + 1])
  }

  // ---------------------------------------------------------------- every step keeps safety

  lemma {:induction false} HeldBytesPrefix(xs: seq<Holding>, ys: seq<Holding>, n: nat)
    requires n <= |xs| && n <= |ys| && xs[..n] == ys[..n]
    ensures HeldBytes(xs, n) == HeldBytes(ys, n)
  {
    if n > 0 {
      assert xs[n - 1] == xs[..n][n - 1] == ys[n - 1];
      assert xs[..n - 1] == xs[..n][..n - 1] == ys[..n - 1];
      HeldBytesPrefix(xs, ys, n - 1);
    }
  }

  lemma HeldBytesMore(held: seq<Holding>, h: Holding)
    ensures HeldBytes(held + [h], |held + [h]|) == HeldBytes(held, |held|) + h.size
  {
    HeldBytesPrefix(held + [h], held, |held|);
  }

  lemma {:induction false} HeldBytesDropped(held: seq<Holding>, i: nat, n: nat)
    requires i < n <= |held|
    ensures HeldBytes(Dropped(held, i), n - 1) == HeldBytes(held, n) - held[i].size
  {
    var rest := Dropped(held, i);
    if n - 1 == i {
      assert rest[..i] == held[..i];
      HeldBytesPrefix(rest, held, i);
    } else {
      assert rest[n - 2] == held[n - 1];
      HeldBytesDropped(held, i, n - 1);
    }
  }

  /** Carving [a, a + n) for a new holding out of range k. */
  lemma HoldMore(sys: System, total: int, k: nat, a: int, n: int, reserved: bool, sys': System)
    requires Safe(sys, total) && k < |sys.view.ranges| && n > 0
    requires sys.view.ranges[k].Encloses(a, a + n - 1) && CleanCut(sys.view.ranges[k], a, n)
    requires sys.view.ranges[k] == Range(a, a + n - 1) ==> |sys.view.ranges| > 1
    requires sys' == System(View(Carve(sys.view.ranges, k, a, a + n - 1), sys.view.freeSize - n), sys.surplus,
                            sys.held + [Holding(a, n, reserved)])
    ensures Safe(sys', total)
  {
    var rs := sys.view.ranges;
    TakesFree(rs, k, a, n);
    HeldBytesMore(sys.held, Holding(a, n, reserved));
    CanonicalBounds(rs, k);
    OwnedMore(sys.held, rs, k, a, n, reserved);
  }

  lemma OwnedMore(held: seq<Holding>, rs: seq<Range>, k: nat, a: int, n: int, reserved: bool)
    requires Canonical(rs) && k < |rs| && n > 0 && rs[k].Encloses(a, a + n - 1)
    requires Owned(held, rs) && GoodHolding(Holding(a, n, reserved), Carve(rs, k, a, a + n - 1))
    requires Canonical(Carve(rs, k, a, a + n - 1))
    requires forall b :: Covers(Carve(rs, k, a, a + n - 1), b) ==> Covers(rs, b)
    ensures Owned(held + [Holding(a, n, reserved)], Carve(rs, k, a, a + n - 1))
  {
    forall i | 0 <= i < |held|
      ensures GoodHolding(held[i], Carve(rs, k, a, a + n - 1))
      ensures DisjointHoldings(held[i], Holding(a, n, reserved))
    {
      StaysDisjoint(rs, Carve(rs, k, a, a + n - 1), held[i].start, held[i].End());
      assert rs[k].Disjoint(held[i].start, held[i].End());
    }
  }

  lemma StaysDisjoint(rs: seq<Range>, rs': seq<Range>, s: int, e: int)
    requires Canonical(rs') && s <= e && DisjointFrom(rs, s, e)
    requires forall b :: s <= b <= e && Covers(rs', b) ==> Covers(rs, b)
    ensures DisjointFrom(rs', s, e)
  {
    forall b | s <= b <= e
      ensures !Covers(rs', b)
    {
      NotCovered(rs, s, e, b);
    }
    UncoveredIsDisjoint(rs', s, e);
  }

  lemma AllocateKeepsSafe(sys: System, total: int, n: int, alignOrder: nat, sys': System)
    requires Safe(sys, total) && AllocateStep(sys, n, alignOrder, sys')
    ensures Safe(sys', total)
  {
    var r: Result<int, MemoryError> :|
      && AllocatePost(sys.view, n, alignOrder, r, sys'.view)
      && sys'.surplus == sys.surplus
      && sys'.held == if r.Ok? then sys.held + [Holding(r.value, n, false)] else sys.held;
    match r
    case Ok(a) =>
      var k := Source(sys.view, n, alignOrder, a, sys'.view);
      HoldMore(sys, total, k, a, n, false, sys');
    case Err(e) =>
      AllocateError(sys.view, n, alignOrder, e, sys'.view);
  }

  lemma AllocateError(v: View, n: int, alignOrder: nat, e: MemoryError, v': View)
    requires AllocatePost(v, n, alignOrder, Err(e), v')
    ensures v' == v
  {
  }

  lemma ReserveKeepsSafe(sys: System, total: int, s: int, n: int, alignOrder: nat, sys': System)
    requires Safe(sys, total) && ReserveStep(sys, s, n, alignOrder, sys')
    ensures Safe(sys', total)
  {
    var (a, m) := Requested(s, n, alignOrder);
    var r: Outcome :|
      && ReservePost(sys.view, s, n, alignOrder, r, sys'.view)
      && sys'.surplus == sys.surplus
      && sys'.held == if r.Ok? then sys.held + [Holding(a, m, true)] else sys.held;
    if r.Ok? {
      if alignOrder != 0 {
        AlignAddressAndSizeMeaning(s, n, alignOrder);
      }
      var k := ReserveSource(sys.view, s, n, alignOrder, sys'.view);
      HoldMore(sys, total, k, a, m, true, sys');
    } else {
      ReserveError(sys.view, s, n, alignOrder, r, sys'.view);
    }
  }

  lemma FreeKeepsSafe(sys: System, total: int, i: nat, sys': System)
    requires Safe(sys, total) && FreeStep(sys, i, sys')
    ensures Safe(sys', total)
  {
    var h := sys.held[i];
    var r: Outcome :|
      && FreePost(sys.view, h.start, h.size, r, sys'.view)
      && sys'.surplus == (if r.Ok? then sys.surplus + h.size else sys.surplus)
      && sys'.held == if r.Ok? then Dropped(sys.held, i) else sys.held;
    TotalPositive(sys.view.ranges);
    FreeOutcome(sys.view, h.start, h.size, r, sys'.view);
    if r.Ok? {
      LetGo(sys, total, i, sys');
    }
  }

  lemma LetGo(sys: System, total: int, i: nat, sys': System)
    requires Safe(sys, total) && i < |sys.held| && Releasable(sys.view.ranges, sys.held[i].start, sys.held[i].size)
    requires var h := sys.held[i];
             sys' == System(View(Release(sys.view.ranges, Below(sys.view.ranges, h.start), h.start, h.End()),
                                 sys.view.freeSize + 2 * h.size),
                            sys.surplus + h.size, Dropped(sys.held, i))
    ensures Safe(sys', total)
  {
    var h, rs := sys.held[i], sys.view.ranges;
    DisjointNotEnclosed(rs, h.start, h.End());
    ReleaseAdds(rs, h.start, h.End());
    HeldBytesDropped(sys.held, i, |sys.held|);
    OwnedLess(sys.held, i, rs, sys'.view.ranges);
  }

  lemma OwnedLess(held: seq<Holding>, i: nat, rs: seq<Range>, rs': seq<Range>)
    requires i < |held| && Canonical(rs')
    requires forall b :: Covers(rs', b) ==> Covers(rs, b) || held[i].start <= b <= held[i].End()
    requires Owned(held, rs)
    ensures Owned(Dropped(held, i), rs')
  {
    var rest := Dropped(held, i);
    assert forall j :: 0 <= j < |rest| ==> rest[j] == held[if j < i then j else j + 1];
    forall j | 0 <= j < |rest|
      ensures GoodHolding(rest[j], rs')
    {
      var o := held[if j < i then j else j + 1];
      assert DisjointHoldings(o, held[i]);
      StaysDisjoint(rs, rs', o.start, o.End());
    }
  }

  lemma StepKeepsSafe(sys: System, total: int, op: Op, sys': System)
    requires Safe(sys, total) && Step(sys, op, sys')
    ensures Safe(sys', total)
  {
    match op
    case AllocateOp(n, alignOrder) => AllocateKeepsSafe(sys, total, n, alignOrder, sys');
    case ReserveOp(s, n, alignOrder) => ReserveKeepsSafe(sys, total, s, n, alignOrder, sys');
    case FreeOp(i) => FreeKeepsSafe(sys, total, i, sys');
  }

  lemma SeededIsSafe(sys: System, s: int, n: int)
    requires Seeded(sys, s, n)
    ensures Safe(sys, n)
  {
    Singleton(Range(s, s + n - 1));
  }

  /** In every state of every run: holdings are disjoint from each other and from the free set, the bytes
      are conserved, the counter is at least the free bytes, and the list is never empty. */
  lemma {:induction false} RunIsSafe(states: seq<System>, ops: seq<Op>, s: int, n: int, i: nat)
    requires Run(states, ops) && Seeded(states[0], s, n) && i < |states|
    ensures Safe(states[i], n)
  {
    if i == 0 {
      SeededIsSafe(states[0], s, n);
    } else {
      RunIsSafe(states, ops, s, n, i - 1);
      StepKeepsSafe(states[i - 1], n, ops[i - 1], states[i]);
    }
  }

  // ---------------------------------------------------------------- every byte

  /** Byte b belongs to holding i. */
  predicate HeldAt(held: seq<Holding>, i: nat, b: int) {
    i < |held| && held[i].start <= b < held[i].start + held[i].size
  }

  ghost predicate Held(held: seq<Holding>, b: int) {
    exists i: nat :: HeldAt(held, i, b)
  }

  /** The bytes from s to s + n - 1, and no others, are free or held. */
  ghost predicate Accounted(sys: System, s: int, n: int) {
    forall b :: Covers(sys.view.ranges, b) || Held(sys.held, b) <==> s <= b < s + n
  }

  /** Free bytes become a holding. */
  lemma AccountHeld(sys: System, s: int, n: int, h: Holding, sys': System)
    requires Accounted(sys, s, n) && sys'.held == sys.held + [h]
    requires forall b :: h.start <= b < h.start + h.size ==> Covers(sys.view.ranges, b)
    requires forall b :: Covers(sys'.view.ranges, b) <==> Covers(sys.view.ranges, b) && !(h.start <= b < h.start + h.size)
    ensures Accounted(sys', s, n)
  {
    forall b
      ensures Covers(sys'.view.ranges, b) || Held(sys'.held, b) <==> s <= b < s + n
    {
      assert Covers(sys.view.ranges, b) || Held(sys.held, b) <==> s <= b < s + n;
      if h.start <= b < h.start + h.size {
        assert HeldAt(sys'.held, |sys.held|, b);
      }
      if i: nat :| HeldAt(sys.held, i, b) {
        assert HeldAt(sys'.held, i, b);
      }
      if i: nat :| HeldAt(sys'.held, i, b) {
        assert i < |sys.held| ==> HeldAt(sys.held, i, b);
      }
    }
  }

  /** A holding becomes free. */
  lemma AccountFreed(sys: System, s: int, n: int, i: nat, sys': System)
    requires Accounted(sys, s, n) && i < |sys.held| && sys'.held == Dropped(sys.held, i)
    requires forall b :: Covers(sys'.view.ranges, b) <==> Covers(sys.view.ranges, b) || HeldAt(sys.held, i, b)
    ensures Accounted(sys', s, n)
  {
    forall b
      ensures Held(sys.held, b) <==> Held(sys'.held, b) || HeldAt(sys.held, i, b)
    {
      if j: nat :| HeldAt(sys'.held, j, b) {
        assert HeldAt(sys.held, if j < i then j else j + 1, b);
      }
      if j: nat :| HeldAt(sys.held, j, b) && j != i {
        assert HeldAt(sys'.held, if j < i then j else j - 1, b);
      }
    }
  }

  lemma AllocateAccounts(sys: System, total: int, s: int, n: int, m: int, alignOrder: nat, sys': System)
    requires Safe(sys, total) && AllocateStep(sys, m, alignOrder, sys') && Accounted(sys, s, n)
    ensures Accounted(sys', s, n)
  {
    var r: Result<int, MemoryError> :|
      && AllocatePost(sys.view, m, alignOrder, r, sys'.view)
      && sys'.surplus == sys.surplus
      && sys'.held == if r.Ok? then sys.held + [Holding(r.value, m, false)] else sys.held;
    match r
    case Ok(a) =>
      AllocateRemoves(sys.view, m, alignOrder, a, sys'.view);
      AccountHeld(sys, s, n, Holding(a, m, false), sys');
    case Err(e) =>
      AllocateError(sys.view, m, alignOrder, e, sys'.view);
  }

  lemma ReserveAccounts(sys: System, total: int, s: int, n: int, start: int, m: int, alignOrder: nat, sys': System)
    requires Safe(sys, total) && ReserveStep(sys, start, m, alignOrder, sys') && Accounted(sys, s, n)
    ensures Accounted(sys', s, n)
  {
    var (a, size) := Requested(start, m, alignOrder);
    var r: Outcome :|
      && ReservePost(sys.view, start, m, alignOrder, r, sys'.view)
      && sys'.surplus == sys.surplus
      && sys'.held == if r.Ok? then sys.held + [Holding(a, size, true)] else sys.held;
    if r.Ok? {
      if alignOrder != 0 {
        AlignAddressAndSizeMeaning(start, m, alignOrder);
      }
      var k := ReserveSource(sys.view, start, m, alignOrder, sys'.view);
      TakesFree(sys.view.ranges, k, a, size);
      AccountHeld(sys, s, n, Holding(a, size, true), sys');
    } else {
      ReserveError(sys.view, start, m, alignOrder, r, sys'.view);
    }
  }

  lemma FreeAccounts(sys: System, total: int, s: int, n: int, i: nat, sys': System)
    requires Safe(sys, total) && FreeStep(sys, i, sys') && Accounted(sys, s, n)
    ensures Accounted(sys', s, n)
  {
    var h := sys.held[i];
    var r: Outcome :|
      && FreePost(sys.view, h.start, h.size, r, sys'.view)
      && sys'.surplus == (if r.Ok? then sys.surplus + h.size else sys.surplus)
      && sys'.held == if r.Ok? then Dropped(sys.held, i) else sys.held;
    TotalPositive(sys.view.ranges);
    FreeAdds(sys.view, h.start, h.size, r, sys'.view);
    if r.Ok? {
      AccountFreed(sys, s, n, i, sys');
    }
  }

  lemma StepAccounts(sys: System, total: int, s: int, n: int, op: Op, sys': System)
    requires Safe(sys, total) && Step(sys, op, sys') && Accounted(sys, s, n)
    ensures Accounted(sys', s, n)
  {
    match op
    case AllocateOp(m, alignOrder) => AllocateAccounts(sys, total, s, n, m, alignOrder, sys');
    case ReserveOp(start, m, alignOrder) => ReserveAccounts(sys, total, s, n, start, m, alignOrder, sys');
    case FreeOp(i) => FreeAccounts(sys, total, s, n, i, sys');
  }

  lemma SeededAccounts(sys: System, s: int, n: int)
    requires Seeded(sys, s, n)
    ensures Accounted(sys, s, n)
  {
    SeedFrees(View([], 0), s, n, Ok(()), sys.view);
  }

  lemma {:induction false} RunAccounts(states: seq<System>, ops: seq<Op>, s: int, n: int, i: nat)
    requires Run(states, ops) && Seeded(states[0], s, n) && i < |states|
    ensures Accounted(states[i], s, n)
  {
    if i == 0 {
      SeededAccounts(states[0], s, n);
    } else {
      RunAccounts(states, ops, s, n, i - 1);
      RunIsSafe(states, ops, s, n, i - 1);
      StepAccounts(states[i - 1], n, s, n, ops[i - 1], states[i]);
    }
  }

  /** In every state of every run, each byte of the memory that was handed over at the start, and no other byte, is either
      free or held; it is never both, and never held twice. */
  lemma EveryByteOnce(states: seq<System>, ops: seq<Op>, s: int, n: int, i: nat, b: int)
    requires Run(states, ops) && Seeded(states[0], s, n) && i < |states|
    ensures s <= b < s + n <==> Covers(states[i].view.ranges, b) || exists j: nat :: HeldAt(states[i].held, j, b)
    ensures forall j: nat :: HeldAt(states[i].held, j, b) ==> !Covers(states[i].view.ranges, b)
    ensures forall j: nat, k: nat :: HeldAt(states[i].held, j, b) && HeldAt(states[i].held, k, b) ==> j == k
  {
    RunIsSafe(states, ops, s, n, i);
    RunAccounts(states, ops, s, n, i);
    var held, rs := states[i].held, states[i].view.ranges;
    forall j: nat | HeldAt(held, j, b)
      ensures !Covers(rs, b)
    {
      assert GoodHolding(held[j], rs);
      NotCovered(rs, held[j].start, held[j].End(), b);
    }
    forall j: nat, k: nat | HeldAt(held, j, b) && HeldAt(held, k, b)
      ensures j == k
    {
      assert j < k ==> DisjointHoldings(held[j], held[k]);
      assert k < j ==> DisjointHoldings(held[k], held[j]);
    }
  }

  /** So all free ranges and all holdings lie in that memory. */
  lemma StaysInside(states: seq<System>, ops: seq<Op>, s: int, n: int, i: nat, k: nat)
    requires Run(states, ops) && Seeded(states[0], s, n) && i < |states|
    ensures k < |states[i].view.ranges| ==> s <= states[i].view.ranges[k].first && states[i].view.ranges[k].last < s + n
    ensures k < |states[i].held| ==> s <= states[i].held[k].start && states[i].held[k].start + states[i].held[k].size <= s + n
  {
    RunIsSafe(states, ops, s, n, i);
    RunAccounts(states, ops, s, n, i);
    var held, rs := states[i].held, states[i].view.ranges;
    if k < |rs| {
      assert rs[k].Contains(rs[k].first) && rs[k].Contains(rs[k].last);
      assert Covers(rs, rs[k].first) && Covers(rs, rs[k].last);
    }
    if k < |held| {
      assert GoodHolding(held[k], rs);
      assert HeldAt(held, k, held[k].start) && HeldAt(held, k, held[k].End());
      assert Held(held, held[k].start) && Held(held, held[k].End());
    }
  }

  /** A holding of more than one byte can always be freed. */
  lemma FreeIsEnabled(sys: System, total: int, i: nat)
    requires Safe(sys, total) && i < |sys.held| && sys.held[i].size > 1
    ensures Releasable(sys.view.ranges, sys.held[i].start, sys.held[i].size) && sys.view.freeSize > 0
  {
    TotalPositive(sys.view.ranges);
  }

  /** The bytes a step frees. */
  function FreedBy(sys: System, op: Op, sys': System): int {
    match op
    case FreeOp(j) => if j < |sys.held| && |sys'.held| < |sys.held| then sys.held[j].size else 0
    case _ => 0
  }

  /** The bytes that the first i steps of a run free. */
  function FreedBytes(states: seq<System>, ops: seq<Op>, i: nat): int
    requires i <= |ops| && |states| == |ops| + 1
  {
    if i == 0 then 0 else FreedBytes(states, ops, i - 1) + FreedBy(states[i - 1], ops[i - 1], states[i])
  }

  lemma SurplusGrows(sys: System, op: Op, sys': System)
    requires Step(sys, op, sys')
    ensures sys'.surplus == sys.surplus + FreedBy(sys, op, sys')
  {
  }

  /** Each step credits too much exactly what it frees. */
  ghost predicate SurplusFollows(states: seq<System>, ops: seq<Op>) {
    && |states| == |ops| + 1
    && forall i :: 0 <= i < |ops| ==> states[i + 1].surplus == states[i].surplus + FreedBy(states[i], ops[i], states[i + 1])
  }

  lemma RunSurplus(states: seq<System>, ops: seq<Op>)
    requires Run(states, ops)
    ensures SurplusFollows(states, ops)
  {
    forall i | 0 <= i < |ops|
      ensures states[i + 1].surplus == states[i].surplus + FreedBy(states[i], ops[i], states[i + 1])
    {
      SurplusGrows(states[i], ops[i], states[i + 1]);
    }
  }

  lemma {:induction false} SurplusIsFreed(states: seq<System>, ops: seq<Op>, i: nat)
    requires SurplusFollows(states, ops) && states[0].surplus == 0 && i < |states|
    ensures states[i].surplus == FreedBytes(states, ops, i)
  {
    if i > 0 {
      SurplusIsFreed(states, ops, i - 1);
      assert states[i - 1 + 1] == states[i];
    }
  }

  /** The counter runs ahead of the free bytes by exactly the bytes of all successful frees so far. */
  lemma CounterGap(states: seq<System>, ops: seq<Op>, s: int, n: int, i: nat)
    requires Run(states, ops) && Seeded(states[0], s, n) && i < |states|
    ensures states[i].view.freeSize - Total(states[i].view.ranges) == FreedBytes(states, ops, i) >= 0
  {
    RunIsSafe(states, ops, s, n, i);
    RunSurplus(states, ops);
    SurplusIsFreed(states, ops, i);
  }

  // ---------------------------------------------------------------- runs in whole granules

  ghost predicate Grain(h: Holding, g: nat)
    requires g > 0
  {
    h.start % g == 0 && h.size % g == 0
  }

  /** All bounds of free ranges and holdings are multiples of the granule. */
  ghost predicate Grained(sys: System, gOrder: nat) {
    && gOrder > 0 && Granular(sys.view.ranges, Pow2(gOrder))
    && forall i :: 0 <= i < |sys.held| ==> Grain(sys.held[i], Pow2(gOrder))
  }

  predicate GrainedOp(op: Op, gOrder: nat) {
    match op
    case AllocateOp(n, _) => n % Pow2(gOrder) == 0
    case ReserveOp(s, n, _) => s % Pow2(gOrder) == 0 && n % Pow2(gOrder) == 0
    case FreeOp(_) => true
  }

  lemma GranuleSize(gOrder: nat)
    requires gOrder > 0
    ensures Pow2(gOrder) >= 2
  {
    Pow2Monotone(1, gOrder);
    assert Pow2(1) == 2 * Pow2(0);
  }

  lemma AllocateKeepsGrain(sys: System, gOrder: nat, total: int, n: int, alignOrder: nat, sys': System)
    requires Safe(sys, total) && Grained(sys, gOrder) && AllocateStep(sys, n, alignOrder, sys') && n % Pow2(gOrder) == 0
    ensures Grained(sys', gOrder)
  {
    var r: Result<int, MemoryError> :|
      && AllocatePost(sys.view, n, alignOrder, r, sys'.view)
      && sys'.surplus == sys.surplus
      && sys'.held == if r.Ok? then sys.held + [Holding(r.value, n, false)] else sys.held;
    match r
    case Ok(a) =>
      GranularAllocates(sys.view.ranges, n, alignOrder, gOrder);
      var k: nat :| Chosen(sys.view.ranges, k, n, alignOrder) && AllocatedFrom(sys.view, k, n, alignOrder, r, sys'.view);
      SourceOf(sys.view, k, n, alignOrder, a, sys'.view);
      CarveGranular(sys.view.ranges, k, a, n, Pow2(gOrder));
    case Err(e) =>
      AllocateError(sys.view, n, alignOrder, e, sys'.view);
  }

  lemma ReserveKeepsGrain(sys: System, gOrder: nat, total: int, s: int, n: int, alignOrder: nat, sys': System)
    requires Safe(sys, total) && Grained(sys, gOrder) && ReserveStep(sys, s, n, alignOrder, sys')
    requires s % Pow2(gOrder) == 0 && n % Pow2(gOrder) == 0
    ensures Grained(sys', gOrder)
  {
    var (a, m) := Requested(s, n, alignOrder);
    var r: Outcome :|
      && ReservePost(sys.view, s, n, alignOrder, r, sys'.view)
      && sys'.surplus == sys.surplus
      && sys'.held == if r.Ok? then sys.held + [Holding(a, m, true)] else sys.held;
    if r.Ok? {
      RequestedGranular(s, n, alignOrder, gOrder);
      var k := ReserveSource(sys.view, s, n, alignOrder, sys'.view);
      CarveGranular(sys.view.ranges, k, a, m, Pow2(gOrder));
    } else {
      ReserveError(sys.view, s, n, alignOrder, r, sys'.view);
    }
  }

  lemma FreeKeepsGrain(sys: System, gOrder: nat, total: int, i: nat, sys': System)
    requires Safe(sys, total) && Grained(sys, gOrder) && FreeStep(sys, i, sys')
    ensures Grained(sys', gOrder)
  {
    var h := sys.held[i];
    var r: Outcome :|
      && FreePost(sys.view, h.start, h.size, r, sys'.view)
      && sys'.surplus == (if r.Ok? then sys.surplus + h.size else sys.surplus)
      && sys'.held == if r.Ok? then Dropped(sys.held, i) else sys.held;
    TotalPositive(sys.view.ranges);
    FreeOutcome(sys.view, h.start, h.size, r, sys'.view);
    if r.Ok? {
      assert Grain(h, Pow2(gOrder));
      ReleaseGranular(sys.view.ranges, Below(sys.view.ranges, h.start), h.start, h.size, Pow2(gOrder));
      DroppedGrain(sys.held, i, Pow2(gOrder));
    }
  }

  lemma DroppedGrain(held: seq<Holding>, i: nat, g: nat)
    requires g > 0 && i < |held| && forall j :: 0 <= j < |held| ==> Grain(held[j], g)
    ensures forall j :: 0 <= j < |Dropped(held, i)| ==> Grain(Dropped(held, i)[j], g)
  {
    var rest := Dropped(held, i);
    assert forall j :: 0 <= j < |rest| ==> rest[j] == held[if j < i then j else j + 1];
  }

  lemma StepKeepsGrain(sys: System, gOrder: nat, total: int, op: Op, sys': System)
    requires Safe(sys, total) && Grained(sys, gOrder) && Step(sys, op, sys') && GrainedOp(op, gOrder)
    ensures Grained(sys', gOrder)
  {
    match op
    case AllocateOp(n, alignOrder) => AllocateKeepsGrain(sys, gOrder, total, n, alignOrder, sys');
    case ReserveOp(s, n, alignOrder) => ReserveKeepsGrain(sys, gOrder, total, s, n, alignOrder, sys');
    case FreeOp(i) => FreeKeepsGrain(sys, gOrder, total, i, sys');
  }

  lemma SeededGrain(sys: System, gOrder: nat, s: int, n: int)
    requires Seeded(sys, s, n) && gOrder > 0 && s % Pow2(gOrder) == 0 && n % Pow2(gOrder) == 0
    ensures Grained(sys, gOrder)
  {
    GranuleSize(gOrder);
    SumMod(s, n, Pow2(gOrder));
  }

  /** A run that begins with whole granules, and asks for whole granules only, keeps to them. */
  lemma {:induction false} RunKeepsGrain(states: seq<System>, ops: seq<Op>, gOrder: nat, s: int, n: int, i: nat)
    requires Run(states, ops) && Seeded(states[0], s, n) && i < |states| && gOrder > 0
    requires s % Pow2(gOrder) == 0 && n % Pow2(gOrder) == 0 && forall j :: 0 <= j < |ops| ==> GrainedOp(ops[j], gOrder)
    ensures Grained(states[i], gOrder)
  {
    if i == 0 {
      SeededGrain(states[0], gOrder, s, n);
    } else {
      RunKeepsGrain(states, ops, gOrder, s, n, i - 1);
      RunIsSafe(states, ops, s, n, i - 1);
      StepKeepsGrain(states[i - 1], gOrder, n, ops[i - 1], states[i]);
    }
  }

  /** In whole granules no assertion of the allocator can fail, except in a reservation that runs past its range. */
  lemma CallsAreEnabled(sys: System, gOrder: nat, total: int, n: int, alignOrder: nat, i: nat)
    requires Safe(sys, total) && Grained(sys, gOrder)
    ensures n > 0 && n % Pow2(gOrder) == 0 ==> AllocatesCleanly(sys.view.ranges, n, alignOrder)
    ensures i < |sys.held| ==> Releasable(sys.view.ranges, sys.held[i].start, sys.held[i].size)
  {
    if n > 0 && n % Pow2(gOrder) == 0 {
      GranularAllocates(sys.view.ranges, n, alignOrder, gOrder);
    }
    if i < |sys.held| {
      GranuleSize(gOrder);
      assert Grain(sys.held[i], Pow2(gOrder));
      AtLeastGranule(sys.held[i].size, Pow2(gOrder));
      FreeIsEnabled(sys, total, i);
    }
  }
}
