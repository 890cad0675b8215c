/** `Fat32::read`: run after run, until the buffer holds what was asked for. */
module Fat32Read {
  import opened Wrappers
  import opened Arithmetic
  import opened Fat32Chains
  import opened Fat32Planning
  import opened Fat32Files
  import opened Fat32Fragments

  /** Byte k of the buffer is the one that the request draws. */
  ghost predicate HoldsDrawn(call: Call, content: Bytes, bytes: Bytes, k: nat)
    requires call.Valid()
  {
    HasByte(call.fs, call.Entry(), call.Begin() + k) && bytes(call.buffer + k) == content(DrawnFrom(call, k))
  }

  /** The first n bytes of the buffer are drawn. */
  ghost predicate Drawn(call: Call, content: Bytes, bytes: Bytes, n: nat)
    requires call.Valid()
  {
    forall k: nat {:trigger HoldsDrawn(call, content, bytes, k)} :: k < n ==> HoldsDrawn(call, content, bytes, k)
  }

  /** The state at the beginning of a run: `done` bytes are in the buffer, and the run begins at dataOffset of
      cluster i of the chain. Once more bytes than asked for have been read, no more is known than that nothing before
      the buffer has changed. */
  ghost predicate Reading(call: Call, content: Bytes, start: Bytes, bytes: Bytes, i: nat, dataOffset: nat, done: nat)
    requires call.Valid()
  {
    && Chain(call.fs, call.Entry(), i).Some? && dataOffset < call.fs.BytesPerCluster()
    && OnPace(call, i, dataOffset, done)
    && (done == 0 ==> bytes == start)
    && (forall a: nat :: a < call.buffer ==> bytes(a) == start(a))
    && (done <= call.n ==> Drawn(call, content, bytes, done) && Untouched(start, bytes, call.buffer, call.buffer + done))
  }

  /** The request has been served: its bytes are in the buffer, and at most the sector of the last one behind them. */
  ghost predicate ReadOk(call: Call, content: Bytes, start: Bytes, bytes: Bytes)
    requires call.Valid()
  {
    && Drawn(call, content, bytes, call.n)
    && Untouched(start, bytes, call.buffer, call.buffer + SectorsFor(call.fs, call.n) * call.fs.bytesPerSector)
  }

  /** A supported request has read the bytes of the file. */
  lemma ReadIsRight(call: Call, content: Bytes, start: Bytes, bytes: Bytes)
    requires call.Valid() && call.Good() && ReadOk(call, content, start, bytes)
    ensures Holds(call.fs, call.Entry(), content, bytes, call.buffer, call.offset, call.n)
  {
    forall k: nat | k < call.n
      ensures HoldsByte(call.fs, call.Entry(), content, bytes, call.buffer, call.offset, k)
    {
      assert HoldsDrawn(call, content, bytes, k);
      SupportedIsRight(call, k);
    }
  }

  lemma ReadingStarts(call: Call, content: Bytes, start: Bytes)
    requires call.Valid() && Chain(call.fs, call.Entry(), call.offset / call.fs.BytesPerCluster()).Some?
    ensures Reading(call, content, start, start, call.offset / call.fs.BytesPerCluster(), call.offset % call.fs.BytesPerCluster(), 0)
  {
    Between(call.offset, call.fs.BytesPerCluster());
  }

  /** Where byte `done + y` is drawn from, y bytes into a run that begins at dataOffset of cluster i. */
  lemma RunDraws(call: Call, i: nat, j: nat, dataOffset: nat, done: nat, t: Transfer, y: nat)
    requires call.Valid() && OnPace(call, i, dataOffset, done) && done <= call.n && dataOffset < call.fs.BytesPerCluster()
    requires Planned(call.fs, call.Entry(), i, j, dataOffset, call.n, t) && y < t.bytes
    ensures HasByte(call.fs, call.Entry(), call.Begin() + (done + y))
    ensures DrawnFrom(call, done + y) == call.fs.ClusterAddress(Chain(call.fs, call.Entry(), i).value) + dataOffset + y
  {
    var fs, c := call.fs, call.fs.BytesPerCluster();
    ConsecutiveRun(fs, call.Entry(), i, j);
    ClustersOf(i, j, c);
    Distribute(j, 1, c);
    if done == 0 {
      ConsecutiveShorter(fs, call.Entry(), i, j * c + c, call.Begin() + y + 1);
      FirstRunDraws(call, y);
    } else {
      ConsecutiveBytes(fs, call.Entry(), i, j * c + c, y, call.Begin() + (done + y));
      StaysInterrupted(call, done, y);
    }
  }

  lemma StaysInterrupted(call: Call, done: nat, y: nat)
    requires call.Valid() && !Consecutive(call.fs, call.Entry(), call.First(), call.Begin() + done + 1)
    ensures !Consecutive(call.fs, call.Entry(), call.First(), call.Begin() + (done + y) + 1)
  {
    if Consecutive(call.fs, call.Entry(), call.First(), call.Begin() + (done + y) + 1) {
      ConsecutiveShorter(call.fs, call.Entry(), call.First(), call.Begin() + (done + y) + 1, call.Begin() + done + 1);
    }
  }

  /** One more run: its bytes follow those that are there already. */
  lemma AfterRun(call: Call, content: Bytes, start: Bytes, bytes: Bytes, bytes': Bytes, i: nat, j: nat, dataOffset: nat, done: nat, t: Transfer)
    requires call.Valid() && Reading(call, content, start, bytes, i, dataOffset, done) && done <= call.n
    requires Planned(call.fs, call.Entry(), i, j, dataOffset, call.n, t)
    requires CopiedTo(content, TransferAddress(call.fs, Chain(call.fs, call.Entry(), i).value, t) + t.dataOffset,
                      bytes, bytes', call.buffer + done, StoredBytes(call.fs, t))
    ensures Drawn(call, content, bytes', done + t.bytes)
  {
    PlannedCovers(call.fs, call.Entry(), i, j, dataOffset, call.n, t);
    TransferStart(call.fs, Chain(call.fs, call.Entry(), i).value, dataOffset, t);
    forall k: nat | k < done + t.bytes
      ensures HoldsDrawn(call, content, bytes', k)
    {
      if k < done {
        assert HoldsDrawn(call, content, bytes, k);
      } else {
        RunDraws(call, i, j, dataOffset, done, t, k - done);
      }
    }
  }

  /** What one more run leaves alone. */
  lemma AroundRun(call: Call, content: Bytes, start: Bytes, bytes: Bytes, bytes': Bytes, i: nat, j: nat, dataOffset: nat, done: nat, t: Transfer)
    requires call.Valid() && Reading(call, content, start, bytes, i, dataOffset, done)
    requires Planned(call.fs, call.Entry(), i, j, dataOffset, call.n, t)
    requires CopiedTo(content, TransferAddress(call.fs, Chain(call.fs, call.Entry(), i).value, t) + t.dataOffset,
                      bytes, bytes', call.buffer + done, StoredBytes(call.fs, t))
    ensures forall a: nat :: a < call.buffer ==> bytes'(a) == start(a)
    ensures done <= call.n && t.bytes < call.n ==> Untouched(start, bytes', call.buffer, call.buffer + done + t.bytes)
    ensures done == 0 && t.bytes == call.n ==>
              Untouched(start, bytes', call.buffer, call.buffer + SectorsFor(call.fs, call.n) * call.fs.bytesPerSector)
  {
    SectorsForBound(call.fs, call.n);
  }

  /** The buffer after one more run, however it goes on. */
  lemma AfterRead(call: Call, content: Bytes, start: Bytes, bytes: Bytes, bytes': Bytes, i: nat, j: nat, dataOffset: nat, done: nat, t: Transfer)
    requires call.Valid() && Reading(call, content, start, bytes, i, dataOffset, done)
    requires Planned(call.fs, call.Entry(), i, j, dataOffset, call.n, t)
    requires CopiedTo(content, TransferAddress(call.fs, Chain(call.fs, call.Entry(), i).value, t) + t.dataOffset,
                      bytes, bytes', call.buffer + done, StoredBytes(call.fs, t))
    ensures forall a: nat :: a < call.buffer ==> bytes'(a) == start(a)
    ensures done + t.bytes == call.n ==> ReadOk(call, content, start, bytes') && Completes(call)
    ensures done + t.bytes != call.n ==>
              if Chain(call.fs, call.Entry(), j + 1).None? then !Completes(call) else Reading(call, content, start, bytes', j + 1, 0, done + t.bytes)
  {
    AroundRun(call, content, start, bytes, bytes', i, j, dataOffset, done, t);
    AfterPace(call, i, j, dataOffset, done, t);
    if done + t.bytes <= call.n {
      AfterRun(call, content, start, bytes, bytes', i, j, dataOffset, done, t);
      SectorsForBound(call.fs, call.n);
    }
    if t.bytes < call.n {
      RunEnd(call.fs, call.Entry(), i, j, dataOffset, call.n, t);
    }
  }

  /** A run that covers whole clusters, and does not skip sectors, ends where the next cluster begins. */
  lemma RunEnd(fs: Fat32, entry: nat, i: nat, j: nat, offset: nat, length: nat, t: Transfer)
    requires fs.Valid() && entry >= 2 && Planned(fs, entry, i, j, offset, length, t) && t.bytes < length && offset < fs.BytesPerCluster()
    ensures t.bytes > 0
    ensures t.sectorOffset == 0 ==> i * fs.BytesPerCluster() + offset + t.bytes == (j + 1) * fs.BytesPerCluster()
  {
    var c := fs.BytesPerCluster();
    Distribute(j - i, i, c);
    Distribute(j, 1, c);
    AtLeast(j - i + 1, c);
    Distribute(j - i, 1, c);
    if t.sectorOffset == 0 {
      NothingSkipped(fs, offset);
    }
  }

  lemma NothingSkipped(fs: Fat32, offset: nat)
    requires fs.Valid() && Skipped(fs, offset) == 0
    ensures Unskipped(fs, offset) == offset
  {
  }

  /** Follows the chain over whole clusters. */
  method SkipClusters(fs: Fat32, entry: nat, count: nat) returns (r: Option<nat>)
    requires entry >= 2
    ensures r == Chain(fs, entry, count)
  {
    var cluster := entry;
    for i := 0 to count
      invariant Chain(fs, entry, i) == Some(cluster)
    {
      var next := fs.GetNextCluster(cluster);
      if next.None? {
        ChainEnds(fs, entry, i + 1, count);
        return None;
      }
      cluster := next.value;
    }
    return Some(cluster);
  }

  /** On consecutive clusters one transfer does, and a healthy disk serves it. */
  lemma OneTransferDoes(fs: Fat32, disk: Disk, entry: nat, i: nat, j: nat, dataOffset: nat, n: nat, plan: Option<(Transfer, nat)>)
    requires fs.Valid() && entry >= 2 && ReachesFrom(fs, disk, entry, i, dataOffset, n)
    requires Outcome(fs, entry, i, j, dataOffset, n, false, plan)
    ensures plan.Some? && plan.value.0.bytes == n
    ensures disk.Serves(TransferAddress(fs, Chain(fs, entry, i).value, plan.value.0), plan.value.0.sectors * fs.bytesPerSector)
  {
    Served(fs, disk, Chain(fs, entry, i).value, dataOffset, n, plan.value.0);
  }

  /** Why a run fails: there is no plan, or the disk or the allocator does not serve it. */
  lemma RunFails(call: Call, disk: Disk, i: nat, j: nat, dataOffset: nat, done: nat, plan: Option<(Transfer, nat)>, canAllocate: bool)
    requires call.Valid() && OnPace(call, i, dataOffset, done) && Healthy(call, disk) && canAllocate
    requires Outcome(call.fs, call.Entry(), i, j, dataOffset, call.n, false, plan)
    requires plan.Some? ==>
               !disk.Serves(TransferAddress(call.fs, Chain(call.fs, call.Entry(), i).value, plan.value.0), plan.value.0.sectors * call.fs.bytesPerSector)
    ensures !Completes(call) && (done <= call.n ==> EndsWithChain(call))
  {
    if plan.Some? {
      RunServed(call, disk, i, j, dataOffset, done, plan.value.0);
    } else {
      NotPlanned(call, i, j, dataOffset, done);
      if done <= call.n {
        FailsAtEnd(call, i, j, dataOffset, done);
      }
    }
  }

  /** The disk and the allocator serve the planned run. */
  ghost predicate IsServed(call: Call, disk: Disk, i: nat, plan: Option<(Transfer, nat)>, canAllocate: bool)
    requires call.Valid() && Chain(call.fs, call.Entry(), i).Some?
  {
    && plan.Some? && (plan.value.0.dataOffset == 0 || canAllocate)
    && disk.Serves(TransferAddress(call.fs, Chain(call.fs, call.Entry(), i).value, plan.value.0), plan.value.0.sectors * call.fs.bytesPerSector)
  }

  lemma WhenServed(call: Call, disk: Disk, i: nat, j: nat, dataOffset: nat, done: nat, plan: Option<(Transfer, nat)>, canAllocate: bool)
    requires call.Valid() && OnPace(call, i, dataOffset, done) && Outcome(call.fs, call.Entry(), i, j, dataOffset, call.n, false, plan)
    ensures !IsServed(call, disk, i, plan, canAllocate) && Healthy(call, disk) && canAllocate ==>
              !Completes(call) && (done <= call.n ==> EndsWithChain(call))
    ensures done == 0 && Reaches(call.fs, disk, call.file, call.offset, call.n) && canAllocate ==>
              IsServed(call, disk, i, plan, canAllocate) && plan.value.0.bytes == call.n
  {
    if done == 0 && Reaches(call.fs, disk, call.file, call.offset, call.n) {
      OneTransferDoes(call.fs, disk, call.Entry(), i, j, dataOffset, call.n, plan);
    }
    if !IsServed(call, disk, i, plan, canAllocate) && Healthy(call, disk) && canAllocate {
      RunFails(call, disk, i, j, dataOffset, done, plan, canAllocate);
    }
  }

  /** What has been stored from store number `from` on lies before the end of the request, as long as no more than that
      has been read; and otherwise the request does not end with its chain. */
  ghost predicate Tracked(call: Call, stores: seq<Store>, from: nat, done: nat)
    requires call.Valid()
  {
    && from <= |stores|
    && (StoresBehind(stores, from, call.buffer + call.n) <==> done > call.n)
    && (done > call.n ==> !EndsWithChain(call))
  }

  /** One more run that does not complete the request. */
  lemma TrackedNext(call: Call, stores: seq<Store>, from: nat, i: nat, j: nat, dataOffset: nat, done: nat, t: Transfer)
    requires call.Valid() && Tracked(call, stores, from, done) && OnPace(call, i, dataOffset, done)
    requires Planned(call.fs, call.Entry(), i, j, dataOffset, call.n, t) && done + t.bytes != call.n
    ensures Tracked(call, stores + [Store(call.buffer + done, StoredBytes(call.fs, t))], from, done + t.bytes)
    ensures Chain(call.fs, call.Entry(), j + 1).None? ==> done + t.bytes > call.n
  {
    PlannedCovers(call.fs, call.Entry(), i, j, dataOffset, call.n, t);
    OneMoreStore(stores, from, call.buffer + call.n, Store(call.buffer + done, StoredBytes(call.fs, t)));
    if EndsWithChain(call) && done <= call.n {
      NoOverrun(call, i, j, dataOffset, done, t);
    }
  }

  /** Plans one run and reads it. */
  method PlanAndRead(disk: Disk, memory: Memory, cluster: nat, dataOffset: nat, done: nat, canAllocate: bool,
                     call: Call, ghost i: nat) returns (plan: Option<(Transfer, nat)>, ghost j: nat)
    requires call.Valid() && Chain(call.fs, call.Entry(), i) == Some(cluster) && dataOffset < call.fs.BytesPerCluster()
    requires OnPace(call, i, dataOffset, done)
    modifies memory
    ensures plan.Some? ==>
              && Outcome(call.fs, call.Entry(), i, j, dataOffset, call.n, false, plan)
              && CopiedTo(disk.content, TransferAddress(call.fs, cluster, plan.value.0) + plan.value.0.dataOffset,
                          old(memory.bytes), memory.bytes, call.buffer + done, StoredBytes(call.fs, plan.value.0))
    ensures plan.None? ==> memory.bytes == old(memory.bytes)
    ensures memory.stores == if plan.Some? then old(memory.stores) + [Store(call.buffer + done, StoredBytes(call.fs, plan.value.0))] else old(memory.stores)
    ensures plan.None? && Healthy(call, disk) && canAllocate ==> !Completes(call) && (done <= call.n ==> EndsWithChain(call))
    ensures done == 0 && Reaches(call.fs, disk, call.file, call.offset, call.n) && canAllocate ==> plan.Some? && plan.value.0.bytes == call.n
  {
    plan, j := PlanTransfer(call.fs, cluster, dataOffset, call.n, false, call.Entry(), i);
    WhenServed(call, disk, i, j, dataOffset, done, plan, canAllocate);
    if plan.None? {
      return;
    }
    var ok := ReadRun(call.fs, disk, memory, call.buffer + done, cluster, plan.value.0, canAllocate);
    if !ok {
      plan := None;
    }
  }

  /** How a run ends: with an error, with the request, or where the chain continues elsewhere. */
  datatype Turn = Failed | Finished | Onward(cluster: nat, bytes: nat)

  /** One run: plans it, reads it, and looks for the next cluster if there is more to read. */
  method NextTransfer(disk: Disk, memory: Memory, cluster: nat, dataOffset: nat, done: nat, canAllocate: bool,
                      call: Call, ghost start: Bytes, ghost from: nat, ghost i: nat) returns (turn: Turn, ghost j: nat)
    requires call.Valid() && Tracked(call, memory.stores, from, done)
    requires Reading(call, disk.content, start, memory.bytes, i, dataOffset, done) && Chain(call.fs, call.Entry(), i) == Some(cluster)
    modifies memory
    ensures turn.Finished? ==> ReadOk(call, disk.content, start, memory.bytes) && Completes(call)
    ensures turn.Onward? ==>
              && j >= i && Chain(call.fs, call.Entry(), j + 1) == Some(turn.cluster)
              && Reading(call, disk.content, start, memory.bytes, j + 1, 0, done + turn.bytes)
    ensures forall a: nat :: a < call.buffer ==> memory.bytes(a) == start(a)
    ensures EndsWithChain(call) && turn.Failed? ==> Untouched(start, memory.bytes, call.buffer, call.buffer + call.n)
    ensures turn.Onward? ==> Tracked(call, memory.stores, from, done + turn.bytes)
    ensures turn.Failed? && Healthy(call, disk) && canAllocate ==>
              (StoresBehind(memory.stores, from, call.buffer + call.n) <==> !EndsWithChain(call))
    ensures turn.Failed? && Healthy(call, disk) && canAllocate ==> !Completes(call)
    ensures done == 0 && Reaches(call.fs, disk, call.file, call.offset, call.n) && canAllocate ==> turn.Finished?
  {
    ghost var before, stores := memory.bytes, memory.stores;
    var plan;
    plan, j := PlanAndRead(disk, memory, cluster, dataOffset, done, canAllocate, call, i);
    if plan.None? {
      return Failed, j;
    }
    var t, reading := plan.value.0, plan.value.1;
    AfterRead(call, disk.content, start, before, memory.bytes, i, j, dataOffset, done, t);
    if done + t.bytes == call.n {
      return Finished, j;
    }
    TrackedNext(call, stores, from, i, j, dataOffset, done, t);
    var next := call.fs.GetNextCluster(reading);
    if next.None? {
      return Failed, j;
    }
    return Onward(next.value, t.bytes), j;
  }

  /** Run after run, from the cluster in which the request begins. */
  method ReadRuns(call: Call, disk: Disk, memory: Memory, first: nat, canAllocate: bool) returns (ok: bool)
    requires call.Valid() && Chain(call.fs, call.Entry(), call.First()) == Some(first)
    modifies memory
    ensures ok ==> ReadOk(call, disk.content, old(memory.bytes), memory.bytes)
    ensures forall a: nat :: a < call.buffer ==> memory.bytes(a) == old(memory.bytes)(a)
    ensures !ok && EndsWithChain(call) ==> Untouched(old(memory.bytes), memory.bytes, call.buffer, call.buffer + call.n)
    ensures !ok && canAllocate && Healthy(call, disk) ==>
              (StoresBehind(memory.stores, |old(memory.stores)|, call.buffer + call.n) <==> !EndsWithChain(call))
    ensures canAllocate && Reaches(call.fs, disk, call.file, call.offset, call.n) ==> ok
    ensures canAllocate && Healthy(call, disk) ==> (ok <==> Completes(call))
  {
    ghost var last: nat :| EndsBy(call.fs, call.Entry(), last);
    var cluster: nat, dataOffset: nat, done: nat := first, call.offset % call.fs.BytesPerCluster(), 0;
    ghost var i := call.First();
    ReadingStarts(call, disk.content, memory.bytes);
    while true
      invariant Reading(call, disk.content, old(memory.bytes), memory.bytes, i, dataOffset, done)
      invariant Chain(call.fs, call.Entry(), i) == Some(cluster)
      invariant Tracked(call, memory.stores, |old(memory.stores)|, done)
      invariant done == 0 || !Reaches(call.fs, disk, call.file, call.offset, call.n) || !canAllocate
      decreases last - i
    {
      var turn;
      ghost var j;
      turn, j := NextTransfer(disk, memory, cluster, dataOffset, done, canAllocate, call, old(memory.bytes), |old(memory.stores)|, i);
      match turn
      case Failed => return false;
      case Finished => return true;
      case Onward(next, bytes) =>
        NotEnded(call.fs, call.Entry(), j + 1, last);
        cluster, dataOffset, done, i := next, 0, done + bytes, j + 1;
    }
  }

  /** Reads up to `length` bytes of a file into memory. canAllocate: there are pages for a temporary buffer. */
  method Read(fs: Fat32, file: FileInfo, disk: Disk, memory: Memory, buffer: nat, offset: nat, length: nat, canAllocate: bool)
    returns (r: Option<nat>)
    requires fs.Valid() && (Outside(file, offset, length) || Sound(fs, file))
    modifies memory
    ensures Outside(file, offset, length) ==> r == Some(0) && memory.bytes == old(memory.bytes)
    ensures !Outside(file, offset, length) && r.Some? ==>
              var n := Clamped(file, offset, length);
              r.value == n && ReadOk(Call(fs, file, buffer, offset, n), disk.content, old(memory.bytes), memory.bytes)
    ensures !Outside(file, offset, length) && r.Some? ==>
              var n := Clamped(file, offset, length);
              Supported(fs, file, offset, n) ==> Holds(fs, file.entryCluster, disk.content, memory.bytes, buffer, offset, n)
    ensures r.Some? ==> r.value == (if offset >= file.fileSize then 0 else if length < file.fileSize - offset then length else file.fileSize - offset)
    ensures forall a: nat :: a < buffer ==> memory.bytes(a) == old(memory.bytes)(a)
    ensures !Outside(file, offset, length) && r.None? ==>
              var call := Call(fs, file, buffer, offset, Clamped(file, offset, length));
              EndsWithChain(call) ==> Untouched(old(memory.bytes), memory.bytes, buffer, buffer + call.n)
    ensures !Outside(file, offset, length) && r.None? && canAllocate ==>
              var call := Call(fs, file, buffer, offset, Clamped(file, offset, length));
              Healthy(call, disk) && Chain(fs, call.Entry(), call.First()).Some? ==>
                (StoresBehind(memory.stores, |old(memory.stores)|, buffer + call.n) <==> !EndsWithChain(call))
    ensures !Outside(file, offset, length) && Reaches(fs, disk, file, offset, Clamped(file, offset, length)) && canAllocate ==> r.Some?
    ensures !Outside(file, offset, length) && canAllocate ==>
              var call := Call(fs, file, buffer, offset, Clamped(file, offset, length));
              Healthy(call, disk) ==> (r.Some? <==> Completes(call))
  {
    if offset + length > file.fileSize && offset >= file.fileSize {
      return Some(0);
    }
    var n: nat := if offset + length > file.fileSize then file.fileSize - offset else length;
    var call := Call(fs, file, buffer, offset, n);
    var first := SkipClusters(fs, call.Entry(), offset / fs.BytesPerCluster());
    if first.None? {
      NothingThere(call);
      return None;
    }
    var ok := ReadRuns(call, disk, memory, first.value, canAllocate);
    if ok && call.Good() {
      ReadIsRight(call, disk.content, old(memory.bytes), memory.bytes);
    }
    return if ok then Some(n) else None;
  }
}
