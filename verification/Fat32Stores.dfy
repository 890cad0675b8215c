/** What a run of `write` does to the disk, and how the runs of a request add up. */
module Fat32Stores {
  import opened Wrappers
  import opened Arithmetic
  import opened Fat32Chains
  import opened Fat32Planning
  import opened Fat32Files
  import opened Fat32Fragments
  import opened Fat32Read

  /** Where a run of the request begins. */
  ghost predicate Placed(call: Call, i: nat, dataOffset: nat, done: nat)
    requires call.Valid()
  {
    && call.offset + done == i * call.fs.BytesPerCluster() + dataOffset
    && (if done == 0 then i == call.offset / call.fs.BytesPerCluster() && dataOffset == call.offset % call.fs.BytesPerCluster() else dataOffset == 0)
  }

  /** A run of a supported request draws its bytes from consecutive clusters; and if it skips sectors, it is the only one. */
  lemma RunIsConsecutive(call: Call, i: nat, j: nat, dataOffset: nat, done: nat, forWriting: bool, t: Transfer, last: nat)
    requires call.Valid() && call.Good() && Placed(call, i, dataOffset, done)
    requires Outcome(call.fs, call.Entry(), i, j, dataOffset, call.n, forWriting, Some((t, last)))
    ensures Consecutive(call.fs, call.Entry(), i, call.offset + done + t.bytes)
    ensures t.bytes < call.n ==> t.sectorOffset == 0
    ensures Skipped(call.fs, dataOffset) == 0
            || (done == 0 && t.bytes == call.n && Consecutive(call.fs, call.Entry(), i, i * call.fs.BytesPerCluster() + dataOffset + call.n))
  {
    PlannedConsecutive(call.fs, call.Entry(), i, j, dataOffset, call.n, t);
  }

  // ---------------------------------------------------------------- where a transfer writes

  /** Address a holds a byte of a cluster of the chain. */
  ghost predicate InChain(fs: Fat32, entry: nat, a: nat)
    requires fs.Valid() && entry >= 2
  {
    exists p: nat :: HasByte(fs, entry, p) && FileAddress(fs, entry, p) == a
  }

  /** A transfer of n bytes that begins at sector `skip` ends with the cluster that holds its last byte, or before. */
  lemma TransferEnd(fs: Fat32, skip: nat, n: nat, q: nat)
    requires fs.Valid() && n > 0 && skip * fs.bytesPerSector + n <= (q + 1) * fs.BytesPerCluster()
    ensures (skip + SectorsFor(fs, n)) * fs.bytesPerSector <= (q + 1) * fs.BytesPerCluster()
  {
    var b, m := fs.bytesPerSector, (q + 1) * fs.sectorsPerCluster;
    Associate(q + 1, fs.sectorsPerCluster, b);
    TimesIsProduct(fs.sectorsPerCluster, b);
    if skip >= m {
      InOrder(m, skip, b);
    }
    Distribute(m - skip, skip, b);
    SectorsForLeast(fs, n, m - skip);
    InOrder(skip + SectorsFor(fs, n), m, b);
  }

  /** The bytes of consecutive clusters belong to the chain. */
  lemma BytesInChain(fs: Fat32, entry: nat, i: nat, end: int, y: nat, p: nat)
    requires fs.Valid() && entry >= 2 && Consecutive(fs, entry, i, end) && p == i * fs.BytesPerCluster() + y < end
    ensures InChain(fs, entry, fs.ClusterAddress(Chain(fs, entry, i).value) + y)
  {
    ConsecutiveBytes(fs, entry, i, end, y, p);
  }

  /** Whole clusters of a consecutive run belong to the chain. */
  lemma RunInChain(fs: Fat32, entry: nat, i: nat, q: nat, y: nat, c: nat)
    requires fs.Valid() && entry >= 2 && c == fs.BytesPerCluster() && Consecutive(fs, entry, i, (i + q) * c + 1) && y < (q + 1) * c
    ensures InChain(fs, entry, fs.ClusterAddress(Chain(fs, entry, i).value) + y)
  {
    ConsecutiveRun(fs, entry, i, i + q);
    RunBound(i, q, y, c);
    BytesInChain(fs, entry, i, (i + q) * c + c, y, i * c + y);
  }

  lemma RunBound(i: nat, q: nat, y: nat, c: nat)
    requires y < (q + 1) * c
    ensures 0 <= i * c && i * c + y < (i + q) * c + c
  {
    Distribute(i, q, c);
    Distribute(q, 1, c);
  }

  /** Which unit of c holds the last of `end` bytes. */
  lemma UnitOfLast(end: nat, c: nat) returns (q: nat)
    requires c > 0 && end > 0
    ensures q * c < end <= (q + 1) * c
  {
    q := (end - 1) / c;
    Between(end - 1, c);
    Distribute(q, 1, c);
  }

  /** The sectors of the one run of a request end with the cluster of its last byte, or before. */
  lemma SkippedBound(fs: Fat32, offset: nat, n: nat, t: Transfer, c: nat) returns (q: nat)
    requires fs.Valid() && c == fs.BytesPerCluster()
    requires n > 0 && t.sectorOffset == Skipped(fs, offset) && t.dataOffset == Unskipped(fs, offset) == 0 && t.sectors == SectorsFor(fs, n)
    ensures q * c < offset + n && offset + t.sectors * fs.bytesPerSector <= (q + 1) * c
  {
    q := UnitOfLast(offset + n, c);
    TransferEnd(fs, t.sectorOffset, n, q);
    Distribute(t.sectorOffset, t.sectors, fs.bytesPerSector);
  }

  lemma PlainInChain(fs: Fat32, entry: nat, i: nat, j: nat, offset: nat, n: nat, t: Transfer, x: nat)
    requires fs.Valid() && entry >= 2 && Planned(fs, entry, i, j, offset, n, t) && t.dataOffset == 0 && n > 0
    requires Skipped(fs, offset) == 0 && x < t.sectors * fs.bytesPerSector
    ensures InChain(fs, entry, fs.ClusterAddress(Chain(fs, entry, i).value) + offset + x)
  {
    RunFits(fs, entry, i, j, offset, n, t);
    RunInChain(fs, entry, i, j - i, offset + x, fs.BytesPerCluster());
  }

  /** The cluster of a byte of a consecutive stretch belongs to the chain as a whole. */
  lemma StretchInChain(fs: Fat32, entry: nat, i: nat, end: nat, q: nat, y: nat, c: nat)
    requires fs.Valid() && entry >= 2 && c == fs.BytesPerCluster() && Consecutive(fs, entry, i, i * c + end)
    requires q * c < end && y < (q + 1) * c
    ensures InChain(fs, entry, fs.ClusterAddress(Chain(fs, entry, i).value) + y)
  {
    Distribute(i, q, c);
    ConsecutiveShorter(fs, entry, i, i * c + end, (i + q) * c + 1);
    RunInChain(fs, entry, i, q, y, c);
  }

  /** The sectors of a run lie within clusters that are known to be consecutive. */
  lemma TransferInChain(fs: Fat32, entry: nat, i: nat, j: nat, offset: nat, n: nat, t: Transfer, x: nat)
    requires fs.Valid() && entry >= 2 && Planned(fs, entry, i, j, offset, n, t) && t.dataOffset == 0 && n > 0
    requires Skipped(fs, offset) == 0 || (Consecutive(fs, entry, i, i * fs.BytesPerCluster() + offset + n) && t.bytes == n)
    requires x < t.sectors * fs.bytesPerSector
    ensures Chain(fs, entry, i).Some? && InChain(fs, entry, TransferAddress(fs, Chain(fs, entry, i).value, t) + x)
  {
    TransferStart(fs, Chain(fs, entry, i).value, offset, t);
    if Skipped(fs, offset) == 0 {
      PlainInChain(fs, entry, i, j, offset, n, t, x);
    } else {
      var c := fs.BytesPerCluster();
      var q := SkippedBound(fs, offset, n, t, c);
      StretchInChain(fs, entry, i, offset + n, q, offset + x, c);
    }
  }

  // ---------------------------------------------------------------- where the bytes of a request go

  /** Address a is the place of byte k of the request; `write` stores to where `read` draws from. */
  ghost predicate PlacedAt(call: Call, k: nat, a: nat)
    requires call.Valid()
  {
    HasByte(call.fs, call.Entry(), call.Begin() + k) && DrawnFrom(call, k) == a
  }

  /** Address a is the place of one of the first n bytes. */
  ghost predicate PlacedBefore(call: Call, n: nat, a: nat)
    requires call.Valid()
  {
    exists k: nat {:trigger PlacedAt(call, k, a)} :: k < n && PlacedAt(call, k, a)
  }

  /** None of the bytes from k + 1 to n - 1 has the same place as byte k. */
  ghost predicate LastAtPlace(call: Call, k: nat, n: nat)
    requires call.Valid() && HasByte(call.fs, call.Entry(), call.Begin() + k)
  {
    forall l: nat {:trigger PlacedAt(call, l, DrawnFrom(call, k))} :: k < l < n ==> !PlacedAt(call, l, DrawnFrom(call, k))
  }

  /** Byte k is at its place, unless a later one of the first n bytes has the same. */
  ghost predicate Kept(call: Call, bytes: Bytes, content: Bytes, n: nat, k: nat)
    requires call.Valid()
  {
    && HasByte(call.fs, call.Entry(), call.Begin() + k)
    && (LastAtPlace(call, k, n) ==> content(DrawnFrom(call, k)) == bytes(call.buffer + k))
  }

  /** The first n bytes have been stored, in order. */
  ghost predicate Laid(call: Call, bytes: Bytes, content: Bytes, n: nat)
    requires call.Valid()
  {
    forall k: nat {:trigger Kept(call, bytes, content, n, k)} :: k < n ==> Kept(call, bytes, content, n, k)
  }

  /** Address a follows, in the same sector, the place of the last byte of a request that does not end with a sector. */
  ghost predicate BehindLast(call: Call, a: nat)
    requires call.Valid()
  {
    && call.n % call.fs.bytesPerSector != 0
    && exists last: nat {:trigger PlacedAt(call, call.n - 1, last)} :: PlacedAt(call, call.n - 1, last) && last < a < last + call.fs.bytesPerSector
  }

  /** Cluster v follows, on the disk, cluster j of the chain, and up to that the request begins with consecutive clusters. */
  ghost predicate Follows(call: Call, v: nat, j: nat)
    requires call.Valid()
  {
    && call.First() <= j && Consecutive(call.fs, call.Entry(), call.First(), j * call.fs.BytesPerCluster() + 1)
    && Chain(call.fs, call.Entry(), j) == Some(v - 1)
  }

  ghost predicate Neighbour(call: Call, v: nat)
    requires call.Valid()
  {
    exists j: nat :: Follows(call, v, j)
  }

  /** Address a lies in the part of such a cluster into which the first run is ahead. */
  ghost predicate InAhead(call: Call, a: nat)
    requires call.Valid()
  {
    exists v: nat {:trigger Neighbour(call, v)} :: v >= 2 && Neighbour(call, v) && call.fs.ClusterAddress(v) <= a < call.fs.ClusterAddress(v) + Ahead(call)
  }

  /** Only bytes of the file have changed. */
  ghost predicate OnlyChain(call: Call, start: Bytes, content: Bytes)
    requires call.Valid()
  {
    forall a: nat :: content(a) != start(a) ==> InChain(call.fs, call.Entry(), a)
  }

  /** Only bytes of the file have changed; or, if the request is not supported, those into which its first run is ahead. */
  ghost predicate OnlyNear(call: Call, start: Bytes, content: Bytes)
    requires call.Valid()
  {
    forall a: nat :: content(a) != start(a) ==> InChain(call.fs, call.Entry(), a) || (!call.Good() && InAhead(call, a))
  }

  /** The request has been carried out: its bytes are at their places, and besides at most the rest of the sector of the
      last one has changed. */
  ghost predicate WriteOk(call: Call, bytes: Bytes, start: Bytes, content: Bytes)
    requires call.Valid()
  {
    && Laid(call, bytes, content, call.n)
    && forall a: nat :: content(a) != start(a) ==> PlacedBefore(call, call.n, a) || BehindLast(call, a)
  }

  /** The state at the beginning of a run. */
  ghost predicate Writing(call: Call, bytes: Bytes, start: Bytes, content: Bytes, i: nat, dataOffset: nat, done: nat)
    requires call.Valid()
  {
    && Chain(call.fs, call.Entry(), i).Some? && dataOffset < call.fs.BytesPerCluster()
    && OnPace(call, i, dataOffset, done)
    && OnlyNear(call, start, content)
    && (done <= call.n ==> Laid(call, bytes, content, done) && forall a: nat :: content(a) != start(a) ==> PlacedBefore(call, done, a))
  }

  lemma WritingStarts(call: Call, bytes: Bytes, start: Bytes)
    requires call.Valid() && Chain(call.fs, call.Entry(), call.First()).Some?
    ensures Writing(call, bytes, start, start, call.First(), call.offset % call.fs.BytesPerCluster(), 0)
  {
    Between(call.offset, call.fs.BytesPerCluster());
  }

  // ---------------------------------------------------------------- runs

  /** Byte k of the request, which belongs to a run that begins with byte `done`, is at its place if the run begins at `at`. */
  ghost predicate RunByte(call: Call, done: nat, at: nat, k: nat)
    requires call.Valid()
  {
    done <= k && PlacedAt(call, k, at + (k - done))
  }

  /** A run of m bytes that begins at `at`. */
  ghost predicate RunAt(call: Call, done: nat, m: nat, at: nat)
    requires call.Valid()
  {
    forall k: nat {:trigger RunByte(call, done, at, k)} :: done <= k < done + m ==> RunByte(call, done, at, k)
  }

  /** A run begins at the place of its first byte. */
  lemma RunPlaces(call: Call, i: nat, j: nat, dataOffset: nat, done: nat, t: Transfer)
    requires call.Valid() && OnPace(call, i, dataOffset, done) && done <= call.n && dataOffset < call.fs.BytesPerCluster()
    requires Planned(call.fs, call.Entry(), i, j, dataOffset, call.n, t) && t.dataOffset == 0
    ensures RunAt(call, done, t.bytes, TransferAddress(call.fs, Chain(call.fs, call.Entry(), i).value, t))
  {
    TransferStart(call.fs, Chain(call.fs, call.Entry(), i).value, dataOffset, t);
    forall k: nat | done <= k < done + t.bytes
      ensures RunByte(call, done, TransferAddress(call.fs, Chain(call.fs, call.Entry(), i).value, t), k)
    {
      RunDraws(call, i, j, dataOffset, done, t, k - done);
    }
  }

  /** What one more run of m bytes does; the bytes before stay where no later one goes. */
  lemma RunLays(call: Call, bytes: Bytes, before: Bytes, after: Bytes, at: nat, done: nat, m: nat, count: nat, n: nat)
    requires call.Valid() && Laid(call, bytes, before, done) && n == done + m && m <= count && (done == 0 || m == count)
    requires RunAt(call, done, m, at) && CopiedTo(bytes, call.buffer + done, before, after, at, count)
    ensures Laid(call, bytes, after, n)
  {
    forall k: nat | k < n
      ensures Kept(call, bytes, after, n, k)
    {
      if k >= done {
        assert RunByte(call, done, at, k);
      } else {
        assert Kept(call, bytes, before, done, k);
        EarlierByteKept(call, bytes, before, after, at, done, m, k);
      }
    }
  }

  lemma EarlierByteKept(call: Call, bytes: Bytes, before: Bytes, after: Bytes, at: nat, done: nat, m: nat, k: nat)
    requires call.Valid() && k < done && Kept(call, bytes, before, done, k)
    requires RunAt(call, done, m, at) && CopiedTo(bytes, call.buffer + done, before, after, at, m)
    ensures Kept(call, bytes, after, done + m, k)
  {
    var a := DrawnFrom(call, k);
    if LastAtPlace(call, k, done + m) {
      EarlierPlaceFree(call, at, done, m, k);
      StillLast(call, k, done, m);
    }
  }

  lemma StillLast(call: Call, k: nat, done: nat, m: nat)
    requires call.Valid() && HasByte(call.fs, call.Entry(), call.Begin() + k) && LastAtPlace(call, k, done + m)
    ensures LastAtPlace(call, k, done)
  {
  }

  lemma EarlierPlaceFree(call: Call, at: nat, done: nat, m: nat, k: nat)
    requires call.Valid() && k < done && HasByte(call.fs, call.Entry(), call.Begin() + k) && LastAtPlace(call, k, done + m) && RunAt(call, done, m, at)
    ensures !(at <= DrawnFrom(call, k) < at + m)
  {
    var a := DrawnFrom(call, k);
    if at <= a < at + m {
      RunHolds(call, at, done, m, a);
    }
  }

  lemma RunHolds(call: Call, at: nat, done: nat, m: nat, a: nat)
    requires call.Valid() && RunAt(call, done, m, at) && at <= a < at + m
    ensures PlacedAt(call, done + (a - at), a)
  {
    assert RunByte(call, done, at, done + (a - at));
  }

  /** What one more run changes. */
  lemma RunChanges(call: Call, start: Bytes, before: Bytes, after: Bytes, src: Bytes, at: nat, done: nat, m: nat, a: nat)
    requires call.Valid() && (before(a) != start(a) ==> PlacedBefore(call, done, a))
    requires RunAt(call, done, m, at) && CopiedTo(src, call.buffer + done, before, after, at, m) && after(a) != start(a)
    ensures PlacedBefore(call, done + m, a)
  {
    if at <= a < at + m {
      assert RunByte(call, done, at, done + (a - at));
    } else {
      var k: nat :| k < done && PlacedAt(call, k, a);
    }
  }

  /** A run that ends with whole clusters carries the request on. */
  lemma RunCarriesOn(call: Call, bytes: Bytes, start: Bytes, before: Bytes, after: Bytes, i: nat, j: nat, dataOffset: nat, done: nat, t: Transfer)
    requires call.Valid() && done <= call.n && Writing(call, bytes, start, before, i, dataOffset, done)
    requires Planned(call.fs, call.Entry(), i, j, dataOffset, call.n, t) && t.dataOffset == 0 && t.bytes < call.n
    requires CopiedTo(bytes, call.buffer + done, before, after, TransferAddress(call.fs, Chain(call.fs, call.Entry(), i).value, t), t.sectors * call.fs.bytesPerSector)
    ensures Laid(call, bytes, after, done + t.bytes)
    ensures forall a: nat :: after(a) != start(a) ==> PlacedBefore(call, done + t.bytes, a)
  {
    var at := TransferAddress(call.fs, Chain(call.fs, call.Entry(), i).value, t);
    RunPlaces(call, i, j, dataOffset, done, t);
    RunLays(call, bytes, before, after, at, done, t.bytes, t.bytes, done + t.bytes);
    forall a: nat | after(a) != start(a)
      ensures PlacedBefore(call, done + t.bytes, a)
    {
      RunChanges(call, start, before, after, bytes, at, done, t.bytes, a);
    }
  }

  /** What the one run of a request changes, if it stores `count` bytes from `at` on. */
  lemma OneRunChanges(call: Call, src: Bytes, start: Bytes, after: Bytes, at: nat, count: nat, a: nat)
    requires call.Valid() && call.n > 0 && RunAt(call, 0, call.n, at) && CopiedTo(src, call.buffer, start, after, at, count) && after(a) != start(a)
    ensures PlacedBefore(call, call.n, a) || (PlacedAt(call, call.n - 1, at + (call.n - 1)) && at + call.n <= a < at + count)
  {
    if a < at + call.n {
      RunHolds(call, at, 0, call.n, a);
    } else {
      RunHolds(call, at, 0, call.n, at + (call.n - 1));
    }
  }

  lemma IsBehindLast(call: Call, last: nat, a: nat)
    requires call.Valid() && call.n > 0 && PlacedAt(call, call.n - 1, last) && last < a <= last + (SectorsFor(call.fs, call.n) * call.fs.bytesPerSector - call.n)
    ensures BehindLast(call, a)
  {
    SectorsForBound(call.fs, call.n);
  }

  /** A run that covers the whole request carries it out. */
  lemma RunDoes(call: Call, bytes: Bytes, start: Bytes, after: Bytes, i: nat, j: nat, dataOffset: nat, t: Transfer)
    requires call.Valid() && call.n > 0 && Writing(call, bytes, start, start, i, dataOffset, 0)
    requires Planned(call.fs, call.Entry(), i, j, dataOffset, call.n, t) && t.dataOffset == 0 && t.bytes == call.n
    requires CopiedTo(bytes, call.buffer, start, after, TransferAddress(call.fs, Chain(call.fs, call.Entry(), i).value, t), t.sectors * call.fs.bytesPerSector)
    ensures WriteOk(call, bytes, start, after)
  {
    var at := TransferAddress(call.fs, Chain(call.fs, call.Entry(), i).value, t);
    SectorsForBound(call.fs, call.n);
    RunPlaces(call, i, j, dataOffset, 0, t);
    RunLays(call, bytes, start, after, at, 0, call.n, t.sectors * call.fs.bytesPerSector, call.n);
    forall a: nat | after(a) != start(a)
      ensures PlacedBefore(call, call.n, a) || BehindLast(call, a)
    {
      OneRunChanges(call, bytes, start, after, at, t.sectors * call.fs.bytesPerSector, a);
      if !PlacedBefore(call, call.n, a) {
        IsBehindLast(call, at + (call.n - 1), a);
      }
    }
  }

  /** The request after its last run. */
  lemma AfterLastRun(call: Call, bytes: Bytes, start: Bytes, before: Bytes, after: Bytes, i: nat, j: nat, dataOffset: nat, done: nat, t: Transfer)
    requires call.Valid() && call.n > 0 && Writing(call, bytes, start, before, i, dataOffset, done) && t.dataOffset == 0 && done + t.bytes == call.n
    requires Planned(call.fs, call.Entry(), i, j, dataOffset, call.n, t)
    requires CopiedTo(bytes, call.buffer + done, before, after, TransferAddress(call.fs, Chain(call.fs, call.Entry(), i).value, t), t.sectors * call.fs.bytesPerSector)
    ensures WriteOk(call, bytes, start, after)
  {
    if t.bytes < call.n {
      RunCarriesOn(call, bytes, start, before, after, i, j, dataOffset, done, t);
    } else {
      NothingChanged(call, bytes, start, before, i, dataOffset);
      RunDoes(call, bytes, before, after, i, j, dataOffset, t);
      SameStart(call, bytes, start, before, after);
    }
  }

  /** Before the first run nothing has changed. */
  lemma NothingChanged(call: Call, bytes: Bytes, start: Bytes, before: Bytes, i: nat, dataOffset: nat)
    requires call.Valid() && Writing(call, bytes, start, before, i, dataOffset, 0)
    ensures forall a: nat :: before(a) == start(a)
    ensures Writing(call, bytes, before, before, i, dataOffset, 0)
  {
  }

  lemma SameStart(call: Call, bytes: Bytes, start: Bytes, before: Bytes, after: Bytes)
    requires call.Valid() && WriteOk(call, bytes, before, after) && forall a: nat :: before(a) == start(a)
    ensures WriteOk(call, bytes, start, after)
  {
  }

  /** What a run changes belongs to the file. */
  lemma RunOnlyChain(call: Call, src: Bytes, start: Bytes, before: Bytes, after: Bytes, i: nat, j: nat, dataOffset: nat, done: nat, t: Transfer, last: nat)
    requires call.Valid() && call.Good() && call.n > 0 && OnlyChain(call, start, before) && t.dataOffset == 0
    requires (done == 0 ==> Placed(call, i, dataOffset, 0)) && (done > 0 ==> dataOffset == 0)
    requires Outcome(call.fs, call.Entry(), i, j, dataOffset, call.n, true, Some((t, last)))
    requires CopiedTo(src, call.buffer + done, before, after, TransferAddress(call.fs, Chain(call.fs, call.Entry(), i).value, t), t.sectors * call.fs.bytesPerSector)
    ensures OnlyChain(call, start, after)
  {
    var at := TransferAddress(call.fs, Chain(call.fs, call.Entry(), i).value, t);
    if done == 0 {
      RunIsConsecutive(call, i, j, dataOffset, 0, true, t, last);
    }
    forall a: nat | after(a) != start(a)
      ensures InChain(call.fs, call.Entry(), a)
    {
      if at <= a < at + t.sectors * call.fs.bytesPerSector {
        TransferInChain(call.fs, call.Entry(), i, j, dataOffset, call.n, t, a - at);
      }
    }
  }

  /** What a run changes belongs to the file, or it is ahead of it. */
  lemma RunNear(call: Call, src: Bytes, start: Bytes, before: Bytes, after: Bytes, i: nat, j: nat, dataOffset: nat, done: nat, t: Transfer, a: nat)
    requires call.Valid() && OnPace(call, i, dataOffset, done) && t.dataOffset == 0 && dataOffset < call.fs.BytesPerCluster()
    requires Planned(call.fs, call.Entry(), i, j, dataOffset, call.n, t)
    requires before(a) != start(a) ==> InChain(call.fs, call.Entry(), a) || InAhead(call, a)
    requires CopiedTo(src, call.buffer + done, before, after, TransferAddress(call.fs, Chain(call.fs, call.Entry(), i).value, t), t.sectors * call.fs.bytesPerSector)
    requires after(a) != start(a)
    ensures InChain(call.fs, call.Entry(), a) || InAhead(call, a)
  {
    var at := TransferAddress(call.fs, Chain(call.fs, call.Entry(), i).value, t);
    if at <= a < at + t.sectors * call.fs.bytesPerSector {
      RunFits(call.fs, call.Entry(), i, j, dataOffset, call.n, t);
      TransferStart(call.fs, Chain(call.fs, call.Entry(), i).value, dataOffset, t);
      PlaceInRun(call, i, j, dataOffset, done, dataOffset + (a - at));
    }
  }

  /** The y-th byte behind the beginning of a run of consecutive clusters, if it is at most dataOffset bytes behind them. */
  lemma PlaceInRun(call: Call, i: nat, j: nat, dataOffset: nat, done: nat, y: nat)
    requires call.Valid() && OnPace(call, i, dataOffset, done) && Unskipped(call.fs, dataOffset) == 0 && i <= j
    requires Consecutive(call.fs, call.Entry(), i, j * call.fs.BytesPerCluster() + 1)
    requires y < (j - i + 1) * call.fs.BytesPerCluster() + dataOffset
    ensures Chain(call.fs, call.Entry(), i).Some?
    ensures var a := call.fs.ClusterAddress(Chain(call.fs, call.Entry(), i).value) + y;
            InChain(call.fs, call.Entry(), a) || InAhead(call, a)
  {
    if y < (j - i + 1) * call.fs.BytesPerCluster() {
      RunInChain(call.fs, call.Entry(), i, j - i, y, call.fs.BytesPerCluster());
    } else {
      PlaceAhead(call, i, j, y - (j - i + 1) * call.fs.BytesPerCluster());
    }
  }

  /** The y-th byte behind the consecutive clusters i to j with which the request begins. */
  lemma PlaceAhead(call: Call, i: nat, j: nat, y: nat)
    requires call.Valid() && i == call.First() && i <= j && Consecutive(call.fs, call.Entry(), i, j * call.fs.BytesPerCluster() + 1) && y < Ahead(call)
    ensures Chain(call.fs, call.Entry(), i).Some?
    ensures InAhead(call, call.fs.ClusterAddress(Chain(call.fs, call.Entry(), i).value) + (j - i + 1) * call.fs.BytesPerCluster() + y)
  {
    var cluster := Chain(call.fs, call.Entry(), i).value;
    NextAddress(call.fs, cluster, j - i + 1);
    assert Chain(call.fs, call.Entry(), j) == Some(cluster + (j - i));
    assert Follows(call, cluster + (j - i + 1), j);
    assert Neighbour(call, cluster + (j - i + 1));
  }

  lemma RunOnlyNear(call: Call, src: Bytes, start: Bytes, before: Bytes, after: Bytes, i: nat, j: nat, dataOffset: nat, done: nat, t: Transfer, last: nat)
    requires call.Valid() && call.n > 0 && OnPace(call, i, dataOffset, done) && OnlyNear(call, start, before) && t.dataOffset == 0
    requires dataOffset < call.fs.BytesPerCluster() && Outcome(call.fs, call.Entry(), i, j, dataOffset, call.n, true, Some((t, last)))
    requires CopiedTo(src, call.buffer + done, before, after, TransferAddress(call.fs, Chain(call.fs, call.Entry(), i).value, t), t.sectors * call.fs.bytesPerSector)
    ensures OnlyNear(call, start, after)
  {
    if call.Good() {
      if done == 0 {
        Split(call.offset, call.fs.BytesPerCluster());
      }
      RunOnlyChain(call, src, start, before, after, i, j, dataOffset, done, t, last);
    } else {
      forall a: nat | after(a) != start(a)
        ensures InChain(call.fs, call.Entry(), a) || InAhead(call, a)
      {
        RunNear(call, src, start, before, after, i, j, dataOffset, done, t, a);
      }
    }
  }

  /** The disk after one more run, however it goes on. */
  lemma AfterWrite(call: Call, bytes: Bytes, start: Bytes, before: Bytes, after: Bytes, i: nat, j: nat, dataOffset: nat, done: nat, t: Transfer, last: nat)
    requires call.Valid() && call.n > 0 && Writing(call, bytes, start, before, i, dataOffset, done) && t.dataOffset == 0
    requires OnWritePace(call, i, dataOffset, done) && Outcome(call.fs, call.Entry(), i, j, dataOffset, call.n, true, Some((t, last)))
    requires CopiedTo(bytes, call.buffer + done, before, after, TransferAddress(call.fs, Chain(call.fs, call.Entry(), i).value, t), t.sectors * call.fs.bytesPerSector)
    ensures OnlyNear(call, start, after)
    ensures done + t.bytes == call.n ==> WriteOk(call, bytes, start, after) && WriteCompletes(call)
    ensures done + t.bytes != call.n ==>
              if Chain(call.fs, call.Entry(), j + 1).None? then !WriteCompletes(call)
              else Writing(call, bytes, start, after, j + 1, 0, done + t.bytes) && OnWritePace(call, j + 1, 0, done + t.bytes)
  {
    RunOnlyNear(call, bytes, start, before, after, i, j, dataOffset, done, t, last);
    AfterWritePace(call, i, j, dataOffset, done, t, last);
    if done + t.bytes == call.n {
      AfterLastRun(call, bytes, start, before, after, i, j, dataOffset, done, t);
    } else if done <= call.n && t.bytes < call.n {
      RunCarriesOn(call, bytes, start, before, after, i, j, dataOffset, done, t);
    }
  }
}
