/** `Fat32::write`, and what a later `read`, of this file or of another one, makes of it. */
module Fat32Write {
  import opened Wrappers
  import opened Arithmetic
  import opened Fat32Chains
  import opened Fat32Volume
  import opened Fat32Planning
  import opened Fat32Files
  import opened Fat32Fragments
  import opened Fat32Read
  import opened Fat32Stores

  /** On consecutive clusters a healthy disk serves the one transfer. */
  lemma OneWriteDoes(fs: Fat32, disk: Disk, entry: nat, i: nat, j: nat, dataOffset: nat, n: nat, plan: Option<(Transfer, nat)>)
    requires fs.Valid() && entry >= 2 && ReachesFrom(fs, disk, entry, i, dataOffset, n)
    requires Outcome(fs, entry, i, j, dataOffset, n, true, plan)
    ensures plan.Some? ==>
              && plan.value.0.bytes == n && plan.value.0.dataOffset == Unskipped(fs, dataOffset)
              && disk.Serves(TransferAddress(fs, Chain(fs, entry, i).value, plan.value.0), plan.value.0.sectors * fs.bytesPerSector)
    ensures Unskipped(fs, dataOffset) == 0 ==> (plan.Some? <==> LastPart(n, fs.BytesPerCluster()) >= fs.bytesPerSector)
  {
    if plan.Some? {
      Served(fs, disk, Chain(fs, entry, i).value, dataOffset, n, plan.value.0);
    }
  }

  /** A request that `write` accepts on consecutive clusters: the bytes before it in its cluster are whole sectors, but not
      a single one, and its last part is at least a sector long. */
  predicate Writable(fs: Fat32, offset: nat, n: nat)
    requires fs.Valid()
  {
    Unskipped(fs, offset % fs.BytesPerCluster()) == 0 && LastPart(n, fs.BytesPerCluster()) >= fs.bytesPerSector
  }

  /** Why a run fails: there is no plan, or it does not begin with a sector, or the disk does not serve it. */
  lemma WriteFails(call: Call, disk: Disk, i: nat, j: nat, dataOffset: nat, done: nat, plan: Option<(Transfer, nat)>)
    requires call.Valid() && OnWritePace(call, i, dataOffset, done) && Healthy(call, disk)
    requires Outcome(call.fs, call.Entry(), i, j, dataOffset, call.n, true, plan)
    requires plan.Some? && plan.value.0.dataOffset == 0 ==>
               !disk.Serves(TransferAddress(call.fs, Chain(call.fs, call.Entry(), i).value, plan.value.0), plan.value.0.sectors * call.fs.bytesPerSector)
    ensures !WriteCompletes(call)
  {
    if plan.Some? {
      RunServed(call, disk, i, j, dataOffset, done, plan.value.0);
    } else if EndsEarly(call.fs, call.Entry(), i, j, dataOffset, call.n) {
      NotPlanned(call, i, j, dataOffset, done);
    } else {
      TooShort(call, i, j, dataOffset, done);
    }
  }

  /** Plans one run and writes it. */
  method PlanAndWrite(disk: Disk, memory: Memory, cluster: nat, dataOffset: nat, done: nat, call: Call, ghost i: nat)
    returns (plan: Option<(Transfer, nat)>, ghost j: nat)
    requires call.Valid() && Chain(call.fs, call.Entry(), i) == Some(cluster) && dataOffset < call.fs.BytesPerCluster()
    requires OnWritePace(call, i, dataOffset, done)
    modifies disk`content
    ensures plan.Some? ==>
              && call.n > 0 && plan.value.0.dataOffset == 0 && Outcome(call.fs, call.Entry(), i, j, dataOffset, call.n, true, plan)
              && CopiedTo(memory.bytes, call.buffer + done, old(disk.content), disk.content,
                          TransferAddress(call.fs, cluster, plan.value.0), plan.value.0.sectors * call.fs.bytesPerSector)
    ensures plan.None? ==> disk.content == old(disk.content) && (Healthy(call, disk) ==> !WriteCompletes(call))
    ensures done == 0 && Reaches(call.fs, disk, call.file, call.offset, call.n) ==>
              (plan.Some? <==> Writable(call.fs, call.offset, call.n)) && (plan.Some? ==> plan.value.0.bytes == call.n)
  {
    plan, j := PlanTransfer(call.fs, cluster, dataOffset, call.n, true, call.Entry(), i);
    if done == 0 && Reaches(call.fs, disk, call.file, call.offset, call.n) {
      OneWriteDoes(call.fs, disk, call.Entry(), i, j, dataOffset, call.n, plan);
    }
    if plan.Some? && plan.value.0.dataOffset == 0 {
      var t := plan.value.0;
      var ok := disk.Write(memory, call.buffer + done, TransferAddress(call.fs, cluster, t), t.sectors * call.fs.bytesPerSector);
      if ok {
        return;
      }
    }
    if Healthy(call, disk) {
      WriteFails(call, disk, i, j, dataOffset, done, plan);
    }
    plan := None;
  }

  /** One run: plans it, writes it, and looks for the next cluster if there is more to write. */
  method WriteTransfer(disk: Disk, memory: Memory, cluster: nat, dataOffset: nat, done: nat, call: Call, ghost start: Bytes, ghost i: nat)
    returns (turn: Turn, ghost j: nat)
    requires call.Valid()
    requires Writing(call, memory.bytes, start, disk.content, i, dataOffset, done) && Chain(call.fs, call.Entry(), i) == Some(cluster)
    requires OnWritePace(call, i, dataOffset, done)
    modifies disk`content
    ensures turn.Finished? ==> WriteOk(call, memory.bytes, start, disk.content) && WriteCompletes(call)
    ensures turn.Onward? ==>
              && j >= i && Chain(call.fs, call.Entry(), j + 1) == Some(turn.cluster)
              && Writing(call, memory.bytes, start, disk.content, j + 1, 0, done + turn.bytes) && OnWritePace(call, j + 1, 0, done + turn.bytes)
    ensures OnlyNear(call, start, disk.content)
    ensures turn.Failed? && Healthy(call, disk) ==> !WriteCompletes(call)
    ensures done == 0 && Reaches(call.fs, disk, call.file, call.offset, call.n) ==> (if Writable(call.fs, call.offset, call.n) then turn.Finished? else turn.Failed?)
  {
    ghost var before := disk.content;
    var plan;
    plan, j := PlanAndWrite(disk, memory, cluster, dataOffset, done, call, i);
    if plan.None? {
      return Failed, j;
    }
    var t, writing := plan.value.0, plan.value.1;
    AfterWrite(call, memory.bytes, start, before, disk.content, i, j, dataOffset, done, t, writing);
    if done + t.bytes == call.n {
      return Finished, j;
    }
    var next := call.fs.GetNextCluster(writing);
    if next.None? {
      return Failed, j;
    }
    return Onward(next.value, t.bytes), j;
  }

  /** Run after run, from the cluster in which the request begins. */
  method WriteRuns(call: Call, disk: Disk, memory: Memory, first: nat) returns (ok: bool)
    requires call.Valid() && Chain(call.fs, call.Entry(), call.First()) == Some(first)
    modifies disk`content
    ensures ok ==> WriteOk(call, memory.bytes, old(disk.content), disk.content)
    ensures OnlyNear(call, old(disk.content), disk.content)
    ensures Reaches(call.fs, disk, call.file, call.offset, call.n) ==> (ok <==> Writable(call.fs, call.offset, call.n))
    ensures Healthy(call, disk) ==> (ok <==> WriteCompletes(call))
  {
    ghost var last: nat :| EndsBy(call.fs, call.Entry(), last);
    var cluster: nat, dataOffset: nat, done: nat := first, call.offset % call.fs.BytesPerCluster(), 0;
    ghost var i := call.First();
    WritingStarts(call, memory.bytes, disk.content);
    while true
      invariant Writing(call, memory.bytes, old(disk.content), disk.content, i, dataOffset, done)
      invariant Chain(call.fs, call.Entry(), i) == Some(cluster) && OnWritePace(call, i, dataOffset, done)
      invariant done == 0 || !Reaches(call.fs, disk, call.file, call.offset, call.n)
      decreases last - i
    {
      var turn;
      ghost var j;
      turn, j := WriteTransfer(disk, memory, cluster, dataOffset, done, call, old(disk.content), i);
      match turn
      case Failed => return false;
      case Finished => return true;
      case Onward(next, bytes) =>
        NotEnded(call.fs, call.Entry(), j + 1, last);
        cluster, dataOffset, done, i := next, 0, done + bytes, j + 1;
    }
  }

  /** What a write changes at most lies neither in the reserved sectors nor in a copy of the table. */
  lemma TablesUnchanged(call: Call, start: Bytes, content: Bytes)
    requires call.Valid() && OnlyNear(call, start, content)
    ensures forall a: nat :: InReserved(call.fs, a) || InTable(call.fs, a) ==> content(a) == start(a)
  {
    forall a: nat | content(a) != start(a)
      ensures !InReserved(call.fs, a) && !InTable(call.fs, a)
    {
      if InChain(call.fs, call.Entry(), a) {
        var p: nat :| HasByte(call.fs, call.Entry(), p) && FileAddress(call.fs, call.Entry(), p) == a;
        FileInClusters(call.fs, call.Entry(), p);
      } else {
        var v: nat :| v >= 2 && Neighbour(call, v) && call.fs.ClusterAddress(v) <= a < call.fs.ClusterAddress(v) + Ahead(call);
        DataApart(call.fs, v, a - call.fs.ClusterAddress(v));
      }
    }
  }

  /** Writes up to `length` bytes of memory to a file. */
  method Write(fs: Fat32, file: FileInfo, disk: Disk, memory: Memory, buffer: nat, offset: nat, length: nat) returns (r: Option<nat>)
    requires fs.Valid() && (Outside(file, offset, length) || Sound(fs, file))
    modifies disk`content
    ensures Outside(file, offset, length) ==> r == Some(0) && disk.content == old(disk.content)
    ensures !Outside(file, offset, length) && r.Some? ==>
              var n := Clamped(file, offset, length);
              r.value == n && WriteOk(Call(fs, file, buffer, offset, n), memory.bytes, old(disk.content), disk.content)
    ensures !Outside(file, offset, length) ==>
              var call := Call(fs, file, buffer, offset, Clamped(file, offset, length));
              OnlyNear(call, old(disk.content), disk.content)
    ensures r.Some? ==> r.value == (if offset >= file.fileSize then 0 else if length < file.fileSize - offset then length else file.fileSize - offset)
    // neither the reserved sectors nor the tables change
    ensures forall a: nat :: InReserved(fs, a) || InTable(fs, a) ==> disk.content(a) == old(disk.content)(a)
    ensures !Outside(file, offset, length) && Reaches(fs, disk, file, offset, Clamped(file, offset, length)) ==>
              (r.Some? <==> Writable(fs, offset, Clamped(file, offset, length)))
    ensures !Outside(file, offset, length) ==>
              var call := Call(fs, file, buffer, offset, Clamped(file, offset, length));
              Healthy(call, disk) ==> (r.Some? <==> WriteCompletes(call))
  {
    if offset + length > file.fileSize && offset >= file.fileSize {
      return Some(0);
    }
    var n: nat := if offset + length > file.fileSize then file.fileSize - offset else length;
    var call := Call(fs, file, buffer, offset, n);
    var first := SkipClusters(fs, call.Entry(), offset / fs.BytesPerCluster());
    if first.None? {
      NothingThere(call);
      return None;
    }
    var ok := WriteRuns(call, disk, memory, first.value);
    TablesUnchanged(call, old(disk.content), disk.content);
    return if ok then Some(n) else None;
  }

  // ---------------------------------------------------------------- supported requests

  /** Byte `offset + k` of the file is byte k of the buffer. */
  ghost predicate StoredByte(call: Call, bytes: Bytes, content: Bytes, k: nat)
    requires call.Valid()
  {
    HasByte(call.fs, call.Entry(), call.offset + k) && content(FileAddress(call.fs, call.Entry(), call.offset + k)) == bytes(call.buffer + k)
  }

  /** A supported request has stored every byte where the file has it. */
  lemma WriteIsRight(call: Call, bytes: Bytes, start: Bytes, content: Bytes, k: nat)
    requires call.Valid() && call.Good() && WriteOk(call, bytes, start, content) && k < call.n
    ensures StoredByte(call, bytes, content, k)
  {
    assert Kept(call, bytes, content, call.n, k);
    SupportedIsRight(call, k);
    forall l: nat | k < l < call.n
      ensures !PlacedAt(call, l, DrawnFrom(call, k))
    {
      OwnPlace(call, k, l);
    }
  }

  /** Different bytes of a supported request have different places. */
  lemma OwnPlace(call: Call, k: nat, l: nat)
    requires call.Valid() && call.Good() && k < l < call.n && HasByte(call.fs, call.Entry(), call.Begin() + k)
    ensures !PlacedAt(call, l, DrawnFrom(call, k))
  {
    if HasByte(call.fs, call.Entry(), call.Begin() + l) {
      var n: nat :| EndsBy(call.fs, call.Entry(), n);
      SupportedIsRight(call, k);
      SupportedIsRight(call, l);
      BytesDiffer(call.fs, call.Entry(), call.offset + k, call.offset + l, n);
    }
  }

  // ---------------------------------------------------------------- what later reads see

  /** A read of what has been written returns it. */
  lemma ReadAfterWrite(fs: Fat32, file: FileInfo, offset: nat, n: nat, source: nat, target: nat,
                       bytes: Bytes, start: Bytes, content: Bytes, start': Bytes, bytes': Bytes, k: nat)
    requires Sound(fs, file) && Supported(fs, file, offset, n) && k < n
    requires WriteOk(Call(fs, file, source, offset, n), bytes, start, content)
    requires ReadOk(Call(fs, file, target, offset, n), content, start', bytes')
    ensures bytes'(target + k) == bytes(source + k)
  {
    WriteIsRight(Call(fs, file, source, offset, n), bytes, start, content, k);
    ReadIsRight(Call(fs, file, target, offset, n), content, start', bytes');
    assert HoldsByte(fs, file.entryCluster, content, bytes', target, offset, k);
  }

  /** A write, whether it succeeds or not, leaves every file alone that has no cluster in common with this one, and, if
      the request is not supported, no cluster that follows its first run. */
  lemma OtherFilesUnchanged(call: Call, other: nat, start: Bytes, content: Bytes, q: nat)
    requires call.Valid() && other >= 2 && OnlyNear(call, start, content) && HasByte(call.fs, other, q)
    requires Disjoint(call.fs, call.Entry(), other)
    requires call.Good() || forall j: nat {:trigger Neighbour(call, Chain(call.fs, other, j).value)} ::
                              Chain(call.fs, other, j).Some? ==> !Neighbour(call, Chain(call.fs, other, j).value)
    ensures content(FileAddress(call.fs, other, q)) == start(FileAddress(call.fs, other, q))
  {
    var a := FileAddress(call.fs, other, q);
    if content(a) != start(a) {
      NotShared(call.fs, call.Entry(), other, q);
      if !call.Good() {
        assert !Neighbour(call, Chain(call.fs, other, q / call.fs.BytesPerCluster()).value);
        NotAhead(call, other, q);
      }
    }
  }

  lemma NotShared(fs: Fat32, entry: nat, other: nat, q: nat)
    requires fs.Valid() && entry >= 2 && other >= 2 && HasByte(fs, other, q)
    requires Disjoint(fs, entry, other)
    ensures !InChain(fs, entry, FileAddress(fs, other, q))
  {
    forall p: nat | HasByte(fs, entry, p)
      ensures FileAddress(fs, entry, p) != FileAddress(fs, other, q)
    {
      FilesApart(fs, entry, other, p, q);
    }
  }

  lemma NotAhead(call: Call, other: nat, q: nat)
    requires call.Valid() && other >= 2 && HasByte(call.fs, other, q)
    requires !Neighbour(call, Chain(call.fs, other, q / call.fs.BytesPerCluster()).value)
    ensures !InAhead(call, FileAddress(call.fs, other, q))
  {
    Split(q, call.fs.BytesPerCluster());
    ClusterNotAhead(call, Chain(call.fs, other, q / call.fs.BytesPerCluster()).value, q % call.fs.BytesPerCluster());
  }

  lemma ClusterNotAhead(call: Call, w: nat, x: nat)
    requires call.Valid() && w >= 2 && x < call.fs.BytesPerCluster() && !Neighbour(call, w)
    ensures !InAhead(call, call.fs.ClusterAddress(w) + x)
  {
    AheadBelow(call);
    forall v: nat | v >= 2 && Neighbour(call, v)
      ensures !(call.fs.ClusterAddress(v) <= call.fs.ClusterAddress(w) + x < call.fs.ClusterAddress(v) + Ahead(call))
    {
      ClusterApartFrom(call.fs, v, w, Ahead(call), x);
    }
  }

  lemma ClusterApartFrom(fs: Fat32, v: nat, w: nat, ahead: nat, x: nat)
    requires fs.Valid() && v >= 2 && w >= 2 && v != w && ahead <= fs.BytesPerCluster() && x < fs.BytesPerCluster()
    ensures !(fs.ClusterAddress(v) <= fs.ClusterAddress(w) + x < fs.ClusterAddress(v) + ahead)
  {
    var a, b := fs.ClusterAddress(v), fs.ClusterAddress(w);
    if a <= b + x < a + ahead {
      ClustersApart(fs, v, w, b + x - a, x);
    }
  }

  /** Other bytes of the same file stay as well, if the request ends with a sector. */
  lemma OtherBytesUnchanged(call: Call, bytes: Bytes, start: Bytes, content: Bytes, p: nat)
    requires call.Valid() && call.Good() && WriteOk(call, bytes, start, content) && HasByte(call.fs, call.Entry(), p)
    requires call.n % call.fs.bytesPerSector == 0 && !(call.offset <= p < call.offset + call.n)
    ensures content(FileAddress(call.fs, call.Entry(), p)) == start(FileAddress(call.fs, call.Entry(), p))
  {
    var a := FileAddress(call.fs, call.Entry(), p);
    ghost var last: nat :| EndsBy(call.fs, call.Entry(), last);
    if content(a) != start(a) {
      var k: nat :| k < call.n && PlacedAt(call, k, a);
      SupportedIsRight(call, k);
      BytesDiffer(call.fs, call.Entry(), p, call.offset + k, last);
    }
  }

  /** What a completed request stores ahead of its first run: the beginning of the cluster behind that run. */
  lemma AheadIsStored(call: Call, e: nat, k: nat, bytes: Bytes, start: Bytes, content: Bytes)
    requires call.Valid() && call.First() < e && Consecutive(call.fs, call.Entry(), call.First(), e * call.fs.BytesPerCluster())
    requires call.n == e * call.fs.BytesPerCluster() - call.Begin() && k < call.n && e * call.fs.BytesPerCluster() <= call.offset + k
    requires WriteOk(call, bytes, start, content)
    ensures Chain(call.fs, call.Entry(), call.First()).Some?
    ensures content(call.fs.ClusterAddress(Chain(call.fs, call.Entry(), call.First()).value + (e - call.First()))
                    + (call.offset + k - e * call.fs.BytesPerCluster())) == bytes(call.buffer + k)
  {
    BeginAndAhead(call);
    AheadPlaces(call, e, k);
    assert Kept(call, bytes, content, call.n, k);
    forall l: nat | k < l < call.n
      ensures !PlacedAt(call, l, DrawnFrom(call, k))
    {
      AheadPlaces(call, e, l);
    }
  }

  /** A write in the situation of `WrongBytesAreRead` is completed as well; and if another file begins with the cluster
      behind the first one, it is overwritten. */
  lemma OtherFileIsOverwritten(call: Call, c: nat, bytes: Bytes, start: Bytes, content: Bytes)
    requires call.Valid() && CrossesJump(call, c) && WriteOk(call, bytes, start, content)
    ensures call.offset <= c && HasByte(call.fs, call.Entry() + 1, 0)
    ensures content(FileAddress(call.fs, call.Entry() + 1, 0)) == bytes(call.buffer + (c - call.offset))
  {
    BeginAndAhead(call);
    FirstCluster(call.fs, call.Entry(), 0);
    ConsecutiveRun(call.fs, call.Entry(), 0, 0);
    assert 1 * c == c;
    ModUnique(0, 0, 0, c);
    AheadIsStored(call, 1, c - call.offset, bytes, start, content);
  }

  lemma CrossingIsWritten(call: Call, c: nat)
    requires call.Valid() && CrossesJump(call, c)
    ensures WriteCompletes(call)
  {
    WrongBytesAreRead(call, c);
    ModUnique(c - 1, 0, c - 1, c);
  }

  /** Among requests in whole sectors, exactly those that begin one sector into their cluster are refused. */
  lemma WritableSectors(fs: Fat32, offset: nat, n: nat)
    requires fs.Valid() && n > 0 && n % fs.bytesPerSector == 0 && offset % fs.BytesPerCluster() % fs.bytesPerSector == 0
    ensures Writable(fs, offset, n) <==> offset % fs.BytesPerCluster() != fs.bytesPerSector
  {
    var b, c := fs.bytesPerSector, fs.BytesPerCluster();
    TimesIsProduct(fs.sectorsPerCluster, b);
    LastPartSectors(n, b, fs.sectorsPerCluster);
    Between(offset % c, b);
  }

  lemma LastPartSectors(n: nat, b: nat, s: nat)
    requires b > 0 && s > 0 && n > 0 && n % b == 0
    ensures s * b > 0 && LastPart(n, s * b) >= b
  {
    AtLeast(s, b);
    var c := s * b;
    LastOfMultiple(n, b);
    var q := n / b;
    // the last byte is byte b - 1 of its sector, and so is it in its cluster
    var z := (n - 1) / c;
    Between(n - 1, c);
    Associate(z, s, b);
    var r := (n - 1) % c;
    assert n - 1 == z * c + r;
    Distribute(q - 1, 1, b);
    Cancel(z * s, q, b);
    var u: nat := q - 1 - z * s;
    Distribute(u, z * s, b);
    assert r == u * b + (b - 1);
  }
}
