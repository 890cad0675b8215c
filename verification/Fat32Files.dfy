/** Reading and writing files: every run of consecutive clusters is one transfer. */
module Fat32Files {
  import opened Wrappers
  import opened Arithmetic
  import opened Fat32Chains
  import opened Fat32Planning

  type Byte = bv8

  /** The bytes of an address space. */
  type Bytes = nat -> Byte

  /** `dst` after n bytes have been copied from `src`. */
  function Copied(src: Bytes, from: nat, dst: Bytes, to: nat, n: nat): Bytes {
    (a: nat) => if to <= a < to + n then src(from + (a - to)) else dst(a)
  }

  /** After n bytes have been copied from `src` to `to`, and nothing else has changed. */
  ghost predicate CopiedTo(src: Bytes, from: nat, before: Bytes, after: Bytes, to: nat, n: nat) {
    forall a: nat :: after(a) == if to <= a < to + n then src(from + (a - to)) else before(a)
  }

  /** `size` bytes stored from an address on. */
  datatype Store = Store(at: nat, size: nat)

  class Memory {
    var bytes: Bytes
    // everything that has been stored, in order
    ghost var stores: seq<Store>

    constructor ()
    {
      bytes := _ => 0;
      stores := [];
    }
  }

  /** One of the stores from number `from` on reaches behind `limit`. */
  ghost predicate StoresBehind(stores: seq<Store>, from: nat, limit: nat) {
    exists k :: from <= k < |stores| && stores[k].at + stores[k].size > limit
  }

  lemma OneMoreStore(stores: seq<Store>, from: nat, limit: nat, s: Store)
    requires from <= |stores|
    ensures StoresBehind(stores + [s], from, limit) <==> StoresBehind(stores, from, limit) || s.at + s.size > limit
  {
    var more := stores + [s];
    if StoresBehind(stores, from, limit) {
      var k :| from <= k < |stores| && stores[k].at + stores[k].size > limit;
      assert more[k] == stores[k];
    }
    assert more[|stores|] == s;
  }

  /** A disk of `size` bytes that is accessed in blocks of 512 bytes; `works` says which accesses succeed. */
  class Disk {
    var content: Bytes
    const size: nat
    const works: (nat, nat) -> bool

    constructor (size: nat, works: (nat, nat) -> bool)
    {
      this.size, this.works := size, works;
      content := _ => 0;
    }

    predicate Serves(address: nat, length: nat) {
      address % 512 == 0 && length % 512 == 0 && address + length <= size && works(address, length)
    }

    method Read(memory: Memory, buffer: nat, address: nat, length: nat) returns (ok: bool)
      modifies memory
      ensures ok <==> Serves(address, length)
      ensures if ok then CopiedTo(content, address, old(memory.bytes), memory.bytes, buffer, length) else memory.bytes == old(memory.bytes)
      ensures memory.stores == if ok then old(memory.stores) + [Store(buffer, length)] else old(memory.stores)
    {
      ok := Serves(address, length);
      if ok {
        memory.bytes := Copied(content, address, memory.bytes, buffer, length);
        memory.stores := memory.stores + [Store(buffer, length)];
      }
    }

    method Write(memory: Memory, buffer: nat, address: nat, length: nat) returns (ok: bool)
      modifies this`content
      ensures ok <==> Serves(address, length)
      ensures if ok then CopiedTo(memory.bytes, buffer, old(content), content, address, length) else content == old(content)
    {
      ok := Serves(address, length);
      if ok {
        content := Copied(memory.bytes, buffer, content, address, length);
      }
    }
  }

  // ---------------------------------------------------------------- what is asked for

  /** Nothing of the request lies in the file. */
  predicate Outside(file: FileInfo, offset: nat, length: nat) {
    offset + length > file.fileSize && offset >= file.fileSize
  }

  /** The part of the request that lies in the file. */
  function Clamped(file: FileInfo, offset: nat, length: nat): nat
    requires !Outside(file, offset, length)
  {
    if offset + length > file.fileSize then file.fileSize - offset else length
  }

  /** Byte k of the request is part of it exactly if the file has it. */
  lemma ClampedMeaning(file: FileInfo, offset: nat, length: nat, k: nat)
    ensures Outside(file, offset, length) && k < length ==> offset + k >= file.fileSize
    ensures !Outside(file, offset, length) ==> (k < Clamped(file, offset, length) <==> k < length && offset + k < file.fileSize)
  {
  }

  /** The chain of the file is sound. */
  ghost predicate Sound(fs: Fat32, file: FileInfo) {
    fs.Valid() && file.entryCluster >= 2 && exists n: nat :: EndsBy(fs, file.entryCluster, n)
  }

  /** The requests that are served correctly: those that begin at most one sector into their cluster, and those whose
      clusters are consecutive. */
  ghost predicate Supported(fs: Fat32, file: FileInfo, offset: nat, n: nat)
    requires Sound(fs, file)
  {
    || offset % fs.BytesPerCluster() <= fs.bytesPerSector
    || Consecutive(fs, file.entryCluster, offset / fs.BytesPerCluster(), offset + n)
  }

  /** What one call is about: the bytes [offset, offset + n) of a file, and a buffer. */
  datatype Call = Call(fs: Fat32, file: FileInfo, buffer: nat, offset: nat, n: nat) {
    ghost predicate Valid() {
      Sound(fs, file)
    }

    function Entry(): nat {
      file.entryCluster
    }

    /** The cluster of the chain in which the request begins. */
    function First(): nat
      requires fs.Valid()
    {
      offset / fs.BytesPerCluster()
    }

    /** Where the code takes the request to begin: skipped sectors are forgotten. */
    function Begin(): nat
      requires fs.Valid()
    {
      First() * fs.BytesPerCluster() + Unskipped(fs, offset % fs.BytesPerCluster())
    }

    ghost predicate Good()
      requires Valid()
    {
      Supported(fs, file, offset, n)
    }
  }

  /** Where a transfer begins on the disk. */
  function TransferAddress(fs: Fat32, cluster: nat, t: Transfer): nat
    requires cluster >= 2
  {
    fs.SectorAddress(fs.ClusterToSector(cluster) + t.sectorOffset)
  }

  lemma ConsecutiveRun(fs: Fat32, entry: nat, i: nat, j: nat)
    requires fs.Valid() && entry >= 2 && i <= j && Consecutive(fs, entry, i, j * fs.BytesPerCluster() + 1)
    ensures Consecutive(fs, entry, i, j * fs.BytesPerCluster() + fs.BytesPerCluster())
  {
    var c := fs.BytesPerCluster();
    forall k: nat | i <= k && k * c < j * c + c
      ensures Chain(fs, entry, k) == Some(Chain(fs, entry, i).value + (k - i))
    {
      Distribute(j, 1, c);
      Cancel(k, j + 1, c);
      InOrder(k, j, c);
    }
  }

  /** The clusters a run draws its bytes from are consecutive. */
  lemma PlannedConsecutive(fs: Fat32, entry: nat, i: nat, j: nat, offset: nat, length: nat, t: Transfer)
    requires fs.Valid() && entry >= 2 && Planned(fs, entry, i, j, offset, length, t)
    requires Skipped(fs, offset) == 0 || Consecutive(fs, entry, i, i * fs.BytesPerCluster() + offset + length)
    ensures Consecutive(fs, entry, i, i * fs.BytesPerCluster() + offset + t.bytes)
  {
    var c := fs.BytesPerCluster();
    if Skipped(fs, offset) == 0 {
      ConsecutiveRun(fs, entry, i, j);
      Distribute(j - i, i, c);
      ConsecutiveShorter(fs, entry, i, j * c + c, i * c + offset + t.bytes);
    } else {
      ConsecutiveShorter(fs, entry, i, i * c + offset + length, i * c + offset + t.bytes);
    }
  }

  lemma ConsecutiveShorter(fs: Fat32, entry: nat, i: nat, end: int, end': int)
    requires fs.Valid() && entry >= 2 && Consecutive(fs, entry, i, end) && end' <= end
    ensures Consecutive(fs, entry, i, end')
  {
  }

  /** Where a transfer's own data begin, relative to its first cluster. */
  lemma TransferStart(fs: Fat32, cluster: nat, offset: nat, t: Transfer)
    requires fs.Valid() && cluster >= 2 && t.sectorOffset == Skipped(fs, offset) && t.dataOffset == Unskipped(fs, offset)
    ensures TransferAddress(fs, cluster, t) + t.dataOffset == fs.ClusterAddress(cluster) + offset
  {
    Distribute(fs.ClusterToSector(cluster), t.sectorOffset, fs.bytesPerSector);
  }

  // ---------------------------------------------------------------- reading

  /** Byte k of the buffer is byte `offset + k` of the file. */
  ghost predicate HoldsByte(fs: Fat32, entry: nat, content: Bytes, bytes: Bytes, buffer: nat, offset: nat, k: nat)
    requires fs.Valid() && entry >= 2
  {
    HasByte(fs, entry, offset + k) && bytes(buffer + k) == content(FileAddress(fs, entry, offset + k))
  }

  /** The first n bytes of the buffer are the bytes of the file from `offset` on. */
  ghost predicate Holds(fs: Fat32, entry: nat, content: Bytes, bytes: Bytes, buffer: nat, offset: nat, n: nat)
    requires fs.Valid() && entry >= 2
  {
    forall k: nat {:trigger HoldsByte(fs, entry, content, bytes, buffer, offset, k)} :: k < n ==> HoldsByte(fs, entry, content, bytes, buffer, offset, k)
  }

  /** Nothing outside [lo, hi) has changed. */
  ghost predicate Untouched(before: Bytes, after: Bytes, lo: nat, hi: nat) {
    forall a: nat :: a < lo || a >= hi ==> after(a) == before(a)
  }

  /** The bytes a transfer stores: all of its sectors, unless they go through a temporary buffer. */
  function StoredBytes(fs: Fat32, t: Transfer): nat {
    if t.dataOffset != 0 then t.bytes else t.sectors * fs.bytesPerSector
  }

  /** Reads the sectors of a run; if the data do not begin with the first byte, through a temporary buffer. */
  method ReadRun(fs: Fat32, disk: Disk, memory: Memory, buffer: nat, cluster: nat, t: Transfer, canAllocate: bool) returns (ok: bool)
    requires fs.Valid() && cluster >= 2 && Covers(fs, t)
    modifies memory
    ensures ok <==> (t.dataOffset == 0 || canAllocate) && disk.Serves(TransferAddress(fs, cluster, t), t.sectors * fs.bytesPerSector)
    ensures ok ==> CopiedTo(disk.content, TransferAddress(fs, cluster, t) + t.dataOffset, old(memory.bytes), memory.bytes, buffer, StoredBytes(fs, t))
    ensures !ok ==> memory.bytes == old(memory.bytes)
    ensures memory.stores == if ok then old(memory.stores) + [Store(buffer, StoredBytes(fs, t))] else old(memory.stores)
  {
    var address := TransferAddress(fs, cluster, t);
    if t.dataOffset == 0 {
      ok := disk.Read(memory, buffer, address, t.sectors * fs.bytesPerSector);
      return;
    }
    if !canAllocate {
      return false;
    }
    var temporary := new Memory();
    ok := disk.Read(temporary, 0, address, t.sectors * fs.bytesPerSector);
    if ok {
      memory.bytes := Copied(temporary.bytes, t.dataOffset, memory.bytes, buffer, t.bytes);
      memory.stores := memory.stores + [Store(buffer, t.bytes)];
    }
  }

  /** A healthy disk that holds all that a request on consecutive clusters needs, from dataOffset of cluster i on. */
  ghost predicate ReachesFrom(fs: Fat32, disk: Disk, entry: nat, i: nat, dataOffset: nat, n: nat)
    requires fs.Valid() && entry >= 2
  {
    && (forall a, l :: disk.works(a, l))
    && fs.baseLba * fs.lbaSize % 512 == 0 && fs.bytesPerSector % 512 == 0
    && Consecutive(fs, entry, i, i * fs.BytesPerCluster() + dataOffset + n)
    && EndOnDisk(fs, Chain(fs, entry, i).value, dataOffset, n) <= disk.size
  }

  ghost predicate Reaches(fs: Fat32, disk: Disk, file: FileInfo, offset: nat, n: nat)
    requires Sound(fs, file)
  {
    ReachesFrom(fs, disk, file.entryCluster, offset / fs.BytesPerCluster(), offset % fs.BytesPerCluster(), n)
  }

  /** The end of the sectors that hold n bytes from `offset` of a cluster on. */
  function EndOnDisk(fs: Fat32, cluster: nat, offset: nat, n: nat): nat
    requires fs.Valid() && cluster >= 2
  {
    fs.SectorAddress(fs.ClusterToSector(cluster) + Skipped(fs, offset)) + SectorsFor(fs, Unskipped(fs, offset) + n) * fs.bytesPerSector
  }

  /** A healthy disk serves a transfer that lies on it. */
  lemma Served(fs: Fat32, disk: Disk, cluster: nat, offset: nat, n: nat, t: Transfer)
    requires fs.Valid() && cluster >= 2 && (forall a, l :: disk.works(a, l))
    requires fs.baseLba * fs.lbaSize % 512 == 0 && fs.bytesPerSector % 512 == 0
    requires t.sectorOffset == Skipped(fs, offset) && t.sectors == SectorsFor(fs, Unskipped(fs, offset) + n)
    requires EndOnDisk(fs, cluster, offset, n) <= disk.size
    ensures disk.Serves(TransferAddress(fs, cluster, t), t.sectors * fs.bytesPerSector)
  {
    Multiple512(fs.ClusterToSector(cluster) + t.sectorOffset, fs.bytesPerSector);
    SumOf512(fs.baseLba * fs.lbaSize, (fs.ClusterToSector(cluster) + t.sectorOffset) * fs.bytesPerSector);
    Multiple512(t.sectors, fs.bytesPerSector);
  }

  lemma SumOf512(a: nat, b: nat)
    requires a % 512 == 0 && b % 512 == 0
    ensures (a + b) % 512 == 0
  {
  }

  lemma Multiple512(a: nat, b: nat)
    requires b % 512 == 0
    ensures (a * b) % 512 == 0
  {
    Associate(a, b / 512, 512);
    MultipleMod(a * (b / 512), 512);
  }
}
