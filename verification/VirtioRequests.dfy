/** What the block device makes of one descriptor chain. */
module VirtioRequests {
  import opened Wrappers
  import opened Arithmetic
  import opened VirtioQueue

  const REQUEST_SIZE: nat := 16
  const TYPE_IN: nat := 0
  const TYPE_OUT: nat := 1
  const S_OK: nat := 0
  const S_IOERR: nat := 1
  const WORD32: nat := 0x1_0000_0000
  const WORD64: nat := 0x1_0000_0000_0000_0000

  /** A read of the image file into memory, or a write from memory to it. */
  datatype Transfer = Transfer(write: bool, address: nat, offset: nat, size: nat)

  /** What the device does to the world, in order. */
  datatype Effect = Disk(transfer: Transfer) | StatusByte(address: nat, status: nat)

  /** The type and the sector that a request header holds. */
  datatype Header = Header(reqType: nat, sector: nat)

  /** The surroundings of the device: the guest's physical addresses, the headers in its memory, and whether
      the n-th effect, if it is that transfer, succeeds. */
  datatype World = World(translate: nat -> Option<nat>, header: nat -> Header, disk: (nat, Transfer) -> bool)

  // ---------------------------------------------------------------- chains

  predicate TableOk(table: seq<Desc>) {
    |table| == INDEX_LIMIT && forall i :: 0 <= i < INDEX_LIMIT ==> table[i].next < INDEX_LIMIT
  }

  /** The chain from id has n descriptors with a successor, and then ends. */
  ghost predicate EndsIn(table: seq<Desc>, id: nat, n: nat)
    requires TableOk(table) && id < INDEX_LIMIT
    decreases n
  {
    if n == 0 then !HasNext(table[id]) else HasNext(table[id]) && EndsIn(table, table[id].next, n - 1)
  }

  /** The k-th descriptor of the chain from id. */
  ghost function Link(table: seq<Desc>, id: nat, k: nat): (r: nat)
    requires TableOk(table) && id < INDEX_LIMIT
    ensures r < INDEX_LIMIT
  {
    if k == 0 then id else table[Link(table, id, k - 1)].next
  }

  lemma {:induction false} LinkShift(table: seq<Desc>, id: nat, k: nat)
    requires TableOk(table) && id < INDEX_LIMIT
    ensures Link(table, id, k + 1) == Link(table, table[id].next, k)
  {
    if k > 0 {
      LinkShift(table, id, k - 1);
    }
  }

  /** All but the last descriptor of a chain have a successor. */
  lemma {:induction false} EndsInLinks(table: seq<Desc>, id: nat, n: nat, k: nat)
    requires TableOk(table) && id < INDEX_LIMIT && EndsIn(table, id, n) && k <= n
    ensures HasNext(table[Link(table, id, k)]) <==> k < n
    decreases k
  {
    if k > 0 {
      EndsInLinks(table, table[id].next, n - 1, k - 1);
      LinkShift(table, id, k - 1);
    }
  }

  lemma {:induction false} EndsInUnique(table: seq<Desc>, id: nat, m: nat, n: nat)
    requires TableOk(table) && id < INDEX_LIMIT && EndsIn(table, id, m) && EndsIn(table, id, n)
    ensures m == n
    decreases m
  {
    if m > 0 && n > 0 {
      EndsInUnique(table, table[id].next, m - 1, n - 1);
    }
  }

  /** The chain does not run in a circle. */
  ghost predicate Acyclic(table: seq<Desc>, id: nat) {
    TableOk(table) && id < INDEX_LIMIT && exists n: nat :: EndsIn(table, id, n)
  }

  ghost function ChainLength(table: seq<Desc>, id: nat): (n: nat)
    requires Acyclic(table, id)
    ensures EndsIn(table, id, n)
  {
    var n: nat :| EndsIn(table, id, n);
    n
  }

  // ---------------------------------------------------------------- the buffers of a request

  /** How far a request has got: its effects so far, its status, the bytes counted and the file offset. */
  datatype Progress = Progress(effects: seq<Effect>, status: nat, total: nat, offset: nat)

  /** The file offset some bytes further on. */
  function FileOffset(offset: nat, bytes: nat): nat {
    (offset + bytes) % WORD64
  }

  /** The buffer of one descriptor is read or written; `before` effects happened before the request. */
  function ServeBuffer(p: Progress, d: Desc, write: bool, world: World, before: nat): Progress {
    var total := (p.total + d.length) % WORD32;
    match world.translate(d.address)
    case None => p.(total := total, status := S_IOERR)
    case Some(a) =>
      var t := Transfer(write, a, p.offset, d.length);
      var status := if world.disk(before + |p.effects|, t) then p.status else S_IOERR;
      Progress(p.effects + [Disk(t)], status, total, FileOffset(p.offset, d.length))
  }

  ghost function ServeBuffers(table: seq<Desc>, first: nat, k: nat, write: bool, offset: nat, world: World, before: nat): Progress
    requires TableOk(table) && first < INDEX_LIMIT
  {
    if k == 0 then Progress([], S_OK, 0, offset)
    else ServeBuffer(ServeBuffers(table, first, k - 1, write, offset, world, before), table[Link(table, first, k - 1)], write, world, before)
  }

  /** The bytes of the first k buffers. */
  ghost function Bytes(table: seq<Desc>, first: nat, k: nat): nat
    requires TableOk(table) && first < INDEX_LIMIT
  {
    if k == 0 then 0 else Bytes(table, first, k - 1) + table[Link(table, first, k - 1)].length
  }

  /** Buffer i lies in guest memory. */
  ghost predicate Reachable(table: seq<Desc>, first: nat, i: nat, world: World)
    requires TableOk(table) && first < INDEX_LIMIT
  {
    world.translate(table[Link(table, first, i)].address).Some?
  }

  /** How many of the first k buffers lie in guest memory. */
  ghost function Count(table: seq<Desc>, first: nat, k: nat, world: World): (n: nat)
    requires TableOk(table) && first < INDEX_LIMIT
    ensures n <= k
  {
    if k == 0 then 0 else Count(table, first, k - 1, world) + if Reachable(table, first, k - 1, world) then 1 else 0
  }

  /** Their bytes. */
  ghost function Moved(table: seq<Desc>, first: nat, k: nat, world: World): nat
    requires TableOk(table) && first < INDEX_LIMIT
  {
    if k == 0 then 0 else Moved(table, first, k - 1, world) + if Reachable(table, first, k - 1, world) then table[Link(table, first, k - 1)].length else 0
  }

  /** The transfer that buffer i is meant for: consecutive parts of the file for the buffers in guest memory. */
  ghost function BufferTransfer(table: seq<Desc>, first: nat, i: nat, write: bool, offset: nat, world: World): Transfer
    requires TableOk(table) && first < INDEX_LIMIT && Reachable(table, first, i, world)
  {
    var d := table[Link(table, first, i)];
    Transfer(write, world.translate(d.address).value, FileOffset(offset, Moved(table, first, i, world)), d.length)
  }

  /** If all of them do, nothing is left out. */
  lemma {:induction false} AllReachable(table: seq<Desc>, first: nat, k: nat, world: World)
    requires TableOk(table) && first < INDEX_LIMIT && forall i: nat :: i < k ==> Reachable(table, first, i, world)
    ensures Count(table, first, k, world) == k && Moved(table, first, k, world) == Bytes(table, first, k)
  {
    if k > 0 {
      AllReachable(table, first, k - 1, world);
    }
  }

  lemma WrapSum(a: nat, b: nat, m: nat)
    requires m > 0
    ensures (a % m + b) % m == (a + b) % m
  {
    var q, r := a / m, (a % m + b) / m;
    assert a == q * m + a % m && a % m + b == r * m + (a % m + b) % m;
    assert (q + r) * m == q * m + r * m;
    ModUnique(a + b, q + r, (a % m + b) % m, m);
  }

  lemma {:induction false} BytesCounted(table: seq<Desc>, first: nat, k: nat, write: bool, offset: nat, world: World, before: nat)
    requires TableOk(table) && first < INDEX_LIMIT
    ensures ServeBuffers(table, first, k, write, offset, world, before).total == Bytes(table, first, k) % WORD32
    decreases k
  {
    if k > 0 {
      BytesCounted(table, first, k - 1, write, offset, world, before);
      WrapSum(Bytes(table, first, k - 1), table[Link(table, first, k - 1)].length, WORD32);
    }
  }

  lemma FileOffsetSum(offset: nat, a: nat, b: nat)
    ensures FileOffset(FileOffset(offset, a), b) == FileOffset(offset, a + b)
  {
    WrapSum(offset + a, b, WORD64);
  }

  /** The offset moves on with every buffer in guest memory. */
  lemma {:induction false} OffsetCounted(table: seq<Desc>, first: nat, k: nat, write: bool, offset: nat, world: World, before: nat)
    requires TableOk(table) && first < INDEX_LIMIT && offset < WORD64
    ensures ServeBuffers(table, first, k, write, offset, world, before).offset == FileOffset(offset, Moved(table, first, k, world))
    decreases k
  {
    if k > 0 {
      OffsetCounted(table, first, k - 1, write, offset, world, before);
      FileOffsetSum(offset, Moved(table, first, k - 1, world), table[Link(table, first, k - 1)].length);
    }
  }

  lemma {:induction false} EffectsCounted(table: seq<Desc>, first: nat, k: nat, write: bool, offset: nat, world: World, before: nat)
    requires TableOk(table) && first < INDEX_LIMIT
    ensures |ServeBuffers(table, first, k, write, offset, world, before).effects| == Count(table, first, k, world)
    decreases k
  {
    if k > 0 {
      EffectsCounted(table, first, k - 1, write, offset, world, before);
    }
  }

  /** Buffer i, if it lies in guest memory, has been transferred, after those before it. */
  ghost predicate TransferAt(table: seq<Desc>, first: nat, i: nat, write: bool, offset: nat, world: World, effects: seq<Effect>)
    requires TableOk(table) && first < INDEX_LIMIT
  {
    Reachable(table, first, i, world) ==>
      && Count(table, first, i, world) < |effects|
      && effects[Count(table, first, i, world)] == Disk(BufferTransfer(table, first, i, write, offset, world))
  }

  ghost predicate Transferred(table: seq<Desc>, first: nat, k: nat, write: bool, offset: nat, world: World, effects: seq<Effect>)
    requires TableOk(table) && first < INDEX_LIMIT
  {
    forall i: nat {:trigger TransferAt(table, first, i, write, offset, world, effects)} :: i < k ==> TransferAt(table, first, i, write, offset, world, effects)
  }

  lemma TransferredBefore(table: seq<Desc>, first: nat, k: nat, write: bool, offset: nat, world: World, effects: seq<Effect>, more: seq<Effect>)
    requires TableOk(table) && first < INDEX_LIMIT && Transferred(table, first, k, write, offset, world, effects)
    ensures Transferred(table, first, k, write, offset, world, effects + more)
  {
    forall i: nat | i < k
      ensures TransferAt(table, first, i, write, offset, world, effects + more)
    {
      assert TransferAt(table, first, i, write, offset, world, effects);
    }
  }

  /** One more buffer. */
  lemma TransferredNext(table: seq<Desc>, first: nat, k: nat, write: bool, offset: nat, world: World, effects: seq<Effect>, effects': seq<Effect>)
    requires TableOk(table) && first < INDEX_LIMIT && k > 0 && Transferred(table, first, k - 1, write, offset, world, effects)
    requires |effects| == Count(table, first, k - 1, world)
    requires effects' == effects + if Reachable(table, first, k - 1, world) then [Disk(BufferTransfer(table, first, k - 1, write, offset, world))] else []
    ensures Transferred(table, first, k, write, offset, world, effects')
  {
    forall i: nat | i < k
      ensures TransferAt(table, first, i, write, offset, world, effects')
    {
      assert i < k - 1 ==> TransferAt(table, first, i, write, offset, world, effects);
    }
  }

  /** What a buffer adds to the effects. */
  lemma NextEffects(table: seq<Desc>, first: nat, k: nat, write: bool, offset: nat, world: World, before: nat)
    requires TableOk(table) && first < INDEX_LIMIT && offset < WORD64 && k > 0
    ensures ServeBuffers(table, first, k, write, offset, world, before).effects
         == ServeBuffers(table, first, k - 1, write, offset, world, before).effects
            + if Reachable(table, first, k - 1, world) then [Disk(BufferTransfer(table, first, k - 1, write, offset, world))] else []
  {
    OffsetCounted(table, first, k - 1, write, offset, world, before);
  }

  /** Buffers in guest memory are transferred in order, to consecutive parts of the file; the others are passed over. */
  lemma {:induction false} BuffersInOrder(table: seq<Desc>, first: nat, k: nat, write: bool, offset: nat, world: World, before: nat)
    requires TableOk(table) && first < INDEX_LIMIT && offset < WORD64
    ensures Transferred(table, first, k, write, offset, world, ServeBuffers(table, first, k, write, offset, world, before).effects)
    decreases k
  {
    if k > 0 {
      BuffersInOrder(table, first, k - 1, write, offset, world, before);
      EffectsCounted(table, first, k - 1, write, offset, world, before);
      NextEffects(table, first, k, write, offset, world, before);
      TransferredNext(table, first, k, write, offset, world, ServeBuffers(table, first, k - 1, write, offset, world, before).effects,
                      ServeBuffers(table, first, k, write, offset, world, before).effects);
    }
  }

  /** Buffer i lies in guest memory, and its transfer succeeds. */
  ghost predicate Succeeds(table: seq<Desc>, first: nat, i: nat, write: bool, offset: nat, world: World, before: nat)
    requires TableOk(table) && first < INDEX_LIMIT
  {
    && Reachable(table, first, i, world)
    && world.disk(before + Count(table, first, i, world), BufferTransfer(table, first, i, write, offset, world))
  }

  ghost predicate AllSucceed(table: seq<Desc>, first: nat, k: nat, write: bool, offset: nat, world: World, before: nat)
    requires TableOk(table) && first < INDEX_LIMIT
  {
    forall i: nat :: i < k ==> Succeeds(table, first, i, write, offset, world, before)
  }

  /** The status is 0 (VIRTIO_BLK_S_OK) if every transfer succeeds, and otherwise 1 (VIRTIO_BLK_S_IOERR). */
  lemma {:induction false} StatusMeaning(table: seq<Desc>, first: nat, k: nat, write: bool, offset: nat, world: World, before: nat)
    requires TableOk(table) && first < INDEX_LIMIT && offset < WORD64
    ensures ServeBuffers(table, first, k, write, offset, world, before).status
         == if AllSucceed(table, first, k, write, offset, world, before) then 0 else 1
    decreases k
  {
    if k > 0 {
      StatusMeaning(table, first, k - 1, write, offset, world, before);
      LastBuffer(table, first, k, write, offset, world, before);
      OneMoreSucceeds(table, first, k, write, offset, world, before);
    }
  }

  lemma OneMoreSucceeds(table: seq<Desc>, first: nat, k: nat, write: bool, offset: nat, world: World, before: nat)
    requires TableOk(table) && first < INDEX_LIMIT && k > 0
    ensures AllSucceed(table, first, k, write, offset, world, before)
       <==> AllSucceed(table, first, k - 1, write, offset, world, before) && Succeeds(table, first, k - 1, write, offset, world, before)
  {
  }

  lemma LastBuffer(table: seq<Desc>, first: nat, k: nat, write: bool, offset: nat, world: World, before: nat)
    requires TableOk(table) && first < INDEX_LIMIT && offset < WORD64 && k > 0
    ensures ServeBuffers(table, first, k, write, offset, world, before).status
         == if Succeeds(table, first, k - 1, write, offset, world, before)
            then ServeBuffers(table, first, k - 1, write, offset, world, before).status else 1
  {
    var p := ServeBuffers(table, first, k - 1, write, offset, world, before);
    assert |p.effects| == Count(table, first, k - 1, world) by {
      EffectsCounted(table, first, k - 1, write, offset, world, before);
    }
    assert p.offset == FileOffset(offset, Moved(table, first, k - 1, world)) by {
      OffsetCounted(table, first, k - 1, write, offset, world, before);
    }
  }

  // ---------------------------------------------------------------- requests

  /** A request the device gives up on: its header is of the wrong size, outside guest memory, or the only
      descriptor of its chain. */
  predicate Malformed(table: seq<Desc>, head: nat, world: World)
    requires TableOk(table) && head < INDEX_LIMIT
  {
    table[head].length != REQUEST_SIZE || world.translate(table[head].address).None? || !HasNext(table[head])
  }

  /** What a request does, and the length that is reported for it. */
  datatype Completion = Completion(effects: seq<Effect>, length: nat)

  function Finish(p: Progress, last: Desc, world: World): Completion {
    match world.translate(last.address)
    case None => Completion(p.effects, p.total)
    case Some(a) => Completion(p.effects + [StatusByte(a, p.status)], (p.total + last.length) % WORD32)
  }

  ghost function Serve(table: seq<Desc>, head: nat, world: World, before: nat): Completion
    requires TableOk(table) && head < INDEX_LIMIT && !Malformed(table, head, world) && Acyclic(table, table[head].next)
  {
    var header := world.header(world.translate(table[head].address).value);
    var first := table[head].next;
    var n := ChainLength(table, first);
    Finish(ServeBuffers(table, first, n, header.reqType == TYPE_OUT, header.sector * 512 % WORD64, world, before),
           table[Link(table, first, n)], world)
  }

  lemma FinishMeaning(p: Progress, bytes: nat, last: Desc, world: World)
    requires p.total == bytes % WORD32
    ensures var c := Finish(p, last, world);
            match world.translate(last.address)
            case Some(a) => c.effects == p.effects + [StatusByte(a, p.status)] && c.length == (bytes + last.length) % 0x1_0000_0000
            case None => c.effects == p.effects && c.length == bytes % 0x1_0000_0000
  {
    WrapSum(bytes, last.length, WORD32);
  }

  /** A chain of n buffers and a last descriptor: a transfer for each buffer in guest memory, and then one status byte,
      which is 0 exactly if every transfer succeeded. */
  ghost predicate ServedChain(table: seq<Desc>, first: nat, n: nat, write: bool, offset: nat, world: World, before: nat, c: Completion)
    requires TableOk(table) && first < INDEX_LIMIT
  {
    var m, last := Count(table, first, n, world), table[Link(table, first, n)];
    && Transferred(table, first, n, write, offset, world, c.effects)
    && match world.translate(last.address)
       case Some(a) =>
         && |c.effects| == m + 1
         && c.effects[m] == StatusByte(a, if AllSucceed(table, first, n, write, offset, world, before) then 0 else 1)
         && c.length == (Bytes(table, first, n) + last.length) % 0x1_0000_0000
       case None =>
         |c.effects| == m && c.length == Bytes(table, first, n) % 0x1_0000_0000
  }

  lemma ChainMeaning(table: seq<Desc>, first: nat, n: nat, write: bool, offset: nat, world: World, before: nat)
    requires TableOk(table) && first < INDEX_LIMIT && offset < WORD64
    ensures ServedChain(table, first, n, write, offset, world, before,
                        Finish(ServeBuffers(table, first, n, write, offset, world, before), table[Link(table, first, n)], world))
  {
    var p, last := ServeBuffers(table, first, n, write, offset, world, before), table[Link(table, first, n)];
    BuffersInOrder(table, first, n, write, offset, world, before);
    EffectsCounted(table, first, n, write, offset, world, before);
    StatusMeaning(table, first, n, write, offset, world, before);
    BytesCounted(table, first, n, write, offset, world, before);
    FinishMeaning(p, Bytes(table, first, n), last, world);
    match world.translate(last.address)
    case Some(a) => TransferredBefore(table, first, n, write, offset, world, p.effects, [StatusByte(a, p.status)]);
    case None =>
  }

  /** What a request does: a write if its type is 1 (VIRTIO_BLK_T_OUT), otherwise a read, from its sector on. */
  lemma ServeMeaning(table: seq<Desc>, head: nat, world: World, before: nat, n: nat)
    requires TableOk(table) && head < INDEX_LIMIT && !Malformed(table, head, world) && EndsIn(table, table[head].next, n)
    ensures var header := world.header(world.translate(table[head].address).value);
            ServedChain(table, table[head].next, n, header.reqType == 1, header.sector * 512 % WORD64, world, before, Serve(table, head, world, before))
  {
    var header := world.header(world.translate(table[head].address).value);
    EndsInUnique(table, table[head].next, n, ChainLength(table, table[head].next));
    ChainMeaning(table, table[head].next, n, header.reqType == 1, header.sector * 512 % WORD64, world, before);
  }
}
