/** The emulated block device: its registers and the handling of a notification. */
module VirtioBlkMmio {
  import opened Wrappers
  import opened VirtioQueue
  import opened VirtioLayout
  import opened VirtioRequests
  import opened VirtioRings

  // The registers that change state, by their offset.
  const GUEST_PAGE_SIZE: nat := 0x028
  const QUEUE_NUM: nat := 0x038
  const QUEUE_PFN: nat := 0x040
  const QUEUE_NOTIFY: nat := 0x050
  const INTERRUPT_ACK: nat := 0x064
  const STATUS: nat := 0x070

  /** One turn of the device: nothing was pending, or a malformed request, or a request that was served. */
  datatype Turn = Idle | Rejected | Completed

  class VirtioBlkMmio {
    var interruptStatus: bv32
    var status: nat
    var queueSize: nat
    var queueReady: bool
    var pageSize: nat
    var layout: Layout
    var lastAvailId: nat
    var usedId: nat
    // what the device has done to guest memory and to the image file
    var effects: seq<Effect>

    /** The queue has been set up, and guest holds the memory its pointers designate. */
    ghost predicate Configured(guest: Vring)
      reads this, guest
    {
      && layout.descriptor != 0
      && guest.descriptorAddress == layout.descriptor && guest.availAddress == layout.avail && guest.usedAddress == layout.used
      && guest.Valid(queueSize)
      && View(guest).Valid()
    }

    ghost function View(guest: Vring): Rings
      reads this, guest
    {
      Rings(queueSize, lastAvailId, usedId, guest.availIdx, guest.availRing, guest.usedIdx, guest.usedRing)
    }

    constructor ()
      ensures interruptStatus == 0 && lastAvailId == 0 && usedId == 0 && queueSize == 0 && pageSize == 0x1000
      ensures layout == Layout(0, 0, 0) && effects == []
    {
      interruptStatus, status, queueSize, queueReady, pageSize := 0, 0, 0, false, 0x1000;
      layout := Layout(0, 0, 0);
      lastAvailId, usedId := 0, 0;
      effects := [];
    }

    /** The slot of the next head, if the driver has filled one. */
    method GetNextAvailId(guest: Vring) returns (r: Option<nat>)
      requires Configured(guest)
      modifies this`lastAvailId
      ensures r.None? ==> Pending(old(View(guest))) == 0 && View(guest) == old(View(guest))
      ensures r.Some? ==> Pending(old(View(guest))) > 0 && View(guest) == Take(old(View(guest)))
      ensures r.Some? ==> r.value == Slot(old(lastAvailId), queueSize)
    {
      if lastAvailId == guest.availIdx {
        return None;
      }
      var next := lastAvailId % queueSize;
      lastAvailId := NextIndex(lastAvailId);
      return Some(next);
    }

    /** Stores a used element, and then makes it visible. */
    method WriteUsed(guest: Vring, id: nat, length: nat)
      requires Configured(guest)
      modifies this`usedId, guest`usedRing, guest`usedIdx
      ensures View(guest) == Publish(old(View(guest)), UsedElement(id, length))
    {
      var slot := usedId % queueSize;
      usedId := NextIndex(usedId);
      guest.usedRing := guest.usedRing[slot := UsedElement(id, length)];
      guest.usedIdx := usedId;
    }

    /** Reads or writes the buffer of one descriptor, if it lies in guest memory. */
    method TransferBuffer(descriptor: Desc, isWrite: bool, status: nat, total: nat, offset: nat, world: World,
                          ghost done: seq<Effect>, ghost p: Progress)
      returns (status': nat, total': nat, offset': nat)
      requires p == Progress(p.effects, status, total, offset) && effects == done + p.effects
      modifies this`effects
      ensures var p' := ServeBuffer(p, descriptor, isWrite, world, |done|);
              p' == Progress(p'.effects, status', total', offset') && effects == done + p'.effects
    {
      var size := descriptor.length;
      status', total', offset' := status, (total + size) % WORD32, offset;
      var data := world.translate(descriptor.address);
      if data.None? {
        status' := S_IOERR;
        return;
      }
      var transfer := Transfer(isWrite, data.value, offset, size);
      var ok := world.disk(|effects|, transfer);
      effects := effects + [Disk(transfer)];
      if !ok {
        status' := S_IOERR;
      }
      offset' := FileOffset(offset, size);
    }

    /** Serves the request whose chain begins at head, unless it is malformed. */
    method ServeRequest(guest: Vring, head: nat, world: World) returns (served: bool, length: nat)
      requires TableOk(guest.table) && head < INDEX_LIMIT
      requires !Malformed(guest.table, head, world) ==> Acyclic(guest.table, guest.table[head].next)
      modifies this`effects
      ensures served <==> !Malformed(guest.table, head, world)
      // the header is 16 bytes long, lies in guest memory, and has a successor (VIRTQ_DESC_F_NEXT)
      ensures served <==> guest.table[head].length == 16 && world.translate(guest.table[head].address).Some? && guest.table[head].flags % 2 == 1
      ensures !served ==> effects == old(effects)
      ensures served ==> var c := Serve(guest.table, head, world, |old(effects)|); effects == old(effects) + c.effects && length == c.length
    {
      var request := guest.table[head];
      length := 0;
      if request.length != REQUEST_SIZE {
        return false, 0;
      }
      var address := world.translate(request.address);
      if address.None? {
        return false, 0;
      }
      var header := world.header(address.value);
      var isWrite := header.reqType == TYPE_OUT;
      var offset := header.sector * 512 % WORD64;
      if !HasNext(request) {
        return false, 0;
      }
      var descriptor, total, status := request, 0, S_OK;
      ghost var first, n, k := request.next, ChainLength(guest.table, request.next), 0;
      ghost var start, before := offset, |effects|;
      ghost var p := Progress([], S_OK, 0, start);
      while true
        invariant k <= n && descriptor.next == Link(guest.table, first, k)
        invariant p == ServeBuffers(guest.table, first, k, isWrite, start, world, before)
        invariant p.status == status && p.total == total && p.offset == offset && effects == old(effects) + p.effects
        decreases n - k
      {
        descriptor := guest.table[descriptor.next];
        assert HasNext(guest.table[Link(guest.table, first, k)]) <==> k < n by {
          EndsInLinks(guest.table, first, n, k);
        }
        if !HasNext(descriptor) {
          break;
        }
        status, total, offset := TransferBuffer(descriptor, isWrite, status, total, offset, world, old(effects), p);
        k, p := k + 1, ServeBuffer(p, descriptor, isWrite, world, before);
      }
      var a := world.translate(descriptor.address);
      if a.Some? {
        effects := effects + [StatusByte(a.value, status)];
        total := (total + descriptor.length) % WORD32;
      }
      assert k == n && descriptor == guest.table[Link(guest.table, first, n)];
      return true, total;
    }

    /** Takes the next slot, if one is pending, and serves its request. */
    method ServeNext(guest: Vring, world: World, ghost rings: Rings, ghost k: nat, ghost before: seq<Effect>) returns (step: Turn)
      requires Configured(guest) && rings.Valid() && PendingAcyclic(guest.table, rings, world)
      requires InService(guest.table, rings, View(guest), k, world, before, effects)
      modifies this`lastAvailId, this`usedId, this`effects, guest`usedRing, guest`usedIdx
      ensures step.Idle? ==> k == Pending(rings) && InService(guest.table, rings, View(guest), k, world, before, effects)
      ensures step.Rejected? ==> k < Pending(rings) && Notified(guest.table, rings, View(guest), k, world, before, effects)
      ensures step.Completed? ==>
                k < Pending(rings) && Configured(guest) && InService(guest.table, rings, View(guest), k + 1, world, before, effects)
    {
      ghost var now, done := View(guest), effects;
      ServiceHead(guest.table, rings, now, k, world, before, effects);
      var id := GetNextAvailId(guest);
      if id.None? {
        return Idle;
      }
      var head := guest.availRing[id.value];
      var served, length := ServeRequest(guest, head, world);
      if !served {
        ServiceStops(guest.table, rings, now, k, world, before, done);
        return Rejected;
      }
      ServiceNext(guest.table, rings, now, k, world, before, done);
      WriteUsed(guest, head, length);
      return Completed;
    }

    /** Serves the pending requests in order, up to the first malformed one; only if there is none is the
        interrupt raised. */
    method Operation(guest: Vring, world: World) returns (raised: bool, ghost k: nat)
      requires Configured(guest) && PendingAcyclic(guest.table, View(guest), world)
      modifies this`lastAvailId, this`usedId, this`effects, this`interruptStatus, guest`usedRing, guest`usedIdx
      ensures Notified(guest.table, old(View(guest)), View(guest), k, world, old(effects), effects)
      ensures raised <==> k == Pending(old(View(guest)))
      ensures interruptStatus == if raised then old(interruptStatus) | 1 else old(interruptStatus)
    {
      ghost var rings, table, before := View(guest), guest.table, effects;
      k := 0;
      ServiceStarts(table, rings, world, effects);
      while true
        invariant Configured(guest) && interruptStatus == old(interruptStatus)
        invariant InService(table, rings, View(guest), k, world, before, effects)
        decreases Pending(rings) - k
      {
        var step := ServeNext(guest, world, rings, k, before);
        if step.Idle? {
          break;
        }
        if step.Rejected? {
          return false, k;
        }
        k := k + 1;
      }
      interruptStatus := interruptStatus | 1;
      raised := true;
    }

    /** A register write of the guest; `guest` is the queue memory if a queue is configured. */
    method WriteRegister(offset: nat, value: nat, guest: Vring, world: World) returns (raised: bool)
      requires value < WORD64
      requires offset == QUEUE_NOTIFY && value == 0 ==> Configured(guest) && PendingAcyclic(guest.table, View(guest), world)
      modifies this, guest`usedRing, guest`usedIdx
      // QueueNum: the rings move with the size
      ensures offset == 0x038 ==> queueSize == value && layout == LayoutOf(old(layout).descriptor, value, old(pageSize))
      ensures offset == 0x038 ==> layout.descriptor == old(layout.descriptor)
      // QueuePFN: the queue moves, if the guest has memory there
      ensures offset == 0x040 ==>
                var address := world.translate(value * old(pageSize));
                layout == if address.Some? then LayoutOf(address.value, old(queueSize), old(pageSize)) else old(layout)
      ensures offset == 0x040 && world.translate(value * old(pageSize)).Some? ==> layout.descriptor == world.translate(value * old(pageSize)).value
      // after either, the available ring follows the descriptors, and the used ring lies in the page behind it
      ensures offset == 0x038 || (offset == 0x040 && world.translate(value * old(pageSize)).Some?) ==>
                layout.avail == layout.descriptor + 16 * queueSize
                && (pageSize > 0 ==> 0 <= layout.used - (layout.avail + 2 * (3 + queueSize)) < pageSize)
      // GuestPageSize
      ensures offset == 0x028 ==> pageSize == value
      // QueueNotify
      ensures offset == 0x050 && value == 0 ==>
                exists k: nat :: Notified(guest.table, old(View(guest)), View(guest), k, world, old(effects), effects)
                                 && (raised <==> k == Pending(old(View(guest))))
                                 && interruptStatus == if raised then old(interruptStatus) | 1 else old(interruptStatus)
      // InterruptACK
      ensures offset == 0x064 ==> interruptStatus == old(interruptStatus) & !((value % WORD32) as bv32)
      // Status, 0 being a reset
      ensures offset == 0x070 && value == 0 ==>
                && queueSize == 0 && !queueReady && pageSize == 0x1000 && interruptStatus == 0 && status == 0
                && layout == Layout(0, 0, 0) && lastAvailId == 0 && usedId == 0
      ensures offset == 0x070 && value != 0 ==> status == value % WORD32
      // what each write leaves alone
      ensures offset != 0x070 || value != 0 ==>
                && (offset == 0x038 || queueSize == old(queueSize))
                && (offset == 0x028 || pageSize == old(pageSize))
                && (offset == 0x038 || offset == 0x040 || layout == old(layout))
                && (offset == 0x050 || (lastAvailId == old(lastAvailId) && usedId == old(usedId)))
                && (offset == 0x050 || offset == 0x064 || interruptStatus == old(interruptStatus))
      ensures (offset == 0x050 && value == 0) || (unchanged(guest) && effects == old(effects) && !raised)
    {
      raised := false;
      if offset == GUEST_PAGE_SIZE {
        pageSize := value;
      } else if offset == QUEUE_NUM {
        queueSize := value;
        layout := LayoutOf(layout.descriptor, queueSize, pageSize);
        RingsApart(layout.descriptor, queueSize, pageSize);
      } else if offset == QUEUE_PFN {
        var address := world.translate(value * pageSize);
        if address.Some? {
          layout := LayoutOf(address.value, queueSize, pageSize);
          RingsApart(address.value, queueSize, pageSize);
        }
      } else if offset == QUEUE_NOTIFY {
        if value == 0 {
          ghost var k;
          raised, k := Operation(guest, world);
        }
      } else if offset == INTERRUPT_ACK {
        interruptStatus := interruptStatus & !((value % WORD32) as bv32);
      } else if offset == STATUS {
        if value == 0 {
          queueSize, queueReady, pageSize, interruptStatus, status := 0, false, 0x1000, 0, 0;
          layout, lastAvailId, usedId := Layout(0, 0, 0), 0, 0;
        } else {
          status := value % WORD32;
        }
      }
    }
  }
}
