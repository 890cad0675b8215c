/** The block driver: descriptors come from a bitmap, and every request is a chain of three. */
module VirtioBlkDriver {
  import opened Wrappers
  import opened VirtioQueue
  import opened VirtioRequests

  const NUMBER_OF_DESCRIPTORS: nat := 64
  const FLAG_NEXT: nat := 1
  const FLAG_WRITE: nat := 2

  predicate Bit(c: bv8, bit: nat)
    requires bit < 8
  {
    (c & (1 << bit)) != 0
  }

  /** Clearing one bit of a byte leaves the others as they are. */
  lemma ClearBit(c: bv8, bit: nat, other: nat)
    requires bit < 8 && other < 8
    ensures Bit(c & !(1 << bit), other) <==> Bit(c, other) && other != bit
  {
    assert bit == 0 || bit == 1 || bit == 2 || bit == 3 || bit == 4 || bit == 5 || bit == 6 || bit == 7;
    assert other == 0 || other == 1 || other == 2 || other == 3 || other == 4 || other == 5 || other == 6 || other == 7;
  }

  lemma SetBit(c: bv8, bit: nat, other: nat)
    requires bit < 8 && other < 8
    ensures Bit(c | (1 << bit), other) <==> Bit(c, other) || other == bit
  {
    assert bit == 0 || bit == 1 || bit == 2 || bit == 3 || bit == 4 || bit == 5 || bit == 6 || bit == 7;
    assert other == 0 || other == 1 || other == 2 || other == 3 || other == 4 || other == 5 || other == 6 || other == 7;
  }

  /** Index i is free when its bit is set. */
  predicate IsFree(bitmap: seq<bv8>, i: nat) {
    i / 8 < |bitmap| && Bit(bitmap[i / 8], i % 8)
  }

  ghost function FreeSet(bitmap: seq<bv8>): (r: set<nat>)
    requires |bitmap| == 8
    ensures forall i :: i in r ==> i < NUMBER_OF_DESCRIPTORS
  {
    set i: nat | i < NUMBER_OF_DESCRIPTORS && IsFree(bitmap, i)
  }

  lemma Position(byte: nat, bit: nat)
    requires bit < 8
    ensures (8 * byte + bit) / 8 == byte && (8 * byte + bit) % 8 == bit
  {
  }

  lemma ClearFree(bitmap: seq<bv8>, byte: nat, bit: nat)
    requires |bitmap| == 8 && byte < 8 && bit < 8
    ensures FreeSet(bitmap[byte := bitmap[byte] & !(1 << bit)]) == FreeSet(bitmap) - {8 * byte + bit}
  {
    var c := bitmap[byte] & !(1 << bit);
    forall i: nat | i < NUMBER_OF_DESCRIPTORS
      ensures IsFree(bitmap[byte := c], i) <==> IsFree(bitmap, i) && i != 8 * byte + bit
    {
      ClearBit(bitmap[byte], bit, i % 8);
      WithByte(bitmap, byte, c, bit, i);
    }
  }

  lemma SetFree(bitmap: seq<bv8>, byte: nat, bit: nat)
    requires |bitmap| == 8 && byte < 8 && bit < 8
    ensures FreeSet(bitmap[byte := bitmap[byte] | (1 << bit)]) == FreeSet(bitmap) + {8 * byte + bit}
  {
    var c := bitmap[byte] | (1 << bit);
    forall i: nat | i < NUMBER_OF_DESCRIPTORS
      ensures IsFree(bitmap[byte := c], i) <==> IsFree(bitmap, i) || i == 8 * byte + bit
    {
      SetBit(bitmap[byte], bit, i % 8);
      WithByte(bitmap, byte, c, bit, i);
    }
  }

  lemma WithByte(bitmap: seq<bv8>, byte: nat, c: bv8, bit: nat, i: nat)
    requires byte < |bitmap| && bit < 8
    ensures IsFree(bitmap[byte := c], i) <==> if i / 8 == byte then Bit(c, i % 8) else IsFree(bitmap, i)
    ensures i / 8 == byte ==> (IsFree(bitmap, i) <==> Bit(bitmap[byte], i % 8))
    ensures i == 8 * byte + bit <==> i / 8 == byte && i % 8 == bit
  {
  }

  /** The three descriptors of one request in the table, as the device will find them. */
  ghost predicate RequestChain(table: seq<Desc>, first: nat, second: nat, third: nat,
                               header: nat, buffer: nat, length: nat, isWrite: bool, status: nat)
    requires TableOk(table)
  {
    && first < NUMBER_OF_DESCRIPTORS && second < NUMBER_OF_DESCRIPTORS && third < NUMBER_OF_DESCRIPTORS
    && first != second && first != third && second != third
    && table[first] == Desc(header, REQUEST_SIZE, FLAG_NEXT, second)
    && table[second] == Desc(buffer, length, if isWrite then FLAG_NEXT else FLAG_NEXT + FLAG_WRITE, third)
    && table[third].address == status && table[third].length == 1 && table[third].flags == FLAG_WRITE
  }

  class VirtioBlk {
    const ring: Vring
    const freeBitmap: array<bv8>

    ghost predicate Valid()
      reads ring
    {
      freeBitmap.Length == 8 && ring.Valid(NUMBER_OF_DESCRIPTORS)
    }

    ghost function Free(): set<nat>
      requires freeBitmap.Length == 8
      reads freeBitmap
    {
      FreeSet(freeBitmap[..])
    }

    constructor (ring: Vring)
      requires ring.Valid(NUMBER_OF_DESCRIPTORS)
      ensures Valid() && this.ring == ring && fresh(freeBitmap)
      ensures forall i: nat :: i < NUMBER_OF_DESCRIPTORS ==> i in Free()
    {
      this.ring := ring;
      freeBitmap := new bv8[8](_ => 0xFF);
      new;
      assert forall bit: nat {:trigger Bit(0xFF, bit)} :: bit < 8 ==> Bit(0xFF, bit) by {
        forall bit: nat | bit < 8
          ensures Bit(0xFF, bit)
        {
          assert bit == 0 || bit == 1 || bit == 2 || bit == 3 || bit == 4 || bit == 5 || bit == 6 || bit == 7;
        }
      }
      forall i: nat | i < NUMBER_OF_DESCRIPTORS
        ensures IsFree(freeBitmap[..], i)
      {
        assert Bit(0xFF, i % 8);
      }
    }

    method MarkUsed(byte: nat, bit: nat)
      requires freeBitmap.Length == 8 && byte < 8 && bit < 8
      modifies freeBitmap
      ensures Free() == old(Free()) - {8 * byte + bit}
    {
      ClearFree(freeBitmap[..], byte, bit);
      freeBitmap[byte] := freeBitmap[byte] & !(1 << bit);
      assert freeBitmap[..] == old(freeBitmap[..])[byte := old(freeBitmap[byte]) & !(1 << bit)];
    }

    /** Hands out the least free index. */
    method AllocateDescriptor() returns (r: Option<nat>)
      requires Valid()
      modifies freeBitmap
      ensures Valid()
      ensures r.None? <==> old(Free()) == {}
      ensures r.None? ==> Free() == {}
      ensures r.Some? ==>
                && r.value in old(Free()) && (forall i :: i in old(Free()) ==> r.value <= i)
                && Free() == old(Free()) - {r.value}
    {
      for byte := 0 to 8
        invariant freeBitmap[..] == old(freeBitmap[..])
        invariant forall i: nat {:trigger IsFree(freeBitmap[..], i)} :: i < 8 * byte ==> !IsFree(freeBitmap[..], i)
      {
        for bit := 0 to 8
          invariant freeBitmap[..] == old(freeBitmap[..])
          invariant forall i: nat {:trigger IsFree(freeBitmap[..], i)} :: i < 8 * byte + bit ==> !IsFree(freeBitmap[..], i)
        {
          Position(byte, bit);
          if (freeBitmap[byte] & (1 << bit)) != 0 {
            assert IsFree(freeBitmap[..], 8 * byte + bit);
            assert 8 * byte + bit in Free();
            MarkUsed(byte, bit);
            return Some(8 * byte + bit);
          }
          assert !IsFree(freeBitmap[..], 8 * byte + bit);
        }
      }
      return None;
    }

    method FreeDescriptor(index: nat)
      requires Valid() && index < NUMBER_OF_DESCRIPTORS
      modifies freeBitmap
      ensures Valid() && Free() == old(Free()) + {index}
    {
      SetFree(freeBitmap[..], index / 8, index % 8);
      freeBitmap[index / 8] := freeBitmap[index / 8] | (1 << (index % 8));
      assert freeBitmap[..] == old(freeBitmap[..])[index / 8 := old(freeBitmap[index / 8]) | (1 << (index % 8))];
    }

    /** Takes a descriptor and fills in everything but its successor. */
    method FillDescriptor(address: nat, length: nat, flags: nat) returns (r: Option<nat>)
      requires Valid()
      modifies freeBitmap, ring`table
      ensures Valid()
      ensures r.None? ==> old(Free()) == {} && Free() == {} && ring.table == old(ring.table)
      ensures r.Some? ==>
                && r.value in old(Free()) && Free() == old(Free()) - {r.value}
                && ring.table == old(ring.table)[r.value := Desc(address, length, flags, old(ring.table)[r.value].next)]
    {
      r := AllocateDescriptor();
      if r.Some? {
        ring.table := ring.table[r.value := Desc(address, length, flags, ring.table[r.value].next)];
      }
    }

    method LinkDescriptor(index: nat, next: nat)
      requires Valid() && index < NUMBER_OF_DESCRIPTORS && next < INDEX_LIMIT
      modifies ring`table
      ensures Valid() && ring.table == old(ring.table)[index := old(ring.table)[index].(next := next)]
    {
      ring.table := ring.table[index := ring.table[index].(next := next)];
    }

    /** Puts a head into the next slot of the available ring, and then makes it visible. */
    method MakeAvailable(head: nat)
      requires Valid() && head < INDEX_LIMIT
      modifies ring`availRing, ring`availIdx
      ensures Valid()
      ensures ring.availRing == old(ring.availRing)[Slot(old(ring.availIdx), NUMBER_OF_DESCRIPTORS) := head]
      ensures ring.availIdx == NextIndex(old(ring.availIdx))
    {
      var idx := ring.availIdx;
      ring.availRing := ring.availRing[idx % NUMBER_OF_DESCRIPTORS := head];
      ring.availIdx := NextIndex(ring.availIdx);
    }

    /** Takes the descriptors of the header and of the buffer, and links them. */
    method BuildHead(buffer: nat, length: nat, isWrite: bool, header: nat) returns (head: Option<(nat, nat)>)
      requires Valid()
      modifies freeBitmap, ring`table
      ensures Valid()
      ensures head.None? ==> Free() == {} && exists d :: old(Free()) <= {d}
      ensures head.Some? ==>
                && head.value.0 in old(Free()) && head.value.1 in old(Free()) && head.value.0 != head.value.1
                && Free() == old(Free()) - {head.value.0, head.value.1}
                && ring.table[head.value.0] == Desc(header, REQUEST_SIZE, FLAG_NEXT, head.value.1)
                && ring.table[head.value.1].(next := 0) == Desc(buffer, length % WORD32, if isWrite then FLAG_NEXT else FLAG_NEXT + FLAG_WRITE, 0)
      ensures forall i :: 0 <= i < INDEX_LIMIT && i !in old(Free()) ==> ring.table[i] == old(ring.table)[i]
    {
      var first := FillDescriptor(header, REQUEST_SIZE, FLAG_NEXT);
      if first.None? {
        assert old(Free()) <= {0};
        return None;
      }
      var second := FillDescriptor(buffer, length % WORD32, if isWrite then FLAG_NEXT else FLAG_NEXT + FLAG_WRITE);
      if second.None? {
        assert old(Free()) <= {first.value};
        return None;
      }
      LinkDescriptor(first.value, second.value);
      return Some((first.value, second.value));
    }

    /** Takes three descriptors and links them into a request. If there are fewer, those it took stay taken. */
    method BuildRequest(buffer: nat, length: nat, isWrite: bool, header: nat, status: nat) returns (request: Option<(nat, nat, nat)>)
      requires Valid()
      modifies freeBitmap, ring`table
      ensures Valid()
      ensures request.Some? <==> |old(Free())| >= 3
      ensures request.None? ==> Free() == {}
      ensures request.Some? ==>
                && RequestChain(ring.table, request.value.0, request.value.1, request.value.2, header, buffer, length % WORD32, isWrite, status)
                && {request.value.0, request.value.1, request.value.2} <= old(Free())
                && Free() == old(Free()) - {request.value.0, request.value.1, request.value.2}
      ensures forall i :: 0 <= i < INDEX_LIMIT && i !in old(Free()) ==> ring.table[i] == old(ring.table)[i]
    {
      ghost var free := Free();
      var head := BuildHead(buffer, length, isWrite, header);
      if head.None? {
        ghost var d :| free <= {d};
        AtMost(free, {d});
        return None;
      }
      var (first, second) := head.value;
      var third := FillDescriptor(status, 1, FLAG_WRITE);
      if third.None? {
        AtMost(free, {first, second});
        return None;
      }
      ThreeOf(free, first, second, third.value);
      LinkDescriptor(second, third.value);
      return Some((first, second, third.value));
    }

    method FreeChain(first: nat, second: nat, third: nat)
      requires Valid() && first < NUMBER_OF_DESCRIPTORS && second < NUMBER_OF_DESCRIPTORS && third < NUMBER_OF_DESCRIPTORS
      modifies freeBitmap
      ensures Valid() && Free() == old(Free()) + {first, second, third}
    {
      FreeDescriptor(first);
      FreeDescriptor(second);
      FreeDescriptor(third);
    }

    /** Performs one request. `header` and `status` are the addresses of the request header and the status byte on
        the stack, `sent` is the header stored there, and deviceStatus the status that the device stores in the end. If the
        device was notified, `request` holds the indices of the chain. */
    method OperationSync(buffer: nat, blockAddress: nat, length: nat, isWrite: bool, header: nat, status: nat, deviceStatus: nat)
      returns (ok: bool, request: Option<(nat, nat, nat)>, sent: Header)
      requires Valid()
      modifies freeBitmap, ring`table, ring`availRing, ring`availIdx
      ensures Valid()
      ensures blockAddress % 512 != 0 || length % 512 != 0 ==> !ok && request == None && Free() == old(Free()) && ring.table == old(ring.table)
      ensures blockAddress % 512 == 0 && length % 512 == 0 ==> (request.Some? <==> |old(Free())| >= 3)
      // fewer than three free descriptors: the request fails, and those it took are never given back
      ensures blockAddress % 512 == 0 && length % 512 == 0 && request == None ==> !ok && Free() == {}
      ensures request == None ==> ring.availRing == old(ring.availRing) && ring.availIdx == old(ring.availIdx)
      ensures request.Some? ==>
                && RequestChain(ring.table, request.value.0, request.value.1, request.value.2, header, buffer, length % WORD32, isWrite, status)
                && {request.value.0, request.value.1, request.value.2} <= old(Free())
                && ring.availRing == old(ring.availRing)[Slot(old(ring.availIdx), NUMBER_OF_DESCRIPTORS) := request.value.0]
                && ring.availIdx == NextIndex(old(ring.availIdx))
                && Free() == old(Free())
                && (ok <==> deviceStatus == 0)
                && sent.sector * 512 == blockAddress && sent.reqType == (if isWrite then 1 else 0)
      // the chain, with VIRTQ_DESC_F_NEXT = 1 and VIRTQ_DESC_F_WRITE = 2: the device reads the header, reads or writes the
      // buffer, and writes the status
      ensures request.Some? ==>
                var (first, second, third) := request.value;
                && ring.table[first] == Desc(header, 16, 1, second)
                && ring.table[second] == Desc(buffer, length % 0x1_0000_0000, if isWrite then 1 else 3, third)
                && ring.table[third].address == status && ring.table[third].length == 1 && ring.table[third].flags == 2
                && ring.availRing[old(ring.availIdx) % 64] == first && ring.availIdx == (old(ring.availIdx) + 1) % 0x1_0000
      ensures forall i :: 0 <= i < INDEX_LIMIT && i !in old(Free()) ==> ring.table[i] == old(ring.table)[i]
    {
      sent := Header(0, 0);
      if blockAddress % 512 != 0 || length % 512 != 0 {
        return false, None, sent;
      }
      sent := Header(if isWrite then TYPE_OUT else TYPE_IN, blockAddress / 512);
      request := BuildRequest(buffer, length, isWrite, header, status);
      if request.None? {
        return false, None, sent;
      }
      MakeAvailable(request.value.0);
      ok := deviceStatus == S_OK;
      FreeChain(request.value.0, request.value.1, request.value.2);
    }
  }

  lemma AtMost(a: set<nat>, b: set<nat>)
    requires a <= b
    ensures |a| <= |b|
  {
    assert |b - a| == |b| - |a|;
  }

  lemma ThreeOf(s: set<nat>, a: nat, b: nat, c: nat)
    requires {a, b, c} <= s && a != b && a != c && b != c
    ensures |s| >= 3
  {
    assert s == {a, b, c} + (s - {a, b, c});
    assert |{a, b, c}| == 3;
  }

  // ---------------------------------------------------------------- the chain as the device sees it

  /** The device accepts the driver's chain, and does one transfer: between the buffer and the file from the
      block address on; then it stores the status, which is 0 exactly if the transfer succeeded. */
  lemma ChainIsServed(table: seq<Desc>, first: nat, second: nat, third: nat, header: nat, buffer: nat, blockAddress: nat, length: nat,
                      isWrite: bool, status: nat, world: World, before: nat)
    requires TableOk(table) && RequestChain(table, first, second, third, header, buffer, length % 0x1_0000_0000, isWrite, status)
    requires blockAddress < WORD64 && blockAddress % 512 == 0
    requires world.translate(header).Some? && world.translate(buffer).Some? && world.translate(status).Some?
    requires world.header(world.translate(header).value) == Header(if isWrite then 1 else 0, blockAddress / 512)
    ensures !Malformed(table, first, world) && Acyclic(table, table[first].next)
    ensures var t := Transfer(isWrite, world.translate(buffer).value, blockAddress, length % 0x1_0000_0000);
            var s := if world.disk(before, t) then 0 else 1;
            && Serve(table, first, world, before).effects == [Disk(t), StatusByte(world.translate(status).value, s)]
            && Serve(table, first, world, before).length == (length % 0x1_0000_0000 + 1) % 0x1_0000_0000
  {
    assert EndsIn(table, third, 0);
    assert EndsIn(table, second, 1);
    assert Link(table, second, 0) == second && Link(table, second, 1) == third;
    EndsInUnique(table, second, 1, ChainLength(table, second));
    assert ServeBuffers(table, second, 0, isWrite, blockAddress, world, before) == Progress([], S_OK, 0, blockAddress);
  }

  /** The device is asked for the whole buffer exactly if its length fits into the 32 bits of the descriptor. */
  lemma WholeLengthIsTransferred(table: seq<Desc>, first: nat, second: nat, third: nat, header: nat, buffer: nat, blockAddress: nat, length: nat,
                                 isWrite: bool, status: nat, world: World, before: nat)
    requires TableOk(table) && RequestChain(table, first, second, third, header, buffer, length % WORD32, isWrite, status)
    requires blockAddress < WORD64 && blockAddress % 512 == 0
    requires world.translate(header).Some? && world.translate(buffer).Some? && world.translate(status).Some?
    requires world.header(world.translate(header).value) == Header(if isWrite then TYPE_OUT else TYPE_IN, blockAddress / 512)
    ensures !Malformed(table, first, world) && Acyclic(table, table[first].next)
    ensures var effects := Serve(table, first, world, before).effects;
            |effects| == 2 && effects[0].Disk? && (effects[0].transfer.size == length <==> length < WORD32)
  {
    ChainIsServed(table, first, second, third, header, buffer, blockAddress, length, isWrite, status, world, before);
  }

  /** A request for 2^32 + 512 bytes: the chain asks for 512 of them, and succeeds. */
  lemma LengthIsCutShort(world: World)
    requires world.translate(1).Some? && world.translate(2).Some? && world.translate(3).Some?
    requires world.header(world.translate(1).value) == Header(0, 0) && forall n, t :: world.disk(n, t)
    ensures var table := CutShortTable();
            && TableOk(table) && RequestChain(table, 0, 1, 2, 1, 2, (WORD32 + 512) % WORD32, false, 3)
            && !Malformed(table, 0, world) && Acyclic(table, table[0].next)
            && Serve(table, 0, world, 0).effects
               == [Disk(Transfer(false, world.translate(2).value, 0, 512)), StatusByte(world.translate(3).value, S_OK)]
  {
    ChainIsServed(CutShortTable(), 0, 1, 2, 1, 2, 0, WORD32 + 512, false, 3, world, 0);
  }

  function CutShortTable(): (table: seq<Desc>)
    ensures TableOk(table) && RequestChain(table, 0, 1, 2, 1, 2, 512, false, 3)
  {
    seq(INDEX_LIMIT, i requires 0 <= i < INDEX_LIMIT =>
      if i == 0 then Desc(1, REQUEST_SIZE, FLAG_NEXT, 1) else if i == 1 then Desc(2, 512, FLAG_NEXT + FLAG_WRITE, 2) else Desc(3, 1, FLAG_WRITE, 0))
  }
}
