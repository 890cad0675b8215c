/** Split virtqueues as of Virtio 1.2, section 2.7, in the legacy layout, with free-running 16-bit indices. */
module VirtioQueue {
  import opened Arithmetic

  const INDEX_LIMIT: nat := 0x1_0000

  datatype Desc = Desc(address: nat, length: nat, flags: nat, next: nat)

  predicate HasNext(d: Desc) {
    d.flags % 2 == 1
  }

  datatype UsedElement = UsedElement(id: nat, length: nat)

  /** `u16 += 1` in a release build. */
  function NextIndex(index: nat): (r: nat)
    ensures r < INDEX_LIMIT
  {
    (index + 1) % INDEX_LIMIT
  }

  /** The guest memory that holds one queue. The descriptor table is as long as a 16-bit index can reach, because
      the device does not check indices against the queue size. */
  class Vring {
    const descriptorAddress: nat
    const availAddress: nat
    const usedAddress: nat
    var table: seq<Desc>
    var availIdx: nat
    var availRing: seq<nat>
    var usedIdx: nat
    var usedRing: seq<UsedElement>

    ghost predicate Valid(size: nat)
      reads this
    {
      && |table| == INDEX_LIMIT && (forall i :: 0 <= i < INDEX_LIMIT ==> table[i].next < INDEX_LIMIT)
      && |availRing| == size && (forall i :: 0 <= i < size ==> availRing[i] < INDEX_LIMIT)
      && |usedRing| == size
      && availIdx < INDEX_LIMIT && usedIdx < INDEX_LIMIT
    }

    constructor (descriptorAddress: nat, availAddress: nat, usedAddress: nat, size: nat)
      ensures Valid(size) && availIdx == 0 && usedIdx == 0
    {
      this.descriptorAddress, this.availAddress, this.usedAddress := descriptorAddress, availAddress, usedAddress;
      table := seq(INDEX_LIMIT, _ => Desc(0, 0, 0, 0));
      availRing := seq(size, _ => 0);
      usedRing := seq(size, _ => UsedElement(0, 0));
      availIdx, usedIdx := 0, 0;
    }
  }

  // ---------------------------------------------------------------- slots

  /** The ring slot of a 16-bit index. */
  function Slot(index: nat, size: nat): (s: nat)
    requires size > 0
    ensures s < size
  {
    index % size
  }

  /** A queue size that divides the index range: a power of two up to 1024. */
  predicate SizeOk(size: nat) {
    0 < size <= 1024 && INDEX_LIMIT % size == 0
  }

  /** Wrapping at 16 bits does not disturb the slots: index n, counted without wrapping, is in slot n % size. */
  lemma SlotOfCount(n: nat, size: nat)
    requires size > 0 && INDEX_LIMIT % size == 0
    ensures Slot(n % INDEX_LIMIT, size) == n % size
  {
    var q, w := n / INDEX_LIMIT, INDEX_LIMIT / size;
    assert n == q * INDEX_LIMIT + n % INDEX_LIMIT && INDEX_LIMIT == w * size;
    assert q * (w * size) == (q * w) * size;
    var r := n % INDEX_LIMIT;
    assert n == (q * w + r / size) * size + r % size;
    ModUnique(n, q * w + r / size, r % size, size);
  }

  /** The ring goes on from slot to slot across the wrap exactly if its size divides 2^16. */
  lemma SlotsFollowCounts(size: nat)
    requires size > 0
    ensures (forall n: nat :: Slot(n % INDEX_LIMIT, size) == n % size) <==> INDEX_LIMIT % size == 0
  {
    if INDEX_LIMIT % size == 0 {
      forall n: nat
        ensures Slot(n % INDEX_LIMIT, size) == n % size
      {
        SlotOfCount(n, size);
      }
    } else {
      assert Slot(INDEX_LIMIT % INDEX_LIMIT, size) == 0;
    }
  }

  /** Nearby counts have different slots. */
  lemma SlotsDiffer(m: nat, n: nat, size: nat)
    requires size > 0 && m < n < m + size
    ensures m % size != n % size
  {
    ScaleBound(n / size - m / size, size);
    ScaleBound(n / size - m / size - 1, size);
    Distribute(n / size - m / size - 1, 1, size);
    if m % size == n % size {
      SameRemainder(m, n, size);
    }
  }

  lemma SameRemainder(m: nat, n: nat, size: nat)
    requires size > 0 && m % size == n % size
    ensures n - m == (n / size - m / size) * size
  {
    Distribute(n / size - m / size, m / size, size);
    assert n == (n / size) * size + n % size && m == (m / size) * size + m % size;
  }

  /** The indices advance together with the counts. */
  lemma NextOfCount(n: nat)
    ensures NextIndex(n % INDEX_LIMIT) == (n + 1) % INDEX_LIMIT
  {
  }
}
