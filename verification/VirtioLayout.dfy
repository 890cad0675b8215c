/** Where the parts of a legacy queue lie: the device derives them from a page frame number, the queue size and the guest's page size. */
module VirtioLayout {
  import opened Wrappers
  import opened Arithmetic
  import opened PageOrders

  /** Addresses, null being 0. */
  datatype Layout = Layout(descriptor: nat, avail: nat, used: nat)

  /** `a & !m`. */
  function AndNot(a: nat, m: nat): nat {
    if a == 0 then 0 else 2 * AndNot(a / 2, m / 2) + (if a % 2 == 1 && m % 2 == 0 then 1 else 0)
  }

  function AvailAddress(descriptor: nat, size: nat): nat {
    descriptor + 16 * size
  }

  /** `((end - 1) & !(pageSize - 1)) + pageSize` for the end of the available ring. Page size 0 wraps to a mask without any bit. */
  function UsedAddress(avail: nat, size: nat, pageSize: nat): nat {
    if pageSize == 0 then 0 else AndNot(avail + 2 * (3 + size) - 1, pageSize - 1) + pageSize
  }

  function LayoutOf(descriptor: nat, size: nat, pageSize: nat): Layout {
    Layout(descriptor, AvailAddress(descriptor, size), UsedAddress(AvailAddress(descriptor, size), size, pageSize))
  }

  // ---------------------------------------------------------------- what the guest expects

  /** The memory of a guest, and where it lies on the host. */
  datatype Ram = Ram(virtualBase: nat, size: nat, physicalBase: nat) {
    function Translate(address: nat): Option<nat> {
      if virtualBase <= address < virtualBase + size then Some(address - virtualBase + physicalBase) else None
    }

    function Shift(): int {
      physicalBase - virtualBase
    }
  }

  /** The end of the available ring, from the beginning of the queue on. */
  function End(size: nat): nat {
    16 * size + 2 * (3 + size)
  }

  /** Where section 2.7.2 of Virtio 1.2 has the used ring of a legacy queue begin: with the first page behind the
      available ring, counted from the beginning of the queue. */
  function UsedOffset(size: nat, pageSize: nat): nat
    requires pageSize > 0
  {
    ((End(size) - 1) / pageSize + 1) * pageSize
  }

  lemma UsedOffsetIsLeast(size: nat, pageSize: nat, n: nat)
    requires pageSize > 0
    ensures UsedOffset(size, pageSize) % pageSize == 0 && End(size) <= UsedOffset(size, pageSize)
    ensures n % pageSize == 0 && End(size) <= n ==> UsedOffset(size, pageSize) <= n
  {
    var q := (End(size) - 1) / pageSize;
    MultipleMod(q + 1, pageSize);
    Between(End(size) - 1, pageSize);
    if n % pageSize == 0 && End(size) <= n {
      Split(n, pageSize);
      Cancel(q, n / pageSize, pageSize);
      InOrder(q + 1, n / pageSize, pageSize);
    }
  }

  /** The used ring of a queue that begins at a host address lies where the guest expects it. */
  predicate PlacedAt(descriptor: nat, size: nat, pageSize: nat)
    requires pageSize > 0
  {
    LayoutOf(descriptor, size, pageSize).used == descriptor + UsedOffset(size, pageSize)
  }

  /** The same for a queue that begins at a page frame of the guest, if that lies in its memory. */
  predicate Placed(ram: Ram, frame: nat, size: nat, pageSize: nat)
    requires pageSize > 0
  {
    match ram.Translate(frame * pageSize)
    case Some(descriptor) => PlacedAt(descriptor, size, pageSize)
    case None => true
  }

  ghost predicate PowerOfTwo(n: nat) {
    exists k: nat :: n == Pow2(k)
  }

  // ---------------------------------------------------------------- masks

  lemma {:induction false} NoMask(a: nat)
    ensures AndNot(a, 0) == a
  {
    if a > 0 {
      NoMask(a / 2);
    }
  }

  lemma Doubled(q: nat, p: nat)
    ensures q * (2 * p) == 2 * (q * p)
  {
  }

  /** A mask of low ones rounds down. */
  lemma {:induction false} LowMask(a: nat, k: nat) returns (q: nat)
    ensures AndNot(a, Pow2(k) - 1) == q * Pow2(k) <= a < q * Pow2(k) + Pow2(k)
  {
    if k == 0 {
      NoMask(a);
      q := a;
    } else {
      q := LowMask(a / 2, k - 1);
      Halves(Pow2(k - 1) - 1, 1);
      Doubled(q, Pow2(k - 1));
    }
  }

  lemma {:induction false} MaskedTwice(a: nat, m: nat)
    ensures AndNot(AndNot(a, m), m) == AndNot(a, m)
  {
    if a > 0 {
      MaskedTwice(a / 2, m / 2);
      Halves(AndNot(a / 2, m / 2), if a % 2 == 1 && m % 2 == 0 then 1 else 0);
    }
  }

  lemma Halves(x: nat, bit: nat)
    requires bit < 2
    ensures (2 * x + bit) / 2 == x && (2 * x + bit) % 2 == bit
  {
  }

  /** Adding a mask to a number that has none of its bits sets all of them. */
  lemma {:induction false} MaskAdded(y: nat, m: nat)
    requires AndNot(y, m) == y
    ensures AndNot(y + m, m) == y
  {
    if m == 0 {
      NoMask(y);
    } else {
      FreeHalf(y, m);
      MaskAdded(y / 2, m / 2);
      assert (y + m) / 2 == y / 2 + m / 2;
    }
  }

  /** A number without any bit of a mask, halved. */
  lemma FreeHalf(y: nat, m: nat)
    requires AndNot(y, m) == y
    ensures AndNot(y / 2, m / 2) == y / 2 && (m % 2 == 1 ==> y % 2 == 0)
  {
  }

  /** Three numbers at a distance of m + 1 without any bit of m: then m has no gap. */
  lemma {:induction false} NoGap(y: nat, m: nat)
    requires AndNot(y, m) == y && AndNot(y + (m + 1), m) == y + (m + 1) && AndNot(y + 2 * (m + 1), m) == y + 2 * (m + 1)
    ensures PowerOfTwo(m + 1)
  {
    if m == 0 {
      assert Pow2(0) == 1;
    } else if m % 2 == 1 {
      HalvedRow(y, m);
      NoGap(y / 2, m / 2);
      var k: nat :| m / 2 + 1 == Pow2(k);
      assert Pow2(k + 1) == m + 1;
    } else {
      LowBitFree(y, m);
    }
  }

  lemma HalvedRow(y: nat, m: nat)
    requires m % 2 == 1
    requires AndNot(y, m) == y && AndNot(y + (m + 1), m) == y + (m + 1) && AndNot(y + 2 * (m + 1), m) == y + 2 * (m + 1)
    ensures AndNot(y / 2, m / 2) == y / 2 && AndNot(y / 2 + (m / 2 + 1), m / 2) == y / 2 + (m / 2 + 1)
    ensures AndNot(y / 2 + 2 * (m / 2 + 1), m / 2) == y / 2 + 2 * (m / 2 + 1)
  {
    FreeHalf(y, m);
    FreeHalf(y + (m + 1), m);
    FreeHalf(y + 2 * (m + 1), m);
    assert (y + (m + 1)) / 2 == y / 2 + (m / 2 + 1) && (y + 2 * (m + 1)) / 2 == y / 2 + 2 * (m / 2 + 1);
  }

  /** If the lowest bit of the mask is clear, the second or the third number has one of its bits. */
  lemma LowBitFree(y: nat, m: nat)
    requires m > 0 && m % 2 == 0
    requires AndNot(y, m) == y && AndNot(y + (m + 1), m) == y + (m + 1)
    ensures AndNot(y + 2 * (m + 1), m) != y + 2 * (m + 1)
  {
    FreeHalf(y, m);
    FreeHalf(y + (m + 1), m);
    if y % 2 == 0 {
      MaskAdded(y / 2, m / 2);
    } else {
      MaskAdded(y / 2 + m / 2 + 1, m / 2);
    }
  }

  // ---------------------------------------------------------------- the layout

  /** The device takes the available ring to begin behind the descriptors of 16 bytes each, where section 2.7.2 of Virtio 1.2
      has the guest put it, for every page frame. */
  lemma AvailIsPlaced(ram: Ram, frame: nat, size: nat, pageSize: nat)
    requires ram.Translate(frame * pageSize).Some? && ram.Translate(frame * pageSize + 16 * size).Some?
    ensures LayoutOf(ram.Translate(frame * pageSize).value, size, pageSize).avail == ram.Translate(frame * pageSize + 16 * size).value
  {
  }

  lemma {:induction false} MaskBounds(a: nat, m: nat)
    ensures a - m <= AndNot(a, m) <= a
  {
    if a > 0 {
      MaskBounds(a / 2, m / 2);
    }
  }

  /** The three parts do not overlap: the descriptors of 16 bytes, then flags, index, heads and event index of 2 bytes each,
      and then, less than a page further on, the used ring. */
  lemma RingsApart(descriptor: nat, size: nat, pageSize: nat)
    ensures var layout := LayoutOf(descriptor, size, pageSize);
            && layout.descriptor == descriptor && layout.avail == descriptor + 16 * size
            && (pageSize > 0 ==> 0 <= layout.used - (layout.avail + 2 * (3 + size)) < pageSize)
  {
    if pageSize > 0 {
      MaskBounds(AvailAddress(descriptor, size) + 2 * (3 + size) - 1, pageSize - 1);
    }
  }

  /** Where the used ring lies, for a page size that is a power of two. */
  lemma PlacedExactly(descriptor: nat, size: nat, pageSize: nat, k: nat)
    requires pageSize == Pow2(k)
    ensures PlacedAt(descriptor, size, pageSize) <==> descriptor % pageSize == 0
  {
    var q := LowMask(descriptor + End(size) - 1, k);
    OnBoundary(descriptor, End(size), pageSize, q);
  }

  lemma OnBoundary(d: nat, end: nat, p: nat, q: nat)
    requires p > 0 && end > 0 && q * p < d + end <= q * p + p
    ensures q * p + p == d + ((end - 1) / p + 1) * p <==> d % p == 0
  {
    var r := (end - 1) / p;
    Distribute(q, 1, p);
    Distribute(r, 1, p);
    if d % p == 0 {
      Split(d, p);
      Distribute(q - d / p, d / p, p);
      ModUnique(end - 1, q - d / p, end - 1 - (q - d / p) * p, p);
    }
    if q * p + p == d + (r + 1) * p {
      Distribute(q - r, r, p);
      MultipleMod(q - r, p);
    }
  }

  /** The page before the used ring of a queue that is placed as the guest expects it. */
  lemma UsedPage(descriptor: nat, size: nat, pageSize: nat) returns (y: nat)
    requires pageSize > 0 && PlacedAt(descriptor, size, pageSize)
    ensures y == descriptor + UsedOffset(size, pageSize) - pageSize && AndNot(y, pageSize - 1) == y
  {
    y := AndNot(descriptor + End(size) - 1, pageSize - 1);
    MaskedTwice(descriptor + End(size) - 1, pageSize - 1);
  }

  /** Three neighbouring queues that are placed as the guest expects them. */
  lemma ThreePlaced(descriptor: nat, size: nat, pageSize: nat)
    requires pageSize > 0
    requires PlacedAt(descriptor, size, pageSize) && PlacedAt(descriptor + pageSize, size, pageSize) && PlacedAt(descriptor + 2 * pageSize, size, pageSize)
    ensures PowerOfTwo(pageSize)
  {
    var y := UsedPage(descriptor, size, pageSize);
    var y' := UsedPage(descriptor + pageSize, size, pageSize);
    var y'' := UsedPage(descriptor + 2 * pageSize, size, pageSize);
    NoGap(y, pageSize - 1);
  }

  /** The frame of a queue does not change its place within a page of the host. */
  lemma FrameShift(frame: nat, shift: int, p: nat)
    requires p > 0
    ensures (frame * p + shift) % p == shift % p
  {
    Split(shift, p);
    Distribute(frame, shift / p, p);
    ModUnique(frame * p + shift, frame + shift / p, shift % p, p);
  }

  lemma FramesInRow(frame: nat, p: nat)
    ensures (frame + 1) * p == frame * p + p && (frame + 2) * p == frame * p + 2 * p
  {
    Distribute(frame, 1, p);
    Distribute(frame, 2, p);
  }

  /** A queue at any page frame is placed as the guest expects it if and only if the page size is a power of two that
      divides the distance between the memory of the guest and its place on the host. Three page frames in a row decide. */
  lemma LayoutIsLegacy(ram: Ram, size: nat, pageSize: nat, frame: nat)
    requires pageSize > 0
    requires ram.Translate(frame * pageSize).Some? && ram.Translate((frame + 1) * pageSize).Some? && ram.Translate((frame + 2) * pageSize).Some?
    ensures (forall f: nat :: Placed(ram, f, size, pageSize)) <==> PowerOfTwo(pageSize) && ram.Shift() % pageSize == 0
  {
    if forall f: nat :: Placed(ram, f, size, pageSize) {
      FramesInRow(frame, pageSize);
      assert Placed(ram, frame, size, pageSize) && Placed(ram, frame + 1, size, pageSize) && Placed(ram, frame + 2, size, pageSize);
      ThreePlaced(ram.Translate(frame * pageSize).value, size, pageSize);
      var k: nat :| pageSize == Pow2(k);
      PlacedExactly(ram.Translate(frame * pageSize).value, size, pageSize, k);
      FrameShift(frame, ram.Shift(), pageSize);
    }
    if PowerOfTwo(pageSize) && ram.Shift() % pageSize == 0 {
      var k: nat :| pageSize == Pow2(k);
      forall f: nat
        ensures Placed(ram, f, size, pageSize)
      {
        AllPlaced(ram, f, size, pageSize, k);
      }
    }
  }

  lemma AllPlaced(ram: Ram, frame: nat, size: nat, pageSize: nat, k: nat)
    requires pageSize == Pow2(k) && ram.Shift() % pageSize == 0
    ensures Placed(ram, frame, size, pageSize)
  {
    if ram.Translate(frame * pageSize).Some? {
      FrameShift(frame, ram.Shift(), pageSize);
      PlacedExactly(ram.Translate(frame * pageSize).value, size, pageSize, k);
    }
  }

  /** A guest with pages of 64 KB, whose memory is aligned to 4 KB on the host: the device takes the used ring to begin
      0xF000 bytes into the queue, and the guest 0x10000. */
  lemma LargePagesAreMisplaced()
    ensures var ram := Ram(0x4000_0000, 0x1000_0000, 0x8000_1000);
            && ram.Translate(0x4000 * 0x1_0000) == Some(0x8000_1000)
            && LayoutOf(0x8000_1000, 128, 0x1_0000).used == 0x8000_1000 + 0xF000
            && UsedOffset(128, 0x1_0000) == 0x1_0000
            && !Placed(ram, 0x4000, 128, 0x1_0000)
  {
    SixtyFourKilobytes();
    UsedIs(0x8000_1000, 128, 0x1_0000, 16, 0x8000);
  }

  lemma UsedIs(descriptor: nat, size: nat, p: nat, k: nat, q: nat)
    requires p == Pow2(k) && q * p < descriptor + End(size) <= q * p + p
    ensures LayoutOf(descriptor, size, p).used == q * p + p
  {
    var last := descriptor + End(size) - 1;
    var r := LowMask(last, k);
    ModUnique(last, q, last - q * p, p);
    ModUnique(last, r, last - r * p, p);
  }

  lemma SixtyFourKilobytes()
    ensures Pow2(16) == 0x1_0000
  {
    assert Pow2(4) == 16;
    assert Pow2(8) == 256;
    assert Pow2(12) == 4096;
  }

  /** A page size that is no power of two. */
  lemma OddPagesAreMisplaced()
    ensures LayoutOf(0, 1, 5).used == 24 && UsedOffset(1, 5) == 25
  {
    assert AndNot(2, 0) == 2;
    assert AndNot(5, 1) == 4;
    assert AndNot(11, 2) == 9;
    assert AndNot(23, 4) == 19;
  }
}
