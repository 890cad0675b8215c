/** The size classes and the alignment arithmetic of the memory allocator. */
module PageOrders {
  import opened Arithmetic

  const PAGE_SHIFT: nat := 12
  const NUM_OF_FREE_LIST: nat := 12

  function Pow2(n: nat): (r: nat)
    ensures r > 0
  {
    if n == 0 then 1 else 2 * Pow2(n - 1)
  }

  lemma {:induction false} Pow2Monotone(m: nat, n: nat)
    requires m <= n
    ensures Pow2(m) <= Pow2(n)
  {
    if m < n {
      Pow2Monotone(m, n - 1);
    }
  }

  /** Powers of two divide the larger ones. */
  lemma {:induction false} Pow2Divides(m: nat, n: nat)
    requires m <= n
    ensures Pow2(n) % Pow2(m) == 0
  {
    if m < n {
      Pow2Divides(m, n - 1);
      var q := Pow2(n - 1) / Pow2(m);
      assert Pow2(n) == (2 * q) * Pow2(m);
      MultipleMod(2 * q, Pow2(m));
    } else {
      MultipleMod(1, Pow2(m));
    }
  }

  // ---------------------------------------------------------------- size classes

  function PageOrderFrom(size: int, order: nat): (r: nat)
    requires order < NUM_OF_FREE_LIST
    ensures order <= r < NUM_OF_FREE_LIST
    decreases NUM_OF_FREE_LIST - order
  {
    if order + 1 < NUM_OF_FREE_LIST && size > Pow2(order + PAGE_SHIFT) then PageOrderFrom(size, order + 1) else order
  }

  /** The class of a size: the least order whose 4096 * 2^order bytes hold it, capped at the last class. */
  function PageOrder(size: int): (r: nat)
    ensures r < NUM_OF_FREE_LIST
  {
    PageOrderFrom(size, 0)
  }

  lemma {:induction false} PageOrderFromMeaning(size: int, order: nat)
    requires order < NUM_OF_FREE_LIST
    ensures var r := PageOrderFrom(size, order);
            && r < 12 && (r < 11 ==> size <= Pow2(r + 12))
            && (order < r ==> size > Pow2(r - 1 + 12))
    decreases NUM_OF_FREE_LIST - order
  {
    if order + 1 < NUM_OF_FREE_LIST && size > Pow2(order + PAGE_SHIFT) {
      PageOrderFromMeaning(size, order + 1);
    }
  }

  /** Classes are monotone in size, so a larger class never holds a smaller entry. */
  lemma PageOrderMonotone(small: int, large: int)
    requires small <= large
    ensures PageOrder(small) <= PageOrder(large)
  {
    var s, l := PageOrder(small), PageOrder(large);
    PageOrderFromMeaning(small, 0);
    PageOrderFromMeaning(large, 0);
    if l < s {
      Pow2Monotone(l + PAGE_SHIFT, s - 1 + PAGE_SHIFT);
    }
  }

  method SizeToPageOrder(size: int) returns (order: nat)
    ensures order == PageOrder(size)
  {
    order := 0;
    while size > Pow2(order + PAGE_SHIFT)
      invariant order + 1 < NUM_OF_FREE_LIST
      invariant PageOrder(size) == PageOrderFrom(size, order)
      decreases NUM_OF_FREE_LIST - order
    {
      order := order + 1;
      if order == NUM_OF_FREE_LIST - 1 {
        return;
      }
    }
  }

  // ---------------------------------------------------------------- alignment

  /** `address & !(align - 1)` for a power of two `align`. */
  function Masked(address: int, align: int): int
    requires align > 0
  {
    address - address % align
  }

  lemma MaskedMultiple(address: int, align: int)
    requires align > 0
    ensures Masked(address, align) % align == 0
    ensures Masked(address, align) <= address < Masked(address, align) + align
  {
    var q := address / align;
    assert address == q * align + address % align;
    ModUnique(Masked(address, align), q, 0, align);
  }

  function AlignAddressAndSize(address: int, size: int, alignOrder: nat): (int, int) {
    var alignSize := Pow2(alignOrder);
    var alignedAddress := Masked(address, alignSize);
    (alignedAddress, Masked(size + (address - alignedAddress) - 1, alignSize) + alignSize)
  }

  /** The aligned request is the least aligned interval that holds the requested one. */
  lemma AlignAddressAndSizeMeaning(address: int, size: int, alignOrder: nat)
    requires size > 0
    ensures var (a, n) := AlignAddressAndSize(address, size, alignOrder);
            var m := Pow2(alignOrder);
            && a % m == 0 && n % m == 0
            && a <= address < a + m
            && address + size <= a + n < address + size + m
  {
    var m := Pow2(alignOrder);
    var a := Masked(address, m);
    MaskedMultiple(address, m);
    MaskedMultiple(size + (address - a) - 1, m);
    MultipleMod(1, m);
    SumMod(Masked(size + (address - a) - 1, m), m, m);
  }

  function AlignAddressAndAvailableSize(start: int, size: int, alignOrder: nat): (int, int) {
    if start == 0 then
      (0, size)
    else
      var alignSize := Pow2(alignOrder);
      var alignedAddress := Masked(start - 1, alignSize) + alignSize;
      if size > alignedAddress - start then
        (alignedAddress, size - (alignedAddress - start))
      else
        (alignedAddress, 0)
  }

  /** The first aligned address of a range, and how much of the range follows it. */
  lemma AlignAddressAndAvailableSizeMeaning(start: int, size: int, alignOrder: nat)
    requires start >= 0 && size > 0
    ensures var (a, n) := AlignAddressAndAvailableSize(start, size, alignOrder);
            && a % Pow2(alignOrder) == 0
            && start <= a < start + Pow2(alignOrder)
            && n == (if start + size > a then start + size - a else 0)
            && (forall b :: start <= b && b % Pow2(alignOrder) == 0 ==> a <= b)
  {
    var m := Pow2(alignOrder);
    var (a, n) := AlignAddressAndAvailableSize(start, size, alignOrder);
    MaskedMultiple(start - 1, m);
    MultipleMod(1, m);
    MultipleMod(0, m);
    SumMod(Masked(start - 1, m), m, m);
    forall b | start <= b && b % m == 0
      ensures a <= b
    {
      if b < a && start != 0 {
        SumMod(a, b, m);
        ModUnique(a - b, 0, a - b, m);
      }
    }
  }
}
