/** The root of the stage 2 tables: where the walk starts, and how many tables are concatenated there. */
module Stage2Roots {
  import opened Arithmetic
  import opened PageOrders
  import opened Stage2Tables

  /** The size of the physical address space for a value of ID_AA64MMFR0_EL1.PARange
      (DDI 0487, section D8.1.6), as far as the table format used here reaches. */
  function PhysicalAddressBits(parange: nat): nat {
    match parange
    case 0 => 32
    case 1 => 36
    case 2 => 40
    case 3 => 42
    case 4 => 44
    case _ => 48
  }

  /** The chosen T0SZ and initial lookup level. */
  function InitialLookup(parange: nat): (nat, nat) {
    match parange
    case 0 => (32, 1)
    case 1 => (28, 1)
    case 2 => (24, 1)
    case 3 => (22, 1)
    case 4 => (20, 0)
    case 5 => (16, 0)
    case _ => (16, 0)
  }

  /** VTCR_EL2.SL0 for an initial lookup level, and back. */
  function Sl0(level: nat): nat {
    if level == 1 then 1 else 2
  }

  function LevelOfSl0(sl0: nat): (level: nat)
    requires sl0 < 4
    ensures level <= 3
  {
    match sl0
    case 0 => 2
    case 1 => 1
    case 2 => 0
    case _ => 3
  }

  function NumberOfConcatenatedPageTables(t0sz: nat, firstLevel: nat): (n: nat)
    requires firstLevel <= 3
    ensures n > 0
  {
    if t0sz > 43 - (3 - firstLevel) * 9 then 1 else Pow2(43 - (3 - firstLevel) * 9 - t0sz)
  }

  /** The input addresses behind a root table. */
  function RootSize(t0sz: nat, level: nat): nat
    requires level <= 3
  {
    NumberOfConcatenatedPageTables(t0sz, level) * ENTRIES * Span(level)
  }

  /** The concatenated tables hold the whole input address space, and no more of them are used than needed. */
  lemma RootCovers(t0sz: nat, level: nat)
    requires level <= 3 && t0sz <= 64
    ensures Pow2(64 - t0sz) <= RootSize(t0sz, level)
    ensures NumberOfConcatenatedPageTables(t0sz, level) > 1 ==> RootSize(t0sz, level) == Pow2(64 - t0sz)
  {
    var top := 43 - (3 - level) * 9;
    var n := NumberOfConcatenatedPageTables(t0sz, level);
    TableBits(level);
    Associate(n, ENTRIES, Span(level));
    if t0sz > top {
      Pow2Monotone(64 - t0sz, 64 - top);
    } else {
      Pow2Sum(top - t0sz, 64 - top);
    }
  }

  /** One table of 512 entries translates 2^(64 - 43 + 9 * (3 - level)) bytes. */
  lemma TableBits(level: nat)
    requires level <= 3
    ensures ENTRIES * Span(level) == Pow2(21 + (3 - level) * 9)
  {
    Pow2Small();
    Pow2Sum(21, 9);
    Pow2Sum(30, 9);
    Pow2Sum(39, 9);
  }

  lemma Pow2Small()
    ensures Pow2(9) == 512 && Pow2(21) == 0x20_0000
  {
    assert Pow2(4) == 16;
    assert Pow2(8) == 256;
    assert Pow2(12) == 4096;
    assert Pow2(16) == 65536;
    assert Pow2(20) == 0x10_0000;
  }

  lemma {:induction false} Pow2Sum(a: nat, b: nat)
    ensures Pow2(a + b) == Pow2(a) * Pow2(b)
  {
    if a > 0 {
      Pow2Sum(a - 1, b);
      assert Pow2(a) * Pow2(b) == 2 * (Pow2(a - 1) * Pow2(b));
    }
  }

  /** The configuration chosen at start-up: the input address space is as large as the physical one, its
      tables hold all of it, at most eight are concatenated, and the level is read back from the register. */
  lemma InitialLookupFits(parange: nat)
    ensures var (t0sz, level) := InitialLookup(parange);
            && 64 - t0sz == PhysicalAddressBits(parange)
            && Pow2(PhysicalAddressBits(parange)) <= RootSize(t0sz, level)
            && NumberOfConcatenatedPageTables(t0sz, level) <= 8
            && LevelOfSl0(Sl0(level)) == level && Sl0(level) + level == 2
  {
    var (t0sz, level) := InitialLookup(parange);
    RootCovers(t0sz, level);
    assert Pow2(0) == 1 && Pow2(1) == 2 && Pow2(3) == 8;
  }
}
