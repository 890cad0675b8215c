/**
 Stage 2 translation tables: 64-bit descriptor words and the walk that gives them meaning,
 after the Arm Architecture Reference Manual for A-profile (DDI 0487), chapter D8, for the
 4KB granule. Words are natural numbers, and the bit masks of the original are written as
 the arithmetic they perform on the fields.
 */
module Stage2Tables {
  import opened Wrappers
  import opened Arithmetic

  const PAGE_SIZE: nat := 0x1000
  const ENTRIES: nat := 512

  /** One past the largest output address that bits 49:12 of a descriptor can hold. */
  const OUTPUT_LIMIT: nat := 0x4_0000_0000_0000

  /** The bytes that one entry of a table of this level translates: `1 << shift`. */
  function Span(level: nat): (s: nat)
    ensures s >= PAGE_SIZE
  {
    if level == 0 then 0x80_0000_0000
    else if level == 1 then 0x4000_0000
    else if level == 2 then 0x20_0000
    else PAGE_SIZE
  }

  // ---------------------------------------------------------------- descriptor fields

  /** The field of `size` values that begins at the bit of weight `unit`. */
  function Field(word: nat, unit: nat, size: nat): nat
    requires unit > 0 && size > 0
  {
    (word / unit) % size
  }

  /** `(word & !mask) | (value * unit)` for the mask of that field. */
  function WithField(word: nat, unit: nat, size: nat, value: nat): nat
    requires unit > 0 && size > 0 && value < size
  {
    FieldBound(word, unit, size);
    word - Field(word, unit, size) * unit + value * unit
  }

  lemma FieldBound(word: nat, unit: nat, size: nat)
    requires unit > 0 && size > 0
    ensures Field(word, unit, size) * unit <= word
  {
    assert word == (word / unit) * unit + word % unit;
    ModBelow(word / unit, size);
    InOrder(Field(word, unit, size), word / unit, unit);
  }

  lemma ModBelow(a: nat, m: nat)
    requires m > 0
    ensures a % m <= a
  {
    assert a == (a / m) * m + a % m;
  }

  function Kind(word: nat): nat {
    Field(word, 1, 4)
  }

  function AttrIndex(word: nat): nat {
    Field(word, 4, 16)
  }

  function S2ap(word: nat): nat {
    Field(word, 0x40, 4)
  }

  function Shareability(word: nat): nat {
    Field(word, 0x100, 4)
  }

  function AccessFlag(word: nat): nat {
    Field(word, 0x400, 2)
  }

  function OutputAddress(word: nat): nat {
    Field(word, 0x1000, 0x40_0000_0000) * 0x1000
  }

  function NextLevelTableAddress(word: nat): nat {
    Field(word, 0x1000, 0x100_0000_0000) * 0x1000
  }

  function SetOutputAddress(word: nat, address: nat): nat
    requires address % PAGE_SIZE == 0 && address < OUTPUT_LIMIT
  {
    WithField(WithField(word, 0x1000, 0x40_0000_0000, address / 0x1000), 0x400, 2, 1)
  }

  function SetPermission(word: nat, permission: nat): nat
    requires permission < 4
  {
    WithField(word, 0x40, 4, permission)
  }

  function SetMemoryAttributeWriteBack(word: nat): nat {
    WithField(word, 4, 16, 15)
  }

  function SetInnerShareable(word: nat): nat {
    WithField(word, 0x100, 4, 3)
  }

  /** The word the mapper stores for a page (kind 3) or a block (kind 1). */
  function LeafWord(address: nat, permission: nat, kind: nat): nat
    requires address % PAGE_SIZE == 0 && address < OUTPUT_LIMIT && permission < 4 && kind < 4
  {
    WithField(SetInnerShareable(SetMemoryAttributeWriteBack(SetPermission(SetOutputAddress(0, address), permission))), 1, 4, kind)
  }

  /** The word the mapper stores for a next-level table. */
  function TableWord(address: nat): nat
    requires address % PAGE_SIZE == 0 && address < OUTPUT_LIMIT
  {
    WithField(SetOutputAddress(0, address), 1, 4, 3)
  }

  /** A word that is written as high part, field and low part has that field, and replacing it keeps the rest. */
  lemma SplitWord(word: nat, unit: nat, size: nat, high: nat, value: nat, low: nat)
    requires unit > 0 && value < size && low < unit
    requires word == high * (unit * size) + value * unit + low
    ensures Field(word, unit, size) == value
    ensures forall v :: 0 <= v < size ==> WithField(word, unit, size, v) == high * (unit * size) + v * unit + low
  {
    assert high * (unit * size) == (high * size) * unit;
    assert word == (high * size + value) * unit + low;
    ModUnique(word, high * size + value, low, unit);
    ModUnique(high * size + value, high, value, size);
  }

  /** The output address is stored as a frame number in bits 49:12, with the access flag. */
  lemma OutputWord(address: nat)
    requires address % PAGE_SIZE == 0 && address < OUTPUT_LIMIT
    ensures SetOutputAddress(0, address) == address + 0x400
  {
    var f := address / 0x1000;
    SplitWord(0, 0x1000, 0x40_0000_0000, 0, 0, 0);
    SplitWord(address, 0x400, 2, 2 * f, 0, 0);
  }

  // What each setter adds to a word in which its field is still zero.

  lemma PermissionWord(f: nat, permission: nat)
    requires permission < 4
    ensures SetPermission(f * 0x1000 + 0x400, permission) == f * 0x1000 + 0x400 + permission * 0x40
  {
    SplitWord(f * 0x1000 + 0x400, 0x40, 4, 16 * f + 4, 0, 0);
  }

  lemma AttributeWord(f: nat, permission: nat, w: nat)
    requires permission < 4 && w == f * 0x1000 + 0x400 + permission * 0x40
    ensures SetMemoryAttributeWriteBack(w) == w + 0x3C
  {
    SplitWord(w, 4, 16, 64 * f + 16 + permission, 0, 0);
  }

  lemma ShareabilityWord(f: nat, permission: nat, w: nat)
    requires permission < 4 && w == f * 0x1000 + 0x43C + permission * 0x40
    ensures SetInnerShareable(w) == w + 0x300
  {
    SplitWord(w, 0x100, 4, 4 * f + 1, 0, permission * 0x40 + 0x3C);
  }

  lemma KindWord(f: nat, permission: nat, kind: nat, w: nat)
    requires permission < 4 && kind < 4 && w == f * 0x1000 + 0x73C + permission * 0x40
    ensures WithField(w, 1, 4, kind) == w + kind
  {
    SplitWord(w, 1, 4, 1024 * f + 0x1CF + permission * 0x10, 0, 0);
  }

  /** The sum of the fields of a leaf descriptor. */
  lemma LeafWordValue(address: nat, permission: nat, kind: nat)
    requires address % PAGE_SIZE == 0 && address < OUTPUT_LIMIT && permission < 4 && kind < 4
    ensures LeafWord(address, permission, kind) == address + 0x73C + permission * 0x40 + kind
  {
    OutputWord(address);
    LeafWordSum(address / 0x1000, permission, kind, SetOutputAddress(0, address));
  }

  lemma LeafWordSum(f: nat, permission: nat, kind: nat, w: nat)
    requires permission < 4 && kind < 4 && w == f * 0x1000 + 0x400
    ensures WithField(SetInnerShareable(SetMemoryAttributeWriteBack(SetPermission(w, permission))), 1, 4, kind)
         == f * 0x1000 + 0x73C + permission * 0x40 + kind
  {
    PermissionWord(f, permission);
    var w2 := SetPermission(w, permission);
    AttributeWord(f, permission, w2);
    var w3 := SetMemoryAttributeWriteBack(w2);
    ShareabilityWord(f, permission, w3);
    KindWord(f, permission, kind, SetInnerShareable(w3));
  }

  lemma LowFields(f: nat, permission: nat, kind: nat, w: nat)
    requires permission < 4 && kind < 4 && w == f * 0x1000 + 0x73C + permission * 0x40 + kind
    ensures Kind(w) == kind && S2ap(w) == permission && AttrIndex(w) == 15
  {
    SplitWord(w, 1, 4, 1024 * f + 0x1CF + permission * 0x10, kind, 0);
    SplitWord(w, 4, 16, 64 * f + 0x1C + permission, 15, kind);
    SplitWord(w, 0x40, 4, 16 * f + 7, permission, 0x3C + kind);
  }

  lemma HighFields(f: nat, permission: nat, kind: nat, w: nat)
    requires f < 0x40_0000_0000 && permission < 4 && kind < 4 && w == f * 0x1000 + 0x73C + permission * 0x40 + kind
    ensures OutputAddress(w) == f * 0x1000 && Shareability(w) == 3 && AccessFlag(w) == 1
  {
    SplitWord(w, 0x100, 4, 4 * f + 1, 3, permission * 0x40 + 0x3C + kind);
    SplitWord(w, 0x400, 2, 2 * f, 1, 0x33C + permission * 0x40 + kind);
    SplitWord(w, 0x1000, 0x40_0000_0000, 0, f, 0x73C + permission * 0x40 + kind);
  }

  /** Every field reads back as it was set, and no field disturbs another. */
  lemma LeafWordFields(address: nat, permission: nat, kind: nat)
    requires address % PAGE_SIZE == 0 && address < OUTPUT_LIMIT && permission < 4 && kind < 4
    ensures var w := LeafWord(address, permission, kind);
            && Kind(w) == kind && OutputAddress(w) == address && S2ap(w) == permission
            && AttrIndex(w) == 15 && Shareability(w) == 3 && AccessFlag(w) == 1
  {
    var f := address / 0x1000;
    LeafWordValue(address, permission, kind);
    LowFields(f, permission, kind, LeafWord(address, permission, kind));
    HighFields(f, permission, kind, LeafWord(address, permission, kind));
  }

  lemma TableWordFields(address: nat)
    requires address % PAGE_SIZE == 0 && address < OUTPUT_LIMIT
    ensures TableWord(address) == address + 0x403
    ensures Kind(TableWord(address)) == 3 && NextLevelTableAddress(TableWord(address)) == address
  {
    var f := address / 0x1000;
    OutputWord(address);
    SplitWord(address + 0x400, 1, 4, 1024 * f + 0x100, 0, 0);
    var w := TableWord(address);
    assert w == address + 0x403;
    SplitWord(w, 1, 4, 1024 * f + 0x100, 3, 0);
    SplitWord(w, 0x1000, 0x100_0000_0000, 0, f, 0x403);
  }

  // ---------------------------------------------------------------- the walk

  /** A leaf of the tables: `size` bytes of input map to `size` bytes from `output`. */
  datatype Leaf = Leaf(output: nat, size: nat, permission: nat, attribute: nat, shareability: nat)

  /** What a page or block descriptor means; without the access flag the access faults. */
  function LeafOf(word: nat, level: nat): Option<Leaf> {
    if AccessFlag(word) == 0 then None
    else
      var output := OutputAddress(word);
      Some(Leaf(output - output % Span(level), Span(level), S2ap(word), AttrIndex(word), Shareability(word)))
  }

  type Memory = map<nat, seq<nat>>

  /** The memory after entry i of the table at t has been overwritten. */
  function SetEntry(tables: Memory, t: nat, i: nat, word: nat): Memory
    requires t in tables && i < |tables[t]|
  {
    var row: seq<nat> := tables[t][i := word];
    tables[t := row]
  }

  /** The translation of x below a descriptor of the given level. */
  function Descend(tables: Memory, word: nat, level: nat, x: nat): Option<Leaf>
    requires level <= 3
    decreases 3 - level, 0
  {
    if level == 3 then
      if Kind(word) == 3 then LeafOf(word, 3) else None
    else if Kind(word) == 3 then
      Walk(tables, NextLevelTableAddress(word), level + 1, ENTRIES, x)
    else if Kind(word) == 1 && level >= 1 then
      LeafOf(word, level)
    else
      None
  }

  function Index(x: nat, level: nat, count: nat): (i: nat)
    requires count > 0
    ensures i < count
  {
    (x / Span(level)) % count
  }

  /** The translation of x by the table at `table`, of `count` entries; None is a fault. */
  function Walk(tables: Memory, table: nat, level: nat, count: nat, x: nat): Option<Leaf>
    requires level <= 3
    decreases 3 - level, 1
  {
    if table in tables && |tables[table]| == count && count > 0 then
      Descend(tables, tables[table][Index(x, level, count)], level, x)
    else
      None
  }

  // ---------------------------------------------------------------- windows of entries

  /** Where the window of entry i of a table begins, when the table's own window begins at `base`. */
  function EntryStart(base: nat, level: nat, i: nat): nat {
    base + i * Span(level)
  }

  /** Entry i translates exactly the addresses of its window. */
  ghost predicate InEntry(x: nat, base: nat, level: nat, i: nat) {
    EntryStart(base, level, i) <= x < EntryStart(base, level, i) + Span(level)
  }

  lemma EntryIndex(x: nat, base: nat, level: nat, count: nat, i: nat)
    requires count > 0 && i < count && InEntry(x, base, level, i)
    requires base % (count * Span(level)) == 0
    ensures Index(x, level, count) == i
  {
    var s := Span(level);
    var q := base / (count * s);
    assert base == q * (count * s) == (q * count) * s;
    var d := x - base - i * s;
    assert x == (q * count + i) * s + d;
    ModUnique(x, q * count + i, d, s);
    ModUnique(q * count + i, q, i, count);
  }

  /** Every address of a table's window lies in exactly one entry. */
  lemma EntryOf(x: nat, base: nat, level: nat, count: nat) returns (i: nat)
    requires count > 0 && base <= x < base + count * Span(level)
    requires base % (count * Span(level)) == 0
    ensures i < count && InEntry(x, base, level, i) && i == Index(x, level, count)
    ensures forall j: nat :: InEntry(x, base, level, j) ==> j == i
  {
    var s := Span(level);
    i := (x - base) / s;
    assert x - base == i * s + (x - base) % s;
    Cancel(i, count, s);
    EntryIndex(x, base, level, count, i);
    forall j: nat | InEntry(x, base, level, j)
      ensures j == i
    {
      ModUnique(x - base, j, x - base - j * s, s);
    }
  }
}
