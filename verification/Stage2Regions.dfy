/**
 Which input addresses each translation table stands for. Every table has one region, so no
 table is ever shared, and a change below one entry cannot be seen through another.
 */
module Stage2Regions {
  import opened Wrappers
  import opened Arithmetic
  import opened Stage2Tables

  /** The place of a table in the tree: it translates `count` entries' worth of input from `base`. */
  datatype Region = Region(level: nat, base: nat, count: nat) {
    function End(): nat {
      base + count * Span(level)
    }

    predicate Contains(x: nat) {
      base <= x < End()
    }

    predicate Inside(lo: nat, hi: nat) {
      lo <= base && End() <= hi
    }
  }

  type Regions = map<nat, Region>

  /** Entry i of table t, if it is a table descriptor, leads to the table of exactly that entry's window. */
  ghost predicate ChildOk(tables: Memory, regions: Regions, t: nat, i: nat)
    requires t in tables && t in regions && i < |tables[t]|
  {
    var r := regions[t];
    var word := tables[t][i];
    r.level < 3 && Kind(word) == 3 ==>
      && NextLevelTableAddress(word) in regions
      && regions[NextLevelTableAddress(word)] == Region(r.level + 1, EntryStart(r.base, r.level, i), ENTRIES)
  }

  ghost predicate TableOk(tables: Memory, regions: Regions, t: nat)
    requires t in regions
  {
    var r := regions[t];
    && t in tables
    && r.level <= 3
    && 0 < r.count == |tables[t]|
    && r.base % (r.count * Span(r.level)) == 0
    && forall i {:trigger ChildOk(tables, regions, t, i)} :: 0 <= i < r.count ==> ChildOk(tables, regions, t, i)
  }

  ghost predicate Tree(tables: Memory, regions: Regions) {
    forall t {:trigger TableOk(tables, regions, t)} :: t in regions ==> TableOk(tables, regions, t)
  }

  /** The translation by the table at t, which must have a region. */
  ghost function Translate(tables: Memory, regions: Regions, t: nat, x: nat): Option<Leaf> {
    if t in regions && regions[t].level <= 3 then Walk(tables, t, regions[t].level, regions[t].count, x) else None
  }

  // ---------------------------------------------------------------- windows

  lemma ChildSpan(level: nat)
    requires level < 3
    ensures ENTRIES * Span(level + 1) == Span(level)
  {
  }

  lemma EntryBounds(r: Region, i: nat)
    requires i < r.count
    ensures r.base <= EntryStart(r.base, r.level, i) && EntryStart(r.base, r.level, i) + Span(r.level) <= r.End()
  {
    InOrder(i + 1, r.count, Span(r.level));
    assert (i + 1) * Span(r.level) == i * Span(r.level) + Span(r.level);
  }

  /** The window of an entry begins at a multiple of its size. */
  lemma EntryAligned(r: Region, i: nat)
    requires r.count > 0 && r.base % (r.count * Span(r.level)) == 0
    ensures EntryStart(r.base, r.level, i) % Span(r.level) == 0
  {
    var s := Span(r.level);
    var q := r.base / (r.count * s);
    assert r.base == q * (r.count * s) == (q * r.count) * s;
    assert r.base + i * s == (q * r.count + i) * s;
    ModUnique(r.base + i * s, q * r.count + i, 0, s);
  }

  /** The table at t has as many entries as its region says. */
  ghost predicate Filled(tables: Memory, regions: Regions, t: nat) {
    && t in regions && t in tables
    && regions[t].level <= 3
    && 0 < regions[t].count == |tables[t]|
    && regions[t].base % (regions[t].count * Span(regions[t].level)) == 0
  }

  /** The entry whose window holds x decides the translation of x. */
  lemma TranslateEntry(tables: Memory, regions: Regions, t: nat, i: nat, x: nat)
    requires Filled(tables, regions, t) && i < regions[t].count && InEntry(x, regions[t].base, regions[t].level, i)
    ensures Translate(tables, regions, t, x) == Descend(tables, tables[t][i], regions[t].level, x)
  {
    EntryIndex(x, regions[t].base, regions[t].level, regions[t].count, i);
  }

  /** The descriptor that decides the translation of x, and its window. */
  lemma EntryFor(tables: Memory, regions: Regions, t: nat, x: nat) returns (i: nat)
    requires t in regions && TableOk(tables, regions, t) && regions[t].Contains(x)
    ensures i < regions[t].count && InEntry(x, regions[t].base, regions[t].level, i)
    ensures Translate(tables, regions, t, x) == Descend(tables, tables[t][i], regions[t].level, x)
    ensures forall j: nat :: InEntry(x, regions[t].base, regions[t].level, j) ==> j == i
  {
    i := EntryOf(x, regions[t].base, regions[t].level, regions[t].count);
  }

  lemma DescendTable(tables: Memory, regions: Regions, word: nat, level: nat, x: nat)
    requires level < 3 && Kind(word) == 3
    requires var c := NextLevelTableAddress(word); c in regions && regions[c].level == level + 1 && regions[c].count == ENTRIES
    ensures Descend(tables, word, level, x) == Translate(tables, regions, NextLevelTableAddress(word), x)
  {
  }

  /** Without a next-level table the translation is in the descriptor alone. */
  lemma DescendLeaf(tables: Memory, tables': Memory, word: nat, level: nat, x: nat)
    requires level <= 3 && (level == 3 || Kind(word) != 3)
    ensures Descend(tables, word, level, x) == Descend(tables', word, level, x)
    ensures Descend(tables, word, level, x).Some? ==>
              Descend(tables, word, level, x) == LeafOf(word, level) && Descend(tables, word, level, x).value.size == Span(level)
  {
  }

  lemma DescendChild(tables: Memory, regions: Regions, t: nat, i: nat, x: nat)
    requires t in regions && TableOk(tables, regions, t) && i < regions[t].count
    requires regions[t].level < 3 && Kind(tables[t][i]) == 3 && InEntry(x, regions[t].base, regions[t].level, i)
    ensures var c := NextLevelTableAddress(tables[t][i]);
            && c in regions && regions[c] == Region(regions[t].level + 1, EntryStart(regions[t].base, regions[t].level, i), ENTRIES)
            && regions[c].Contains(x)
            && Descend(tables, tables[t][i], regions[t].level, x) == Translate(tables, regions, c, x)
  {
    assert ChildOk(tables, regions, t, i);
    ChildSpan(regions[t].level);
  }

  // ---------------------------------------------------------------- frames

  /** Of the tables of this level or below, those a walk for x can read are unchanged. */
  ghost predicate Unseen(tables: Memory, tables': Memory, regions: Regions, level: nat, x: nat) {
    forall u :: u in regions && regions[u].level >= level && regions[u].Contains(x) ==> u in tables && u in tables' && tables'[u] == tables[u]
  }

  /** A walk only reads tables whose region holds the address. */
  lemma {:induction false} WalkKept(tables: Memory, tables': Memory, regions: Regions, t: nat, x: nat)
    requires Tree(tables, regions) && t in regions && regions[t].Contains(x)
    requires Unseen(tables, tables', regions, regions[t].level, x)
    ensures Translate(tables', regions, t, x) == Translate(tables, regions, t, x)
    decreases 3 - (if t in regions then regions[t].level else 0)
  {
    assert TableOk(tables, regions, t);
    var i := EntryFor(tables, regions, t, x);
    TranslateEntry(tables', regions, t, i, x);
    EntryKept(tables, tables', regions, t, i, x);
  }

  /** The same for what lies below one entry. */
  lemma {:induction false} EntryKept(tables: Memory, tables': Memory, regions: Regions, t: nat, i: nat, x: nat)
    requires Tree(tables, regions) && t in regions && i < regions[t].count
    requires InEntry(x, regions[t].base, regions[t].level, i)
    requires Unseen(tables, tables', regions, regions[t].level + 1, x)
    ensures TableOk(tables, regions, t)
    ensures Descend(tables', tables[t][i], regions[t].level, x) == Descend(tables, tables[t][i], regions[t].level, x)
    decreases 3 - (if t in regions then regions[t].level else 0), 0
  {
    assert TableOk(tables, regions, t);
    if regions[t].level < 3 && Kind(tables[t][i]) == 3 {
      DescendChild(tables, regions, t, i, x);
      WalkKept(tables, tables', regions, NextLevelTableAddress(tables[t][i]), x);
      DescendTable(tables', regions, tables[t][i], regions[t].level, x);
    } else {
      DescendLeaf(tables, tables', tables[t][i], regions[t].level, x);
    }
  }

  /** All tables are unchanged, except those of this level or below inside [lo, hi). */
  ghost predicate SameOutside(tables: Memory, tables': Memory, regions: Regions, level: nat, lo: nat, hi: nat) {
    forall u :: u in regions && !(regions[u].level >= level && regions[u].Inside(lo, hi)) ==>
      u in tables && u in tables' && tables'[u] == tables[u]
  }

  /** The bytes a leaf maps around x. */
  function LeafStart(leaf: Leaf, x: nat): nat
    requires leaf.size > 0
  {
    ModBelow(x, leaf.size);
    x - x % leaf.size
  }

  lemma AlignedBlock(x: nat, lo: nat, span: nat, size: nat)
    requires size > 0 && lo % size == 0 && span % size == 0 && lo <= x < lo + span
    ensures lo <= x - x % size && x - x % size + size <= lo + span
  {
    Split(lo, size);
    Split(span, size);
    Split(x, size);
    BlockInside(lo / size, span / size, x / size, x % size, size);
  }

  lemma BlockInside(a: nat, b: nat, c: nat, r: nat, size: nat)
    requires r < size && a * size <= c * size + r < a * size + b * size
    ensures a * size <= c * size && c * size + size <= a * size + b * size
  {
    Distribute(c, 1, size);
    Distribute(a, b, size);
    Cancel(a, c + 1, size);
    Cancel(c, a + b, size);
    InOrder(a, c, size);
    InOrder(c + 1, a + b, size);
  }

  /** The leaf that translates x maps only bytes of [lo, hi). */
  ghost predicate LeafInside(leaf: Option<Leaf>, x: nat, lo: nat, hi: nat) {
    leaf.Some? ==> leaf.value.size > 0 && lo <= LeafStart(leaf.value, x) && LeafStart(leaf.value, x) + leaf.value.size <= hi
  }

  lemma OwnLeafInside(leaf: Option<Leaf>, x: nat, lo: nat, span: nat)
    requires leaf.Some? ==> leaf.value.size == span
    requires span > 0 && lo % span == 0 && lo <= x < lo + span
    ensures LeafInside(leaf, x, lo, lo + span)
  {
    ModUnique(span, 1, 0, span);
    AlignedBlock(x, lo, span, span);
  }

  /** A leaf found through an entry maps only bytes of that entry's window. */
  lemma {:induction false} LeafWithin(tables: Memory, regions: Regions, t: nat, i: nat, x: nat)
    requires Tree(tables, regions) && t in regions && i < regions[t].count
    requires InEntry(x, regions[t].base, regions[t].level, i)
    ensures var lo := EntryStart(regions[t].base, regions[t].level, i);
            LeafInside(Translate(tables, regions, t, x), x, lo, lo + Span(regions[t].level))
    decreases 3 - (if t in regions then regions[t].level else 0)
  {
    var r := regions[t];
    assert TableOk(tables, regions, t);
    TranslateEntry(tables, regions, t, i, x);
    EntryAligned(r, i);
    if r.level < 3 && Kind(tables[t][i]) == 3 {
      DescendChild(tables, regions, t, i, x);
      var c := NextLevelTableAddress(tables[t][i]);
      assert TableOk(tables, regions, c);
      var k := EntryFor(tables, regions, c, x);
      LeafWithin(tables, regions, c, k, x);
      EntryBounds(regions[c], k);
      ChildSpan(r.level);
    } else {
      DescendLeaf(tables, tables, tables[t][i], r.level, x);
      OwnLeafInside(Translate(tables, regions, t, x), x, EntryStart(r.base, r.level, i), Span(r.level));
    }
  }
}
