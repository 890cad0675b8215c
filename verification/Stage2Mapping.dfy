/** The stage 2 mapper: a recursive descent that writes descriptors and allocates tables on demand. */
module Stage2Mapping {
  import opened Wrappers
  import opened PageOrders
  import opened Stage2Tables
  import opened Stage2Regions
  import opened Stage2Blocks
  import opened Stage2Effects
  import opened Stage2Progress
  import opened Stage2Budget
  import opened Stage2Roots

  /** Pages that may become tables: aligned, addressable by a descriptor, not in use, not repeated. */
  ghost predicate PagesOk(pages: seq<nat>, regions: Regions) {
    && (forall k :: 0 <= k < |pages| ==> pages[k] % PAGE_SIZE == 0 && pages[k] < OUTPUT_LIMIT && pages[k] !in regions)
    && (forall j, k :: 0 <= j < k < |pages| ==> pages[j] != pages[k])
  }

  class Stage2Mapper {
    var tables: Memory
    var freePages: seq<nat>
    ghost var regions: Regions
    // VTTBR_EL2 and the fields of VTCR_EL2
    const root: nat
    const sl0: nat
    const t0sz: nat

    ghost predicate Valid()
      reads this
    {
      && Tree(tables, regions)
      && PagesOk(freePages, regions)
    }

    ghost function At(t: nat, x: nat): Option<Leaf>
      reads this`tables, this`regions
    {
      Translate(tables, regions, t, x)
    }

    /** Pages are either tables or free. */
    ghost function Supply(): nat
      reads this`freePages, this`regions
    {
      |regions| + |freePages|
    }

    /** Stores a page or block descriptor in entry i, whose window begins the request. */
    method WriteLeaf(t: nat, i: nat, level: nat, address: nat, permission: nat, ghost req: Request)
      requires Valid() && Accepts(regions, t, level, if t in regions then regions[t].count else 0, req) && i < regions[t].count
      requires level >= 1 && req.end >= req.ipa + Span(level) && req.ipa == EntryStart(regions[t].base, level, i)
      requires address == req.pa && permission == req.permission && address % Span(level) == 0
      modifies this`tables
      ensures Valid()
      ensures EntryDone(true, old(tables), regions, tables, regions, t, i, req, req.ipa + Span(level))
    {
      ghost var r := regions[t];
      assert TableOk(tables, regions, t);
      PageAligned(address, level);
      var word := LeafWord(address, permission, if level == 3 then 3 else 1);
      LeafWordFields(address, permission, if level == 3 then 3 else 1);
      WriteKeepsTree(tables, regions, t, i, word);
      ghost var before := tables;
      tables := SetEntry(tables, t, i, word);
      EntryAligned(r, i);
      forall x: nat | InEntry(x, r.base, level, i)
        ensures Mapped(At(t, x), x, req, req.ipa + Span(level))
      {
        FirstLeaf(before, regions, t, i, if level == 3 then 3 else 1, req, x);
      }
      forall x: nat | r.Contains(x) && !InEntry(x, r.base, level, i)
        ensures At(t, x) == old(At(t, x))
      {
        OtherEntries(before, regions, t, i, word, x);
      }
      forall u | u in regions && u != t
        ensures u in tables && tables[u] == before[u]
      {
        assert TableOk(before, regions, u);
      }
    }

    /** Takes a page and zeroes it, for a table that is to stand for entry i. */
    method AllocateTable(t: nat, i: nat, level: nat) returns (r: Option<nat>)
      requires Valid() && t in regions && regions[t].level == level < 3 && i < regions[t].count
      modifies this
      ensures Valid() && Supply() == old(Supply())
      ensures r.None? ==> freePages == [] && tables == old(tables) && regions == old(regions)
      ensures r.Some? ==>
                && r.value !in old(regions) && r.value % PAGE_SIZE == 0 && r.value < OUTPUT_LIMIT
                && regions == old(regions)[r.value := Region(level + 1, EntryStart(old(regions)[t].base, level, i), ENTRIES)]
                && r.value in tables && |tables[r.value]| == ENTRIES && (forall k :: 0 <= k < ENTRIES ==> tables[r.value][k] == 0)
                && (forall u :: u in old(regions) ==> u in tables && u in old(tables) && tables[u] == old(tables)[u])
    {
      if freePages == [] {
        return None;
      }
      var c := freePages[0];
      freePages := freePages[1..];
      var zeros: seq<nat> := seq(ENTRIES, _ => 0);
      NewTableKeepsTree(tables, regions, t, i, c, zeros);
      forall u | u in regions
        ensures u in tables
      {
        assert TableOk(tables, regions, u);
      }
      tables := tables[c := zeros];
      regions := regions[c := Region(level + 1, EntryStart(regions[t].base, level, i), ENTRIES)];
      return Some(c);
    }

    /** Points entry i at the empty table c that stands for it. */
    method WritePointer(t: nat, i: nat, level: nat, c: nat)
      requires Valid() && t in regions && regions[t].level == level < 3 && i < regions[t].count
      requires c in regions && regions[c] == Region(level + 1, EntryStart(regions[t].base, level, i), ENTRIES) && c != t
      requires c % PAGE_SIZE == 0 && c < OUTPUT_LIMIT
      requires c in tables && forall k :: 0 <= k < |tables[c]| ==> tables[c][k] == 0
      modifies this`tables
      ensures Valid()
      ensures t in tables && i < |tables[t]| && Kind(tables[t][i]) == 3 && NextLevelTableAddress(tables[t][i]) == c
      ensures forall x: nat :: InEntry(x, regions[t].base, level, i) ==> At(t, x) == None
      ensures forall x: nat :: regions[t].Contains(x) && !InEntry(x, regions[t].base, level, i) ==> At(t, x) == old(At(t, x))
      ensures forall u :: u in regions && u != t ==> u in tables && u in old(tables) && tables[u] == old(tables)[u]
    {
      ghost var before := tables;
      assert TableOk(before, regions, t) && TableOk(before, regions, c);
      TableWordFields(c);
      WriteKeepsTree(tables, regions, t, i, TableWord(c));
      tables := SetEntry(tables, t, i, TableWord(c));
      forall x: nat | InEntry(x, regions[t].base, level, i)
        ensures At(t, x) == None
      {
        assert TableOk(tables, regions, t);
        TranslateEntry(tables, regions, t, i, x);
        DescendChild(tables, regions, t, i, x);
        assert TableOk(tables, regions, c);
        EmptyTable(tables, regions, c, x);
      }
      forall x: nat | regions[t].Contains(x) && !InEntry(x, regions[t].base, level, i)
        ensures At(t, x) == old(At(t, x))
      {
        OtherEntries(before, regions, t, i, TableWord(c), x);
      }
      forall u | u in regions && u != t
        ensures u in tables && tables[u] == before[u]
      {
        assert TableOk(before, regions, u);
      }
    }

    /** Puts a zeroed table behind entry i, if a page is left. */
    method InstallTable(t: nat, i: nat, level: nat) returns (r: Option<nat>)
      requires Valid() && t in regions && regions[t].level == level < 3 && i < regions[t].count
      modifies this
      ensures Valid() && Supply() == old(Supply())
      ensures r.None? ==> freePages == [] && tables == old(tables) && regions == old(regions)
      ensures r.Some? ==>
                && Installed(old(tables), old(regions), tables, regions, t, i, r.value)
                && t in tables && i < |tables[t]| && Kind(tables[t][i]) == 3 && NextLevelTableAddress(tables[t][i]) == r.value
    {
      ghost var before, places := tables, regions;
      r := AllocateTable(t, i, level);
      if r.Some? {
        ghost var middle := tables;
        forall x: nat | places[t].Contains(x)
          ensures Translate(middle, regions, t, x) == Translate(before, places, t, x)
        {
          NewTableUnseen(before, places, middle, regions, t, x);
        }
        WritePointer(t, i, level, r.value);
      }
    }

    // ---------------------------------------------------------------- the recursive descent

    /** Maps what of the request lies behind entry i, which points at a table already. */
    method MapBelow(pa: nat, ipa: nat, remaining: nat, t: nat, i: nat, permission: nat, level: nat, ghost req: Request)
      returns (ok: bool, pa': nat, ipa': nat, remaining': nat)
      requires Valid() && level < 3 && req == Request(ipa, pa, ipa + remaining, permission, req.top)
      requires t in regions && Accepts(regions, t, level, regions[t].count, req)
      requires i < regions[t].count && InEntry(ipa, regions[t].base, level, i)
      requires t in tables && i < |tables[t]| && Kind(tables[t][i]) == 3 && NoBlockBelow(req, regions[t], i)
      modifies this
      ensures Valid()
      ensures EntryDone(ok, old(tables), old(regions), tables, regions, t, i, req, ipa')
      ensures ghost var c := NextLevelTableAddress(old(tables)[t][i]);
              && c in old(regions) && Grown(old(regions), regions, level + 1, old(regions)[c].base, old(regions)[c].End(), req)
              && (!ok ==> freePages == [] && Short(old(regions), regions, level + 1, old(regions)[c].base, old(regions)[c].End(), req))
      ensures Advanced(req, pa', ipa', remaining') && Supply() == old(Supply())
      decreases 3 - level, 0
    {
      ghost var before, places, r := tables, regions, regions[t];
      assert TableOk(tables, regions, t) && ChildOk(tables, regions, t, i);
      ChildAccepts(tables, regions, t, i, req);
      var next := NextLevelTableAddress(tables[t][i]);
      ok, pa', ipa', remaining' := MapLevel(pa, ipa, remaining, next, permission, level + 1, ENTRIES, req);
      EntryFromTable(ok, before, places, tables, regions, t, i, req, ipa');
    }

    /** Maps what of the request lies behind entry i, which is given an empty table first. */
    method MapThroughNewTable(pa: nat, ipa: nat, remaining: nat, t: nat, i: nat, permission: nat, level: nat, ghost req: Request)
      returns (ok: bool, pa': nat, ipa': nat, remaining': nat)
      requires Valid() && level < 3 && req == Request(ipa, pa, ipa + remaining, permission, req.top)
      requires t in regions && Accepts(regions, t, level, regions[t].count, req)
      requires i < regions[t].count && InEntry(ipa, regions[t].base, level, i)
      requires t in tables && i < |tables[t]| && Kind(tables[t][i]) != 3 && NoBlockBelow(req, regions[t], i)
      modifies this
      ensures Valid()
      ensures EntryDone(ok, old(tables), old(regions), tables, regions, t, i, req, ipa')
      ensures !ok ==> freePages == [] && ShortOfEntry(old(regions), regions, t, i, req)
      ensures Advanced(req, pa', ipa', remaining') && Supply() == old(Supply())
      decreases 3 - level, 2
    {
      ghost var before, places := tables, regions;
      assert TableOk(tables, regions, t);
      var installed := InstallTable(t, i, level);
      if installed.None? {
        NothingDone(tables, regions, t, i, req);
        ShortOfTable(tables, regions, t, i, req);
        return false, pa, ipa, remaining;
      }
      ok, pa', ipa', remaining' := MapIntoNewTable(pa, ipa, remaining, t, i, permission, level, req, before, places, installed.value);
    }

    /** Maps what of the request lies behind entry i, whose table c is still empty. */
    method MapIntoNewTable(pa: nat, ipa: nat, remaining: nat, t: nat, i: nat, permission: nat, level: nat, ghost req: Request,
                           ghost before: Memory, ghost places: Regions, ghost c: nat)
      returns (ok: bool, pa': nat, ipa': nat, remaining': nat)
      requires Valid() && level < 3 && req == Request(ipa, pa, ipa + remaining, permission, req.top)
      requires t in regions && Accepts(regions, t, level, regions[t].count, req)
      requires i < regions[t].count && InEntry(ipa, regions[t].base, level, i)
      requires t in tables && i < |tables[t]| && Kind(tables[t][i]) == 3 && NextLevelTableAddress(tables[t][i]) == c
      requires NoBlockBelow(req, regions[t], i) && Tree(before, places) && t in places && Installed(before, places, tables, regions, t, i, c)
      requires t in before && i < |before[t]| && Kind(before[t][i]) != 3
      modifies this
      ensures Valid()
      ensures EntryDone(ok, before, places, tables, regions, t, i, req, ipa')
      ensures !ok ==> freePages == [] && ShortOfEntry(places, regions, t, i, req)
      ensures Advanced(req, pa', ipa', remaining') && Supply() == old(Supply())
      decreases 3 - level, 1
    {
      ghost var middle, there := tables, regions;
      ok, pa', ipa', remaining' := MapBelow(pa, ipa, remaining, t, i, permission, level, req);
      if !ok {
        ShortInNewTable(places, there, regions, t, i, c, req);
      }
      EntryFromNewTable(ok, before, places, middle, there, tables, regions, t, i, c, req, ipa');
    }

    /** Maps what of the request lies in entry i of a table above the last level. */
    method MapEntry(pa: nat, ipa: nat, remaining: nat, t: nat, i: nat, permission: nat, level: nat, ghost req: Request)
      returns (ok: bool, pa': nat, ipa': nat, remaining': nat)
      requires Valid() && level < 3 && req == Request(ipa, pa, ipa + remaining, permission, req.top)
      requires t in regions && Accepts(regions, t, level, regions[t].count, req)
      requires i < regions[t].count && InEntry(ipa, regions[t].base, level, i)
      modifies this
      ensures Valid()
      ensures EntryDone(ok, old(tables), old(regions), tables, regions, t, i, req, ipa')
      ensures !ok ==> freePages == [] && ShortOfEntry(old(regions), regions, t, i, req)
      ensures Advanced(req, pa', ipa', remaining') && Supply() == old(Supply())
      decreases 3 - level, 3
    {
      assert TableOk(tables, regions, t);
      if level >= 1 && remaining >= Span(level) && pa % Span(level) == 0 && ipa % Span(level) == 0 {
        EntryAligned(regions[t], i);
        SameMultiple(EntryStart(regions[t].base, level, i), ipa, Span(level));
        WriteLeaf(t, i, level, pa, permission, req);
        AdvancedLeaf(req, pa, ipa, remaining, level);
        return true, pa + Span(level), ipa + Span(level), remaining - Span(level);
      }
      NoBlockHere(req, regions[t], i);
      if Kind(tables[t][i]) != 3 {
        ok, pa', ipa', remaining' := MapThroughNewTable(pa, ipa, remaining, t, i, permission, level, req);
      } else {
        ghost var before, places := tables, regions;
        ok, pa', ipa', remaining' := MapBelow(pa, ipa, remaining, t, i, permission, level, req);
        ShortInEntry(ok, before, places, regions, t, i, req);
      }
    }

    /** Maps the page of entry i of a table of the last level. */
    method MapPage(pa: nat, ipa: nat, remaining: nat, t: nat, i: nat, permission: nat, ghost req: Request)
      returns (pa': nat, ipa': nat, remaining': nat)
      requires Valid() && req == Request(ipa, pa, ipa + remaining, permission, req.top)
      requires t in regions && Accepts(regions, t, 3, regions[t].count, req)
      requires i < regions[t].count && InEntry(ipa, regions[t].base, 3, i)
      modifies this`tables
      ensures Valid()
      ensures EntryDone(true, old(tables), regions, tables, regions, t, i, req, ipa')
      ensures Advanced(req, pa', ipa', remaining')
    {
      assert TableOk(tables, regions, t);
      PageStart(tables, regions, t, i, ipa);
      SpanPages(remaining, 3);
      WriteLeaf(t, i, 3, pa, permission, req);
      AdvancedLeaf(req, pa, ipa, remaining, 3);
      return pa + PAGE_SIZE, ipa + PAGE_SIZE, remaining - PAGE_SIZE;
    }

    /** One more page. */
    method MapNextPage(pa: nat, ipa: nat, remaining: nat, t: nat, i: nat, permission: nat,
                       ghost req: Request, ghost before: Memory, ghost places: Regions)
      returns (pa': nat, ipa': nat, remaining': nat)
      requires Valid() && Tree(before, places) && t in places && i < places[t].count
      requires Accepts(places, t, 3, places[t].count, req) && req.permission == permission
      requires Underway(before, places, tables, regions, t, i, req, pa, ipa, remaining)
      modifies this`tables
      ensures Valid()
      ensures remaining' == 0 ==> Reached(true, before, places, tables, regions, t, req, pa', ipa', remaining')
      ensures remaining' > 0 ==> Underway(before, places, tables, regions, t, i + 1, req, pa', ipa', remaining')
    {
      ghost var middle := tables;
      UnderwayEntry(before, places, tables, regions, t, i, req, pa, ipa, remaining);
      pa', ipa', remaining' := MapPage(pa, ipa, remaining, t, i, permission, Rest(req, ipa));
      UnderwayNext(true, before, places, middle, regions, tables, regions, t, i, req, pa, ipa, remaining, pa', ipa', remaining');
    }

    /** The last level: one page descriptor after another, from entry `index` on. */
    method MapPages(pa: nat, ipa: nat, remaining: nat, t: nat, permission: nat, count: nat, index: nat,
                    ghost req: Request, ghost before: Memory, ghost places: Regions)
      returns (pa': nat, ipa': nat, remaining': nat)
      requires Valid() && Tree(before, places) && Accepts(places, t, 3, count, req) && req.permission == permission
      requires Underway(before, places, tables, regions, t, index, req, pa, ipa, remaining)
      modifies this`tables
      ensures Valid()
      ensures Reached(true, before, places, tables, regions, t, req, pa', ipa', remaining')
    {
      pa', ipa', remaining' := pa, ipa, remaining;
      var i := index;
      while i < count
        invariant index <= i <= count && Valid()
        invariant Underway(before, places, tables, regions, t, i, req, pa', ipa', remaining')
      {
        pa', ipa', remaining' := MapNextPage(pa', ipa', remaining', t, i, permission, req, before, places);
        i := i + 1;
        if remaining' == 0 {
          return;
        }
      }
      UnderwayEnd(before, places, tables, regions, t, i, req, pa', ipa', remaining');
    }

    /** One more entry of a table above the last level. */
    method MapNextEntry(pa: nat, ipa: nat, remaining: nat, t: nat, i: nat, permission: nat, level: nat,
                        ghost req: Request, ghost before: Memory, ghost places: Regions)
      returns (ok: bool, pa': nat, ipa': nat, remaining': nat)
      requires Valid() && level < 3 && Tree(before, places) && t in places && i < places[t].count
      requires Accepts(places, t, level, places[t].count, req) && req.permission == permission
      requires Underway(before, places, tables, regions, t, i, req, pa, ipa, remaining)
      modifies this
      ensures Valid()
      ensures !ok || remaining' == 0 ==> Reached(ok, before, places, tables, regions, t, req, pa', ipa', remaining')
      ensures ok && remaining' > 0 ==> Underway(before, places, tables, regions, t, i + 1, req, pa', ipa', remaining')
      ensures !ok ==> freePages == [] && Short(places, regions, level, places[t].base, places[t].End(), req)
      ensures Supply() == old(Supply())
      decreases 3 - level, 4
    {
      ghost var middle, there := tables, regions;
      UnderwayEntry(before, places, tables, regions, t, i, req, pa, ipa, remaining);
      ok, pa', ipa', remaining' := MapEntry(pa, ipa, remaining, t, i, permission, level, Rest(req, ipa));
      UnderwayNext(ok, before, places, middle, there, tables, regions, t, i, req, pa, ipa, remaining, pa', ipa', remaining');
      if !ok {
        UnderwayShort(before, places, middle, there, regions, t, i, req, pa, ipa, remaining);
      }
    }

    /** The levels above: one entry after another, from entry `index` on. */
    method MapEntries(pa: nat, ipa: nat, remaining: nat, t: nat, permission: nat, level: nat, count: nat, index: nat,
                      ghost req: Request, ghost before: Memory, ghost places: Regions)
      returns (ok: bool, pa': nat, ipa': nat, remaining': nat)
      requires Valid() && level < 3 && Tree(before, places) && Accepts(places, t, level, count, req) && req.permission == permission
      requires Underway(before, places, tables, regions, t, index, req, pa, ipa, remaining)
      modifies this
      ensures Valid()
      ensures Reached(ok, before, places, tables, regions, t, req, pa', ipa', remaining')
      ensures !ok ==> freePages == [] && Short(places, regions, level, places[t].base, places[t].End(), req)
      ensures Supply() == old(Supply())
      decreases 3 - level, 5
    {
      ok, pa', ipa', remaining' := true, pa, ipa, remaining;
      var i := index;
      while i < count
        invariant index <= i <= count && ok && Valid() && Supply() == old(Supply())
        invariant Underway(before, places, tables, regions, t, i, req, pa', ipa', remaining')
      {
        ok, pa', ipa', remaining' := MapNextEntry(pa', ipa', remaining', t, i, permission, level, req, before, places);
        if !ok || remaining' == 0 {
          return;
        }
        i := i + 1;
      }
      UnderwayEnd(before, places, tables, regions, t, i, req, pa', ipa', remaining');
    }

    /** The recursive mapper: maps what of the request lies in the window of the table at t. */
    method MapLevel(pa: nat, ipa: nat, remaining: nat, t: nat, permission: nat, level: nat, count: nat, ghost req: Request)
      returns (ok: bool, pa': nat, ipa': nat, remaining': nat)
      requires Valid() && level <= 3 && Accepts(regions, t, level, count, req) && req == Request(ipa, pa, ipa + remaining, permission, req.top)
      modifies this
      ensures Valid()
      ensures Reached(ok, old(tables), old(regions), tables, regions, t, req, pa', ipa', remaining')
      ensures !ok ==> freePages == [] && Short(old(regions), regions, level, old(regions)[t].base, old(regions)[t].End(), req)
      ensures Supply() == old(Supply())
      decreases 3 - level, 6
    {
      assert TableOk(tables, regions, t);
      var index := Index(ipa, level, count);
      UnderwayStart(tables, regions, t, index, req, pa, ipa, remaining);
      if level == 3 {
        ok := true;
        pa', ipa', remaining' := MapPages(pa, ipa, remaining, t, permission, count, index, req, tables, regions);
      } else {
        ok, pa', ipa', remaining' := MapEntries(pa, ipa, remaining, t, permission, level, count, index, req, tables, regions);
      }
    }

    // ---------------------------------------------------------------- the root

    /** The configured root table stands for the input addresses from 0 on. */
    ghost predicate Ready()
      reads this
    {
      && Valid() && sl0 < 4
      && root in regions
      && regions[root] == Region(LevelOfSl0(sl0), 0, NumberOfConcatenatedPageTables(t0sz, LevelOfSl0(sl0)) * ENTRIES)
    }

    /** What the hardware walk makes of an input address. */
    ghost function Lookup(x: nat): Option<Leaf>
      reads this`tables, this`regions
    {
      At(root, x)
    }

    /** Sets up an empty tree of the size that PARange asks for, in pages from the allocator. */
    constructor (parange: nat, rootAddress: nat, pages: seq<nat>)
      requires PagesOk(pages, map[]) && rootAddress !in pages
      ensures Ready() && freePages == pages && root == rootAddress
      ensures (t0sz, LevelOfSl0(sl0)) == InitialLookup(parange) && sl0 + LevelOfSl0(sl0) == 2
      ensures regions.Keys == {root} && Pow2(PhysicalAddressBits(parange)) <= regions[root].End()
      ensures forall x: nat :: regions[root].Contains(x) ==> Lookup(x) == None
    {
      var (size, level) := InitialLookup(parange);
      var count := NumberOfConcatenatedPageTables(size, level) * ENTRIES;
      InitialLookupFits(parange);
      root, freePages := rootAddress, pages;
      t0sz, sl0 := size, Sl0(level);
      var zeros: seq<nat> := seq(count, _ => 0);
      tables := map[rootAddress := zeros];
      regions := map[rootAddress := Region(level, 0, count)];
      new;
      assert forall k :: 0 <= k < count ==> ChildOk(tables, regions, root, k);
      assert TableOk(tables, regions, root);
      forall x: nat | regions[root].Contains(x)
        ensures Lookup(x) == None
      {
        EmptyTable(tables, regions, root, x);
      }
    }

    /** Maps mapSize bytes of input from `intermediatePhysicalAddress` to memory from `physicalAddress` on. */
    method MapAddressStage2(physicalAddress: nat, intermediatePhysicalAddress: nat, mapSize: nat, isReadable: bool, isWritable: bool)
      returns (ok: bool, ghost reached: nat)
      requires Ready()
      requires Pages(mapSize) ==>
                 && mapSize > 0 && Pages(physicalAddress) && Pages(intermediatePhysicalAddress)
                 && intermediatePhysicalAddress + mapSize <= regions[root].End() && physicalAddress + mapSize <= OUTPUT_LIMIT
      modifies this
      ensures Ready()
      ensures !Pages(mapSize) ==> !ok && unchanged(this)
      ensures Pages(mapSize) ==>
                var req := RequestOf(physicalAddress, intermediatePhysicalAddress, mapSize, isReadable, isWritable, LevelOfSl0(sl0));
                && (if ok then reached == req.end else req.ipa <= reached < req.end && freePages == [])
                && (forall x: nat :: old(regions)[root].Contains(x) ==> Effect(ok, old(Lookup(x)), Lookup(x), x, req, reached))
                && Grown(old(regions), regions, LevelOfSl0(sl0), 0, regions[root].End(), req)
                && |regions| <= |old(regions)| + TableBudget(LevelOfSl0(sl0), req.ipa, req.end)
                && (|old(freePages)| >= TableBudget(LevelOfSl0(sl0), req.ipa, req.end) ==> ok)
      // what has been processed is mapped as the caller asked for
      ensures Pages(mapSize) ==> forall x: nat :: intermediatePhysicalAddress <= x < reached ==>
                var leaf := Lookup(x);
                && leaf.Some? && leaf.value.size > 0
                && leaf.value.output + x % leaf.value.size == physicalAddress + (x - intermediatePhysicalAddress)
                && leaf.value.permission < 4
                && (leaf.value.permission % 2 == 1 <==> isReadable) && (leaf.value.permission / 2 == 1 <==> isWritable)
                && leaf.value.attribute == 15 && leaf.value.shareability == 3
      // and if that is all, every other address keeps its translation, unless its block reaches into the range
      ensures Pages(mapSize) && ok ==> forall x: nat ::
                old(regions)[root].Contains(x) && !(intermediatePhysicalAddress <= x < intermediatePhysicalAddress + mapSize) ==>
                  var leaf := old(Lookup(x));
                  if leaf.Some? && leaf.value.size > 0
                     && x - x % leaf.value.size < intermediatePhysicalAddress + mapSize
                     && intermediatePhysicalAddress < x - x % leaf.value.size + leaf.value.size
                  then Lookup(x) == None else Lookup(x) == leaf
    {
      if mapSize % PAGE_SIZE != 0 {
        return false, 0;
      }
      var level := LevelOfSl0(sl0);
      var count := NumberOfConcatenatedPageTables(t0sz, level) * ENTRIES;
      ghost var req := RequestOf(physicalAddress, intermediatePhysicalAddress, mapSize, isReadable, isWritable, level);
      ghost var places := regions;
      var pa, ipa, remaining;
      ok, pa, ipa, remaining := MapLevel(physicalAddress, intermediatePhysicalAddress, mapSize, root, Permission(isReadable, isWritable), level, count, req);
      NewTablesBounded(places, tables, regions, level, 0, places[root].End(), req);
      if !ok {
        ShortOfBudget(places, regions, level, 0, places[root].End(), req);
      }
      reached := ipa;
    }
  }

  /** S2AP as the caller's flags give it. */
  function Permission(isReadable: bool, isWritable: bool): (p: nat)
    ensures p < 4
  {
    (if isWritable then 2 else 0) + (if isReadable then 1 else 0)
  }

  function RequestOf(physicalAddress: nat, ipa: nat, mapSize: nat, isReadable: bool, isWritable: bool, top: nat): Request {
    Request(ipa, physicalAddress, ipa + mapSize, Permission(isReadable, isWritable), top)
  }
}
