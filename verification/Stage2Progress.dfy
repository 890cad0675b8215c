/**
 The progress of the stage 2 mapper through the entries of a table: what processing one entry
 guarantees, and how the entries of a table, and the tables added below them, add up.
 */
module Stage2Progress {
  import opened Wrappers
  import opened Arithmetic
  import opened Stage2Tables
  import opened Stage2Regions
  import opened Stage2Blocks
  import opened Stage2Effects

  /** The tables that exist keep their place; the new ones are distinct places inside [lo, hi) below the
      given level, and each meets the requested range. */
  ghost predicate Grown(regions: Regions, regions': Regions, level: nat, lo: nat, hi: nat, req: Request) {
    && (forall t :: t in regions ==> t in regions' && regions'[t] == regions[t])
    && (forall t :: t in regions' && t !in regions ==> NewRegion(regions'[t], level, lo, hi, req))
    && (forall t, u :: t in regions' && t !in regions && u in regions' && u !in regions && t != u ==> regions'[t] != regions'[u])
  }

  ghost predicate NewRegion(r: Region, level: nat, lo: nat, hi: nat, req: Request) {
    r.level > level && r.count == ENTRIES && r.Inside(lo, hi) && r.base < req.end && req.ipa < r.End()
  }

  lemma RegionNotEmpty(r: Region)
    requires r.count > 0
    ensures r.base < r.End()
  {
    InOrder(1, r.count, Span(r.level));
  }

  lemma GrownNext(a: Regions, b: Regions, c: Regions, level: nat, lo: nat, mid: nat, hi: nat, req: Request, cur: nat)
    requires req.ipa <= cur && lo <= mid <= hi
    requires Grown(a, b, level, lo, mid, req) && Grown(b, c, level, mid, hi, Rest(req, cur))
    ensures Grown(a, c, level, lo, hi, req)
  {
    forall t, u | t in c && t !in a && u in c && u !in a && t != u
      ensures c[t] != c[u]
    {
      RegionNotEmpty(c[t]);
      RegionNotEmpty(c[u]);
    }
  }

  lemma GrownFromNewTable(a: Regions, c: nat, region: Region, b: Regions, level: nat, req: Request)
    requires c !in a && region.level == level + 1 && region.count == ENTRIES
    requires region.base < req.end && req.ipa < region.End()
    requires Grown(a[c := region], b, level + 1, region.base, region.End(), req)
    ensures Grown(a, b, level, region.base, region.End(), req)
  {
  }

  /** A table that is only added is not seen by any walk. */
  lemma NewTableUnseen(tables: Memory, regions: Regions, tables': Memory, regions': Regions, t: nat, x: nat)
    requires Tree(tables, regions) && t in regions && regions[t].Contains(x)
    requires forall u :: u in regions ==> u in regions' && regions'[u] == regions[u] && u in tables && u in tables' && tables'[u] == tables[u]
    ensures Translate(tables', regions', t, x) == Translate(tables, regions, t, x)
  {
    WalkKept(tables, tables', regions, t, x);
  }

  /** The three cursors move in lockstep, by whole pages. */
  ghost predicate Advanced(req: Request, pa': nat, ipa': nat, remaining': nat) {
    && req.ipa <= ipa' && pa' - req.pa == ipa' - req.ipa && ipa' + remaining' == req.end
    && Pages(pa') && Pages(ipa') && Pages(remaining')
  }

  /** A whole number of pages. */
  ghost predicate Pages(n: nat) {
    n % 0x1000 == 0
  }

  lemma SpanPages(n: nat, level: nat)
    requires Pages(n)
    ensures Pages(n + Span(level)) && (n >= Span(level) ==> Pages(n - Span(level)))
    ensures n > 0 ==> n >= PAGE_SIZE
  {
  }

  /** The cursors after one more leaf. */
  lemma AdvancedLeaf(req: Request, pa: nat, ipa: nat, remaining: nat, level: nat)
    requires Advanced(req, pa, ipa, remaining) && remaining >= Span(level)
    ensures Advanced(req, pa + Span(level), ipa + Span(level), remaining - Span(level))
  {
    SpanPages(pa, level);
    SpanPages(ipa, level);
    SpanPages(remaining, level);
  }

  /** The window of a page descriptor holds one page boundary only. */
  lemma PageStart(tables: Memory, regions: Regions, t: nat, i: nat, ipa: nat)
    requires t in regions && TableOk(tables, regions, t) && regions[t].level == 3
    requires InEntry(ipa, regions[t].base, 3, i) && Pages(ipa)
    ensures ipa == EntryStart(regions[t].base, 3, i)
  {
    EntryAligned(regions[t], i);
    SameMultiple(EntryStart(regions[t].base, 3, i), ipa, PAGE_SIZE);
  }

  /** All tables but t are unchanged, except those of this level or below inside [lo, hi). */
  ghost predicate SameBut(t: nat, tables: Memory, tables': Memory, regions: Regions, level: nat, lo: nat, hi: nat) {
    forall u :: u in regions && u != t && !(regions[u].level >= level && regions[u].Inside(lo, hi)) ==>
      u in tables && u in tables' && tables'[u] == tables[u]
  }

  // ---------------------------------------------------------------- one entry, and all entries of a table

  /** What lies behind entry i has been processed, up to `cur`, and nothing else has changed. */
  ghost predicate EntryDone(ok: bool, a: Memory, ra: Regions, b: Memory, rb: Regions, t: nat, i: nat, req: Request, cur: nat)
    requires t in ra
  {
    var r := ra[t];
    var lo := EntryStart(r.base, r.level, i);
    && Grown(ra, rb, r.level, lo, lo + Span(r.level), req)
    && SameBut(t, a, b, ra, r.level + 1, lo, lo + Span(r.level))
    && Ends(ok, req.end, lo + Span(r.level), cur)
    && (forall x: nat :: r.Contains(x) && InEntry(x, r.base, r.level, i) ==>
          Effect(ok, Translate(a, ra, t, x), Translate(b, rb, t, x), x, req, cur))
    && (forall x: nat :: r.Contains(x) && !InEntry(x, r.base, r.level, i) ==> Translate(b, rb, t, x) == Translate(a, ra, t, x))
  }

  /** The entries before i of the table at t have been processed, up to `cur`. */
  ghost predicate Halfway(a: Memory, ra: Regions, b: Memory, rb: Regions, t: nat, i: nat, req: Request, cur: nat)
    requires t in ra
  {
    var r := ra[t];
    var hi := EntryStart(r.base, r.level, i);
    && Grown(ra, rb, r.level, r.base, hi, req)
    && SameOutside(a, b, ra, r.level, r.base, r.End())
    && (forall x: nat :: r.Contains(x) && x < hi ==> Effect(true, Translate(a, ra, t, x), Translate(b, rb, t, x), x, req, cur))
    && (forall x: nat :: r.Contains(x) && x >= hi ==> Translate(b, rb, t, x) == Translate(a, ra, t, x))
  }

  /** The request has been processed up to `cur`, as far as the window of the table at t is concerned. */
  ghost predicate TableDone(ok: bool, a: Memory, ra: Regions, b: Memory, rb: Regions, t: nat, req: Request, cur: nat)
    requires t in ra
  {
    var r := ra[t];
    && Grown(ra, rb, r.level, r.base, r.End(), req)
    && SameOutside(a, b, ra, r.level, r.base, r.End())
    && forall x: nat :: r.Contains(x) ==> Effect(ok, Translate(a, ra, t, x), Translate(b, rb, t, x), x, req, cur)
  }

  /** Nothing is processed yet when the descent reaches entry i, in which the request begins. */
  lemma HalfwayStart(a: Memory, ra: Regions, t: nat, i: nat, req: Request)
    requires Tree(a, ra) && t in ra && i < ra[t].count && req.ipa <= req.end
    requires InEntry(req.ipa, ra[t].base, ra[t].level, i)
    ensures Halfway(a, ra, a, ra, t, i, req, req.ipa)
  {
    var r := ra[t];
    EveryTable(a, ra);
    forall x: nat | r.Contains(x) && x < EntryStart(r.base, r.level, i)
      ensures Effect(true, Translate(a, ra, t, x), Translate(a, ra, t, x), x, req, req.ipa)
    {
      UntouchedEntry(true, a, ra, t, i, x, req, req.ipa);
    }
  }

  /** A request that begins in the window of the table at t, in whole pages. */
  ghost predicate Accepts(regions: Regions, t: nat, level: nat, count: nat, req: Request) {
    && t in regions && regions[t].level == level && regions[t].count == count && regions[t].Contains(req.ipa)
    && req.ipa < req.end && req.permission < 4
    && Pages(req.ipa) && Pages(req.pa) && Pages(req.end - req.ipa)
    && req.pa + (req.end - req.ipa) <= OUTPUT_LIMIT
    && req.top <= level && NoBigger(req, regions[t])
  }

  /** A request is handed to the table behind entry i, where no block is written. */
  lemma ChildAccepts(tables: Memory, regions: Regions, t: nat, i: nat, req: Request)
    requires Tree(tables, regions) && t in regions && Accepts(regions, t, regions[t].level, regions[t].count, req) && regions[t].level < 3
    requires t in tables && i < |tables[t]| && i < regions[t].count && Kind(tables[t][i]) == 3
    requires InEntry(req.ipa, regions[t].base, regions[t].level, i) && NoBlockBelow(req, regions[t], i)
    ensures Accepts(regions, NextLevelTableAddress(tables[t][i]), regions[t].level + 1, ENTRIES, req)
  {
    assert TableOk(tables, regions, t) && ChildOk(tables, regions, t, i);
    EntryBounds(regions[t], i);
    ChildSpan(regions[t].level);
  }

  /** The window of a table has been processed, and this is where the cursors are. */
  ghost predicate Reached(ok: bool, a: Memory, ra: Regions, b: Memory, rb: Regions, t: nat, req: Request, pa': nat, ipa': nat, remaining': nat)
    requires t in ra
  {
    && TableDone(ok, a, ra, b, rb, t, req, ipa')
    && Ends(ok, req.end, ra[t].End(), ipa')
    && Advanced(req, pa', ipa', remaining')
  }

  /** The descent has reached entry i. */
  ghost predicate Underway(a: Memory, ra: Regions, b: Memory, rb: Regions, t: nat, i: nat, req: Request, pa': nat, ipa': nat, remaining': nat)
    requires t in ra
  {
    && i <= ra[t].count
    && t in rb && rb[t] == ra[t]
    && Halfway(a, ra, b, rb, t, i, req, ipa')
    && Advanced(req, pa', ipa', remaining') && remaining' > 0
    && (ipa' == EntryStart(ra[t].base, ra[t].level, i) || (ipa' == req.ipa && InEntry(ipa', ra[t].base, ra[t].level, i) && i < ra[t].count))
  }

  /** The descent begins with the entry in which the request begins. */
  lemma UnderwayStart(a: Memory, ra: Regions, t: nat, i: nat, req: Request, pa: nat, ipa: nat, remaining: nat)
    requires Tree(a, ra) && t in ra && Accepts(ra, t, ra[t].level, ra[t].count, req) && ra[t].level <= 3 && ra[t].count > 0
    requires i == Index(ipa, ra[t].level, ra[t].count) && req == Request(ipa, pa, ipa + remaining, req.permission, req.top)
    ensures Underway(a, ra, a, ra, t, i, req, pa, ipa, remaining)
  {
    assert TableOk(a, ra, t);
    var entry := EntryOf(ipa, ra[t].base, ra[t].level, ra[t].count);
    HalfwayStart(a, ra, t, i, req);
  }

  /** When every entry has been processed, so has the window of the table. */
  lemma UnderwayEnd(a: Memory, ra: Regions, b: Memory, rb: Regions, t: nat, i: nat, req: Request, pa': nat, ipa': nat, remaining': nat)
    requires t in ra && i == ra[t].count && Underway(a, ra, b, rb, t, i, req, pa', ipa', remaining')
    ensures Reached(true, a, ra, b, rb, t, req, pa', ipa', remaining')
  {
  }

  /** What remains can be handed to entry i. */
  lemma UnderwayEntry(a: Memory, ra: Regions, b: Memory, rb: Regions, t: nat, i: nat, req: Request, pa': nat, ipa': nat, remaining': nat)
    requires t in ra && i < ra[t].count && Underway(a, ra, b, rb, t, i, req, pa', ipa', remaining')
    requires Accepts(ra, t, ra[t].level, ra[t].count, req)
    ensures Accepts(rb, t, ra[t].level, ra[t].count, Request(ipa', pa', ipa' + remaining', req.permission, req.top))
    ensures InEntry(ipa', ra[t].base, ra[t].level, i) && ra[t].Contains(ipa')
    ensures req.ipa <= ipa' && Rest(req, ipa') == Request(ipa', pa', ipa' + remaining', req.permission, req.top)
  {
    EntryBounds(ra[t], i);
    RestHasNoBigger(req, ipa', ra[t]);
  }

  /** One more entry, and the cursors behind it. */
  lemma UnderwayNext(ok: bool, a: Memory, ra: Regions, b: Memory, rb: Regions, c: Memory, rc: Regions,
                     t: nat, i: nat, req: Request, pa: nat, ipa: nat, remaining: nat, pa': nat, ipa': nat, remaining': nat)
    requires Tree(a, ra) && t in ra && i < ra[t].count && Underway(a, ra, b, rb, t, i, req, pa, ipa, remaining) && NoBigger(req, ra[t])
    requires req.ipa <= ipa && EntryDone(ok, b, rb, c, rc, t, i, Rest(req, ipa), ipa')
    requires Advanced(Rest(req, ipa), pa', ipa', remaining')
    ensures !ok || remaining' == 0 ==> Reached(ok, a, ra, c, rc, t, req, pa', ipa', remaining')
    ensures ok && remaining' > 0 ==> Underway(a, ra, c, rc, t, i + 1, req, pa', ipa', remaining')
  {
    var r := ra[t];
    EntryBounds(r, i);
    EntryOrder(EntryStart(r.base, r.level, i), r.base, r.level, i, i);
    HalfwayNext(ok, a, ra, b, rb, c, rc, t, i, req, ipa, ipa');
  }

  /** One more entry. */
  lemma HalfwayNext(ok: bool, a: Memory, ra: Regions, b: Memory, rb: Regions, c: Memory, rc: Regions,
                    t: nat, i: nat, req: Request, cur: nat, cur': nat)
    requires Tree(a, ra) && t in ra && t in rb && rb[t] == ra[t] && i < ra[t].count && NoBigger(req, ra[t])
    requires Halfway(a, ra, b, rb, t, i, req, cur)
    requires req.ipa <= cur <= cur' && cur < req.end && InEntry(cur, ra[t].base, ra[t].level, i)
    requires cur == EntryStart(ra[t].base, ra[t].level, i) || cur == req.ipa
    requires EntryDone(ok, b, rb, c, rc, t, i, Rest(req, cur), cur')
    ensures ok ==> Halfway(a, ra, c, rc, t, i + 1, req, cur')
    ensures !ok || cur' == req.end ==> TableDone(ok, a, ra, c, rc, t, req, cur')
  {
    var r := ra[t];
    var lo := EntryStart(r.base, r.level, i);
    EntryBounds(r, i);
    EntryOrder(cur, r.base, r.level, i, i);
    forall x: nat | r.Contains(x)
      ensures x < EntryStart(r.base, r.level, i + 1) ==> Effect(ok, Translate(a, ra, t, x), Translate(c, rc, t, x), x, req, cur')
      ensures !ok || cur' == req.end ==> Effect(ok, Translate(a, ra, t, x), Translate(c, rc, t, x), x, req, cur')
      ensures x >= EntryStart(r.base, r.level, i + 1) ==> Translate(c, rc, t, x) == Translate(a, ra, t, x)
    {
      AfterEntry(ok, a, ra, t, i, x, Translate(b, rb, t, x), Translate(c, rc, t, x), req, cur, cur');
    }
    GrownNext(ra, rb, rc, r.level, r.base, lo, lo + Span(r.level), req, cur);
    GrownWider(ra, rc, r.level, r.base, lo + Span(r.level), r.End(), req);
    SameJoined(t, a, b, c, ra, rb, r, i);
  }

  /** Nothing happens when no table can be allocated. */
  lemma NothingDone(a: Memory, ra: Regions, t: nat, i: nat, req: Request)
    requires Tree(a, ra) && t in ra && InEntry(req.ipa, ra[t].base, ra[t].level, i) && req.ipa < req.end
    ensures EntryDone(false, a, ra, a, ra, t, i, req, req.ipa)
  {
    EveryTable(a, ra);
  }

  /** Processing the table behind entry i processes entry i. */
  lemma EntryFromTable(ok: bool, a: Memory, ra: Regions, b: Memory, rb: Regions, t: nat, i: nat, req: Request, cur: nat)
    requires Tree(a, ra) && Tree(b, rb) && t in ra && ra[t].level < 3 && i < ra[t].count
    requires t in a && i < |a[t]| && Kind(a[t][i]) == 3
    requires NextLevelTableAddress(a[t][i]) in ra
    requires TableDone(ok, a, ra, b, rb, NextLevelTableAddress(a[t][i]), req, cur)
    requires Ends(ok, req.end, ra[NextLevelTableAddress(a[t][i])].End(), cur)
    ensures EntryDone(ok, a, ra, b, rb, t, i, req, cur)
  {
    var r := ra[t];
    assert TableOk(a, ra, t) && ChildOk(a, ra, t, i);
    ChildSpan(r.level);
    forall x: nat | r.Contains(x)
      ensures InEntry(x, r.base, r.level, i) ==> Effect(ok, Translate(a, ra, t, x), Translate(b, rb, t, x), x, req, cur)
      ensures !InEntry(x, r.base, r.level, i) ==> Translate(b, rb, t, x) == Translate(a, ra, t, x)
    {
      BelowEntry(a, b, ra, rb, t, i, x);
    }
  }

  /** An empty table n has been put behind entry i; nothing else has changed. */
  ghost predicate Installed(a: Memory, ra: Regions, b: Memory, rb: Regions, t: nat, i: nat, n: nat)
    requires t in ra
  {
    && n !in ra && rb == ra[n := Region(ra[t].level + 1, EntryStart(ra[t].base, ra[t].level, i), ENTRIES)]
    && (forall u :: u in ra && u != t ==> u in b && u in a && b[u] == a[u])
    && (forall x: nat :: InEntry(x, ra[t].base, ra[t].level, i) ==> Translate(b, rb, t, x) == None)
    && (forall x: nat :: ra[t].Contains(x) && !InEntry(x, ra[t].base, ra[t].level, i) ==> Translate(b, rb, t, x) == Translate(a, ra, t, x))
  }

  /** The same when the table behind entry i is new. */
  lemma EntryFromNewTable(ok: bool, a: Memory, ra: Regions, b: Memory, rb: Regions, c: Memory, rc: Regions,
                          t: nat, i: nat, n: nat, req: Request, cur: nat)
    requires Tree(a, ra) && t in ra && ra[t].level < 3 && i < ra[t].count && t in a && i < |a[t]| && Kind(a[t][i]) != 3
    requires InEntry(req.ipa, ra[t].base, ra[t].level, i) && req.ipa < req.end && req.ipa <= cur
    requires Installed(a, ra, b, rb, t, i, n)
    requires EntryDone(ok, b, rb, c, rc, t, i, req, cur)
    requires Grown(rb, rc, ra[t].level + 1, rb[n].base, rb[n].End(), req)
    ensures EntryDone(ok, a, ra, c, rc, t, i, req, cur)
  {
    var r := ra[t];
    var lo := EntryStart(r.base, r.level, i);
    assert TableOk(a, ra, t);
    ChildSpan(r.level);
    GrownFromNewTable(ra, n, rb[n], rc, r.level, req);
    forall x: nat | r.Contains(x) && InEntry(x, r.base, r.level, i)
      ensures Effect(ok, Translate(a, ra, t, x), Translate(c, rc, t, x), x, req, cur)
    {
      WholeEntry(a, ra, t, i, x);
      ThroughEmptyTable(ok, Translate(a, ra, t, x), Translate(c, rc, t, x), x, req, cur, lo, lo + Span(r.level));
    }
  }

  // ---------------------------------------------------------------- one table more

  /** One table more could be used: with it the tree is still well formed, and all new tables meet the request. */
  ghost predicate Short(a: Regions, b: Regions, level: nat, lo: nat, hi: nat, req: Request) {
    exists tables: Memory, wanted: Regions :: Tree(tables, wanted) && |wanted| == |b| + 1 && Grown(a, wanted, level, lo, hi, req)
  }

  /** The same in the window of entry i of the table at t. */
  ghost predicate ShortOfEntry(a: Regions, b: Regions, t: nat, i: nat, req: Request)
    requires t in a
  {
    var lo := EntryStart(a[t].base, a[t].level, i);
    Short(a, b, a[t].level, lo, lo + Span(a[t].level), req)
  }

  ghost function Unused(s: set<nat>): (n: nat)
    ensures forall k :: k in s ==> k < n
  {
    if s == {} then 0
    else
      var k :| k in s;
      var n := Unused(s - {k});
      assert forall j :: j in s ==> j == k || j in s - {k};
      if k < n then n else k + 1
  }

  /** No page is left for the table behind entry i. */
  lemma ShortOfTable(tables: Memory, regions: Regions, t: nat, i: nat, req: Request)
    requires Tree(tables, regions) && t in regions && i < regions[t].count && regions[t].level < 3
    requires InEntry(req.ipa, regions[t].base, regions[t].level, i) && req.ipa < req.end
    ensures ShortOfEntry(regions, regions, t, i, req)
  {
    var r := regions[t];
    var c := Unused(regions.Keys);
    var zeros := seq(ENTRIES, _ => 0);
    var wanted := regions[c := Region(r.level + 1, EntryStart(r.base, r.level, i), ENTRIES)];
    NewTableKeepsTree(tables, regions, t, i, c, zeros);
    ChildSpan(r.level);
    assert wanted.Keys == regions.Keys + {c};
    assert Tree(tables[c := zeros], wanted);
  }

  lemma ShortBelow(a: Regions, b: Regions, level: nat, lo: nat, hi: nat, req: Request)
    requires Short(a, b, level + 1, lo, hi, req)
    ensures Short(a, b, level, lo, hi, req)
  {
    var tables: Memory, wanted: Regions :| Tree(tables, wanted) && |wanted| == |b| + 1 && Grown(a, wanted, level + 1, lo, hi, req);
    assert Grown(a, wanted, level, lo, hi, req);
  }

  lemma ShortFromNewTable(a: Regions, c: nat, region: Region, b: Regions, level: nat, req: Request)
    requires c !in a && region.level == level + 1 && region.count == ENTRIES
    requires region.base < req.end && req.ipa < region.End()
    requires Short(a[c := region], b, level + 1, region.base, region.End(), req)
    ensures Short(a, b, level, region.base, region.End(), req)
  {
    var tables: Memory, wanted: Regions :|
      Tree(tables, wanted) && |wanted| == |b| + 1 && Grown(a[c := region], wanted, level + 1, region.base, region.End(), req);
    GrownFromNewTable(a, c, region, wanted, level, req);
  }

  lemma ShortNext(a: Regions, b: Regions, c: Regions, level: nat, lo: nat, mid: nat, hi: nat, end: nat, req: Request, cur: nat)
    requires req.ipa <= cur && lo <= mid <= hi <= end
    requires Grown(a, b, level, lo, mid, req) && Short(b, c, level, mid, hi, Rest(req, cur))
    ensures Short(a, c, level, lo, end, req)
  {
    var tables: Memory, wanted: Regions :| Tree(tables, wanted) && |wanted| == |c| + 1 && Grown(b, wanted, level, mid, hi, Rest(req, cur));
    GrownNext(a, b, wanted, level, lo, mid, hi, req, cur);
    GrownWider(a, wanted, level, lo, hi, end, req);
  }

  lemma ShortInEntry(ok: bool, tables: Memory, regions: Regions, b: Regions, t: nat, i: nat, req: Request)
    requires Tree(tables, regions) && t in regions && i < regions[t].count && regions[t].level < 3
    requires t in tables && i < |tables[t]| && Kind(tables[t][i]) == 3 && NextLevelTableAddress(tables[t][i]) in regions
    requires var c := regions[NextLevelTableAddress(tables[t][i])];
             !ok ==> Short(regions, b, regions[t].level + 1, c.base, c.End(), req)
    ensures !ok ==> ShortOfEntry(regions, b, t, i, req)
  {
    if ok {
      return;
    }
    assert TableOk(tables, regions, t) && ChildOk(tables, regions, t, i);
    ChildSpan(regions[t].level);
    var c := regions[NextLevelTableAddress(tables[t][i])];
    ShortBelow(regions, b, regions[t].level, c.base, c.End(), req);
  }

  lemma ShortInNewTable(a: Regions, b: Regions, c: Regions, t: nat, i: nat, n: nat, req: Request)
    requires t in a && a[t].level < 3 && n !in a && b == a[n := Region(a[t].level + 1, EntryStart(a[t].base, a[t].level, i), ENTRIES)]
    requires InEntry(req.ipa, a[t].base, a[t].level, i) && req.ipa < req.end
    requires Short(b, c, a[t].level + 1, b[n].base, b[n].End(), req)
    ensures ShortOfEntry(a, c, t, i, req)
  {
    ChildSpan(a[t].level);
    ShortFromNewTable(a, n, b[n], c, a[t].level, req);
  }

  lemma UnderwayShort(a: Memory, ra: Regions, b: Memory, rb: Regions, rc: Regions, t: nat, i: nat, req: Request, pa: nat, ipa: nat, remaining: nat)
    requires t in ra && i < ra[t].count && Underway(a, ra, b, rb, t, i, req, pa, ipa, remaining)
    requires ShortOfEntry(rb, rc, t, i, Rest(req, ipa))
    ensures Short(ra, rc, ra[t].level, ra[t].base, ra[t].End(), req)
  {
    var r := ra[t];
    EntryBounds(r, i);
    ShortNext(ra, rb, rc, r.level, r.base, EntryStart(r.base, r.level, i), EntryStart(r.base, r.level, i) + Span(r.level), r.End(), req, ipa);
  }

  lemma GrownWider(a: Regions, b: Regions, level: nat, lo: nat, mid: nat, hi: nat, req: Request)
    requires Grown(a, b, level, lo, mid, req) && mid <= hi
    ensures Grown(a, b, level, lo, hi, req)
  {
  }

  /** Changes of t and below one of its entries stay within the window of t. */
  lemma SameJoined(t: nat, a: Memory, b: Memory, c: Memory, places: Regions, there: Regions, r: Region, i: nat)
    requires t in places && places[t] == r && i < r.count && (forall u :: u in places ==> u in there && there[u] == places[u])
    requires SameOutside(a, b, places, r.level, r.base, r.End())
    requires SameBut(t, b, c, there, r.level + 1, EntryStart(r.base, r.level, i), EntryStart(r.base, r.level, i) + Span(r.level))
    ensures SameOutside(a, c, places, r.level, r.base, r.End())
  {
    EntryBounds(r, i);
  }

  lemma EveryTable(tables: Memory, regions: Regions)
    requires Tree(tables, regions)
    ensures forall u :: u in regions ==> u in tables
  {
    forall u | u in regions
      ensures u in tables
    {
      assert TableOk(tables, regions, u);
    }
  }

  lemma SameMultiple(a: nat, b: nat, m: nat)
    requires m > 0 && a % m == 0 && b % m == 0 && a <= b < a + m
    ensures a == b
  {
    var x, y := a / m, b / m;
    assert a == x * m && b == y * m;
    assert (x + 1) * m == x * m + m;
    Distribute(y, 1, m);
    Cancel(y, x + 1, m);
    Cancel(x, y + 1, m);
  }
}
