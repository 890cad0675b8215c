/**
 What one call of the stage 2 mapper does to the translation of a single address, and how the
 effects of the entries of a table add up.
 */
module Stage2Effects {
  import opened Wrappers
  import opened Arithmetic
  import opened Stage2Tables
  import opened Stage2Regions
  import opened Stage2Blocks

  /** x is mapped as requested, by the largest leaf that fits, within what has been processed. */
  ghost predicate Mapped(leaf: Option<Leaf>, x: nat, req: Request, cur: nat) {
    && leaf.Some?
    && leaf.value.size == Span(LeafLevel(req, x))
    && leaf.value.output + x % leaf.value.size == req.pa + x - req.ipa
    && leaf.value.permission == req.permission
    && leaf.value.attribute == 15
    && leaf.value.shareability == 3
    && LeafInside(leaf, x, req.ipa, cur)
  }

  /** The physical address an access to x reaches; None is a fault. */
  function Physical(leaf: Option<Leaf>, x: nat): Option<nat> {
    if leaf.Some? && leaf.value.size > 0 then Some(leaf.value.output + x % leaf.value.size) else None
  }

  /** The page or block that translates x reaches into [lo, hi). */
  ghost predicate Reaches(leaf: Option<Leaf>, x: nat, lo: nat, hi: nat) {
    lo < hi && leaf.Some? && leaf.value.size > 0
    && LeafStart(leaf.value, x) < hi && lo < LeafStart(leaf.value, x) + leaf.value.size
  }

  /** The page or block that translated x before reaches into the requested range. */
  ghost predicate Overlaps(leaf: Option<Leaf>, x: nat, req: Request) {
    Reaches(leaf, x, req.ipa, req.end)
  }

  /** The translation of x before and after the range up to `cur` has been processed. A block that reaches into what has
      been processed, but does not lie in it, is discarded: the rest of it faults from then on. A request that stops
      early may have discarded the one block that holds `cur`. */
  ghost predicate Effect(ok: bool, before: Option<Leaf>, after: Option<Leaf>, x: nat, req: Request, cur: nat) {
    if req.ipa <= x < cur then
      Mapped(after, x, req, cur)
    else if Reaches(before, x, req.ipa, cur) then
      after == None
    else if !ok && Reaches(before, x, cur, cur + 1) then
      after == None || after == before
    else
      after == before
  }

  lemma LeafStartBelow(leaf: Leaf, x: nat)
    requires leaf.size > 0
    ensures LeafStart(leaf, x) <= x < LeafStart(leaf, x) + leaf.size
  {
  }

  /** The effect within the window [lo, hi) of one entry, seen by the whole request. */
  lemma EntryEffect(ok: bool, before: Option<Leaf>, after: Option<Leaf>, x: nat, req: Request, cur: nat, cur': nat, lo: nat, hi: nat)
    requires lo <= x < hi && req.ipa <= cur <= cur' && lo <= cur && (cur == lo || cur == req.ipa)
    requires LeafInside(before, x, lo, hi)
    requires Effect(ok, before, after, x, Rest(req, cur), cur') && LeafLevel(Rest(req, cur), x) == LeafLevel(req, x)
    ensures Effect(ok, before, after, x, req, cur')
  {
    if before.Some? {
      LeafStartBelow(before.value, x);
    }
  }

  /** Processing later entries leaves the effect on earlier ones as it is. */
  lemma EffectGrows(ok: bool, before: Option<Leaf>, after: Option<Leaf>, x: nat, req: Request, cur: nat, cur': nat)
    requires Effect(true, before, after, x, req, cur) && cur <= cur' && x < cur && !Reaches(before, x, cur, cur' + 1)
    ensures Effect(ok, before, after, x, req, cur')
  {
  }

  /** Addresses of an entry that does not meet the range are not affected. */
  lemma NoEffect(ok: bool, before: Option<Leaf>, x: nat, req: Request, cur: nat, lo: nat, hi: nat)
    requires lo <= x < hi && LeafInside(before, x, lo, hi) && req.ipa <= cur <= req.end
    requires hi <= req.ipa || cur <= lo
    ensures Effect(ok, before, before, x, req, cur)
  {
  }

  /** Where a walk faults, or ends at a leaf that spans the whole entry, replacing the entry by an empty
      table first does not change the effect. */
  lemma ThroughEmptyTable(ok: bool, before: Option<Leaf>, after: Option<Leaf>, x: nat, req: Request, cur': nat, lo: nat, hi: nat)
    requires before.Some? ==> before.value.size == hi - lo && LeafInside(before, x, lo, hi)
    requires lo <= x < hi && lo <= req.ipa < hi && req.ipa <= cur' <= hi && (ok ==> req.ipa < cur')
    requires Effect(ok, None, after, x, req, cur')
    ensures Effect(ok, before, after, x, req, cur')
  {
    if before.Some? {
      assert LeafStart(before.value, x) == lo;
    }
  }

  // ---------------------------------------------------------------- one descriptor is written

  /** Addresses of the other entries of a table do not see a change of one descriptor. */
  lemma OtherEntries(tables: Memory, regions: Regions, t: nat, i: nat, word: nat, x: nat)
    requires Tree(tables, regions) && t in regions && i < regions[t].count && t in tables && i < |tables[t]|
    requires regions[t].Contains(x) && !InEntry(x, regions[t].base, regions[t].level, i)
    ensures Translate(SetEntry(tables, t, i, word), regions, t, x) == Translate(tables, regions, t, x)
  {
    var tables' := SetEntry(tables, t, i, word);
    assert TableOk(tables, regions, t);
    var j := EntryFor(tables, regions, t, x);
    assert j != i && tables'[t][j] == tables[t][j];
    TranslateEntry(tables', regions, t, j, x);
    assert Unseen(tables, tables', regions, regions[t].level + 1, x) by {
      forall u | u in regions && regions[u].level >= regions[t].level + 1
        ensures u in tables && tables'[u] == tables[u]
      {
        assert TableOk(tables, regions, u);
      }
    }
    EntryKept(tables, tables', regions, t, j, x);
  }

  /** A leaf descriptor maps its whole entry. */
  lemma LeafEntry(tables: Memory, regions: Regions, t: nat, i: nat, address: nat, permission: nat, kind: nat, x: nat)
    requires Filled(tables, regions, t) && i < regions[t].count
    requires address < OUTPUT_LIMIT && permission < 4 && address % PAGE_SIZE == 0 && address % Span(regions[t].level) == 0
    requires kind == (if regions[t].level == 3 then 3 else 1) && regions[t].level >= 1
    requires InEntry(x, regions[t].base, regions[t].level, i)
    ensures Translate(SetEntry(tables, t, i, LeafWord(address, permission, kind)), regions, t, x)
         == Some(Leaf(address, Span(regions[t].level), permission, 15, 3))
  {
    var tables' := SetEntry(tables, t, i, LeafWord(address, permission, kind));
    TranslateEntry(tables', regions, t, i, x);
    LeafWritten(tables', address, permission, kind, regions[t].level, x);
  }

  lemma LeafWritten(tables: Memory, address: nat, permission: nat, kind: nat, level: nat, x: nat)
    requires 1 <= level <= 3 && kind == (if level == 3 then 3 else 1)
    requires address < OUTPUT_LIMIT && permission < 4 && address % PAGE_SIZE == 0 && address % Span(level) == 0
    ensures Descend(tables, LeafWord(address, permission, kind), level, x) == Some(Leaf(address, Span(level), permission, 15, 3))
  {
    LeafWordFields(address, permission, kind);
    LeafDescriptor(tables, LeafWord(address, permission, kind), level, x);
  }

  lemma LeafDescriptor(tables: Memory, word: nat, level: nat, x: nat)
    requires 1 <= level <= 3 && Kind(word) == (if level == 3 then 3 else 1) && AccessFlag(word) == 1
    ensures Descend(tables, word, level, x)
         == Some(Leaf(OutputAddress(word) - OutputAddress(word) % Span(level), Span(level),
                      S2ap(word), AttrIndex(word), Shareability(word)))
  {
  }

  lemma PageAligned(address: nat, level: nat)
    requires address % Span(level) == 0
    ensures address % PAGE_SIZE == 0
  {
    MultipleOfMultiple(address, Span(level), PAGE_SIZE);
  }

  /** The leaf just written maps x as the rest of the request asks. */
  lemma LeafIsMapped(leaf: Option<Leaf>, x: nat, req: Request, lo: nat, span: nat)
    requires span > 0 && lo % span == 0 && lo <= x < lo + span && req.ipa == lo
    requires leaf == Some(Leaf(req.pa, span, req.permission, 15, 3)) && span == Span(LeafLevel(req, x))
    ensures Mapped(leaf, x, req, lo + span)
  {
    OwnLeafInside(leaf, x, lo, span);
    var q := lo / span;
    assert lo == q * span;
    ModUnique(x, q, x - lo, span);
  }

  /** The leaf with which a request begins maps its entry as the request asks. */
  lemma FirstLeaf(tables: Memory, regions: Regions, t: nat, i: nat, kind: nat, req: Request, x: nat)
    requires Filled(tables, regions, t) && i < regions[t].count && NoBigger(req, regions[t]) && req.top <= regions[t].level
    requires req.pa < OUTPUT_LIMIT && req.permission < 4 && req.pa % PAGE_SIZE == 0 && req.pa % Span(regions[t].level) == 0
    requires kind == (if regions[t].level == 3 then 3 else 1) && regions[t].level >= 1
    requires req.ipa == EntryStart(regions[t].base, regions[t].level, i) && req.ipa + Span(regions[t].level) <= req.end
    requires InEntry(x, regions[t].base, regions[t].level, i)
    ensures Mapped(Translate(SetEntry(tables, t, i, LeafWord(req.pa, req.permission, kind)), regions, t, x), x, req, req.ipa + Span(regions[t].level))
  {
    var r := regions[t];
    EntryAligned(r, i);
    EntryBounds(r, i);
    LeafEntry(tables, regions, t, i, req.pa, req.permission, kind, x);
    BlockHere(req, x, req.ipa, r.level);
    LeafIsMapped(Translate(SetEntry(tables, t, i, LeafWord(req.pa, req.permission, kind)), regions, t, x), x, req, req.ipa, Span(r.level));
  }

  /** Writing a leaf, or a pointer to a new table, keeps the tree well formed. */
  lemma WriteKeepsTree(tables: Memory, regions: Regions, t: nat, i: nat, word: nat)
    requires Tree(tables, regions) && t in regions && t in tables && i < |tables[t]|
    requires regions[t].level < 3 && Kind(word) == 3 ==>
               NextLevelTableAddress(word) in regions
               && regions[NextLevelTableAddress(word)] == Region(regions[t].level + 1, EntryStart(regions[t].base, regions[t].level, i), ENTRIES)
    ensures Tree(SetEntry(tables, t, i, word), regions)
  {
    var tables' := SetEntry(tables, t, i, word);
    forall u | u in regions
      ensures TableOk(tables', regions, u)
    {
      assert TableOk(tables, regions, u);
      forall k | 0 <= k < regions[u].count
        ensures ChildOk(tables', regions, u, k)
      {
        assert ChildOk(tables, regions, u, k);
      }
    }
  }

  /** Adding a zeroed table for the window of entry i keeps the tree well formed. */
  lemma NewTableKeepsTree(tables: Memory, regions: Regions, t: nat, i: nat, c: nat, zeros: seq<nat>)
    requires Tree(tables, regions) && t in regions && i < regions[t].count && regions[t].level < 3 && c !in regions
    requires |zeros| == ENTRIES && forall k :: 0 <= k < ENTRIES ==> zeros[k] == 0
    ensures Tree(tables[c := zeros], regions[c := Region(regions[t].level + 1, EntryStart(regions[t].base, regions[t].level, i), ENTRIES)])
  {
    var r := regions[t];
    var regions' := regions[c := Region(r.level + 1, EntryStart(r.base, r.level, i), ENTRIES)];
    var tables' := tables[c := zeros];
    assert TableOk(tables, regions, t);
    EntryAligned(r, i);
    ChildSpan(r.level);
    forall u | u in regions'
      ensures TableOk(tables', regions', u)
    {
      if u == c {
        assert forall k :: 0 <= k < ENTRIES ==> ChildOk(tables', regions', c, k);
      } else {
        assert TableOk(tables, regions, u);
        forall k | 0 <= k < regions[u].count
          ensures ChildOk(tables', regions', u, k)
        {
          assert ChildOk(tables, regions, u, k);
        }
      }
    }
  }

  /** An empty table translates nothing. */
  lemma EmptyTable(tables: Memory, regions: Regions, c: nat, x: nat)
    requires Filled(tables, regions, c) && regions[c].Contains(x)
    requires forall k :: 0 <= k < |tables[c]| ==> tables[c][k] == 0
    ensures Translate(tables, regions, c, x) == None
  {
    var i := EntryOf(x, regions[c].base, regions[c].level, regions[c].count);
    TranslateEntry(tables, regions, c, i, x);
  }

  // ---------------------------------------------------------------- below one entry

  /** Changes that stay below entry i are seen through that entry only. */
  lemma BelowEntry(tables: Memory, tables': Memory, regions: Regions, regions': Regions, t: nat, i: nat, x: nat)
    requires Tree(tables, regions) && Tree(tables', regions') && t in regions && t in regions' && regions'[t] == regions[t]
    requires i < regions[t].count && regions[t].level < 3 && regions[t].Contains(x)
    requires t in tables && i < |tables[t]| && Kind(tables[t][i]) == 3
    requires var lo := EntryStart(regions[t].base, regions[t].level, i);
             SameOutside(tables, tables', regions, regions[t].level + 1, lo, lo + Span(regions[t].level))
    ensures !InEntry(x, regions[t].base, regions[t].level, i) ==> Translate(tables', regions', t, x) == Translate(tables, regions, t, x)
    ensures var c := NextLevelTableAddress(tables[t][i]);
            InEntry(x, regions[t].base, regions[t].level, i) ==>
              && c in regions && regions[c].Contains(x)
              && Translate(tables, regions, t, x) == Translate(tables, regions, c, x)
              && (c in regions' && regions'[c] == regions[c] ==> Translate(tables', regions', t, x) == Translate(tables', regions', c, x))
  {
    var r := regions[t];
    assert TableOk(tables, regions, t) && TableOk(tables', regions', t);
    var lo := EntryStart(r.base, r.level, i);
    var j := EntryFor(tables, regions, t, x);
    TranslateEntry(tables', regions', t, j, x);
    if j == i {
      DescendChild(tables, regions, t, i, x);
      DescendTable(tables, regions, tables[t][i], r.level, x);
      var c := NextLevelTableAddress(tables[t][i]);
      if c in regions' && regions'[c] == regions[c] {
        DescendTable(tables', regions', tables[t][i], r.level, x);
      }
    } else {
      assert Unseen(tables, tables', regions, r.level + 1, x);
      EntryKept(tables, tables', regions, t, j, x);
    }
  }

  /** What an entry that is not a table descriptor translates, it translates as a whole. */
  lemma WholeEntry(tables: Memory, regions: Regions, t: nat, i: nat, x: nat)
    requires Filled(tables, regions, t) && i < regions[t].count && InEntry(x, regions[t].base, regions[t].level, i)
    requires regions[t].level == 3 || Kind(tables[t][i]) != 3
    ensures var lo := EntryStart(regions[t].base, regions[t].level, i);
            var leaf := Translate(tables, regions, t, x);
            LeafInside(leaf, x, lo, lo + Span(regions[t].level)) && (leaf.Some? ==> leaf.value.size == Span(regions[t].level))
  {
    TranslateEntry(tables, regions, t, i, x);
    DescendLeaf(tables, tables, tables[t][i], regions[t].level, x);
    EntryAligned(regions[t], i);
    OwnLeafInside(Translate(tables, regions, t, x), x, EntryStart(regions[t].base, regions[t].level, i), Span(regions[t].level));
  }

  // ---------------------------------------------------------------- entry after entry

  /** Where the entries of x and of i lie relative to each other. */
  lemma EntryOrder(x: nat, base: nat, level: nat, i: nat, j: nat)
    requires InEntry(x, base, level, j)
    ensures x < EntryStart(base, level, i) ==> EntryStart(base, level, j) + Span(level) <= EntryStart(base, level, i)
    ensures x >= EntryStart(base, level, i) ==> EntryStart(base, level, j) >= EntryStart(base, level, i)
    ensures EntryStart(base, level, i + 1) == EntryStart(base, level, i) + Span(level)
  {
    var s := Span(level);
    assert (i + 1) * s == i * s + s && (j + 1) * s == j * s + s;
    if x < EntryStart(base, level, i) {
      Cancel(j, i, s);
      InOrder(j + 1, i, s);
    } else {
      Cancel(i, j + 1, s);
      InOrder(i, j, s);
    }
  }

  /** An address whose entry the range does not meet keeps its translation, and that is the right effect. */
  lemma UntouchedEntry(ok: bool, tables: Memory, regions: Regions, t: nat, i: nat, x: nat, req: Request, cur: nat)
    requires Tree(tables, regions) && t in regions && regions[t].Contains(x) && req.ipa <= cur <= req.end
    requires var lo := EntryStart(regions[t].base, regions[t].level, i);
             (x < lo <= req.ipa) || (lo <= x && cur <= lo)
    ensures var leaf := Translate(tables, regions, t, x); Effect(ok, leaf, leaf, x, req, cur)
  {
    assert TableOk(tables, regions, t);
    var j := EntryFor(tables, regions, t, x);
    var start := EntryStart(regions[t].base, regions[t].level, j);
    EntryOrder(x, regions[t].base, regions[t].level, i, j);
    LeafWithin(tables, regions, t, j, x);
    NoEffect(ok, Translate(tables, regions, t, x), x, req, cur, start, start + Span(regions[t].level));
  }

  /** A leaf that translates an address of an earlier entry ends before entry i. */
  lemma EarlierEntry(tables: Memory, regions: Regions, t: nat, i: nat, x: nat)
    requires Tree(tables, regions) && t in regions && regions[t].Contains(x) && x < EntryStart(regions[t].base, regions[t].level, i)
    ensures LeafInside(Translate(tables, regions, t, x), x, 0, EntryStart(regions[t].base, regions[t].level, i))
  {
    assert TableOk(tables, regions, t);
    var j := EntryFor(tables, regions, t, x);
    EntryOrder(x, regions[t].base, regions[t].level, i, j);
    LeafWithin(tables, regions, t, j, x);
  }

  /** Where a descent through one entry ends. */
  ghost predicate Ends(ok: bool, end: nat, limit: nat, cur': nat) {
    if ok then cur' == (if end < limit then end else limit) else cur' < end && cur' <= limit
  }

  /** The effect on x once entry i has been processed as well; `mid` is the translation before that. */
  lemma AfterEntry(ok: bool, tables: Memory, regions: Regions, t: nat, i: nat, x: nat, mid: Option<Leaf>, after: Option<Leaf>,
                   req: Request, cur: nat, cur': nat)
    requires Tree(tables, regions) && t in regions && regions[t].Contains(x) && i < regions[t].count && NoBigger(req, regions[t])
    requires InEntry(cur, regions[t].base, regions[t].level, i)
    requires req.ipa <= cur <= cur' && cur < req.end && (cur == EntryStart(regions[t].base, regions[t].level, i) || cur == req.ipa)
    requires Ends(ok, req.end, EntryStart(regions[t].base, regions[t].level, i) + Span(regions[t].level), cur')
    requires x < EntryStart(regions[t].base, regions[t].level, i) ==> Effect(true, Translate(tables, regions, t, x), mid, x, req, cur)
    requires x >= EntryStart(regions[t].base, regions[t].level, i) ==> mid == Translate(tables, regions, t, x)
    requires InEntry(x, regions[t].base, regions[t].level, i) ==> Effect(ok, mid, after, x, Rest(req, cur), cur')
    requires !InEntry(x, regions[t].base, regions[t].level, i) ==> after == mid
    ensures x < EntryStart(regions[t].base, regions[t].level, i + 1) ==> Effect(ok, Translate(tables, regions, t, x), after, x, req, cur')
    ensures !ok || cur' == req.end ==> Effect(ok, Translate(tables, regions, t, x), after, x, req, cur')
    ensures x >= EntryStart(regions[t].base, regions[t].level, i + 1) ==> after == Translate(tables, regions, t, x)
  {
    var r := regions[t];
    var before := Translate(tables, regions, t, x);
    var lo := EntryStart(r.base, r.level, i);
    EntryOrder(cur, r.base, r.level, i, i);
    if x < lo {
      EarlierEntry(tables, regions, t, i, x);
      EffectGrows(ok, before, mid, x, req, cur, cur');
    } else if InEntry(x, r.base, r.level, i) {
      LeafWithin(tables, regions, t, i, x);
      assert TableOk(tables, regions, t);
      EntryAligned(r, i);
      RestLevel(req, cur, x, lo, r.level);
      EntryEffect(ok, before, after, x, req, cur, cur', lo, lo + Span(r.level));
    } else {
      UntouchedEntry(ok, tables, regions, t, i + 1, x, req, cur');
    }
  }

  // ---------------------------------------------------------------- what callers see

  /** After a successful request every address of its range reaches its place, with the permission asked for. */
  lemma MappedRange(before: Option<Leaf>, after: Option<Leaf>, x: nat, req: Request)
    requires req.ipa <= x < req.end && Effect(true, before, after, x, req, req.end)
    ensures Physical(after, x) == Some(req.pa + (x - req.ipa)) && after.value.permission == req.permission
    ensures after.value.attribute == 15 && after.value.shareability == 3
  {
  }

  /** An address outside the range keeps its translation exactly if the page or block that translated it
      does not reach into the range; otherwise it faults from then on. */
  lemma FrameExactly(before: Option<Leaf>, after: Option<Leaf>, x: nat, req: Request)
    requires !(req.ipa <= x < req.end) && Effect(true, before, after, x, req, req.end)
    ensures after == before <==> !Overlaps(before, x, req)
    ensures after != before ==> Physical(after, x) == None
  {
  }

  /** Two calls: the first one maps the first 2 MB of input, and then the second page is mapped to another place. Every other
      address of the 2 MB faults from then on, because the first call has mapped them by one block. */
  lemma BlockIsDiscarded(leaves: seq<Option<Leaf>>, x: nat, first: Request, second: Request)
    requires |leaves| == 3 && Effect(true, leaves[0], leaves[1], x, first, first.end) && Effect(true, leaves[1], leaves[2], x, second, second.end)
    requires first.ipa == 0 && first.end == Span(2) && first.pa % Span(2) == 0 && first.top <= 2
    requires second.ipa == PAGE_SIZE && second.end == 2 * PAGE_SIZE && x < Span(2) && !(second.ipa <= x < second.end)
    ensures Physical(leaves[1], x) == Some(first.pa + x) && Physical(leaves[2], x) == None
  {
    ModUnique(x, 0, x, Span(1));
    EntryBlock(first, x, 0, 1);
    EntryBlock(first, x, 0, 2);
    ModUnique(x, 0, x, Span(2));
  }

  /** The translations of x before, between and after a series of successful requests. */
  ghost predicate Series(reqs: seq<Request>, leaves: seq<Option<Leaf>>, x: nat) {
    && |leaves| == |reqs| + 1
    && forall k :: 0 <= k < |reqs| ==> Effect(true, leaves[k], leaves[k + 1], x, reqs[k], reqs[k].end)
  }

  /** What a request has mapped stays mapped, however many requests for other ranges follow. */
  lemma {:induction false} MappingsSurvive(reqs: seq<Request>, leaves: seq<Option<Leaf>>, x: nat, k: nat, n: nat)
    requires Series(reqs, leaves, x) && k < n <= |reqs| && reqs[k].ipa <= x < reqs[k].end
    requires forall j :: k < j < n ==> reqs[j].end <= reqs[k].ipa || reqs[k].end <= reqs[j].ipa
    ensures Mapped(leaves[n], x, reqs[k], reqs[k].end)
    ensures Physical(leaves[n], x) == Some(reqs[k].pa + (x - reqs[k].ipa))
  {
    if n > k + 1 {
      MappingsSurvive(reqs, leaves, x, k, n - 1);
      assert Effect(true, leaves[n - 1], leaves[n - 1 + 1], x, reqs[n - 1], reqs[n - 1].end);
    }
  }
}
