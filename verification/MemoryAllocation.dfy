/** The physical memory allocator: one pool, one address list, twelve size classes. */
module MemoryAllocation {
  import opened Wrappers
  import opened FreeRanges
  import opened LinkedSlots
  import opened PageOrders
  import opened MemoryPool
  import opened FreeLists
  import opened AllocatorSpec

  class MemoryAllocator {
    var freeSize: int
    var firstEntry: Option<nat>
    const freeList: array<Option<nat>>
    const pool: Pool

    ghost var order: seq<nat>           // the entries in address order
    ghost var classes: seq<seq<nat>>    // the entries of each size class
    ghost var surplus: nat              // what the counter exceeds the free bytes by

    ghost predicate Sized()
      reads pool.entries, freeList
    {
      pool.Sized() && freeList.Length == NUM_OF_FREE_LIST
    }

    /** The class lists, whatever their order. */
    ghost predicate Threaded()
      reads this`classes, pool.entries, freeList
    {
      && Sized()
      && |classes| == NUM_OF_FREE_LIST
      && Family(pool.ByClass(), freeList[..], classes)
      && Named(pool.Shape(), classes)
    }

    ghost predicate Listed()
      reads this`firstEntry, this`order, this`classes, pool.entries, freeList
    {
      && Sized()
      && Consistent(pool.ByAddress(), pool.ByClass(), pool.Shape(), firstEntry, freeList[..], order, classes)
    }

    ghost predicate Valid()
      reads this, pool.entries, freeList
    {
      && Listed()
      && freeSize == Total(Ranges()) + surplus
      && (order == [] ==> surplus == 0)
    }

    ghost function Ranges(): seq<Range>
      reads this`order, pool.entries
    {
      RangesOf(pool.Shape(), order)
    }

    ghost function Now(): View
      reads this`order, this`freeSize, pool.entries
    {
      View(Ranges(), freeSize)
    }

    constructor ()
      ensures Valid() && Now() == View([], 0) && surplus == 0
      ensures fresh(freeList) && fresh(pool) && fresh(pool.entries)
    {
      freeSize := 0;
      firstEntry := None;
      freeList := new Option<nat>[NUM_OF_FREE_LIST](_ => None);
      pool := new Pool();
      order := [];
      classes := seq(NUM_OF_FREE_LIST, _ => []);
      surplus := 0;
    }

    // ---------------------------------------------------------------- class lists

    method UnchainEntryFromFreeList(e: nat)
      requires Threaded() && e < POOL_SIZE
      requires e in classes[PageOrder(SizeAt(pool.Shape(), e))]
      modifies pool.entries, freeList, this`classes
      ensures Threaded() && pool.ByAddress() == old(pool.ByAddress()) && pool.Shape() == old(pool.Shape())
      ensures classes == Unchained(old(classes), e, SizeAt(old(pool.Shape()), e))
      ensures forall i :: InSome(classes, i) <==> InSome(old(classes), i) && i != e
      ensures pool.ByClass()[e] == Link(None, None)
      ensures UnlistedKept(old(pool.ByClass()), pool.ByClass(), old(classes), e)
    {
      assert pool.Shape()[e].Size() == SizeAt(pool.Shape(), e);
      var c := SizeToPageOrder(pool.entries[e].Size());
      Unlink(e, c);
    }

    /** The step both class-list operations share: entry e leaves the list of class c. */
    method Unlink(e: nat, c: nat)
      requires Threaded() && e < POOL_SIZE
      requires c < NUM_OF_FREE_LIST && e in classes[c]
      modifies pool.entries, freeList, this`classes
      ensures Threaded() && pool.ByAddress() == old(pool.ByAddress()) && pool.Shape() == old(pool.Shape())
      ensures classes == old(classes)[c := Remove(old(classes)[c], e)]
      ensures forall i :: InSome(classes, i) <==> InSome(old(classes), i) && i != e
      ensures pool.ByClass()[e] == Link(None, None)
      ensures UnlistedKept(old(pool.ByClass()), pool.ByClass(), old(classes), e)
    {
      ghost var links, heads, shape := pool.ByClass(), freeList[..], pool.Shape();
      ghost var k := IndexOf(classes[c], e);
      assert Linked(links, classes[c]);
      UnlinkHead(e, c, classes[c], k);
      pool.UnchainFromFreelist(e, classes[c], k);
      FamilyRemove(links, pool.ByClass(), heads, classes, c, e);
      BypassedUnlisted(links, pool.ByClass(), classes, c, k);
      ghost var shorter := classes[c := Remove(classes[c], e)];
      assert Family(pool.ByClass(), freeList[..], shorter);
      assert pool.Shape() == shape;
      SameNames(shape, classes, shorter);
      classes := shorter;
    }

    method UnlinkHead(e: nat, c: nat, ghost s: seq<nat>, ghost k: nat)
      requires Sized() && Linked(pool.ByClass(), s) && k < |s| && s[k] == e && k == IndexOf(s, e)
      requires c < NUM_OF_FREE_LIST && freeList[c] == Head(s) && pool.Shape()[e].id == e
      modifies freeList
      ensures freeList[..] == old(freeList[..])[c := Head(Remove(s, e))]
      ensures pool.entries[..] == old(pool.entries[..])
    {
      assert pool.ByClass()[e] == Link(Prior(s, k), After(s, k));
      assert pool.entries[e].id == e;
      LinkedDistinct(pool.ByClass(), s);
      HeadAfterRemove(s, e);
      if freeList[c] == Some(pool.entries[e].id) {
        freeList[c] := pool.entries[e].listNext;
      }
    }

    /** Puts entry e, linked nowhere, between position k - 1 and position k of the class list s. */
    method Splice(e: nat, prev: Option<nat>, next: Option<nat>, ghost s: seq<nat>, ghost k: nat)
      requires Sized() && Linked(pool.ByClass(), s) && k <= |s| && e < POOL_SIZE && e !in s
      requires pool.ByClass()[e] == Link(None, None) && pool.Shape()[e].id == e
      requires forall i :: i in s ==> i < POOL_SIZE && pool.Shape()[i].id == i
      requires prev == Prior(s, k) && next == if k < |s| then Some(s[k]) else None
      modifies pool.entries
      ensures pool.ByAddress() == old(pool.ByAddress()) && pool.Shape() == old(pool.Shape())
      ensures Spliced(old(pool.ByClass()), pool.ByClass(), s, k, e)
    {
      ghost var links := pool.ByClass();
      if prev.Some? {
        assert links[s[k - 1]].next == next;
        assert pool.Shape()[prev.value].id == pool.entries[prev.value].id;
        pool.SetListNext(prev.value, Some(e));
        pool.SetListPrev(e, Some(pool.entries[prev.value].id));
      }
      if next.Some? {
        assert links[s[k]].prev == prev;
        assert pool.Shape()[next.value].id == pool.entries[next.value].id;
        pool.SetListNext(e, Some(pool.entries[next.value].id));
        pool.SetListPrev(next.value, Some(e));
      }
    }

    /** Walks a class list to the place where entry e belongs: before the first entry that is not smaller. */
    method FindPlace(e: nat, c: nat) returns (prev: Option<nat>, next: Option<nat>, ghost k: nat)
      requires Sized() && c < NUM_OF_FREE_LIST == |classes| && e < POOL_SIZE
      requires Linked(pool.ByClass(), classes[c]) && freeList[c] == Head(classes[c])
      ensures k == Place(pool.Shape(), classes[c], SizeAt(pool.Shape(), e))
      ensures prev == Prior(classes[c], k) && next == if k < |classes[c]| then Some(classes[c][k]) else None
    {
      ghost var s, shape := classes[c], pool.Shape();
      k := 0;
      next := Resolve(freeList[c]);
      prev := None;
      while next.Some? && pool.entries[next.value].Size() < pool.entries[e].Size()
        invariant 0 <= k <= |s| && prev == Prior(s, k)
        invariant next == if k < |s| then Some(s[k]) else None
        invariant forall i :: 0 <= i < k ==> SizeAt(shape, s[i]) < SizeAt(shape, e)
        decreases |s| - k
      {
        assert pool.ByClass()[s[k]] == Link(Prior(s, k), After(s, k));
        assert shape[s[k]].Size() == pool.entries[s[k]].Size() && shape[e].Size() == pool.entries[e].Size();
        prev := next;
        next := Resolve(pool.entries[next.value].listNext);
        k := k + 1;
      }
      assert k < |s| ==> shape[s[k]].Size() == pool.entries[s[k]].Size();
      assert shape[e].Size() == pool.entries[e].Size();
      PlaceUnique(shape, s, SizeAt(shape, e), k);
    }

    /** Entry e, linked nowhere, enters the list of its class. */
    method InsertBySize(e: nat, c: nat)
      requires Threaded() && e < POOL_SIZE && !InSome(classes, e) && pool.Shape()[e].id == e
      requires pool.ByClass()[e] == Link(None, None) && c == PageOrder(SizeAt(pool.Shape(), e))
      modifies pool.entries, freeList, this`classes
      ensures Threaded() && pool.ByAddress() == old(pool.ByAddress()) && pool.Shape() == old(pool.Shape())
      ensures classes == Chained(pool.Shape(), old(classes), e)
      ensures forall i :: InSome(classes, i) <==> InSome(old(classes), i) || i == e
      ensures UnlistedKept(old(pool.ByClass()), pool.ByClass(), old(classes), e)
    {
      ghost var links, heads, shape := pool.ByClass(), freeList[..], pool.Shape();
      assert Linked(links, classes[c]) && heads[c] == Head(classes[c]);
      assert forall i :: i in classes[c] ==> InSome(classes, i);
      assert e !in classes[c];
      ghost var k := SpliceBySize(e, c, classes[c]);
      FamilyInsert(links, pool.ByClass(), heads, classes, c, k, e);
      SplicedUnlisted(links, pool.ByClass(), classes, c, k, e);
      ghost var longer := classes[c := With(classes[c], k, e)];
      assert Family(pool.ByClass(), freeList[..], longer);
      assert pool.Shape() == shape;
      SameNames(shape, classes, longer);
      classes := longer;
    }

    /** Links entry e into the list of class c, before the first entry that is not smaller. */
    method SpliceBySize(e: nat, c: nat, ghost s: seq<nat>) returns (ghost k: nat)
      requires Sized() && c < NUM_OF_FREE_LIST == |classes| && s == classes[c] && e < POOL_SIZE && e !in s
      requires Linked(pool.ByClass(), s) && freeList[c] == Head(s)
      requires pool.ByClass()[e] == Link(None, None) && pool.Shape()[e].id == e
      requires forall i :: i in s ==> i < POOL_SIZE && pool.Shape()[i].id == i
      modifies pool.entries, freeList
      ensures pool.ByAddress() == old(pool.ByAddress()) && pool.Shape() == old(pool.Shape())
      ensures k == Place(pool.Shape(), s, SizeAt(pool.Shape(), e)) && Spliced(old(pool.ByClass()), pool.ByClass(), s, k, e)
      ensures freeList[..] == old(freeList[..])[c := Head(With(s, k, e))]
    {
      var prev, next;
      prev, next, k := FindPlace(e, c);
      Splice(e, prev, next, s, k);
      if prev.None? {
        freeList[c] := Some(e);
      }
    }

    /** Moves entry e, whose size was `oldSize`, to the class of its present size. */
    method ChainEntryToFreeList(e: nat, oldSize: Option<int>)
      requires Threaded() && e < POOL_SIZE && pool.Shape()[e].id == e
      requires oldSize.Some? ==> e in classes[PageOrder(oldSize.value)]
      requires oldSize.None? ==> !InSome(classes, e) && pool.ByClass()[e] == Link(None, None)
      modifies pool.entries, freeList, this`classes
      ensures Threaded() && pool.ByAddress() == old(pool.ByAddress()) && pool.Shape() == old(pool.Shape())
      ensures classes == Rechained(pool.Shape(), old(classes), e, oldSize)
      ensures forall i :: InSome(classes, i) <==> InSome(old(classes), i) || i == e
      ensures UnlistedKept(old(pool.ByClass()), pool.ByClass(), old(classes), e)
    {
      assert pool.Shape()[e].Size() == SizeAt(pool.Shape(), e);
      var newOrder := SizeToPageOrder(pool.entries[e].Size());
      if oldSize.Some? {
        assert InSome(classes, e);
        if oldSize.value == pool.entries[e].Size() {
          return;
        }
        var oldOrder := SizeToPageOrder(oldSize.value);
        Unlink(e, oldOrder);
      }
      assert pool.ByClass()[e] == Link(None, None);
      InsertBySize(e, newOrder);
    }

    // ---------------------------------------------------------------- the address list

    /** What the entry at position k of the address list holds. */
    lemma EntryAt(k: nat)
      requires Listed() && k < |order|
      ensures order[k] < POOL_SIZE
      ensures var e := pool.entries[order[k]];
              && Range(e.start, e.end) == Ranges()[k] && e.Size() == Ranges()[k].Size() == SizeAt(pool.Shape(), order[k])
              && e.next == After(order, k) && e.previous == Prior(order, k)
              && e.enabled && e.id == order[k]
      ensures pool.Shape()[order[k]] == Extent(Ranges()[k].first, Ranges()[k].last, true, order[k])
    {
      assert order[k] in order;
      assert pool.ByAddress()[order[k]] == Link(Prior(order, k), After(order, k));
      assert pool.Shape()[order[k]].enabled;
    }

    /** The bounds of the entry at position k, and no link or flag of it. */
    lemma BoundsAt(k: nat)
      requires Listed() && k < |order|
      ensures order[k] < POOL_SIZE
      ensures pool.entries[order[k]].start == Ranges()[k].first && pool.entries[order[k]].end == Ranges()[k].last
    {
      EntryAt(k);
    }

    method GetFirstEntry() returns (r: Option<nat>)
      requires Listed()
      ensures r == Head(order)
    {
      if order != [] { EntryAt(0); }
      return Resolve(firstEntry);
    }

    method GetNextEntry(e: nat, ghost k: nat) returns (r: Option<nat>)
      requires Listed() && k < |order| && e == order[k]
      ensures r == After(order, k)
    {
      EntryAt(k);
      if k + 1 < |order| { EntryAt(k + 1); }
      return Resolve(pool.entries[e].next);
    }

    method GetPrevEntry(e: nat, ghost k: nat) returns (r: Option<nat>)
      requires Listed() && k < |order| && e == order[k]
      ensures r == Prior(order, k)
    {
      EntryAt(k);
      if k > 0 { EntryAt(k - 1); }
      return Resolve(pool.entries[e].previous);
    }

    method SearchEntryContainingAddress(address: int) returns (r: Option<nat>, ghost k: nat)
      requires Listed()
      ensures r.None? ==> !Covers(Ranges(), address)
      ensures r.Some? ==> k < |order| && r == Some(order[k]) && Ranges()[k].Contains(address)
    {
      k := 0;
      var first := GetFirstEntry();
      if first.None? {
        return None, 0;
      }
      var entry := first.value;
      BoundsAt(0);
      while pool.entries[entry].start < address && pool.entries[entry].end < address
        invariant k < |order| && entry == order[k] && entry < POOL_SIZE
        invariant pool.entries[entry].start == Ranges()[k].first && pool.entries[entry].end == Ranges()[k].last
        invariant forall i :: 0 <= i < k ==> Ranges()[i].last < address
        decreases |order| - k
      {
        var t := GetNextEntry(entry, k);
        if t.Some? {
          entry := t.value;
          k := k + 1;
          BoundsAt(k);
        } else {
          BetweenRanges(Ranges(), k + 1, address);
          return None, 0;
        }
      }
      if pool.entries[entry].start <= address <= pool.entries[entry].end {
        return Some(entry), k;
      } else {
        BetweenRanges(Ranges(), k, address);
        return None, 0;
      }
    }

    /** The entry after which an interval starting at `address` would go; see `Position`. */
    method SearchEntryPreviousAddress(address: int) returns (r: Option<nat>, ghost k: nat)
      requires Listed()
      ensures IsBelow(Ranges(), k, address)
      ensures r == Position(Ranges(), order, k, address)
    {
      k := 0;
      var first := GetFirstEntry();
      if first.None? {
        return None, 0;
      }
      var entry := first.value;
      BoundsAt(0);
      while pool.entries[entry].start < address
        invariant k < |order| && entry == order[k] && entry < POOL_SIZE
        invariant pool.entries[entry].start == Ranges()[k].first && pool.entries[entry].end == Ranges()[k].last
        invariant forall i :: 0 <= i < k ==> Ranges()[i].first < address
        decreases |order| - k
      {
        var t := GetNextEntry(entry, k);
        if t.Some? {
          entry := t.value;
          k := k + 1;
          BoundsAt(k);
        } else {
          r := Some(entry);
          if pool.entries[entry].end > address {
            r := GetPrevEntry(entry, k);
          }
          k := k + 1;
          return;
        }
      }
      r := GetPrevEntry(entry, k);
    }

    // ---------------------------------------------------------------- taking memory

    /** Gives the entry at position k new bounds and moves it to the class of its new size. */
    method ResizeEntry(e: nat, start: int, end: int, ghost k: nat)
      requires Listed() && k < |order| && e == order[k] && start < end
      requires Canonical(Ranges()[k := Range(start, end)])
      modifies pool.entries, freeList, this`classes
      ensures Listed()
      ensures Ranges() == old(Ranges())[k := Range(start, end)]
    {
      EntryAt(k);
      ghost var shape := pool.Shape();
      FamilySeparate(pool.ByClass(), freeList[..], classes);
      Members(pool.ByAddress(), shape, order, classes);
      assert shape[e].(start := start, end := end).id == e;
      ResizeConsistent(pool.ByAddress(), pool.ByClass(), shape, shape[e := shape[e].(start := start, end := end)],
                       order, classes, k, start, end);
      var oldSize := pool.entries[e].Size();
      assert InSome(classes, e);
      pool.SetRange(e, start, end);
      ChainEntryToFreeList(e, Some(oldSize));
    }

    /** Takes the entry at position k out of every list; the only entry of the list is kept. */
    method DeleteEntry(e: nat, ghost k: nat) returns (r: Outcome)
      requires Listed() && k < |order| && e == order[k]
      modifies this`firstEntry, this`order, this`classes, pool.entries, freeList
      ensures Listed()
      ensures |old(order)| == 1 ==> r == Err(NoEntry) && Ranges() == old(Ranges())
      ensures |old(order)| > 1 ==> r == Ok(()) && Ranges() == old(Ranges())[..k] + old(Ranges())[k + 1..]
    {
      var moved := LeaveFirstEntry(e, k);
      if !moved {
        return Err(NoEntry);
      }
      ghost var shape := pool.Shape();
      FamilySeparate(pool.ByClass(), freeList[..], classes);
      DeleteConsistent(pool.ByAddress(), shape, order, classes, k);
      Members(pool.ByAddress(), shape, order, classes);
      UnchainEntryFromFreeList(e);
      pool.Delete(e, order, k);
      order := Without(order, k);
      assert AddressList(pool.ByAddress(), pool.Shape(), order);
      assert firstEntry == Head(order);
      assert Canonical(RangesOf(pool.Shape(), order));
      assert Family(pool.ByClass(), freeList[..], classes);
      assert Placed(pool.Shape(), classes, {});
      assert Tracks(order, classes);
      return Ok(());
    }

    /** Before entry e is deleted: the list begins after it if it began with it. Fails for the only entry. */
    method LeaveFirstEntry(e: nat, ghost k: nat) returns (moved: bool)
      requires Listed() && k < |order| && e == order[k]
      modifies this`firstEntry
      ensures moved <==> |order| > 1
      ensures firstEntry == if moved then Head(Without(order, k)) else old(firstEntry)
    {
      EntryAt(k);
      if pool.entries[e].IsFirstEntry() {
        var next := Resolve(pool.entries[e].next);
        if |order| > 1 { EntryAt(1); }
        if next.Some? {
          firstEntry := Some(pool.entries[next.value].id);
        } else {
          return false;
        }
      }
      return true;
    }

    /** A fresh entry from the pool: enabled, with its own number, in no list yet. */
    method NewEntry() returns (r: Result<nat, MemoryError>)
      requires Listed()
      modifies pool.entries
      ensures r.Err? ==> r.error == NoEntry && pool.entries[..] == old(pool.entries[..])
      ensures r.Err? <==> |order| == POOL_SIZE
      ensures r.Ok? ==>
                && r.value < POOL_SIZE && r.value !in order && !InSome(classes, r.value)
                && Linked(pool.ByAddress(), order) && pool.ByAddress()[r.value] == Link(None, None)
                && Threaded() && pool.ByClass()[r.value] == Link(None, None)
                && !old(pool.Shape())[r.value].enabled
                && pool.Shape() == old(pool.Shape())[r.value := Extent(0, 0, true, r.value)]
    {
      ghost var byAddress, byClass, shape := pool.ByAddress(), pool.ByClass(), pool.Shape();
      Members(byAddress, shape, order, classes);
      LinkedDistinct(byAddress, order);
      FullList(shape, order);
      r := pool.CreateMemoryEntry();
      if r.Ok? {
        assert r.value !in order && !InSome(classes, r.value);
        UnusedLink(byAddress, pool.ByAddress(), order, r.value);
        UnusedLinks(byClass, pool.ByClass(), freeList[..], classes, r.value);
        assert Named(pool.Shape(), classes);
      }
    }

    /** Cuts n bytes at `start` out of the middle of the entry at position k. */
    method SplitEntry(e: nat, start: int, size: int, ghost k: nat) returns (r: Outcome)
      requires Listed() && k < |order| && e == order[k]
      requires |order| == POOL_SIZE || (Ranges()[k].first < start - 1 && 0 < size && start + size < Ranges()[k].last)
      modifies this`order, this`classes, pool.entries, freeList
      ensures Listed()
      ensures |old(order)| == POOL_SIZE ==> r == Err(NoEntry) && Ranges() == old(Ranges())
      ensures |old(order)| != POOL_SIZE ==> r == Ok(()) && Ranges() == Carve(old(Ranges()), k, start, start + size - 1)
    {
      EntryAt(k);
      var oldSize := pool.entries[e].Size();
      var created := CutEntry(e, start, size, k);
      if created.Err? {
        return Err(created.error);
      }
      var n := created.value;
      assert InSome(classes, e);
      ChainEntryToFreeList(e, Some(oldSize));
      AdmitEntry(n, With(order, k + 1, n));
      return Ok(());
    }

    /** The part of a split that concerns the address list: entry e keeps the head of its range, a new entry gets the tail. */
    method CutEntry(e: nat, start: int, size: int, ghost k: nat) returns (r: Result<nat, MemoryError>)
      requires Listed() && k < |order| && e == order[k]
      requires |order| == POOL_SIZE || (Ranges()[k].first < start - 1 && 0 < size && start + size < Ranges()[k].last)
      modifies pool.entries
      ensures r.Err? <==> |order| == POOL_SIZE
      ensures r.Err? ==> r.error == NoEntry && pool.entries[..] == old(pool.entries[..])
      ensures r.Ok? ==>
                && Threaded() && r.value < POOL_SIZE && !InSome(classes, r.value) && pool.ByClass()[r.value] == Link(None, None)
                && pool.Shape()[r.value].id == r.value && pool.Shape()[e].id == e
                && e in classes[PageOrder(SizeAt(old(pool.Shape()), e))]
                && AddressList(pool.ByAddress(), pool.Shape(), With(order, k + 1, r.value))
                && RangesOf(pool.Shape(), With(order, k + 1, r.value)) == Carve(old(Ranges()), k, start, start + size - 1)
                && Canonical(RangesOf(pool.Shape(), With(order, k + 1, r.value)))
                && (forall i :: i in With(order, k + 1, r.value) <==> InSome(classes, i) || i == r.value)
                && Placed(pool.Shape(),
                          Chained(pool.Shape(), Rechained(pool.Shape(), classes, e, Some(SizeAt(old(pool.Shape()), e))), r.value),
                          {})
    {
      EntryAt(k);
      ghost var byAddress, shape := pool.ByAddress(), pool.Shape();
      FamilySeparate(pool.ByClass(), freeList[..], classes);
      r := NewEntry();
      if r.Ok? {
        var n := r.value;
        assert pool.Shape()[e] == shape[e];
        var first, end := pool.entries[e].start, pool.entries[e].end;
        pool.SetRange(n, start + size, end);
        pool.SetRange(e, first, start - 1);
        SplitConsistent(byAddress, shape, pool.Shape(), order, classes, k, n, start, size);
        pool.LinkAfter(n, e, order, k);
      }
    }

    /** The new entry n, already in the address list, enters its class. */
    method AdmitEntry(n: nat, ghost order': seq<nat>)
      requires Threaded() && n < POOL_SIZE && pool.Shape()[n].id == n
      requires !InSome(classes, n) && pool.ByClass()[n] == Link(None, None)
      requires AddressList(pool.ByAddress(), pool.Shape(), order') && firstEntry == Head(order')
      requires Canonical(RangesOf(pool.Shape(), order'))
      requires forall i :: i in order' <==> InSome(classes, i) || i == n
      requires Placed(pool.Shape(), Chained(pool.Shape(), classes, n), {})
      modifies this`order, this`classes, pool.entries, freeList
      ensures Listed() && order == order'
      ensures pool.Shape() == old(pool.Shape())
    {
      ChainEntryToFreeList(n, None);
      order := order';
      assert Tracks(order, classes);
    }

    /** The cut of [s, t] leaves one piece of the entry at position k: the entry shrinks to it. */
    method ShrinkEntry(e: nat, start: int, end: int, ghost k: nat, ghost s: int, ghost t: int)
      requires Listed() && k < |order| && e == order[k] && s <= t
      requires Ranges()[k].Encloses(s, t) && CleanCut(Ranges()[k], s, t - s + 1)
      requires Remains(Ranges()[k], s, t) == [Range(start, end)]
      modifies pool.entries, freeList, this`classes
      ensures Listed()
      ensures Ranges() == Carve(old(Ranges()), k, s, t)
    {
      CarveSide(Ranges(), k, s, t, Range(start, end));
      assert Ranges()[k := Range(start, end)][k] == Range(start, end);
      ResizeEntry(e, start, end, k);
    }

    /** Takes `size` bytes at `start` out of the entry at position k, which contains `start`. */
    method TakeFromEntry(e: nat, start: int, size: int, ghost k: nat) returns (r: Outcome)
      requires Listed() && k < |order| && e == order[k] && Ranges()[k].Contains(start)
      requires 0 < size && Passes(Ranges(), k, start, size)
      modifies this`firstEntry, this`order, this`classes, pool.entries, freeList
      ensures Listed()
      ensures TakenFrom(View(old(Ranges()), size), k, start, size, r, View(Ranges(), if r.Ok? then 0 else size))
    {
      BoundsAt(k);
      ghost var rs, last := Ranges(), start + size - 1;
      PassesExactly(rs, k, start, size);
      if pool.entries[e].start == start {
        if pool.entries[e].end == start + size - 1 {
          r := DeleteEntry(e, k);
          assert r.Ok? ==> Ranges() == Carve(rs, k, start, last);
          return;
        }
        ShrinkEntry(e, start + size, pool.entries[e].end, k, start, last);
      } else if pool.entries[e].end == start {
        if size != 1 {
          return Err(InvalidRequest);
        }
        ShrinkEntry(e, pool.entries[e].start, start - 1, k, start, last);
      } else if pool.entries[e].end == start + size - 1 {
        ShrinkEntry(e, pool.entries[e].start, start - 1, k, start, last);
      } else {
        r := SplitEntry(e, start, size, k);
        return;
      }
      return Ok(());
    }

    /** `target` is the entry to take from, when the caller has already found it. */
    method DefineUsedMemory(start: int, size: int, alignOrder: nat, target: Option<nat>) returns (r: Outcome)
      requires Valid() && 0 <= size
      requires target.Some? ==> alignOrder == 0 && target.value in order && RangeAt(pool.Shape(), target.value).Contains(start)
      requires Reservable(Now(), start, size, alignOrder)
      modifies this, pool.entries, freeList
      ensures Valid() && surplus == old(surplus)
      ensures ReservePost(old(Now()), start, size, alignOrder, r, Now())
      decreases alignOrder
    {
      if size == 0 {
        return Err(InvalidRequest);
      } else if freeSize < size {
        return Err(NoMemory);
      }
      if alignOrder != 0 {
        var (alignedStart, alignedSize) := AlignAddressAndSize(start, size, alignOrder);
        AlignAddressAndSizeMeaning(start, size, alignOrder);
        r := DefineUsedMemory(alignedStart, alignedSize, 0, target);
        return;
      }
      var entry := target;
      ghost var k := if target.Some? then IndexOf(order, target.value) else 0;
      if target.None? {
        entry, k := SearchEntryContainingAddress(start);
        if entry.None? {
          return Err(InvalidRequest);
        }
      }
      r := UseEntry(entry.value, start, size, k);
    }

    /** Takes from the entry found, and charges the counter. */
    method UseEntry(e: nat, start: int, size: int, ghost k: nat) returns (r: Outcome)
      requires Valid() && k < |order| && e == order[k] && Ranges()[k].Contains(start)
      requires 0 < size <= freeSize && Passes(Ranges(), k, start, size)
      modifies this, pool.entries, freeList
      ensures Valid() && surplus == old(surplus)
      ensures Taken(old(Now()), start, size, r, Now())
    {
      ghost var rs := Ranges();
      OnlyContaining(rs, k, start);
      r := TakeFromEntry(e, start, size, k);
      TakenTotal(rs, freeSize, k, start, size, r, Ranges());
      if r.Ok? {
        freeSize := freeSize - size;
      }
    }

    method ReserveMemory(startAddress: int, size: int, alignOrder: nat) returns (r: Outcome)
      requires Valid() && 0 <= size
      requires Reservable(Now(), startAddress, size, alignOrder)
      modifies this, pool.entries, freeList
      ensures Valid() && surplus == old(surplus)
      ensures ReservePost(old(Now()), startAddress, size, alignOrder, r, Now())
    {
      r := DefineUsedMemory(startAddress, size, alignOrder, None);
    }

    // ---------------------------------------------------------------- allocation

    /** Whether entry e can hold the request, and from which address. */
    method Examine(e: nat, size: int, alignOrder: nat) returns (fits: bool, address: int)
      requires Sized() && e < POOL_SIZE
      ensures fits <==> Fits(RangeAt(pool.Shape(), e), size, alignOrder)
      ensures fits ==> address == Candidate(RangeAt(pool.Shape(), e), alignOrder).0
    {
      var entry := pool.entries[e];
      assert RangeAt(pool.Shape(), e) == Range(entry.start, entry.end);
      address := entry.start;
      fits := entry.Size() >= size;
      if fits && alignOrder != 0 {
        var (alignedAddress, alignedAvailableSize) := AlignAddressAndAvailableSize(entry.start, entry.Size(), alignOrder);
        fits := alignedAvailableSize >= size;
        address := alignedAddress;
      }
    }

    /** The first entry of class c that fits, and the address at which the allocation would start. */
    method SearchClass(c: nat, size: int, alignOrder: nat) returns (r: Option<nat>, address: int, ghost j: nat)
      requires Sized() && c < NUM_OF_FREE_LIST == |classes|
      requires Linked(pool.ByClass(), classes[c]) && freeList[c] == Head(classes[c])
      ensures r.None? ==> j == |classes[c]|
      ensures r.Some? ==>
                && j < |classes[c]| && r == Some(classes[c][j])
                && Fits(RangeAt(pool.Shape(), classes[c][j]), size, alignOrder)
                && address == Candidate(RangeAt(pool.Shape(), classes[c][j]), alignOrder).0
      ensures forall i :: 0 <= i < j ==> !Fits(RangeAt(pool.Shape(), classes[c][i]), size, alignOrder)
    {
      ghost var s := classes[c];
      j := 0;
      address := 0;
      var entry := Resolve(freeList[c]);
      while entry.Some?
        invariant 0 <= j <= |s| && entry == if j < |s| then Some(s[j]) else None
        invariant forall i :: 0 <= i < j ==> !Fits(RangeAt(pool.Shape(), s[i]), size, alignOrder)
        decreases |s| - j
      {
        assert pool.ByClass()[s[j]] == Link(Prior(s, j), After(s, j));
        var fits;
        fits, address := Examine(entry.value, size, alignOrder);
        if fits {
          return entry, address, j;
        }
        entry := Resolve(pool.entries[entry.value].listNext);
        j := j + 1;
      }
      return None, address, j;
    }

    /** The first fit in class order. */
    method SearchFreeLists(size: int, alignOrder: nat) returns (r: Option<nat>, address: int, ghost k: nat)
      requires Listed()
      ensures r.None? ==> forall i :: 0 <= i < |Ranges()| ==> !Fits(Ranges()[i], size, alignOrder)
      ensures r.Some? ==>
                && k < |order| && r == Some(order[k]) && Chosen(Ranges(), k, size, alignOrder) && IsFirstFit(k, size, alignOrder)
                && address == Candidate(Ranges()[k], alignOrder).0
    {
      var pageOrder := SizeToPageOrder(size);
      var i := pageOrder;
      while i < NUM_OF_FREE_LIST
        invariant pageOrder <= i <= NUM_OF_FREE_LIST
        invariant NoneFits(pool.Shape(), classes, pageOrder, i, size, alignOrder)
      {
        assert Linked(pool.ByClass(), classes[i]);
        ghost var j;
        r, address, j := SearchClass(i, size, alignOrder);
        if r.Some? {
          assert FirstFit(pool.Shape(), classes, i, j, size, alignOrder);
          k := FirstFitIsChosen(pool.Shape(), order, classes, i, j, size, alignOrder);
          return;
        }
        i := i + 1;
      }
      NoFitAnywhere(pool.Shape(), order, classes, size, alignOrder);
      return None, 0, 0;
    }

    /** Range k is the one that an allocation is made from. */
    ghost predicate IsFirstFit(k: nat, size: int, alignOrder: nat)
      reads this`order, this`classes, pool.entries
    {
      k < |order| && exists c: nat, j: nat :: FirstFit(pool.Shape(), classes, c, j, size, alignOrder) && order[k] == classes[c][j]
    }

    /** No assertion fails in an allocation. */
    ghost predicate Allocatable(size: int, alignOrder: nat)
      reads this`order, this`classes, pool.entries
    {
      forall k: nat :: IsFirstFit(k, size, alignOrder) ==> Passes(Ranges(), k, Candidate(Ranges()[k], alignOrder).0, size)
    }

    /** That is so if none can fail in any allocation from a smallest range. */
    lemma CleanIsAllocatable(size: int, alignOrder: nat)
      requires Listed() && AllocatesCleanly(Ranges(), size, alignOrder)
      ensures Allocatable(size, alignOrder)
    {
      forall k: nat | IsFirstFit(k, size, alignOrder)
        ensures Passes(Ranges(), k, Candidate(Ranges()[k], alignOrder).0, size)
      {
        var c: nat, j: nat :| FirstFit(pool.Shape(), classes, c, j, size, alignOrder) && order[k] == classes[c][j];
        var l := FirstFitIsChosen(pool.Shape(), order, classes, c, j, size, alignOrder);
        LinkedDistinct(pool.ByAddress(), order);
      }
    }

    method Allocate(size: int, alignOrder: nat) returns (r: Result<int, MemoryError>)
      requires Valid() && 0 <= size
      requires 0 < size < freeSize ==> Allocatable(size, alignOrder)
      modifies this, pool.entries, freeList
      ensures Valid() && surplus == old(surplus)
      ensures AllocatePost(old(Now()), size, alignOrder, r, Now())
    {
      if size == 0 {
        return Err(InvalidRequest);
      } else if freeSize <= size {
        return Err(NoMemory);
      }
      var entry, address, k := SearchFreeLists(size, alignOrder);
      if entry.None? {
        return Err(NoMemory);
      }
      CandidateInside(Ranges()[k], size, alignOrder);
      OnlyContaining(Ranges(), k, address);
      BoundsAt(k);
      assert entry.value in order;
      assert RangeAt(pool.Shape(), entry.value) == Ranges()[k];
      var done := DefineUsedMemory(address, size, 0, entry);
      r := if done.Ok? then Ok(address) else Err(done.error);
      assert AllocatedFrom(old(Now()), k, size, alignOrder, r, Now());
    }

    // ---------------------------------------------------------------- releasing memory

    /** The entry at position k takes over the interval up to the end of its successor x, which is deleted. */
    method MergeWithNext(e: nat, x: nat, start: int, end: int, ghost k: nat)
      requires Listed() && k + 1 < |order| && e == order[k] && x == order[k + 1]
      requires Ranges()[k].last + 1 == start && start <= end && end + 1 == Ranges()[k + 1].first
      requires Canonical(Merged(Ranges(), k))
      modifies this`order, this`classes, pool.entries, freeList
      ensures Listed()
      ensures Ranges() == Merged(old(Ranges()), k)
    {
      EntryAt(k);
      EntryAt(k + 1);
      var oldSize := pool.entries[e].Size();
      var first, last := pool.entries[e].start, pool.entries[x].end;
      ghost var shape := pool.Shape();
      ghost var shape' := shape[e := shape[e].(end := last)][x := shape[x].(start := start, enabled := false)];
      FamilySeparate(pool.ByClass(), freeList[..], classes);
      MergeConsistent(pool.ByAddress(), shape, shape', order, classes, k, last, start);
      MergedForm(shape, order, k, last);
      Members(pool.ByAddress(), shape, order, classes);
      LinkedDistinct(pool.ByAddress(), order);
      WithoutMembers(order, k + 1);
      ghost var base := Unchained(classes, x, SizeAt(shape, x));
      pool.SetRange(e, first, end);
      DissolveNext(e, x, start, last, k);
      assert pool.Shape() == shape' && classes == base;
      order := Without(order, k + 1);
      assert InSome(classes, e);
      ChainEntryToFreeList(e, Some(oldSize));
      assert Tracks(order, classes);
    }

    /** The successor x of entry e first takes over the released interval, is chained anew, and is then
        deleted, while entry e grows to its end. */
    method DissolveNext(e: nat, x: nat, start: int, last: int, ghost k: nat)
      requires Threaded() && k + 1 < |order| && e == order[k] && x == order[k + 1] && e < POOL_SIZE && x < POOL_SIZE
      requires Linked(pool.ByAddress(), order) && forall i :: i in order ==> i < POOL_SIZE && pool.Shape()[i].id == i
      requires x in classes[PageOrder(SizeAt(pool.Shape(), x))]
      requires pool.Shape()[x].end == last && start < pool.Shape()[x].start < last && pool.Shape()[e].start < last
      modifies this`classes, pool.entries, freeList
      ensures Threaded() && pool.ByClass()[x] == Link(None, None)
      ensures classes == Unchained(old(classes), x, SizeAt(old(pool.Shape()), x))
      ensures forall i :: InSome(classes, i) <==> InSome(old(classes), i) && i != x
      ensures Linked(pool.ByAddress(), Without(order, k + 1))
      ensures pool.Shape() == old(pool.Shape())[e := old(pool.Shape())[e].(end := last)]
                                               [x := old(pool.Shape())[x].(start := start, enabled := false)]
    {
      assert e in order && x in order;
      GrowNext(x, start);
      assert pool.entries[x].end == pool.Shape()[x].end && pool.entries[e].start == pool.Shape()[e].start;
      pool.SetRange(e, pool.entries[e].start, pool.entries[x].end);
      UnchainEntryFromFreeList(x);
      pool.Delete(x, order, k + 1);
    }

    /** Entry x takes over the released interval before it, and moves to the class of its new size. */
    method GrowNext(x: nat, start: int)
      requires Threaded() && x < POOL_SIZE && pool.Shape()[x].id == x
      requires x in classes[PageOrder(SizeAt(pool.Shape(), x))]
      requires start < pool.Shape()[x].start < pool.Shape()[x].end
      modifies this`classes, pool.entries, freeList
      ensures Threaded() && pool.ByAddress() == old(pool.ByAddress())
      ensures pool.Shape() == old(pool.Shape())[x := old(pool.Shape())[x].(start := start)]
      ensures x in classes[PageOrder(SizeAt(pool.Shape(), x))]
      ensures Unchained(classes, x, SizeAt(pool.Shape(), x)) == Unchained(old(classes), x, SizeAt(old(pool.Shape()), x))
      ensures forall i :: InSome(classes, i) <==> InSome(old(classes), i)
    {
      ghost var listed, shape := classes, pool.Shape();
      FamilySeparate(pool.ByClass(), freeList[..], classes);
      assert InSome(classes, x);
      var entry := pool.entries[x];
      assert entry.Size() == SizeAt(shape, x) && entry.end == shape[x].end;
      pool.SetRange(x, start, entry.end);
      ChainThenUnchain(pool.Shape(), listed, x, entry.Size());
      ChainEntryToFreeList(x, Some(entry.Size()));
    }

    /** Joins the interval to the entry found, to the entry after it, or to both. */
    method Coalesce(e: nat, start: int, end: int, ghost j: nat, ghost k: nat) returns (processed: bool)
      requires Listed() && k < |order| && e == order[k] && start <= end
      requires j == Below(Ranges(), start) && Beside(Ranges(), j, k, start, end)
      requires JoinsLeft(Ranges(), j, start) || JoinsRight(Ranges(), j, end) ==> Canonical(Release(Ranges(), j, start, end))
      modifies this`order, this`classes, pool.entries, freeList
      ensures Listed()
      ensures processed <==> JoinsLeft(old(Ranges()), j, start) || JoinsRight(old(Ranges()), j, end)
      ensures Ranges() == if processed then Release(old(Ranges()), j, start, end) else old(Ranges())
      ensures !processed ==> order == old(order)
    {
      ghost var rs := Ranges();
      EntryAt(k);
      var entry := pool.entries[e];
      var next := GetNextEntry(e, k);
      if next.Some? {
        BoundsAt(k + 1);
        assert Precedes(rs, k, k + 1);
      }
      if entry.end + 1 == start {
        if next.Some? && pool.entries[next.value].start == end + 1 {
          ReleaseBoth(rs, j, start, end);
          MergeWithNext(e, next.value, start, end, k);
        } else {
          ReleaseLeft(rs, j, start, end);
          ResizeEntry(e, entry.start, end, k);
        }
        return true;
      }
      if entry.IsFirstEntry() && entry.start == end + 1 {
        ReleaseRight(rs, j, start, end);
        ResizeEntry(e, start, entry.end, k);
        return true;
      }
      if next.Some? && pool.entries[next.value].start == end + 1 {
        ReleaseRight(rs, j, start, end);
        ResizeEntry(next.value, start, pool.entries[next.value].end, k + 1);
        return true;
      }
      return false;
    }

    /** Puts the interval into an entry of its own, behind the entry found or before the first one. */
    method InsertEntry(e: nat, start: int, end: int, ghost j: nat, ghost k: nat) returns (r: Outcome)
      requires Listed() && k < |order| && e == order[k] && start < end
      requires j == Below(Ranges(), start) && Beside(Ranges(), j, k, start, end)
      requires !JoinsLeft(Ranges(), j, start) && !JoinsRight(Ranges(), j, end)
      requires Canonical(Release(Ranges(), j, start, end))
      modifies this`firstEntry, this`order, this`classes, pool.entries, freeList
      ensures Listed()
      ensures |old(order)| == POOL_SIZE ==> r == Err(NoEntry) && Ranges() == old(Ranges())
      ensures |old(order)| != POOL_SIZE ==> r == Ok(()) && Ranges() == Release(old(Ranges()), j, start, end)
    {
      EntryAt(k);
      ghost var byAddress, shape := pool.ByAddress(), pool.Shape();
      var created := NewEntry();
      if created.Err? {
        return Err(created.error);
      }
      var n := created.value;
      assert pool.Shape()[e] == shape[e];
      pool.SetRange(n, start, end);
      InsertConsistent(byAddress, shape, pool.Shape(), order, classes, j, n, start, end);
      assert pool.Shape()[e] == shape[e];
      if end < pool.entries[e].start {
        assert j == 0;
        firstEntry := Some(n);
        pool.LinkFirst(n, e, order);
      } else {
        pool.LinkAfter(n, e, order, k);
      }
      AdmitEntry(n, With(order, j, n));
      return Ok(());
    }

    /** The entry `define_free_memory` works from: the one found, or the first one. */
    method EntryFor(start: int) returns (e: nat, ghost j: nat, ghost k: nat)
      requires Listed() && order != []
      ensures Found(Ranges(), j, k, start) && e == order[k]
    {
      var found;
      found, j := SearchEntryPreviousAddress(start);
      if found.Some? {
        e := found.value;
        k := if j == |order| && start < Ranges()[j - 1].last then j - 2 else j - 1;
      } else {
        var first := GetFirstEntry();
        e := first.value;
        k := 0;
      }
    }

    /** Whether the interval is free already; a release that overlaps the free set in part is not modelled. */
    method AlreadyFree(e: nat, start: int, end: int, ghost j: nat, ghost k: nat) returns (already: bool)
      requires Listed() && Found(Ranges(), j, k, start) && e == order[k]
      requires start <= end && Releasable(Ranges(), start, end - start + 1)
      ensures already <==> EnclosedBy(Ranges(), start, end)
      ensures !already ==> j == Below(Ranges(), start) && DisjointFrom(Ranges(), start, end) && Beside(Ranges(), j, k, start, end)
    {
      ghost var rs := Ranges();
      Approach(rs, j, k, start, end - start + 1);
      EntryAt(k);
      var next := GetNextEntry(e, k);
      if next.Some? { BoundsAt(k + 1); }

      if pool.entries[e].start <= start && pool.entries[e].end >= end {
        assert rs[k].Encloses(start, end);
        return true;
      } else if pool.entries[e].end >= start && !pool.entries[e].IsFirstEntry() {
        assert false;
      } else if pool.entries[e].end == end {
        assert false;
      }
      // The original looks at the next entry after joining `entry`, and asserts that it has not joined it.
      if next.Some? && pool.entries[next.value].start <= start {
        assert rs[k + 1].Encloses(start, end);
        return true;
      }
      return false;
    }

    method DefineFreeMemory(start: int, size: int) returns (r: Outcome)
      requires Valid() && order != [] && 0 <= size
      requires size > 0 ==> Releasable(Ranges(), start, size)
      modifies this, pool.entries, freeList
      ensures Valid() && surplus == old(surplus)
      ensures Given(old(Now()), start, size, size, r, Now())
    {
      if size == 0 {
        return Err(InvalidRequest);
      }
      var e, j, k := EntryFor(start);
      var already := AlreadyFree(e, start, start + size - 1, j, k);
      if already {
        return Err(InvalidRequest);
      }
      DisjointNotEnclosed(Ranges(), start, start + size - 1);
      r := ReleaseFound(e, start, size, j, k);
    }

    /** Releases the bytes next to the entry found. */
    method ReleaseFound(e: nat, start: int, size: int, ghost j: nat, ghost k: nat) returns (r: Outcome)
      requires Valid() && k < |order| && e == order[k] && 0 < size && Releasable(Ranges(), start, size)
      requires DisjointFrom(Ranges(), start, start + size - 1)
      requires j == Below(Ranges(), start) && Beside(Ranges(), j, k, start, start + size - 1)
      modifies this, pool.entries, freeList
      ensures Valid() && surplus == old(surplus)
      ensures Given(old(Now()), start, size, size, r, Now())
    {
      ghost var before := Now();
      DisjointNotEnclosed(before.ranges, start, start + size - 1);
      r := ReleaseAndCount(e, start, size, j, k);
      GivenTotal(before.ranges, before.freeSize, j, start, start + size - 1, r, Ranges());
      assert Now() == View(Ranges(), if r.Ok? then before.freeSize + size else before.freeSize);
    }

    /** Releases the bytes, and counts them. */
    method ReleaseAndCount(e: nat, start: int, size: int, ghost j: nat, ghost k: nat) returns (r: Outcome)
      requires Listed() && k < |order| && e == order[k] && 0 < size && 0 <= start && start + size < ADDRESS_LIMIT
      requires DisjointFrom(Ranges(), start, start + size - 1)
      requires j == Below(Ranges(), start) && Beside(Ranges(), j, k, start, start + size - 1)
      requires size == 1 ==> JoinsLeft(Ranges(), j, start) || JoinsRight(Ranges(), j, start)
      modifies this, pool.entries, freeList
      ensures Listed() && surplus == old(surplus) && freeSize == if r.Ok? then old(freeSize) + size else old(freeSize)
      ensures ReleasedAt(old(Ranges()), j, start, start + size - 1, r, Ranges())
    {
      r := ReleaseBeside(e, start, start + size - 1, j, k);
      if r.Ok? {
        Credit(size);
      }
    }

    method Credit(size: int)
      modifies this`freeSize
      ensures freeSize == old(freeSize) + size
    {
      freeSize := freeSize + size;
    }

    /** A release of bytes that are not free yet, next to the entry found. */
    method ReleaseBeside(e: nat, start: int, end: int, ghost j: nat, ghost k: nat) returns (r: Outcome)
      requires Listed() && k < |order| && e == order[k] && 0 <= start <= end && end + 1 < ADDRESS_LIMIT
      requires DisjointFrom(Ranges(), start, end)
      requires start == end ==> j <= |Ranges()| && (JoinsLeft(Ranges(), j, start) || JoinsRight(Ranges(), j, end))
      requires j == Below(Ranges(), start) && Beside(Ranges(), j, k, start, end)
      modifies this`firstEntry, this`order, this`classes, pool.entries, freeList
      ensures Listed()
      ensures ReleasedAt(old(Ranges()), j, start, end, r, Ranges())
    {
      ReleaseAdds(Ranges(), start, end);
      var processed := Coalesce(e, start, end, j, k);
      if processed {
        return Ok(());
      }
      r := InsertEntry(e, start, end, j, k);
    }

    /** The first release seeds the list; every later one is credited twice, here and in `DefineFreeMemory`. */
    method Free(start: int, size: int) returns (r: Outcome)
      requires Valid() && 0 <= size
      requires freeSize == 0 ==> 0 <= start && 2 <= size && start + size < ADDRESS_LIMIT
      requires freeSize != 0 && size > 0 ==> Releasable(Ranges(), start, size)
      modifies this, pool.entries, freeList
      ensures Valid()
      ensures FreePost(old(Now()), start, size, r, Now())
      ensures old(freeSize) == 0 ==> r == Ok(()) && freeSize == size && forall b :: Covers(Ranges(), b) <==> start <= b < start + size
      ensures surplus == if r.Ok? && old(freeSize) != 0 then old(surplus) + size else old(surplus)
    {
      TotalPositive(Ranges());
      if freeSize == 0 {
        Seed(start, size);
        Singleton(Range(start, start + size - 1));
        return Ok(());
      }
      r := DefineFreeMemory(start, size);
      if r.Ok? {
        freeSize := freeSize + size;
        surplus := surplus + size;
      }
    }

    method Seed(start: int, size: int)
      requires Valid() && order == [] && 0 <= start && 2 <= size && start + size < ADDRESS_LIMIT
      modifies this, pool.entries, freeList
      ensures Valid() && surplus == old(surplus) && Now() == View([Range(start, start + size - 1)], size)
    {
      PlantEntry(start, start + size - 1);
      freeSize := size;
      Singleton(Range(start, start + size - 1));
    }

    /** The first entry of an empty allocator. */
    method PlantEntry(start: int, end: int)
      requires Listed() && order == [] && 0 <= start < end && end + 1 < ADDRESS_LIMIT
      modifies this`firstEntry, this`order, this`classes, pool.entries, freeList
      ensures Listed() && Ranges() == [Range(start, end)]
    {
      ghost var byAddress, shape := pool.ByAddress(), pool.Shape();
      var created := NewEntry();
      var n := created.value;
      pool.SetRange(n, start, end);
      InsertConsistent(byAddress, shape, pool.Shape(), order, classes, 0, n, start, end);
      Singleton(Range(start, end));
      assert With(order, 0, n) == [n] && Linked(pool.ByAddress(), [n]);
      firstEntry := Some(n);
      AdmitEntry(n, [n]);
      assert Ranges() == [Range(start, end)];
    }
  }

  /** Entries in no class list keep their class links, entry e excepted. */
  ghost predicate UnlistedKept(links: seq<Link>, links': seq<Link>, classes: seq<seq<nat>>, e: nat) {
    && |links| == |links'|
    && forall i :: 0 <= i < |links| && i != e && !InSome(classes, i) ==> links'[i] == links[i]
  }

  lemma BypassedUnlisted(links: seq<Link>, links': seq<Link>, classes: seq<seq<nat>>, c: nat, k: nat)
    requires c < |classes| && k < |classes[c]| && Bypassed(links, links', classes[c], k)
    ensures UnlistedKept(links, links', classes, classes[c][k])
  {
    forall i | 0 <= i < |links| && i != classes[c][k] && !InSome(classes, i)
      ensures links'[i] == links[i]
    {
      assert i !in classes[c];
    }
  }

  lemma SplicedUnlisted(links: seq<Link>, links': seq<Link>, classes: seq<seq<nat>>, c: nat, k: nat, e: nat)
    requires c < |classes| && k <= |classes[c]| && Spliced(links, links', classes[c], k, e)
    ensures UnlistedKept(links, links', classes, e)
  {
    forall i | 0 <= i < |links| && i != e && !InSome(classes, i)
      ensures links'[i] == links[i]
    {
      assert i !in classes[c];
    }
  }

  lemma HeadAfterRemove(s: seq<nat>, e: nat)
    requires Distinct(s) && e in s
    ensures Head(Remove(s, e)) == if Head(s) == Some(e) then After(s, IndexOf(s, e)) else Head(s)
  {
  }

  /** The result of the previous-address search when k entries begin below the address: the last
      of them, except that an address inside the last entry of all leads to the entry before it. */
  ghost function Position(rs: seq<Range>, order: seq<nat>, k: nat, address: int): Option<nat>
    requires k <= |rs| == |order|
  {
    if 0 < k == |rs| && address < rs[k - 1].last then Prior(order, k - 1) else Prior(order, k)
  }
}
