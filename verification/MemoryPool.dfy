/**
 The pool of 64 memory entries that the allocator threads its two kinds of lists through,
 and the elementary updates of an entry.
 */
module MemoryPool {
  import opened Wrappers
  import opened LinkedSlots

  const POOL_SIZE: nat := 64

  datatype MemoryError = NoEntry | InvalidEntry | NoMemory | InvalidRequest

  datatype MemoryEntry = MemoryEntry(
    previous: Option<nat>,
    next: Option<nat>,
    listPrev: Option<nat>,
    listNext: Option<nat>,
    start: int,
    end: int,
    enabled: bool,
    id: nat
  ) {
    function Size(): int {
      end - start + 1
    }

    predicate IsFirstEntry() {
      previous.None?
    }
  }

  const NEW_ENTRY: MemoryEntry := MemoryEntry(None, None, None, None, 0, 0, false, 0)

  // Three views of the pool. Every elementary update changes one of them and keeps the others.

  datatype Extent = Extent(start: int, end: int, enabled: bool, id: nat) {
    function Size(): int {
      end - start + 1
    }
  }

  ghost function AddressLinks(p: seq<MemoryEntry>): seq<Link> {
    seq(|p|, i requires 0 <= i < |p| => Link(p[i].previous, p[i].next))
  }

  ghost function ClassLinks(p: seq<MemoryEntry>): seq<Link> {
    seq(|p|, i requires 0 <= i < |p| => Link(p[i].listPrev, p[i].listNext))
  }

  ghost function Extents(p: seq<MemoryEntry>): seq<Extent> {
    seq(|p|, i requires 0 <= i < |p| => Extent(p[i].start, p[i].end, p[i].enabled, p[i].id))
  }

  /** `get_memory_entry(..).ok()` on a link: links outside the pool lead nowhere. */
  function Resolve(link: Option<nat>): Option<nat> {
    if link.Some? && link.value < POOL_SIZE then link else None
  }

  class Pool {
    const entries: array<MemoryEntry>

    constructor ()
      ensures fresh(entries) && entries.Length == POOL_SIZE == 64
      ensures forall i :: 0 <= i < POOL_SIZE ==> entries[i] == NEW_ENTRY
    {
      entries := new MemoryEntry[POOL_SIZE](_ => NEW_ENTRY);
    }

    ghost predicate Sized() {
      entries.Length == POOL_SIZE
    }

    ghost function ByAddress(): seq<Link>
      reads entries
    {
      AddressLinks(entries[..])
    }

    ghost function ByClass(): seq<Link>
      reads entries
    {
      ClassLinks(entries[..])
    }

    ghost function Shape(): seq<Extent>
      reads entries
    {
      Extents(entries[..])
    }

    /** Sets the bounds of an entry; a range of fewer than two bytes fails the assertion of the original. */
    method SetRange(e: nat, start: int, end: int)
      requires Sized() && e < POOL_SIZE && start < end
      modifies entries
      ensures ByAddress() == old(ByAddress()) && ByClass() == old(ByClass())
      ensures Shape() == old(Shape()[e := Shape()[e].(start := start, end := end)])
    {
      entries[e] := entries[e].(start := start, end := end);
    }

    method SetPrevious(e: nat, link: Option<nat>)
      requires Sized() && e < POOL_SIZE
      modifies entries
      ensures ByClass() == old(ByClass()) && Shape() == old(Shape())
      ensures ByAddress() == old(ByAddress()[e := ByAddress()[e].(prev := link)])
    {
      entries[e] := entries[e].(previous := link);
    }

    method SetNext(e: nat, link: Option<nat>)
      requires Sized() && e < POOL_SIZE
      modifies entries
      ensures ByClass() == old(ByClass()) && Shape() == old(Shape())
      ensures ByAddress() == old(ByAddress()[e := ByAddress()[e].(next := link)])
    {
      entries[e] := entries[e].(next := link);
    }

    method SetListPrev(e: nat, link: Option<nat>)
      requires Sized() && e < POOL_SIZE
      modifies entries
      ensures ByAddress() == old(ByAddress()) && Shape() == old(Shape())
      ensures ByClass() == old(ByClass()[e := ByClass()[e].(prev := link)])
    {
      entries[e] := entries[e].(listPrev := link);
    }

    method SetListNext(e: nat, link: Option<nat>)
      requires Sized() && e < POOL_SIZE
      modifies entries
      ensures ByAddress() == old(ByAddress()) && Shape() == old(Shape())
      ensures ByClass() == old(ByClass()[e := ByClass()[e].(next := link)])
    {
      entries[e] := entries[e].(listNext := link);
    }

    method SetEnabled(e: nat, enabled: bool)
      requires Sized() && e < POOL_SIZE
      modifies entries
      ensures ByAddress() == old(ByAddress()) && ByClass() == old(ByClass())
      ensures Shape() == old(Shape()[e := Shape()[e].(enabled := enabled)])
    {
      entries[e] := entries[e].(enabled := enabled);
    }

    /** Makes entry b the successor of entry a in the address list. */
    method ChainAfterMe(a: nat, b: nat)
      requires Sized() && a < POOL_SIZE && b < POOL_SIZE && a != b
      modifies entries
      ensures ByClass() == old(ByClass()) && Shape() == old(Shape())
      ensures ByAddress() == old(ByAddress()[a := ByAddress()[a].(next := Some(Shape()[b].id))]
                                            [b := ByAddress()[b].(prev := Some(Shape()[a].id))])
    {
      SetNext(a, Some(entries[b].id));
      SetPrevious(b, Some(entries[a].id));
    }

    /** Takes the first disabled entry, reset and enabled; fails exactly when every entry is enabled. */
    method CreateMemoryEntry() returns (r: Result<nat, MemoryError>)
      requires Sized()
      modifies entries
      ensures r.Err? ==> r.error == NoEntry && entries[..] == old(entries[..])
      ensures r.Err? <==> forall i :: 0 <= i < POOL_SIZE ==> old(Shape())[i].enabled
      ensures r.Ok? ==>
                && r.value < POOL_SIZE
                && !old(Shape())[r.value].enabled
                && (forall i :: 0 <= i < r.value ==> old(Shape())[i].enabled)
                && ByAddress() == old(ByAddress())[r.value := Link(None, None)]
                && ByClass() == old(ByClass())[r.value := Link(None, None)]
                && Shape() == old(Shape())[r.value := Extent(0, 0, true, r.value)]
    {
      var i := 0;
      while i < POOL_SIZE
        invariant 0 <= i <= POOL_SIZE
        invariant entries[..] == old(entries[..])
        invariant forall j :: 0 <= j < i ==> old(Shape())[j].enabled
      {
        assert old(Shape())[i].enabled == entries[i].enabled;
        if !entries[i].enabled {
          entries[i] := NEW_ENTRY.(id := i, enabled := true);
          return Ok(i);
        }
        i := i + 1;
      }
      return Err(NoEntry);
    }

    /** Unlinks entry e, at position k of the address list s, and disables it. */
    method Delete(e: nat, ghost s: seq<nat>, ghost k: nat)
      requires Sized() && Linked(ByAddress(), s) && k < |s| && s[k] == e
      requires forall i :: 0 <= i < |s| ==> Shape()[s[i]].id == s[i]
      modifies entries
      ensures ByClass() == old(ByClass())
      ensures Shape() == old(Shape()[e := Shape()[e].(enabled := false)])
      ensures Linked(ByAddress(), Without(s, k))
    {
      ghost var before := ByAddress();
      assert before[e] == Link(Prior(s, k), After(s, k));
      var previous := Resolve(entries[e].previous);
      var next := Resolve(entries[e].next);
      assert k > 0 ==> before[s[k - 1]].next == Some(e);
      assert k + 1 < |s| ==> before[s[k + 1]].prev == Some(e);
      LinkedDistinct(before, s);
      if previous.Some? {
        if next.Some? {
          ChainAfterMe(previous.value, next.value);
        } else {
          SetNext(previous.value, None);
        }
      } else if next.Some? {
        SetPrevious(next.value, None);
      }
      SetPrevious(e, None);
      SetNext(e, None);
      SetEnabled(e, false);
      BypassedUnlinks(before, ByAddress(), s, k);
    }

    /** Links entry n, linked nowhere, behind entry e at position k of the address list s. */
    method LinkAfter(n: nat, e: nat, ghost s: seq<nat>, ghost k: nat)
      requires Sized() && Linked(ByAddress(), s) && k < |s| && s[k] == e && n < POOL_SIZE && n !in s
      requires forall i :: i in s || i == n ==> Shape()[i].id == i
      requires ByAddress()[n] == Link(None, None)
      modifies entries
      ensures ByClass() == old(ByClass()) && Shape() == old(Shape())
      ensures Linked(ByAddress(), With(s, k + 1, n))
    {
      ghost var before := ByAddress();
      assert before[e] == Link(Prior(s, k), After(s, k));
      assert e in s;
      var next := Resolve(entries[e].next);
      if next.Some? {
        assert before[s[k + 1]].prev == Some(e) && s[k + 1] in s;
        ChainAfterMe(n, next.value);
      }
      ChainAfterMe(e, n);
      SplicedLinks(before, ByAddress(), s, k + 1, n);
    }

    /** Links entry n, linked nowhere, before the first entry e of the address list s. */
    method LinkFirst(n: nat, e: nat, ghost s: seq<nat>)
      requires Sized() && Linked(ByAddress(), s) && s != [] && s[0] == e && n < POOL_SIZE && n !in s
      requires forall i :: i in s || i == n ==> Shape()[i].id == i
      requires ByAddress()[n] == Link(None, None)
      modifies entries
      ensures ByClass() == old(ByClass()) && Shape() == old(Shape())
      ensures Linked(ByAddress(), With(s, 0, n))
    {
      ghost var before := ByAddress();
      assert before[e] == Link(Prior(s, 0), After(s, 0));
      assert e in s;
      ChainAfterMe(n, e);
      SplicedLinks(before, ByAddress(), s, 0, n);
    }

    /** Takes entry e, at position k of the class list s, out of that list. */
    method UnchainFromFreelist(e: nat, ghost s: seq<nat>, ghost k: nat)
      requires Sized() && Linked(ByClass(), s) && k < |s| && s[k] == e
      modifies entries
      ensures ByAddress() == old(ByAddress()) && Shape() == old(Shape())
      ensures Bypassed(old(ByClass()), ByClass(), s, k) && ByClass()[e] == Link(None, None)
    {
      ghost var before := ByClass();
      assert before[e] == Link(Prior(s, k), After(s, k));
      assert k > 0 ==> before[s[k - 1]].next == Some(e);
      assert k + 1 < |s| ==> before[s[k + 1]].prev == Some(e);
      var previous := Resolve(entries[e].listPrev);
      if previous.Some? {
        SetListNext(previous.value, entries[e].listNext);
      }
      assert ByClass()[e] == before[e];
      var next := Resolve(entries[e].listNext);
      if next.Some? {
        SetListPrev(next.value, entries[e].listPrev);
      }
      SetListNext(e, None);
      SetListPrev(e, None);
    }
  }
}
