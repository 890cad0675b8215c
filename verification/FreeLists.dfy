/**
 The representation invariant of the allocator: one address-ordered list and twelve
 size-class lists threaded through the same pool.
 */
module FreeLists {
  import opened Wrappers
  import opened FreeRanges
  import opened LinkedSlots
  import opened PageOrders
  import opened MemoryPool
  import opened AllocatorSpec

  function RangeAt(shape: seq<Extent>, i: nat): Range {
    if i < |shape| then Range(shape[i].start, shape[i].end) else Range(0, 0)
  }

  function SizeAt(shape: seq<Extent>, i: nat): int {
    RangeAt(shape, i).Size()
  }

  /** The free ranges in the order of the address list. */
  function RangesOf(shape: seq<Extent>, order: seq<nat>): seq<Range> {
    seq(|order|, k requires 0 <= k < |order| => RangeAt(shape, order[k]))
  }

  /** The address list runs through exactly the enabled entries. */
  ghost predicate AddressList(links: seq<Link>, shape: seq<Extent>, order: seq<nat>) {
    && |links| == |shape| == POOL_SIZE
    && Linked(links, order)
    && (forall i {:trigger shape[i].enabled} :: 0 <= i < POOL_SIZE ==> (shape[i].enabled <==> i in order))
    && (forall i {:trigger shape[i].id} :: 0 <= i < POOL_SIZE && shape[i].enabled ==> shape[i].id == i)
  }

  // A class list is sorted by size and holds only sizes of its class; entries in `skip`,
  // whose range was just changed, still sit at their old place.

  ghost predicate InClass(shape: seq<Extent>, s: seq<nat>, c: nat, skip: set<nat>) {
    && (forall k :: 0 <= k < |s| && s[k] !in skip ==> PageOrder(SizeAt(shape, s[k])) == c)
    && (forall j, k :: 0 <= j < k < |s| && s[j] !in skip && s[k] !in skip ==> SizeAt(shape, s[j]) <= SizeAt(shape, s[k]))
  }

  ghost predicate Placed(shape: seq<Extent>, classes: seq<seq<nat>>, skip: set<nat>) {
    forall c {:trigger InClass(shape, classes[c], c, skip)} :: 0 <= c < |classes| ==> InClass(shape, classes[c], c, skip)
  }

  ghost predicate Tracks(order: seq<nat>, classes: seq<seq<nat>>) {
    forall i {:trigger InSome(classes, i)} :: i in order <==> InSome(classes, i)
  }

  ghost predicate Named(shape: seq<Extent>, classes: seq<seq<nat>>) {
    forall i: nat :: InSome(classes, i) ==> i < |shape| && shape[i].id == i
  }

  lemma SameNames(shape: seq<Extent>, classes: seq<seq<nat>>, classes': seq<seq<nat>>)
    requires Named(shape, classes)
    requires forall i: nat :: InSome(classes', i) ==> InSome(classes, i) || (i < |shape| && shape[i].id == i)
    ensures Named(shape, classes')
  {
  }

  /** The position at which an entry of this size enters a class list. */
  function Place(shape: seq<Extent>, s: seq<nat>, size: int): (k: nat)
    ensures k <= |s|
    ensures forall i :: 0 <= i < k ==> SizeAt(shape, s[i]) < size
    ensures k < |s| ==> size <= SizeAt(shape, s[k])
  {
    if s == [] || size <= SizeAt(shape, s[0]) then 0 else 1 + Place(shape, s[1..], size)
  }

  lemma PlaceUnique(shape: seq<Extent>, s: seq<nat>, size: int, k: nat)
    requires k <= |s|
    requires forall i :: 0 <= i < k ==> SizeAt(shape, s[i]) < size
    requires k < |s| ==> size <= SizeAt(shape, s[k])
    ensures k == Place(shape, s, size)
  {
  }

  /** The class lists without an entry that sits in the class of `oldSize`. */
  function Unchained(classes: seq<seq<nat>>, e: nat, oldSize: int): seq<seq<nat>>
    requires |classes| == NUM_OF_FREE_LIST
  {
    var c := PageOrder(oldSize);
    classes[c := Remove(classes[c], e)]
  }

  /** The class lists with an entry put into the class of its size. */
  function Chained(shape: seq<Extent>, classes: seq<seq<nat>>, e: nat): seq<seq<nat>>
    requires |classes| == NUM_OF_FREE_LIST
  {
    var size := SizeAt(shape, e);
    var c := PageOrder(size);
    classes[c := With(classes[c], Place(shape, classes[c], size), e)]
  }

  /** The class lists after `chain_entry_to_free_list`. */
  function Rechained(shape: seq<Extent>, classes: seq<seq<nat>>, e: nat, oldSize: Option<int>): seq<seq<nat>>
    requires |classes| == NUM_OF_FREE_LIST
  {
    match oldSize
    case None => Chained(shape, classes, e)
    case Some(was) =>
      if was == SizeAt(shape, e) then classes else Chained(shape, Unchained(classes, e, was), e)
  }

  lemma UnchainedPlaced(shape: seq<Extent>, classes: seq<seq<nat>>, e: nat, oldSize: int, skip: set<nat>)
    requires |classes| == NUM_OF_FREE_LIST && Separate(classes) && e in classes[PageOrder(oldSize)]
    requires Placed(shape, classes, skip)
    ensures Placed(shape, Unchained(classes, e, oldSize), skip - {e})
  {
    var c := PageOrder(oldSize);
    var s := classes[c];
    assert Distinct(s);
    assert InClass(shape, s, c, skip);
    WithoutInClass(shape, s, c, skip, IndexOf(s, e));
    var classes' := Unchained(classes, e, oldSize);
    forall d | 0 <= d < |classes|
      ensures InClass(shape, classes'[d], d, skip - {e})
    {
      if d != c {
        assert e !in classes[d];
        assert InClass(shape, classes[d], d, skip);
      }
    }
  }

  lemma UnchainedSeparate(classes: seq<seq<nat>>, x: nat, oldSize: int)
    requires |classes| == NUM_OF_FREE_LIST && Separate(classes) && x in classes[PageOrder(oldSize)]
    ensures Separate(Unchained(classes, x, oldSize))
    ensures forall y :: InSome(Unchained(classes, x, oldSize), y) <==> InSome(classes, y) && y != x
    ensures forall c, y :: 0 <= c < |classes| && y in classes[c] && y != x ==> y in Unchained(classes, x, oldSize)[c]
  {
    var c := PageOrder(oldSize);
    assert Distinct(classes[c]);
    RemoveMembers(classes[c], x);
    ApartShrink(classes, c, Remove(classes[c], x), x);
    forall d | 0 <= d < |classes|
      ensures Distinct(Unchained(classes, x, oldSize)[d])
    {
      assert Distinct(classes[d]);
    }
  }

  lemma WithoutInClass(shape: seq<Extent>, s: seq<nat>, c: nat, skip: set<nat>, i: nat)
    requires i < |s| && Distinct(s) && InClass(shape, s, c, skip)
    ensures InClass(shape, Without(s, i), c, skip - {s[i]})
  {
    var t := Without(s, i);
    assert forall k :: 0 <= k < |t| ==> t[k] == s[if k < i then k else k + 1];
    WithoutMembers(s, i);
    assert forall k :: 0 <= k < |t| ==> t[k] in t;
  }

  lemma WithInClass(shape: seq<Extent>, s: seq<nat>, c: nat, e: nat)
    requires InClass(shape, s, c, {}) && PageOrder(SizeAt(shape, e)) == c
    ensures InClass(shape, With(s, Place(shape, s, SizeAt(shape, e)), e), c, {})
  {
    var p := Place(shape, s, SizeAt(shape, e));
    var t := With(s, p, e);
    forall k | 0 <= k < |t|
      ensures PageOrder(SizeAt(shape, t[k])) == c
    {
      WithAt(s, p, e, k);
    }
    forall j, k | 0 <= j < k < |t|
      ensures SizeAt(shape, t[j]) <= SizeAt(shape, t[k])
    {
      WithAt(s, p, e, j);
      WithAt(s, p, e, k);
      assert j == p && p < k - 1 ==> SizeAt(shape, s[p]) <= SizeAt(shape, s[k - 1]);
    }
  }

  lemma WithAt(s: seq<nat>, p: nat, e: nat, k: nat)
    requires p <= |s| && k <= |s|
    ensures |With(s, p, e)| == |s| + 1
    ensures With(s, p, e)[k] == if k < p then s[k] else if k == p then e else s[k - 1]
  {
  }

  lemma ChainedPlaced(shape: seq<Extent>, classes: seq<seq<nat>>, e: nat)
    requires |classes| == NUM_OF_FREE_LIST && Placed(shape, classes, {})
    ensures Placed(shape, Chained(shape, classes, e), {})
  {
    var c := PageOrder(SizeAt(shape, e));
    assert InClass(shape, classes[c], c, {});
    WithInClass(shape, classes[c], c, e);
    forall d | 0 <= d < |classes|
      ensures InClass(shape, Chained(shape, classes, e)[d], d, {})
    {
      assert InClass(shape, classes[d], d, {});
    }
  }

  /** Changing ranges only of entries in `skip`, or of entries in no list, keeps the rest placed. */
  lemma ResizedPlaced(shape: seq<Extent>, shape': seq<Extent>, classes: seq<seq<nat>>, skip: set<nat>, more: set<nat>)
    requires Placed(shape, classes, skip) && |shape| == |shape'|
    requires forall i :: 0 <= i < |shape| && i !in more && InSome(classes, i) ==> RangeAt(shape', i) == RangeAt(shape, i)
    ensures Placed(shape', classes, skip + more)
  {
    forall c | 0 <= c < |classes|
      ensures InClass(shape', classes[c], c, skip + more)
    {
      var s := classes[c];
      assert InClass(shape, s, c, skip);
      forall k | 0 <= k < |s| && s[k] !in more
        ensures SizeAt(shape', s[k]) == SizeAt(shape, s[k])
      {
        assert s[k] in classes[c];
        assert InSome(classes, s[k]);
      }
    }
  }

  /** Chaining an entry at a new size and unchaining it again just removes it. */
  lemma ChainThenUnchain(shape: seq<Extent>, classes: seq<seq<nat>>, x: nat, oldSize: int)
    requires |classes| == NUM_OF_FREE_LIST && Separate(classes) && x in classes[PageOrder(oldSize)]
    requires SizeAt(shape, x) != oldSize
    ensures var chained := Rechained(shape, classes, x, Some(oldSize));
            && x in chained[PageOrder(SizeAt(shape, x))]
            && Unchained(chained, x, SizeAt(shape, x)) == Unchained(classes, x, oldSize)
  {
    var c := PageOrder(oldSize);
    assert Distinct(classes[c]);
    RemoveMembers(classes[c], x);
    assert x !in Unchained(classes, x, oldSize)[PageOrder(SizeAt(shape, x))];
    UnchainAgain(shape, Unchained(classes, x, oldSize), x);
  }

  lemma UnchainAgain(shape: seq<Extent>, base: seq<seq<nat>>, x: nat)
    requires |base| == NUM_OF_FREE_LIST && x !in base[PageOrder(SizeAt(shape, x))]
    ensures x in Chained(shape, base, x)[PageOrder(SizeAt(shape, x))]
    ensures Unchained(Chained(shape, base, x), x, SizeAt(shape, x)) == base
  {
    var d := PageOrder(SizeAt(shape, x));
    var place := Place(shape, base[d], SizeAt(shape, x));
    WithMembers(base[d], place, x);
    RemoveWith(base[d], place, x);
    assert base[d := base[d]] == base;
  }

  // ---------------------------------------------------------------- the invariant

  /** The whole representation invariant. */
  ghost predicate Consistent(byAddress: seq<Link>, byClass: seq<Link>, shape: seq<Extent>,
                             first: Option<nat>, heads: seq<Option<nat>>,
                             order: seq<nat>, classes: seq<seq<nat>>)
  {
    && AddressList(byAddress, shape, order)
    && first == Head(order)
    && Canonical(RangesOf(shape, order))
    && |classes| == NUM_OF_FREE_LIST
    && Family(byClass, heads, classes)
    && Placed(shape, classes, {})
    && Tracks(order, classes)
  }

  /** An entry of the address list sits in the class of its size. */
  lemma InOwnClass(shape: seq<Extent>, classes: seq<seq<nat>>, e: nat)
    requires |classes| == NUM_OF_FREE_LIST && Placed(shape, classes, {}) && InSome(classes, e)
    ensures e in classes[PageOrder(SizeAt(shape, e))]
  {
    var c :| 0 <= c < |classes| && e in classes[c];
    var k :| 0 <= k < |classes[c]| && classes[c][k] == e;
    assert InClass(shape, classes[c], c, {});
  }

  // How the range sequence follows the list updates.

  lemma RangesResize(shape: seq<Extent>, shape': seq<Extent>, order: seq<nat>, k: nat)
    requires Distinct(order) && k < |order|
    requires forall i :: i in order && i != order[k] ==> RangeAt(shape', i) == RangeAt(shape, i)
    ensures RangesOf(shape', order) == RangesOf(shape, order)[k := RangeAt(shape', order[k])]
  {
    forall i | 0 <= i < |order| && i != k
      ensures RangeAt(shape', order[i]) == RangeAt(shape, order[i])
    {
      assert order[i] in order;
    }
  }

  lemma RangesWithout(shape: seq<Extent>, order: seq<nat>, k: nat)
    requires k < |order|
    ensures RangesOf(shape, Without(order, k)) == RangesOf(shape, order)[..k] + RangesOf(shape, order)[k + 1..]
  {
  }

  lemma RangesWith(shape: seq<Extent>, order: seq<nat>, k: nat, x: nat)
    requires k <= |order|
    ensures RangesOf(shape, With(order, k, x)) == RangesOf(shape, order)[..k] + [RangeAt(shape, x)] + RangesOf(shape, order)[k..]
  {
  }

  lemma Members(links: seq<Link>, shape: seq<Extent>, order: seq<nat>, classes: seq<seq<nat>>)
    requires AddressList(links, shape, order) && Tracks(order, classes)
    ensures Named(shape, classes)
    ensures forall i: nat :: i in order ==> i < POOL_SIZE
  {
    forall i: nat | i in order
      ensures i < POOL_SIZE
    {
      var k :| 0 <= k < |order| && order[k] == i;
    }
  }

  /** Entry e has been resized and moved to the class of its new size. */
  lemma ResizeConsistent(byAddress: seq<Link>, byClass: seq<Link>, shape: seq<Extent>, shape': seq<Extent>,
                         order: seq<nat>, classes: seq<seq<nat>>, k: nat, start: int, end: int)
    requires |classes| == NUM_OF_FREE_LIST && k < |order|
    requires AddressList(byAddress, shape, order)
    requires Separate(classes)
    requires Placed(shape, classes, {}) && Tracks(order, classes)
    requires shape' == shape[order[k] := shape[order[k]].(start := start, end := end)]
    ensures AddressList(byAddress, shape', order)
    ensures RangesOf(shape', order) == RangesOf(shape, order)[k := Range(start, end)]
    ensures order[k] in classes[PageOrder(SizeAt(shape, order[k]))]
    ensures Placed(shape', Rechained(shape', classes, order[k], Some(SizeAt(shape, order[k]))), {})
  {
    var e := order[k];
    var oldSize := SizeAt(shape, e);
    assert e in order && InSome(classes, e);
    InOwnClass(shape, classes, e);
    LinkedDistinct(byAddress, order);
    RangesResize(shape, shape', order, k);
    if oldSize == SizeAt(shape', e) {
      SameSizePlaced(shape, shape', classes, {});
    } else {
      ResizedRechained(shape, shape', classes, e);
    }
  }

  /** The entry at position k has left its class, and then the address list. */
  lemma DeleteConsistent(byAddress: seq<Link>, shape: seq<Extent>, order: seq<nat>, classes: seq<seq<nat>>, k: nat)
    requires |classes| == NUM_OF_FREE_LIST && k < |order|
    requires AddressList(byAddress, shape, order) && Canonical(RangesOf(shape, order))
    requires Separate(classes)
    requires Placed(shape, classes, {}) && Tracks(order, classes)
    ensures order[k] in classes[PageOrder(SizeAt(shape, order[k]))]
    ensures var shape' := shape[order[k] := shape[order[k]].(enabled := false)];
            && (forall i :: i in Without(order, k) <==> i in order && i != order[k])
            && RangesOf(shape', Without(order, k)) == RangesOf(shape, order)[..k] + RangesOf(shape, order)[k + 1..]
            && Canonical(RangesOf(shape', Without(order, k)))
            && Placed(shape', Unchained(classes, order[k], SizeAt(shape, order[k])), {})
  {
    var e := order[k];
    var shape' := shape[e := shape[e].(enabled := false)];
    assert e in order && InSome(classes, e);
    InOwnClass(shape, classes, e);
    LinkedDistinct(byAddress, order);
    WithoutMembers(order, k);
    RangesWithout(shape', order, k);
    assert RangesOf(shape', order) == RangesOf(shape, order);
    SplitCanonical(RangesOf(shape, order), k);
    UnchainedPlaced(shape, classes, e, SizeAt(shape, e), {});
    assert {} - {e} == {};
    SameSizePlaced(shape, shape', Unchained(classes, e, SizeAt(shape, e)), {});
  }

  lemma SplitCanonical(rs: seq<Range>, k: nat)
    requires Canonical(rs) && k < |rs|
    ensures Canonical(rs[..k] + rs[k + 1..])
  {
    assert rs == rs[..k] + [rs[k]] + rs[k + 1..];
    Pieces(rs[..k], [rs[k]], rs[k + 1..]);
    CanonicalConcat(rs[..k], rs[k + 1..]);
  }

  /** Entry n joins the address list at position `pos`. */
  lemma JoinAddressList(shape: seq<Extent>, shape': seq<Extent>, order: seq<nat>, pos: nat, n: nat)
    requires |shape| == |shape'| == POOL_SIZE && pos <= |order| && n < POOL_SIZE
    requires forall i :: 0 <= i < POOL_SIZE ==> (shape[i].enabled <==> i in order)
    requires forall i :: 0 <= i < POOL_SIZE && shape[i].enabled ==> shape[i].id == i
    requires forall i :: 0 <= i < POOL_SIZE && i != n ==> shape'[i].enabled == shape[i].enabled && shape'[i].id == shape[i].id
    requires shape'[n].enabled && shape'[n].id == n
    ensures forall i :: 0 <= i < POOL_SIZE ==> (shape'[i].enabled <==> i in With(order, pos, n))
    ensures forall i :: 0 <= i < POOL_SIZE && shape'[i].enabled ==> shape'[i].id == i
    ensures forall i :: i in With(order, pos, n) <==> i in order || i == n
  {
    WithMembers(order, pos, n);
  }

  /** Entry e at position k keeps the head of its range, the new entry n gets the tail. */
  lemma SplitConsistent(byAddress: seq<Link>, shape: seq<Extent>, shape': seq<Extent>,
                        order: seq<nat>, classes: seq<seq<nat>>, k: nat, n: nat, start: int, size: int)
    requires |classes| == NUM_OF_FREE_LIST && k < |order| && n < POOL_SIZE && n !in order
    requires AddressList(byAddress, shape, order) && Canonical(RangesOf(shape, order))
    requires Separate(classes)
    requires Placed(shape, classes, {}) && Tracks(order, classes) && order[k] < POOL_SIZE
    requires shape[order[k]].start < start - 1 && 0 < size && start + size < shape[order[k]].end
    requires shape' == shape[n := Extent(start + size, shape[order[k]].end, true, n)][order[k] := shape[order[k]].(end := start - 1)]
    ensures order[k] in classes[PageOrder(SizeAt(shape, order[k]))]
    ensures Named(shape', classes)
    ensures forall i :: 0 <= i < POOL_SIZE ==> (shape'[i].enabled <==> i in With(order, k + 1, n))
    ensures forall i :: 0 <= i < POOL_SIZE && shape'[i].enabled ==> shape'[i].id == i
    ensures forall i :: i in With(order, k + 1, n) <==> i in order || i == n
    ensures RangesOf(shape', With(order, k + 1, n)) == Carve(RangesOf(shape, order), k, start, start + size - 1)
    ensures Canonical(RangesOf(shape', With(order, k + 1, n)))
    ensures Placed(shape', Chained(shape', Rechained(shape', classes, order[k], Some(SizeAt(shape, order[k]))), n), {})
  {
    var e := order[k];
    assert e in order;
    Members(byAddress, shape, order, classes);
    assert InSome(classes, e) && !InSome(classes, n);
    InOwnClass(shape, classes, e);
    JoinAddressList(shape, shape', order, k + 1, n);
    LinkedDistinct(byAddress, order);
    SplitRanges(shape, shape', order, k, n, start, size);
    ResizedRechained(shape, shape', classes, e);
    ChainedPlaced(shape', Rechained(shape', classes, e, Some(SizeAt(shape, e))), n);
  }

  /** Only entry e, and entries in no list, have changed range; moving e to its class restores the order. */
  lemma ResizedRechained(shape: seq<Extent>, shape': seq<Extent>, classes: seq<seq<nat>>, e: nat)
    requires |classes| == NUM_OF_FREE_LIST && |shape| == |shape'|
    requires Separate(classes)
    requires Placed(shape, classes, {}) && e in classes[PageOrder(SizeAt(shape, e))] && SizeAt(shape', e) != SizeAt(shape, e)
    requires forall i :: 0 <= i < |shape| && i != e && InSome(classes, i) ==> RangeAt(shape', i) == RangeAt(shape, i)
    ensures Placed(shape', Rechained(shape', classes, e, Some(SizeAt(shape, e))), {})
  {
    var none: set<nat> := {};
    ResizedPlaced(shape, shape', classes, none, {e});
    assert none + {e} == {e};
    UnchainedPlaced(shape', classes, e, SizeAt(shape, e), {e});
    assert {e} - {e} == none;
    ChainedPlaced(shape', Unchained(classes, e, SizeAt(shape, e)), e);
  }

  lemma SplitRanges(shape: seq<Extent>, shape': seq<Extent>, order: seq<nat>, k: nat, n: nat, start: int, size: int)
    requires |shape| == |shape'| == POOL_SIZE && Distinct(order) && k < |order| && n < POOL_SIZE && n !in order
    requires order[k] < POOL_SIZE && Canonical(RangesOf(shape, order))
    requires shape[order[k]].start < start - 1 && 0 < size && start + size < shape[order[k]].end
    requires shape' == shape[n := Extent(start + size, shape[order[k]].end, true, n)][order[k] := shape[order[k]].(end := start - 1)]
    ensures RangesOf(shape', With(order, k + 1, n)) == Carve(RangesOf(shape, order), k, start, start + size - 1)
    ensures Canonical(RangesOf(shape', With(order, k + 1, n)))
  {
    var rs := RangesOf(shape, order);
    RangesResize(shape, shape', order, k);
    RangesWith(shape', order, k + 1, n);
    CarveRemoves(rs, k, start, start + size - 1);
    assert rs[k] == Range(shape[order[k]].start, shape[order[k]].end);
    assert rs[k := Range(rs[k].first, start - 1)][..k + 1] == rs[..k] + [Range(rs[k].first, start - 1)];
  }

  /** A new entry n joins the address list at position `pos`; no other entry changes. */
  lemma InsertConsistent(byAddress: seq<Link>, shape: seq<Extent>, shape': seq<Extent>,
                         order: seq<nat>, classes: seq<seq<nat>>, pos: nat, n: nat, start: int, end: int)
    requires |classes| == NUM_OF_FREE_LIST && pos <= |order| && n < POOL_SIZE && n !in order
    requires AddressList(byAddress, shape, order)
    requires Placed(shape, classes, {}) && Tracks(order, classes)
    requires shape' == shape[n := Extent(start, end, true, n)]
    ensures Named(shape', classes) && !InSome(classes, n)
    ensures forall i :: 0 <= i < POOL_SIZE ==> (shape'[i].enabled <==> i in With(order, pos, n))
    ensures forall i :: 0 <= i < POOL_SIZE && shape'[i].enabled ==> shape'[i].id == i
    ensures forall i :: i in With(order, pos, n) <==> InSome(classes, i) || i == n
    ensures RangesOf(shape', With(order, pos, n)) == RangesOf(shape, order)[..pos] + [Range(start, end)] + RangesOf(shape, order)[pos..]
    ensures Placed(shape', Chained(shape', classes, n), {})
  {
    Members(byAddress, shape, order, classes);
    JoinAddressList(shape, shape', order, pos, n);
    assert !InSome(classes, n);
    forall i | 0 <= i < |order|
      ensures RangeAt(shape', order[i]) == RangeAt(shape, order[i])
    {
      assert order[i] in order;
    }
    assert RangesOf(shape', order) == RangesOf(shape, order);
    RangesWith(shape', order, pos, n);
    UnlistedPlaced(shape, shape', classes);
    assert Placed(shape', classes, {});
    ChainedPlaced(shape', classes, n);
  }

  /** Entry e swallows its successor x: x has left its class and the address list. */
  lemma MergeConsistent(byAddress: seq<Link>, shape: seq<Extent>, shape': seq<Extent>,
                        order: seq<nat>, classes: seq<seq<nat>>, k: nat, end: int, start: int)
    requires |classes| == NUM_OF_FREE_LIST && k + 1 < |order|
    requires AddressList(byAddress, shape, order) && order[k] < POOL_SIZE && order[k + 1] < POOL_SIZE
    requires Separate(classes)
    requires Placed(shape, classes, {}) && Tracks(order, classes)
    requires end > shape[order[k]].end
    requires shape' == shape[order[k] := shape[order[k]].(end := end)]
                            [order[k + 1] := shape[order[k + 1]].(start := start, enabled := false)]
    ensures var base := Unchained(classes, order[k + 1], SizeAt(shape, order[k + 1]));
            && order[k] in base[PageOrder(SizeAt(shape, order[k]))]
            && Placed(shape', Rechained(shape', base, order[k], Some(SizeAt(shape, order[k]))), {})
    ensures order[k + 1] in classes[PageOrder(SizeAt(shape, order[k + 1]))]
    ensures RangesOf(shape', Without(order, k + 1))
         == RangesOf(shape, order)[..k] + [Range(shape[order[k]].start, end)] + RangesOf(shape, order)[k + 2..]
  {
    var e, x := order[k], order[k + 1];
    assert e in order && x in order;
    InOwnClass(shape, classes, e);
    InOwnClass(shape, classes, x);
    LinkedDistinct(byAddress, order);
    MergeRanges(shape, shape', order, k, end);
    var base := Unchained(classes, x, SizeAt(shape, x));
    UnchainedPlaced(shape, classes, x, SizeAt(shape, x), {});
    assert {} - {x} == {};
    UnchainedSeparate(classes, x, SizeAt(shape, x));
    ResizedRechained(shape, shape', base, e);
  }

  lemma MergeRanges(shape: seq<Extent>, shape': seq<Extent>, order: seq<nat>, k: nat, end: int)
    requires k + 1 < |order| && Distinct(order) && order[k] < |shape| && |shape'| == |shape|
    requires forall i :: 0 <= i < |shape| && i != order[k] && i != order[k + 1] ==> shape'[i] == shape[i]
    requires RangeAt(shape', order[k]) == Range(shape[order[k]].start, end)
    ensures RangesOf(shape', Without(order, k + 1))
         == RangesOf(shape, order)[..k] + [Range(shape[order[k]].start, end)] + RangesOf(shape, order)[k + 2..]
  {
    RangesWithout(shape', order, k + 1);
  }

  lemma UnlistedPlaced(shape: seq<Extent>, shape': seq<Extent>, classes: seq<seq<nat>>)
    requires Placed(shape, classes, {}) && |shape| == |shape'|
    requires forall i :: 0 <= i < |shape| && InSome(classes, i) ==> RangeAt(shape', i) == RangeAt(shape, i)
    ensures Placed(shape', classes, {})
  {
    var none: set<nat> := {};
    ResizedPlaced(shape, shape', classes, none, none);
    assert none + none == none;
  }

  lemma SameSizePlaced(shape: seq<Extent>, shape': seq<Extent>, classes: seq<seq<nat>>, skip: set<nat>)
    requires Placed(shape, classes, skip)
    requires forall i :: SizeAt(shape', i) == SizeAt(shape, i)
    ensures Placed(shape', classes, skip)
  {
    forall c | 0 <= c < |classes|
      ensures InClass(shape', classes[c], c, skip)
    {
      assert InClass(shape, classes[c], c, skip);
    }
  }

  /** The list is as long as the pool exactly when no entry is disabled. */
  lemma FullList(shape: seq<Extent>, order: seq<nat>)
    requires Distinct(order)
    requires forall i :: i in order ==> i < |shape|
    requires forall i :: 0 <= i < |shape| ==> (shape[i].enabled <==> i in order)
    ensures |order| <= |shape|
    ensures |order| == |shape| <==> forall i :: 0 <= i < |shape| ==> shape[i].enabled
  {
    var slots := set i: nat | i in order;
    DistinctCount(order, slots);
    SubsetCount(slots, UpTo(|shape|));
    if forall i :: 0 <= i < |shape| ==> shape[i].enabled {
      assert slots == UpTo(|shape|);
    }
  }

  lemma {:induction false} DistinctCount(s: seq<nat>, slots: set<nat>)
    requires Distinct(s) && forall i :: i in slots <==> i in s
    ensures |slots| == |s|
  {
    if s != [] {
      var last := s[|s| - 1];
      var rest := s[..|s| - 1];
      forall i
        ensures i in slots - {last} <==> i in rest
      {
        if i in slots - {last} {
          var k :| 0 <= k < |s| && s[k] == i;
          assert rest[k] == i;
        }
        if i in rest {
          var k :| 0 <= k < |rest| && rest[k] == i;
          assert s[k] == i;
        }
      }
      DistinctCount(rest, slots - {last});
    }
  }

  ghost function UpTo(n: nat): (all: set<nat>)
    ensures |all| == n && forall i: nat :: i in all <==> i < n
  {
    if n == 0 then {} else UpTo(n - 1) + {n - 1}
  }

  lemma SubsetCount(a: set<nat>, b: set<nat>)
    requires a <= b
    ensures |a| <= |b|
    ensures |a| == |b| ==> a == b
  {
    assert |b - a| == |b| - |a|;
  }

  // ---------------------------------------------------------------- best fit

  /** No entry of the classes lo .. hi - 1 fits. */
  ghost predicate NoneFits(shape: seq<Extent>, classes: seq<seq<nat>>, lo: nat, hi: nat, n: int, alignOrder: nat) {
    forall c, j :: lo <= c < hi && c < |classes| && 0 <= j < |classes[c]| ==> !Fits(RangeAt(shape, classes[c][j]), n, alignOrder)
  }

  /** Classes below the class of the request hold only entries that are too small. */
  lemma FitHasClass(shape: seq<Extent>, order: seq<nat>, classes: seq<seq<nat>>, k: nat, n: int, alignOrder: nat)
    returns (c: nat, j: nat)
    requires |classes| == NUM_OF_FREE_LIST && Placed(shape, classes, {}) && Tracks(order, classes)
    requires k < |order| && Fits(RangesOf(shape, order)[k], n, alignOrder)
    ensures PageOrder(n) <= c < |classes| && j < |classes[c]| && classes[c][j] == order[k]
    ensures c == PageOrder(SizeAt(shape, order[k]))
  {
    var e := order[k];
    assert e in order && InSome(classes, e);
    InOwnClass(shape, classes, e);
    c := PageOrder(SizeAt(shape, e));
    j := IndexOf(classes[c], e);
    PageOrderMonotone(n, SizeAt(shape, e));
  }

  lemma NoFitAnywhere(shape: seq<Extent>, order: seq<nat>, classes: seq<seq<nat>>, n: int, alignOrder: nat)
    requires |classes| == NUM_OF_FREE_LIST && Placed(shape, classes, {}) && Tracks(order, classes)
    requires NoneFits(shape, classes, PageOrder(n), NUM_OF_FREE_LIST, n, alignOrder)
    ensures forall k :: 0 <= k < |order| ==> !Fits(RangesOf(shape, order)[k], n, alignOrder)
  {
    forall k | 0 <= k < |order|
      ensures !Fits(RangesOf(shape, order)[k], n, alignOrder)
    {
      if Fits(RangesOf(shape, order)[k], n, alignOrder) {
        var c, j := FitHasClass(shape, order, classes, k, n, alignOrder);
        NoFitAt(shape, order, classes, n, alignOrder, k, c, j);
      }
    }
  }

  lemma NoFitAt(shape: seq<Extent>, order: seq<nat>, classes: seq<seq<nat>>, n: int, alignOrder: nat, k: nat, c: nat, j: nat)
    requires NoneFits(shape, classes, PageOrder(n), NUM_OF_FREE_LIST, n, alignOrder)
    requires PageOrder(n) <= c < |classes| == NUM_OF_FREE_LIST && j < |classes[c]| && k < |order| && classes[c][j] == order[k]
    ensures !Fits(RangesOf(shape, order)[k], n, alignOrder)
  {
    assert RangesOf(shape, order)[k] == RangeAt(shape, classes[c][j]);
  }

  /** Entry j of class c is the first one in class order that fits. */
  ghost predicate FirstFit(shape: seq<Extent>, classes: seq<seq<nat>>, c: nat, j: nat, n: int, alignOrder: nat) {
    && PageOrder(n) <= c < |classes| && j < |classes[c]| && Fits(RangeAt(shape, classes[c][j]), n, alignOrder)
    && NoneFits(shape, classes, PageOrder(n), c, n, alignOrder)
    && forall i :: 0 <= i < j ==> !Fits(RangeAt(shape, classes[c][i]), n, alignOrder)
  }

  /** The first fit in class order is a best fit. */
  lemma FirstFitIsChosen(shape: seq<Extent>, order: seq<nat>, classes: seq<seq<nat>>, c: nat, j: nat, n: int, alignOrder: nat)
    returns (k: nat)
    requires |classes| == NUM_OF_FREE_LIST && Placed(shape, classes, {}) && Tracks(order, classes)
    requires FirstFit(shape, classes, c, j, n, alignOrder)
    ensures k < |order| && order[k] == classes[c][j]
    ensures Chosen(RangesOf(shape, order), k, n, alignOrder)
  {
    var e := classes[c][j];
    assert e in classes[c] && InSome(classes, e);
    k := IndexOf(order, e);
    forall i | 0 <= i < |order| && Fits(RangesOf(shape, order)[i], n, alignOrder)
      ensures SizeAt(shape, e) <= RangesOf(shape, order)[i].Size()
    {
      NoneIsSmaller(shape, order, classes, c, j, n, alignOrder, i);
    }
  }

  lemma NoneIsSmaller(shape: seq<Extent>, order: seq<nat>, classes: seq<seq<nat>>, c: nat, j: nat, n: int, alignOrder: nat, i: nat)
    requires |classes| == NUM_OF_FREE_LIST && Placed(shape, classes, {}) && Tracks(order, classes)
    requires c < |classes| && j < |classes[c]|
    requires NoneFits(shape, classes, PageOrder(n), c, n, alignOrder)
    requires forall m :: 0 <= m < j ==> !Fits(RangeAt(shape, classes[c][m]), n, alignOrder)
    requires i < |order| && Fits(RangesOf(shape, order)[i], n, alignOrder)
    ensures SizeAt(shape, classes[c][j]) <= RangesOf(shape, order)[i].Size()
  {
    var d, m := FitHasClass(shape, order, classes, i, n, alignOrder);
    assert RangesOf(shape, order)[i] == RangeAt(shape, classes[d][m]);
    assert InClass(shape, classes[c], c, {});
    if d > c && SizeAt(shape, classes[d][m]) < SizeAt(shape, classes[c][j]) {
      PageOrderMonotone(SizeAt(shape, classes[d][m]), SizeAt(shape, classes[c][j]));
    }
  }

  lemma MergedForm(shape: seq<Extent>, order: seq<nat>, k: nat, last: int)
    requires k + 1 < |order| && order[k] < |shape| && order[k + 1] < |shape| && shape[order[k + 1]].end == last
    ensures Merged(RangesOf(shape, order), k)
         == RangesOf(shape, order)[..k] + [Range(shape[order[k]].start, last)] + RangesOf(shape, order)[k + 2..]
  {
  }
}
