/** The two rings of a queue as the device sees them, and what one notification does to them. */
module VirtioRings {
  import opened VirtioQueue
  import opened VirtioRequests

  /** The device's counters and the rings in guest memory. */
  datatype Rings = Rings(size: nat, lastAvailId: nat, usedId: nat, availIdx: nat, availRing: seq<nat>, usedIdx: nat, usedRing: seq<UsedElement>) {
    ghost predicate Valid() {
      && SizeOk(size)
      && lastAvailId < INDEX_LIMIT && usedId < INDEX_LIMIT && availIdx < INDEX_LIMIT && usedIdx < INDEX_LIMIT
      && |availRing| == size && |usedRing| == size
      && forall i :: 0 <= i < size ==> availRing[i] < INDEX_LIMIT
    }
  }

  /** The slots the driver has filled and the device has not taken. */
  function Pending(r: Rings): nat {
    (r.availIdx - r.lastAvailId) % INDEX_LIMIT
  }

  /** The i-th head the device will take. */
  function HeadAt(r: Rings, i: nat): (head: nat)
    requires r.Valid()
    ensures head < INDEX_LIMIT
  {
    r.availRing[Slot((r.lastAvailId + i) % INDEX_LIMIT, r.size)]
  }

  /** The ring after the first k elements have been stored one after the other. */
  function Stored(ring: seq<UsedElement>, usedId: nat, elements: seq<UsedElement>, k: nat): (r: seq<UsedElement>)
    requires |ring| > 0 && k <= |elements|
    ensures |r| == |ring|
  {
    if k == 0 then ring
    else Stored(ring, usedId, elements, k - 1)[Slot((usedId + (k - 1)) % INDEX_LIMIT, |ring|) := elements[k - 1]]
  }

  /** The rings after `taken` slots have been taken and some elements published. */
  function After(r: Rings, taken: nat, elements: seq<UsedElement>): Rings
    requires r.Valid()
  {
    r.(lastAvailId := (r.lastAvailId + taken) % INDEX_LIMIT,
       usedId := (r.usedId + |elements|) % INDEX_LIMIT,
       usedIdx := if elements == [] then r.usedIdx else (r.usedId + |elements|) % INDEX_LIMIT,
       usedRing := Stored(r.usedRing, r.usedId, elements, |elements|))
  }

  /** As many elements as the ring has slots: each stays in its own slot, and the other slots are untouched. */
  lemma {:induction false} StoredAt(ring: seq<UsedElement>, count: nat, elements: seq<UsedElement>, k: nat, i: nat)
    requires SizeOk(|ring|) && k <= |elements| <= |ring| && i < |ring|
    ensures Stored(ring, count % INDEX_LIMIT, elements, k)[(count + i) % |ring|] == if i < k then elements[i] else ring[(count + i) % |ring|]
    decreases k
  {
    if k > 0 {
      StoredAt(ring, count, elements, k - 1, i);
      WrapSum(count, k - 1, INDEX_LIMIT);
      SlotOfCount(count + (k - 1), |ring|);
      if i < k - 1 {
        SlotsDiffer(count + i, count + (k - 1), |ring|);
      } else if i > k - 1 {
        SlotsDiffer(count + (k - 1), count + i, |ring|);
      }
    }
  }

  // ---------------------------------------------------------------- one notification

  /** The requests that are served before a malformed one: all of their chains end. */
  ghost predicate Served(table: seq<Desc>, r: Rings, k: nat, world: World)
    requires TableOk(table) && r.Valid()
  {
    forall i: nat {:trigger HeadAt(r, i)} :: i < k ==> !Malformed(table, HeadAt(r, i), world) && Acyclic(table, table[HeadAt(r, i)].next)
  }

  /** The chains of all pending requests end; a malformed request may have any. */
  ghost predicate PendingAcyclic(table: seq<Desc>, r: Rings, world: World)
    requires TableOk(table) && r.Valid()
  {
    forall i: nat {:trigger HeadAt(r, i)} :: i < Pending(r) && !Malformed(table, HeadAt(r, i), world) ==> Acyclic(table, table[HeadAt(r, i)].next)
  }

  /** What serving some requests has done, and the elements to publish for them. */
  datatype Work = Work(effects: seq<Effect>, elements: seq<UsedElement>)

  ghost function WorkOf(table: seq<Desc>, r: Rings, k: nat, world: World, effects: seq<Effect>): (w: Work)
    requires TableOk(table) && r.Valid() && Served(table, r, k, world)
    ensures |w.elements| == k
    decreases k
  {
    if k == 0 then Work(effects, [])
    else
      var w := WorkOf(table, r, k - 1, world, effects);
      var head := HeadAt(r, k - 1);
      var c := Serve(table, head, world, |w.effects|);
      Work(w.effects + c.effects, w.elements + [UsedElement(head, c.length)])
  }

  /** Element i is published for the i-th head that was available. */
  lemma {:induction false} ElementsMatchHeads(table: seq<Desc>, r: Rings, k: nat, world: World, effects: seq<Effect>)
    requires TableOk(table) && r.Valid() && Served(table, r, k, world)
    ensures forall i: nat :: i < k ==> WorkOf(table, r, k, world, effects).elements[i].id == HeadAt(r, i)
    decreases k
  {
    if k > 0 {
      ElementsMatchHeads(table, r, k - 1, world, effects);
    }
  }

  /** A notification serves k requests, and stops at the first malformed one if there is one. */
  ghost predicate Notified(table: seq<Desc>, r: Rings, r': Rings, k: nat, world: World, effects: seq<Effect>, effects': seq<Effect>)
    requires TableOk(table) && r.Valid()
  {
    && k <= Pending(r) && Served(table, r, k, world)
    && (k < Pending(r) ==> Malformed(table, HeadAt(r, k), world))
    && var w := WorkOf(table, r, k, world, effects);
       effects' == w.effects && r' == After(r, if k < Pending(r) then k + 1 else k, w.elements)
  }

  /** Taken all pending slots, the device has caught up with the driver; and it has published an element for
      each exactly if no pending request is malformed. */
  lemma CaughtUp(table: seq<Desc>, r: Rings, r': Rings, k: nat, world: World, effects: seq<Effect>, effects': seq<Effect>)
    requires TableOk(table) && r.Valid() && Notified(table, r, r', k, world, effects, effects')
    requires r.usedId == r.lastAvailId == r.usedIdx
    ensures r'.usedIdx == r'.usedId
    ensures k == Pending(r) ==> r'.usedId == r'.lastAvailId == r'.availIdx
    ensures (r'.usedId == r'.lastAvailId <==> k == Pending(r))
    ensures (k == Pending(r) <==> forall i: nat {:trigger HeadAt(r, i)} :: i < Pending(r) ==> !Malformed(table, HeadAt(r, i), world))
  {
    PendingIsDistance(r, Pending(r));
    if k < Pending(r) {
      assert Malformed(table, HeadAt(r, k), world);
      WrapSum(r.lastAvailId + k, 1, INDEX_LIMIT);
      IndicesDiffer((r.lastAvailId + k) % INDEX_LIMIT);
    }
  }

  lemma PendingIsDistance(r: Rings, i: nat)
    requires r.Valid() && i <= Pending(r)
    ensures (r.lastAvailId + i) % INDEX_LIMIT == r.availIdx <==> i == Pending(r)
  {
  }

  lemma IndicesDiffer(index: nat)
    requires index < INDEX_LIMIT
    ensures (index + 1) % INDEX_LIMIT != index
  {
  }

  // ---------------------------------------------------------------- step by step

  /** One slot is taken. */
  function Take(r: Rings): Rings {
    r.(lastAvailId := NextIndex(r.lastAvailId))
  }

  /** One element is stored and made visible. */
  function Publish(r: Rings, e: UsedElement): Rings
    requires r.Valid()
  {
    r.(usedRing := r.usedRing[Slot(r.usedId, r.size) := e], usedId := NextIndex(r.usedId), usedIdx := NextIndex(r.usedId))
  }

  lemma AfterNothing(r: Rings)
    requires r.Valid()
    ensures After(r, 0, []) == r
  {
  }

  /** What is pending after k slots have been taken, and which head comes next. */
  lemma TakenHead(r: Rings, k: nat, elements: seq<UsedElement>)
    requires r.Valid() && k <= Pending(r)
    ensures After(r, k, elements).Valid()
    ensures Pending(After(r, k, elements)) == Pending(r) - k
    ensures HeadAt(r, k) == r.availRing[Slot(After(r, k, elements).lastAvailId, r.size)]
  {
    PendingDrops(r.availIdx, r.lastAvailId, k);
  }

  lemma PendingDrops(idx: nat, last: nat, k: nat)
    requires idx < INDEX_LIMIT && last < INDEX_LIMIT && k <= (idx - last) % INDEX_LIMIT
    ensures (idx - (last + k) % INDEX_LIMIT) % INDEX_LIMIT == (idx - last) % INDEX_LIMIT - k
  {
    assert (idx - last) % INDEX_LIMIT == if last <= idx then idx - last else idx - last + INDEX_LIMIT;
    assert (last + k) % INDEX_LIMIT == if last + k < INDEX_LIMIT then last + k else last + k - INDEX_LIMIT;
  }

  lemma TakeAfter(r: Rings, k: nat, elements: seq<UsedElement>)
    requires r.Valid()
    ensures Take(After(r, k, elements)) == After(r, k + 1, elements)
  {
    WrapSum(r.lastAvailId + k, 1, INDEX_LIMIT);
  }

  lemma PublishAfter(r: Rings, k: nat, elements: seq<UsedElement>, e: UsedElement)
    requires r.Valid()
    ensures After(r, k, elements).Valid() && Publish(After(r, k, elements), e) == After(r, k, elements + [e])
  {
    WrapSum(r.usedId + |elements|, 1, INDEX_LIMIT);
    StoredPrefix(r.usedRing, r.usedId, elements, e, |elements|);
  }

  lemma {:induction false} StoredPrefix(ring: seq<UsedElement>, usedId: nat, elements: seq<UsedElement>, e: UsedElement, k: nat)
    requires |ring| > 0 && k <= |elements|
    ensures Stored(ring, usedId, elements + [e], k) == Stored(ring, usedId, elements, k)
    decreases k
  {
    if k > 0 {
      StoredPrefix(ring, usedId, elements, e, k - 1);
    }
  }

  /** k requests of a notification have been served. */
  ghost predicate InService(table: seq<Desc>, r: Rings, now: Rings, k: nat, world: World, effects: seq<Effect>, effects': seq<Effect>)
    requires TableOk(table) && r.Valid()
  {
    && k <= Pending(r) && Served(table, r, k, world)
    && effects' == WorkOf(table, r, k, world, effects).effects
    && now == After(r, k, WorkOf(table, r, k, world, effects).elements)
  }

  lemma ServiceStarts(table: seq<Desc>, r: Rings, world: World, effects: seq<Effect>)
    requires TableOk(table) && r.Valid()
    ensures InService(table, r, r, 0, world, effects, effects)
  {
    AfterNothing(r);
  }

  /** The head that is served next. */
  lemma ServiceHead(table: seq<Desc>, r: Rings, now: Rings, k: nat, world: World, effects: seq<Effect>, effects': seq<Effect>)
    requires TableOk(table) && r.Valid() && InService(table, r, now, k, world, effects, effects')
    ensures now.Valid() && now.availRing == r.availRing && now.size == r.size && Pending(now) == Pending(r) - k
    ensures HeadAt(r, k) == r.availRing[Slot(now.lastAvailId, r.size)]
  {
    TakenHead(r, k, WorkOf(table, r, k, world, effects).elements);
  }

  lemma ServiceNext(table: seq<Desc>, r: Rings, now: Rings, k: nat, world: World, effects: seq<Effect>, effects': seq<Effect>)
    requires TableOk(table) && r.Valid() && InService(table, r, now, k, world, effects, effects') && k < Pending(r)
    requires !Malformed(table, HeadAt(r, k), world) && Acyclic(table, table[HeadAt(r, k)].next)
    ensures var c := Serve(table, HeadAt(r, k), world, |effects'|);
            && Take(now).Valid()
            && InService(table, r, Publish(Take(now), UsedElement(HeadAt(r, k), c.length)), k + 1, world, effects, effects' + c.effects)
  {
    var elements := WorkOf(table, r, k, world, effects).elements;
    var c := Serve(table, HeadAt(r, k), world, |effects'|);
    TakeAfter(r, k, elements);
    PublishAfter(r, k + 1, elements, UsedElement(HeadAt(r, k), c.length));
  }

  lemma ServiceStops(table: seq<Desc>, r: Rings, now: Rings, k: nat, world: World, effects: seq<Effect>, effects': seq<Effect>)
    requires TableOk(table) && r.Valid() && InService(table, r, now, k, world, effects, effects') && k < Pending(r)
    requires Malformed(table, HeadAt(r, k), world)
    ensures Notified(table, r, Take(now), k, world, effects, effects')
  {
    TakeAfter(r, k, WorkOf(table, r, k, world, effects).elements);
  }
}
