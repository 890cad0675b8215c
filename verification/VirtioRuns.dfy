/** A driver and the device over a whole session: the free-running indices may wrap any number of times. */
module VirtioRuns {
  import opened Arithmetic
  import opened VirtioQueue
  import opened VirtioRequests
  import opened VirtioRings

  /** The rings; every head that was ever made available, and how many the device has taken; which of those it has
      answered and which it has rejected, by their number; and every element that was ever published. */
  datatype Session = Session(rings: Rings, heads: seq<nat>, taken: nat, answered: seq<nat>, rejected: seq<nat>, published: seq<UsedElement>)

  ghost predicate RingHolds<T>(ring: seq<T>, history: seq<T>) {
    |ring| > 0 && forall i: nat {:trigger history[i]} :: i < |history| < i + |ring| + 1 ==> ring[i % |ring|] == history[i]
  }

  /** The rings hold the latest part of the histories, and the indices count them modulo 2^16. */
  ghost predicate Counted(s: Session) {
    var r := s.rings;
    && r.Valid()
    && s.taken <= |s.heads| <= s.taken + r.size
    && r.lastAvailId == s.taken % INDEX_LIMIT && r.usedId == r.usedIdx == |s.published| % INDEX_LIMIT
    && r.availIdx == |s.heads| % INDEX_LIMIT
    && RingHolds(r.availRing, s.heads)
    && RingHolds(r.usedRing, s.published)
    && (forall i :: 0 <= i < |s.heads| ==> s.heads[i] < INDEX_LIMIT)
  }

  /** Every head that was taken has been answered or rejected, and not both; the heads are answered in their order, and
      element i of the used history is the i-th answer. */
  ghost predicate Answers(s: Session) {
    && |s.answered| == |s.published|
    && (forall i, j :: 0 <= i < j < |s.answered| ==> s.answered[i] < s.answered[j])
    && (forall i :: 0 <= i < |s.answered| ==> s.answered[i] < s.taken <= |s.heads| && s.published[i].id == s.heads[s.answered[i]])
    && (forall p: nat :: p < s.taken ==> (p in s.answered <==> p !in s.rejected))
    && (forall p: nat :: p in s.rejected ==> p < s.taken)
  }

  ghost predicate Coherent(s: Session) {
    Counted(s) && Answers(s)
  }

  /** The driver makes one more head available; it does not overrun the device. */
  ghost predicate Offer(s: Session, head: nat, s': Session) {
    && s.rings.Valid() && head < INDEX_LIMIT && |s.heads| < s.taken + s.rings.size
    && s' == s.(rings := s.rings.(availRing := s.rings.availRing[Slot(s.rings.availIdx, s.rings.size) := head], availIdx := NextIndex(s.rings.availIdx)),
                heads := s.heads + [head])
  }

  /** k numbers from `first` on. */
  function Numbers(first: nat, k: nat): (r: seq<nat>)
    ensures |r| == k && forall i :: 0 <= i < k ==> r[i] == first + i
  {
    seq(k, i requires 0 <= i < k => first + i)
  }

  /** The driver notifies the device: k requests are served, and the next one, if it is malformed, is rejected. */
  ghost predicate Notify(s: Session, table: seq<Desc>, k: nat, world: World, effects: seq<Effect>, effects': seq<Effect>, s': Session) {
    && TableOk(table) && s.rings.Valid()
    && Notified(table, s.rings, s'.rings, k, world, effects, effects')
    && s'.heads == s.heads
    && s'.taken == (if k < Pending(s.rings) then s.taken + k + 1 else s.taken + k)
    && s'.answered == s.answered + Numbers(s.taken, k)
    && s'.rejected == (if k < Pending(s.rings) then s.rejected + [s.taken + k] else s.rejected)
    && s'.published == s.published + WorkOf(table, s.rings, k, world, effects).elements
  }

  lemma RingHoldsOne<T>(ring: seq<T>, history: seq<T>, x: T)
    requires RingHolds(ring, history)
    ensures RingHolds(ring[|history| % |ring| := x], history + [x])
  {
    var ring', history' := ring[|history| % |ring| := x], history + [x];
    forall i: nat | i < |history'| < i + |ring'| + 1
      ensures ring'[i % |ring'|] == history'[i]
    {
      if i < |history| {
        SlotsDiffer(i, |history|, |ring|);
        assert history'[i] == history[i];
      }
    }
  }

  lemma OfferKeepsCoherent(s: Session, head: nat, s': Session)
    requires Coherent(s) && Offer(s, head, s')
    ensures Coherent(s')
  {
    SlotOfCount(|s.heads|, s.rings.size);
    NextOfCount(|s.heads|);
    RingHoldsOne(s.rings.availRing, s.heads, head);
  }

  /** The number of pending slots is the number of heads that have not been taken. */
  lemma PendingIsBacklog(s: Session)
    requires Counted(s)
    ensures Pending(s.rings) == |s.heads| - s.taken
  {
    var a, b := |s.heads|, s.taken;
    var p, q := a / INDEX_LIMIT, b / INDEX_LIMIT;
    assert a == p * INDEX_LIMIT + a % INDEX_LIMIT && b == q * INDEX_LIMIT + b % INDEX_LIMIT;
    ModUnique(a % INDEX_LIMIT - b % INDEX_LIMIT, q - p, a - b, INDEX_LIMIT);
  }

  /** The i-th slot the device will take holds the i-th head that has not been taken. */
  lemma PendingHeads(s: Session, i: nat)
    requires Counted(s) && i < Pending(s.rings)
    ensures s.taken + i < |s.heads| && HeadAt(s.rings, i) == s.heads[s.taken + i]
  {
    PendingIsBacklog(s);
    WrapSum(s.taken, i, INDEX_LIMIT);
    SlotOfCount(s.taken + i, s.rings.size);
  }

  lemma {:induction false} StoredHolds(ring: seq<UsedElement>, history: seq<UsedElement>, elements: seq<UsedElement>, k: nat)
    requires SizeOk(|ring|) && RingHolds(ring, history) && k <= |elements|
    ensures RingHolds(Stored(ring, |history| % INDEX_LIMIT, elements, k), history + elements[..k])
    decreases k
  {
    if k == 0 {
      assert history + elements[..0] == history;
    } else {
      StoredHolds(ring, history, elements, k - 1);
      WrapSum(|history|, k - 1, INDEX_LIMIT);
      SlotOfCount(|history| + (k - 1), |ring|);
      RingHoldsOne(Stored(ring, |history| % INDEX_LIMIT, elements, k - 1), history + elements[..k - 1], elements[k - 1]);
      assert history + elements[..k - 1] + [elements[k - 1]] == history + elements[..k];
    }
  }

  /** The rings and indices after some heads have been taken and some elements published. */
  lemma AfterKeepsCounted(s: Session, taken: nat, elements: seq<UsedElement>, s': Session)
    requires Counted(s) && s.taken + taken <= |s.heads| && s'.rings == After(s.rings, taken, elements)
    requires s'.heads == s.heads && s'.taken == s.taken + taken && s'.published == s.published + elements
    ensures Counted(s')
  {
    WrapSum(s.taken, taken, INDEX_LIMIT);
    WrapSum(|s.published|, |elements|, INDEX_LIMIT);
    StoredHolds(s.rings.usedRing, s.published, elements, |elements|);
    assert elements[..|elements|] == elements;
  }

  lemma NotifyKeepsCounted(s: Session, table: seq<Desc>, k: nat, world: World, effects: seq<Effect>, effects': seq<Effect>, s': Session)
    requires Counted(s) && Notify(s, table, k, world, effects, effects', s')
    ensures Counted(s')
  {
    PendingIsBacklog(s);
    AfterKeepsCounted(s, if k < Pending(s.rings) then k + 1 else k, WorkOf(table, s.rings, k, world, effects).elements, s');
  }

  /** Either nothing is rejected, and all heads are taken, or there is one more rejected head. */
  lemma RejectedGrows(s: Session, table: seq<Desc>, k: nat, world: World, effects: seq<Effect>, effects': seq<Effect>, s': Session)
    requires Counted(s) && Notify(s, table, k, world, effects, effects', s')
    ensures (k == Pending(s.rings) <==> s'.rejected == s.rejected) && (k == Pending(s.rings) ==> s'.taken == |s'.heads|)
  {
    PendingIsBacklog(s);
    if k < Pending(s.rings) {
      assert |s'.rejected| == |s.rejected| + 1;
    }
  }

  /** The y-th element published in a notification. */
  lemma NewAnswer(s: Session, table: seq<Desc>, k: nat, world: World, effects: seq<Effect>, y: nat)
    requires Counted(s) && TableOk(table) && Served(table, s.rings, k, world) && y < k <= Pending(s.rings)
    ensures s.taken + y < |s.heads| && WorkOf(table, s.rings, k, world, effects).elements[y].id == s.heads[s.taken + y]
  {
    ElementsMatchHeads(table, s.rings, k, world, effects);
    PendingHeads(s, y);
  }

  /** Answers, and new ones behind them. */
  lemma MoreAnswers(s: Session, k: nat, elements: seq<UsedElement>, s': Session)
    requires Answers(s) && |elements| == k && s'.heads == s.heads && s.taken + k <= s'.taken <= |s.heads| && s'.taken <= s.taken + k + 1
    requires s'.answered == s.answered + Numbers(s.taken, k) && s'.published == s.published + elements
    requires s'.rejected == if s'.taken > s.taken + k then s.rejected + [s.taken + k] else s.rejected
    requires forall y :: 0 <= y < k ==> s.taken + y < |s.heads| && elements[y].id == s.heads[s.taken + y]
    ensures Answers(s')
  {
    forall i | 0 <= i < |s'.answered|
      ensures s'.answered[i] < s'.taken && s'.published[i].id == s'.heads[s'.answered[i]]
    {
      if i >= |s.answered| {
        assert s'.answered[i] == s.taken + (i - |s.answered|) && s'.published[i] == elements[i - |s.answered|];
      } else {
        assert s'.answered[i] == s.answered[i] && s'.published[i] == s.published[i];
      }
    }
    NumbersPartition(s.answered, s.rejected, s.taken, k, s'.taken > s.taken + k);
  }

  lemma NotifyKeepsAnswers(s: Session, table: seq<Desc>, k: nat, world: World, effects: seq<Effect>, effects': seq<Effect>, s': Session)
    requires Coherent(s) && Notify(s, table, k, world, effects, effects', s')
    ensures Answers(s')
  {
    var elements := WorkOf(table, s.rings, k, world, effects).elements;
    PendingIsBacklog(s);
    forall y | 0 <= y < k
      ensures s.taken + y < |s.heads| && elements[y].id == s.heads[s.taken + y]
    {
      NewAnswer(s, table, k, world, effects, y);
    }
    MoreAnswers(s, k, elements, s');
  }

  /** A notification keeps the session coherent; it answers or rejects what it takes, and if nothing is rejected it catches
      up with the driver. */
  lemma NotifyKeepsCoherent(s: Session, table: seq<Desc>, k: nat, world: World, effects: seq<Effect>, effects': seq<Effect>, s': Session)
    requires Coherent(s) && Notify(s, table, k, world, effects, effects', s')
    ensures Coherent(s') && s.published <= s'.published
    ensures s'.rejected == s.rejected ==> s'.taken == |s'.heads|
  {
    NotifyKeepsCounted(s, table, k, world, effects, effects', s');
    RejectedGrows(s, table, k, world, effects, effects', s');
    NotifyKeepsAnswers(s, table, k, world, effects, effects', s');
  }

  /** Only a malformed head is rejected. */
  lemma RejectedIsMalformed(s: Session, table: seq<Desc>, k: nat, world: World, effects: seq<Effect>, effects': seq<Effect>, s': Session)
    requires Coherent(s) && Notify(s, table, k, world, effects, effects', s') && s'.rejected != s.rejected
    ensures s.taken + k < |s.heads| && s'.rejected == s.rejected + [s.taken + k]
    ensures s.heads[s.taken + k] < INDEX_LIMIT && Malformed(table, s.heads[s.taken + k], world)
  {
    PendingHeads(s, k);
  }

  /** k more numbers are answered, and the next one may be rejected. */
  lemma NumbersPartition(answered: seq<nat>, rejected: seq<nat>, taken: nat, k: nat, reject: bool)
    requires forall p: nat :: p < taken ==> (p in answered <==> p !in rejected)
    requires (forall p: nat :: p in answered ==> p < taken) && (forall p: nat :: p in rejected ==> p < taken)
    ensures var answered', rejected' := answered + Numbers(taken, k), if reject then rejected + [taken + k] else rejected;
            && (forall p: nat :: p < taken + k + (if reject then 1 else 0) ==> (p in answered' <==> p !in rejected'))
            && (forall p: nat :: p in rejected' ==> p < taken + k + 1)
  {
    var numbers := Numbers(taken, k);
    forall p: nat
      ensures p in numbers <==> taken <= p < taken + k
    {
      if taken <= p < taken + k {
        assert numbers[p - taken] == p;
      }
    }
  }

  // ---------------------------------------------------------------- runs

  datatype Action = Offering(head: nat) | Notifying(table: seq<Desc>, served: nat, world: World, before: seq<Effect>, after: seq<Effect>)

  ghost predicate Step(s: Session, a: Action, s': Session) {
    match a
    case Offering(head) => Offer(s, head, s')
    case Notifying(table, served, world, before, after) => Notify(s, table, served, world, before, after, s')
  }

  ghost predicate Run(states: seq<Session>, actions: seq<Action>) {
    && |states| == |actions| + 1
    && forall i :: 0 <= i < |actions| ==> Step(states[i], actions[i], states[i + 1])
  }

  ghost predicate Fresh(s: Session) {
    && s.rings.Valid() && s.heads == [] && s.taken == 0 && s.answered == [] && s.rejected == [] && s.published == []
    && s.rings.lastAvailId == 0 && s.rings.usedId == 0 && s.rings.availIdx == 0 && s.rings.usedIdx == 0
  }

  /** Over any session, however often the indices wrap: every head is answered or rejected, once, and element i of the used
      history answers the i-th head that is not rejected. */
  lemma {:induction false} RunIsCoherent(states: seq<Session>, actions: seq<Action>, n: nat)
    requires Run(states, actions) && Fresh(states[0]) && n < |states|
    ensures Coherent(states[n])
  {
    if n > 0 {
      RunIsCoherent(states, actions, n - 1);
      assert Step(states[n - 1], actions[n - 1], states[n - 1 + 1]);
      match actions[n - 1]
      case Offering(head) => OfferKeepsCoherent(states[n - 1], head, states[n]);
      case Notifying(table, served, world, before, after) =>
        NotifyKeepsCoherent(states[n - 1], table, served, world, before, after, states[n]);
    }
  }

  /** What that means for the i-th used element: it is for a later head than the one before it, for one that is not rejected,
      and it is in its slot of the ring as long as that has not been used again. */
  lemma EachAnswer(states: seq<Session>, actions: seq<Action>, n: nat, i: nat)
    requires Run(states, actions) && Fresh(states[0]) && n < |states| && i < |states[n].published|
    ensures var s := states[n];
            && |s.answered| == |s.published|
            && s.answered[i] < s.taken <= |s.heads| && s.published[i].id == s.heads[s.answered[i]] && s.answered[i] !in s.rejected
            && (i > 0 ==> s.answered[i - 1] < s.answered[i])
            && s.rings.usedIdx == |s.published| % 0x1_0000
            && (|s.published| <= i + s.rings.size ==> |s.rings.usedRing| == s.rings.size > 0 && s.rings.usedRing[i % s.rings.size] == s.published[i])
  {
    RunIsCoherent(states, actions, n);
    assert states[n].answered[i] in states[n].answered;
  }

  /** Every head that has been taken is among the answered or among the rejected ones, and not among both. */
  lemma EachHead(states: seq<Session>, actions: seq<Action>, n: nat, p: nat)
    requires Run(states, actions) && Fresh(states[0]) && n < |states| && p < states[n].taken
    ensures p in states[n].answered <==> p !in states[n].rejected
  {
    RunIsCoherent(states, actions, n);
  }

  /** If none has been rejected, the i-th used element answers the i-th head. */
  lemma {:induction false} AllAnswered(s: Session, i: nat)
    requires Coherent(s) && s.rejected == [] && i < |s.published|
    ensures s.answered[i] == i && s.published[i].id == s.heads[i]
    decreases i
  {
    if i > 0 {
      AllAnswered(s, i - 1);
    }
    if s.answered[i] > i {
      NotAmongAnswers(s.answered, i);
    }
  }

  lemma NotAmongAnswers(answered: seq<nat>, i: nat)
    requires i < |answered| && answered[i] > i && (i > 0 ==> answered[i - 1] == i - 1)
    requires forall j, l :: 0 <= j < l < |answered| ==> answered[j] < answered[l]
    ensures i !in answered
  {
    forall j | 0 <= j < |answered|
      ensures answered[j] != i
    {
      assert j < i - 1 ==> answered[j] < answered[i - 1];
      assert j > i ==> answered[i] < answered[j];
    }
  }
}
