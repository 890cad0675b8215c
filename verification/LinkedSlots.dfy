/**
 Intrusive doubly linked lists over a fixed pool of slots. A list is the sequence `s` of its
 slot numbers, first to last; `links` holds the two link fields of every slot.
 */
module LinkedSlots {
  import opened Wrappers

  datatype Link = Link(prev: Option<nat>, next: Option<nat>)

  function Head(s: seq<nat>): Option<nat> {
    if s == [] then None else Some(s[0])
  }

  function After(s: seq<nat>, k: nat): Option<nat> {
    if k + 1 < |s| then Some(s[k + 1]) else None
  }

  function Prior(s: seq<nat>, k: nat): Option<nat> {
    if 0 < k <= |s| then Some(s[k - 1]) else None
  }

  ghost predicate Distinct(s: seq<nat>) {
    forall j, k :: 0 <= j < k < |s| ==> s[j] != s[k]
  }

  ghost predicate Linked(links: seq<Link>, s: seq<nat>) {
    && (forall k :: 0 <= k < |s| ==> s[k] < |links|)
    && (forall k {:trigger links[s[k]]} :: 0 <= k < |s| ==> links[s[k]] == Link(Prior(s, k), After(s, k)))
  }

  /** A doubly linked list that begins with an entry nothing links back from holds no slot twice. */
  lemma LinkedDistinct(links: seq<Link>, s: seq<nat>)
    requires Linked(links, s)
    ensures Distinct(s)
  {
    forall j, k | 0 <= j < k < |s|
      ensures s[j] != s[k]
    {
      NoRepeat(links, s, j, k);
    }
  }

  lemma {:induction false} NoRepeat(links: seq<Link>, s: seq<nat>, j: nat, k: nat)
    requires Linked(links, s) && j < k < |s|
    ensures s[j] != s[k]
  {
    assert links[s[j]] == Link(Prior(s, j), After(s, j));
    assert links[s[k]] == Link(Prior(s, k), After(s, k));
    if j > 0 {
      NoRepeat(links, s, j - 1, k - 1);
    }
  }

  function Without(s: seq<nat>, k: nat): seq<nat>
    requires k < |s|
  {
    s[..k] + s[k + 1..]
  }

  function With(s: seq<nat>, k: nat, x: nat): seq<nat>
    requires k <= |s|
  {
    s[..k] + [x] + s[k..]
  }

  function IndexOf(s: seq<nat>, x: nat): (k: nat)
    requires x in s
    ensures k < |s| && s[k] == x && x !in s[..k]
  {
    if s[0] == x then 0 else 1 + IndexOf(s[1..], x)
  }

  function Remove(s: seq<nat>, x: nat): seq<nat> {
    if x in s then Without(s, IndexOf(s, x)) else s
  }

  lemma WithoutMembers(s: seq<nat>, k: nat)
    requires k < |s| && Distinct(s)
    ensures Distinct(Without(s, k))
    ensures forall x :: x in Without(s, k) <==> x in s && x != s[k]
  {
    var t := Without(s, k);
    forall x | x in s && x != s[k]
      ensures x in t
    {
      var i :| 0 <= i < |s| && s[i] == x;
      assert t[if i < k then i else i - 1] == x;
    }
  }

  lemma WithMembers(s: seq<nat>, k: nat, x: nat)
    requires k <= |s|
    ensures Distinct(s) && x !in s ==> Distinct(With(s, k, x))
    ensures forall y :: y in With(s, k, x) <==> y in s || y == x
  {
    var t := With(s, k, x);
    assert s == s[..k] + s[k..];
    assert t[k] == x;
    forall y | y in s
      ensures y in t
    {
      var i :| 0 <= i < |s| && s[i] == y;
      assert t[if i < k then i else i + 1] == y;
    }
  }

  lemma RemoveMembers(s: seq<nat>, x: nat)
    requires Distinct(s)
    ensures Distinct(Remove(s, x))
    ensures forall y :: y in Remove(s, x) <==> y in s && y != x
  {
    if x in s {
      WithoutMembers(s, IndexOf(s, x));
    }
  }

  /** Inserting a new slot anywhere and removing it again changes nothing. */
  lemma RemoveWith(s: seq<nat>, k: nat, x: nat)
    requires k <= |s| && x !in s
    ensures Remove(With(s, k, x), x) == s
  {
    var t := With(s, k, x);
    assert t[k] == x;
    assert t[..k] == s[..k];
    IndexAt(t, k, x);
  }

  lemma IndexAt(t: seq<nat>, k: nat, x: nat)
    requires k < |t| && t[k] == x && x !in t[..k]
    ensures IndexOf(t, x) == k
  {
    if k > 0 {
      assert t[..k][0] == t[0];
      assert t[..k] == [t[0]] + t[1..][..k - 1];
      IndexAt(t[1..], k - 1, x);
    }
  }

  // ---------------------------------------------------------------- relinking

  /** The links once slot s[k] has been taken out: its neighbours point past it. */
  ghost predicate Bypassed(links: seq<Link>, links': seq<Link>, s: seq<nat>, k: nat)
    requires k < |s|
  {
    && |links'| == |links|
    && forall i :: 0 <= i < |links| && i != s[k] ==>
         links'[i] == Link(if After(s, k) == Some(i) then Prior(s, k) else links[i].prev,
                           if Prior(s, k) == Some(i) then After(s, k) else links[i].next)
  }

  lemma BypassedUnlinks(links: seq<Link>, links': seq<Link>, s: seq<nat>, k: nat)
    requires Linked(links, s) && k < |s| && Bypassed(links, links', s, k)
    ensures Linked(links', Without(s, k))
  {
    var t := Without(s, k);
    LinkedDistinct(links, s);
    WithoutMembers(s, k);
    forall i | 0 <= i < |t|
      ensures t[i] < |links'| && links'[t[i]] == Link(Prior(t, i), After(t, i))
    {
      var j := if i < k then i else i + 1;
      assert t[i] == s[j] && s[j] != s[k];
      assert links[s[j]] == Link(Prior(s, j), After(s, j));
      assert After(s, k) == Some(s[j]) <==> j == k + 1;
      assert Prior(s, k) == Some(s[j]) <==> j == k - 1;
    }
  }

  /** A list that shares no slot with the one changed keeps its links. */
  lemma BypassedKeeps(links: seq<Link>, links': seq<Link>, s: seq<nat>, k: nat, t: seq<nat>)
    requires Linked(links, t) && k < |s| && Bypassed(links, links', s, k)
    requires forall x :: x in t ==> x !in s
    ensures Linked(links', t)
  {
    forall i | 0 <= i < |t|
      ensures t[i] < |links'| && links'[t[i]] == Link(Prior(t, i), After(t, i))
    {
      assert t[i] in t;
      assert s[k] in s;
      assert t[i] !in s;
    }
  }

  /** The links once slot x has been put in at position k. */
  ghost predicate Spliced(links: seq<Link>, links': seq<Link>, s: seq<nat>, k: nat, x: nat)
    requires k <= |s|
  {
    && |links'| == |links|
    && x < |links|
    && links'[x] == Link(Prior(s, k), if k < |s| then Some(s[k]) else None)
    && forall i :: 0 <= i < |links| && i != x ==>
         links'[i] == Link(if k < |s| && s[k] == i then Some(x) else links[i].prev,
                           if Prior(s, k) == Some(i) then Some(x) else links[i].next)
  }

  lemma SplicedLinks(links: seq<Link>, links': seq<Link>, s: seq<nat>, k: nat, x: nat)
    requires Linked(links, s) && k <= |s| && x !in s && Spliced(links, links', s, k, x)
    ensures Linked(links', With(s, k, x))
  {
    var t := With(s, k, x);
    LinkedDistinct(links, s);
    WithMembers(s, k, x);
    forall i | 0 <= i < |t|
      ensures t[i] < |links'| && links'[t[i]] == Link(Prior(t, i), After(t, i))
    {
      if i != k {
        var j := if i < k then i else i - 1;
        assert t[i] == s[j] && s[j] != x;
        assert links[s[j]] == Link(Prior(s, j), After(s, j));
        assert k < |s| && s[k] == s[j] <==> j == k;
        assert Prior(s, k) == Some(s[j]) <==> j == k - 1;
      }
    }
  }

  lemma SplicedKeeps(links: seq<Link>, links': seq<Link>, s: seq<nat>, k: nat, x: nat, t: seq<nat>)
    requires Linked(links, t) && k <= |s| && Spliced(links, links', s, k, x)
    requires x !in t && forall y :: y in t ==> y !in s
    ensures Linked(links', t)
  {
    forall i | 0 <= i < |t|
      ensures t[i] < |links'| && links'[t[i]] == Link(Prior(t, i), After(t, i))
    {
      assert t[i] in t;
      if k < |s| { assert s[k] in s; }
      if 0 < k { assert s[k - 1] in s; }
    }
  }

  // ---------------------------------------------------------------- families of lists

  ghost predicate Apart(lists: seq<seq<nat>>) {
    forall c, d, x {:trigger x in lists[c], x in lists[d]} :: 0 <= c < d < |lists| && x in lists[c] ==> x !in lists[d]
  }

  /** No slot occurs twice, in one list or in two. */
  ghost predicate Separate(lists: seq<seq<nat>>) {
    && Apart(lists)
    && forall c {:trigger Distinct(lists[c])} :: 0 <= c < |lists| ==> Distinct(lists[c])
  }

  lemma FamilySeparate(links: seq<Link>, heads: seq<Option<nat>>, lists: seq<seq<nat>>)
    requires Family(links, heads, lists)
    ensures Separate(lists)
  {
    forall c | 0 <= c < |lists|
      ensures Distinct(lists[c])
    {
      assert Linked(links, lists[c]);
      LinkedDistinct(links, lists[c]);
    }
  }

  ghost predicate Family(links: seq<Link>, heads: seq<Option<nat>>, lists: seq<seq<nat>>) {
    && |heads| == |lists|
    && Apart(lists)
    && forall c {:trigger Linked(links, lists[c])} {:trigger heads[c]} :: 0 <= c < |lists| ==> Linked(links, lists[c]) && heads[c] == Head(lists[c])
  }

  ghost predicate InSome(lists: seq<seq<nat>>, x: nat) {
    exists c :: 0 <= c < |lists| && x in lists[c]
  }

  lemma ApartShrink(lists: seq<seq<nat>>, c: nat, t: seq<nat>, x: nat)
    requires Apart(lists) && c < |lists| && x in lists[c]
    requires forall y :: y in t <==> y in lists[c] && y != x
    ensures Apart(lists[c := t])
    ensures forall y :: InSome(lists[c := t], y) <==> InSome(lists, y) && y != x
  {
    var lists' := lists[c := t];
    assert forall d, y :: 0 <= d < |lists| && y in lists'[d] ==> y in lists[d];
    forall y
      ensures InSome(lists', y) <==> InSome(lists, y) && y != x
    {
      if InSome(lists', y) {
        var d :| 0 <= d < |lists'| && y in lists'[d];
        assert y in lists[d];
        assert d != c ==> x !in lists[d];
      }
      if InSome(lists, y) && y != x {
        var d :| 0 <= d < |lists| && y in lists[d];
        assert y in lists'[d];
      }
    }
  }

  lemma ApartGrow(lists: seq<seq<nat>>, c: nat, t: seq<nat>, x: nat)
    requires Apart(lists) && c < |lists| && !InSome(lists, x)
    requires forall y :: y in t <==> y in lists[c] || y == x
    ensures Apart(lists[c := t])
    ensures forall y :: InSome(lists[c := t], y) <==> InSome(lists, y) || y == x
  {
    var lists' := lists[c := t];
    assert forall d :: 0 <= d < |lists| ==> x !in lists[d];
    forall y
      ensures InSome(lists', y) <==> InSome(lists, y) || y == x
    {
      if InSome(lists', y) {
        var d :| 0 <= d < |lists'| && y in lists'[d];
        assert y in lists[d] || y == x;
      }
      if InSome(lists, y) {
        var d :| 0 <= d < |lists| && y in lists[d];
        assert y in lists'[d];
      }
      if y == x {
        assert y in lists'[c];
      }
    }
  }

  lemma FamilyRemove(links: seq<Link>, links': seq<Link>, heads: seq<Option<nat>>, lists: seq<seq<nat>>, c: nat, x: nat)
    requires Family(links, heads, lists) && c < |lists| && x in lists[c]
    requires Bypassed(links, links', lists[c], IndexOf(lists[c], x))
    ensures var t := Remove(lists[c], x);
            && Family(links', heads[c := Head(t)], lists[c := t])
            && (forall y :: InSome(lists[c := t], y) <==> InSome(lists, y) && y != x)
  {
    var s := lists[c];
    var t := Remove(s, x);
    BypassedUnlinks(links, links', s, IndexOf(s, x));
    LinkedDistinct(links, s);
    RemoveMembers(s, x);
    ApartShrink(lists, c, t, x);
    forall d | 0 <= d < |lists| && d != c
      ensures Linked(links', lists[d])
    {
      BypassedKeeps(links, links', s, IndexOf(s, x), lists[d]);
    }
    FamilyReplaced(links', heads, lists, c, t);
  }

  lemma FamilyReplaced(links: seq<Link>, heads: seq<Option<nat>>, lists: seq<seq<nat>>, c: nat, t: seq<nat>)
    requires c < |lists| == |heads| && Apart(lists[c := t]) && Linked(links, t)
    requires forall d :: 0 <= d < |lists| && d != c ==> Linked(links, lists[d]) && heads[d] == Head(lists[d])
    ensures Family(links, heads[c := Head(t)], lists[c := t])
  {
  }

  lemma OthersKeepLinks(links: seq<Link>, links': seq<Link>, lists: seq<seq<nat>>, c: nat, k: nat, x: nat)
    requires Apart(lists) && c < |lists| && k <= |lists[c]| && !InSome(lists, x)
    requires forall d :: 0 <= d < |lists| ==> Linked(links, lists[d])
    requires Spliced(links, links', lists[c], k, x)
    ensures forall d :: 0 <= d < |lists| && d != c ==> Linked(links', lists[d])
  {
    forall d | 0 <= d < |lists| && d != c
      ensures Linked(links', lists[d])
    {
      assert x !in lists[d];
      SplicedKeeps(links, links', lists[c], k, x, lists[d]);
    }
  }

  lemma FamilyInsert(links: seq<Link>, links': seq<Link>, heads: seq<Option<nat>>, lists: seq<seq<nat>>, c: nat, k: nat, x: nat)
    requires Family(links, heads, lists) && c < |lists| && k <= |lists[c]| && !InSome(lists, x)
    requires Spliced(links, links', lists[c], k, x)
    ensures var t := With(lists[c], k, x);
            && Family(links', heads[c := Head(t)], lists[c := t])
            && (forall y :: InSome(lists[c := t], y) <==> InSome(lists, y) || y == x)
  {
    assert x !in lists[c];
    SplicedLinks(links, links', lists[c], k, x);
    WithMembers(lists[c], k, x);
    ApartGrow(lists, c, With(lists[c], k, x), x);
    OthersKeepLinks(links, links', lists, c, k, x);
    FamilyReplaced(links', heads, lists, c, With(lists[c], k, x));
  }

  /** Resetting the links of a slot that is in no list. */
  lemma UnusedLink(links: seq<Link>, links': seq<Link>, s: seq<nat>, x: nat)
    requires Linked(links, s) && x < |links| && x !in s && links' == links[x := Link(None, None)]
    ensures Linked(links', s)
  {
    assert forall k :: 0 <= k < |s| ==> s[k] in s;
  }

  lemma UnusedLinks(links: seq<Link>, links': seq<Link>, heads: seq<Option<nat>>, lists: seq<seq<nat>>, x: nat)
    requires Family(links, heads, lists) && x < |links| && !InSome(lists, x) && links' == links[x := Link(None, None)]
    ensures Family(links', heads, lists)
  {
    forall c | 0 <= c < |lists|
      ensures Linked(links', lists[c])
    {
      assert x !in lists[c];
      UnusedLink(links, links', lists[c], x);
    }
  }
}
