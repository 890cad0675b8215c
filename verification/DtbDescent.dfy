/** The functions of the parser that walk over the items of a node. */
module DtbDescent {
  import opened Wrappers
  import opened DeviceTree
  import opened DtbParser

  // ---------------------------------------------------------------- items

  ghost predicate HasChild(node: Node) {
    exists k: nat :: ChildItem(node, k)
  }

  /** What the caller knows about the bytes at the pointer: nothing, or that they represent a node that begins at p. */
  datatype View = Unknown | Known(node: Node, p: nat)

  ghost predicate ViewOk(d: Dtb, view: View) {
    view.Known? ==> NodeAt(d, view.node, view.p)
  }

  /** The pointer has reached item k, but for padding. */
  ghost predicate Reached(view: View, pointer: nat, k: nat) {
    pointer > 0 && (view.Known? ==> k <= |view.node.items| && SkipPadding(pointer) == ItemStart(view.node, view.p, k))
  }

  /** The token of item k, which is no NOP, is at e. */
  ghost predicate AtToken(d: Dtb, view: View, k: nat, e: nat) {
    view.Known? ==>
      && k <= |view.node.items| && e == ItemStart(view.node, view.p, k) && e % 4 == 0
      && d.ReadNode(e) == Some(TokenOf(view.node, k, END_NODE)) && TokenOf(view.node, k, END_NODE) != NOP
  }

  /** The items from j to k are NOP tokens. */
  ghost predicate NopItems(view: View, j: nat, k: nat) {
    view.Known? ==> j <= k <= |view.node.items| && forall i: nat {:trigger NopItem(view.node, i)} {:trigger ChildItem(view.node, i)} :: j <= i < k ==> NopItem(view.node, i) && !ChildItem(view.node, i)
  }

  lemma BodyReached(d: Dtb, view: View, pointer: nat)
    requires ViewOk(d, view) && pointer > 0 && (view.Known? ==> pointer == Body(view.node, view.p))
    ensures Reached(view, pointer, 0)
  {
    if view.Known? {
      PaddingOf(view.p, TOKEN_SIZE + Padded(|view.node.name| + 1));
    }
  }

  /** Item k of a view that is known, after NOP tokens have been skipped from the pointer on. */
  lemma NextToken(d: Dtb, view: View, pointer: nat, k: nat, e: nat) returns (k': nat)
    requires ViewOk(d, view) && Reached(view, pointer, k)
    requires NopsBetween(d, SkipPadding(pointer), e) && d.ReadNode(e) != Some(NOP)
    ensures AtToken(d, view, k', e) && NopItems(view, k, k')
  {
    k' := k;
    if view.Known? {
      NodeTokens(d, view.node, view.p);
      k' := AfterNops(d, view.node, view.p, k, e, END_NODE);
      ItemInside(d, view.node, view.p, k');
    }
  }

  lemma ItemOf(d: Dtb, node: Node, p: nat, k: nat)
    requires NodeAt(d, node, p) && k < |node.items|
    ensures Inside(d, node, p) && ItemAt(d, node.items[k], ItemStart(node, p, k))
  {
    assert ItemsAt(d, node, p);
  }

  lemma PropPadding(e: nat, len: nat)
    requires e % 4 == 0
    ensures SkipPadding(e + 12 + len) == e + (3 * TOKEN_SIZE + Padded(len))
  {
  }

  /** The words of a property, and the pointer behind it. */
  lemma PropSkipped(d: Dtb, view: View, k: nat, e: nat)
    requires ViewOk(d, view) && AtToken(d, view, k, e) && d.ReadNode(e) == Some(PROP)
    ensures view.Known? ==>
              && k < |view.node.items| && view.node.items[k].Prop? && !ChildItem(view.node, k) && ItemAt(d, view.node.items[k], e)
              && d.ReadNode(e + 4) == Some(|view.node.items[k].value|) && d.ReadNode(e + 8) == Some(view.node.items[k].nameOffset)
              && d.ReadNode(e + 12).Some? && view.node.items[k].nameOffset < d.stringSize
    ensures d.ReadNode(e + 4).Some? ==> Reached(view, e + 12 + d.Word(e + 4), k + 1)
  {
    if view.Known? {
      ItemOf(d, view.node, view.p, k);
      ItemInside(d, view.node, view.p, k);
      ItemInside(d, view.node, view.p, k + 1);
      PropPadding(e, |view.node.items[k].value|);
    }
  }

  /** A child, and the pointer behind it. */
  lemma ChildSkipped(d: Dtb, view: View, k: nat, e: nat)
    requires ViewOk(d, view) && AtToken(d, view, k, e) && d.ReadNode(e) == Some(BEGIN_NODE)
    ensures view.Known? ==>
              && ChildItem(view.node, k) && NodeAt(d, view.node.items[k].node, e)
              && Reached(view, e + Size(view.node.items[k].node), k + 1)
  {
    if view.Known? {
      ItemOf(d, view.node, view.p, k);
      NextItem(view.node, view.p, k);
      ItemInside(d, view.node, view.p, k + 1);
      PaddingOf(ItemStart(view.node, view.p, k + 1), 0);
    }
  }

  /** The end of the node. */
  lemma EndReached(d: Dtb, view: View, k: nat, e: nat)
    requires ViewOk(d, view) && AtToken(d, view, k, e) && d.ReadNode(e) == Some(END_NODE)
    ensures view.Known? ==> k == |view.node.items| && e + TOKEN_SIZE == view.p + Size(view.node)
  {
    if view.Known? {
      ItemInside(d, view.node, view.p, k);
    }
  }

  // ---------------------------------------------------------------- skipping

  predicate IsToken(w: nat) {
    w == BEGIN_NODE || w == END_NODE || w == PROP || w == NOP || w == END
  }

  /** The first word of a name is not a token. */
  lemma NameIsNoToken(d: Dtb, node: Node, p: nat)
    requires NodeAt(d, node, p)
    ensures NoToken(d, p + TOKEN_SIZE)
  {
    ItemInside(d, node, p, 0);
    var q := p + TOKEN_SIZE;
    if |node.name| > 0 {
      assert d.Mem(q + 0) == node.name[0] != 0;
    } else {
      assert d.Mem(q) == 0 && d.Mem(q + 1) == 0 && d.Mem(q + 2) == 0 && d.Mem(q + 3) == 0;
    }
  }

  /** A child's name, taken for a token. */
  lemma ChildNameIsNoToken(d: Dtb, view: View, k: nat, e: nat)
    requires ViewOk(d, view) && AtToken(d, view, k, e) && d.ReadNode(e) == Some(BEGIN_NODE)
    ensures view.Known? ==> HasChild(view.node) && NoToken(d, e + TOKEN_SIZE)
  {
    ChildSkipped(d, view, k, e);
    if view.Known? {
      NameIsNoToken(d, view.node.items[k].node, e);
    }
  }

  ghost predicate NoToken(d: Dtb, pointer: nat) {
    pointer % 4 == 0 && d.ReadNode(pointer).Some? && !IsToken(d.Word(pointer))
  }

  /** The items before k contain no child. */
  ghost predicate ChildlessBefore(view: View, k: nat) {
    view.Known? ==> k <= |view.node.items| && forall j: nat :: j < k ==> !ChildItem(view.node, j)
  }

  /** Moves behind the end of the node in whose items the pointer is. It fails as soon as it meets a child: the recursive
      call takes the child's name for a token. */
  method SkipToNextNode(d: Dtb, pointer: nat, ghost view: View) returns (ok: bool, pointer': nat)
    requires pointer > 0 && ViewOk(d, view) && (view.Known? ==> pointer == Body(view.node, view.p))
    ensures ok ==> pointer' > pointer
    ensures NoToken(d, pointer) ==> !ok
    ensures view.Known? ==> (ok <==> !HasChild(view.node)) && (ok ==> pointer' == view.p + Size(view.node))
    decreases if pointer < d.StructEnd() then d.StructEnd() - pointer else 0
  {
    pointer' := pointer;
    ghost var k: nat := 0;
    BodyReached(d, view, pointer);
    if NoToken(d, pointer) {
      PaddingOf(pointer, 0);
    }
    while true
      invariant pointer <= pointer' && (pointer' == pointer || !NoToken(d, pointer))
      invariant Reached(view, pointer', k) && ChildlessBefore(view, k)
      decreases if pointer' < d.StructEnd() then d.StructEnd() - pointer' else 0
    {
      var more, e := SkipNop(d, SkipPadding(pointer'));
      k := NextToken(d, view, pointer', k, e);
      if !more {
        return false, e;
      }
      var token := d.ReadNode(e).value;
      assert IsToken(token) ==> !NoToken(d, pointer);
      if token == BEGIN_NODE {
        ChildNameIsNoToken(d, view, k, e);
        ok, pointer' := SkipToNextNode(d, e + TOKEN_SIZE, Unknown);
        if !ok {
          return;
        }
      } else if token == END {
        return false, e;
      } else if token == END_NODE {
        EndReached(d, view, k, e);
        return true, e + TOKEN_SIZE;
      } else if token == PROP {
        PropSkipped(d, view, k, e);
        var len := d.ReadNode(e + 4);
        if len.None? {
          return false, e + 4;
        }
        pointer' := e + 12 + len.value;
        k := k + 1;
      } else {
        return false, e;
      }
    }
  }
}
