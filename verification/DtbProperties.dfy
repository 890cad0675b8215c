/** Properties of a single node. */
module DtbProperties {
  import opened Wrappers
  import opened DeviceTree
  import opened DtbMatches
  import opened DtbCells
  import opened DtbParser
  import opened DtbDescent
  import opened DtbSearch
  import opened DtbCompatible

  ghost predicate NamedProp(d: Dtb, node: Node, name: seq<Byte>, k: nat) {
    PropItem(node, k) && NamedAt(d, node.items[k].nameOffset, name)
  }

  /** The first property of that name. */
  ghost predicate FirstNamed(d: Dtb, node: Node, name: seq<Byte>, k: nat) {
    NamedProp(d, node, name, k) && forall j: nat :: j < k ==> !NamedProp(d, node, name, j)
  }

  ghost predicate NoneNamed(d: Dtb, view: View, name: seq<Byte>, k: nat) {
    view.Known? ==> k <= |view.node.items| && forall j: nat :: j < k ==> !NamedProp(d, view.node, name, j)
  }

  lemma NotAmongNops(d: Dtb, view: View, name: seq<Byte>, j: nat, k: nat)
    requires NoneNamed(d, view, name, j) && NopItems(view, j, k)
    ensures NoneNamed(d, view, name, k)
  {
    if view.Known? {
      forall i: nat | i < k
        ensures !NamedProp(d, view.node, name, i)
      {
        assert j <= i ==> NopItem(view.node, i);
      }
    }
  }

  lemma SameCellsInNops(d: Dtb, view: View, j: nat, k: nat, c: Cells)
    requires NopItems(view, j, k)
    ensures view.Known? ==> CellsAt(d, view.node, view.p, j, c) == CellsAt(d, view.node, view.p, k, c)
    decreases k - j
  {
    if view.Known? && j < k {
      assert NopItem(view.node, k - 1);
      SameCellsInNops(d, view, j, k - 1, c);
    }
  }

  lemma NotNamed(d: Dtb, view: View, name: seq<Byte>, k: nat)
    requires NoneNamed(d, view, name, k) && (view.Known? ==> k < |view.node.items| && !NamedProp(d, view.node, name, k))
    ensures NoneNamed(d, view, name, k + 1)
  {
  }

  /** Properties precede children, so nothing is missed behind the first child. */
  lemma NotBelow(d: Dtb, view: View, name: seq<Byte>, k: nat)
    requires NoneNamed(d, view, name, k) && (view.Known? ==> PropsFirst(view.node) && (k == |view.node.items| || ChildItem(view.node, k)))
    ensures view.Known? ==> forall j: nat :: !NamedProp(d, view.node, name, j)
  {
    if view.Known? {
      forall j: nat
        ensures !NamedProp(d, view.node, name, j)
      {
        assert k <= j ==> !PropItem(view.node, j);
      }
    }
  }

  /** No property has been found before item k, and the counts are c there. */
  ghost predicate Seeking(d: Dtb, view: View, name: seq<Byte>, k: nat, c: Cells, c0: Cells) {
    && NoneNamed(d, view, name, k)
    && (view.Known? ==> k <= |view.node.items| && c == CellsAt(d, view.node, view.p, k, c0))
  }

  lemma SeekingPastNops(d: Dtb, view: View, name: seq<Byte>, j: nat, k: nat, c: Cells, c0: Cells)
    requires Seeking(d, view, name, j, c, c0) && NopItems(view, j, k)
    ensures Seeking(d, view, name, k, c, c0)
  {
    NotAmongNops(d, view, name, j, k);
    SameCellsInNops(d, view, j, k, c0);
  }

  lemma SeekingPastProp(d: Dtb, view: View, name: seq<Byte>, k: nat, c: Cells, c': Cells, c0: Cells)
    requires Seeking(d, view, name, k, c, c0)
    requires view.Known? ==> k < |view.node.items| && c' == ItemCells(d, view.node.items[k], ItemStart(view.node, view.p, k), c)
    ensures view.Known? ==> c' == CellsAt(d, view.node, view.p, k + 1, c0) && (NamedProp(d, view.node, name, k) ==> FirstNamed(d, view.node, name, k))
    ensures (view.Known? && NamedProp(d, view.node, name, k)) || Seeking(d, view, name, k + 1, c', c0)
  {
    if !(view.Known? && NamedProp(d, view.node, name, k)) {
      NotNamed(d, view, name, k);
    }
  }

  /** The property found is item k. */
  ghost predicate IsItem(d: Dtb, prop: DtbProperty, view: View, k: nat, c: Cells)
    requires view.Known?
  {
    && k < |view.node.items| && view.node.items[k].Prop?
    && prop.address == ItemStart(view.node, view.p, k) + 12 && prop.len == |view.node.items[k].value|
    && ListAt(d, prop.address, view.node.items[k].value)
    && prop.Counts() == CellsAt(d, view.node, view.p, k + 1, c)
  }

  /** Reads a property and compares its name. */
  method ReadNamed(d: Dtb, e: nat, cells: nat, sizes: nat, name: seq<Byte>, ghost view: View, ghost k: nat, ghost c0: Cells)
    returns (prop: Option<DtbProperty>, same: bool)
    requires ViewOk(d, view) && AtToken(d, view, k, e) && d.ReadNode(e) == Some(PROP)
    requires Seeking(d, view, name, k, Cells(cells, sizes), c0)
    ensures prop.None? ==> !view.Known?
    ensures prop.Some? && same && view.Known? ==> FirstNamed(d, view.node, name, k) && IsItem(d, prop.value, view, k, c0)
    ensures prop.Some? ==> Reached(view, e + 12 + prop.value.len, k + 1)
    ensures prop.Some? && !same ==> Seeking(d, view, name, k + 1, prop.value.Counts(), c0)
  {
    var segment;
    prop, segment := ReadProp(d, e, cells, sizes, view, k);
    if prop.None? {
      return None, false;
    }
    var equal := CompareNameSegment(d, segment, name, []);
    if equal.None? {
      return None, false;
    }
    same := equal.value;
    assert same <==> NamedAt(d, segment, name);
    SeekingPastProp(d, view, name, k, Cells(cells, sizes), prop.value.Counts(), c0);
  }

  /** Finds a property of a node by its name. */
  method GetProperty(d: Dtb, node: DtbNode, name: seq<Byte>, ghost view: View) returns (r: Option<DtbProperty>, ghost k: nat)
    requires node.address > 0 && ViewOk(d, view) && (view.Known? ==> PropsFirst(view.node) && node.address == Body(view.node, view.p))
    ensures view.Known? && r.None? ==> forall j: nat :: !NamedProp(d, view.node, name, j)
    ensures view.Known? && r.Some? ==>
              && FirstNamed(d, view.node, name, k)
              && r.value.address == ItemStart(view.node, view.p, k) + 12 && r.value.len == |view.node.items[k].value|
              && ListAt(d, r.value.address, view.node.items[k].value)
    // with the counts of the node, and of its properties up to this one
    ensures view.Known? && r.Some? ==> k < |view.node.items| && r.value.Counts() == CellsAt(d, view.node, view.p, k + 1, node.Counts())
  {
    var p := node.address;
    var cells, sizes := node.addressCells, node.sizeCells;
    k := 0;
    BodyReached(d, view, p);
    while true
      invariant p >= node.address && Reached(view, p, k) && Seeking(d, view, name, k, Cells(cells, sizes), node.Counts())
      decreases if p < d.StructEnd() then d.StructEnd() - p else 0
    {
      var more, e;
      ghost var before := k;
      more, e, k := ToToken(d, p, view, k);
      SeekingPastNops(d, view, name, before, k, Cells(cells, sizes), node.Counts());
      if !more {
        return None, k;
      }
      var token := d.ReadNode(e).value;
      if token == BEGIN_NODE || token == END || token == END_NODE {
        if view.Known? {
          NotBelow(d, view, name, k);
        }
        return None, k;
      } else if token == PROP {
        var prop, same := ReadNamed(d, e, cells, sizes, name, view, k, node.Counts());
        if prop.None? {
          return None, k;
        }
        if same {
          return prop, k;
        }
        cells, sizes := prop.value.addressCells, prop.value.sizeCells;
        p := e + 12 + prop.value.len;
        k := k + 1;
      } else {
        return None, k;
      }
    }
  }

  /** Whether the first list of compatible devices of a node names the target. */
  method IsNodeCompatible(d: Dtb, node: DtbNode, target: seq<Byte>, ghost view: View) returns (r: bool)
    requires NulFree(target) && node.address > 0 && TreeOk(d, view) && (view.Known? ==> node.address == Body(view.node, view.p))
    ensures view.Known? ==>
              (r <==> exists k: nat :: FirstNamed(d, view.node, COMPATIBLE(), k) && ListContains(view.node.items[k].value, target))
  {
    var info;
    ghost var k;
    info, k := GetProperty(d, node, COMPATIBLE(), view);
    if info.None? {
      return false;
    }
    ghost var list := BytesAt(d, info.value.address, info.value.len);
    if view.Known? {
      list := view.node.items[k].value;
      OnlyFirst(d, view.node, COMPATIBLE(), k);
    }
    r := IsDeviceCompatible(d, info.value, target, list);
  }

  lemma OnlyFirst(d: Dtb, node: Node, name: seq<Byte>, k: nat)
    requires FirstNamed(d, node, name, k)
    ensures forall j: nat :: FirstNamed(d, node, name, j) ==> j == k
  {
    forall j: nat | FirstNamed(d, node, name, j)
      ensures j == k
    {
      assert NamedProp(d, node, name, j) && NamedProp(d, node, name, k);
    }
  }
}
