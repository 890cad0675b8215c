/** The counts of address and size cells that a search hands out with the node it finds. */
module DtbCells {
  import opened DeviceTree
  import opened DtbMatches

  datatype Cells = Cells(address: nat, size: nat)

  /** What section 2.3.5 of the Devicetree Specification v0.4 has a client assume where the properties are missing. */
  const DEFAULT_CELLS: Cells := Cells(2, 1)

  function ADDRESS_CELLS(): seq<Byte> {
    // "#address-cells"
    [0x23, 0x61, 0x64, 0x64, 0x72, 0x65, 0x73, 0x73, 0x2D, 0x63, 0x65, 0x6C, 0x6C, 0x73]
  }

  function SIZE_CELLS(): seq<Byte> {
    // "#size-cells"
    [0x23, 0x73, 0x69, 0x7A, 0x65, 0x2D, 0x63, 0x65, 0x6C, 0x6C, 0x73]
  }

  /** The names, spelled out. */
  lemma CellNames()
    ensures |ADDRESS_CELLS()| == |"#address-cells"| && forall i :: 0 <= i < |ADDRESS_CELLS()| ==> ADDRESS_CELLS()[i] == "#address-cells"[i] as int
    ensures |SIZE_CELLS()| == |"#size-cells"| && forall i :: 0 <= i < |SIZE_CELLS()| ==> SIZE_CELLS()[i] == "#size-cells"[i] as int
  {
  }

  /** The counts behind an item that begins at p: one of the two properties sets its count to its first word. */
  ghost function ItemCells(d: Dtb, item: Item, p: nat, c: Cells): Cells {
    if item.Prop? && NamedAt(d, item.nameOffset, ADDRESS_CELLS()) then c.(address := d.Word(p + 12))
    else if item.Prop? && NamedAt(d, item.nameOffset, SIZE_CELLS()) then c.(size := d.Word(p + 12))
    else c
  }

  /** The counts with which the first match at or below a node is found, when the search comes to the node with c. */
  ghost function FirstCells(d: Dtb, q: Query, node: Node, p: nat, c: Cells): Cells
    decreases node, |node.items| + 1
  {
    if q.ByName? && Hit(d, node, q) then c else FirstCellsFrom(d, q, node, p, 0, c)
  }

  /** The same from item k of the node on. */
  ghost function FirstCellsFrom(d: Dtb, q: Query, node: Node, p: nat, k: nat, c: Cells): Cells
    requires k <= |node.items|
    decreases node, |node.items| - k
  {
    if k == |node.items| then c
    else if q.ByCompatible? && CompatibleProp(d, node.items[k], q.target) then ItemCells(d, node.items[k], ItemStart(node, p, k), c)
    else if FoundIn(d, q, node, p, k) then ChildCells(d, q, node.items[k], ItemStart(node, p, k), c)
    else FirstCellsFrom(d, q, node, p, k + 1, ItemCells(d, node.items[k], ItemStart(node, p, k), c))
  }

  ghost predicate FoundIn(d: Dtb, q: Query, node: Node, p: nat, k: nat) {
    ChildItem(node, k) && Matches(d, node.items[k].node, ItemStart(node, p, k), q) != []
  }

  ghost function ChildCells(d: Dtb, q: Query, item: Item, p: nat, c: Cells): Cells
    decreases item, 0
  {
    match item
    case Child(node) => FirstCells(d, q, node, p, c)
    case Nop => c
    case Prop(_, _) => c
  }

  // ---------------------------------------------------------------- cells and the specification

  /** The counts that hold for the child at item k of a node, when the node was come to with c. */
  ghost function CellsAt(d: Dtb, node: Node, p: nat, k: nat, c: Cells): Cells
    requires k <= |node.items|
    decreases k
  {
    if k == 0 then c else ItemCells(d, node.items[k - 1], ItemStart(node, p, k - 1), CellsAt(d, node, p, k - 1, c))
  }

  /** One of the first k items of a node is a property of that name. */
  ghost predicate Defines(d: Dtb, node: Node, k: nat, name: seq<Byte>) {
    exists i: nat {:trigger PropItem(node, i)} :: i < k && PropItem(node, i) && NamedAt(d, node.items[i].nameOffset, name)
  }

  /** No string has both names. */
  lemma OneName(d: Dtb, nameOffset: nat)
    ensures NamedAt(d, nameOffset, ADDRESS_CELLS()) ==> !NamedAt(d, nameOffset, SIZE_CELLS())
  {
    if NamedAt(d, nameOffset, ADDRESS_CELLS()) {
      assert d.Mem(d.stringOffset + nameOffset + 1) == ADDRESS_CELLS()[1] != SIZE_CELLS()[1];
    }
  }

  /** A node that defines a count does not depend on what it was come to with, and another one hands it on. */
  lemma {:induction false} CellsAtDepends(d: Dtb, node: Node, p: nat, k: nat, c: Cells, c': Cells)
    requires k <= |node.items|
    ensures Defines(d, node, k, ADDRESS_CELLS()) ==> CellsAt(d, node, p, k, c).address == CellsAt(d, node, p, k, c').address
    ensures !Defines(d, node, k, ADDRESS_CELLS()) ==> CellsAt(d, node, p, k, c).address == c.address
    ensures Defines(d, node, k, SIZE_CELLS()) ==> CellsAt(d, node, p, k, c).size == CellsAt(d, node, p, k, c').size
    ensures !Defines(d, node, k, SIZE_CELLS()) ==> CellsAt(d, node, p, k, c).size == c.size
    decreases k
  {
    if k > 0 {
      CellsAtDepends(d, node, p, k - 1, c, c');
      OneItemMore(d, node, k, ADDRESS_CELLS());
      OneItemMore(d, node, k, SIZE_CELLS());
      if node.items[k - 1].Prop? {
        OneName(d, node.items[k - 1].nameOffset);
      }
    }
  }

  lemma OneItemMore(d: Dtb, node: Node, k: nat, name: seq<Byte>)
    requires 0 < k <= |node.items|
    ensures Defines(d, node, k, name)
       <==> Defines(d, node, k - 1, name) || (node.items[k - 1].Prop? && NamedAt(d, node.items[k - 1].nameOffset, name))
  {
    if node.items[k - 1].Prop? && NamedAt(d, node.items[k - 1].nameOffset, name) {
      assert PropItem(node, k - 1);
    }
  }

  /** The specification does not let a node inherit the counts: the code agrees with it exactly if the parent defines
      them, or if it was come to with the values that are to be assumed. */
  lemma InheritedExactly(d: Dtb, node: Node, p: nat, k: nat, c: Cells)
    requires k <= |node.items|
    ensures CellsAt(d, node, p, k, c) == CellsAt(d, node, p, k, DEFAULT_CELLS)
       <==> (c.address == 2 || Defines(d, node, k, ADDRESS_CELLS())) && (c.size == 1 || Defines(d, node, k, SIZE_CELLS()))
  {
    CellsAtDepends(d, node, p, k, c, DEFAULT_CELLS);
    CellsAtDepends(d, node, p, k, DEFAULT_CELLS, c);
  }

  /** A child that is the first match by its name is handed the counts that hold for it. */
  lemma {:induction false} FoundByName(d: Dtb, q: Query, node: Node, p: nat, k: nat, i: nat, c: Cells)
    requires q.ByName? && i <= k && ChildItem(node, k) && Hit(d, node.items[k].node, q)
    requires forall j: nat :: i <= j < k ==> !FoundIn(d, q, node, p, j)
    ensures FirstCellsFrom(d, q, node, p, i, CellsAt(d, node, p, i, c)) == CellsAt(d, node, p, k, c)
    decreases k - i
  {
    if i < k {
      FoundByName(d, q, node, p, k, i + 1, c);
    } else {
      assert Matches(d, node.items[k].node, ItemStart(node, p, k), q) == [Match(node.items[k].node, ItemStart(node, p, k))];
      var here := CellsAt(d, node, p, k, c);
      assert FirstCells(d, q, node.items[k].node, ItemStart(node, p, k), here) == here;
      assert ChildCells(d, q, node.items[k], ItemStart(node, p, k), here) == here;
    }
  }

  lemma OtherName(d: Dtb, nameOffset: nat)
    ensures NamedAt(d, nameOffset, COMPATIBLE()) ==> !NamedAt(d, nameOffset, ADDRESS_CELLS()) && !NamedAt(d, nameOffset, SIZE_CELLS())
  {
    if NamedAt(d, nameOffset, COMPATIBLE()) {
      assert d.Mem(d.stringOffset + nameOffset) == COMPATIBLE()[0];
      assert COMPATIBLE()[0] != ADDRESS_CELLS()[0] && COMPATIBLE()[0] != SIZE_CELLS()[0];
    }
  }

  lemma {:induction false} OwnCells(d: Dtb, q: Query, node: Node, p: nat, i: nat, k: nat, c: Cells)
    requires q.ByCompatible? && i <= k < |node.items| && CompatibleProp(d, node.items[k], q.target)
    requires forall j: nat :: i <= j < k ==> !ChildItem(node, j) && !CompatibleProp(d, node.items[j], q.target)
    ensures FirstCellsFrom(d, q, node, p, i, CellsAt(d, node, p, i, c)) == CellsAt(d, node, p, k, c)
    decreases k - i
  {
    if i < k {
      OwnCells(d, q, node, p, i + 1, k, c);
    } else {
      OtherName(d, node.items[k].nameOffset);
    }
  }

  /** A node that is found as a compatible device is handed the counts that hold for its own children, as far as its
      properties before that have set them, and not those that hold for the node itself: the two agree exactly if those
      properties leave them as they are. */
  lemma FoundByCompatible(d: Dtb, q: Query, node: Node, p: nat, k: nat, c: Cells)
    requires q.ByCompatible? && k < |node.items| && CompatibleProp(d, node.items[k], q.target)
    requires forall j: nat :: j < k ==> !ChildItem(node, j) && !CompatibleProp(d, node.items[j], q.target)
    ensures FirstCells(d, q, node, p, c) == CellsAt(d, node, p, k, c)
    ensures !Defines(d, node, k, ADDRESS_CELLS()) && !Defines(d, node, k, SIZE_CELLS()) ==> FirstCells(d, q, node, p, c) == c
  {
    OwnCells(d, q, node, p, 0, k, c);
    CellsAtDepends(d, node, p, k, c, c);
  }
}
