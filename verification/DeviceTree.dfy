/**
 Devicetrees and the bytes of a flattened one, after the Devicetree Specification v0.4,
 section 5.4 (structure block) and section 5.5 (strings block).
 */
module DeviceTree {
  import opened Wrappers

  type Byte = b: int | 0 <= b < 256

  const TOKEN_SIZE: nat := 4
  const BEGIN_NODE: nat := 1
  const END_NODE: nat := 2
  const PROP: nat := 3
  const NOP: nat := 4
  const END: nat := 9

  /** A blob in memory; offsets are addresses, and what lies behind the blob reads as zero. */
  datatype Dtb = Dtb(blob: seq<Byte>, structOffset: nat, structSize: nat, stringOffset: nat, stringSize: nat) {
    function StructEnd(): nat {
      structOffset + structSize
    }

    function Mem(p: nat): Byte {
      if p < |blob| then blob[p] else 0
    }

    /** A big-endian word. */
    function Word(p: nat): nat {
      ((Mem(p) * 256 + Mem(p + 1)) * 256 + Mem(p + 2)) * 256 + Mem(p + 3)
    }

    function ReadNode(p: nat): Option<nat> {
      if p >= StructEnd() then None else Some(Word(p))
    }
  }

  /** A tree; the padding and the NOP tokens between the parts of a node are part of its representation. */
  datatype Node = Node(name: seq<Byte>, items: seq<Item>)

  datatype Item = Nop | Prop(nameOffset: nat, value: seq<Byte>) | Child(node: Node)

  predicate ChildItem(node: Node, k: nat) {
    k < |node.items| && node.items[k].Child?
  }

  predicate NopItem(node: Node, k: nat) {
    k < |node.items| && node.items[k].Nop?
  }

  predicate PropItem(node: Node, k: nat) {
    k < |node.items| && node.items[k].Prop?
  }

  /** n rounded up to whole tokens. */
  function Padded(n: nat): (r: nat)
    ensures r % 4 == 0 && n <= r < n + 4
  {
    (n + 3) / 4 * 4
  }

  // ---------------------------------------------------------------- positions

  function Size(node: Node): (s: nat)
    ensures s % 4 == 0
    decreases node, |node.items| + 1
  {
    2 * TOKEN_SIZE + Padded(|node.name| + 1) + ItemsSize(node, |node.items|)
  }

  /** The size of the first k items of a node. */
  function ItemsSize(node: Node, k: nat): (s: nat)
    requires k <= |node.items|
    ensures s % 4 == 0
    decreases node, k
  {
    if k == 0 then 0 else ItemsSize(node, k - 1) + ItemSize(node.items[k - 1])
  }

  function ItemSize(item: Item): (s: nat)
    ensures s % 4 == 0 && s >= 4
    decreases item, 0
  {
    match item
    case Nop => TOKEN_SIZE
    case Prop(_, value) => 3 * TOKEN_SIZE + Padded(|value|)
    case Child(node) => Size(node)
  }

  /** Where the first item of a node lies that begins at p; a node is known by this address. */
  function Body(node: Node, p: nat): nat {
    p + TOKEN_SIZE + Padded(|node.name| + 1)
  }

  /** Where item k of a node lies that begins at p. */
  function ItemStart(node: Node, p: nat, k: nat): nat
    requires k <= |node.items|
  {
    Body(node, p) + ItemsSize(node, k)
  }

  // ---------------------------------------------------------------- representation

  ghost predicate StringAt(d: Dtb, p: nat, s: seq<Byte>) {
    (forall i :: 0 <= i < |s| ==> d.Mem(p + i) == s[i] && s[i] != 0) && d.Mem(p + |s|) == 0
  }

  /** The node at p lies in the structure block, on token boundaries. */
  predicate Inside(d: Dtb, node: Node, p: nat) {
    p % 4 == 0 && p >= d.structOffset && p + Size(node) <= d.StructEnd()
  }

  /** The blob represents the node at p. */
  ghost predicate NodeAt(d: Dtb, node: Node, p: nat)
    decreases node, |node.items| + 1
  {
    && Inside(d, node, p)
    && d.Word(p) == BEGIN_NODE
    && StringAt(d, p + TOKEN_SIZE, node.name)
    && (forall x: nat :: p + TOKEN_SIZE + |node.name| < x < Body(node, p) ==> d.Mem(x) == 0)
    && ItemsAt(d, node, p)
    && d.Word(ItemStart(node, p, |node.items|)) == END_NODE
  }

  ghost predicate ItemsAt(d: Dtb, node: Node, p: nat)
    decreases node, |node.items|
  {
    forall k {:trigger ItemStart(node, p, k)} :: 0 <= k < |node.items| ==> ItemAt(d, node.items[k], ItemStart(node, p, k))
  }

  ghost predicate ItemAt(d: Dtb, item: Item, p: nat)
    decreases item, 0
  {
    match item
    case Nop => d.Word(p) == NOP
    case Prop(nameOffset, value) =>
      && d.Word(p) == PROP && d.Word(p + 4) == |value| && d.Word(p + 8) == nameOffset < d.stringSize
      && forall i :: 0 <= i < |value| ==> d.Mem(p + 12 + i) == value[i]
    case Child(node) => NodeAt(d, node, p)
  }

  /** Properties come before children, as section 5.4.2 of the Devicetree Specification v0.4 requires. */
  ghost predicate PropsFirst(node: Node)
    decreases node
  {
    && (forall k: nat {:trigger ChildItem(node, k)} :: ChildItem(node, k) ==> NoPropsFrom(node, k))
    && (forall k: nat {:trigger ChildItem(node, k)} :: ChildItem(node, k) ==> PropsFirst(node.items[k].node))
  }

  ghost predicate NoPropsFrom(node: Node, k: nat) {
    forall j: nat {:trigger PropItem(node, j)} :: k <= j ==> !PropItem(node, j)
  }

  lemma {:induction false} ItemsSizeMonotone(node: Node, j: nat, k: nat)
    requires j <= k <= |node.items|
    ensures ItemsSize(node, j) <= ItemsSize(node, k)
    decreases k
  {
    if j < k {
      ItemsSizeMonotone(node, j, k - 1);
    }
  }
}
