/** What a search in a devicetree is for, stated on trees. */
module DtbMatches {
  import opened DeviceTree

  datatype Query = ByName(target: seq<Byte>) | ByCompatible(target: seq<Byte>)

  predicate NulFree(s: seq<Byte>) {
    forall i :: 0 <= i < |s| ==> s[i] != 0
  }

  /** The name up to its unit address is the target. */
  predicate NameMatches(name: seq<Byte>, target: seq<Byte>) {
    |target| <= |name| && name[..|target|] == target && (|name| == |target| || name[|target|] == '@' as int)
  }

  /** A list of strings, each with its NUL. */
  predicate Terminated(list: seq<Byte>) {
    list == [] || list[|list| - 1] == 0
  }

  /** A string of the list begins at s. */
  predicate StringStart(list: seq<Byte>, s: nat) {
    s < |list| && (s == 0 || list[s - 1] == 0)
  }

  predicate StringIs(list: seq<Byte>, s: nat, target: seq<Byte>) {
    s + |target| < |list| && list[s..s + |target|] == target && list[s + |target|] == 0
  }

  /** The target is one of the strings of the list. */
  ghost predicate ListContains(list: seq<Byte>, target: seq<Byte>) {
    exists s: nat {:trigger StringIs(list, s, target)} :: StringStart(list, s) && StringIs(list, s, target)
  }

  function COMPATIBLE(): seq<Byte> {
    // "compatible"
    [0x63, 0x6F, 0x6D, 0x70, 0x61, 0x74, 0x69, 0x62, 0x6C, 0x65]
  }

  /** The string at an offset of the strings block is the name. */
  ghost predicate NamedAt(d: Dtb, nameOffset: nat, name: seq<Byte>) {
    (forall i :: 0 <= i < |name| ==> d.Mem(d.stringOffset + nameOffset + i) == name[i]) && d.Mem(d.stringOffset + nameOffset + |name|) == 0
  }

  /** A property that names the target as a compatible device. */
  ghost predicate CompatibleProp(d: Dtb, item: Item, target: seq<Byte>) {
    item.Prop? && NamedAt(d, item.nameOffset, COMPATIBLE()) && ListContains(item.value, target)
  }

  ghost predicate Hit(d: Dtb, node: Node, q: Query) {
    match q
    case ByName(target) => NameMatches(node.name, target)
    case ByCompatible(target) => exists k :: 0 <= k < |node.items| && CompatibleProp(d, node.items[k], target)
  }

  /** Every list of compatible devices of the tree is properly terminated. */
  ghost predicate ListsOk(d: Dtb, node: Node)
    decreases node
  {
    && (forall k: nat {:trigger PropItem(node, k)} :: PropItem(node, k) && NamedAt(d, node.items[k].nameOffset, COMPATIBLE()) ==> Terminated(node.items[k].value))
    && (forall k: nat {:trigger ChildItem(node, k)} :: ChildItem(node, k) ==> ListsOk(d, node.items[k].node))
  }

  /** A node and where it begins. */
  datatype Match = Match(node: Node, p: nat) {
    function Address(): nat {
      Body(node, p)
    }
  }

  /** The nodes, in document order, that match and are not below another one that does. */
  ghost function Matches(d: Dtb, node: Node, p: nat, q: Query): seq<Match>
    decreases node, |node.items| + 1
  {
    if Hit(d, node, q) then [Match(node, p)] else MatchesFrom(d, node, p, 0, q)
  }

  /** The same for the items of a node from item k on. */
  ghost function MatchesFrom(d: Dtb, node: Node, p: nat, k: nat, q: Query): seq<Match>
    requires k <= |node.items|
    decreases node, |node.items| - k
  {
    if k == |node.items| then []
    else ItemMatches(d, node.items[k], ItemStart(node, p, k), q) + MatchesFrom(d, node, p, k + 1, q)
  }

  ghost function ItemMatches(d: Dtb, item: Item, p: nat, q: Query): seq<Match>
    decreases item, 0
  {
    match item
    case Child(node) => Matches(d, node, p, q)
    case Nop => []
    case Prop(_, _) => []
  }
}
