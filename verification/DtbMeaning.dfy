/** What the matches of a query are, in terms that do not mention how they are searched for. */
module DtbMeaning {
  import opened DeviceTree
  import opened DtbMatches
  import opened DtbIteration
  import opened DtbEnumeration

  // ---------------------------------------------------------------- names and lists

  /** The name of a node without its unit address: what comes before the first '@'. */
  function NodeName(name: seq<Byte>): (r: seq<Byte>)
    ensures r <= name
  {
    if name == [] || name[0] == '@' as int then [] else [name[0]] + NodeName(name[1..])
  }

  /** A target without '@' is compared with that. */
  lemma {:induction false} NameMatchesNodeName(name: seq<Byte>, target: seq<Byte>)
    requires '@' as int !in target
    ensures NameMatches(name, target) <==> NodeName(name) == target
    decreases name
  {
    if name == [] || name[0] == '@' as int {
      assert target != [] ==> target[0] in target;
    } else if target == [] {
    } else {
      var n, t := name[1..], target[1..];
      NameMatchesNodeName(n, t);
      assert target == [target[0]] + t;
      assert |target| <= |name| ==> name[..|target|] == [name[0]] + n[..|t|];
      assert |t| < |n| ==> n[|t|] == name[|target|];
      assert NodeName(name)[1..] == NodeName(n);
    }
  }

  /** The strings one after the other, each with its NUL, as the value of a property holds them. */
  function Joined(strings: seq<seq<Byte>>): seq<Byte> {
    if strings == [] then [] else strings[0] + [0] + Joined(strings[1..])
  }

  /** A string of the joined list is the first one, or one of the others. */
  lemma StringOfJoined(s: seq<Byte>, rest: seq<Byte>, target: seq<Byte>, i: nat)
    requires NulFree(s) && NulFree(target)
    ensures StringStart(s + [0] + rest, i) && StringIs(s + [0] + rest, i, target)
       <==> if i == 0 then s == target else |s| < i && StringStart(rest, i - |s| - 1) && StringIs(rest, i - |s| - 1, target)
  {
    var list := s + [0] + rest;
    assert list[|s|] == 0 && forall j :: 0 <= j < |s| ==> list[j] == s[j] != 0;
    assert forall j :: |s| < j < |list| ==> list[j] == rest[j - |s| - 1];
    if i == 0 {
      if StringIs(list, 0, target) {
        assert forall j :: 0 <= j < |target| ==> list[j] == list[0..|target|][j] == target[j];
        assert s == target;
      }
      if s == target {
        assert list[0..|target|] == target;
      }
    } else if |s| < i && i + |target| < |list| {
      assert list[i..i + |target|] == rest[i - |s| - 1..i - |s| - 1 + |target|];
    }
  }

  lemma ContainsJoined(s: seq<Byte>, rest: seq<Byte>, target: seq<Byte>)
    requires NulFree(s) && NulFree(target)
    ensures ListContains(s + [0] + rest, target) <==> s == target || ListContains(rest, target)
  {
    var list := s + [0] + rest;
    if i: nat :| StringStart(list, i) && StringIs(list, i, target) {
      StringOfJoined(s, rest, target, i);
    }
    if s == target {
      StringOfJoined(s, rest, target, 0);
    }
    if i: nat :| StringStart(rest, i) && StringIs(rest, i, target) {
      StringOfJoined(s, rest, target, i + |s| + 1);
    }
  }

  /** A list contains exactly the strings that have been joined. */
  lemma {:induction false} ListContainsStrings(strings: seq<seq<Byte>>, target: seq<Byte>)
    requires NulFree(target) && forall i :: 0 <= i < |strings| ==> NulFree(strings[i])
    ensures ListContains(Joined(strings), target) <==> target in strings
    ensures Terminated(Joined(strings))
  {
    if strings != [] {
      ListContainsStrings(strings[1..], target);
      ContainsJoined(strings[0], Joined(strings[1..]), target);
      assert strings == [strings[0]] + strings[1..];
    }
  }

  // ---------------------------------------------------------------- matches

  /** The node n, which begins at a, is in the tree of the node at p, and none of the nodes around it is a hit. */
  ghost predicate Outermost(d: Dtb, q: Query, node: Node, p: nat, n: Node, a: nat)
    decreases node
  {
    || (n == node && a == p)
    || (!Hit(d, node, q) && exists k: nat :: OutermostBelow(d, q, node, p, k, n, a))
  }

  ghost predicate OutermostBelow(d: Dtb, q: Query, node: Node, p: nat, k: nat, n: Node, a: nat)
    decreases node, 0
  {
    ChildItem(node, k) && Outermost(d, q, node.items[k].node, ItemStart(node, p, k), n, a)
  }

  /** Some item from k on is a child with the match. */
  ghost predicate InChildFrom(d: Dtb, q: Query, node: Node, p: nat, k: nat, m: Match) {
    exists j: nat {:trigger ChildItem(node, j)} :: k <= j && ChildItem(node, j) && m in Matches(d, node.items[j].node, ItemStart(node, p, j), q)
  }

  lemma {:induction false} MatchesFromExactly(d: Dtb, q: Query, node: Node, p: nat, k: nat, m: Match)
    requires k <= |node.items|
    ensures m in MatchesFrom(d, node, p, k, q) <==> InChildFrom(d, q, node, p, k, m)
    decreases |node.items| - k
  {
    if k < |node.items| {
      MatchesFromExactly(d, q, node, p, k + 1, m);
      assert node.items[k].Child? ==> ChildItem(node, k);
      assert m in MatchesFrom(d, node, p, k, q) <==> m in ItemMatches(d, node.items[k], ItemStart(node, p, k), q) || m in MatchesFrom(d, node, p, k + 1, q);
    }
  }

  /** The matches are exactly the hits that are not inside another one. */
  lemma {:induction false} MatchesExactly(d: Dtb, q: Query, node: Node, p: nat, n: Node, a: nat)
    ensures Match(n, a) in Matches(d, node, p, q) <==> Hit(d, n, q) && Outermost(d, q, node, p, n, a)
    decreases node
  {
    if !Hit(d, node, q) {
      MatchesFromExactly(d, q, node, p, 0, Match(n, a));
      forall k: nat | ChildItem(node, k)
        ensures Match(n, a) in Matches(d, node.items[k].node, ItemStart(node, p, k), q) <==> Hit(d, n, q) && OutermostBelow(d, q, node, p, k, n, a)
      {
        MatchesExactly(d, q, node.items[k].node, ItemStart(node, p, k), n, a);
      }
    }
  }

  /** The matches begin one behind the other, from lo to before hi. */
  ghost predicate InOrder(m: seq<Match>, lo: nat, hi: nat) {
    && (forall i :: 0 <= i < |m| ==> lo <= m[i].p < hi)
    && (forall i, j :: 0 <= i < j < |m| ==> m[i].p < m[j].p)
  }

  lemma InOrderJoined(m: seq<Match>, n: seq<Match>, lo: nat, mid: nat, hi: nat)
    requires InOrder(m, lo, mid) && InOrder(n, mid, hi) && lo <= mid <= hi
    ensures InOrder(m + n, lo, hi)
  {
  }

  lemma {:induction false} MatchesFromInOrder(d: Dtb, q: Query, node: Node, p: nat, k: nat)
    requires k <= |node.items|
    ensures InOrder(MatchesFrom(d, node, p, k, q), ItemStart(node, p, k), ItemStart(node, p, |node.items|))
    decreases node, |node.items| - k
  {
    if k < |node.items| {
      MatchesFromInOrder(d, q, node, p, k + 1);
      ItemsSizeMonotone(node, k + 1, |node.items|);
      if node.items[k].Child? {
        MatchesInOrder(d, q, node.items[k].node, ItemStart(node, p, k));
      }
      InOrderJoined(ItemMatches(d, node.items[k], ItemStart(node, p, k), q), MatchesFrom(d, node, p, k + 1, q),
                    ItemStart(node, p, k), ItemStart(node, p, k + 1), ItemStart(node, p, |node.items|));
    }
  }

  /** They come in document order, each once. */
  lemma {:induction false} MatchesInOrder(d: Dtb, q: Query, node: Node, p: nat)
    ensures InOrder(Matches(d, node, p, q), p, p + Size(node))
    decreases node, |node.items| + 1
  {
    if !Hit(d, node, q) {
      MatchesFromInOrder(d, q, node, p, 0);
    }
  }

  /** The matches of a document are the hits below it that are not inside another one. */
  lemma AllMatchesExactly(d: Dtb, q: Query, doc: Node, n: Node, a: nat)
    requires d.structOffset >= 8
    ensures Match(n, a) in AllMatches(d, q, doc)
       <==> Hit(d, n, q) && exists k: nat {:trigger ChildItem(doc, k)} :: OutermostBelow(d, q, doc, d.structOffset - 8, k, n, a)
  {
    var p := d.structOffset - 8;
    MatchesFromExactly(d, q, doc, p, 0, Match(n, a));
    forall k: nat | ChildItem(doc, k)
      ensures Match(n, a) in Matches(d, doc.items[k].node, ItemStart(doc, p, k), q) <==> Hit(d, n, q) && OutermostBelow(d, q, doc, p, k, n, a)
    {
      MatchesExactly(d, q, doc.items[k].node, ItemStart(doc, p, k), n, a);
    }
  }

  /** They come in document order. */
  lemma AllMatchesInOrder(d: Dtb, q: Query, doc: Node)
    requires d.structOffset >= 8
    ensures InOrder(AllMatches(d, q, doc), ItemStart(doc, d.structOffset - 8, 0), ItemStart(doc, d.structOffset - 8, |doc.items|))
  {
    MatchesFromInOrder(d, q, doc, d.structOffset - 8, 0);
  }

  // ---------------------------------------------------------------- a blob

  /** A root with a node "a", which has a NOP token and a property "compatible" with the value "x". */
  function SmallTree(): Node {
    Node([], [Child(Node([0x61], [Nop, Prop(1, [0x78, 0])]))])
  }

  function SmallDocument(): Node {
    Node([], [Child(SmallTree())])
  }

  /** The bytes of a blob for it: eight of a header, the structure block of 48 bytes, and then an empty string and the name. */
  function SmallByte(i: nat): Byte {
    match i
    case 11 => 0x01 // begin of the root, whose name is empty
    case 19 => 0x01 // begin of node "a"
    case 20 => 0x61
    case 27 => 0x04 // NOP
    case 31 => 0x03 // a property of 2 bytes, whose name is at offset 1 of the strings
    case 35 => 0x02
    case 39 => 0x01
    case 40 => 0x78
    case 47 => 0x02 // end of node "a"
    case 51 => 0x02 // end of the root
    case 55 => 0x09 // end of the block
    case 57 => 0x63 // "compatible"
    case 58 => 0x6F
    case 59 => 0x6D
    case 60 => 0x70
    case 61 => 0x61
    case 62 => 0x74
    case 63 => 0x69
    case 64 => 0x62
    case 65 => 0x6C
    case 66 => 0x65
    case _ => 0x00
  }

  function SmallBlob(): Dtb {
    Dtb(seq(68, i requires 0 <= i < 68 => SmallByte(i)), 8, 48, 56, 12)
  }

  lemma SmallSizes()
    ensures var a := SmallTree().items[0].node;
            && ItemsSize(a, 1) == 4 && ItemsSize(a, 2) == 20 && Size(a) == 32
            && ItemsSize(SmallTree(), 1) == 32 && Size(SmallTree()) == 44 && ItemsSize(SmallDocument(), 1) == 44
  {
    var a := SmallTree().items[0].node;
    assert ItemsSize(a, 0) == 0 && ItemsSize(a, 1) == ItemsSize(a, 0) + ItemSize(Nop);
    assert ItemsSize(a, 2) == ItemsSize(a, 1) + ItemSize(Prop(1, [0x78, 0]));
  }

  lemma LowByte(d: Dtb, p: nat, x: Byte)
    requires d.Mem(p) == 0 && d.Mem(p + 1) == 0 && d.Mem(p + 2) == 0 && d.Mem(p + 3) == x
    ensures d.Word(p) == x
  {
  }

  lemma SmallMem(i: nat)
    ensures SmallBlob().Mem(i) == SmallByte(i)
  {
    assert i >= 68 ==> SmallByte(i) == 0;
  }

  lemma SmallWord(p: nat, x: Byte)
    requires SmallByte(p) == 0 && SmallByte(p + 1) == 0 && SmallByte(p + 2) == 0 && SmallByte(p + 3) == x
    ensures SmallBlob().Word(p) == x
  {
    SmallMem(p);
    SmallMem(p + 1);
    SmallMem(p + 2);
    SmallMem(p + 3);
    LowByte(SmallBlob(), p, x);
  }

  /** The bytes of node "a", which begins at 16. */
  ghost predicate SmallNodeBytes(d: Dtb) {
    && d.structOffset == 8 && d.StructEnd() == 56 && d.stringSize == 12
    && d.Word(16) == 1 && d.Mem(20) == 0x61 && d.Mem(21) == 0 && d.Mem(22) == 0 && d.Mem(23) == 0
    && d.Word(24) == 4 && d.Word(28) == 3 && d.Word(32) == 2 && d.Word(36) == 1 && d.Mem(40) == 0x78 && d.Mem(41) == 0
    && d.Word(44) == 2
  }

  lemma SmallBytes()
    ensures SmallNodeBytes(SmallBlob())
  {
    SmallWord(16, 1);
    SmallWord(24, 4);
    SmallWord(28, 3);
    SmallWord(32, 2);
    SmallWord(36, 1);
    SmallWord(44, 2);
    SmallMem(20);
    SmallMem(21);
    SmallMem(22);
    SmallMem(23);
    SmallMem(40);
    SmallMem(41);
  }

  lemma SmallNodeAt(d: Dtb)
    requires SmallNodeBytes(d)
    ensures NodeAt(d, SmallTree().items[0].node, 16)
  {
    var a := SmallTree().items[0].node;
    SmallSizes();
    assert Body(a, 16) == 24 && ItemStart(a, 16, 0) == 24 && ItemStart(a, 16, 1) == 28 && ItemStart(a, 16, 2) == 44;
    assert ItemAt(d, Nop, 24);
    assert ItemAt(d, Prop(1, [0x78, 0]), 28);
    forall k: nat | k < 2
      ensures ItemAt(d, a.items[k], ItemStart(a, 16, k))
    {
      assert k == 0 || k == 1;
    }
    assert ItemsAt(d, a, 16);
  }

  lemma SmallTreeAt(d: Dtb)
    requires SmallNodeBytes(d) && d.Word(8) == 1 && d.Mem(12) == 0 && d.Mem(13) == 0 && d.Mem(14) == 0 && d.Mem(15) == 0 && d.Word(48) == 2
    ensures NodeAt(d, SmallTree(), 8)
  {
    SmallSizes();
    SmallNodeAt(d);
    assert Body(SmallTree(), 8) == 16 && ItemStart(SmallTree(), 8, 0) == 16 && ItemStart(SmallTree(), 8, 1) == 48;
    assert ItemsAt(d, SmallTree(), 8);
  }

  lemma SmallDocAt(d: Dtb)
    requires d.structOffset == 8 && d.StructEnd() == 56 && NodeAt(d, SmallTree(), 8) && d.Word(52) == 9
    ensures DocAt(d, SmallDocument())
  {
    SmallSizes();
    assert Body(SmallDocument(), 0) == 8 && ItemStart(SmallDocument(), 0, 0) == 8;
    assert ItemsAt(d, SmallDocument(), 0);
  }

  /** What the bytes mean: the tree, in which the node is found by its name and as a device compatible with "x". */
  lemma SmallBlobHolds()
    ensures DocAt(SmallBlob(), SmallDocument())
    ensures AllMatches(SmallBlob(), ByName([0x61]), SmallDocument()) == [Match(SmallTree().items[0].node, 16)]
    ensures AllMatches(SmallBlob(), ByCompatible([0x78]), SmallDocument()) == [Match(SmallTree().items[0].node, 16)]
  {
    SmallBytes();
    SmallWord(8, 1);
    SmallWord(48, 2);
    SmallWord(52, 9);
    SmallMem(12);
    SmallMem(13);
    SmallMem(14);
    SmallMem(15);
    SmallTreeAt(SmallBlob());
    SmallDocAt(SmallBlob());
    SmallHits(ByName([0x61]));
    SmallHits(ByCompatible([0x78]));
  }

  lemma SmallHits(q: Query)
    requires q == ByName([0x61]) || q == ByCompatible([0x78])
    ensures AllMatches(SmallBlob(), q, SmallDocument()) == [Match(SmallTree().items[0].node, 16)]
  {
    var d, doc, a := SmallBlob(), SmallDocument(), SmallTree().items[0].node;
    SmallSizes();
    assert StringStart([0x78, 0], 0) && StringIs([0x78, 0], 0, [0x78]);
    assert NamedAt(d, 1, COMPATIBLE());
    assert CompatibleProp(d, a.items[1], [0x78]);
    assert Hit(d, a, q) && !Hit(d, SmallTree(), q);
    assert ItemStart(doc, 0, 0) == 8 && ItemStart(SmallTree(), 8, 0) == 16;
    assert MatchesFrom(d, SmallTree(), 8, 1, q) == [] && MatchesFrom(d, doc, 0, 1, q) == [];
    assert MatchesFrom(d, SmallTree(), 8, 0, q) == Matches(d, a, 16, q) + [];
    assert MatchesFrom(d, doc, 0, 0, q) == Matches(d, SmallTree(), 8, q) + [];
  }
}
