/** Flattened devicetrees written out, byte for byte: what the parser is proved against. */
module DtbSerializer {
  import opened DeviceTree
  import opened DtbMatches
  import opened DtbParser
  import opened DtbSearch
  import opened DtbIteration
  import opened DtbEnumeration

  const WORD_LIMIT: nat := 0x1_0000_0000

  /** A big-endian word. */
  function Be32(w: nat): (s: seq<Byte>)
    requires w < WORD_LIMIT
    ensures |s| == 4
  {
    [w / 0x100_0000, w / 0x1_0000 % 256, w / 0x100 % 256, w % 256]
  }

  function Zeros(n: nat): (s: seq<Byte>)
    ensures |s| == n && forall i :: 0 <= i < n ==> s[i] == 0
  {
    if n == 0 then [] else Zeros(n - 1) + [0]
  }

  /** Bytes, and zeros up to the next token boundary. */
  function PaddedBytes(s: seq<Byte>): (r: seq<Byte>)
    ensures |r| == Padded(|s|)
  {
    s + Zeros(Padded(|s|) - |s|)
  }

  /** The trees that can be written out: names without NUL, lengths and offsets that fit into a word. */
  ghost predicate Writable(node: Node, stringSize: nat)
    decreases node
  {
    && NulFree(node.name)
    && forall k :: 0 <= k < |node.items| ==> ItemWritable(node.items[k], stringSize)
  }

  ghost predicate ItemWritable(item: Item, stringSize: nat)
    decreases item
  {
    match item
    case Nop => true
    case Prop(nameOffset, value) => nameOffset < stringSize <= WORD_LIMIT && |value| < WORD_LIMIT
    case Child(node) => Writable(node, stringSize)
  }

  ghost function Serialize(node: Node, stringSize: nat): (s: seq<Byte>)
    requires Writable(node, stringSize)
    ensures |s| == Size(node)
    decreases node, |node.items| + 1
  {
    Be32(BEGIN_NODE) + PaddedBytes(node.name + [0]) + SerializeItems(node, |node.items|, stringSize) + Be32(END_NODE)
  }

  ghost function SerializeItems(node: Node, k: nat, stringSize: nat): (s: seq<Byte>)
    requires Writable(node, stringSize) && k <= |node.items|
    ensures |s| == ItemsSize(node, k)
    decreases node, k
  {
    if k == 0 then [] else SerializeItems(node, k - 1, stringSize) + SerializeItem(node.items[k - 1], stringSize)
  }

  ghost function SerializeItem(item: Item, stringSize: nat): (s: seq<Byte>)
    requires ItemWritable(item, stringSize)
    ensures |s| == ItemSize(item)
    decreases item, 0
  {
    match item
    case Nop => Be32(NOP)
    case Prop(nameOffset, value) => Be32(PROP) + Be32(|value|) + Be32(nameOffset) + PaddedBytes(value)
    case Child(node) => Serialize(node, stringSize)
  }

  // ---------------------------------------------------------------- bytes in a blob

  /** The bytes lie at p. */
  ghost predicate BytesAt(d: Dtb, p: nat, s: seq<Byte>) {
    forall i :: 0 <= i < |s| ==> d.Mem(p + i) == s[i]
  }

  lemma BytesSplit(d: Dtb, p: nat, a: seq<Byte>, b: seq<Byte>)
    requires BytesAt(d, p, a + b)
    ensures BytesAt(d, p, a) && BytesAt(d, p + |a|, b)
  {
    forall i | 0 <= i < |a|
      ensures d.Mem(p + i) == a[i]
    {
      assert (a + b)[i] == a[i];
    }
    forall i | 0 <= i < |b|
      ensures d.Mem(p + |a| + i) == b[i]
    {
      assert d.Mem(p + (|a| + i)) == (a + b)[|a| + i];
    }
  }

  lemma WordOf(d: Dtb, p: nat, w: nat)
    requires w < WORD_LIMIT && BytesAt(d, p, Be32(w))
    ensures d.Word(p) == w
  {
    var s := Be32(w);
    assert d.Mem(p + 0) == s[0] && d.Mem(p + 1) == s[1] && d.Mem(p + 2) == s[2] && d.Mem(p + 3) == s[3];
    WordValue(w);
  }

  lemma WordValue(w: nat)
    ensures ((w / 0x100_0000 * 256 + w / 0x1_0000 % 256) * 256 + w / 0x100 % 256) * 256 + w % 256 == w
  {
    assert w / 0x100 / 256 == w / 0x1_0000 && w / 0x1_0000 / 256 == w / 0x100_0000;
  }

  /** A name, its NUL and its padding. */
  lemma NameWritten(d: Dtb, p: nat, name: seq<Byte>)
    requires NulFree(name) && BytesAt(d, p, PaddedBytes(name + [0]))
    ensures StringAt(d, p, name) && forall x: nat :: p + |name| < x < p + Padded(|name| + 1) ==> d.Mem(x) == 0
  {
    var zeros := Zeros(Padded(|name| + 1) - (|name| + 1));
    BytesSplit(d, p, name + [0], zeros);
    BytesSplit(d, p, name, [0]);
    assert d.Mem(p + |name| + 0) == [0][0];
    forall x: nat | p + |name| < x < p + Padded(|name| + 1)
      ensures d.Mem(x) == 0
    {
      assert d.Mem(p + (|name| + 1) + (x - (p + |name| + 1))) == zeros[x - (p + |name| + 1)];
    }
  }

  // ---------------------------------------------------------------- trees in a blob

  /** A node that is written out at p is represented there. */
  lemma {:induction false} NodeWritten(d: Dtb, node: Node, p: nat)
    requires Writable(node, d.stringSize) && BytesAt(d, p, Serialize(node, d.stringSize)) && Inside(d, node, p)
    ensures NodeAt(d, node, p)
    decreases node, |node.items| + 2
  {
    var name, items := PaddedBytes(node.name + [0]), SerializeItems(node, |node.items|, d.stringSize);
    BytesSplit(d, p, Be32(BEGIN_NODE) + name + items, Be32(END_NODE));
    BytesSplit(d, p, Be32(BEGIN_NODE) + name, items);
    BytesSplit(d, p, Be32(BEGIN_NODE), name);
    WordOf(d, p, BEGIN_NODE);
    WordOf(d, ItemStart(node, p, |node.items|), END_NODE);
    NameWritten(d, p + TOKEN_SIZE, node.name);
    AllItemsWritten(d, node, p);
  }

  /** Item k, which is one of the first n. */
  lemma {:induction false} ItemsWritten(d: Dtb, node: Node, p: nat, n: nat, k: nat)
    requires Writable(node, d.stringSize) && k < n <= |node.items|
    requires BytesAt(d, Body(node, p), SerializeItems(node, n, d.stringSize))
    requires ItemsInside(d, node, p)
    ensures ItemAt(d, node.items[k], ItemStart(node, p, k))
    decreases node, n
  {
    BytesSplit(d, Body(node, p), SerializeItems(node, n - 1, d.stringSize), SerializeItem(node.items[n - 1], d.stringSize));
    if k < n - 1 {
      ItemsWritten(d, node, p, n - 1, k);
    } else {
      ItemWritten(d, node, p, k);
    }
  }

  lemma {:induction false} AllItemsWritten(d: Dtb, node: Node, p: nat)
    requires Writable(node, d.stringSize) && BytesAt(d, Body(node, p), SerializeItems(node, |node.items|, d.stringSize))
    requires ItemsInside(d, node, p)
    ensures ItemsAt(d, node, p)
    decreases node, |node.items| + 1
  {
    forall k: nat | k < |node.items|
      ensures ItemAt(d, node.items[k], ItemStart(node, p, k))
    {
      ItemsWritten(d, node, p, |node.items|, k);
    }
  }

  /** All items lie within the structure block. */
  predicate ItemsInside(d: Dtb, node: Node, p: nat) {
    p % 4 == 0 && d.structOffset <= Body(node, p) && ItemStart(node, p, |node.items|) <= d.StructEnd()
  }

  lemma {:induction false} ItemWritten(d: Dtb, node: Node, p: nat, k: nat)
    requires Writable(node, d.stringSize) && k < |node.items| && ItemsInside(d, node, p)
    requires BytesAt(d, ItemStart(node, p, k), SerializeItem(node.items[k], d.stringSize))
    ensures ItemAt(d, node.items[k], ItemStart(node, p, k))
    decreases node, k
  {
    var start := ItemStart(node, p, k);
    match node.items[k]
    case Nop => WordOf(d, start, NOP);
    case Prop(nameOffset, value) => PropWritten(d, nameOffset, value, start);
    case Child(child) =>
      ChildInside(d, node, p, k);
      NodeWritten(d, child, start);
  }

  lemma ChildInside(d: Dtb, node: Node, p: nat, k: nat)
    requires ItemsInside(d, node, p) && ChildItem(node, k)
    ensures Inside(d, node.items[k].node, ItemStart(node, p, k))
  {
    ItemAligned(node, p, k);
    NextItem(node, p, k);
    ItemsSizeMonotone(node, k + 1, |node.items|);
  }

  lemma PropWritten(d: Dtb, nameOffset: nat, value: seq<Byte>, p: nat)
    requires ItemWritable(Prop(nameOffset, value), d.stringSize) && BytesAt(d, p, SerializeItem(Prop(nameOffset, value), d.stringSize))
    ensures ItemAt(d, Prop(nameOffset, value), p)
  {
    var a, b, c := Be32(PROP), Be32(|value|), Be32(nameOffset);
    BytesSplit(d, p, a + b + c, PaddedBytes(value));
    BytesSplit(d, p, a + b, c);
    BytesSplit(d, p, a, b);
    WordOf(d, p, PROP);
    WordOf(d, p + 4, |value|);
    WordOf(d, p + 8, nameOffset);
    BytesSplit(d, p + 12, value, Zeros(Padded(|value|) - |value|));
  }

  // ---------------------------------------------------------------- documents

  /** A document of any root: NOP tokens may stand around it. */
  ghost predicate WritableDocument(doc: Node, stringSize: nat) {
    doc.name == [] && NoPropsFrom(doc, 0) && Writable(doc, stringSize)
  }

  /** A blob that holds the document from offset 8 on, and then the strings. */
  ghost function Flattened(doc: Node, strings: seq<Byte>): Dtb
    requires WritableDocument(doc, |strings|)
  {
    var items := SerializeItems(doc, |doc.items|, |strings|);
    Dtb(Zeros(8) + items + Be32(END) + strings, 8, |items| + TOKEN_SIZE, 8 + |items| + TOKEN_SIZE, |strings|)
  }

  /** What is written out is what the parser takes it for. */
  lemma FlattenedDocument(doc: Node, strings: seq<Byte>)
    requires WritableDocument(doc, |strings|)
    ensures DocAt(Flattened(doc, strings), doc)
  {
    var d := Flattened(doc, strings);
    var items := SerializeItems(doc, |doc.items|, |strings|);
    var size := ItemsSize(doc, |doc.items|);
    assert d.blob[8..8 + size] == items && d.blob[8 + size..12 + size] == Be32(END);
    forall i | 0 <= i < size
      ensures d.Mem(8 + i) == items[i]
    {
      assert d.blob[8..8 + size][i] == d.blob[8 + i];
    }
    forall i | 0 <= i < 4
      ensures d.Mem(8 + size + i) == Be32(END)[i]
    {
      assert d.blob[8 + size..12 + size][i] == d.blob[8 + size + i];
    }
    WordOf(d, 8 + size, END);
    DocStart(doc, 0, |doc.items|);
    DocStart(doc, 0, 0);
    AllItemsWritten(d, doc, 0);
  }

  // ---------------------------------------------------------------- a match that is missed

  function LeafB(): Node {
    Node([0x62], [])
  }

  function NodeA(): Node {
    Node([0x61], [Child(LeafB())])
  }

  function LeafA(): Node {
    Node([0x61], [])
  }

  function RootNode(): Node {
    Node([], [Child(NodeA()), Child(LeafA())])
  }

  /** A root with two nodes "a"; the first one has a child "b". */
  function TwoNodes(): Node {
    Node([], [Child(RootNode())])
  }

  lemma TwoNodesWritable()
    ensures WritableDocument(TwoNodes(), 0) && PropsFirst(RootNode())
  {
    assert Writable(LeafB(), 0) && Writable(LeafA(), 0);
    assert Writable(NodeA(), 0);
    assert Writable(RootNode(), 0);
    assert PropsFirst(LeafB()) && PropsFirst(LeafA());
    assert PropsFirst(NodeA());
  }

  function QueryA(): Query {
    ByName([0x61])
  }

  lemma RootMatches(d: Dtb, p: nat)
    ensures Matches(d, RootNode(), p, QueryA())
         == [Match(NodeA(), ItemStart(RootNode(), p, 0)), Match(LeafA(), ItemStart(RootNode(), p, 1))]
  {
    assert NameMatches(NodeA().name, [0x61]) && NameMatches(LeafA().name, [0x61]) && !NameMatches(RootNode().name, [0x61]);
    MatchesOfTwo(d, QueryA(), RootNode(), p);
  }

  lemma AllMatchesOfTwoNodes(d: Dtb)
    requires d.structOffset >= 8
    ensures |AllMatches(d, QueryA(), TwoNodes())| == 2 && AllMatches(d, QueryA(), TwoNodes())[0].node == NodeA()
  {
    var p := ItemStart(TwoNodes(), d.structOffset - 8, 0);
    MatchesOfOne(d, QueryA(), TwoNodes(), d.structOffset - 8);
    RootMatches(d, p);
  }

  lemma StopsAtNodeA(m: seq<Match>)
    requires m != [] && m[0].node == NodeA()
    ensures Visited(m) == 1
  {
    assert ChildItem(NodeA(), 0);
  }

  lemma TwoNodesOk(d: Dtb)
    requires DocAt(d, TwoNodes())
    ensures Document(d, QueryA(), TwoNodes())
  {
    TwoNodesWritable();
    forall k: nat | ChildItem(TwoNodes(), k)
      ensures PropsFirst(TwoNodes().items[k].node)
    {
      assert k == 0;
    }
  }

  /** Repeated searches for "a" miss the second node: they cannot pass the child of the first one. */
  lemma MissedMatch()
    ensures WritableDocument(TwoNodes(), 0)
    ensures var d, m := Flattened(TwoNodes(), []), AllMatches(Flattened(TwoNodes(), []), QueryA(), TwoNodes());
            Document(d, QueryA(), TwoNodes()) && |m| == 2 && Visited(m) == 1
  {
    var doc := TwoNodes();
    TwoNodesWritable();
    var d := Flattened(doc, []);
    FlattenedDocument(doc, []);
    TwoNodesOk(d);
    AllMatchesOfTwoNodes(d);
    StopsAtNodeA(AllMatches(d, QueryA(), doc));
  }

  lemma MatchesOfTwo(d: Dtb, q: Query, node: Node, p: nat)
    requires |node.items| == 2 && node.items[0].Child? && node.items[1].Child?
    ensures MatchesFrom(d, node, p, 0, q)
         == Matches(d, node.items[0].node, ItemStart(node, p, 0), q) + Matches(d, node.items[1].node, ItemStart(node, p, 1), q)
  {
    MatchesStep(d, q, node, p, 0);
    MatchesStep(d, q, node, p, 1);
    NothingLeft(d, q, node, p);
  }

  lemma MatchesOfOne(d: Dtb, q: Query, node: Node, p: nat)
    requires |node.items| == 1 && node.items[0].Child?
    ensures MatchesFrom(d, node, p, 0, q) == Matches(d, node.items[0].node, ItemStart(node, p, 0), q)
  {
    MatchesStep(d, q, node, p, 0);
    NothingLeft(d, q, node, p);
  }
}
