/** The recursive descent over the token stream of a flattened devicetree. */
module DtbParser {
  import opened Wrappers
  import opened DeviceTree
  import opened DtbMatches
  import opened DtbCells

  datatype DtbNode = DtbNode(address: nat, addressCells: nat, sizeCells: nat) {
    function Counts(): Cells {
      Cells(addressCells, sizeCells)
    }
  }

  datatype DtbProperty = DtbProperty(address: nat, addressCells: nat, sizeCells: nat, len: nat) {
    function Counts(): Cells {
      Cells(addressCells, sizeCells)
    }
  }

  /** Moves a pointer to the next token boundary, if it is not on one. */
  function SkipPadding(p: nat): (r: nat)
    requires p > 0
    ensures p <= r < p + 4 && r % 4 == 0
  {
    (p - 1) - (p - 1) % 4 + 4
  }

  lemma PaddingOf(p: nat, n: nat)
    requires p % 4 == 0 && p + n > 0
    ensures SkipPadding(p + n) == p + Padded(n)
  {
  }

  // ---------------------------------------------------------------- strings

  /** The string at p ends with the NUL at e. */
  ghost predicate NulAt(d: Dtb, p: nat, e: nat) {
    p <= e && d.Mem(e) == 0 && forall x: nat :: p <= x < e ==> d.Mem(x) != 0
  }

  lemma StringEnds(d: Dtb, p: nat, s: seq<Byte>, e: nat)
    requires StringAt(d, p, s) && NulAt(d, p, e)
    ensures e == p + |s|
  {
    if e < p + |s| {
      NotNul(d, p, s, e - p);
    }
  }

  lemma NotNul(d: Dtb, p: nat, s: seq<Byte>, i: nat)
    requires NulFree(s) && i < |s| && forall j :: 0 <= j < |s| ==> d.Mem(p + j) == s[j]
    ensures d.Mem(p + i) != 0
  {
    assert s[i] != 0;
  }

  method SkipString(d: Dtb, pointer: nat) returns (e: nat)
    ensures NulAt(d, pointer, e)
  {
    e := pointer;
    while d.Mem(e) != 0
      invariant pointer <= e
      invariant forall x: nat :: pointer <= x < e ==> d.Mem(x) != 0
      decreases |d.blob| - e
    {
      e := e + 1;
    }
  }

  /** The bytes at p begin with the name, and then comes a NUL or one of the delimiters. */
  predicate BeginsWith(d: Dtb, p: nat, name: seq<Byte>, delimiter: seq<Byte>) {
    && (forall i :: 0 <= i < |name| ==> d.Mem(p + i) == name[i])
    && (d.Mem(p + |name|) == 0 || d.Mem(p + |name|) in delimiter)
  }

  /** Compares a string of the structure block, and moves behind it. */
  method CompareString(d: Dtb, pointer: nat, name: seq<Byte>, delimiter: seq<Byte>) returns (r: bool, pointer': nat, ghost e: nat)
    requires NulFree(name)
    ensures NulAt(d, pointer, e) && pointer' == SkipPadding(e + 1)
    ensures r <==> BeginsWith(d, pointer, name, delimiter)
  {
    var i := 0;
    while i < |name|
      invariant 0 <= i <= |name|
      invariant forall j :: 0 <= j < i ==> d.Mem(pointer + j) == name[j]
      invariant forall x: nat :: pointer <= x < pointer + i ==> d.Mem(x) != 0
    {
      if d.Mem(pointer + i) != name[i] {
        var end := SkipString(d, pointer + i);
        return false, SkipPadding(end + 1), end;
      }
      i := i + 1;
    }
    var l := d.Mem(pointer + i);
    var end := SkipString(d, pointer + i);
    return l == 0 || l in delimiter, SkipPadding(end + 1), end;
  }

  /** Compares a string of the strings block; None: its offset lies outside. */
  method CompareNameSegment(d: Dtb, nameOffset: nat, name: seq<Byte>, delimiter: seq<Byte>) returns (r: Option<bool>)
    ensures r == if nameOffset >= d.stringSize then None else Some(BeginsWith(d, d.stringOffset + nameOffset, name, delimiter))
  {
    if nameOffset >= d.stringSize {
      return None;
    }
    var p := d.stringOffset + nameOffset;
    var i := 0;
    while i < |name|
      invariant 0 <= i <= |name|
      invariant forall j :: 0 <= j < i ==> d.Mem(p + j) == name[j]
    {
      if d.Mem(p + i) != name[i] {
        return Some(false);
      }
      i := i + 1;
    }
    var l := d.Mem(p + i);
    return Some(l == 0 || l in delimiter);
  }

  /** A node's name begins with the target and ends there or with '@' exactly if it matches. */
  lemma NameCompared(d: Dtb, p: nat, name: seq<Byte>, target: seq<Byte>)
    requires StringAt(d, p, name) && NulFree(target)
    ensures BeginsWith(d, p, target, ['@' as int]) <==> NameMatches(name, target)
  {
    if BeginsWith(d, p, target, ['@' as int]) {
      if |target| > |name| {
        NotNul(d, p, target, |name|);
      }
      forall i | 0 <= i < |target|
        ensures name[i] == target[i]
      {
        assert d.Mem(p + i) == target[i];
      }
      assert |target| < |name| ==> d.Mem(p + |target|) == name[|target|];
    } else if NameMatches(name, target) {
      forall i | 0 <= i < |target|
        ensures d.Mem(p + i) == target[i]
      {
        assert d.Mem(p + i) == name[i] && name[..|target|][i] == target[i];
      }
    }
  }

  // ---------------------------------------------------------------- NOP tokens

  /** There are only NOP tokens from p to e. */
  ghost predicate NopsBetween(d: Dtb, p: nat, e: nat)
    decreases e - p
  {
    p == e || (p + TOKEN_SIZE <= e && d.ReadNode(p) == Some(NOP) && NopsBetween(d, p + TOKEN_SIZE, e))
  }

  lemma {:induction false} NopsExtend(d: Dtb, p: nat, e: nat)
    requires p <= e && NopsBetween(d, p, e) && d.ReadNode(e) == Some(NOP)
    ensures NopsBetween(d, p, e + TOKEN_SIZE)
    decreases e - p
  {
    if p < e {
      NopsExtend(d, p + TOKEN_SIZE, e);
    } else {
      assert NopsBetween(d, p + TOKEN_SIZE, e + TOKEN_SIZE);
    }
  }

  method SkipNop(d: Dtb, pointer: nat) returns (ok: bool, e: nat)
    ensures pointer <= e && NopsBetween(d, pointer, e) && d.ReadNode(e) != Some(NOP)
    ensures ok <==> d.ReadNode(e).Some?
  {
    e := pointer;
    while d.ReadNode(e) == Some(NOP)
      invariant pointer <= e && NopsBetween(d, pointer, e)
      decreases d.StructEnd() - e
    {
      NopsExtend(d, pointer, e);
      e := e + TOKEN_SIZE;
    }
    ok := d.ReadNode(e).Some?;
  }

  lemma ItemAligned(node: Node, p: nat, k: nat)
    requires p % 4 == 0 && k <= |node.items|
    ensures ItemStart(node, p, k) % 4 == 0
  {
    var a, b := Padded(|node.name| + 1), ItemsSize(node, k);
    assert ItemStart(node, p, k) == (p / 4 + 1 + a / 4 + b / 4) * 4;
  }

  lemma SizeSplits(node: Node)
    ensures Size(node) == 2 * TOKEN_SIZE + Padded(|node.name| + 1) + ItemsSize(node, |node.items|)
  {
  }

  /** Every token of a node lies in the structure block. */
  lemma ItemInside(d: Dtb, node: Node, p: nat, k: nat)
    requires Inside(d, node, p) && k <= |node.items|
    ensures p < ItemStart(node, p, k) && ItemStart(node, p, k) % 4 == 0 && ItemStart(node, p, k) + TOKEN_SIZE <= p + Size(node) <= d.StructEnd()
    ensures k < |node.items| ==> ItemStart(node, p, k + 1) == ItemStart(node, p, k) + ItemSize(node.items[k])
    ensures ItemStart(node, p, |node.items|) + TOKEN_SIZE == p + Size(node)
  {
    ItemsSizeMonotone(node, k, |node.items|);
    SizeSplits(node);
    ItemAligned(node, p, k);
    if k < |node.items| {
      NextItem(node, p, k);
    }
  }

  /** The token of item k of a node, or the one at its end. */
  function TokenOf(node: Node, k: nat, last: nat): nat
    requires k <= |node.items|
  {
    if k == |node.items| then last
    else match node.items[k] case Nop => NOP case Prop(_, _) => PROP case Child(_) => BEGIN_NODE
  }

  ghost predicate TokensAt(d: Dtb, node: Node, p: nat, last: nat) {
    forall k: nat {:trigger ItemStart(node, p, k)} :: k <= |node.items| ==> d.ReadNode(ItemStart(node, p, k)) == Some(TokenOf(node, k, last))
  }

  lemma NodeTokens(d: Dtb, node: Node, p: nat)
    requires NodeAt(d, node, p)
    ensures TokensAt(d, node, p, END_NODE)
  {
    forall k: nat | k <= |node.items|
      ensures d.ReadNode(ItemStart(node, p, k)) == Some(TokenOf(node, k, END_NODE))
    {
      ItemInside(d, node, p, k);
      if k < |node.items| {
        assert ItemAt(d, node.items[k], ItemStart(node, p, k));
      }
    }
  }

  lemma NextItem(node: Node, p: nat, k: nat)
    requires k < |node.items|
    ensures ItemStart(node, p, k + 1) == ItemStart(node, p, k) + ItemSize(node.items[k])
  {
  }

  /** After the NOP tokens comes the next item that is none, or the end of the node. */
  lemma {:induction false} AfterNops(d: Dtb, node: Node, p: nat, k: nat, e: nat, last: nat) returns (k': nat)
    requires TokensAt(d, node, p, last) && last != NOP && k <= |node.items| && NopsBetween(d, ItemStart(node, p, k), e) && d.ReadNode(e) != Some(NOP)
    ensures k <= k' <= |node.items| && e == ItemStart(node, p, k') && TokenOf(node, k', last) != NOP
    ensures forall j :: k <= j < k' ==> node.items[j].Nop?
    decreases |node.items| - k
  {
    assert d.ReadNode(ItemStart(node, p, k)) == Some(TokenOf(node, k, last));
    if k < |node.items| && node.items[k].Nop? {
      NextItem(node, p, k);
      k' := AfterNops(d, node, p, k + 1, e, last);
    } else {
      k' := k;
    }
  }
}
