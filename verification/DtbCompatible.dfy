/** Properties of a node, and the search by compatible device. */
module DtbCompatible {
  import opened Wrappers
  import opened DeviceTree
  import opened DtbMatches
  import opened DtbCells
  import opened DtbParser
  import opened DtbDescent
  import opened DtbSearch

  // ---------------------------------------------------------------- lists of strings

  /** The bytes of a list in the blob. */
  ghost predicate ListAt(d: Dtb, address: nat, list: seq<Byte>) {
    forall i :: 0 <= i < |list| ==> d.Mem(address + i) == list[i]
  }

  /** No string of the list that begins before p is the target. */
  ghost predicate NotBefore(list: seq<Byte>, target: seq<Byte>, p: nat) {
    forall s: nat {:trigger StringIs(list, s, target)} :: s < p && StringStart(list, s) ==> !StringIs(list, s, target)
  }

  /** Compares the bytes at p with the target and its NUL, and stops behind it or at the first difference. */
  method CompareBytes(d: Dtb, p: nat, target: seq<Byte>) returns (r: bool, stop: nat)
    ensures r <==> BeginsWith(d, p, target, [])
    ensures p <= stop <= p + |target| + 1
    ensures !r ==> stop <= p + |target| && forall i :: 0 <= i < stop - p ==> d.Mem(p + i) == target[i]
    ensures !r ==> d.Mem(stop) != if stop - p < |target| then target[stop - p] else 0
  {
    var i := 0;
    while i <= |target|
      invariant 0 <= i <= |target| + 1
      invariant forall j :: 0 <= j < i && j < |target| ==> d.Mem(p + j) == target[j]
      invariant i == |target| + 1 ==> d.Mem(p + |target|) == 0
    {
      var c := if i < |target| then target[i] else 0;
      if d.Mem(p + i) != c {
        return false, p + i;
      }
      i := i + 1;
    }
    return true, p + i;
  }

  /** On a terminated list the comparison stays within it, and decides whether the string at p is the target. */
  lemma ComparedInList(d: Dtb, address: nat, list: seq<Byte>, p: nat, target: seq<Byte>, stop: nat)
    requires ListAt(d, address, list) && Terminated(list) && NulFree(target) && p < |list|
    ensures BeginsWith(d, address + p, target, []) <==> StringIs(list, p, target)
    ensures !BeginsWith(d, address + p, target, []) && address + p <= stop <= address + p + |target|
            && (forall i :: 0 <= i < stop - (address + p) ==> d.Mem(address + p + i) == target[i])
            && d.Mem(stop) != (if stop - (address + p) < |target| then target[stop - (address + p)] else 0) ==>
              stop < address + |list| && forall x :: p <= x < stop - address ==> list[x] != 0
  {
    if BeginsWith(d, address + p, target, []) {
      WithinList(d, address, list, p, target, |target|);
      forall i | 0 <= i < |target|
        ensures list[p + i] == target[i]
      {
        assert d.Mem(address + p + i) == target[i] && d.Mem(address + (p + i)) == list[p + i];
      }
      assert d.Mem(address + (p + |target|)) == list[p + |target|];
    }
    if StringIs(list, p, target) {
      forall i | 0 <= i < |target|
        ensures d.Mem(address + p + i) == target[i]
      {
        assert d.Mem(address + (p + i)) == list[p + i] && list[p..p + |target|][i] == target[i];
      }
      assert d.Mem(address + (p + |target|)) == list[p + |target|];
    }
    if address + p <= stop <= address + p + |target| && (forall i :: 0 <= i < stop - (address + p) ==> d.Mem(address + p + i) == target[i]) {
      WithinList(d, address, list, p, target, stop - (address + p));
      forall x | p <= x < stop - address
        ensures list[x] != 0
      {
        assert d.Mem(address + p + (x - p)) == target[x - p] && d.Mem(address + x) == list[x];
      }
    }
  }

  /** As long as the bytes are those of the target, which has no NUL, the list has not ended. */
  lemma {:induction false} WithinList(d: Dtb, address: nat, list: seq<Byte>, p: nat, target: seq<Byte>, n: nat)
    requires ListAt(d, address, list) && Terminated(list) && NulFree(target) && p < |list| && n <= |target|
    requires forall i :: 0 <= i < n ==> d.Mem(address + p + i) == target[i]
    ensures p + n < |list|
    decreases n
  {
    if n > 0 {
      WithinList(d, address, list, p, target, n - 1);
      assert d.Mem(address + p + (n - 1)) == target[n - 1] != 0;
      assert d.Mem(address + (p + (n - 1))) == list[p + (n - 1)];
    }
  }

  /** Where the scan of a list stands: at the beginning of a string, or within one that is not the target. */
  ghost predicate Scanning(list: seq<Byte>, target: seq<Byte>, p: nat, skip: bool) {
    Terminated(list) ==>
      && p <= |list|
      && NotBefore(list, target, if skip then p + 1 else p)
      && (!skip && p < |list| ==> StringStart(list, p))
  }

  lemma ScanSkips(list: seq<Byte>, target: seq<Byte>, p: nat)
    requires Scanning(list, target, p, true) && p < |list|
    ensures Scanning(list, target, p + 1, list[p] != 0)
  {
  }

  lemma ScanFails(list: seq<Byte>, target: seq<Byte>, p: nat, stop: nat)
    requires Terminated(list) && Scanning(list, target, p, false) && p <= stop < |list|
    requires !StringIs(list, p, target) && forall x :: p <= x < stop ==> list[x] != 0
    ensures Scanning(list, target, stop, true)
  {
    forall s: nat | s < stop + 1 && StringStart(list, s)
      ensures !StringIs(list, s, target)
    {
      assert s <= p;
    }
  }

  /** Whether the target is one of the strings of a property; bytes outside a terminated list do not matter. */
  method IsDeviceCompatible(d: Dtb, info: DtbProperty, target: seq<Byte>, ghost list: seq<Byte>) returns (r: bool)
    requires NulFree(target) && |list| == info.len && ListAt(d, info.address, list)
    ensures Terminated(list) ==> (r <==> ListContains(list, target))
  {
    var p: nat := 0;
    var skip := false;
    while p < info.len
      invariant Scanning(list, target, p, skip)
      decreases info.len - p, if skip then 0 else 1
    {
      if skip {
        ScanSkips(list, target, p);
        assert d.Mem(info.address + p) == list[p];
        if d.Mem(info.address + p) == 0 {
          skip := false;
        }
        p := p + 1;
        continue;
      }
      var same, stop := CompareBytes(d, info.address + p, target);
      if Terminated(list) {
        ComparedInList(d, info.address, list, p, target, stop);
      }
      if same {
        return true;
      }
      if Terminated(list) {
        ScanFails(list, target, p, stop - info.address);
      }
      p := stop - info.address;
      skip := true;
    }
    return false;
  }

  // ---------------------------------------------------------------- the search by compatible device

  ghost predicate TreeOk(d: Dtb, view: View) {
    view.Known? ==> NodeAt(d, view.node, view.p) && PropsFirst(view.node) && ListsOk(d, view.node)
  }

  /** The search has reached item k. If the node itself matches, the property that says so is still to come. */
  ghost predicate Looking(d: Dtb, target: seq<Byte>, view: View, k: nat) {
    view.Known? ==>
      && k <= |view.node.items|
      && if Hit(d, view.node, ByCompatible(target)) then exists h: nat :: k <= h < |view.node.items| && CompatibleProp(d, view.node.items[h], target)
         else NothingBefore(d, ByCompatible(target), view, k)
  }

  lemma LookingStarts(d: Dtb, target: seq<Byte>, view: View)
    ensures Looking(d, target, view, 0)
  {
  }

  lemma LookingPastNops(d: Dtb, target: seq<Byte>, view: View, j: nat, k: nat)
    requires Looking(d, target, view, j) && NopItems(view, j, k)
    ensures Looking(d, target, view, k)
  {
    if view.Known? {
      if Hit(d, view.node, ByCompatible(target)) {
        var h: nat :| j <= h < |view.node.items| && CompatibleProp(d, view.node.items[h], target);
        assert h < k ==> NopItem(view.node, h);
      } else {
        NothingInNops(d, ByCompatible(target), view, j, k);
      }
    }
  }

  lemma LookingPastProp(d: Dtb, target: seq<Byte>, view: View, k: nat)
    requires Looking(d, target, view, k)
    requires view.Known? ==> k < |view.node.items| && view.node.items[k].Prop? && !CompatibleProp(d, view.node.items[k], target)
    ensures Looking(d, target, view, k + 1)
  {
    if view.Known? {
      if Hit(d, view.node, ByCompatible(target)) {
        var h: nat :| k <= h < |view.node.items| && CompatibleProp(d, view.node.items[h], target);
        assert h != k;
      } else {
        NothingInProp(d, ByCompatible(target), view, k);
      }
    }
  }

  /** At a child, or at the end, all properties have been seen: the node itself does not match. */
  lemma LookingBelow(d: Dtb, target: seq<Byte>, view: View, k: nat)
    requires TreeOk(d, view) && Looking(d, target, view, k)
    requires view.Known? ==> k == |view.node.items| || ChildItem(view.node, k)
    ensures NothingBefore(d, ByCompatible(target), view, k)
  {
    if view.Known? && Hit(d, view.node, ByCompatible(target)) {
      var h: nat :| k <= h < |view.node.items| && CompatibleProp(d, view.node.items[h], target);
      assert PropItem(view.node, h);
    }
  }

  lemma LookingAgain(d: Dtb, target: seq<Byte>, view: View, k: nat)
    requires TreeOk(d, view) && Looking(d, target, view, k) && (view.Known? ==> ChildItem(view.node, k))
    requires NothingBefore(d, ByCompatible(target), view, k + 1)
    ensures Looking(d, target, view, k + 1)
  {
  }

  /** The property at item k says that the node matches. */
  lemma FoundHere(d: Dtb, target: seq<Byte>, view: View, k: nat, node: DtbNode, pointer': nat)
    requires view.Known? ==> k < |view.node.items| && CompatibleProp(d, view.node.items[k], target) && node.address == Body(view.node, view.p)
    ensures view.Known? ==> Answers(d, ByCompatible(target), view.node, view.p, Found(node), pointer')
  {
  }

  ghost predicate CompatibleStartOk(d: Dtb, start: Start, pointer: nat) {
    StartOk(d, start, pointer) && TreeOk(d, ViewOf(start))
  }

  /** The name of a node is skipped. */
  lemma NameSkipped(d: Dtb, view: View, p: nat, e: nat)
    requires ViewOk(d, view) && (view.Known? ==> p == view.p) && NulAt(d, p + TOKEN_SIZE, e)
    ensures view.Known? ==> SkipPadding(e + 1) == Body(view.node, view.p)
  {
    if view.Known? {
      StringEnds(d, p + TOKEN_SIZE, view.node.name, e);
      PaddingOf(p + TOKEN_SIZE, |view.node.name| + 1);
    }
  }

  lemma ChildTreeOk(d: Dtb, view: View, k: nat, e: nat)
    requires TreeOk(d, view) && AtToken(d, view, k, e) && d.ReadNode(e) == Some(BEGIN_NODE) && (view.Known? ==> ChildItem(view.node, k))
    ensures CompatibleStartOk(d, ChildStart(view, k, e), e)
  {
    ChildSkipped(d, view, k, e);
  }

  ghost function BytesAt(d: Dtb, address: nat, len: nat): (list: seq<Byte>)
    ensures |list| == len && ListAt(d, address, list)
  {
    if len == 0 then [] else BytesAt(d, address, len - 1) + [d.Mem(address + (len - 1))]
  }

  /** The bytes a property of the tree has in the blob; of an unknown one, those that are there. */
  ghost function ListOf(d: Dtb, info: DtbProperty, view: View, k: nat): (list: seq<Byte>)
    requires view.Known? ==> k < |view.node.items| && view.node.items[k].Prop?
  {
    if view.Known? then view.node.items[k].value else BytesAt(d, info.address, info.len)
  }

  /** What is known about a property whose words have been read. */
  ghost predicate PropRead(d: Dtb, info: DtbProperty, name: nat, view: View, k: nat) {
    && info.address >= 12
    && (view.Known? ==>
          && k < |view.node.items| && view.node.items[k].Prop? && ItemAt(d, view.node.items[k], info.address - 12)
          && name == view.node.items[k].nameOffset && info.len == |view.node.items[k].value|)
  }

  lemma ListTerminated(d: Dtb, view: View, k: nat)
    requires TreeOk(d, view) && view.Known? && k < |view.node.items| && view.node.items[k].Prop?
    ensures NamedAt(d, view.node.items[k].nameOffset, COMPATIBLE()) ==> Terminated(view.node.items[k].value)
  {
    assert PropItem(view.node, k);
  }

  /** Whether a property says that its node is the device that is looked for. */
  method IsCompatibleProp(d: Dtb, info: DtbProperty, name: nat, target: seq<Byte>, ghost view: View, ghost k: nat) returns (r: Option<bool>)
    requires NulFree(target) && TreeOk(d, view) && PropRead(d, info, name, view, k)
    ensures name < d.stringSize ==> r.Some?
    ensures view.Known? && r.Some? ==> (r.value <==> CompatibleProp(d, view.node.items[k], target))
  {
    var named := CompareNameSegment(d, name, COMPATIBLE(), []);
    if named.None? {
      return None;
    }
    assert named.value <==> NamedAt(d, name, COMPATIBLE());
    if !named.value {
      return Some(false);
    }
    if view.Known? {
      ListTerminated(d, view, k);
    }
    var same := IsDeviceCompatible(d, info, target, ListOf(d, info, view, k));
    return Some(same);
  }

  /** How the search goes on behind an item: it ends, or it has not found anything yet. */
  datatype Turn = Stop(outcome: Outcome) | Onward(addressCells: nat, sizeCells: nat)

  ghost predicate TurnOk(d: Dtb, target: seq<Byte>, view: View, k: nat, turn: Turn, pointer': nat) {
    match turn
    case Stop(outcome) => view.Known? ==> Answers(d, ByCompatible(target), view.node, view.p, outcome, pointer')
    case Onward(_, _) => Reached(view, pointer', k + 1) && Looking(d, target, view, k + 1)
  }

  /** The same for the counts of cells. */
  ghost predicate TurnCells(d: Dtb, target: seq<Byte>, view: View, k: nat, turn: Turn, c0: Cells) {
    match turn
    case Stop(outcome) => CellsOk(d, ByCompatible(target), view, c0, outcome)
    case Onward(addressCells, sizeCells) => CellsLeft(d, ByCompatible(target), view, k + 1, Cells(addressCells, sizeCells), c0)
  }

  lemma CellsHere(d: Dtb, target: seq<Byte>, view: View, k: nat, c: Cells, c0: Cells, node: DtbNode)
    requires CellsLeft(d, ByCompatible(target), view, k, c, c0)
    requires view.Known? ==>
               && k < |view.node.items| && CompatibleProp(d, view.node.items[k], target)
               && node.Counts() == ItemCells(d, view.node.items[k], ItemStart(view.node, view.p, k), c)
    ensures CellsOk(d, ByCompatible(target), view, c0, Found(node))
  {
  }

  /** A property: it may say that the node matches. */
  method VisitProp(d: Dtb, target: seq<Byte>, e: nat, addressCells: nat, sizeCells: nat, body: nat, ghost view: View, ghost k: nat, ghost c0: Cells)
    returns (turn: Turn, pointer': nat)
    requires NulFree(target) && TreeOk(d, view) && Looking(d, target, view, k) && (view.Known? ==> body == Body(view.node, view.p))
    requires CellsLeft(d, ByCompatible(target), view, k, Cells(addressCells, sizeCells), c0)
    requires AtToken(d, view, k, e) && d.ReadNode(e) == Some(PROP)
    ensures pointer' >= e && (turn.Onward? ==> pointer' > e) && (turn.Stop? ==> !turn.outcome.NotFound?)
    ensures TurnOk(d, target, view, k, turn, pointer') && TurnCells(d, target, view, k, turn, c0)
  {
    var prop, name := ReadProp(d, e, addressCells, sizeCells, view, k);
    if prop.None? {
      return Stop(Failed), e;
    }
    var hit := IsCompatibleProp(d, prop.value, name, target, view, k);
    if hit.None? {
      return Stop(Failed), e;
    }
    if hit.value {
      var found := DtbNode(body, prop.value.addressCells, prop.value.sizeCells);
      FoundHere(d, target, view, k, found, e + 12);
      CellsHere(d, target, view, k, Cells(addressCells, sizeCells), c0, found);
      return Stop(Found(found)), e + 12;
    }
    LookingPastProp(d, target, view, k);
    CellsPastProp(d, ByCompatible(target), view, k, Cells(addressCells, sizeCells), prop.value.Counts(), c0);
    return Onward(prop.value.addressCells, prop.value.sizeCells), e + 12 + prop.value.len;
  }

  method SearchByCompatible(d: Dtb, target: seq<Byte>, pointer: nat, addressCells: nat, sizeCells: nat, ghost start: Start)
    returns (outcome: Outcome, pointer': nat)
    requires NulFree(target) && CompatibleStartOk(d, start, pointer)
    ensures SearchOk(d, ByCompatible(target), start, outcome, pointer')
    ensures CellsOk(d, ByCompatible(target), ViewOf(start), Cells(addressCells, sizeCells), outcome)
    ensures pointer' >= pointer
    ensures outcome.NotFound? ==> pointer' > pointer || d.ReadNode(pointer') == Some(END_NODE) || d.ReadNode(pointer') == Some(END)
    decreases if pointer < d.StructEnd() then d.StructEnd() - pointer else 0, 1
  {
    ghost var view := ViewOf(start);
    var more, e := SkipNop(d, pointer);
    StartToken(d, start, pointer, e);
    if !more {
      return Failed, e;
    }
    var n := d.ReadNode(e).value;
    if n != BEGIN_NODE {
      if n == END_NODE || n == END {
        return NotFound, e;
      }
      return Failed, e;
    }
    var end := SkipString(d, e + TOKEN_SIZE);
    NameSkipped(d, view, e, end);
    var body := SkipPadding(end + 1);
    BodyReached(d, view, body);
    outcome, pointer' := SearchItemsByCompatible(d, target, body, addressCells, sizeCells, view);
  }

  /** A child: it is searched, and everything below it. */
  method VisitChild(d: Dtb, target: seq<Byte>, e: nat, addressCells: nat, sizeCells: nat, ghost view: View, ghost k: nat, ghost c0: Cells)
    returns (turn: Turn, pointer': nat)
    requires NulFree(target) && TreeOk(d, view) && Looking(d, target, view, k)
    requires CellsLeft(d, ByCompatible(target), view, k, Cells(addressCells, sizeCells), c0)
    requires AtToken(d, view, k, e) && d.ReadNode(e) == Some(BEGIN_NODE)
    ensures pointer' >= e && (turn.Onward? ==> pointer' > e) && (turn.Stop? ==> !turn.outcome.NotFound?)
    ensures TurnOk(d, target, view, k, turn, pointer') && TurnCells(d, target, view, k, turn, c0)
    decreases if e < d.StructEnd() then d.StructEnd() - e else 0, 2
  {
    ChildSkipped(d, view, k, e);
    LookingBelow(d, target, view, k);
    ChildTreeOk(d, view, k, e);
    var outcome;
    outcome, pointer' := SearchByCompatible(d, target, e, addressCells, sizeCells, ChildStart(view, k, e));
    ChildFound(d, ByCompatible(target), view, k, e, outcome, pointer');
    CellsOfChild(d, ByCompatible(target), view, k, e, Cells(addressCells, sizeCells), c0, outcome, pointer');
    if !outcome.NotFound? {
      return Stop(outcome), pointer';
    }
    LookingAgain(d, target, view, k);
    turn := Onward(addressCells, sizeCells);
  }

  /** The next item, or the end of the node. */
  method VisitItem(d: Dtb, target: seq<Byte>, pointer: nat, addressCells: nat, sizeCells: nat, body: nat, ghost view: View, ghost k: nat, ghost c0: Cells)
    returns (turn: Turn, pointer': nat, ghost k': nat)
    requires NulFree(target) && TreeOk(d, view) && Reached(view, pointer, k) && Looking(d, target, view, k)
    requires view.Known? ==> body == Body(view.node, view.p)
    requires CellsLeft(d, ByCompatible(target), view, k, Cells(addressCells, sizeCells), c0)
    ensures pointer' >= pointer && (turn.Onward? ==> pointer' > pointer && pointer < d.StructEnd())
    ensures TurnOk(d, target, view, k', turn, pointer') && TurnCells(d, target, view, k', turn, c0)
    decreases if pointer < d.StructEnd() then d.StructEnd() - pointer else 0, 3
  {
    var more, e;
    more, e, k' := ToToken(d, pointer, view, k);
    LookingPastNops(d, target, view, k, k');
    CellsPastNops(d, ByCompatible(target), view, k, k', Cells(addressCells, sizeCells), c0);
    if !more {
      return Stop(Failed), e, k';
    }
    var token := d.ReadNode(e).value;
    if token == BEGIN_NODE {
      turn, pointer' := VisitChild(d, target, e, addressCells, sizeCells, view, k', c0);
    } else if token == END_NODE {
      EndReached(d, view, k', e);
      LookingBelow(d, target, view, k');
      NothingAtAll(d, ByCompatible(target), view, k', e);
      return Stop(NotFound), e + TOKEN_SIZE, k';
    } else if token == PROP {
      turn, pointer' := VisitProp(d, target, e, addressCells, sizeCells, body, view, k', c0);
    } else {
      return Stop(Failed), e, k';
    }
  }

  method SearchItemsByCompatible(d: Dtb, target: seq<Byte>, pointer: nat, addressCells: nat, sizeCells: nat, ghost view: View)
    returns (outcome: Outcome, pointer': nat)
    requires NulFree(target) && TreeOk(d, view) && Reached(view, pointer, 0)
    requires view.Known? ==> pointer == Body(view.node, view.p)
    ensures view.Known? ==> Answers(d, ByCompatible(target), view.node, view.p, outcome, pointer')
    ensures CellsOk(d, ByCompatible(target), view, Cells(addressCells, sizeCells), outcome)
    ensures pointer' >= pointer
    decreases if pointer < d.StructEnd() then d.StructEnd() - pointer else 0, 4
  {
    pointer' := pointer;
    var turn := Onward(addressCells, sizeCells);
    ghost var k: nat, c0 := 0, Cells(addressCells, sizeCells);
    LookingStarts(d, target, view);
    while true
      invariant pointer' >= pointer && turn.Onward? && Reached(view, pointer', k) && Looking(d, target, view, k)
      invariant CellsLeft(d, ByCompatible(target), view, k, Cells(turn.addressCells, turn.sizeCells), c0)
      decreases if pointer' < d.StructEnd() then d.StructEnd() - pointer' else 0
    {
      turn, pointer', k := VisitItem(d, target, pointer', turn.addressCells, turn.sizeCells, pointer, view, k, c0);
      if turn.Stop? {
        return turn.outcome, pointer';
      }
      k := k + 1;
    }
  }
}
