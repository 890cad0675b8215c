/** The recursive searches, by name and by compatible device, below one node. */
module DtbSearch {
  import opened Wrappers
  import opened DeviceTree
  import opened DtbMatches
  import opened DtbCells
  import opened DtbParser
  import opened DtbDescent

  datatype Outcome = Failed | NotFound | Found(node: DtbNode)

  /** What the caller of a search knows: nothing, or that behind NOP tokens a node begins at p, or an end token is at e. */
  datatype Start = Anywhere | BeforeNode(node: Node, p: nat) | BeforeEnd(e: nat)

  ghost predicate StartOk(d: Dtb, start: Start, pointer: nat) {
    match start
    case Anywhere => true
    case BeforeNode(node, p) => pointer <= p && NopsBetween(d, pointer, p) && NodeAt(d, node, p)
    case BeforeEnd(e) => pointer <= e && NopsBetween(d, pointer, e) && (d.ReadNode(e) == Some(END_NODE) || d.ReadNode(e) == Some(END))
  }

  /** The first match is found; without one the pointer moves behind the node. */
  ghost predicate Answers(d: Dtb, q: Query, node: Node, p: nat, outcome: Outcome, pointer': nat) {
    var m := Matches(d, node, p, q);
    if m == [] then outcome == NotFound && pointer' == p + Size(node) else outcome.Found? && outcome.node.address == m[0].Address()
  }

  ghost predicate SearchOk(d: Dtb, q: Query, start: Start, outcome: Outcome, pointer': nat) {
    match start
    case Anywhere => true
    case BeforeNode(node, p) => Answers(d, q, node, p, outcome, pointer')
    case BeforeEnd(e) => outcome == NotFound && pointer' == e
  }

  function ViewOf(start: Start): View {
    if start.BeforeNode? then Known(start.node, start.p) else Unknown
  }

  lemma {:induction false} NopsUnique(d: Dtb, pointer: nat, e: nat, f: nat)
    requires pointer <= e && pointer <= f && NopsBetween(d, pointer, e) && NopsBetween(d, pointer, f)
    requires d.ReadNode(e) != Some(NOP) && d.ReadNode(f) != Some(NOP)
    ensures e == f
    decreases e - pointer
  {
    if pointer < e && pointer < f {
      NopsUnique(d, pointer + TOKEN_SIZE, e, f);
    }
  }

  lemma StartToken(d: Dtb, start: Start, pointer: nat, e: nat)
    requires StartOk(d, start, pointer) && pointer <= e && NopsBetween(d, pointer, e) && d.ReadNode(e) != Some(NOP)
    ensures start.BeforeNode? ==> e == start.p && d.ReadNode(e) == Some(BEGIN_NODE)
    ensures start.BeforeEnd? ==> e == start.e
  {
    match start
    case Anywhere =>
    case BeforeNode(node, p) =>
      ItemInside(d, node, p, 0);
      NopsUnique(d, pointer, e, p);
    case BeforeEnd(f) =>
      NopsUnique(d, pointer, e, f);
  }

  // ---------------------------------------------------------------- matches, item by item

  lemma MatchesStep(d: Dtb, q: Query, node: Node, p: nat, k: nat)
    requires k < |node.items|
    ensures MatchesFrom(d, node, p, k, q)
         == (if node.items[k].Child? then Matches(d, node.items[k].node, ItemStart(node, p, k), q) else []) + MatchesFrom(d, node, p, k + 1, q)
  {
    match node.items[k]
    case Child(child) =>
      assert ItemMatches(d, node.items[k], ItemStart(node, p, k), q) == Matches(d, child, ItemStart(node, p, k), q);
    case Nop =>
    case Prop(_, _) =>
  }

  /** The matches of a node are those from item k on. */
  ghost predicate NothingBefore(d: Dtb, q: Query, view: View, k: nat) {
    view.Known? ==> k <= |view.node.items| && Matches(d, view.node, view.p, q) == MatchesFrom(d, view.node, view.p, k, q)
  }

  lemma {:induction false} NopsKeep(d: Dtb, q: Query, node: Node, p: nat, j: nat, k: nat)
    requires j <= k <= |node.items| && forall i: nat :: j <= i < k ==> NopItem(node, i)
    ensures MatchesFrom(d, node, p, j, q) == MatchesFrom(d, node, p, k, q)
    decreases k - j
  {
    if j < k {
      assert NopItem(node, j);
      MatchesStep(d, q, node, p, j);
      NopsKeep(d, q, node, p, j + 1, k);
    }
  }

  lemma NothingInNops(d: Dtb, q: Query, view: View, j: nat, k: nat)
    requires NothingBefore(d, q, view, j) && NopItems(view, j, k)
    ensures NothingBefore(d, q, view, k)
  {
    if view.Known? {
      NopsKeep(d, q, view.node, view.p, j, k);
    }
  }

  lemma NothingInProp(d: Dtb, q: Query, view: View, k: nat)
    requires NothingBefore(d, q, view, k) && (view.Known? ==> k < |view.node.items| && view.node.items[k].Prop?)
    ensures NothingBefore(d, q, view, k + 1)
  {
    if view.Known? {
      MatchesStep(d, q, view.node, view.p, k);
    }
  }

  lemma NothingAtFirst(d: Dtb, q: Query, view: View)
    requires view.Known? ==> !Hit(d, view.node, q)
    ensures NothingBefore(d, q, view, 0)
  {
  }

  /** The end of a node without a match. */
  lemma NothingAtAll(d: Dtb, q: Query, view: View, k: nat, e: nat)
    requires ViewOk(d, view) && NothingBefore(d, q, view, k) && AtToken(d, view, k, e) && d.ReadNode(e) == Some(END_NODE)
    ensures view.Known? ==> Answers(d, q, view.node, view.p, NotFound, e + TOKEN_SIZE)
  {
    EndReached(d, view, k, e);
  }

  /** What the search of a child knows. */
  ghost function ChildStart(view: View, k: nat, e: nat): Start
    requires view.Known? ==> ChildItem(view.node, k)
  {
    if view.Known? then BeforeNode(view.node.items[k].node, e) else Anywhere
  }

  lemma ChildFound(d: Dtb, q: Query, view: View, k: nat, e: nat, outcome: Outcome, pointer': nat)
    requires ViewOk(d, view) && NothingBefore(d, q, view, k) && AtToken(d, view, k, e) && d.ReadNode(e) == Some(BEGIN_NODE)
    requires view.Known? ==> ChildItem(view.node, k)
    requires SearchOk(d, q, ChildStart(view, k, e), outcome, pointer') && (outcome.NotFound? ==> pointer' > 0)
    ensures view.Known? ==> !outcome.Failed? && (outcome.Found? ==> Answers(d, q, view.node, view.p, outcome, pointer'))
    ensures outcome.NotFound? ==> Searching(d, q, view, pointer', k + 1)
  {
    if view.Known? {
      ChildSkipped(d, view, k, e);
      ChildAnswers(d, q, view, k, outcome, pointer');
    }
  }

  lemma ChildAnswers(d: Dtb, q: Query, view: View, k: nat, outcome: Outcome, pointer': nat)
    requires view.Known? && NothingBefore(d, q, view, k) && ChildItem(view.node, k)
    requires Answers(d, q, view.node.items[k].node, ItemStart(view.node, view.p, k), outcome, pointer')
    ensures outcome.Found? ==> Answers(d, q, view.node, view.p, outcome, pointer')
    ensures outcome.NotFound? ==> NothingBefore(d, q, view, k + 1)
  {
    MatchesStep(d, q, view.node, view.p, k);
  }

  // ---------------------------------------------------------------- the counts of cells, item by item

  /** The counts of the first match are those from item k on, to which the search comes with c. */
  ghost predicate CellsLeft(d: Dtb, q: Query, view: View, k: nat, c: Cells, c0: Cells) {
    view.Known? ==>
      k <= |view.node.items| && FirstCells(d, q, view.node, view.p, c0) == FirstCellsFrom(d, q, view.node, view.p, k, c)
  }

  /** What is found below a node has its counts. */
  ghost predicate CellsOk(d: Dtb, q: Query, view: View, c0: Cells, outcome: Outcome) {
    view.Known? && outcome.Found? ==> outcome.node.Counts() == FirstCells(d, q, view.node, view.p, c0)
  }

  lemma {:induction false} NopsKeepCells(d: Dtb, q: Query, node: Node, p: nat, j: nat, k: nat, c: Cells)
    requires j <= k <= |node.items| && forall i: nat :: j <= i < k ==> NopItem(node, i)
    ensures FirstCellsFrom(d, q, node, p, j, c) == FirstCellsFrom(d, q, node, p, k, c)
    decreases k - j
  {
    if j < k {
      assert NopItem(node, j);
      NopsKeepCells(d, q, node, p, j + 1, k, c);
    }
  }

  lemma CellsPastNops(d: Dtb, q: Query, view: View, j: nat, k: nat, c: Cells, c0: Cells)
    requires CellsLeft(d, q, view, j, c, c0) && NopItems(view, j, k)
    ensures CellsLeft(d, q, view, k, c, c0)
  {
    if view.Known? {
      NopsKeepCells(d, q, view.node, view.p, j, k, c);
    }
  }

  lemma CellsPastProp(d: Dtb, q: Query, view: View, k: nat, c: Cells, c': Cells, c0: Cells)
    requires CellsLeft(d, q, view, k, c, c0)
    requires view.Known? ==>
               && k < |view.node.items| && view.node.items[k].Prop? && c' == ItemCells(d, view.node.items[k], ItemStart(view.node, view.p, k), c)
               && (q.ByCompatible? ==> !CompatibleProp(d, view.node.items[k], q.target))
    ensures CellsLeft(d, q, view, k + 1, c', c0)
  {
  }

  /** A child: the first match is in it, or behind it. */
  lemma CellsOfChild(d: Dtb, q: Query, view: View, k: nat, e: nat, c: Cells, c0: Cells, outcome: Outcome, pointer': nat)
    requires CellsLeft(d, q, view, k, c, c0) && (view.Known? ==> ChildItem(view.node, k) && e == ItemStart(view.node, view.p, k))
    requires SearchOk(d, q, ChildStart(view, k, e), outcome, pointer') && CellsOk(d, q, ViewOf(ChildStart(view, k, e)), c, outcome)
    ensures CellsOk(d, q, view, c0, outcome)
    ensures outcome.NotFound? ==> CellsLeft(d, q, view, k + 1, c, c0)
  {
    if view.Known? {
      var item := view.node.items[k];
      assert ItemCells(d, item, e, c) == c && ChildCells(d, q, item, e, c) == FirstCells(d, q, item.node, e, c);
      assert FoundIn(d, q, view.node, view.p, k) <==> Matches(d, item.node, e, q) != [];
    }
  }

  // ---------------------------------------------------------------- the search by name

  const UNIT_DELIMITER: seq<Byte> := ['@' as int]

  /** The name of a node, compared; and the pointer behind it. */
  lemma NameRead(d: Dtb, target: seq<Byte>, node: Node, p: nat, r: bool, pointer': nat, e: nat)
    requires NulFree(target) && NodeAt(d, node, p) && NulAt(d, p + TOKEN_SIZE, e) && pointer' == SkipPadding(e + 1)
    requires r <==> BeginsWith(d, p + TOKEN_SIZE, target, UNIT_DELIMITER)
    ensures pointer' == Body(node, p) && (r <==> Hit(d, node, ByName(target)))
  {
    StringEnds(d, p + TOKEN_SIZE, node.name, e);
    PaddingOf(p + TOKEN_SIZE, |node.name| + 1);
    NameCompared(d, p + TOKEN_SIZE, node.name, target);
  }

  /** Updates the cell counts if the property at the pointer holds one of them. */
  method CheckAddressAndSizeCells(d: Dtb, nameSegment: nat, pointer: nat, addressCells: nat, sizeCells: nat)
    returns (ok: bool, addressCells': nat, sizeCells': nat)
    ensures nameSegment < d.stringSize && d.ReadNode(pointer).Some? ==> ok
    ensures ok ==> nameSegment < d.stringSize
    ensures ok && NamedAt(d, nameSegment, ADDRESS_CELLS()) ==> addressCells' == d.Word(pointer) && sizeCells' == sizeCells
    ensures ok && !NamedAt(d, nameSegment, ADDRESS_CELLS()) ==>
              addressCells' == addressCells && sizeCells' == if NamedAt(d, nameSegment, SIZE_CELLS()) then d.Word(pointer) else sizeCells
  {
    addressCells', sizeCells' := addressCells, sizeCells;
    var isAddress := CompareNameSegment(d, nameSegment, ADDRESS_CELLS(), []);
    if isAddress.None? {
      return false, addressCells, sizeCells;
    }
    if isAddress.value {
      var w := d.ReadNode(pointer);
      if w.None? {
        return false, addressCells, sizeCells;
      }
      return true, w.value, sizeCells;
    }
    var isSize := CompareNameSegment(d, nameSegment, SIZE_CELLS(), []);
    if isSize.None? {
      return false, addressCells, sizeCells;
    }
    if isSize.value {
      var w := d.ReadNode(pointer);
      if w.None? {
        return false, addressCells, sizeCells;
      }
      return true, addressCells, w.value;
    }
    return true, addressCells, sizeCells;
  }

  /** The search has reached item k, and has found nothing so far. */
  ghost predicate Searching(d: Dtb, q: Query, view: View, pointer: nat, k: nat) {
    Reached(view, pointer, k) && NothingBefore(d, q, view, k)
  }

  /** Skips NOP tokens. */
  method ToToken(d: Dtb, pointer: nat, ghost view: View, ghost k: nat) returns (ok: bool, e: nat, ghost k': nat)
    requires ViewOk(d, view) && Reached(view, pointer, k)
    ensures pointer <= e && (ok <==> d.ReadNode(e).Some?) && (view.Known? ==> ok)
    ensures AtToken(d, view, k', e) && NopItems(view, k, k')
  {
    ok, e := SkipNop(d, SkipPadding(pointer));
    k' := NextToken(d, view, pointer, k, e);
  }

  /** A property: the cell counts it may change, the words at its beginning, and the pointer behind it. */
  method ReadProp(d: Dtb, e: nat, addressCells: nat, sizeCells: nat, ghost view: View, ghost k: nat)
    returns (r: Option<DtbProperty>, name: nat)
    requires ViewOk(d, view) && AtToken(d, view, k, e) && d.ReadNode(e) == Some(PROP)
    ensures r.Some? ==> r.value.address == e + 12 && Reached(view, e + 12 + r.value.len, k + 1)
    ensures r.Some? ==> name < d.stringSize
    ensures view.Known? ==>
              && r.Some? && k < |view.node.items| && view.node.items[k].Prop? && ItemAt(d, view.node.items[k], e) && e == ItemStart(view.node, view.p, k)
              && name == view.node.items[k].nameOffset && r.value.len == |view.node.items[k].value|
              && r.value.Counts() == ItemCells(d, view.node.items[k], e, Cells(addressCells, sizeCells))
  {
    PropSkipped(d, view, k, e);
    var len := d.ReadNode(e + 4);
    if len.None? {
      return None, 0;
    }
    var segment := d.ReadNode(e + 8);
    if segment.None? {
      return None, 0;
    }
    name := segment.value;
    var ok, cells, sizes := CheckAddressAndSizeCells(d, name, e + 12, addressCells, sizeCells);
    if !ok {
      return None, name;
    }
    r := Some(DtbProperty(e + 12, cells, sizes, len.value));
  }

  /** A property on the way to a node with a name. */
  method PassProp(d: Dtb, target: seq<Byte>, e: nat, cells: nat, sizes: nat, ghost view: View, ghost k: nat, ghost c0: Cells)
    returns (prop: Option<DtbProperty>)
    requires ViewOk(d, view) && AtToken(d, view, k, e) && d.ReadNode(e) == Some(PROP)
    requires NothingBefore(d, ByName(target), view, k) && CellsLeft(d, ByName(target), view, k, Cells(cells, sizes), c0)
    ensures prop.None? ==> !view.Known?
    ensures prop.Some? ==>
              && Searching(d, ByName(target), view, e + 12 + prop.value.len, k + 1)
              && CellsLeft(d, ByName(target), view, k + 1, prop.value.Counts(), c0)
  {
    var read, _ := ReadProp(d, e, cells, sizes, view, k);
    NothingInProp(d, ByName(target), view, k);
    prop := read;
    if prop.Some? {
      CellsPastProp(d, ByName(target), view, k, Cells(cells, sizes), prop.value.Counts(), c0);
    }
  }

  /** Searches the node behind the pointer, and everything below it. */
  method SearchByName(d: Dtb, target: seq<Byte>, pointer: nat, addressCells: nat, sizeCells: nat, ghost start: Start)
    returns (outcome: Outcome, pointer': nat)
    requires NulFree(target) && StartOk(d, start, pointer)
    ensures SearchOk(d, ByName(target), start, outcome, pointer')
    ensures CellsOk(d, ByName(target), ViewOf(start), Cells(addressCells, sizeCells), outcome)
    ensures pointer' >= pointer
    ensures outcome.NotFound? ==> pointer' > pointer || d.ReadNode(pointer') == Some(END_NODE) || d.ReadNode(pointer') == Some(END)
    decreases if pointer < d.StructEnd() then d.StructEnd() - pointer else 0, 1
  {
    ghost var view := ViewOf(start);
    var more, e := SkipNop(d, pointer);
    StartToken(d, start, pointer, e);
    if !more {
      return Failed, e;
    }
    var n := d.ReadNode(e).value;
    if n != BEGIN_NODE {
      if n == END_NODE || n == END {
        return NotFound, e;
      }
      return Failed, e;
    }
    var same;
    ghost var end;
    same, pointer', end := CompareString(d, e + TOKEN_SIZE, target, UNIT_DELIMITER);
    if view.Known? {
      NameRead(d, target, view.node, view.p, same, pointer', end);
    }
    if same {
      return Found(DtbNode(pointer', addressCells, sizeCells)), pointer';
    }
    BodyReached(d, view, pointer');
    NothingAtFirst(d, ByName(target), view);
    outcome, pointer' := SearchItemsByName(d, target, pointer', addressCells, sizeCells, view);
  }

  /** Searches the items of a node whose name has been compared already. */
  method SearchItemsByName(d: Dtb, target: seq<Byte>, pointer: nat, addressCells: nat, sizeCells: nat, ghost view: View)
    returns (outcome: Outcome, pointer': nat)
    requires NulFree(target) && ViewOk(d, view) && Searching(d, ByName(target), view, pointer, 0)
    requires CellsLeft(d, ByName(target), view, 0, Cells(addressCells, sizeCells), Cells(addressCells, sizeCells))
    ensures view.Known? ==> Answers(d, ByName(target), view.node, view.p, outcome, pointer')
    ensures CellsOk(d, ByName(target), view, Cells(addressCells, sizeCells), outcome)
    ensures pointer' >= pointer
    decreases if pointer < d.StructEnd() then d.StructEnd() - pointer else 0, 2
  {
    ghost var q := ByName(target);
    pointer' := pointer;
    var cells, sizes := addressCells, sizeCells;
    ghost var k: nat, c0 := 0, Cells(addressCells, sizeCells);
    while true
      invariant pointer' >= pointer && Searching(d, q, view, pointer', k)
      invariant CellsLeft(d, q, view, k, Cells(cells, sizes), c0)
      decreases if pointer' < d.StructEnd() then d.StructEnd() - pointer' else 0
    {
      var more, e;
      ghost var before := k;
      more, e, k := ToToken(d, pointer', view, k);
      NothingInNops(d, q, view, before, k);
      CellsPastNops(d, q, view, before, k, Cells(cells, sizes), c0);
      if !more {
        return Failed, e;
      }
      var token := d.ReadNode(e).value;
      if token == BEGIN_NODE {
        ChildSkipped(d, view, k, e);
        outcome, pointer' := SearchByName(d, target, e, cells, sizes, ChildStart(view, k, e));
        CellsOfChild(d, q, view, k, e, Cells(cells, sizes), c0, outcome, pointer');
        ChildFound(d, q, view, k, e, outcome, pointer');
        if !outcome.NotFound? {
          return;
        }
        k := k + 1;
      } else if token == END {
        return Failed, e;
      } else if token == END_NODE {
        NothingAtAll(d, q, view, k, e);
        return NotFound, e + TOKEN_SIZE;
      } else if token == PROP {
        var prop := PassProp(d, target, e, cells, sizes, view, k, c0);
        if prop.None? {
          return Failed, e;
        }
        cells, sizes := prop.value.addressCells, prop.value.sizeCells;
        pointer' := e + 12 + prop.value.len;
        k := k + 1;
      } else {
        return Failed, e;
      }
    }
  }
}
