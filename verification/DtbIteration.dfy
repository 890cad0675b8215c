/**
 Searching a whole devicetree, from the beginning or from where the last search has left off. What is
 left of the document is a path: a frame for every node that has begun and not ended.
 */
module DtbIteration {
  import opened Wrappers
  import opened DeviceTree
  import opened DtbMatches
  import opened DtbCells
  import opened DtbParser
  import opened DtbDescent
  import opened DtbSearch
  import opened DtbCompatible

  /** In the node that begins at p, item k is next. */
  datatype Frame = Frame(node: Node, p: nat, k: nat)

  /** The frames of the nodes that have begun and not ended, the innermost first; the outermost is the document. */
  datatype Path = Doc(top: Frame) | In(top: Frame, around: Path)

  /** The structure block, seen as a nameless node around the root whose end is the END token. */
  ghost predicate DocAt(d: Dtb, doc: Node) {
    && doc.name == [] && d.structOffset % 4 == 0 && d.structOffset >= 8
    && d.structOffset + ItemsSize(doc, |doc.items|) + TOKEN_SIZE <= d.StructEnd()
    && ItemsAt(d, doc, d.structOffset - 8)
    && d.Word(d.structOffset + ItemsSize(doc, |doc.items|)) == END
    && NoPropsFrom(doc, 0)
  }

  /** What the parser relies on in the trees of a document. */
  ghost predicate TreesOk(d: Dtb, q: Query, node: Node) {
    forall k: nat {:trigger ChildItem(node, k)} :: ChildItem(node, k) ==> PropsFirst(node.items[k].node) && (q.ByCompatible? ==> ListsOk(d, node.items[k].node))
  }

  ghost predicate FrameOk(d: Dtb, q: Query, f: Frame, bottom: bool) {
    && f.k <= |f.node.items|
    && TreesOk(d, q, f.node)
    && if bottom then f.p + 8 == d.structOffset && DocAt(d, f.node) else NodeAt(d, f.node, f.p) && PropsFirst(f.node)
  }

  /** The upper frame's node is the item that the lower frame has just passed. */
  ghost predicate Linked(lower: Frame, upper: Frame) {
    && 0 < lower.k <= |lower.node.items|
    && lower.node.items[lower.k - 1] == Child(upper.node)
    && upper.p == ItemStart(lower.node, lower.p, lower.k - 1)
  }

  /** A document the parser can rely on. */
  ghost predicate Document(d: Dtb, q: Query, doc: Node) {
    DocAt(d, doc) && TreesOk(d, q, doc)
  }

  /** A blob, what is searched in it, and the document that it represents. */
  datatype Scope = Scope(d: Dtb, q: Query, doc: Node)

  type Sound = x: Scope | Document(x.d, x.q, x.doc)
    ghost witness EmptyScope()

  /** A document without any node. */
  function EmptyScope(): (x: Scope)
    ensures Document(x.d, x.q, x.doc)
  {
    Scope(Dtb([0, 0, 0, 0, 0, 0, 0, 0, 0, 0, 0, END], 8, 4, 0, 0), ByName([]), Node([], []))
  }

  /** A path into the document. */
  ghost predicate PathOk(x: Scope, path: Path) {
    && path.top.k <= |path.top.node.items|
    && match path
       case Doc(f) => f.node == x.doc && f.p + 8 == x.d.structOffset
       case In(f, around) => Linked(around.top, f) && PathOk(x, around)
  }

  /** A child of a frame's node is represented where it should be. */
  lemma FrameChild(d: Dtb, q: Query, f: Frame, bottom: bool, k: nat)
    requires FrameOk(d, q, f, bottom) && ChildItem(f.node, k)
    ensures NodeAt(d, f.node.items[k].node, ItemStart(f.node, f.p, k))
    ensures PropsFirst(f.node.items[k].node) && (q.ByCompatible? ==> ListsOk(d, f.node.items[k].node))
  {
    if bottom {
      DocItem(d, f.node, f.p, k);
    } else {
      ItemOf(d, f.node, f.p, k);
    }
  }

  /** What holds for the trees below a node. */
  lemma TreesBelow(d: Dtb, q: Query, node: Node)
    requires PropsFirst(node) && (q.ByCompatible? ==> ListsOk(d, node))
    ensures TreesOk(d, q, node)
  {
  }

  /** The frames of a path into a document are what they should be. */
  lemma {:induction false} Framed(x: Sound, path: Path)
    requires PathOk(x, path)
    ensures FrameOk(x.d, x.q, path.top, path.Doc?)
    decreases path
  {
    if path.In? {
      var lower := path.around.top;
      Framed(x, path.around);
      FrameChild(x.d, x.q, lower, path.around.Doc?, lower.k - 1);
      TreesBelow(x.d, x.q, path.top.node);
    }
  }

  /** Behind a child no property is left. */
  lemma NoPropsBehind(d: Dtb, q: Query, f: Frame, bottom: bool)
    requires FrameOk(d, q, f, bottom) && ChildItem(f.node, f.k)
    ensures PropsPassed(f.(k := f.k + 1))
  {
  }

  /** No property lies ahead in the top frame. */
  ghost predicate PropsPassed(f: Frame) {
    NoPropsFrom(f.node, f.k)
  }

  function Position(f: Frame): nat
    requires f.k <= |f.node.items|
  {
    ItemStart(f.node, f.p, f.k)
  }

  /** The matches that are still ahead. */
  ghost function Rest(d: Dtb, q: Query, path: Path): seq<Match>
    decreases path, 1
  {
    FrameMatches(d, q, path.top) + RestAround(d, q, path)
  }

  ghost function FrameMatches(d: Dtb, q: Query, f: Frame): seq<Match> {
    if f.k <= |f.node.items| then MatchesFrom(d, f.node, f.p, f.k, q) else []
  }

  /** The matches behind the node of the top frame. */
  ghost function RestAround(d: Dtb, q: Query, path: Path): seq<Match>
    decreases path, 0
  {
    if path.In? then Rest(d, q, path.around) else []
  }

  /** The path at the beginning of the document. */
  function Beginning(d: Dtb, doc: Node): Path
    requires d.structOffset >= 8
  {
    Doc(Frame(doc, d.structOffset - 8, 0))
  }

  /** The path with the top frame moved to item k. */
  function MovedTo(path: Path, k: nat): Path {
    path.(top := path.top.(k := k))
  }

  lemma MovedOk(x: Scope, path: Path, k: nat)
    requires PathOk(x, path) && path.top.k <= k <= |path.top.node.items|
    ensures PathOk(x, MovedTo(path, k)) && (PropsPassed(path.top) ==> PropsPassed(MovedTo(path, k).top))
    ensures Rest(x.d, x.q, MovedTo(path, k)) == MatchesFrom(x.d, path.top.node, path.top.p, k, x.q) + RestAround(x.d, x.q, path)
    ensures RestAround(x.d, x.q, MovedTo(path, k)) == RestAround(x.d, x.q, path)
  {
  }

  /** The search goes on at `pointer`, and everything that was ahead still is. */
  ghost predicate GoesOn(x: Scope, path: Path, path': Path, pointer: nat) {
    && PathOk(x, path) && PathOk(x, path') && PropsPassed(path'.top)
    && Rest(x.d, x.q, path') == Rest(x.d, x.q, path) && Position(path'.top) == pointer
  }

  /** At the end of its top node the path goes on in the node around it. */
  lemma Popped(x: Sound, path: Path)
    requires PathOk(x, path) && path.In? && path.top.k == |path.top.node.items|
    ensures GoesOn(x, path, path.around, Position(path.top) + TOKEN_SIZE)
  {
    var lower, upper := path.around.top, path.top;
    Framed(x, path);
    Framed(x, path.around);
    assert ChildItem(lower.node, lower.k - 1);
    NextItem(lower.node, lower.p, lower.k - 1);
    ItemInside(x.d, upper.node, upper.p, upper.k);
    NothingLeft(x.d, x.q, upper.node, upper.p);
  }

  lemma NothingLeft(d: Dtb, q: Query, node: Node, p: nat)
    ensures MatchesFrom(d, node, p, |node.items|, q) == []
  {
  }

  // ---------------------------------------------------------------- the next token

  function EndToken(path: Path): nat {
    if path.Doc? then END else END_NODE
  }

  /** The tokens of the top frame's node. */
  lemma TopTokens(x: Sound, path: Path)
    requires PathOk(x, path)
    ensures TokensAt(x.d, path.top.node, path.top.p, EndToken(path))
  {
    var f := path.top;
    Framed(x, path);
    if path.Doc? {
      forall k: nat | k <= |f.node.items|
        ensures x.d.ReadNode(ItemStart(f.node, f.p, k)) == Some(TokenOf(f.node, k, END))
      {
        DocToken(x.d, f.node, f.p, k);
      }
    } else {
      NodeTokens(x.d, f.node, f.p);
    }
  }

  lemma DocToken(d: Dtb, doc: Node, p: nat, k: nat)
    requires DocAt(d, doc) && p + 8 == d.structOffset && k <= |doc.items|
    ensures d.ReadNode(ItemStart(doc, p, k)) == Some(TokenOf(doc, k, END))
  {
    ItemsSizeMonotone(doc, k, |doc.items|);
    DocStart(doc, p, k);
    if k < |doc.items| {
      DocItem(d, doc, p, k);
    }
  }

  lemma DocStart(doc: Node, p: nat, k: nat)
    requires doc.name == [] && k <= |doc.items|
    ensures ItemStart(doc, p, k) == p + 8 + ItemsSize(doc, k)
  {
    assert Padded(1) == 4;
  }

  lemma DocItem(d: Dtb, doc: Node, p: nat, k: nat)
    requires DocAt(d, doc) && p + 8 == d.structOffset && k < |doc.items|
    ensures ItemAt(d, doc.items[k], ItemStart(doc, p, k)) && !doc.items[k].Prop?
  {
    assert p == d.structOffset - 8 && ItemsAt(d, doc, p);
    assert !PropItem(doc, k);
  }

  /** The next item of the top frame that is no NOP. */
  lemma {:induction false} NextSignificant(d: Dtb, node: Node, p: nat, k: nat, last: nat) returns (k': nat)
    requires TokensAt(d, node, p, last) && last != NOP && k <= |node.items|
    ensures k <= k' <= |node.items| && !NopItem(node, k')
    ensures forall i: nat :: k <= i < k' ==> NopItem(node, i)
    ensures ItemStart(node, p, k) <= ItemStart(node, p, k') && NopsBetween(d, ItemStart(node, p, k), ItemStart(node, p, k'))
    decreases |node.items| - k
  {
    if NopItem(node, k) {
      assert d.ReadNode(ItemStart(node, p, k)) == Some(TokenOf(node, k, last));
      NextItem(node, p, k);
      k' := NextSignificant(d, node, p, k + 1, last);
    } else {
      k' := k;
    }
  }

  /** What a search at the position of the frame will meet. */
  ghost function StartAt(f: Frame): Start
    requires f.k <= |f.node.items|
  {
    if ChildItem(f.node, f.k) then BeforeNode(f.node.items[f.k].node, Position(f)) else BeforeEnd(Position(f))
  }

  /** NOP tokens ahead do not matter. */
  lemma ToSignificant(x: Sound, path: Path) returns (path': Path)
    requires PathOk(x, path) && PropsPassed(path.top)
    ensures PathOk(x, path') && PropsPassed(path'.top) && Rest(x.d, x.q, path') == Rest(x.d, x.q, path)
    ensures path.top.k <= path'.top.k && path' == MovedTo(path, path'.top.k) && forall i: nat :: path.top.k <= i < path'.top.k ==> NopItem(path.top.node, i)
    ensures path'.top.k == |path'.top.node.items| || ChildItem(path'.top.node, path'.top.k)
    ensures StartOk(x.d, StartAt(path'.top), Position(path.top)) && (x.q.ByCompatible? ==> CompatibleStartOk(x.d, StartAt(path'.top), Position(path.top)))
  {
    var f := path.top;
    TopTokens(x, path);
    var k := NextSignificant(x.d, f.node, f.p, f.k, EndToken(path));
    MovedOk(x, path, k);
    NopsKeep(x.d, x.q, f.node, f.p, f.k, k);
    path' := MovedTo(path, k);
    assert x.d.ReadNode(ItemStart(f.node, f.p, k)) == Some(TokenOf(f.node, k, EndToken(path)));
    if k < |f.node.items| {
      assert !PropItem(f.node, k) && ChildItem(f.node, k);
      TopItem(x, path, k);
    }
  }

  lemma TopItem(x: Sound, path: Path, k: nat)
    requires PathOk(x, path) && ChildItem(path.top.node, k)
    ensures NodeAt(x.d, path.top.node.items[k].node, ItemStart(path.top.node, path.top.p, k))
    ensures PropsFirst(path.top.node.items[k].node) && (x.q.ByCompatible? ==> ListsOk(x.d, path.top.node.items[k].node))
  {
    Framed(x, path);
    FrameChild(x.d, x.q, path.top, path.Doc?, k);
  }

  /** The first of the matches, if there is one. */
  ghost predicate FirstOf(m: seq<Match>, r: Option<DtbNode>) {
    if m == [] then r == None else r.Some? && r.value.address == m[0].Address()
  }

  /** Behind an item without a match. */
  lemma Passed(x: Scope, path: Path)
    requires PathOk(x, path) && PropsPassed(path.top) && path.top.k < |path.top.node.items|
    requires FrameMatches(x.d, x.q, path.top) == FrameMatches(x.d, x.q, MovedTo(path, path.top.k + 1).top)
    ensures GoesOn(x, path, MovedTo(path, path.top.k + 1), Position(path.top) + ItemSize(path.top.node.items[path.top.k]))
  {
    PassedRest(x, path, MovedTo(path, path.top.k + 1));
    NextItem(path.top.node, path.top.p, path.top.k);
  }

  lemma PassedRest(x: Scope, path: Path, moved: Path)
    requires PathOk(x, path) && PropsPassed(path.top) && path.top.k < |path.top.node.items|
    requires moved == MovedTo(path, path.top.k + 1) && FrameMatches(x.d, x.q, path.top) == FrameMatches(x.d, x.q, moved.top)
    ensures PathOk(x, moved) && PropsPassed(moved.top) && Rest(x.d, x.q, moved) == Rest(x.d, x.q, path)
  {
  }

  /** A search that finds the next match. */
  lemma FoundNext(x: Scope, path: Path, outcome: Outcome, pointer': nat)
    requires PathOk(x, path) && SearchOk(x.d, x.q, StartAt(path.top), outcome, pointer') && outcome.Found?
    requires path.top.k == |path.top.node.items| || ChildItem(path.top.node, path.top.k)
    ensures FirstOf(Rest(x.d, x.q, path), Some(outcome.node))
  {
    MatchesStep(x.d, x.q, path.top.node, path.top.p, path.top.k);
  }

  lemma ChildPassed(x: Scope, path: Path, pointer': nat)
    requires PathOk(x, path) && PropsPassed(path.top) && ChildItem(path.top.node, path.top.k)
    requires Answers(x.d, x.q, path.top.node.items[path.top.k].node, Position(path.top), NotFound, pointer')
    ensures GoesOn(x, path, MovedTo(path, path.top.k + 1), pointer')
  {
    MatchesStep(x.d, x.q, path.top.node, path.top.p, path.top.k);
    Passed(x, path);
  }

  lemma NopPassed(x: Scope, path: Path)
    requires PathOk(x, path) && PropsPassed(path.top) && NopItem(path.top.node, path.top.k)
    ensures GoesOn(x, path, MovedTo(path, path.top.k + 1), Position(path.top) + TOKEN_SIZE)
  {
    NopHasNoMatch(x.d, x.q, path.top);
    Passed(x, path);
  }

  lemma NopHasNoMatch(d: Dtb, q: Query, f: Frame)
    requires NopItem(f.node, f.k)
    ensures FrameMatches(d, q, f) == FrameMatches(d, q, f.(k := f.k + 1)) && ItemSize(f.node.items[f.k]) == TOKEN_SIZE
  {
    MatchesStep(d, q, f.node, f.p, f.k);
  }

  /** A search that finds nothing: the path goes on behind what has been searched. */
  lemma NotFoundNext(x: Scope, path: Path, pointer': nat) returns (path': Path)
    requires PathOk(x, path) && PropsPassed(path.top) && SearchOk(x.d, x.q, StartAt(path.top), NotFound, pointer')
    requires path.top.k == |path.top.node.items| || ChildItem(path.top.node, path.top.k)
    ensures GoesOn(x, path, path', pointer')
    ensures path' == if ChildItem(path.top.node, path.top.k) then MovedTo(path, path.top.k + 1) else path
  {
    if ChildItem(path.top.node, path.top.k) {
      ChildPassed(x, path, pointer');
      path' := MovedTo(path, path.top.k + 1);
    } else {
      path' := path;
    }
  }

  lemma TopToken(x: Sound, path: Path)
    requires PathOk(x, path)
    ensures x.d.ReadNode(Position(path.top)) == Some(TokenOf(path.top.node, path.top.k, EndToken(path)))
  {
    TopTokens(x, path);
    assert x.d.ReadNode(ItemStart(path.top.node, path.top.p, path.top.k)) == Some(TokenOf(path.top.node, path.top.k, EndToken(path)));
  }

  /** What the token at the position of a path says. */
  lemma TokenCases(x: Sound, path: Path)
    requires PathOk(x, path) && PropsPassed(path.top)
    ensures x.d.ReadNode(Position(path.top)) == Some(END) ==> Rest(x.d, x.q, path) == []
    ensures x.d.ReadNode(Position(path.top)) == Some(END_NODE) ==> path.In? && path.top.k == |path.top.node.items|
    ensures x.d.ReadNode(Position(path.top)) == Some(NOP) ==> NopItem(path.top.node, path.top.k)
    ensures x.d.ReadNode(Position(path.top)).Some?
    ensures x.d.ReadNode(Position(path.top)) != Some(PROP) && IsToken(x.d.Word(Position(path.top)))
  {
    TopToken(x, path);
    assert !PropItem(path.top.node, path.top.k);
    NothingLeft(x.d, x.q, path.top.node, path.top.p);
  }

  // ---------------------------------------------------------------- the counts of cells

  /** The counts with which the next match is found, when the nodes around it are left with c. */
  ghost function RestCells(d: Dtb, q: Query, path: Path, c: Cells): Cells
    decreases path
  {
    if FrameMatches(d, q, path.top) != [] then FirstCellsFrom(d, q, path.top.node, path.top.p, path.top.k, c)
    else if path.In? then RestCells(d, q, path.around, c)
    else c
  }

  lemma NopsPassedCells(x: Scope, path: Path, k: nat, c: Cells)
    requires PathOk(x, path) && path.top.k <= k <= |path.top.node.items| && forall i: nat :: path.top.k <= i < k ==> NopItem(path.top.node, i)
    ensures RestCells(x.d, x.q, MovedTo(path, k), c) == RestCells(x.d, x.q, path, c)
  {
    NopsKeep(x.d, x.q, path.top.node, path.top.p, path.top.k, k);
    NopsKeepCells(x.d, x.q, path.top.node, path.top.p, path.top.k, k, c);
  }

  lemma ChildPassedCells(x: Scope, path: Path, c: Cells)
    requires PathOk(x, path) && ChildItem(path.top.node, path.top.k)
    requires Matches(x.d, path.top.node.items[path.top.k].node, Position(path.top), x.q) == []
    ensures RestCells(x.d, x.q, MovedTo(path, path.top.k + 1), c) == RestCells(x.d, x.q, path, c)
  {
    MatchesStep(x.d, x.q, path.top.node, path.top.p, path.top.k);
  }

  lemma PoppedCells(x: Scope, path: Path, c: Cells)
    requires PathOk(x, path) && path.In? && path.top.k == |path.top.node.items|
    ensures RestCells(x.d, x.q, path.around, c) == RestCells(x.d, x.q, path, c)
  {
    NothingLeft(x.d, x.q, path.top.node, path.top.p);
  }

  lemma NextCells(x: Sound, path: Path, c: Cells)
    requires PathOk(x, path) && PropsPassed(path.top)
    requires x.d.ReadNode(Position(path.top)) == Some(END_NODE) || x.d.ReadNode(Position(path.top)) == Some(NOP)
    ensures RestCells(x.d, x.q, Next(path), c) == RestCells(x.d, x.q, path, c)
  {
    TokenCases(x, path);
    if NopItem(path.top.node, path.top.k) {
      NopsPassedCells(x, path, path.top.k + 1, c);
    } else {
      PoppedCells(x, path, c);
    }
  }

  /** What is found below the next child has its counts. */
  lemma FoundCells(x: Scope, path: Path, c: Cells, outcome: Outcome, pointer': nat)
    requires PathOk(x, path) && (path.top.k == |path.top.node.items| || ChildItem(path.top.node, path.top.k)) && outcome.Found?
    requires SearchOk(x.d, x.q, StartAt(path.top), outcome, pointer') && CellsOk(x.d, x.q, ViewOf(StartAt(path.top)), c, outcome)
    ensures outcome.node.Counts() == RestCells(x.d, x.q, path, c)
  {
    var f := path.top;
    MatchesStep(x.d, x.q, f.node, f.p, f.k);
    assert FoundIn(x.d, x.q, f.node, f.p, f.k);
    assert ChildCells(x.d, x.q, f.node.items[f.k], Position(f), c) == FirstCells(x.d, x.q, f.node.items[f.k].node, Position(f), c);
  }

  // ---------------------------------------------------------------- the search over the whole document

  ghost predicate QueryOk(q: Query) {
    NulFree(q.target)
  }

  /** The search below one node, by what is asked for. */
  method SearchOne(d: Dtb, q: Query, pointer: nat, addressCells: nat, sizeCells: nat, ghost start: Start) returns (outcome: Outcome, pointer': nat)
    requires QueryOk(q) && StartOk(d, start, pointer) && (q.ByCompatible? ==> CompatibleStartOk(d, start, pointer))
    ensures SearchOk(d, q, start, outcome, pointer')
    ensures CellsOk(d, q, ViewOf(start), Cells(addressCells, sizeCells), outcome)
    ensures pointer' >= pointer
    ensures outcome.NotFound? ==> pointer' > pointer || d.ReadNode(pointer') == Some(END_NODE) || d.ReadNode(pointer') == Some(END)
  {
    match q
    case ByName(target) =>
      outcome, pointer' := SearchByName(d, target, pointer, addressCells, sizeCells, start);
    case ByCompatible(target) =>
      outcome, pointer' := SearchByCompatible(d, target, pointer, addressCells, sizeCells, start);
  }

  /** What is known about the bytes from the pointer on: nothing, or which part of which document they are. */
  datatype Knowledge = Nothing | Along(x: Sound, path: Path)

  ghost predicate Left(d: Dtb, q: Query, known: Knowledge, pointer: nat) {
    known.Along? ==>
      && known.x.d == d && known.x.q == q
      && PathOk(known.x, known.path) && PropsPassed(known.path.top) && Position(known.path.top) == pointer
  }

  ghost predicate SameRest(d: Dtb, q: Query, known: Knowledge, known': Knowledge) {
    (known.Nothing? <==> known'.Nothing?) && (known.Along? && known'.Along? ==> Rest(d, q, known'.path) == Rest(d, q, known.path))
  }

  /** The same for the counts of the next match. */
  ghost predicate SameCells(d: Dtb, q: Query, known: Knowledge, known': Knowledge, c: Cells) {
    known.Along? && known'.Along? ==> RestCells(d, q, known'.path, c) == RestCells(d, q, known.path, c)
  }

  ghost predicate CountsOk(d: Dtb, q: Query, known: Knowledge, c: Cells, r: Option<DtbNode>) {
    known.Along? && r.Some? ==> r.value.Counts() == RestCells(d, q, known.path, c)
  }

  ghost predicate FirstLeft(d: Dtb, q: Query, known: Knowledge, r: Option<DtbNode>) {
    known.Along? ==> FirstOf(Rest(d, q, known.path), r)
  }

  /** The path behind the end of a node or a NOP token. */
  function Next(path: Path): Path {
    if path.In? && path.top.k == |path.top.node.items| then path.around else MovedTo(path, path.top.k + 1)
  }

  lemma NextGoesOn(x: Sound, path: Path)
    requires PathOk(x, path) && PropsPassed(path.top)
    requires x.d.ReadNode(Position(path.top)) == Some(END_NODE) || x.d.ReadNode(Position(path.top)) == Some(NOP)
    ensures GoesOn(x, path, Next(path), Position(path.top) + TOKEN_SIZE)
  {
    TokenCases(x, path);
    if NopItem(path.top.node, path.top.k) {
      NopPassed(x, path);
      assert Next(path) == MovedTo(path, path.top.k + 1);
    } else {
      Popped(x, path);
      assert Next(path) == path.around;
    }
  }

  /** How one round of the search ends. */
  datatype Round = Done(r: Option<DtbNode>) | Again

  /** Goes on behind what has been searched in vain. */
  method AfterNothing(d: Dtb, q: Query, pointer: nat, ghost known: Knowledge, ghost c: Cells) returns (round: Round, pointer': nat, ghost known': Knowledge)
    requires Left(d, q, known, pointer)
    ensures round.Done? ==> round.r == None && FirstLeft(d, q, known, round.r)
    ensures round.Again? ==> SameCells(d, q, known, known', c)
    ensures round.Again? ==> pointer' >= pointer && Left(d, q, known', pointer') && SameRest(d, q, known, known')
    ensures round.Again? && (d.ReadNode(pointer) == Some(END_NODE) || d.ReadNode(pointer) == Some(END)) ==> pointer' > pointer
  {
    if known.Along? {
      TokenCases(known.x, known.path);
    }
    var token := d.ReadNode(pointer);
    if token == None || token == Some(END) {
      return Done(None), pointer, known;
    }
    if token == Some(BEGIN_NODE) {
      return Again, pointer, known;
    }
    if token == Some(END_NODE) || token == Some(NOP) {
      known' := known;
      if known.Along? {
        NextGoesOn(known.x, known.path);
        NextCells(known.x, known.path, c);
        known' := Along(known.x, Next(known.path));
      }
      return Again, pointer + TOKEN_SIZE, known';
    }
    return Done(None), pointer, known;
  }

  /** The same place of the document, but for NOP tokens; and what a search from there will meet. */
  ghost predicate Ahead(d: Dtb, q: Query, known: Knowledge, ahead: Knowledge, start: Start, c: Cells) {
    && SameRest(d, q, known, ahead) && SameCells(d, q, known, ahead, c)
    && if ahead.Nothing? then start == Anywhere
       else
         && ahead.x.d == d && ahead.x.q == q && PathOk(ahead.x, ahead.path) && PropsPassed(ahead.path.top) && start == StartAt(ahead.path.top)
         && (ahead.path.top.k == |ahead.path.top.node.items| || ChildItem(ahead.path.top.node, ahead.path.top.k))
  }

  lemma RoundStarts(d: Dtb, q: Query, pointer: nat, known: Knowledge, c: Cells) returns (ahead: Knowledge, start: Start)
    requires Left(d, q, known, pointer)
    ensures Ahead(d, q, known, ahead, start, c) && StartOk(d, start, pointer) && (q.ByCompatible? ==> CompatibleStartOk(d, start, pointer))
  {
    ahead, start := known, Anywhere;
    if known.Along? {
      var significant := ToSignificant(known.x, known.path);
      NopsPassedCells(known.x, known.path, significant.top.k, c);
      ahead, start := Along(known.x, significant), StartAt(significant.top);
    }
  }

  lemma RoundFinds(d: Dtb, q: Query, known: Knowledge, ahead: Knowledge, start: Start, c: Cells, outcome: Outcome, pointer': nat)
    requires Ahead(d, q, known, ahead, start, c) && SearchOk(d, q, start, outcome, pointer') && CellsOk(d, q, ViewOf(start), c, outcome)
    ensures outcome.Found? ==> FirstLeft(d, q, known, Some(outcome.node)) && CountsOk(d, q, known, c, Some(outcome.node))
    ensures outcome.Failed? ==> known.Nothing?
  {
    if ahead.Along? && outcome.Found? {
      FoundNext(ahead.x, ahead.path, outcome, pointer');
      FoundCells(ahead.x, ahead.path, c, outcome, pointer');
    }
  }

  lemma RoundPasses(d: Dtb, q: Query, known: Knowledge, ahead: Knowledge, start: Start, c: Cells, pointer': nat) returns (behind: Knowledge)
    requires Ahead(d, q, known, ahead, start, c) && SearchOk(d, q, start, NotFound, pointer')
    ensures Left(d, q, behind, pointer') && SameRest(d, q, known, behind) && SameCells(d, q, known, behind, c)
  {
    behind := ahead;
    if ahead.Along? {
      var path := NotFoundNext(ahead.x, ahead.path, pointer');
      behind := Along(ahead.x, path);
      if ChildItem(ahead.path.top.node, ahead.path.top.k) {
        ChildPassedCells(ahead.x, ahead.path, c);
      }
    }
  }

  /** One round: searches what is next, and moves behind it. */
  method SearchRound(d: Dtb, q: Query, pointer: nat, addressCells: nat, sizeCells: nat, ghost known: Knowledge)
    returns (round: Round, pointer': nat, ghost known': Knowledge)
    requires QueryOk(q) && Left(d, q, known, pointer) && d.ReadNode(pointer).Some?
    ensures round.Done? ==> FirstLeft(d, q, known, round.r) && CountsOk(d, q, known, Cells(addressCells, sizeCells), round.r)
    ensures round.Again? ==>
              && pointer' > pointer && Left(d, q, known', pointer') && SameRest(d, q, known, known')
              && SameCells(d, q, known, known', Cells(addressCells, sizeCells))
  {
    ghost var c := Cells(addressCells, sizeCells);
    ghost var ahead, start := RoundStarts(d, q, pointer, known, c);
    var outcome;
    outcome, pointer' := SearchOne(d, q, pointer, addressCells, sizeCells, start);
    RoundFinds(d, q, known, ahead, start, c, outcome, pointer');
    match outcome
    case Failed => return Done(None), pointer', known;
    case Found(node) => return Done(Some(node)), pointer', known;
    case NotFound =>
      known' := RoundPasses(d, q, known, ahead, start, c, pointer');
      round, pointer', known' := AfterNothing(d, q, pointer', known', c);
  }

  /** Searches the rest of the document. */
  method SearchRest(d: Dtb, q: Query, pointer: nat, addressCells: nat, sizeCells: nat, ghost known: Knowledge) returns (r: Option<DtbNode>)
    requires QueryOk(q) && Left(d, q, known, pointer)
    ensures FirstLeft(d, q, known, r) && CountsOk(d, q, known, Cells(addressCells, sizeCells), r)
  {
    var p := pointer;
    ghost var left := known;
    while d.ReadNode(p).Some?
      invariant Left(d, q, left, p) && SameRest(d, q, known, left) && SameCells(d, q, known, left, Cells(addressCells, sizeCells))
      decreases d.StructEnd() - p
    {
      var round;
      round, p, left := SearchRound(d, q, p, addressCells, sizeCells, left);
      if round.Done? {
        return round.r;
      }
    }
    if left.Along? {
      TopToken(left.x, left.path);
    }
    return None;
  }
}
