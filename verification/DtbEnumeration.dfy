/** `search_node` and `search_node_by_compatible`, called again and again: which matches they visit. */
module DtbEnumeration {
  import opened Wrappers
  import opened DeviceTree
  import opened DtbMatches
  import opened DtbCells
  import opened DtbParser
  import opened DtbDescent
  import opened DtbSearch
  import opened DtbIteration

  /** All matches of a document. */
  ghost function AllMatches(d: Dtb, q: Query, doc: Node): seq<Match>
    requires d.structOffset >= 8
  {
    MatchesFrom(d, doc, d.structOffset - 8, 0, q)
  }

  lemma BeginningOk(x: Sound)
    requires Document(x.d, x.q, x.doc)
    ensures PathOk(x, Beginning(x.d, x.doc)) && PropsPassed(Beginning(x.d, x.doc).top)
    ensures Position(Beginning(x.d, x.doc).top) == x.d.structOffset && Rest(x.d, x.q, Beginning(x.d, x.doc)) == AllMatches(x.d, x.q, x.doc)
  {
    DocStart(x.doc, x.d.structOffset - 8, 0);
    assert AllMatches(x.d, x.q, x.doc) + [] == AllMatches(x.d, x.q, x.doc);
  }

  /** The path goes on right behind a node. */
  ghost predicate Behind(x: Scope, m: Match, path: Path) {
    && PathOk(x, path) && PropsPassed(path.top)
    && 0 < path.top.k && path.top.node.items[path.top.k - 1] == Child(m.node)
    && m.p == ItemStart(path.top.node, path.top.p, path.top.k - 1)
  }

  lemma BehindPosition(x: Sound, m: Match, path: Path)
    requires Behind(x, m, path)
    ensures NodeAt(x.d, m.node, m.p) && Position(path.top) == m.p + Size(m.node)
  {
    var f := path.top;
    assert ChildItem(f.node, f.k - 1);
    TopItem(x, path, f.k - 1);
    NextItem(f.node, f.p, f.k - 1);
  }

  // ---------------------------------------------------------------- one call

  /** The next match, from the beginning or behind the current node. A node with a child cannot be passed. */
  method Search(d: Dtb, q: Query, current: Option<DtbNode>, ghost m: Match, ghost known: Knowledge) returns (r: Option<DtbNode>)
    requires QueryOk(q) && (current.Some? ==> current.value.address > 0)
    requires current.None? ==> Left(d, q, known, d.structOffset)
    requires current.Some? && known.Along? ==>
               known.x.d == d && known.x.q == q && Behind(known.x, m, known.path) && current.value.address == m.Address()
    ensures current.None? ==> FirstLeft(d, q, known, r)
    ensures current.Some? && known.Along? ==> if HasChild(m.node) then r == None else FirstLeft(d, q, known, r)
    // the counts of cells begin with those of the specification, or are those of the current node
    ensures CountsOk(d, q, known, if current.Some? then current.value.Counts() else Cells(2, 1), r)
  {
    if current.None? {
      r := SearchRest(d, q, d.structOffset, 2, 1, known);
      return;
    }
    if known.Along? {
      BehindPosition(known.x, m, known.path);
    }
    var ok, pointer := SkipToNextNode(d, current.value.address, if known.Along? then Known(m.node, m.p) else Unknown);
    if !ok {
      return None;
    }
    r := SearchRest(d, q, pointer, current.value.addressCells, current.value.sizeCells, known);
  }

  // ---------------------------------------------------------------- where the matches are

  /** The bytes that are ahead in one node. */
  function FrameAhead(f: Frame): nat
    requires f.k <= |f.node.items|
  {
    ItemsSizeMonotone(f.node, f.k, |f.node.items|);
    ItemsSize(f.node, |f.node.items|) - ItemsSize(f.node, f.k)
  }

  /** The bytes that are ahead, in all nodes that have begun. */
  ghost function Ahead(path: Path): nat {
    (if path.top.k <= |path.top.node.items| then FrameAhead(path.top) else 0) + if path.In? then Ahead(path.around) else 0
  }

  ghost function Depth(path: Path): nat {
    if path.In? then 1 + Depth(path.around) else 0
  }

  lemma FrameMoved(f: Frame)
    requires f.k < |f.node.items|
    ensures FrameAhead(f.(k := f.k + 1)) + ItemSize(f.node.items[f.k]) == FrameAhead(f)
  {
  }

  /** The path behind item k of its top frame has less ahead. */
  lemma MovedAhead(x: Scope, path: Path)
    requires PathOk(x, path) && path.top.k < |path.top.node.items|
    ensures PathOk(x, MovedTo(path, path.top.k + 1))
    ensures Ahead(MovedTo(path, path.top.k + 1)) + ItemSize(path.top.node.items[path.top.k]) == Ahead(path)
  {
    MovedOk(x, path, path.top.k + 1);
    FrameMoved(path.top);
  }

  /** The frame of a child in which the search begins. */
  function ChildFrame(f: Frame): Frame
    requires f.k <= |f.node.items| && ChildItem(f.node, f.k)
  {
    Frame(f.node.items[f.k].node, ItemStart(f.node, f.p, f.k), 0)
  }

  /** The path into a child. */
  function Entered(path: Path): Path
    requires path.top.k <= |path.top.node.items| && ChildItem(path.top.node, path.top.k)
  {
    In(ChildFrame(path.top), MovedTo(path, path.top.k + 1))
  }

  lemma Pushed(x: Scope, path: Path, f: Frame)
    requires PathOk(x, path) && f.k <= |f.node.items| && Linked(path.top, f)
    ensures PathOk(x, In(f, path)) && Rest(x.d, x.q, In(f, path)) == MatchesFrom(x.d, f.node, f.p, f.k, x.q) + Rest(x.d, x.q, path)
    ensures Ahead(In(f, path)) == FrameAhead(f) + Ahead(path)
  {
  }

  lemma EnteredOk(x: Scope, path: Path)
    requires PathOk(x, path) && ChildItem(path.top.node, path.top.k) && !Hit(x.d, path.top.node.items[path.top.k].node, x.q)
    ensures PathOk(x, Entered(path)) && Rest(x.d, x.q, Entered(path)) == Rest(x.d, x.q, path)
    ensures Ahead(Entered(path)) < Ahead(path)
  {
    MovedAhead(x, path);
    RestStep(x, path);
    Pushed(x, MovedTo(path, path.top.k + 1), ChildFrame(path.top));
    assert NextMatches(x.d, x.q, path.top) == MatchesFrom(x.d, ChildFrame(path.top).node, ChildFrame(path.top).p, 0, x.q);
  }

  /** Behind a child no property is left. */
  lemma BehindChild(x: Sound, path: Path)
    requires PathOk(x, path) && ChildItem(path.top.node, path.top.k)
    ensures Behind(x, Match(path.top.node.items[path.top.k].node, ItemStart(path.top.node, path.top.p, path.top.k)), MovedTo(path, path.top.k + 1))
  {
    MovedOk(x, path, path.top.k + 1);
    Framed(x, path);
    NoPropsBehind(x.d, x.q, path.top, path.Doc?);
  }

  /** The matches that begin with the next item of a path. */
  ghost function NextMatches(d: Dtb, q: Query, f: Frame): seq<Match>
    requires f.k < |f.node.items|
  {
    if f.node.items[f.k].Child? then Matches(d, f.node.items[f.k].node, ItemStart(f.node, f.p, f.k), q) else []
  }

  /** The matches ahead of a path, split at its next item. */
  lemma RestStep(x: Scope, path: Path)
    requires PathOk(x, path) && path.top.k < |path.top.node.items|
    ensures PathOk(x, MovedTo(path, path.top.k + 1))
    ensures Rest(x.d, x.q, path) == NextMatches(x.d, x.q, path.top) + Rest(x.d, x.q, MovedTo(path, path.top.k + 1))
  {
    var f := path.top;
    MatchesStep(x.d, x.q, f.node, f.p, f.k);
    MovedOk(x, path, f.k + 1);
    Associative(NextMatches(x.d, x.q, f), MatchesFrom(x.d, f.node, f.p, f.k + 1, x.q), RestAround(x.d, x.q, path));
  }

  lemma Associative<T>(a: seq<T>, b: seq<T>, c: seq<T>)
    ensures (a + b) + c == a + (b + c)
  {
  }

  /** A child that matches is the first of the matches ahead. */
  lemma HitFirst(x: Sound, path: Path) returns (m: Match, moved: Path)
    requires PathOk(x, path) && ChildItem(path.top.node, path.top.k) && Hit(x.d, path.top.node.items[path.top.k].node, x.q)
    ensures Behind(x, m, moved) && Rest(x.d, x.q, path) == [m] + Rest(x.d, x.q, moved) && Ahead(moved) < Ahead(path)
  {
    m := Match(path.top.node.items[path.top.k].node, ItemStart(path.top.node, path.top.p, path.top.k));
    moved := MovedTo(path, path.top.k + 1);
    RestStep(x, path);
    BehindChild(x, path);
    MovedAhead(x, path);
  }

  /** At the end of a node nothing changes. */
  lemma EndStep(x: Scope, path: Path)
    requires PathOk(x, path) && path.top.k == |path.top.node.items|
    ensures Rest(x.d, x.q, path) == RestAround(x.d, x.q, path)
    ensures path.In? ==> Ahead(path) == Ahead(path.around)
  {
    NothingLeft(x.d, x.q, path.top.node, path.top.p);
  }

  /** A path with the same matches ahead and less to search, unless a match is next. */
  lemma Closer(x: Scope, path: Path) returns (other: Path)
    requires PathOk(x, path) && |Rest(x.d, x.q, path)| > 0
    requires !(ChildItem(path.top.node, path.top.k) && Hit(x.d, path.top.node.items[path.top.k].node, x.q))
    ensures PathOk(x, other) && Rest(x.d, x.q, path) == Rest(x.d, x.q, other)
    ensures Ahead(other) < Ahead(path) || (Ahead(other) == Ahead(path) && Depth(other) < Depth(path))
  {
    if path.top.k == |path.top.node.items| {
      EndStep(x, path);
      other := path.around;
    } else if ChildItem(path.top.node, path.top.k) {
      EnteredOk(x, path);
      other := Entered(path);
    } else {
      RestStep(x, path);
      MovedAhead(x, path);
      other := MovedTo(path, path.top.k + 1);
    }
  }

  /** The first match ahead, and the path behind it. */
  lemma {:induction false} FirstMatch(x: Sound, path: Path) returns (m: Match, behind: Path)
    requires PathOk(x, path) && |Rest(x.d, x.q, path)| > 0
    ensures Behind(x, m, behind) && Rest(x.d, x.q, path) == [m] + Rest(x.d, x.q, behind)
    decreases Ahead(path), Depth(path)
  {
    if ChildItem(path.top.node, path.top.k) && Hit(x.d, path.top.node.items[path.top.k].node, x.q) {
      m, behind := HitFirst(x, path);
    } else {
      var other := Closer(x, path);
      m, behind := FirstMatch(x, other);
    }
  }

  /** Behind every match there is a path, and ahead of it are the matches that follow. */
  lemma {:induction false} Locate(x: Sound, path: Path, j: nat) returns (m: Match, behind: Path)
    requires PathOk(x, path) && j < |Rest(x.d, x.q, path)|
    ensures Behind(x, m, behind) && m == Rest(x.d, x.q, path)[j] && Rest(x.d, x.q, behind) == Rest(x.d, x.q, path)[j + 1..]
    decreases j
  {
    var first, next := FirstMatch(x, path);
    if j == 0 {
      m, behind := first, next;
    } else {
      m, behind := Locate(x, next, j - 1);
      Shifted(Rest(x.d, x.q, path), first, Rest(x.d, x.q, next), j);
    }
  }

  lemma Shifted<T>(a: seq<T>, x: T, b: seq<T>, j: nat)
    requires a == [x] + b && 0 < j < |a|
    ensures a[j] == b[j - 1] && a[j + 1..] == b[j..]
  {
  }

  // ---------------------------------------------------------------- all calls

  /** How many matches repeated searches visit: they stop at the first one that has a child. */
  ghost function Visited(m: seq<Match>): (n: nat)
    ensures n <= |m|
  {
    if m == [] then 0 else if HasChild(m[0].node) then 1 else 1 + Visited(m[1..])
  }

  /** They visit all of them exactly if no match but the last has a child. */
  lemma {:induction false} AllVisited(m: seq<Match>)
    ensures Visited(m) == |m| <==> forall j :: 0 <= j < |m| - 1 ==> !HasChild(m[j].node)
  {
    if m != [] {
      var rest := m[1..];
      AllVisited(rest);
      assert forall j :: 0 <= j < |rest| ==> rest[j] == m[j + 1];
      assert forall j :: 1 <= j < |m| ==> m[j] == rest[j - 1];
    }
  }

  /** The result of a search behind match j. */
  ghost predicate NextMatch(m: seq<Match>, j: nat, r: Option<DtbNode>)
    requires j < |m|
  {
    if HasChild(m[j].node) || j + 1 == |m| then r == None else r.Some? && r.value.address == m[j + 1].Address()
  }

  /** A search behind any match of a document finds the one that follows, if it can pass the match at all. */
  method SearchBehind(d: Dtb, q: Query, current: DtbNode, ghost x: Sound, ghost j: nat) returns (r: Option<DtbNode>)
    requires QueryOk(q) && x.d == d && x.q == q && j < |AllMatches(d, q, x.doc)|
    requires current.address == AllMatches(d, q, x.doc)[j].Address()
    ensures NextMatch(AllMatches(d, q, x.doc), j, r)
    ensures r.Some? ==> exists path :: Behind(x, AllMatches(d, q, x.doc)[j], path) && r.value.Counts() == RestCells(d, q, path, current.Counts())
  {
    BeginningOk(x);
    ghost var m, path := Locate(x, Beginning(d, x.doc), j);
    r := Search(d, q, Some(current), m, Along(x, path));
  }

  /** Searching until nothing is found visits the matches in document order, each once, up to the first that has a child. */
  method Enumerate(d: Dtb, q: Query, ghost x: Sound) returns (found: seq<nat>)
    requires QueryOk(q) && x.d == d && x.q == q
    ensures var m := AllMatches(d, q, x.doc);
            |found| == Visited(m) && forall i :: 0 <= i < |found| ==> found[i] == m[i].Address()
  {
    ghost var m := AllMatches(d, q, x.doc);
    BeginningOk(x);
    var current := Search(d, q, None, Match(x.doc, 0), Along(x, Beginning(d, x.doc)));
    found := [];
    while current.Some?
      invariant |found| <= |m| && forall i :: 0 <= i < |found| ==> found[i] == m[i].Address()
      invariant current.Some? ==>
                  && |found| < |m| && current.value.address == m[|found|].Address()
                  && Visited(m) == |found| + Visited(m[|found|..])
      invariant current.None? ==> |found| == Visited(m)
      decreases |m| - |found|, current.Some?
    {
      found := found + [current.value.address];
      ghost var j := |found| - 1;
      assert m[j..][1..] == m[j + 1..];
      current := SearchBehind(d, q, current.value, x, j);
    }
  }
}
