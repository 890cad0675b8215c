/** Which size of page or block a request uses for an address. */
module Stage2Blocks {
  import opened Arithmetic
  import opened Stage2Tables
  import opened Stage2Regions

  /** A request to map [ipa, end) to the physical addresses from pa on, in tables whose root is of level `top`. */
  datatype Request = Request(ipa: nat, pa: nat, end: nat, permission: nat, top: nat)

  /** What is left of a request when everything before `cur` is done. */
  function Rest(req: Request, cur: nat): Request
    requires req.ipa <= cur
  {
    req.(ipa := cur, pa := req.pa + (cur - req.ipa))
  }

  /** The aligned block of a level around x lies in the request, and is aligned on the physical side, too. */
  predicate BlockFits(req: Request, x: nat, level: nat) {
    ModBelow(x, Span(level));
    var lo := x - x % Span(level);
    req.top <= level && req.ipa <= lo && lo + Span(level) <= req.end && (req.pa + (lo - req.ipa)) % Span(level) == 0
  }

  /** The level of the page or block that maps x: the largest block that fits. */
  function LeafLevel(req: Request, x: nat): (level: nat)
    ensures 1 <= level <= 3
  {
    if BlockFits(req, x, 1) then 1 else if BlockFits(req, x, 2) then 2 else 3
  }

  /** No block of a level above the given one fits around x. */
  predicate NoBlock(req: Request, x: nat, level: nat) {
    (level > 1 ==> !BlockFits(req, x, 1)) && (level > 2 ==> !BlockFits(req, x, 2))
  }

  /** No block that is larger than the entries of a table fits in its window. */
  ghost predicate NoBigger(req: Request, r: Region) {
    forall x: nat {:trigger NoBlock(req, x, r.level)} :: r.Contains(x) ==> NoBlock(req, x, r.level)
  }

  /** No block fits in the window of entry i, neither one as large as the window nor a larger one. */
  ghost predicate NoBlockBelow(req: Request, r: Region, i: nat) {
    NoBigger(req, Region(r.level + 1, EntryStart(r.base, r.level, i), ENTRIES))
  }

  lemma RestFits(req: Request, cur: nat, x: nat, level: nat)
    requires req.ipa <= cur && BlockFits(Rest(req, cur), x, level)
    ensures BlockFits(req, x, level)
  {
  }

  lemma RestHasNone(req: Request, cur: nat, x: nat, level: nat)
    requires req.ipa <= cur && NoBlock(req, x, level)
    ensures NoBlock(Rest(req, cur), x, level)
  {
    if level > 1 && BlockFits(Rest(req, cur), x, 1) {
      RestFits(req, cur, x, 1);
    }
    if level > 2 && BlockFits(Rest(req, cur), x, 2) {
      RestFits(req, cur, x, 2);
    }
  }

  lemma RestHasNoBigger(req: Request, cur: nat, r: Region)
    requires req.ipa <= cur && NoBigger(req, r)
    ensures NoBigger(Rest(req, cur), r)
  {
    forall x: nat | r.Contains(x)
      ensures NoBlock(Rest(req, cur), x, r.level)
    {
      RestHasNone(req, cur, x, r.level);
    }
  }

  /** A block inside an entry that is processed from its beginning on. */
  lemma FitsInRest(req: Request, x: nat, lo: nat, level: nat, smaller: nat)
    requires level <= smaller <= 3 && lo % Span(level) == 0 && lo <= x < lo + Span(level) && req.ipa <= lo
    ensures BlockFits(Rest(req, lo), x, smaller) <==> BlockFits(req, x, smaller)
  {
    MultipleOfMultiple(lo, Span(level), Span(smaller));
    AlignedBlock(x, lo, Span(level), Span(smaller));
  }

  /** What is left of a request uses the same sizes, as long as none larger than the entry would fit. */
  lemma RestLevel(req: Request, cur: nat, x: nat, lo: nat, level: nat)
    requires level <= 3 && lo % Span(level) == 0 && lo <= x < lo + Span(level) && NoBlock(req, x, level)
    requires req.ipa <= cur && (cur == lo || cur == req.ipa)
    ensures LeafLevel(Rest(req, cur), x) == LeafLevel(req, x)
  {
    if cur == req.ipa {
      assert Rest(req, cur) == req;
    } else {
      RestHasNone(req, cur, x, level);
      if level <= 1 {
        FitsInRest(req, x, lo, level, 1);
      }
      if level <= 2 {
        FitsInRest(req, x, lo, level, 2);
      }
    }
  }

  /** A block that fits in the window of an entry is the window itself. */
  lemma EntryBlock(req: Request, x: nat, lo: nat, level: nat)
    requires lo % Span(level) == 0 && lo <= x < lo + Span(level)
    ensures BlockFits(req, x, level) <==> req.top <= level && req.ipa <= lo && lo + Span(level) <= req.end && (req.pa + (lo - req.ipa)) % Span(level) == 0
  {
    Split(lo, Span(level));
    ModUnique(x, lo / Span(level), x - lo, Span(level));
  }

  /** No page or block that is aligned on both sides and lies in the request is larger than the one that maps x. */
  lemma LargestBlock(req: Request, x: nat, lo: nat, level: nat)
    requires 1 <= level <= 3 && req.top <= level && lo % Span(level) == 0 && lo <= x < lo + Span(level)
    requires req.ipa <= lo && lo + Span(level) <= req.end && (req.pa + (lo - req.ipa)) % Span(level) == 0
    ensures Span(level) <= Span(LeafLevel(req, x))
  {
    EntryBlock(req, x, lo, level);
  }

  /** The entry in which a request begins, and for which no block is written. */
  lemma NoBlockHere(req: Request, r: Region, i: nat)
    requires r.level <= 2 && r.count > 0 && i < r.count && r.base % (r.count * Span(r.level)) == 0
    requires NoBigger(req, r) && InEntry(req.ipa, r.base, r.level, i)
    requires !(r.level >= 1 && req.end - req.ipa >= Span(r.level) && req.pa % Span(r.level) == 0 && req.ipa % Span(r.level) == 0)
    ensures NoBlockBelow(req, r, i)
  {
    var lo := EntryStart(r.base, r.level, i);
    EntryAligned(r, i);
    EntryBounds(r, i);
    ChildSpan(r.level);
    var window := Region(r.level + 1, lo, ENTRIES);
    forall x: nat | window.Contains(x)
      ensures NoBlock(req, x, window.level)
    {
      EntryHasNoBlock(req, x, lo, r.level);
      assert NoBlock(req, x, r.level);
    }
  }

  lemma EntryHasNoBlock(req: Request, x: nat, lo: nat, level: nat)
    requires lo % Span(level) == 0 && lo <= x < lo + Span(level) && lo <= req.ipa < lo + Span(level)
    requires !(level >= 1 && req.end - req.ipa >= Span(level) && req.pa % Span(level) == 0 && req.ipa % Span(level) == 0)
    ensures level >= 1 ==> !BlockFits(req, x, level)
  {
    EntryBlock(req, x, lo, level);
  }

  /** The entry in which a request begins, and for which a block or a page is written. */
  lemma BlockHere(req: Request, x: nat, lo: nat, level: nat)
    requires 1 <= level <= 3 && lo % Span(level) == 0 && lo <= x < lo + Span(level) && NoBlock(req, x, level)
    requires req.top <= level && req.ipa == lo && lo + Span(level) <= req.end && req.pa % Span(level) == 0
    ensures LeafLevel(req, x) == level
  {
    EntryBlock(req, x, lo, level);
  }
}
