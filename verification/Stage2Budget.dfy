/** How many tables a request can need: at each level, no more than the windows its range meets. */
module Stage2Budget {
  import opened Arithmetic
  import opened Stage2Tables
  import opened Stage2Regions
  import opened Stage2Blocks
  import opened Stage2Effects
  import opened Stage2Progress

  /** The windows of tables of this level that [start, end) meets. */
  function Windows(level: nat, start: nat, end: nat): (n: nat)
    requires level >= 1 && start < end
    ensures n >= 1
  {
    WindowOrder(start, end - 1, level);
    (end - 1) / Span(level - 1) - start / Span(level - 1) + 1
  }

  lemma WindowOrder(a: nat, b: nat, level: nat)
    requires a <= b && level >= 1
    ensures a / Span(level - 1) <= b / Span(level - 1)
  {
    var s := Span(level - 1);
    Between(a, s);
    Between(b, s);
    Cancel(a / s, b / s + 1, s);
  }

  /** These are the windows that begin before the end of the range, and end behind its start. */
  lemma WindowsMet(level: nat, start: nat, end: nat, k: nat)
    requires level >= 1 && start < end
    ensures k * Span(level - 1) < end && start < k * Span(level - 1) + Span(level - 1)
       <==> start / Span(level - 1) <= k < start / Span(level - 1) + Windows(level, start, end)
  {
    var s := Span(level - 1);
    Between(start, s);
    Between(end - 1, s);
    Distribute(k, 1, s);
    if k * s < end && start < k * s + s {
      Cancel(start / s, k + 1, s);
      Cancel(k, (end - 1) / s + 1, s);
    }
    if start / s <= k <= (end - 1) / s {
      InOrder(start / s, k, s);
      InOrder(k, (end - 1) / s, s);
    }
  }

  /** The tables a request can need below a table of this level. */
  function TableBudget(level: nat, start: nat, end: nat): nat
    requires level <= 3 && start < end
    decreases 3 - level
  {
    if level == 3 then 0 else Windows(level + 1, start, end) + TableBudget(level + 1, start, end)
  }

  /** The 256 MB from 0x4000_0000 on need one table of level 2 below a root of level 1, and at most 128 of level 3. */
  lemma BudgetOfRam()
    ensures TableBudget(1, 0x4000_0000, 0x5000_0000) == 1 + 128
  {
    assert Windows(2, 0x4000_0000, 0x5000_0000) == 1;
    assert Windows(3, 0x4000_0000, 0x5000_0000) == 128;
    assert TableBudget(3, 0x4000_0000, 0x5000_0000) == 0;
  }

  /** The new tables of one level. */
  ghost function NewAt(ra: Regions, rb: Regions, level: nat): set<nat> {
    set t | t in rb && t !in ra && rb[t].level == level
  }

  /** The new tables below a level. */
  ghost function NewBelow(ra: Regions, rb: Regions, level: nat): set<nat> {
    set t | t in rb && t !in ra && rb[t].level > level
  }

  /** Which of its level's windows a table stands for. */
  function WindowIndex(r: Region): nat {
    r.base / Span(if r.level == 0 then 0 else r.level - 1)
  }

  /** A set whose members have different indices in [lo, hi) has at most hi - lo members. */
  lemma {:induction false} DistinctIndices(ts: set<nat>, regions: Regions, lo: nat, hi: nat)
    requires lo <= hi && forall t :: t in ts ==> t in regions && lo <= WindowIndex(regions[t]) < hi
    requires forall t, u :: t in ts && u in ts && t != u ==> WindowIndex(regions[t]) != WindowIndex(regions[u])
    ensures |ts| <= hi - lo
    decreases hi
  {
    if ts != {} {
      var t :| t in ts;
      if lo < hi {
        if u :| u in ts && WindowIndex(regions[u]) == hi - 1 {
          DistinctIndices(ts - {u}, regions, lo, hi - 1);
        } else {
          DistinctIndices(ts, regions, lo, hi - 1);
        }
      }
    }
  }

  /** The window of a new table, by its index. */
  lemma NewTableIndex(b: Memory, rb: Regions, t: nat, level: nat, req: Request)
    requires t in rb && TableOk(b, rb, t) && rb[t].level == level + 1 && rb[t].count == ENTRIES
    requires req.ipa < req.end && rb[t].base < req.end && req.ipa < rb[t].End()
    ensures rb[t].base == WindowIndex(rb[t]) * Span(level)
    ensures req.ipa / Span(level) <= WindowIndex(rb[t]) < req.ipa / Span(level) + Windows(level + 1, req.ipa, req.end)
  {
    var s := Span(level);
    ChildSpan(level);
    var q := rb[t].base / s;
    assert rb[t].base == q * s;
    WindowOrder(rb[t].base, req.end - 1, level + 1);
    assert rb[t].End() - 1 == q * s + (s - 1);
    ModUnique(rb[t].End() - 1, q, s - 1, s);
    WindowOrder(req.ipa, rb[t].End() - 1, level + 1);
  }

  /** At one level there are no more new tables than windows. */
  lemma NewTablesOfLevel(ra: Regions, b: Memory, rb: Regions, level: nat, lo: nat, hi: nat, req: Request, at: nat)
    requires Tree(b, rb) && Grown(ra, rb, level, lo, hi, req) && level <= at < 3 && req.ipa < req.end
    ensures |NewAt(ra, rb, at + 1)| <= Windows(at + 1, req.ipa, req.end)
  {
    var ts := NewAt(ra, rb, at + 1);
    var first := req.ipa / Span(at);
    forall t | t in ts
      ensures first <= WindowIndex(rb[t]) < first + Windows(at + 1, req.ipa, req.end)
      ensures rb[t] == Region(at + 1, WindowIndex(rb[t]) * Span(at), ENTRIES)
    {
      assert TableOk(b, rb, t);
      NewTableIndex(b, rb, t, at, req);
    }
    DistinctIndices(ts, rb, first, first + Windows(at + 1, req.ipa, req.end));
  }

  lemma {:induction false} NewTablesBelow(ra: Regions, b: Memory, rb: Regions, level: nat, lo: nat, hi: nat, req: Request, at: nat)
    requires Tree(b, rb) && Grown(ra, rb, level, lo, hi, req) && level <= at <= 3 && req.ipa < req.end
    ensures |NewBelow(ra, rb, at)| <= TableBudget(at, req.ipa, req.end)
    decreases 3 - at
  {
    if at == 3 {
      forall t | t in rb
        ensures rb[t].level <= 3
      {
        assert TableOk(b, rb, t);
      }
      assert NewBelow(ra, rb, at) == {};
    } else {
      NewTablesOfLevel(ra, b, rb, level, lo, hi, req, at);
      NewTablesBelow(ra, b, rb, level, lo, hi, req, at + 1);
      assert NewBelow(ra, rb, at) == NewAt(ra, rb, at + 1) + NewBelow(ra, rb, at + 1);
    }
  }

  /** A map run adds no more tables than the range meets windows, summed over the lower levels. */
  lemma NewTablesBounded(ra: Regions, b: Memory, rb: Regions, level: nat, lo: nat, hi: nat, req: Request)
    requires Tree(b, rb) && Grown(ra, rb, level, lo, hi, req) && level <= 3 && req.ipa < req.end
    ensures |rb| <= |ra| + TableBudget(level, req.ipa, req.end)
  {
    NewTablesBelow(ra, b, rb, level, lo, hi, req, level);
    assert rb.Keys == ra.Keys + NewBelow(ra, rb, level);
  }

  /** A run that stops for want of a table has not used up its budget. */
  lemma ShortOfBudget(ra: Regions, rb: Regions, level: nat, lo: nat, hi: nat, req: Request)
    requires Short(ra, rb, level, lo, hi, req) && level <= 3 && req.ipa < req.end
    ensures |rb| < |ra| + TableBudget(level, req.ipa, req.end)
  {
    var tables: Memory, wanted: Regions :| Tree(tables, wanted) && |wanted| == |rb| + 1 && Grown(ra, wanted, level, lo, hi, req);
    NewTablesBounded(ra, tables, wanted, level, lo, hi, req);
  }
}
