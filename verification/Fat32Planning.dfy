/** Coalescing: one disk transfer for as many consecutive clusters as possible. */
module Fat32Planning {
  import opened Wrappers
  import opened Arithmetic
  import opened Fat32Chains

  /** A transfer: so many sectors, `sectorOffset` sectors after the beginning of its first cluster; the bytes that
      belong to the request begin `dataOffset` bytes into them. */
  datatype Transfer = Transfer(sectors: nat, bytes: nat, sectorOffset: nat, dataOffset: nat)

  /** The sectors that are skipped in the first cluster: all whole ones, but not a single one. */
  function Skipped(fs: Fat32, offset: nat): nat
    requires fs.Valid()
  {
    if offset > fs.bytesPerSector then offset / fs.bytesPerSector else 0
  }

  function Unskipped(fs: Fat32, offset: nat): (r: nat)
    requires fs.Valid()
    ensures r <= offset && r <= fs.bytesPerSector
    ensures offset == Skipped(fs, offset) * fs.bytesPerSector + r
  {
    Between(offset, fs.bytesPerSector);
    offset - Skipped(fs, offset) * fs.bytesPerSector
  }

  /** How many sectors hold n bytes; never none. */
  function SectorsFor(fs: Fat32, n: nat): (s: nat)
    requires fs.Valid()
  {
    1 + ((if n > 1 then n else 1) - 1) / fs.bytesPerSector
  }

  lemma SectorsForBound(fs: Fat32, n: nat)
    requires fs.Valid()
    ensures n <= SectorsFor(fs, n) * fs.bytesPerSector < n + fs.bytesPerSector + (if n == 0 then 1 else 0)
    ensures n > 0 && n % fs.bytesPerSector == 0 ==> SectorsFor(fs, n) * fs.bytesPerSector == n
  {
    var b := fs.bytesPerSector;
    var m := (if n > 1 then n else 1) - 1;
    Between(m, b);
    Distribute(1, m / b, b);
    if n > 0 && n % b == 0 {
      LastOfMultiple(n, b);
      Distribute(n / b - 1, 1, b);
    }
  }

  lemma LastOfMultiple(n: nat, b: nat)
    requires b > 0 && n > 0 && n % b == 0
    ensures n / b > 0 && n == (n / b) * b && (n - 1) / b == n / b - 1
  {
    var q := n / b;
    Between(n, b);
    assert n == q * b;
    Cancel(0, q, b);
    Distribute(q - 1, 1, b);
    ModUnique(n - 1, q - 1, b - 1, b);
  }

  /** What the planning of a run achieves: it begins in cluster i of the chain at `offset`, and covers clusters i to j,
      which are consecutive. Either the whole request is covered, or the run ends with whole clusters where
      the chain continues elsewhere. */
  ghost predicate Planned(fs: Fat32, entry: nat, i: nat, j: nat, offset: nat, length: nat, t: Transfer)
    requires fs.Valid() && entry >= 2
  {
    var c := fs.BytesPerCluster();
    && i <= j && Consecutive(fs, entry, i, j * c + 1)
    && t.sectorOffset == Skipped(fs, offset) && t.dataOffset == Unskipped(fs, offset)
    && t.bytes <= length
    && if t.bytes == length then
         && t.dataOffset + length <= (j - i) * c + c
         && t.sectors == SectorsFor(fs, t.dataOffset + length)
       else
         && t.dataOffset + t.bytes == (j - i) * c + c
         && t.sectors * fs.bytesPerSector == t.dataOffset + t.bytes
         && Chain(fs, entry, j + 1).Some? && Chain(fs, entry, j + 1) != Some(Chain(fs, entry, j).value + 1)
  }

  predicate Covers(fs: Fat32, t: Transfer) {
    t.dataOffset + t.bytes <= t.sectors * fs.bytesPerSector
  }

  /** A transfer holds the bytes it is for, and hardly more. */
  lemma PlannedCovers(fs: Fat32, entry: nat, i: nat, j: nat, offset: nat, length: nat, t: Transfer)
    requires fs.Valid() && entry >= 2 && Planned(fs, entry, i, j, offset, length, t)
    ensures Covers(fs, t)
    ensures t.sectors * fs.bytesPerSector <= t.dataOffset + t.bytes + fs.bytesPerSector
  {
    SectorsForBound(fs, t.dataOffset + length);
  }

  /** Rounded up to whole sectors, n bytes need no more than any number of sectors that holds them. */
  lemma SectorsForLeast(fs: Fat32, n: nat, m: nat)
    requires fs.Valid() && n <= m * fs.bytesPerSector && m > 0
    ensures SectorsFor(fs, n) <= m
  {
    var b, k := fs.bytesPerSector, (if n > 1 then n else 1) - 1;
    Between(k, b);
    AtLeast(m, b);
    Cancel(k / b, m, b);
  }

  /** The sectors of a run are no more than those of its clusters. */
  lemma RunFits(fs: Fat32, entry: nat, i: nat, j: nat, offset: nat, length: nat, t: Transfer)
    requires fs.Valid() && entry >= 2 && Planned(fs, entry, i, j, offset, length, t)
    ensures t.sectors * fs.bytesPerSector <= (j - i + 1) * fs.BytesPerCluster()
  {
    var m := (j - i + 1) * fs.sectorsPerCluster;
    WholeClusters(fs, j - i);
    WholeClusters(fs, j - i + 1);
    AtLeast(j - i + 1, fs.sectorsPerCluster);
    if t.bytes == length {
      SectorsForLeast(fs, t.dataOffset + length, m);
      InOrder(t.sectors, m, fs.bytesPerSector);
    }
  }

  /** The last part of a request that begins with a cluster. */
  function LastPart(length: nat, c: nat): nat
    requires c > 0
  {
    if length == 0 then 0 else (length - 1) % c + 1
  }

  lemma OneMoreCluster(fs: Fat32, entry: nat, i: nat, j: nat)
    requires fs.Valid() && entry >= 2 && i <= j && Consecutive(fs, entry, i, j * fs.BytesPerCluster() + 1)
    requires Chain(fs, entry, j + 1) == Some(Chain(fs, entry, j).value + 1)
    ensures Consecutive(fs, entry, i, (j + 1) * fs.BytesPerCluster() + 1)
  {
    var c := fs.BytesPerCluster();
    forall k: nat | i <= k && k * c < (j + 1) * c + 1
      ensures Chain(fs, entry, k) == Some(Chain(fs, entry, i).value + (k - i))
    {
      assert Chain(fs, entry, j) == Some(Chain(fs, entry, i).value + (j - i));
      NotBeyond(k, j + 1, c);
      if k <= j {
        InOrder(k, j, c);
      }
    }
  }

  lemma FirstCluster(fs: Fat32, entry: nat, i: nat)
    requires fs.Valid() && entry >= 2 && Chain(fs, entry, i).Some?
    ensures Consecutive(fs, entry, i, i * fs.BytesPerCluster() + 1)
  {
    var c := fs.BytesPerCluster();
    forall k: nat | i <= k && k * c < i * c + 1
      ensures k == i
    {
      NotBeyond(k, i, c);
    }
  }

  lemma NotBeyond(a: nat, b: nat, c: nat)
    requires c > 0 && a * c < b * c + 1
    ensures a <= b
  {
    if a > b {
      Distribute(a - b, b, c);
      AtLeast(a - b, c);
    }
  }

  lemma WholeClusters(fs: Fat32, m: nat)
    requires fs.Valid()
    ensures m * fs.sectorsPerCluster * fs.bytesPerSector == m * fs.BytesPerCluster()
    ensures (m + 1) * fs.sectorsPerCluster == m * fs.sectorsPerCluster + fs.sectorsPerCluster
    ensures (m + 1) * fs.BytesPerCluster() == m * fs.BytesPerCluster() + fs.BytesPerCluster()
  {
    Associate(m, fs.sectorsPerCluster, fs.bytesPerSector);
    TimesIsProduct(fs.sectorsPerCluster, fs.bytesPerSector);
    Distribute(m, 1, fs.sectorsPerCluster);
    Distribute(m, 1, fs.BytesPerCluster());
  }

  /** The sectors of m clusters and a rest, counted together. */
  lemma SectorsAdd(fs: Fat32, m: nat, rest: nat)
    requires fs.Valid() && (rest > 0 || m == 0)
    ensures m * fs.sectorsPerCluster + SectorsFor(fs, rest) == SectorsFor(fs, m * fs.BytesPerCluster() + rest)
  {
    var b, c, s := fs.bytesPerSector, fs.BytesPerCluster(), fs.sectorsPerCluster;
    if m > 0 {
      WholeClusters(fs, m);
      Locate(m * c + (rest - 1), m * s, rest - 1, b);
      AtLeast(m, c);
    }
  }

  /** Clusters i to j - 1 are planned as a whole, and the skip in the first cluster has been decided; dataOffset is where
      the data begin in cluster j, in units after the skip. */
  ghost predicate Midway(fs: Fat32, entry: nat, i: nat, j: nat, offset: nat, length: nat, t: Transfer, dataOffset: nat)
    requires fs.Valid() && entry >= 2
  {
    var c := fs.BytesPerCluster();
    && i <= j && Consecutive(fs, entry, i, j * c + 1)
    && t.sectorOffset == Skipped(fs, offset) && t.dataOffset == Unskipped(fs, offset)
    && t.sectors == (j - i) * fs.sectorsPerCluster
    && t.bytes + t.dataOffset == (j - i) * c + dataOffset
    && (if j == i then t.bytes == 0 else dataOffset == 0 && t.bytes < length)
  }

  lemma MidwayStart(fs: Fat32, entry: nat, i: nat, offset: nat, length: nat)
    requires fs.Valid() && entry >= 2 && Chain(fs, entry, i).Some?
    ensures Midway(fs, entry, i, i, offset, length, Transfer(0, 0, Skipped(fs, offset), Unskipped(fs, offset)), Unskipped(fs, offset))
  {
    FirstCluster(fs, entry, i);
  }

  /** What is left fits into cluster j. */
  lemma MidwayEnd(fs: Fat32, entry: nat, i: nat, j: nat, offset: nat, length: nat, t: Transfer, dataOffset: nat)
    requires fs.Valid() && entry >= 2 && Midway(fs, entry, i, j, offset, length, t, dataOffset)
    requires length - t.bytes + dataOffset <= fs.BytesPerCluster()
    ensures Planned(fs, entry, i, j, offset, length, t.(sectors := t.sectors + SectorsFor(fs, length - t.bytes + dataOffset), bytes := length))
    ensures t.dataOffset == 0 ==> LastPart(length, fs.BytesPerCluster()) == length - t.bytes
  {
    SectorsAdd(fs, j - i, length - t.bytes + dataOffset);
    if t.dataOffset == 0 && length > 0 {
      Locate(length - 1, j - i, length - t.bytes - 1, fs.BytesPerCluster());
      ModUnique(length - t.bytes - 1, 0, length - t.bytes - 1, fs.BytesPerCluster());
    }
  }

  /** Cluster j is taken as a whole as well, but the chain continues elsewhere. */
  lemma MidwayBreaks(fs: Fat32, entry: nat, i: nat, j: nat, offset: nat, length: nat, t: Transfer, dataOffset: nat)
    requires fs.Valid() && entry >= 2 && Midway(fs, entry, i, j, offset, length, t, dataOffset)
    requires length - t.bytes + dataOffset > fs.BytesPerCluster() >= dataOffset
    requires Chain(fs, entry, j).Some? && Chain(fs, entry, j + 1).Some? && Chain(fs, entry, j + 1) != Some(Chain(fs, entry, j).value + 1)
    ensures Planned(fs, entry, i, j, offset, length,
                    t.(sectors := t.sectors + fs.sectorsPerCluster, bytes := t.bytes + (fs.BytesPerCluster() - dataOffset)))
  {
    WholeClusters(fs, j - i);
    WholeClusters(fs, j - i + 1);
  }

  /** Cluster j is taken as a whole as well, and the chain continues with the next one. */
  lemma MidwayNext(fs: Fat32, entry: nat, i: nat, j: nat, offset: nat, length: nat, t: Transfer, dataOffset: nat)
    requires fs.Valid() && entry >= 2 && Midway(fs, entry, i, j, offset, length, t, dataOffset)
    requires length - t.bytes + dataOffset > fs.BytesPerCluster() >= dataOffset
    requires Chain(fs, entry, j).Some? && Chain(fs, entry, j + 1) == Some(Chain(fs, entry, j).value + 1)
    ensures Midway(fs, entry, i, j + 1, offset, length,
                   t.(sectors := t.sectors + fs.sectorsPerCluster, bytes := t.bytes + (fs.BytesPerCluster() - dataOffset)), 0)
  {
    OneMoreCluster(fs, entry, i, j);
    WholeClusters(fs, j - i);
  }

  /** On consecutive clusters the chain does continue with the next one as long as anything is left. */
  lemma MidwayStays(fs: Fat32, entry: nat, i: nat, j: nat, offset: nat, length: nat, t: Transfer, dataOffset: nat)
    requires fs.Valid() && entry >= 2 && Midway(fs, entry, i, j, offset, length, t, dataOffset)
    requires Consecutive(fs, entry, i, i * fs.BytesPerCluster() + offset + length)
    requires length - t.bytes + dataOffset > fs.BytesPerCluster()
    ensures Chain(fs, entry, j).Some? && Chain(fs, entry, j + 1) == Some(Chain(fs, entry, j).value + 1)
  {
    var c := fs.BytesPerCluster();
    Distribute(j - i, 1, c);
    Distribute(j - i + 1, i, c);
    InOrder(j, j + 1, c);
    assert (j + 1) * c < i * c + offset + length;
  }

  lemma MidwayLeaves(fs: Fat32, entry: nat, i: nat, j: nat, offset: nat, length: nat, t: Transfer, dataOffset: nat)
    requires fs.Valid() && entry >= 2 && Midway(fs, entry, i, j, offset, length, t, dataOffset)
    requires length - t.bytes + dataOffset > fs.BytesPerCluster()
    requires Chain(fs, entry, j).Some? && Chain(fs, entry, j + 1) != Some(Chain(fs, entry, j).value + 1)
    ensures !Consecutive(fs, entry, i, i * fs.BytesPerCluster() + offset + length)
  {
    if Consecutive(fs, entry, i, i * fs.BytesPerCluster() + offset + length) {
      MidwayStays(fs, entry, i, j, offset, length, t, dataOffset);
    }
  }

  /** A request to write whose rest is shorter than a sector. */
  lemma MidwayShort(fs: Fat32, entry: nat, i: nat, j: nat, offset: nat, length: nat, t: Transfer, dataOffset: nat)
    requires fs.Valid() && entry >= 2 && Midway(fs, entry, i, j, offset, length, t, dataOffset)
    requires length - t.bytes < fs.bytesPerSector && t.dataOffset == 0
    ensures LastPart(length, fs.BytesPerCluster()) < fs.bytesPerSector
  {
    MidwayEnd(fs, entry, i, j, offset, length, t, dataOffset);
  }

  /** Behind the consecutive clusters i to j the chain ends, before the request does. */
  ghost predicate EndsEarly(fs: Fat32, entry: nat, i: nat, j: nat, offset: nat, length: nat)
    requires fs.Valid() && entry >= 2
  {
    var c := fs.BytesPerCluster();
    i <= j && Consecutive(fs, entry, i, j * c + 1) && Chain(fs, entry, j + 1).None? && Unskipped(fs, offset) + length > (j - i) * c + c
  }

  /** What is left of a request to write when cluster j is reached is shorter than a sector. */
  ghost predicate EndsShort(fs: Fat32, entry: nat, i: nat, j: nat, offset: nat, length: nat)
    requires fs.Valid() && entry >= 2
  {
    var c := fs.BytesPerCluster();
    && i <= j && Consecutive(fs, entry, i, j * c + 1)
    && (Unskipped(fs, offset) == 0 ==> (j - i) * c <= length < (j - i) * c + fs.bytesPerSector && (i < j ==> (j - i) * c < length))
  }

  /** The result of planning: None if the chain ends too early, or if the rest of a request to write is shorter than
      a sector. On consecutive clusters one transfer does for the whole request. */
  ghost predicate Outcome(fs: Fat32, entry: nat, i: nat, j: nat, offset: nat, length: nat, forWriting: bool, r: Option<(Transfer, nat)>)
    requires fs.Valid() && entry >= 2
  {
    && (r.Some? ==> Planned(fs, entry, i, j, offset, length, r.value.0) && Chain(fs, entry, j) == Some(r.value.1))
    && (forWriting && r.Some? && r.value.0.bytes == length && Unskipped(fs, offset) == 0 ==> LastPart(length, fs.BytesPerCluster()) >= fs.bytesPerSector)
    && (r.None? ==> EndsEarly(fs, entry, i, j, offset, length) || (forWriting && EndsShort(fs, entry, i, j, offset, length)))
    && (Consecutive(fs, entry, i, i * fs.BytesPerCluster() + offset + length) ==>
          && (r.Some? ==> r.value.0.bytes == length)
          && (!forWriting ==> r.Some?)
          && (forWriting && Unskipped(fs, offset) == 0 ==> (r.Some? <==> LastPart(length, fs.BytesPerCluster()) >= fs.bytesPerSector)))
  }

  lemma OutcomeShort(fs: Fat32, entry: nat, i: nat, j: nat, offset: nat, length: nat, t: Transfer, dataOffset: nat)
    requires fs.Valid() && entry >= 2 && Midway(fs, entry, i, j, offset, length, t, dataOffset)
    requires length - t.bytes < fs.bytesPerSector
    ensures Outcome(fs, entry, i, j, offset, length, true, None)
  {
    if t.dataOffset == 0 {
      MidwayShort(fs, entry, i, j, offset, length, t, dataOffset);
    }
  }

  lemma OutcomeEnd(fs: Fat32, entry: nat, i: nat, j: nat, offset: nat, length: nat, forWriting: bool, t: Transfer, dataOffset: nat, cluster: nat)
    requires fs.Valid() && entry >= 2 && Midway(fs, entry, i, j, offset, length, t, dataOffset) && Chain(fs, entry, j) == Some(cluster)
    requires length - t.bytes + dataOffset <= fs.BytesPerCluster()
    requires forWriting ==> length - t.bytes >= fs.bytesPerSector
    ensures Outcome(fs, entry, i, j, offset, length, forWriting,
                    Some((t.(sectors := t.sectors + SectorsFor(fs, length - t.bytes + dataOffset), bytes := length), cluster)))
  {
    MidwayEnd(fs, entry, i, j, offset, length, t, dataOffset);
  }

  lemma OutcomeBreaks(fs: Fat32, entry: nat, i: nat, j: nat, offset: nat, length: nat, forWriting: bool, t: Transfer, dataOffset: nat, cluster: nat)
    requires fs.Valid() && entry >= 2 && Midway(fs, entry, i, j, offset, length, t, dataOffset) && Chain(fs, entry, j) == Some(cluster)
    requires length - t.bytes + dataOffset > fs.BytesPerCluster() >= dataOffset
    requires Chain(fs, entry, j + 1) != Some(cluster + 1)
    ensures Outcome(fs, entry, i, j, offset, length, forWriting,
                    if Chain(fs, entry, j + 1).None? then None
                    else Some((t.(sectors := t.sectors + fs.sectorsPerCluster, bytes := t.bytes + (fs.BytesPerCluster() - dataOffset)), cluster)))
  {
    MidwayLeaves(fs, entry, i, j, offset, length, t, dataOffset);
    if Chain(fs, entry, j + 1).Some? {
      MidwayBreaks(fs, entry, i, j, offset, length, t, dataOffset);
    }
  }

  /** Skips the whole sectors before the data, except a single one. */
  method SkipSectors(fs: Fat32, dataOffset: nat) returns (sectorOffset: nat, rest: nat)
    requires fs.Valid()
    ensures sectorOffset == Skipped(fs, dataOffset) && rest == Unskipped(fs, dataOffset)
  {
    sectorOffset, rest := 0, dataOffset;
    if dataOffset > fs.bytesPerSector {
      sectorOffset := dataOffset / fs.bytesPerSector;
      rest := dataOffset - sectorOffset * fs.bytesPerSector;
    }
  }

  /** Plans the run that begins at `offset` of a cluster. */
  method PlanTransfer(fs: Fat32, cluster: nat, offset: nat, length: nat, forWriting: bool, ghost entry: nat, ghost i: nat)
    returns (r: Option<(Transfer, nat)>, ghost j: nat)
    requires fs.Valid() && entry >= 2 && Chain(fs, entry, i) == Some(cluster) && offset < fs.BytesPerCluster()
    requires exists n: nat :: EndsBy(fs, entry, n)
    ensures Outcome(fs, entry, i, j, offset, length, forWriting, r)
    ensures r.Some? ==> Covers(fs, r.value.0) && (forWriting ==> length > 0)
  {
    ghost var n: nat :| EndsBy(fs, entry, n);
    var c := fs.BytesPerCluster();
    var t, current := Transfer(0, 0, 0, offset), cluster;
    var dataOffset := offset;
    j := i;
    MidwayStart(fs, entry, i, offset, length);
    while true
      invariant Chain(fs, entry, j) == Some(current) && t.bytes <= length && dataOffset < c
      invariant if j == i then t == Transfer(0, 0, 0, offset) && dataOffset == offset
                else Midway(fs, entry, i, j, offset, length, t, 0) && dataOffset == 0
      decreases n - j
    {
      ghost var planned := t.(sectorOffset := Skipped(fs, offset), dataOffset := Unskipped(fs, offset));
      ghost var from := if j == i then Unskipped(fs, offset) else 0;
      if j == i {
        MidwayStart(fs, entry, i, offset, length);
      }
      assert Midway(fs, entry, i, j, offset, length, planned, from);
      if forWriting && length - t.bytes < fs.bytesPerSector {
        OutcomeShort(fs, entry, i, j, offset, length, planned, from);
        return None, j;
      }
      if dataOffset > fs.bytesPerSector {
        var skip, rest := SkipSectors(fs, dataOffset);
        t, dataOffset := t.(sectorOffset := skip, dataOffset := rest), rest;
      }
      assert t == planned && dataOffset == from;
      if length - t.bytes + dataOffset <= c {
        OutcomeEnd(fs, entry, i, j, offset, length, forWriting, t, dataOffset, current);
        t := t.(sectors := t.sectors + SectorsFor(fs, length - t.bytes + dataOffset), bytes := length);
        PlannedCovers(fs, entry, i, j, offset, length, t);
        return Some((t, current)), j;
      }
      var next := fs.GetNextCluster(current);
      assert Chain(fs, entry, j + 1) == next;
      if next != Some(current + 1) {
        OutcomeBreaks(fs, entry, i, j, offset, length, forWriting, t, dataOffset, current);
        if next.None? {
          return None, j;
        }
        t := t.(sectors := t.sectors + fs.sectorsPerCluster, bytes := t.bytes + (c - dataOffset));
        PlannedCovers(fs, entry, i, j, offset, length, t);
        return Some((t, current)), j;
      }
      MidwayNext(fs, entry, i, j, offset, length, t, dataOffset);
      NotEnded(fs, entry, j + 1, n);
      t := t.(sectors := t.sectors + fs.sectorsPerCluster, bytes := t.bytes + (c - dataOffset));
      dataOffset := 0;
      current := next.value;
      j := j + 1;
    }
  }

  lemma NotEnded(fs: Fat32, entry: nat, j: nat, n: nat)
    requires entry >= 2 && EndsBy(fs, entry, n) && Chain(fs, entry, j).Some?
    ensures j < n
  {
    if n <= j {
      ChainEnds(fs, entry, n, j);
    }
  }
}
