/**
 How a FAT32 volume is laid out and how its table links clusters, after the Microsoft FAT32 File System Specification:
 reserved sectors, then the copies of the table, then the clusters.
 */
module Fat32Volume {
  import opened Wrappers
  import opened Arithmetic
  import opened Fat32Chains

  // ---------------------------------------------------------------- the parts of a volume

  /** The first sector of copy i of the table; and that of the clusters, behind the last copy. */
  function TableSector(fs: Fat32, i: nat): nat {
    if i == 0 then fs.reservedSectors else TableSector(fs, i - 1) + fs.fatSectors
  }

  /** The first sector of a cluster: the clusters, of which the first one has number 2, lie one behind the other. */
  function ClusterSector(fs: Fat32, cluster: nat): nat
    requires cluster >= 2
  {
    if cluster == 2 then TableSector(fs, fs.numberOfFats) else ClusterSector(fs, cluster - 1) + fs.sectorsPerCluster
  }

  /** Address a lies in the sectors [first, end) of the volume, which begins at sector `baseLba` of the disk. */
  predicate InSectors(fs: Fat32, first: nat, end: nat, a: nat) {
    fs.baseLba * fs.lbaSize + first * fs.bytesPerSector <= a < fs.baseLba * fs.lbaSize + end * fs.bytesPerSector
  }

  /** Address a lies in the reserved sectors. */
  predicate InReserved(fs: Fat32, a: nat) {
    InSectors(fs, 0, fs.reservedSectors, a)
  }

  /** Address a lies in a copy of the table. */
  ghost predicate InTable(fs: Fat32, a: nat) {
    exists i: nat :: i < fs.numberOfFats && InSectors(fs, TableSector(fs, i), TableSector(fs, i + 1), a)
  }

  /** Address a lies in a cluster. */
  predicate InCluster(fs: Fat32, cluster: nat, a: nat)
    requires cluster >= 2
  {
    InSectors(fs, ClusterSector(fs, cluster), ClusterSector(fs, cluster) + fs.sectorsPerCluster, a)
  }

  lemma {:induction false} TableSectorIs(fs: Fat32, i: nat)
    ensures TableSector(fs, i) == fs.reservedSectors + i * fs.fatSectors
  {
    if i > 0 {
      TableSectorIs(fs, i - 1);
      Distribute(i - 1, 1, fs.fatSectors);
    }
  }

  /** The code finds each cluster where it is. */
  lemma {:induction false} ClusterIsFound(fs: Fat32, cluster: nat)
    requires cluster >= 2
    ensures fs.ClusterToSector(cluster) == ClusterSector(fs, cluster)
  {
    if cluster == 2 {
      TableSectorIs(fs, fs.numberOfFats);
    } else {
      ClusterIsFound(fs, cluster - 1);
      Distribute(cluster - 3, 1, fs.sectorsPerCluster);
    }
  }

  lemma {:induction false} TablesInOrder(fs: Fat32, i: nat, j: nat)
    requires i <= j
    ensures TableSector(fs, i) <= TableSector(fs, j)
    decreases j
  {
    if i < j {
      TablesInOrder(fs, i, j - 1);
    }
  }

  lemma {:induction false} ClustersBehind(fs: Fat32, cluster: nat)
    requires cluster >= 2
    ensures TableSector(fs, fs.numberOfFats) <= ClusterSector(fs, cluster)
  {
    if cluster > 2 {
      ClustersBehind(fs, cluster - 1);
    }
  }

  lemma SectorsApart(fs: Fat32, first: nat, end: nat, other: nat, a: nat)
    requires end <= other && a >= fs.baseLba * fs.lbaSize + other * fs.bytesPerSector
    ensures !InSectors(fs, first, end, a)
  {
    InOrder(end, other, fs.bytesPerSector);
  }

  /** What lies behind the beginning of a cluster lies neither in the reserved sectors nor in any copy of the table. */
  lemma DataApart(fs: Fat32, cluster: nat, x: nat)
    requires cluster >= 2
    ensures !InReserved(fs, fs.ClusterAddress(cluster) + x) && !InTable(fs, fs.ClusterAddress(cluster) + x)
    ensures fs.ClusterAddress(cluster) + x >= fs.baseLba * fs.lbaSize
  {
    var a := fs.ClusterAddress(cluster) + x;
    ClusterIsFound(fs, cluster);
    ClustersBehind(fs, cluster);
    TablesInOrder(fs, 0, fs.numberOfFats);
    SectorsApart(fs, 0, fs.reservedSectors, ClusterSector(fs, cluster), a);
    forall i: nat | i < fs.numberOfFats
      ensures !InSectors(fs, TableSector(fs, i), TableSector(fs, i + 1), a)
    {
      TablesInOrder(fs, i + 1, fs.numberOfFats);
      SectorsApart(fs, TableSector(fs, i), TableSector(fs, i + 1), ClusterSector(fs, cluster), a);
    }
  }

  /** Every byte of a file lies in the cluster that the chain has for it, and so in no other part of the volume. */
  lemma FileInClusters(fs: Fat32, entry: nat, p: nat)
    requires fs.Valid() && entry >= 2 && HasByte(fs, entry, p)
    ensures var cluster := Chain(fs, entry, p / fs.BytesPerCluster()).value;
            InCluster(fs, cluster, FileAddress(fs, entry, p))
    ensures !InReserved(fs, FileAddress(fs, entry, p)) && !InTable(fs, FileAddress(fs, entry, p))
  {
    var c := fs.BytesPerCluster();
    var cluster := Chain(fs, entry, p / c).value;
    DataApart(fs, cluster, p % c);
    ClusterIsFound(fs, cluster);
    Split(p, c);
    TimesIsProduct(fs.sectorsPerCluster, fs.bytesPerSector);
    Distribute(ClusterSector(fs, cluster), fs.sectorsPerCluster, fs.bytesPerSector);
  }

  /** With 32 reserved sectors and two copies of a table of 1000 sectors, cluster 2 begins with sector 2032 of the volume. */
  lemma BehindTwoTables(fat: seq<nat>)
    ensures var fs := Fat32(2048, 512, 512, 8, 32, 1000, 2, fat);
            && ClusterSector(fs, 2) == 2032 && fs.ClusterAddress(2) == (2048 + 2032) * 512
            && InTable(fs, (2048 + 1032) * 512) && !InTable(fs, fs.ClusterAddress(2))
  {
    var fs := Fat32(2048, 512, 512, 8, 32, 1000, 2, fat);
    TableSectorIs(fs, 1);
    TableSectorIs(fs, 2);
    assert InSectors(fs, TableSector(fs, 1), TableSector(fs, 1 + 1), (2048 + 1032) * 512);
    DataApart(fs, 2, 0);
  }

  // ---------------------------------------------------------------- the table

  /** The table links the clusters of a file in this order, and marks the last one. */
  ghost predicate Links(fs: Fat32, clusters: seq<nat>) {
    && |clusters| > 0
    && (forall i :: 0 <= i < |clusters| ==> 2 <= clusters[i] < 0x0FFF_FFF8 && clusters[i] < |fs.fat|)
    && (forall i :: 0 <= i < |clusters| - 1 ==> fs.fat[clusters[i]] == clusters[i + 1])
    && 0x0FFF_FFF8 <= fs.fat[clusters[|clusters| - 1]] <= 0x0FFF_FFFF
  }

  lemma {:induction false} LinksUpTo(fs: Fat32, clusters: seq<nat>, i: nat)
    requires Links(fs, clusters) && i < |clusters|
    ensures Chain(fs, clusters[0], i) == Some(clusters[i])
  {
    if i > 0 {
      LinksUpTo(fs, clusters, i - 1);
    }
  }

  /** The code follows the links, and sees the end. */
  lemma ChainFollowsLinks(fs: Fat32, clusters: seq<nat>, i: nat)
    requires Links(fs, clusters)
    ensures Chain(fs, clusters[0], i) == if i < |clusters| then Some(clusters[i]) else None
  {
    if i < |clusters| {
      LinksUpTo(fs, clusters, i);
    } else {
      LinksUpTo(fs, clusters, |clusters| - 1);
      ChainEnds(fs, clusters[0], |clusters|, i);
    }
  }

  /** The next cluster as the specification has it: an entry has 28 bits, and the upper four are to be ignored. */
  function NextByTheBook(entry: nat): Option<nat> {
    if 2 <= entry % 0x1000_0000 < 0x0FFF_FFF8 then Some(entry % 0x1000_0000) else None
  }

  /** The code does not ignore them: it agrees with the specification exactly if they are zero or the chain ends. */
  lemma UpperBitsMatter(fs: Fat32, cluster: nat)
    requires cluster < |fs.fat|
    ensures fs.GetNextCluster(cluster) == NextByTheBook(fs.fat[cluster])
       <==> fs.fat[cluster] < 0x1000_0000 || NextByTheBook(fs.fat[cluster]).None?
  {
  }

  // ---------------------------------------------------------------- small volumes

  /** A volume in partition sector 2048, with 32 reserved sectors and two tables of one sector, so of 128 entries; all but
      the first entries are free. */
  function SmallVolume(sectorsPerCluster: nat, entries: seq<nat>): (fs: Fat32)
    requires |entries| <= 128
    ensures |fs.fat| == 128 && forall i :: 0 <= i < |entries| ==> fs.fat[i] == entries[i]
  {
    Fat32(2048, 512, 512, sectorsPerCluster, 32, 1, 2, seq(128, i requires 0 <= i < 128 => if i < |entries| then entries[i] else 0))
  }
}
