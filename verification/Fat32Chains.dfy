/**
 A FAT32 volume: the cluster chain of a file and where its bytes lie on the disk, after the
 Microsoft FAT32 File System Specification, section "FAT Data Structure".
 */
module Fat32Chains {
  import opened Wrappers
  import opened Arithmetic

  /** a * b, as a sum: where the product is only a unit, proofs need not see its factors. */
  function Times(a: nat, b: nat): nat {
    if a == 0 then 0 else b + Times(a - 1, b)
  }

  lemma {:induction false} TimesIsProduct(a: nat, b: nat)
    ensures Times(a, b) == a * b
  {
    if a > 0 {
      TimesIsProduct(a - 1, b);
      Distribute(a - 1, 1, b);
    }
  }

  datatype Fat32 = Fat32(baseLba: nat, lbaSize: nat, bytesPerSector: nat, sectorsPerCluster: nat,
                         reservedSectors: nat, fatSectors: nat, numberOfFats: nat, fat: seq<nat>) {
    predicate Valid() {
      bytesPerSector > 0 && sectorsPerCluster > 0
    }

    function BytesPerCluster(): (c: nat)
      requires Valid()
      ensures c >= bytesPerSector
    {
      Times(sectorsPerCluster, bytesPerSector)
    }

    function ClusterToSector(cluster: nat): nat
      requires cluster >= 2
    {
      reservedSectors + numberOfFats * fatSectors + (cluster - 2) * sectorsPerCluster
    }

    /** The byte address of a sector on the disk. */
    function SectorAddress(sector: nat): nat {
      baseLba * lbaSize + sector * bytesPerSector
    }

    function GetNextCluster(cluster: nat): (r: Option<nat>)
      ensures r.Some? ==> r.value >= 2
    {
      if cluster < |fat| && 2 <= fat[cluster] < 0x0FFF_FFF8 then Some(fat[cluster]) else None
    }

    /** The byte address of a cluster on the disk. */
    function ClusterAddress(cluster: nat): nat
      requires cluster >= 2
    {
      SectorAddress(ClusterToSector(cluster))
    }
  }

  datatype FileInfo = FileInfo(entryCluster: nat, fileSize: nat)

  // ---------------------------------------------------------------- chains

  /** The i-th cluster of the chain from `entry`. */
  function Chain(fs: Fat32, entry: nat, i: nat): (r: Option<nat>)
    requires entry >= 2
    ensures r.Some? ==> r.value >= 2
  {
    if i == 0 then Some(entry)
    else
      var previous := Chain(fs, entry, i - 1);
      if previous.Some? then fs.GetNextCluster(previous.value) else None
  }

  /** The chain has at most n clusters. */
  ghost predicate EndsBy(fs: Fat32, entry: nat, n: nat)
    requires entry >= 2
  {
    Chain(fs, entry, n) == None
  }

  lemma {:induction false} ChainEnds(fs: Fat32, entry: nat, i: nat, j: nat)
    requires entry >= 2 && i <= j && Chain(fs, entry, i) == None
    ensures Chain(fs, entry, j) == None
    decreases j
  {
    if i < j {
      ChainEnds(fs, entry, i, j - 1);
    }
  }

  lemma {:induction false} SameTail(fs: Fat32, entry: nat, i: nat, j: nat, k: nat)
    requires entry >= 2 && Chain(fs, entry, i) == Chain(fs, entry, j)
    ensures Chain(fs, entry, i + k) == Chain(fs, entry, j + k)
  {
    if k > 0 {
      SameTail(fs, entry, i, j, k - 1);
    }
  }

  /** A chain that comes back to a cluster never ends. */
  lemma {:induction false} CycleNeverEnds(fs: Fat32, entry: nat, i: nat, j: nat, n: nat)
    requires entry >= 2 && i < j && Chain(fs, entry, i).Some? && Chain(fs, entry, i) == Chain(fs, entry, j)
    ensures Chain(fs, entry, n).Some?
    decreases n
  {
    if n <= j {
      if Chain(fs, entry, n) == None {
        ChainEnds(fs, entry, n, j);
      }
    } else {
      CycleNeverEnds(fs, entry, i, j, n - (j - i));
      SameTail(fs, entry, i, j, n - j);
    }
  }

  /** The clusters of a chain that ends are all different. */
  lemma ClustersDiffer(fs: Fat32, entry: nat, i: nat, j: nat, n: nat)
    requires entry >= 2 && i != j && EndsBy(fs, entry, n) && Chain(fs, entry, i).Some? && Chain(fs, entry, j).Some?
    ensures Chain(fs, entry, i) != Chain(fs, entry, j)
  {
    if Chain(fs, entry, i) == Chain(fs, entry, j) {
      if i < j {
        CycleNeverEnds(fs, entry, i, j, n);
      } else {
        CycleNeverEnds(fs, entry, j, i, n);
      }
    }
  }

  // ---------------------------------------------------------------- the bytes of a file

  /** Byte p of the file lies in a cluster of its chain. */
  ghost predicate HasByte(fs: Fat32, entry: nat, p: nat)
    requires fs.Valid() && entry >= 2
  {
    Chain(fs, entry, p / fs.BytesPerCluster()).Some?
  }

  /** Where byte p of a file lies on the disk: a walk along the chain, cluster by cluster. */
  ghost function FileAddress(fs: Fat32, entry: nat, p: nat): nat
    requires fs.Valid() && entry >= 2 && HasByte(fs, entry, p)
  {
    fs.ClusterAddress(Chain(fs, entry, p / fs.BytesPerCluster()).value) + p % fs.BytesPerCluster()
  }

  /** Clusters with consecutive numbers follow one another on the disk. */
  lemma NextAddress(fs: Fat32, cluster: nat, k: nat)
    requires fs.Valid() && cluster >= 2
    ensures fs.ClusterAddress(cluster + k) == fs.ClusterAddress(cluster) + k * fs.BytesPerCluster()
  {
    var s, b, first := fs.sectorsPerCluster, fs.bytesPerSector, fs.reservedSectors + fs.numberOfFats * fs.fatSectors;
    assert (cluster + k - 2) * s == (cluster - 2) * s + k * s;
    Distribute(first + (cluster - 2) * s, k * s, b);
    Associate(k, s, b);
    TimesIsProduct(s, b);
  }

  /** From cluster i on, up to the byte before `end`, the chain runs through consecutive clusters. */
  ghost predicate Consecutive(fs: Fat32, entry: nat, i: nat, end: int)
    requires fs.Valid() && entry >= 2
  {
    && Chain(fs, entry, i).Some?
    && forall j: nat {:trigger Chain(fs, entry, j)} :: i <= j && j * fs.BytesPerCluster() < end ==> Chain(fs, entry, j) == Some(Chain(fs, entry, i).value + (j - i))
  }

  lemma Locate(p: nat, i: nat, y: nat, c: nat)
    requires c > 0 && p == i * c + y
    ensures p / c == i + y / c && p % c == y % c
  {
    assert y == (y / c) * c + y % c;
    Distribute(i, y / c, c);
    ModUnique(p, i + y / c, y % c, c);
  }

  /** Byte y after the beginning of cluster i, in units of c. */
  lemma LocateBelow(i: nat, y: nat, c: nat, end: int)
    requires c > 0 && i * c + y < end
    ensures (i * c + y) / c == i + y / c && (i * c + y) % c == y % c
    ensures (i + y / c) * c < end && (y / c) * c + y % c == y
  {
    Locate(i * c + y, i, y, c);
    Between(y, c);
    Distribute(i, y / c, c);
  }

  lemma ConsecutiveCluster(fs: Fat32, entry: nat, i: nat, end: int, j: nat, c: nat)
    requires fs.Valid() && entry >= 2 && Consecutive(fs, entry, i, end) && c == fs.BytesPerCluster() && i <= j && j * c < end
    ensures Chain(fs, entry, j) == Some(Chain(fs, entry, i).value + (j - i))
    ensures fs.ClusterAddress(Chain(fs, entry, j).value) == fs.ClusterAddress(Chain(fs, entry, i).value) + (j - i) * c
  {
    NextAddress(fs, Chain(fs, entry, i).value, j - i);
  }

  /** Within consecutive clusters the bytes of the file are consecutive on the disk. */
  lemma ConsecutiveBytes(fs: Fat32, entry: nat, i: nat, end: int, y: nat, p: nat)
    requires fs.Valid() && entry >= 2 && Consecutive(fs, entry, i, end) && p == i * fs.BytesPerCluster() + y < end
    ensures HasByte(fs, entry, p)
    ensures FileAddress(fs, entry, p) == fs.ClusterAddress(Chain(fs, entry, i).value) + y
  {
    var c := fs.BytesPerCluster();
    LocateBelow(i, y, c, end);
    ConsecutiveCluster(fs, entry, i, end, i + y / c, c);
  }

  lemma SamePlace(p: nat, q: nat, c: nat)
    requires c > 0 && p / c == q / c && p % c == q % c
    ensures p == q
  {
    assert p == (p / c) * c + p % c && q == (q / c) * c + q % c;
  }

  /** Different bytes of a file lie at different places. */
  lemma BytesDiffer(fs: Fat32, entry: nat, p: nat, q: nat, n: nat)
    requires fs.Valid() && entry >= 2 && EndsBy(fs, entry, n) && p != q && HasByte(fs, entry, p) && HasByte(fs, entry, q)
    ensures FileAddress(fs, entry, p) != FileAddress(fs, entry, q)
  {
    var c := fs.BytesPerCluster();
    if p / c == q / c {
      if p % c == q % c {
        SamePlace(p, q, c);
      }
    } else {
      ClustersDiffer(fs, entry, p / c, q / c, n);
      ClustersApart(fs, Chain(fs, entry, p / c).value, Chain(fs, entry, q / c).value, p % c, q % c);
    }
  }

  /** Different clusters do not overlap. */
  lemma ClustersApart(fs: Fat32, a: nat, b: nat, x: nat, y: nat)
    requires fs.Valid() && a >= 2 && b >= 2 && a != b && x < fs.BytesPerCluster() && y < fs.BytesPerCluster()
    ensures fs.ClusterAddress(a) + x != fs.ClusterAddress(b) + y
  {
    var c := fs.BytesPerCluster();
    if a < b {
      NextAddress(fs, a, b - a);
      AtLeast(b - a, c);
    } else {
      NextAddress(fs, b, a - b);
      AtLeast(a - b, c);
    }
  }

  /** Two chains have no cluster in common. */
  ghost predicate Disjoint(fs: Fat32, entry: nat, other: nat)
    requires entry >= 2 && other >= 2
  {
    forall i: nat, j: nat :: Chain(fs, entry, i).Some? ==> Chain(fs, other, j) != Chain(fs, entry, i)
  }

  /** Files whose chains have no cluster in common share no byte of the disk. */
  lemma FilesApart(fs: Fat32, entry: nat, other: nat, p: nat, q: nat)
    requires fs.Valid() && entry >= 2 && other >= 2 && HasByte(fs, entry, p) && HasByte(fs, other, q)
    requires Disjoint(fs, entry, other)
    ensures FileAddress(fs, entry, p) != FileAddress(fs, other, q)
  {
    var c := fs.BytesPerCluster();
    ClustersApart(fs, Chain(fs, entry, p / c).value, Chain(fs, other, q / c).value, p % c, q % c);
  }
}
