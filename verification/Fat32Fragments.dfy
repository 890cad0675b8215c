/** Reads of files whose clusters are not consecutive: exactly which of them are completed. */
module Fat32Fragments {
  import opened Wrappers
  import opened Arithmetic
  import opened Fat32Chains
  import opened Fat32Volume
  import opened Fat32Planning
  import opened Fat32Files

  /** The chain goes on, but cluster e does not follow the one before it on the disk. */
  predicate JumpsTo(fs: Fat32, entry: nat, e: nat)
    requires entry >= 2
  {
    e > 0 && Chain(fs, entry, e).Some? && Chain(fs, entry, e) != Some(Chain(fs, entry, e - 1).value + 1)
  }

  predicate EndsAtJump(fs: Fat32, entry: nat, end: nat)
    requires fs.Valid() && entry >= 2
  {
    end % fs.BytesPerCluster() == 0 && JumpsTo(fs, entry, end / fs.BytesPerCluster())
  }

  /** Every run plans for the length of the whole request. So the request is completed if one run does for all of it, or if
      it happens to end where a run does: with a cluster behind which the chain continues elsewhere. */
  ghost predicate Completes(call: Call)
    requires call.Valid()
  {
    || Consecutive(call.fs, call.Entry(), call.First(), call.Begin() + call.n)
    || EndsAtJump(call.fs, call.Entry(), call.Begin() + call.n)
  }

  /** A run begins at `offset` of cluster i, after `done` bytes. Runs before it ended at a jump; and if they have brought too
      much, the request will not be completed. */
  ghost predicate OnPace(call: Call, i: nat, offset: nat, done: nat)
    requires call.Valid()
  {
    if done == 0 then i == call.First() && offset == call.offset % call.fs.BytesPerCluster()
    else
      && offset == 0 && done != call.n
      && if done > call.n then !Completes(call)
         else
           && call.Begin() + done == i * call.fs.BytesPerCluster()
           && call.First() < i && JumpsTo(call.fs, call.Entry(), i)
           && !Consecutive(call.fs, call.Entry(), call.First(), call.Begin() + done + 1)
  }

  // ---------------------------------------------------------------- jumps

  /** Consecutive clusters do not jump. */
  lemma NoJump(fs: Fat32, entry: nat, i: nat, j: nat, e: nat)
    requires fs.Valid() && entry >= 2 && Consecutive(fs, entry, i, j * fs.BytesPerCluster() + 1) && i < e <= j
    ensures !JumpsTo(fs, entry, e)
  {
    InOrder(e - 1, j, fs.BytesPerCluster());
    InOrder(e, j, fs.BytesPerCluster());
  }

  /** A request that ends within consecutive clusters, or where the chain does, does not end at a jump. */
  lemma NoJumpAtEnd(fs: Fat32, entry: nat, i: nat, j: nat, end: nat)
    requires fs.Valid() && entry >= 2 && Consecutive(fs, entry, i, j * fs.BytesPerCluster() + 1) && i * fs.BytesPerCluster() < end
    requires end < (j + 1) * fs.BytesPerCluster() || Chain(fs, entry, j + 1).None?
    ensures !EndsAtJump(fs, entry, end)
  {
    var c := fs.BytesPerCluster();
    if EndsAtJump(fs, entry, end) {
      var e := end / c;
      Between(end, c);
      assert end == e * c;
      Cancel(i, e, c);
      if e <= j {
        NoJump(fs, entry, i, j, e);
      } else if Chain(fs, entry, j + 1).None? {
        ChainEnds(fs, entry, j + 1, e);
      } else {
        InOrder(j + 1, e, c);
      }
    }
  }

  lemma EndsThere(fs: Fat32, entry: nat, e: nat)
    requires fs.Valid() && entry >= 2 && JumpsTo(fs, entry, e)
    ensures EndsAtJump(fs, entry, e * fs.BytesPerCluster())
  {
    ModUnique(e * fs.BytesPerCluster(), e, 0, fs.BytesPerCluster());
  }

  /** Nothing that goes on behind cluster j is consecutive if the chain is not. */
  lemma Interrupted(fs: Fat32, entry: nat, i: nat, j: nat, end: nat)
    requires fs.Valid() && entry >= 2 && i <= j && Consecutive(fs, entry, i, j * fs.BytesPerCluster() + 1)
    requires Chain(fs, entry, j + 1).None? || JumpsTo(fs, entry, j + 1)
    requires (j + 1) * fs.BytesPerCluster() < end
    ensures !Consecutive(fs, entry, i, end)
  {
    NextInRun(fs, entry, i, j, end);
  }

  lemma NextInRun(fs: Fat32, entry: nat, i: nat, j: nat, end: nat)
    requires fs.Valid() && entry >= 2 && i <= j && (j + 1) * fs.BytesPerCluster() < end
    ensures Consecutive(fs, entry, i, end) ==> Chain(fs, entry, j).Some? && Chain(fs, entry, j + 1) == Some(Chain(fs, entry, j).value + 1)
  {
    InOrder(j, j + 1, fs.BytesPerCluster());
  }

  lemma ClustersOf(i: nat, j: nat, c: nat)
    requires i <= j
    ensures i * c + (j - i) * c + c == (j + 1) * c
  {
    Distribute(i, j - i, c);
    Distribute(j, 1, c);
  }

  // ---------------------------------------------------------------- one run

  /** The chain ends before the request does. */
  lemma NotPlanned(call: Call, i: nat, j: nat, offset: nat, done: nat)
    requires call.Valid() && OnPace(call, i, offset, done) && EndsEarly(call.fs, call.Entry(), i, j, offset, call.n)
    ensures !Completes(call)
  {
    if done == 0 {
      NotPlannedAtFirst(call, j, offset);
    } else if done < call.n {
      NoJumpAtEnd(call.fs, call.Entry(), i, j, call.Begin() + call.n);
      LongerIsNot(call, done);
    }
  }

  lemma NotPlannedAtFirst(call: Call, j: nat, offset: nat)
    requires call.Valid() && OnPace(call, call.First(), offset, 0) && EndsEarly(call.fs, call.Entry(), call.First(), j, offset, call.n)
    ensures !Completes(call)
  {
    var i, end, c := call.First(), call.Begin() + call.n, call.fs.BytesPerCluster();
    ClustersOf(i, j, c);
    assert (j + 1) * c < end;
    InOrder(i, j + 1, c);
    Interrupted(call.fs, call.Entry(), i, j, end);
    NoJumpAtEnd(call.fs, call.Entry(), i, j, end);
  }

  /** One run does for the whole request. */
  lemma AllAtOnce(call: Call, i: nat, j: nat, offset: nat, t: Transfer)
    requires call.Valid() && OnPace(call, i, offset, 0) && Planned(call.fs, call.Entry(), i, j, offset, call.n, t) && t.bytes == call.n
    ensures Completes(call)
  {
    var c := call.fs.BytesPerCluster();
    ConsecutiveRun(call.fs, call.Entry(), i, j);
    Distribute(i, j - i, c);
    ConsecutiveShorter(call.fs, call.Entry(), i, j * c + c, call.Begin() + call.n);
  }

  /** A later run that brings the length of the whole request once more. */
  lemma AllAgain(call: Call, i: nat, j: nat, done: nat, t: Transfer)
    requires call.Valid() && 0 < done < call.n && OnPace(call, i, 0, done) && Planned(call.fs, call.Entry(), i, j, 0, call.n, t) && t.bytes == call.n
    ensures !Completes(call)
  {
    ClustersOf(i, j, call.fs.BytesPerCluster());
    NoJumpAtEnd(call.fs, call.Entry(), i, j, call.Begin() + call.n);
    LongerIsNot(call, done);
  }

  /** What is not consecutive up to some byte is not so up to a later one. */
  lemma LongerIsNot(call: Call, done: nat)
    requires call.Valid() && done < call.n && !Consecutive(call.fs, call.Entry(), call.First(), call.Begin() + done + 1)
    ensures !Consecutive(call.fs, call.Entry(), call.First(), call.Begin() + call.n)
  {
    if Consecutive(call.fs, call.Entry(), call.First(), call.Begin() + call.n) {
      ConsecutiveShorter(call.fs, call.Entry(), call.First(), call.Begin() + call.n, call.Begin() + done + 1);
    }
  }

  /** A run that ends at a jump. */
  lemma UpToJump(call: Call, i: nat, j: nat, offset: nat, done: nat, t: Transfer)
    requires call.Valid() && done < call.n && offset < call.fs.BytesPerCluster() && OnPace(call, i, offset, done)
    requires Planned(call.fs, call.Entry(), i, j, offset, call.n, t) && t.bytes < call.n
    ensures t.bytes > 0 && JumpsTo(call.fs, call.Entry(), j + 1)
    ensures if done + t.bytes == call.n then Completes(call) else OnPace(call, j + 1, 0, done + t.bytes)
  {
    var fs, entry, end := call.fs, call.Entry(), call.Begin() + call.n;
    ClustersOf(i, j, fs.BytesPerCluster());
    AtLeast(j - i + 1, fs.BytesPerCluster());
    Distribute(j - i, 1, fs.BytesPerCluster());
    assert call.Begin() + done + t.bytes == (j + 1) * fs.BytesPerCluster();
    if done + t.bytes == call.n {
      EndsThere(fs, entry, j + 1);
    } else if done + t.bytes < call.n {
      JumpIsSeen(call, i, j, done);
    } else {
      NoJumpAtEnd(fs, entry, i, j, end);
      LongerIsNot(call, done);
    }
  }

  /** Behind a jump the clusters are not consecutive any more. */
  lemma JumpIsSeen(call: Call, i: nat, j: nat, done: nat)
    requires call.Valid() && i <= j && Consecutive(call.fs, call.Entry(), i, j * call.fs.BytesPerCluster() + 1)
    requires JumpsTo(call.fs, call.Entry(), j + 1)
    requires if done == 0 then i == call.First()
             else call.Begin() + done == i * call.fs.BytesPerCluster()
                  && !Consecutive(call.fs, call.Entry(), call.First(), call.Begin() + done + 1)
    ensures !Consecutive(call.fs, call.Entry(), call.First(), (j + 1) * call.fs.BytesPerCluster() + 1)
  {
    var fs, c := call.fs, call.fs.BytesPerCluster();
    if done == 0 {
      Interrupted(fs, call.Entry(), i, j, (j + 1) * c + 1);
    } else if Consecutive(fs, call.Entry(), call.First(), (j + 1) * c + 1) {
      InOrder(i, j + 1, c);
      ConsecutiveShorter(fs, call.Entry(), call.First(), (j + 1) * c + 1, call.Begin() + done + 1);
    }
  }

  /** How it goes on after a run. */
  lemma AfterPace(call: Call, i: nat, j: nat, offset: nat, done: nat, t: Transfer)
    requires call.Valid() && offset < call.fs.BytesPerCluster() && OnPace(call, i, offset, done)
    requires Planned(call.fs, call.Entry(), i, j, offset, call.n, t)
    ensures if done + t.bytes == call.n then Completes(call)
            else if Chain(call.fs, call.Entry(), j + 1).None? then !Completes(call)
            else OnPace(call, j + 1, 0, done + t.bytes)
  {
    if done < call.n && t.bytes < call.n {
      UpToJump(call, i, j, offset, done, t);
    } else if done == 0 {
      AllAtOnce(call, i, j, offset, t);
    } else if done < call.n {
      AllAgain(call, i, j, done, t);
    }
  }

  /** The chain ends before the request begins. */
  lemma NothingThere(call: Call)
    requires call.Valid() && Chain(call.fs, call.Entry(), call.First()).None?
    ensures !Completes(call)
  {
    var c, end := call.fs.BytesPerCluster(), call.Begin() + call.n;
    Between(end, c);
    Cancel(call.First(), end / c + 1, c);
    if EndsAtJump(call.fs, call.Entry(), end) {
      ChainEnds(call.fs, call.Entry(), call.First(), end / c);
    }
  }

  // ---------------------------------------------------------------- requests that end with their chain

  /** The run that holds the last byte of the request begins in cluster i, and the chain ends before the run can be
      planned. */
  ghost predicate LastRunFails(call: Call, i: nat, j: nat)
    requires call.Valid()
  {
    var c, end := call.fs.BytesPerCluster(), call.Begin() + call.n;
    && (i == call.First() || (i > call.First() && i * c < end && JumpsTo(call.fs, call.Entry(), i)))
    && (forall e: nat {:trigger JumpsTo(call.fs, call.Entry(), e)} :: i < e && e * c < end ==> !JumpsTo(call.fs, call.Entry(), e))
    && EndsEarly(call.fs, call.Entry(), i, j, if i == call.First() then call.offset % c else 0, call.n)
  }

  ghost predicate EndsWithChain(call: Call)
    requires call.Valid()
  {
    exists i: nat, j: nat :: LastRunFails(call, i, j)
  }

  /** Such a request never brings too much. */
  lemma NoOverrun(call: Call, i: nat, j: nat, offset: nat, done: nat, t: Transfer)
    requires call.Valid() && EndsWithChain(call) && OnPace(call, i, offset, done) && done <= call.n
    requires Planned(call.fs, call.Entry(), i, j, offset, call.n, t)
    ensures done + t.bytes <= call.n
  {
    if 0 < done && done + t.bytes > call.n {
      var i', j' :| LastRunFails(call, i', j');
      SameRun(call, i, j, done, t, i', j');
      RunOutgrows(call.fs, call.Entry(), i, j, call.n, t, j');
    }
  }

  /** A run that cannot be planned, because the chain ends too early, is the last one. */
  lemma FailsAtEnd(call: Call, i: nat, j: nat, offset: nat, done: nat)
    requires call.Valid() && OnPace(call, i, offset, done) && done <= call.n && EndsEarly(call.fs, call.Entry(), i, j, offset, call.n)
    ensures EndsWithChain(call)
  {
    var fs, c := call.fs, call.fs.BytesPerCluster();
    forall e: nat | i < e && e * c < call.Begin() + call.n
      ensures !JumpsTo(fs, call.Entry(), e)
    {
      if e <= j {
        NoJump(fs, call.Entry(), i, j, e);
      } else {
        ChainStops(fs, call.Entry(), j + 1, e);
      }
    }
    assert LastRunFails(call, i, j);
  }

  lemma ChainStops(fs: Fat32, entry: nat, i: nat, e: nat)
    requires entry >= 2 && i <= e && Chain(fs, entry, i).None?
    ensures !JumpsTo(fs, entry, e)
  {
    ChainEnds(fs, entry, i, e);
  }

  /** A run that goes beyond the end of the request is the last one before it. */
  lemma SameRun(call: Call, i: nat, j: nat, done: nat, t: Transfer, i': nat, j': nat)
    requires call.Valid() && OnPace(call, i, 0, done) && 0 < done < call.n && LastRunFails(call, i', j')
    requires Planned(call.fs, call.Entry(), i, j, 0, call.n, t) && done + t.bytes > call.n
    ensures i' == i
  {
    var c := call.fs.BytesPerCluster();
    ClustersOf(i, j, c);
    BeginAndAhead(call);
    if i' > i {
      Cancel(i', j + 1, c);
      NoJump(call.fs, call.Entry(), i, j, i');
    }
  }

  /** What can be planned does not end too early. */
  lemma RunOutgrows(fs: Fat32, entry: nat, i: nat, j: nat, length: nat, t: Transfer, j': nat)
    requires fs.Valid() && entry >= 2 && Planned(fs, entry, i, j, 0, length, t)
    ensures !EndsEarly(fs, entry, i, j', 0, length)
  {
    var c := fs.BytesPerCluster();
    if EndsEarly(fs, entry, i, j', 0, length) {
      if j > j' {
        ChainEnds(fs, entry, j' + 1, j);
      } else if t.bytes == length {
        InOrder(j - i, j' - i, c);
      } else if j < j' {
        NoJump(fs, entry, i, j', j + 1);
      }
    }
  }

  // ---------------------------------------------------------------- writing

  /** A request to write is completed under two more conditions: it begins with a sector, and its last part is at least a
      sector long if one run does for all of it. */
  ghost predicate WriteCompletes(call: Call)
    requires call.Valid()
  {
    && Unskipped(call.fs, call.offset % call.fs.BytesPerCluster()) == 0
    && Completes(call)
    && (Consecutive(call.fs, call.Entry(), call.First(), call.Begin() + call.n) ==>
          LastPart(call.n, call.fs.BytesPerCluster()) >= call.fs.bytesPerSector)
  }

  ghost predicate OnWritePace(call: Call, i: nat, offset: nat, done: nat)
    requires call.Valid()
  {
    OnPace(call, i, offset, done) && (done > 0 ==> Unskipped(call.fs, call.offset % call.fs.BytesPerCluster()) == 0)
  }

  lemma ShortLastPart(n: nat, m: nat, b: nat, c: nat)
    requires 0 < b <= c && m * c <= n < m * c + b && (m > 0 ==> m * c < n)
    ensures LastPart(n, c) < b
  {
    if n > 0 {
      Locate(n - 1, m, n - 1 - m * c, c);
      ModUnique(n - 1 - m * c, 0, n - 1 - m * c, c);
    }
  }

  /** A run that is refused because too little is left. */
  lemma TooShort(call: Call, i: nat, j: nat, offset: nat, done: nat)
    requires call.Valid() && OnWritePace(call, i, offset, done) && EndsShort(call.fs, call.Entry(), i, j, offset, call.n)
    ensures !WriteCompletes(call)
  {
    var c := call.fs.BytesPerCluster();
    if done == 0 {
      if Unskipped(call.fs, offset) == 0 {
        ConsecutiveRun(call.fs, call.Entry(), i, j);
        Distribute(i, j - i, c);
        ConsecutiveShorter(call.fs, call.Entry(), i, j * c + c, call.Begin() + call.n);
        ShortLastPart(call.n, j - i, call.fs.bytesPerSector, c);
      }
    } else if done < call.n {
      ClustersOf(i, j, c);
      NoJumpAtEnd(call.fs, call.Entry(), i, j, call.Begin() + call.n);
      LongerIsNot(call, done);
    }
  }

  /** The one run of a request that it does for. */
  lemma WrittenAtOnce(call: Call, i: nat, j: nat, offset: nat, t: Transfer, last: nat)
    requires call.Valid() && OnWritePace(call, i, offset, 0)
    requires Outcome(call.fs, call.Entry(), i, j, offset, call.n, true, Some((t, last))) && t.bytes == call.n && t.dataOffset == 0
    ensures WriteCompletes(call)
  {
    AllAtOnce(call, i, j, offset, t);
  }

  /** How it goes on after a run that has been written. */
  lemma AfterWritePace(call: Call, i: nat, j: nat, offset: nat, done: nat, t: Transfer, last: nat)
    requires call.Valid() && offset < call.fs.BytesPerCluster() && OnWritePace(call, i, offset, done) && t.dataOffset == 0
    requires Outcome(call.fs, call.Entry(), i, j, offset, call.n, true, Some((t, last)))
    ensures if done + t.bytes == call.n then WriteCompletes(call)
            else if Chain(call.fs, call.Entry(), j + 1).None? then !WriteCompletes(call)
            else OnWritePace(call, j + 1, 0, done + t.bytes)
  {
    AfterPace(call, i, j, offset, done, t);
    if done == 0 && t.bytes == call.n {
      WrittenAtOnce(call, i, j, offset, t, last);
    }
  }

  // ---------------------------------------------------------------- a healthy disk

  /** A disk without faults that holds all clusters of the chain, and behind them as much as the request skips. */
  ghost predicate Healthy(call: Call, disk: Disk)
    requires call.Valid()
  {
    var fs := call.fs;
    && (forall a, l :: disk.works(a, l))
    && fs.baseLba * fs.lbaSize % 512 == 0 && fs.bytesPerSector % 512 == 0
    && forall j: nat {:trigger Chain(fs, call.Entry(), j)} :: Chain(fs, call.Entry(), j).Some? ==>
         fs.ClusterAddress(Chain(fs, call.Entry(), j).value) + call.offset % fs.BytesPerCluster() + fs.BytesPerCluster() <= disk.size
  }

  lemma Aligned(fs: Fat32, disk: Disk, address: nat, sector: nat, sectors: nat)
    requires (forall a, l :: disk.works(a, l)) && fs.baseLba * fs.lbaSize % 512 == 0 && fs.bytesPerSector % 512 == 0
    requires address == fs.SectorAddress(sector) && address + sectors * fs.bytesPerSector <= disk.size
    ensures disk.Serves(address, sectors * fs.bytesPerSector)
  {
    Multiple512(sector, fs.bytesPerSector);
    SumOf512(fs.baseLba * fs.lbaSize, sector * fs.bytesPerSector);
    Multiple512(sectors, fs.bytesPerSector);
  }

  /** It serves every run. */
  lemma RunServed(call: Call, disk: Disk, i: nat, j: nat, offset: nat, done: nat, t: Transfer)
    requires call.Valid() && Healthy(call, disk) && OnPace(call, i, offset, done)
    requires Planned(call.fs, call.Entry(), i, j, offset, call.n, t)
    ensures disk.Serves(TransferAddress(call.fs, Chain(call.fs, call.Entry(), i).value, t), t.sectors * call.fs.bytesPerSector)
  {
    var fs, entry := call.fs, call.Entry();
    var cluster := Chain(fs, entry, i).value;
    RunFits(fs, entry, i, j, offset, call.n, t);
    TransferStart(fs, cluster, offset, t);
    assert Chain(fs, entry, j) == Some(cluster + (j - i));
    NextAddress(fs, cluster, j - i);
    Distribute(j - i, 1, fs.BytesPerCluster());
    Aligned(fs, disk, TransferAddress(fs, cluster, t), fs.ClusterToSector(cluster) + t.sectorOffset, t.sectors);
  }

  // ---------------------------------------------------------------- what the condition says

  /** Nothing is forgotten if the request begins at most one sector into its cluster. */
  lemma BeginsAtOffset(call: Call)
    requires call.Valid() && call.offset % call.fs.BytesPerCluster() <= call.fs.bytesPerSector
    ensures call.Begin() == call.offset
  {
    Between(call.offset, call.fs.BytesPerCluster());
  }

  /** Up to the end of the file, and of its chain, only consecutive clusters can be read. */
  lemma ReadToTheEnd(call: Call)
    requires call.Valid() && call.offset % call.fs.BytesPerCluster() <= call.fs.bytesPerSector
    requires call.n > 0 && EndsBy(call.fs, call.Entry(), (call.offset + call.n - 1) / call.fs.BytesPerCluster() + 1)
    ensures Completes(call) <==> Consecutive(call.fs, call.Entry(), call.First(), call.offset + call.n)
  {
    var c, end := call.fs.BytesPerCluster(), call.offset + call.n;
    BeginsAtOffset(call);
    if EndsAtJump(call.fs, call.Entry(), end) {
      LastOfMultiple(end, c);
    }
  }

  /** A volume with clusters of one sector, and a file in clusters 2 and 4. */
  function TwoFragments(): Fat32 {
    SmallVolume(1, [0, 0, 4, 0, 0x0FFF_FFFF])
  }

  /** Its 1024 bytes are there, but a read of all of them fails. */
  lemma FragmentedReadFails(buffer: nat)
    ensures var call := Call(TwoFragments(), FileInfo(2, 1024), buffer, 0, 1024);
            call.Valid() && call.Good() && !Completes(call) && (forall p: nat :: p < 1024 ==> HasByte(call.fs, 2, p))
  {
    var fs, call := TwoFragments(), Call(TwoFragments(), FileInfo(2, 1024), buffer, 0, 1024);
    assert fs.BytesPerCluster() == 512 by {
      TimesIsProduct(1, 512);
    }
    assert Chain(fs, 2, 0) == Some(2);
    assert Chain(fs, 2, 1) == Some(4);
    assert Chain(fs, 2, 2) == None;
    assert EndsBy(fs, 2, 2);
    ReadToTheEnd(call);
    forall p: nat | p < 1024
      ensures HasByte(fs, 2, p)
    {
      assert p / 512 == 0 || p / 512 == 1;
    }
  }

  /** Byte y after the beginning of cluster i lies so far behind it on the disk, too. */
  ghost predicate LiesBehind(fs: Fat32, entry: nat, i: nat, y: nat)
    requires fs.Valid() && entry >= 2 && Chain(fs, entry, i).Some?
  {
    var p := i * fs.BytesPerCluster() + y;
    HasByte(fs, entry, p) && FileAddress(fs, entry, p) == fs.ClusterAddress(Chain(fs, entry, i).value) + y
  }

  /** The beginning of a cluster that does not belong to a consecutive stretch. */
  lemma LiesElsewhere(fs: Fat32, entry: nat, i: nat, j: nat)
    requires fs.Valid() && entry >= 2 && i < j && Chain(fs, entry, i).Some? && Chain(fs, entry, j) != Some(Chain(fs, entry, i).value + (j - i))
    ensures !LiesBehind(fs, entry, i, (j - i) * fs.BytesPerCluster())
  {
    var c, cluster := fs.BytesPerCluster(), Chain(fs, entry, i).value;
    Distribute(i, j - i, c);
    ModUnique(j * c, j, 0, c);
    if Chain(fs, entry, j).Some? {
      NextAddress(fs, cluster, j - i);
      ClustersApart(fs, Chain(fs, entry, j).value, cluster + (j - i), 0, 0);
    }
  }

  /** A read of two clusters from the beginning of a file whose second cluster is followed by its third one, but not the
      first by the second: the second run brings two clusters once more. */
  lemma SecondRunOverruns(call: Call, c: nat)
    requires call.Valid() && c == call.fs.BytesPerCluster() && call.offset == 0 && call.n == 2 * c
    requires JumpsTo(call.fs, call.Entry(), 1) && Chain(call.fs, call.Entry(), 2) == Some(Chain(call.fs, call.Entry(), 1).value + 1)
    ensures !Completes(call) && !EndsWithChain(call)
  {
    var fs, t := call.fs, Transfer(SectorsFor(call.fs, 2 * c), 2 * c, 0, 0);
    SecondRunBegins(call, c);
    FirstCluster(fs, call.Entry(), 1);
    OneMoreCluster(fs, call.Entry(), 1, 1);
    assert Planned(fs, call.Entry(), 1, 2, 0, call.n, t);
    AllAgain(call, 1, 2, c, t);
    if EndsWithChain(call) {
      NoOverrun(call, 1, 2, 0, c, t);
    }
  }

  lemma SecondRunBegins(call: Call, c: nat)
    requires call.Valid() && c == call.fs.BytesPerCluster() && call.offset == 0 && call.n == 2 * c
    requires JumpsTo(call.fs, call.Entry(), 1)
    ensures OnPace(call, 1, 0, c)
  {
    ModUnique(0, 0, 0, c);
    assert call.First() == 0 && call.Begin() == 0;
    if Consecutive(call.fs, call.Entry(), 0, c + 1) {
      NextInRun(call.fs, call.Entry(), 0, 0, c + 1);
    }
  }

  /** A volume with clusters of one sector, and a file in clusters 2, 4, 5 and 7. */
  function ThreeFragments(): Fat32 {
    SmallVolume(1, [0, 0, 4, 0, 5, 7, 0, 0x0FFF_FFFF])
  }

  /** A read of its first 1024 bytes fails, and does not end with the chain: 512 bytes are stored behind the buffer. */
  lemma ReadOverruns(call: Call)
    requires call.fs == ThreeFragments() && call.file == FileInfo(2, 2048) && call.offset == 0 && call.n == 1024
    ensures call.Valid() && Chain(call.fs, 2, call.First()).Some? && !Completes(call) && !EndsWithChain(call)
  {
    ThreeFragmentsChain();
    SecondRunOverruns(call, 512);
  }

  lemma ThreeFragmentsChain()
    ensures ThreeFragments().BytesPerCluster() == 512
    ensures Chain(ThreeFragments(), 2, 0) == Some(2) && Chain(ThreeFragments(), 2, 1) == Some(4)
    ensures Chain(ThreeFragments(), 2, 2) == Some(5) && EndsBy(ThreeFragments(), 2, 4)
  {
    var fs := ThreeFragments();
    TimesIsProduct(1, 512);
    assert Chain(fs, 2, 0) == Some(2);
    assert Chain(fs, 2, 1) == Some(4);
    assert Chain(fs, 2, 2) == Some(5);
    assert Chain(fs, 2, 3) == Some(7);
  }

  // ---------------------------------------------------------------- where the bytes of a request come from

  /** How many bytes the first run is ahead of the place where the code takes the request to begin. */
  function Ahead(call: Call): nat
    requires call.fs.Valid()
  {
    Skipped(call.fs, call.offset % call.fs.BytesPerCluster()) * call.fs.bytesPerSector
  }

  /** The place on the disk from which `read` draws byte k of a request that it completes: the chain is followed from
      where the code takes the request to begin, but the first run is ahead by the sectors it skips. */
  ghost function DrawnFrom(call: Call, k: nat): nat
    requires call.Valid() && HasByte(call.fs, call.Entry(), call.Begin() + k)
  {
    FileAddress(call.fs, call.Entry(), call.Begin() + k)
    + if Consecutive(call.fs, call.Entry(), call.First(), call.Begin() + k + 1) then Ahead(call) else 0
  }

  ghost predicate Right(call: Call, k: nat)
    requires call.Valid()
  {
    && HasByte(call.fs, call.Entry(), call.Begin() + k)
    && HasByte(call.fs, call.Entry(), call.offset + k)
    && DrawnFrom(call, k) == FileAddress(call.fs, call.Entry(), call.offset + k)
  }

  lemma BeginAndAhead(call: Call)
    requires call.fs.Valid()
    ensures call.offset == call.Begin() + Ahead(call) && call.First() * call.fs.BytesPerCluster() <= call.Begin()
    ensures Ahead(call) == 0 <==> call.offset % call.fs.BytesPerCluster() <= call.fs.bytesPerSector
    ensures call.offset < (call.First() + 1) * call.fs.BytesPerCluster()
  {
    var b, c := call.fs.bytesPerSector, call.fs.BytesPerCluster();
    Between(call.offset, c);
    Split(call.offset, c);
    if call.offset % c > b {
      Between(call.offset % c, b);
      AtLeastOne(call.offset % c, b);
      AtLeast(call.offset % c / b, b);
    }
  }

  lemma AtLeastOne(a: nat, b: nat)
    requires 0 < b < a
    ensures a / b > 0
  {
    Between(a, b);
    Cancel(1, a / b + 1, b);
  }

  lemma AheadBelow(call: Call)
    requires call.fs.Valid()
    ensures Ahead(call) < call.fs.BytesPerCluster()
  {
    Split(call.offset, call.fs.BytesPerCluster());
    assert Ahead(call) + Unskipped(call.fs, call.offset % call.fs.BytesPerCluster()) == call.offset % call.fs.BytesPerCluster();
  }

  /** A read never takes anything from the reserved sectors or a table, even where it is ahead. */
  lemma DrawnFromData(call: Call, k: nat)
    requires call.Valid() && HasByte(call.fs, call.Entry(), call.Begin() + k)
    ensures !InReserved(call.fs, DrawnFrom(call, k)) && !InTable(call.fs, DrawnFrom(call, k))
  {
    var p, c := call.Begin() + k, call.fs.BytesPerCluster();
    DataApart(call.fs, Chain(call.fs, call.Entry(), p / c).value, DrawnFrom(call, k) - call.fs.ClusterAddress(Chain(call.fs, call.Entry(), p / c).value));
  }

  /** Where the bytes of the first run come from. */
  lemma FirstRunDraws(call: Call, k: nat)
    requires call.Valid() && Consecutive(call.fs, call.Entry(), call.First(), call.Begin() + k + 1)
    ensures HasByte(call.fs, call.Entry(), call.Begin() + k)
    ensures DrawnFrom(call, k) == call.fs.ClusterAddress(Chain(call.fs, call.Entry(), call.First()).value) + call.offset % call.fs.BytesPerCluster() + k
  {
    var c := call.fs.BytesPerCluster();
    BeginAndAhead(call);
    Split(call.offset, c);
    ConsecutiveBytes(call.fs, call.Entry(), call.First(), call.Begin() + k + 1, call.Begin() + k - call.First() * c, call.Begin() + k);
  }

  /** A supported request draws every byte from its place. */
  lemma SupportedIsRight(call: Call, k: nat)
    requires call.Valid() && call.Good() && k < call.n && HasByte(call.fs, call.Entry(), call.Begin() + k)
    ensures Right(call, k)
  {
    var c := call.fs.BytesPerCluster();
    BeginAndAhead(call);
    if Ahead(call) > 0 {
      Split(call.offset, c);
      ConsecutiveShorter(call.fs, call.Entry(), call.First(), call.offset + call.n, call.Begin() + k + 1);
      FirstRunDraws(call, k);
      ConsecutiveBytes(call.fs, call.Entry(), call.First(), call.offset + call.n, call.offset % c + k, call.offset + k);
    }
  }

  /** The first cluster of a request that does not follow the one before it. */
  lemma {:induction false} FirstJump(fs: Fat32, entry: nat, i: nat, end: nat, j: nat) returns (e: nat)
    requires fs.Valid() && entry >= 2 && Chain(fs, entry, i).Some?
    requires i < j && j * fs.BytesPerCluster() < end && Chain(fs, entry, j) != Some(Chain(fs, entry, i).value + (j - i))
    ensures i < e && e * fs.BytesPerCluster() < end && Chain(fs, entry, e) != Some(Chain(fs, entry, i).value + (e - i))
    ensures Consecutive(fs, entry, i, e * fs.BytesPerCluster())
    decreases j
  {
    var c := fs.BytesPerCluster();
    if Consecutive(fs, entry, i, j * c) {
      e := j;
    } else {
      var l: nat :| i <= l && l * c < j * c && Chain(fs, entry, l) != Some(Chain(fs, entry, i).value + (l - i));
      Cancel(l, j, c);
      e := FirstJump(fs, entry, i, end, l);
    }
  }

  /** The first run of a request is ahead into the cluster behind it on the disk, whatever that cluster holds. */
  lemma AheadPlaces(call: Call, e: nat, k: nat)
    requires call.Valid() && call.First() < e && Consecutive(call.fs, call.Entry(), call.First(), e * call.fs.BytesPerCluster())
    requires e * call.fs.BytesPerCluster() <= call.offset + k < e * call.fs.BytesPerCluster() + Ahead(call)
    ensures Chain(call.fs, call.Entry(), call.First()).Some? && HasByte(call.fs, call.Entry(), call.Begin() + k)
    ensures DrawnFrom(call, k)
         == call.fs.ClusterAddress(Chain(call.fs, call.Entry(), call.First()).value + (e - call.First()))
            + (call.offset + k - e * call.fs.BytesPerCluster())
  {
    var fs, c := call.fs, call.fs.BytesPerCluster();
    BeginAndAhead(call);
    ConsecutiveShorter(fs, call.Entry(), call.First(), e * c, call.Begin() + k + 1);
    FirstRunDraws(call, k);
    Split(call.offset, c);
    Distribute(e - call.First(), call.First(), c);
    NextAddress(fs, Chain(fs, call.Entry(), call.First()).value, e - call.First());
  }

  /** The first byte of a cluster that the first run misses. */
  lemma BehindJump(call: Call, e: nat)
    requires call.Valid() && Ahead(call) > 0 && call.First() < e && Chain(call.fs, call.Entry(), call.First()).Some?
    requires Consecutive(call.fs, call.Entry(), call.First(), e * call.fs.BytesPerCluster())
    requires Chain(call.fs, call.Entry(), e) != Some(Chain(call.fs, call.Entry(), call.First()).value + (e - call.First()))
    ensures call.offset <= e * call.fs.BytesPerCluster() && !Right(call, e * call.fs.BytesPerCluster() - call.offset)
  {
    var fs, c := call.fs, call.fs.BytesPerCluster();
    assert call.offset < e * c && call.Begin() + (e * c - call.offset) < e * c by {
      BeginAndAhead(call);
      InOrder(call.First() + 1, e, c);
    }
    var k: nat := e * c - call.offset;
    ConsecutiveShorter(fs, call.Entry(), call.First(), e * c, call.Begin() + k + 1);
    FirstRunDraws(call, k);
    assert call.offset % c + k == (e - call.First()) * c by {
      Split(call.offset, c);
      Distribute(e - call.First(), call.First(), c);
    }
    LiesElsewhere(fs, call.Entry(), call.First(), e);
  }

  lemma BeforeJump(fs: Fat32, entry: nat, p: nat, end: nat)
    requires fs.Valid() && entry >= 2 && EndsAtJump(fs, entry, end) && p < end
    ensures HasByte(fs, entry, p)
  {
    var c := fs.BytesPerCluster();
    Split(end, c);
    Between(p, c);
    Cancel(p / c, end / c, c);
    if Chain(fs, entry, p / c).None? {
      ChainEnds(fs, entry, p / c, end / c);
    }
  }

  /** A request that is completed is drawn from clusters of the chain. */
  lemma CompletesInChain(call: Call, k: nat)
    requires call.Valid() && Completes(call) && k < call.n
    ensures HasByte(call.fs, call.Entry(), call.Begin() + k)
  {
    var c, end := call.fs.BytesPerCluster(), call.Begin() + call.n;
    if EndsAtJump(call.fs, call.Entry(), end) {
      BeforeJump(call.fs, call.Entry(), call.Begin() + k, end);
    } else {
      BeginAndAhead(call);
      ConsecutiveBytes(call.fs, call.Entry(), call.First(), end, call.Begin() + k - call.First() * c, call.Begin() + k);
    }
  }

  /** All bytes of a completed request come from their places if and only if the request is supported. */
  lemma DataIsRight(call: Call)
    requires call.Valid() && Completes(call)
    ensures (forall k: nat :: k < call.n ==> Right(call, k)) <==> call.Good()
  {
    if call.Good() {
      forall k: nat | k < call.n
        ensures Right(call, k)
      {
        CompletesInChain(call, k);
        SupportedIsRight(call, k);
      }
    } else {
      if Chain(call.fs, call.Entry(), call.First()).None? {
        NothingThere(call);
      }
      SomeByteIsWrong(call);
    }
  }

  lemma SomeByteIsWrong(call: Call)
    requires call.Valid() && Chain(call.fs, call.Entry(), call.First()).Some? && !call.Good()
    ensures exists k: nat :: k < call.n && !Right(call, k)
  {
    var c := call.fs.BytesPerCluster();
    BeginAndAhead(call);
    var j: nat :| call.First() <= j && j * c < call.offset + call.n
                  && Chain(call.fs, call.Entry(), j) != Some(Chain(call.fs, call.Entry(), call.First()).value + (j - call.First()));
    var e := FirstJump(call.fs, call.Entry(), call.First(), call.offset + call.n, j);
    BehindJump(call, e);
  }

  /** A request of one cluster that begins in the first cluster of a file, some whole sectors into it, where the second
      cluster does not follow the first. */
  ghost predicate CrossesJump(call: Call, c: nat)
    requires call.Valid()
  {
    && c == call.fs.BytesPerCluster() && call.First() == 0 && call.Begin() == 0 && Ahead(call) > 0 && call.n == c
    && JumpsTo(call.fs, call.Entry(), 1)
  }

  /** It is completed, but the first byte of the second cluster is drawn from another place. */
  lemma WrongBytesAreRead(call: Call, c: nat)
    requires call.Valid() && CrossesJump(call, c)
    ensures Completes(call) && call.offset <= c && HasByte(call.fs, call.Entry(), c) && !Right(call, c - call.offset)
  {
    var fs := call.fs;
    FirstCluster(fs, call.Entry(), 0);
    ConsecutiveRun(fs, call.Entry(), 0, 0);
    assert Consecutive(fs, call.Entry(), 0, c);
    assert 1 * c == c;
    ModUnique(c, 1, 0, c);
    BehindJump(call, 1);
  }

  /** A volume with clusters of four sectors, a file in clusters 2 and 4, and another one in cluster 3. */
  function FourSectors(): Fat32 {
    SmallVolume(4, [0, 0, 4, 0x0FFF_FFFF, 0x0FFF_FFFF])
  }

  lemma FourSectorsChain()
    ensures FourSectors().BytesPerCluster() == 2048
    ensures Chain(FourSectors(), 2, 1) == Some(4) && EndsBy(FourSectors(), 2, 2) && EndsBy(FourSectors(), 3, 1)
  {
    var fs := FourSectors();
    TimesIsProduct(4, 512);
    assert Chain(fs, 2, 0) == Some(2);
    assert Chain(fs, 2, 1) == Some(4);
    assert Chain(fs, 2, 2) == None;
    assert Chain(fs, 3, 0) == Some(3);
    assert Chain(fs, 3, 1) == None;
  }

  /** 2048 bytes from the third sector of the first file on are such a request. */
  lemma FromThirdSector(call: Call)
    requires call.fs == FourSectors() && call.file == FileInfo(2, 4096) && call.offset == 1024 && call.n == 2048
    ensures call.Valid() && CrossesJump(call, 2048)
  {
    FourSectorsChain();
    ThirdSector(call.fs, 2048, 1024);
  }

  lemma ThirdSector(fs: Fat32, c: nat, offset: nat)
    requires fs.Valid() && c == fs.BytesPerCluster() == 4 * fs.bytesPerSector && offset == 2 * fs.bytesPerSector
    ensures offset / c == 0 && offset % c == offset && Skipped(fs, offset) == 2 && Unskipped(fs, offset) == 0
  {
    ModUnique(offset, 0, offset, c);
    ModUnique(offset, 2, 0, fs.bytesPerSector);
  }

  /** A single transfer draws a request from the right places exactly if its clusters are consecutive. */
  lemma OneTransferIsRight(fs: Fat32, entry: nat, i: nat, offset: nat, n: nat)
    requires fs.Valid() && entry >= 2 && Chain(fs, entry, i).Some? && offset < fs.BytesPerCluster()
    ensures Consecutive(fs, entry, i, i * fs.BytesPerCluster() + offset + n)
       <==> forall y: nat :: offset <= y < offset + n ==> LiesBehind(fs, entry, i, y)
  {
    if Consecutive(fs, entry, i, i * fs.BytesPerCluster() + offset + n) {
      forall y: nat | offset <= y < offset + n
        ensures LiesBehind(fs, entry, i, y)
      {
        ConsecutiveBytes(fs, entry, i, i * fs.BytesPerCluster() + offset + n, y, i * fs.BytesPerCluster() + y);
      }
    } else {
      FirstElsewhere(fs, entry, i, offset, n);
    }
  }

  lemma FirstElsewhere(fs: Fat32, entry: nat, i: nat, offset: nat, n: nat)
    requires fs.Valid() && entry >= 2 && Chain(fs, entry, i).Some? && offset < fs.BytesPerCluster()
    requires !Consecutive(fs, entry, i, i * fs.BytesPerCluster() + offset + n)
    ensures exists y: nat :: offset <= y < offset + n && !LiesBehind(fs, entry, i, y)
  {
    var c := fs.BytesPerCluster();
    var j: nat :| i <= j && j * c < i * c + offset + n && Chain(fs, entry, j) != Some(Chain(fs, entry, i).value + (j - i));
    Distribute(j - i, i, c);
    AtLeast(j - i, c);
    LiesElsewhere(fs, entry, i, j);
  }
}
