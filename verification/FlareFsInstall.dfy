/** fs_install: format, then copy every file in memory to the fresh disk. */
module FlareFsInstall {
  import opened Machine
  import opened FlareLayout
  import opened FlareFsModel
  import opened FlareFsInvariant
  import opened FlareFsCrash
  import opened FlareFsRuns

  /** fs_install after the format and up to n files: it stops at the first rejected write. */
  datatype Progress = Progress(ok: bool, done: nat, fs: FsState, disk: DiskImage, trace: seq<SectorWrite>)

  function InstallTo(d: DiskImage, files: seq<FsFile>, n: nat): (p: Progress)
    requires HasRegion(d) && n <= |files|
    ensures Shaped(p.fs) && HasRegion(p.disk) && p.done <= n
  {
    if n == 0 then Progress(true, 0, Formatted(), Apply(d, FormatTrace()), FormatTrace())
    else InstallNext(InstallTo(d, files, n - 1), files[n - 1])
  }

  /** One round of the copy loop. */
  function InstallNext(p: Progress, f: FsFile): (r: Progress)
    requires Shaped(p.fs) && HasRegion(p.disk)
    ensures Shaped(r.fs) && HasRegion(r.disk) && r.done <= p.done + 1
  {
    if !p.ok then p
    else
      match PlanWrite(p.fs, f.name, f.data, false)
      case None => p.(ok := false)
      case Some(plan) =>
        var t := WriteTrace(p.fs, f.name, plan);
        Progress(true, p.done + 1, AfterWrite(p.fs, f.name, plan), Apply(p.disk, t), p.trace + t)
  }

  function Install(d: DiskImage, files: seq<FsFile>): Progress
    requires HasRegion(d)
  {
    InstallTo(d, files, |files|)
  }

  /** The first n files as a map, later ones winning. */
  function PutAll(files: seq<FsFile>): map<Name, seq<Byte>> {
    if files == [] then map[]
    else
      var n := |files| - 1;
      PutAll(files[..n])[files[n].name := files[n].data]
  }

  function SectorCounts(files: seq<FsFile>): (r: seq<nat>)
    ensures |r| == |files|
  {
    seq(|files|, i requires 0 <= i < |files| => SectorsFor(|files[i].data|))
  }

  predicate Installable(files: seq<FsFile>) {
    |files| <= MAX_FILES && forall i :: 0 <= i < |files| ==> |files[i].data| <= MAX_MEMORY
  }

  function AbsOf(files: seq<FsFile>): Abs {
    Abs(PutAll(files), SectorCounts(files))
  }

  lemma PutAllSize(files: seq<FsFile>)
    ensures |PutAll(files)| <= |files|
  {
    if files != [] {
      var n := |files| - 1;
      PutAllSize(files[..n]);
      assert PutAll(files).Keys == PutAll(files[..n]).Keys + {files[n].name};
    }
  }

  lemma SectorCountsNext(files: seq<FsFile>, n: nat)
    requires n < |files|
    ensures SectorCounts(files[..n + 1]) == SectorCounts(files[..n]) + [SectorsFor(|files[n].data|)]
    ensures Sum(SectorCounts(files[..n + 1])) == Sum(SectorCounts(files[..n])) + SectorsFor(|files[n].data|)
  {
    var a, b := SectorCounts(files[..n + 1]), SectorCounts(files[..n]);
    assert a[..n] == b;
  }

  // ---------- What has been copied ----------

  /** After the copy loop has handled n files, exactly the first `done` are stored; if it
      stopped early, the next one was refused. */
  predicate CopiedTo(d: DiskImage, files: seq<FsFile>, n: nat, p: Progress)
    requires HasRegion(d) && n <= |files|
  {
    && p.done <= n
    && Refines(State(p.fs, p.disk), AbsOf(files[..p.done]))
    && p.disk == Apply(d, p.trace)
    && SameOutside(d, p.disk)
    && |p.trace| > FLAREFS_SECTORS
    && (p.ok ==> p.done == n)
    && (!p.ok ==> p.done < n && !AbsAccepts(AbsOf(files[..p.done]), files[p.done].name, files[p.done].data, false))
  }

  lemma {:induction false} InstallRefines(d: DiskImage, files: seq<FsFile>, n: nat)
    requires HasRegion(d) && Installable(files) && n <= |files|
    ensures CopiedTo(d, files, n, InstallTo(d, files, n))
  {
    if n == 0 {
      InstallStart(d, files);
    } else {
      hide CopiedTo, InstallNext, Apply;
      InstallRefines(d, files, n - 1);
      InstallNextRefines(d, files, n - 1, InstallTo(d, files, n - 1));
    }
  }

  lemma InstallStart(d: DiskImage, files: seq<FsFile>)
    requires HasRegion(d)
    ensures CopiedTo(d, files, 0, InstallTo(d, files, 0))
  {
    FormatRefines(State(Unmounted(), d));
    hide Refines, FormatTrace, Apply;
    assert files[..0] == [];
    assert AbsOf([]) == Abs(map[], []);
  }

  lemma InstallNextRefines(d: DiskImage, files: seq<FsFile>, n: nat, p: Progress)
    requires HasRegion(d) && Installable(files) && n < |files|
    requires Shaped(p.fs) && HasRegion(p.disk) && CopiedTo(d, files, n, p)
    ensures CopiedTo(d, files, n + 1, InstallNext(p, files[n]))
  {
    hide Linked, DirOk, DiskHolds, Contents, PlanWrite, WriteTrace, AfterWrite, Apply, AbsAccepts, Sum, SectorCounts,
      PutAll;
    if p.ok {
      var f := files[n];
      var st, a := State(p.fs, p.disk), AbsOf(files[..n]);
      AcceptsIff(st, a, f.name, f.data, false);
      PutRefines(st, a, f.name, f.data, false);
      match PlanWrite(p.fs, f.name, f.data, false)
      case None =>
      case Some(plan) =>
        var t := WriteTrace(p.fs, f.name, plan);
        ApplyAppend(d, p.trace, t);
        PlanFits(p.fs, p.disk, f.name, f.data, false);
        WriteCompletes(p.fs, p.disk, f.name, plan);
        AbsNext(files, n);
    }
  }

  lemma AbsNext(files: seq<FsFile>, n: nat)
    requires n < |files|
    ensures AbsOf(files[..n + 1]) == Abs(PutAll(files[..n])[files[n].name := files[n].data],
                                         SectorCounts(files[..n]) + [SectorsFor(|files[n].data|)])
  {
    SectorCountsNext(files, n);
    assert files[..n + 1][..n] == files[..n];
  }

  // ---------- When an install succeeds ----------

  /** Names valid and at least one sector for each file within the 251 data sectors. */
  predicate Fits(files: seq<FsFile>) {
    && (forall i :: 0 <= i < |files| ==> ValidName(files[i].name))
    && Sum(SectorCounts(files)) <= FLAREFS_SECTORS - DATA_START
  }

  lemma {:induction false} InstallToOkIff(d: DiskImage, files: seq<FsFile>, n: nat)
    requires HasRegion(d) && Installable(files) && n <= |files|
    ensures InstallTo(d, files, n).ok <==> Fits(files[..n])
  {
    hide CopiedTo, InstallNext, ValidName, Fits, Apply;
    if n == 0 {
      NothingFits(files);
    } else {
      InstallToOkIff(d, files, n - 1);
      InstallRefines(d, files, n - 1);
      NextOkIff(d, files, n - 1, InstallTo(d, files, n - 1));
    }
  }

  lemma NothingFits(files: seq<FsFile>)
    ensures Fits(files[..0])
  {
    assert SectorCounts(files[..0]) == [];
  }

  lemma NextOkIff(d: DiskImage, files: seq<FsFile>, n: nat, p: Progress)
    requires HasRegion(d) && Installable(files) && n < |files|
    requires Shaped(p.fs) && HasRegion(p.disk) && CopiedTo(d, files, n, p)
    requires p.ok <==> Fits(files[..n])
    ensures InstallNext(p, files[n]).ok <==> Fits(files[..n + 1])
  {
    hide Refines, Apply, ValidName, PutAll, SectorCounts, PlanWrite, AfterWrite, WriteTrace, Fits, Sum;
    FitsNext(files, n);
    PutAllSize(files[..n]);
    if p.ok {
      AcceptsIff(State(p.fs, p.disk), AbsOf(files[..n]), files[n].name, files[n].data, false);
    }
  }

  lemma FitsNext(files: seq<FsFile>, n: nat)
    requires n < |files|
    ensures Fits(files[..n + 1]) <==>
      Fits(files[..n]) && ValidName(files[n].name) &&
      Sum(SectorCounts(files[..n])) + SectorsFor(|files[n].data|) <= FLAREFS_SECTORS - DATA_START
  {
    SectorCountsNext(files, n);
    hide ValidName, Sum, SectorCounts;
    var a, b := files[..n + 1], files[..n];
    if Fits(a) {
      forall i | 0 <= i < n
        ensures ValidName(b[i].name)
      {
        assert a[i] == b[i];
      }
      assert a[n] == files[n];
    }
  }

  /** fs_install succeeds exactly when every name is valid and the files fit in 251 sectors. */
  lemma InstallSucceedsIff(d: DiskImage, files: seq<FsFile>)
    requires HasRegion(d) && Installable(files)
    ensures Install(d, files).ok <==>
      (forall i :: 0 <= i < |files| ==> ValidName(files[i].name)) && Sum(SectorCounts(files)) <= 251
  {
    InstallToOkIff(d, files, |files|);
    assert files[..|files|] == files;
  }

  // ---------- What a successful install keeps ----------

  lemma {:induction false} PutAllDistinct(files: seq<FsFile>)
    requires DistinctNames(files)
    ensures PutAll(files) == Contents(files)
    decreases |files|
  {
    if files == [] {
      ContentsEmpty();
    } else {
      var n := |files| - 1;
      assert WithSlot(files[..n], n, files[n]) == files;
      PutAllDistinct(files[..n]);
      ContentsUpdate(files[..n], n, files[n]);
    }
  }

  /** Some live extent holds sector t. */
  predicate Live(dir: Directory, t: nat) {
    exists k :: 0 <= k < MAX_FILES && dir[k].used != 0 && dir[k].start <= t < dir[k].start + dir[k].count
  }

  /** The live extents leave no gap below next_free_sector. */
  predicate Tiled(fs: FsState) {
    forall t :: DATA_START <= t < fs.super.nextFree ==> Live(fs.dir, t)
  }

  lemma TiledNext(s: FsState, name: Name, p: Plan)
    requires Tiled(s) && PlanOk(s, name, p) && p.slot == |s.files|
    ensures Tiled(AfterWrite(s, name, p))
  {
    hide ValidName, CStr, PadName, FindSlot, SectorsFor;
    var s' := AfterWrite(s, name, p);
    forall t | DATA_START <= t < s'.super.nextFree
      ensures Live(s'.dir, t)
    {
      if t >= p.start {
        assert s'.dir[p.dirIndex].used != 0;
      } else {
        assert Live(s.dir, t);
        var k :| 0 <= k < MAX_FILES && s.dir[k].used != 0 && s.dir[k].start <= t < s.dir[k].start + s.dir[k].count;
        assert s'.dir[k] == s.dir[k];
      }
    }
  }

  lemma {:induction false} InstallTiles(d: DiskImage, files: seq<FsFile>, n: nat)
    requires HasRegion(d) && Installable(files) && DistinctNames(files) && n <= |files|
    ensures Tiled(InstallTo(d, files, n).fs)
  {
    if n > 0 {
      hide CopiedTo, InstallNext, Tiled, Apply;
      InstallTiles(d, files, n - 1);
      InstallRefines(d, files, n - 1);
      NextTiles(d, files, n - 1, InstallTo(d, files, n - 1));
    }
  }

  lemma NextTiles(d: DiskImage, files: seq<FsFile>, n: nat, p: Progress)
    requires HasRegion(d) && Installable(files) && DistinctNames(files) && n < |files|
    requires Shaped(p.fs) && HasRegion(p.disk) && CopiedTo(d, files, n, p) && Tiled(p.fs)
    ensures Tiled(InstallNext(p, files[n]).fs)
  {
    hide CopiedTo, Tiled, PlanWrite, WriteTrace, AfterWrite, Apply, PlanOk;
    if p.ok {
      match PlanWrite(p.fs, files[n].name, files[n].data, false)
      case None =>
      case Some(plan) =>
        NewName(d, files, n, p, plan);
        TiledNext(p.fs, files[n].name, plan);
    }
  }

  lemma NotYetCopied(files: seq<FsFile>, n: nat)
    requires DistinctNames(files) && n < |files|
    ensures files[n].name !in PutAll(files[..n])
  {
    PutAllDistinct(files[..n]);
    hide PutAll, Contents;
    if files[n].name in Contents(files[..n]) {
      var i := ContentsIndex(files[..n], files[n].name);
      assert false;
    }
  }

  lemma AbsentIsNew(s: FsState, d: DiskImage, name: Name, p: Plan)
    requires Inv(s, d) && PlanOk(s, name, p) && name !in Contents(s.files)
    ensures p.slot == |s.files|
  {
    hide Linked, DirOk, DiskHolds, Contents, ValidName, FindSlot;
    TableFacts(s, d, name);
  }

  /** With distinct names every copied file takes a new directory entry. */
  lemma NewName(d: DiskImage, files: seq<FsFile>, n: nat, p: Progress, plan: Plan)
    requires HasRegion(d) && Installable(files) && DistinctNames(files) && n < |files|
    requires Shaped(p.fs) && HasRegion(p.disk) && CopiedTo(d, files, n, p) && p.ok
    requires PlanWrite(p.fs, files[n].name, files[n].data, false) == Some(plan)
    ensures PlanOk(p.fs, files[n].name, plan) && plan.slot == |p.fs.files|
  {
    hide Agrees, Apart, DirOk, PlanWrite, PlanOk, Contents, Apply, SectorCounts, PutAll, Sum, AbsAccepts;
    PlanFits(p.fs, p.disk, files[n].name, files[n].data, false);
    NotYetCopied(files, n);
    AbsentIsNew(p.fs, p.disk, files[n].name, plan);
  }

  /** A successful install of files with distinct names keeps the file map and leaves live
      extents that tile the space from the first data sector to next_free_sector. */
  lemma InstallCompacts(d: DiskImage, files: seq<FsFile>)
    requires HasRegion(d) && Installable(files) && DistinctNames(files)
    requires Install(d, files).ok
    ensures var p := Install(d, files);
      && Inv(p.fs, p.disk) && Contents(p.fs.files) == Contents(files)
      && Tiled(p.fs) && p.fs.super.nextFree == DATA_START + Sum(SectorCounts(files))
      && SameOutside(d, p.disk)
  {
    hide Inv, Contents, Tiled, Sum, SectorCounts, Apply, PutAll, InstallTo, AbsAccepts;
    InstallRefines(d, files, |files|);
    InstallTiles(d, files, |files|);
    assert files[..|files|] == files;
    PutAllDistinct(files);
  }

  // ---------- An install cut short ----------

  lemma EmptyEntryBytes()
    ensures EntryBytes(EMPTY_ENTRY) == Zeros(64)
  {
    assert LE32(0) == [0, 0, 0, 0];
    assert Words([0, 0, 0, 0]) == Zeros(16) by {
      assert Words([0]) == Zeros(4);
      assert Words([0, 0]) == Zeros(8);
      assert Words([0, 0, 0]) == Zeros(12);
    }
  }

  lemma {:induction false} PackEmpty(es: seq<DirEntry>)
    requires forall i :: 0 <= i < |es| ==> es[i] == EMPTY_ENTRY
    ensures Pack(es) == Zeros(64 * |es|)
  {
    hide EntryBytes;
    if es != [] {
      PackEmpty(es[1..]);
      EmptyEntryBytes();
      assert Zeros(64) + Zeros(64 * |es[1..]|) == Zeros(64 * |es|);
    }
  }

  lemma EmptyDirSectors(i: nat)
    requires i < DIR_SECTORS
    ensures DirSectors(EmptyDir())[i] == Zeros(SECTOR_LEN)
  {
    PackEmpty(EmptyDir()[8 * i..8 * i + 8]);
  }

  /** While the region is being zeroed nothing mounts. */
  lemma ZeroedUnmountable(d: DiskImage, heap: Heap)
    requires HasRegion(d) && At(d, 0) == Zeros(SECTOR_LEN)
    ensures Mount(d, heap).None?
  {
    var x := At(d, 0);
    assert x[0..4] == Zeros(4);
  }

  /** From the superblock write of a format on, the empty file system is there. */
  lemma FormatCrash(d: DiskImage, k: nat, heap: Heap)
    requires HasRegion(d) && 0 < k <= |FormatTrace()|
    ensures var d' := Apply(d, FormatTrace()[..k]);
      && (k <= FLAREFS_SECTORS ==> Mount(d', heap).None?)
      && (k > FLAREFS_SECTORS ==> Inv(Formatted(), d'))
  {
    hide Mount, DirSectors, SuperSector, BlockTrace, Apply, Zeros, DirOk;
    var zeros, super, dir := ZeroBlocks(FLAREFS_SECTORS), SuperSector(FormattedSuper()), DirSectors(EmptyDir());
    var z, s, t := BlockTrace(0, zeros), SuperTrace(FormattedSuper()), DirTrace(EmptyDir());
    var d' := Apply(d, FormatTrace()[..k]);
    if k <= FLAREFS_SECTORS {
      assert FormatTrace()[..k] == z[..k];
      BlockTracePrefix(0, zeros, k);
      BlockTraceEffect(d, 0, zeros[..k]);
      assert At(d', 0) == zeros[0];
      ZeroedUnmountable(d', heap);
    } else {
      var j := k - FLAREFS_SECTORS - 1;
      assert FormatTrace()[..k] == z + s + t[..j];
      BlockTracePrefix(1, dir, j);
      ApplyAppend(d, z + s, t[..j]);
      ApplyAppend(d, z, s);
      BlockTraceEffect(d, 0, zeros);
      BlockTraceEffect(Apply(d, z), 0, [super]);
      BlockTraceEffect(Apply(Apply(d, z), s), 1, dir[..j]);
      forall i | 0 <= i < DIR_SECTORS
        ensures At(d', 1 + i) == dir[i]
      {
        EmptyDirSectors(i);
        assert zeros[1 + i] == Zeros(SECTOR_LEN);
      }
      assert At(d', 0) == super;
      EmptyDirOk();
    }
  }

  /** What may be found on disk after k of the writes of an install. */
  predicate InstallOutcome(m: Option<FsState>, files: seq<FsFile>, done: nat, k: nat)
    requires done <= |files|
  {
    if k <= FLAREFS_SECTORS then m.None?
    else m.Some? && exists j :: 0 <= j <= done && Contents(m.value.files) == PutAll(files[..j])
  }

  /** An install cut short leaves the old disk (no write yet), a disk that does not mount, or
      exactly the first j files for some j: never a mixture. */
  lemma InstallCrash(d: DiskImage, files: seq<FsFile>, k: nat, heap: Heap)
    requires HasRegion(d) && Installable(files) && k <= |Install(d, files).trace|
    ensures var p := Install(d, files);
      var d' := Apply(d, p.trace[..k]);
      && (k == 0 ==> d' == d)
      && (k > 0 ==> InstallOutcome(Mount(d', heap), files, p.done, k))
  {
    hide InstallTo, InstallOutcome, Mount;
    if k > 0 {
      InstallToCrash(d, files, |files|, k, heap);
    }
  }

  lemma {:induction false} InstallToCrash(d: DiskImage, files: seq<FsFile>, n: nat, k: nat, heap: Heap)
    requires HasRegion(d) && Installable(files) && n <= |files|
    requires 0 < k <= |InstallTo(d, files, n).trace|
    ensures var p := InstallTo(d, files, n);
      InstallOutcome(Mount(Apply(d, p.trace[..k]), heap), files, p.done, k)
  {
    hide Mount, Apply, FormatTrace, InstallNext, CopiedTo, Contents, PutAll;
    if n == 0 {
      InstallStartCrash(d, files, k, heap);
    } else {
      InstallRefines(d, files, n - 1);
      var p := InstallTo(d, files, n - 1);
      if 0 < k <= |p.trace| {
        InstallToCrash(d, files, n - 1, k, heap);
      }
      NextCrash(d, files, n - 1, p, k, heap);
    }
  }

  lemma NextCrash(d: DiskImage, files: seq<FsFile>, n: nat, p: Progress, k: nat, heap: Heap)
    requires HasRegion(d) && Installable(files) && n < |files|
    requires Shaped(p.fs) && HasRegion(p.disk) && CopiedTo(d, files, n, p)
    requires 0 < k <= |InstallNext(p, files[n]).trace|
    requires k <= |p.trace| ==> InstallOutcome(Mount(Apply(d, p.trace[..k]), heap), files, p.done, k)
    ensures var r := InstallNext(p, files[n]);
      InstallOutcome(Mount(Apply(d, r.trace[..k]), heap), files, r.done, k)
  {
    hide Mount, Apply, PlanWrite, WriteTrace, AfterWrite, Contents, PutAll, Refines, AbsAccepts;
    var r := InstallNext(p, files[n]);
    if k <= |p.trace| {
      assert r.trace[..k] == p.trace[..k];
    } else {
      InstallNextCrash(d, files, n, p, PlanWrite(p.fs, files[n].name, files[n].data, false).value, k, heap);
    }
  }

  lemma InstallStartCrash(d: DiskImage, files: seq<FsFile>, k: nat, heap: Heap)
    requires HasRegion(d) && 0 < k <= |FormatTrace()|
    ensures InstallOutcome(Mount(Apply(d, FormatTrace()[..k]), heap), files, 0, k)
  {
    FormatCrash(d, k, heap);
    if k > FLAREFS_SECTORS {
      hide Mount, Apply, FormatTrace, Inv;
      RemountSame(Formatted(), Apply(d, FormatTrace()[..k]), heap);
      ContentsEmpty();
      assert files[..0] == [];
    }
  }

  lemma InstallNextCrash(d: DiskImage, files: seq<FsFile>, n: nat, p: Progress, plan: Plan, k: nat, heap: Heap)
    requires HasRegion(d) && Installable(files) && n < |files|
    requires Shaped(p.fs) && HasRegion(p.disk) && p.done == n && p.ok
    requires Refines(State(p.fs, p.disk), AbsOf(files[..n])) && p.disk == Apply(d, p.trace)
    requires |p.trace| > FLAREFS_SECTORS
    requires PlanWrite(p.fs, files[n].name, files[n].data, false) == Some(plan)
    requires |p.trace| < k <= |p.trace + WriteTrace(p.fs, files[n].name, plan)|
    ensures InstallOutcome(Mount(Apply(d, (p.trace + WriteTrace(p.fs, files[n].name, plan))[..k]), heap), files,
      n + 1, k)
  {
    hide Mount, Apply, PlanWrite, WriteTrace, Inv, Contents, SectorCounts, Sum;
    var f := files[n];
    var t := WriteTrace(p.fs, f.name, plan);
    var j := k - |p.trace|;
    assert (p.trace + t)[..k] == p.trace + t[..j];
    ApplyAppend(d, p.trace, t[..j]);
    WriteCrashAtomic(p.fs, p.disk, f.name, f.data, false, plan, j, heap);
    assert files[..n + 1][..n] == files[..n];
    assert PutAll(files[..n + 1]) == PutAll(files[..n])[f.name := f.data];
    assert FinalData(p.fs, f.name, f.data, false) == f.data;
  }
}
