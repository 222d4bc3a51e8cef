/** Whole runs of FlareFS refine a map that is put to, appended to and deleted from. */
module FlareFsRuns {
  import opened Machine
  import opened FlareLayout
  import opened FlareFsModel
  import opened FlareFsInvariant
  import opened FlareFsCrash

  datatype State = State(fs: FsState, disk: DiskImage)

  datatype Op = Put(name: Name, data: seq<Byte>, append: bool) | Remove(name: Name) | Remount(heap: Heap) | Format

  /** The sector writes of one call. */
  function OpTrace(fs: FsState, op: Op): seq<SectorWrite>
    requires Shaped(fs)
  {
    match op
    case Put(name, data, append) =>
      (match PlanWrite(fs, name, data, append)
       case None => []
       case Some(p) => WriteTrace(fs, name, p))
    case Remove(name) =>
      var slot := RemoveSlot(fs, name);
      if slot < 0 then [] else RemoveTrace(fs, slot)
    case Remount(_) => []
    case Format => FormatTrace()
  }

  /** One call with every disk transfer succeeding. */
  function Step(st: State, op: Op): State
    requires Shaped(st.fs) && HasRegion(st.disk)
  {
    var fs := st.fs;
    var disk := Apply(st.disk, OpTrace(fs, op));
    match op
    case Put(name, data, append) =>
      (match PlanWrite(fs, name, data, append)
       case None => st
       case Some(p) => State(AfterWrite(fs, name, p), disk))
    case Remove(name) =>
      var slot := RemoveSlot(fs, name);
      if slot < 0 then st else State(AfterRemove(fs, slot), disk)
    case Remount(heap) =>
      (match Mount(st.disk, heap)
       case None => State(Unmounted(), st.disk)
       case Some(m) => State(m, st.disk))
    case Format => State(Formatted(), disk)
  }

  // ---------- The abstract file system ----------

  /** A map, and the sectors taken by each successful write since the last format. */
  datatype Abs = Abs(files: map<Name, seq<Byte>>, writes: seq<nat>)

  function Sum(xs: seq<nat>): nat {
    if xs == [] then 0 else Sum(xs[..|xs| - 1]) + xs[|xs| - 1]
  }

  function AbsFinal(a: Abs, name: Name, data: seq<Byte>, append: bool): seq<Byte> {
    if append && name in a.files then a.files[name] + data else data
  }

  /** A write is accepted when the name is valid, the table has room and the log has space. */
  predicate AbsAccepts(a: Abs, name: Name, data: seq<Byte>, append: bool) {
    && ValidName(name)
    && (name in a.files || |a.files| < MAX_FILES)
    && DATA_START + Sum(a.writes) + SectorsFor(|AbsFinal(a, name, data, append)|) <= FLAREFS_SECTORS
  }

  function AbsStep(a: Abs, op: Op): Abs {
    match op
    case Put(name, data, append) =>
      if AbsAccepts(a, name, data, append) then
        var final := AbsFinal(a, name, data, append);
        Abs(a.files[name := final], a.writes + [SectorsFor(|final|)])
      else a
    case Remove(name) => a.(files := a.files - {name})
    case Remount(_) => a
    case Format => Abs(map[], [])
  }

  /** Memory, disk and abstract map agree, and no sector is unaccounted for. */
  predicate Refines(st: State, a: Abs) {
    && Shaped(st.fs) && HasRegion(st.disk)
    && Inv(st.fs, st.disk)
    && Contents(st.fs.files) == a.files
    && st.fs.super.nextFree == DATA_START + Sum(a.writes)
  }

  predicate OpOk(op: Op) {
    op.Put? ==> |op.data| <= MAX_MEMORY
  }

  // ---------- Counting files ----------

  lemma ContentsEmpty()
    ensures Contents([]) == map[]
  {
  }

  lemma {:induction false} ContentsSize(files: seq<FsFile>)
    requires DistinctNames(files)
    ensures |Contents(files)| == |files|
    decreases |files|
  {
    hide Contents, WithoutSlot;
    if files == [] {
      ContentsEmpty();
    } else {
      var n := |files| - 1;
      var rest := WithoutSlot(files, n);
      ContentsSize(rest);
      ContentsDrop(files, n);
      ContentsAt(files, n);
      assert Contents(files).Keys == Contents(rest).Keys + {files[n].name};
    }
  }

  /** If every index below n is listed there are at least n files. */
  lemma {:induction false} Covered(files: seq<FsFile>, n: nat)
    requires forall k :: 0 <= k < n ==> Listed(files, k)
    ensures |files| >= n
  {
    if n > 0 {
      assert Listed(files, n - 1);
      var j: nat :| j < |files| && files[j].dirIndex == n - 1;
      var rest := WithoutSlot(files, j);
      hide WithoutSlot;
      forall k | 0 <= k < n - 1
        ensures Listed(rest, k)
      {
        assert Listed(files, k);
        var i :| 0 <= i < |files| && files[i].dirIndex == k;
        assert rest[if i < j then i else i - 1] == files[i];
      }
      Covered(rest, n - 1);
    }
  }

  /** A table with fewer than 32 files leaves a directory entry free. */
  lemma FreeEntryExists(fs: FsState, d: DiskImage)
    requires Inv(fs, d)
    ensures |fs.files| < MAX_FILES ==> FreeEntry(fs.dir, MAX_FILES) < MAX_FILES
  {
    hide DirOk, DiskHolds, Content, CStr;
    if FreeEntry(fs.dir, MAX_FILES) == MAX_FILES {
      assert forall k :: 0 <= k < MAX_FILES ==> Listed(fs.files, k);
      Covered(fs.files, MAX_FILES);
    }
  }

  // ---------- One step ----------

  lemma FindSlotIffMember(files: seq<FsFile>, name: Name)
    requires DistinctNames(files)
    ensures FindSlot(files, name) >= 0 <==> name in Contents(files)
    ensures name in Contents(files) ==> Contents(files)[name] == files[FindSlot(files, name)].data
  {
    if name in Contents(files) {
      var i := ContentsIndex(files, name);
    }
    var slot := FindSlot(files, name);
    if slot >= 0 {
      ContentsAt(files, slot);
    }
  }

  /** What a name lookup and the free-entry search say about the abstract map. */
  lemma TableFacts(fs: FsState, d: DiskImage, name: Name)
    requires Inv(fs, d)
    ensures FindSlot(fs.files, name) >= 0 <==> name in Contents(fs.files)
    ensures name in Contents(fs.files) ==> Contents(fs.files)[name] == fs.files[FindSlot(fs.files, name)].data
    ensures |Contents(fs.files)| == |fs.files|
    ensures |fs.files| < MAX_FILES ==> FreeEntry(fs.dir, MAX_FILES) < MAX_FILES
  {
    DirOkWeaken(fs.dir, fs.super.nextFree);
    LinkedNames(fs.files, fs.dir, d);
    hide Linked, DirOk, DiskHolds, Contents, FindSlot, FreeEntry;
    FindSlotIffMember(fs.files, name);
    ContentsSize(fs.files);
    FreeEntryExists(fs, d);
  }

  /** The checks of a write, one by one. */
  lemma PlanIff(fs: FsState, name: Name, data: seq<Byte>, append: bool)
    requires Shaped(fs) && fs.writable
    ensures PlanWrite(fs, name, data, append).Some? <==>
      && ValidName(name)
      && (FindSlot(fs.files, name) >= 0
        || (FreeEntry(fs.dir, fs.super.dirEntries) < fs.super.dirEntries && |fs.files| < MAX_FILES))
      && (fs.super.nextFree + CountFor(|FinalData(fs, name, data, append)|)) % 0x1_0000_0000 <= fs.super.totalSectors
  {
    hide FindSlot, FreeEntry, ValidName, CountFor, FinalData;
  }

  lemma FinalAgrees(st: State, a: Abs, name: Name, data: seq<Byte>, append: bool)
    requires Refines(st, a)
    ensures FinalData(st.fs, name, data, append) == AbsFinal(a, name, data, append)
  {
    hide Agrees, DirOk, Apart, Contents, FindSlot, FreeEntry, Sum;
    TableFacts(st.fs, st.disk, name);
  }

  /** What the invariant says about the superblock. */
  lemma SuperFacts(s: FsState, d: DiskImage)
    requires Agrees(s, d)
    ensures Shaped(s) && s.writable && HasRegion(d)
    ensures s.super.dirEntries == MAX_FILES && s.super.totalSectors == FLAREFS_SECTORS
    ensures DATA_START <= s.super.nextFree <= FLAREFS_SECTORS
  {
    hide Linked, DirOk, DiskHolds;
  }

  /** The code accepts a write exactly when the abstract file system does. */
  lemma AcceptsIff(st: State, a: Abs, name: Name, data: seq<Byte>, append: bool)
    requires Refines(st, a) && |data| <= MAX_MEMORY
    ensures PlanWrite(st.fs, name, data, append).Some? <==> AbsAccepts(a, name, data, append)
    ensures FinalData(st.fs, name, data, append) == AbsFinal(a, name, data, append)
  {
    hide Agrees, DirOk, Apart, Contents, FindSlot, FreeEntry, ValidName, CountFor, Sum, PlanWrite, AbsFinal, FinalData,
      Shaped, SectorsFor;
    SuperFacts(st.fs, st.disk);
    PlanIff(st.fs, name, data, append);
    FinalAgrees(st, a, name, data, append);
    TableFacts(st.fs, st.disk, name);
    FinalDataBound(st.fs, st.disk, name, data, append);
    CountExact(|FinalData(st.fs, name, data, append)|);
    SmallCount(st.fs.super.nextFree, |FinalData(st.fs, name, data, append)|);
  }

  lemma SmallCount(next: nat, size: nat)
    requires next <= FLAREFS_SECTORS && size <= MAX_MEMORY + 0x1_0000_0000
    ensures (next + SectorsFor(size)) % 0x1_0000_0000 == next + SectorsFor(size)
  {
  }

  lemma SumAppend(xs: seq<nat>, x: nat)
    ensures Sum(xs + [x]) == Sum(xs) + x
  {
    assert (xs + [x])[..|xs|] == xs;
  }

  lemma PutAccepted(st: State, a: Abs, name: Name, p: Plan)
    requires Refines(st, a) && PlanOk(st.fs, name, p)
    ensures Refines(State(AfterWrite(st.fs, name, p), Apply(st.disk, WriteTrace(st.fs, name, p))),
                    Abs(a.files[name := p.data], a.writes + [SectorsFor(|p.data|)]))
  {
    hide Linked, DirOk, DiskHolds, Contents, WriteTrace, Apply, AfterWrite, Sum, GoodSuper;
    PlanParts(st.fs, name, p);
    WriteCompletes(st.fs, st.disk, name, p);
    SumAppend(a.writes, p.count);
  }

  lemma PutRefines(st: State, a: Abs, name: Name, data: seq<Byte>, append: bool)
    requires Refines(st, a) && |data| <= MAX_MEMORY
    ensures Refines(Step(st, Put(name, data, append)), AbsStep(a, Put(name, data, append)))
  {
    hide PlanWrite, Linked, DirOk, DiskHolds, Contents, WriteTrace, FinalData, AbsFinal, PlanOk, AbsAccepts, Apply,
      AfterWrite, SectorsFor, Sum;
    AcceptsIff(st, a, name, data, append);
    match PlanWrite(st.fs, name, data, append)
    case None =>
    case Some(p) =>
      PlanFits(st.fs, st.disk, name, data, append);
      hide Refines, Inv;
      PutAccepted(st, a, name, p);
  }

  lemma PlanParts(s: FsState, name: Name, p: Plan)
    requires PlanOk(s, name, p)
    ensures p.start == s.super.nextFree && p.count == SectorsFor(|p.data|) && p.start + p.count <= FLAREFS_SECTORS
    ensures AfterWrite(s, name, p).super.nextFree == p.start + p.count
  {
  }

  lemma RemoveRefines(st: State, a: Abs, name: Name)
    requires Refines(st, a)
    ensures Refines(Step(st, Remove(name)), AbsStep(a, Remove(name)))
  {
    hide Linked, DirOk, DiskHolds, Contents, Apply, RemoveTrace, WithoutSlot, Sum;
    var slot := RemoveSlot(st.fs, name);
    if slot >= 0 {
      var t := RemoveTrace(st.fs, slot);
      RemoveCrashAtomic(st.fs, st.disk, name, slot, |t|);
      assert t[..|t|] == t;
    } else {
      TableFacts(st.fs, st.disk, name);
      assert a.files - {name} == a.files;
    }
  }

  lemma EmptyDirOk()
    ensures DirOk(EmptyDir(), DATA_START) && DirOk(EmptyDir(), FLAREFS_SECTORS) && Apart(EmptyDir())
  {
  }

  /** Formatting any disk gives the empty file system. */
  lemma FormatRefines(st: State)
    requires HasRegion(st.disk) && Shaped(st.fs)
    ensures Refines(Step(st, Format), Abs(map[], []))
    ensures SameOutside(st.disk, Step(st, Format).disk)
  {
    EmptyDirOk();
    hide ZeroBlocks, DirSectors, SuperSector, DirOk;
    var d := st.disk;
    var z, s, t := BlockTrace(0, ZeroBlocks(FLAREFS_SECTORS)), SuperTrace(FormattedSuper()), DirTrace(EmptyDir());
    ApplyAppend(d, z + s, t);
    ApplyAppend(d, z, s);
    BlockTraceEffect(d, 0, ZeroBlocks(FLAREFS_SECTORS));
    BlockTraceEffect(Apply(d, z), 0, [SuperSector(FormattedSuper())]);
    BlockTraceEffect(Apply(Apply(d, z), s), 1, DirSectors(EmptyDir()));
    assert Contents([]) == map[];
  }

  lemma StepRefines(st: State, a: Abs, op: Op)
    requires Refines(st, a) && OpOk(op)
    ensures Refines(Step(st, op), AbsStep(a, op))
  {
    match op
    case Put(name, data, append) => PutRefines(st, a, name, data, append);
    case Remove(name) => RemoveRefines(st, a, name);
    case Remount(heap) => RemountSame(st.fs, st.disk, heap);
    case Format => FormatRefines(st);
  }

  // ---------- Runs ----------

  function Run(st: State, ops: seq<Op>): (r: State)
    requires Shaped(st.fs) && HasRegion(st.disk)
    ensures Shaped(r.fs) && HasRegion(r.disk)
  {
    if ops == [] then st
    else
      var before := Run(st, ops[..|ops| - 1]);
      StepShaped(before, ops[|ops| - 1]);
      Step(before, ops[|ops| - 1])
  }

  lemma StepShaped(st: State, op: Op)
    requires Shaped(st.fs) && HasRegion(st.disk)
    ensures Shaped(Step(st, op).fs) && HasRegion(Step(st, op).disk)
  {
    hide Apply, OpTrace, FinalData, CountFor, FindSlot, FreeEntry, ValidName, NewEntry, ScanTo, DirOf, SuperOf,
      RemoveSlot, WithoutSlot, WithSlot;
    match op
    case Put(name, data, append) =>
    case Remove(name) =>
    case Remount(heap) =>
    case Format =>
  }

  function AbsRun(a: Abs, ops: seq<Op>): Abs {
    if ops == [] then a else AbsStep(AbsRun(a, ops[..|ops| - 1]), ops[|ops| - 1])
  }

  /** Every run of put, append, remove, remount and format refines the abstract run. */
  lemma {:induction false} RunRefines(st: State, a: Abs, ops: seq<Op>)
    requires Refines(st, a) && forall i :: 0 <= i < |ops| ==> OpOk(ops[i])
    ensures Refines(Run(st, ops), AbsRun(a, ops))
  {
    if ops != [] {
      var n := |ops| - 1;
      RunRefines(st, a, ops[..n]);
      StepRefines(Run(st, ops[..n]), AbsRun(a, ops[..n]), ops[n]);
    }
  }

  /** From a format on: any run refines the abstract run from the empty map. */
  lemma RunFromFormat(st: State, ops: seq<Op>)
    requires Shaped(st.fs) && HasRegion(st.disk)
    requires forall i :: 0 <= i < |ops| ==> OpOk(ops[i])
    ensures Refines(Run(Step(st, Format), ops), AbsRun(Abs(map[], []), ops))
  {
    hide Refines, Step, AbsStep, Run, AbsRun;
    FormatRefines(st);
    StepShaped(st, Format);
    RunRefines(Step(st, Format), Abs(map[], []), ops);
  }

  /** Live extents never overlap, and no sector of the region is lost: the log's end is the data
      area's start plus the sectors of the writes. The open files and the used directory entries
      correspond one to one, by name. */
  ghost predicate Conserved(fs: FsState, writes: seq<nat>) {
    && fs.super.nextFree == DATA_START + Sum(writes) <= FLAREFS_SECTORS
    && (forall k :: 0 <= k < MAX_FILES && fs.dir[k].used != 0 ==>
          DATA_START <= fs.dir[k].start && fs.dir[k].start + fs.dir[k].count <= fs.super.nextFree)
    && (forall j, k :: 0 <= j < k < MAX_FILES && fs.dir[j].used != 0 && fs.dir[k].used != 0 ==>
          DisjointExtents(fs.dir[j], fs.dir[k]))
    && (forall i :: 0 <= i < |fs.files| ==>
          var k := fs.files[i].dirIndex;
          k < MAX_FILES && fs.dir[k].used != 0 && CStr(fs.dir[k].name) == fs.files[i].name)
    && (forall k :: 0 <= k < MAX_FILES && fs.dir[k].used != 0 ==> Listed(fs.files, k))
    && (forall i, j :: 0 <= i < j < |fs.files| ==> fs.files[i].dirIndex != fs.files[j].dirIndex)
    && DistinctNames(fs.files)
  }

  /** After every run since a format, with `writes` the sectors of every successful write. */
  lemma ExtentsConserved(st: State, ops: seq<Op>)
    requires Shaped(st.fs) && HasRegion(st.disk)
    requires forall i :: 0 <= i < |ops| ==> OpOk(ops[i])
    ensures Conserved(Run(Step(st, Format), ops).fs, AbsRun(Abs(map[], []), ops).writes)
  {
    RunFromFormat(st, ops);
    ExtentsOf(Run(Step(st, Format), ops), AbsRun(Abs(map[], []), ops));
  }

  lemma ExtentsOf(st: State, a: Abs)
    requires Refines(st, a)
    ensures Conserved(st.fs, a.writes)
  {
    DirOkWeaken(st.fs.dir, st.fs.super.nextFree);
    LinkedNames(st.fs.files, st.fs.dir, st.disk);
  }

  /** A crash after any number of the sector writes of the call that follows a run: the disk
      mounts as the files before that call or as the files after it. */
  lemma CrashInRun(st: State, a: Abs, ops: seq<Op>, op: Op, k: nat, heap: Heap)
    requires Refines(st, a) && (forall i :: 0 <= i < |ops| ==> OpOk(ops[i]))
    requires (op.Put? || op.Remove?) && OpOk(op)
    requires k <= |OpTrace(Run(st, ops).fs, op)|
    ensures var now := Run(st, ops);
      var m := Mount(Apply(now.disk, OpTrace(now.fs, op)[..k]), heap);
      && m.Some?
      && (Contents(m.value.files) == AbsRun(a, ops).files || Contents(m.value.files) == AbsRun(a, ops + [op]).files)
  {
    RunRefines(st, a, ops);
    assert (ops + [op])[..|ops|] == ops;
    CrashInStep(Run(st, ops), AbsRun(a, ops), op, k, heap);
  }

  lemma CrashInStep(st: State, a: Abs, op: Op, k: nat, heap: Heap)
    requires Refines(st, a) && (op.Put? || op.Remove?) && OpOk(op)
    requires k <= |OpTrace(st.fs, op)|
    ensures var m := Mount(Apply(st.disk, OpTrace(st.fs, op)[..k]), heap);
      && m.Some?
      && (Contents(m.value.files) == a.files || Contents(m.value.files) == AbsStep(a, op).files)
  {
    hide Linked, DirOk, DiskHolds, Contents, PlanWrite, WriteTrace, RemoveTrace, AfterWrite, AfterRemove, Mount, Apply,
      AbsAccepts, RemoveSlot;
    var t := OpTrace(st.fs, op);
    match op
    case Put(name, data, append) =>
      AcceptsIff(st, a, name, data, append);
      match PlanWrite(st.fs, name, data, append) {
        case None =>
          ApplyNothing(st.disk);
          RemountSame(st.fs, st.disk, heap);
        case Some(p) =>
          WriteCrashAtomic(st.fs, st.disk, name, data, append, p, k, heap);
      }
    case Remove(name) =>
      var slot := RemoveSlot(st.fs, name);
      if slot < 0 {
        ApplyNothing(st.disk);
        RemountSame(st.fs, st.disk, heap);
      } else {
        RemoveCrashAtomic(st.fs, st.disk, name, slot, k);
        var fs := if k <= st.fs.files[slot].dirIndex / 8 then st.fs else AfterRemove(st.fs, slot);
        RemountSame(fs, Apply(st.disk, t[..k]), heap);
      }
  }

  lemma ApplyNothing(d: DiskImage)
    ensures Apply(d, []) == d
  {
  }
}
