/** Life after a crash: runs with any number of them, and the damage a stale superblock does. */
module FlareFsRecovery {
  import opened Machine
  import opened FlareLayout
  import opened FlareFsModel
  import opened FlareFsInvariant
  import opened FlareFsCrash
  import opened FlareFsRuns

  // ---------- Runs with crashes ----------

  /** A call, or a call cut short after k of its sector writes and the remount that follows. */
  datatype Event = Call(op: Op) | Cut(op: Op, k: nat, heap: Heap)

  function Prefix(t: seq<SectorWrite>, k: nat): seq<SectorWrite> {
    if k <= |t| then t[..k] else t
  }

  function Remounted(d: DiskImage, heap: Heap): State
    requires HasRegion(d)
  {
    match Mount(d, heap)
    case None => State(Unmounted(), d)
    case Some(m) => State(m, d)
  }

  function Happen(st: State, e: Event): State
    requires Shaped(st.fs) && HasRegion(st.disk)
  {
    match e
    case Call(op) => Step(st, op)
    case Cut(op, k, heap) => Remounted(Apply(st.disk, Prefix(OpTrace(st.fs, op), k)), heap)
  }

  /** The interrupted call has written the one directory sector it changes. */
  predicate Took(fs: FsState, op: Op, k: nat)
    requires Shaped(fs)
  {
    match op
    case Put(name, data, append) =>
      var plan := PlanWrite(fs, name, data, append);
      plan.Some? && k > plan.value.count + plan.value.dirIndex / 8
    case Remove(name) =>
      var slot := RemoveSlot(fs, name);
      slot >= 0 && k > fs.files[slot].dirIndex / 8
    case _ => false
  }

  /** The cut falls between that sector and the superblock of a write. */
  predicate InWindow(fs: FsState, op: Op, k: nat)
    requires Shaped(fs)
  {
    && op.Put? && Took(fs, op, k)
    && k <= PlanWrite(fs, op.name, op.data, op.append).value.count + DIR_SECTORS
  }

  predicate EventOk(e: Event) {
    OpOk(e.op) && (e.Cut? ==> e.op.Put? || e.op.Remove?)
  }

  lemma NothingCut(t: seq<SectorWrite>, k: nat)
    ensures Prefix(t, |t|) == t && (k > |t| ==> Prefix(t, k) == Prefix(t, |t|))
    ensures Prefix([], k) == []
  {
  }

  /** A cut write outside the window is a whole write or none. */
  lemma CutPut(st: State, a: Abs, op: Op, p: Plan, k: nat, heap: Heap)
    requires Refines(st, a) && op.Put? && OpOk(op) && PlanWrite(st.fs, op.name, op.data, op.append) == Some(p)
    requires k <= |OpTrace(st.fs, op)| && !InWindow(st.fs, op, k)
    ensures Refines(Happen(st, Cut(op, k, heap)), if Took(st.fs, op, k) then AbsStep(a, op) else a)
  {
    hide Inv, PlanWrite, WriteTrace, Mount, Contents, FinalData, AbsAccepts, Apply, AfterWrite, Sum;
    var d' := Apply(st.disk, WriteTrace(st.fs, op.name, p)[..k]);
    CutFits(st, op, p);
    AcceptsIff(st, a, op.name, op.data, op.append);
    CrashedIsApply(st.fs, st.disk, op.name, p, k);
    if Took(st.fs, op, k) {
      WholeTrace(st.fs, st.disk, op.name, p);
      PutAccepted(st, a, op.name, p);
      RefinesRemounted(State(AfterWrite(st.fs, op.name, p), d'), AbsStep(a, op), heap);
    } else {
      CutBefore(st, a, op.name, p, k);
      RefinesRemounted(State(st.fs, d'), a, heap);
    }
  }

  lemma CutFits(st: State, op: Op, p: Plan)
    requires Shaped(st.fs) && op.Put? && OpOk(op) && Inv(st.fs, st.disk)
    requires PlanWrite(st.fs, op.name, op.data, op.append) == Some(p)
    ensures PlanOk(st.fs, op.name, p) && p.data == FinalData(st.fs, op.name, op.data, op.append)
    ensures OpTrace(st.fs, op) == WriteTrace(st.fs, op.name, p)
  {
    hide Agrees, Apart, DirOk, PlanWrite, FinalData, PlanOk, WriteTrace;
    PlanFits(st.fs, st.disk, op.name, op.data, op.append);
  }

  lemma WholeTrace(s: FsState, d: DiskImage, name: Name, p: Plan)
    requires Inv(s, d) && PlanOk(s, name, p)
    ensures |WriteTrace(s, name, p)| == p.count + DIR_SECTORS + 1
    ensures WriteTrace(s, name, p)[..|WriteTrace(s, name, p)|] == WriteTrace(s, name, p)
  {
    hide WriteTrace, Apply, Agrees, DiskHolds;
    CrashedSectors(s, d, name, p, 0);
  }

  lemma CutBefore(st: State, a: Abs, name: Name, p: Plan, k: nat)
    requires Refines(st, a) && PlanOk(st.fs, name, p) && k <= |WriteTrace(st.fs, name, p)| && Before(p, k)
    ensures Refines(State(st.fs, Apply(st.disk, WriteTrace(st.fs, name, p)[..k])), a)
  {
    hide Agrees, Apart, DirOk, Apply, WriteTrace, Contents, Sum, PlanOk, Before;
    CrashedBefore(st.fs, st.disk, name, p, k);
    CrashedIsApply(st.fs, st.disk, name, p, k);
    StillRegion(st.fs, Crashed(st.fs, st.disk, name, p, k));
  }

  lemma StillRegion(s: FsState, d: DiskImage)
    requires Inv(s, d)
    ensures HasRegion(d) && Shaped(s)
  {
  }

  lemma RefinesRemounted(st: State, a: Abs, heap: Heap)
    requires Refines(st, a)
    ensures Refines(Remounted(st.disk, heap), a)
  {
    hide Agrees, Apart, DirOk, Mount, Contents, Sum;
    RemountSame(st.fs, st.disk, heap);
    StillRegion(Mount(st.disk, heap).value, st.disk);
  }

  /** A cut remove is a whole remove or none. */
  lemma CutRemove(st: State, a: Abs, name: Name, slot: nat, k: nat, heap: Heap)
    requires Refines(st, a) && RemoveSlot(st.fs, name) == slot && k <= |OpTrace(st.fs, Remove(name))|
    ensures Refines(Happen(st, Cut(Remove(name), k, heap)),
      if Took(st.fs, Remove(name), k) then AbsStep(a, Remove(name)) else a)
  {
    hide Agrees, Apart, DirOk, Mount, Contents, Sum, Apply, RemoveTrace, WithoutSlot, RemoveSlot;
    RemoveCrashAtomic(st.fs, st.disk, name, slot, k);
    var d' := Apply(st.disk, RemoveTrace(st.fs, slot)[..k]);
    var s' := if k <= st.fs.files[slot].dirIndex / 8 then st.fs else AfterRemove(st.fs, slot);
    StillRegion(s', d');
    RefinesRemounted(State(s', d'), if Took(st.fs, Remove(name), k) then AbsStep(a, Remove(name)) else a, heap);
  }

  lemma CutNothing(st: State, a: Abs, heap: Heap)
    requires Refines(st, a)
    ensures HasRegion(Apply(st.disk, []))
    ensures Refines(Remounted(Apply(st.disk, []), heap), a)
  {
    hide Inv, Contents, Sum, Mount;
    ApplyNothing(st.disk);
    RefinesRemounted(st, a, heap);
  }

  /** A crash outside the window leaves what the interrupted call would have left, or what it found. */
  lemma CutRefines(st: State, a: Abs, op: Op, k: nat, heap: Heap)
    requires Refines(st, a) && EventOk(Cut(op, k, heap)) && !InWindow(st.fs, op, k)
    ensures Refines(Happen(st, Cut(op, k, heap)), if Took(st.fs, op, k) then AbsStep(a, op) else a)
  {
    hide Inv, Contents, Sum, Apply, Mount, AbsAccepts, PlanWrite, RemoveSlot, WriteTrace, RemoveTrace, AbsStep;
    var t := OpTrace(st.fs, op);
    NothingCut(t, k);
    if k > |t| {
      AllOrShort(st, op, k);
    }
    var j := if k <= |t| then k else |t|;
    match op
    case Put(name, data, append) =>
      match PlanWrite(st.fs, name, data, append) {
        case None => CutNothing(st, a, heap);
        case Some(p) => CutPut(st, a, op, p, j, heap);
      }
    case Remove(name) =>
      if RemoveSlot(st.fs, name) < 0 {
        CutNothing(st, a, heap);
      } else {
        CutRemove(st, a, name, RemoveSlot(st.fs, name), j, heap);
      }
  }

  /** Cutting behind the last write is not cutting. */
  lemma AllOrShort(st: State, op: Op, k: nat)
    requires Shaped(st.fs) && Inv(st.fs, st.disk) && OpOk(op) && (op.Put? || op.Remove?) && k > |OpTrace(st.fs, op)|
    ensures var n := |OpTrace(st.fs, op)|;
      Took(st.fs, op, n) == Took(st.fs, op, k)
      && InWindow(st.fs, op, n) == InWindow(st.fs, op, k)
  {
    hide Agrees, Apart, DirOk, PlanWrite, WriteTrace, PlanOk;
    if op.Put? {
      var plan := PlanWrite(st.fs, op.name, op.data, op.append);
      if plan.Some? {
        CutFits(st, op, plan.value);
        WholeTrace(st.fs, st.disk, op.name, plan.value);
        IndexBound(st.fs, op.name, plan.value);
      }
    }
  }

  lemma IndexBound(s: FsState, name: Name, p: Plan)
    requires PlanOk(s, name, p)
    ensures p.dirIndex / 8 < DIR_SECTORS
  {
  }

  lemma EventShaped(st: State, e: Event)
    requires Shaped(st.fs) && HasRegion(st.disk)
    ensures Shaped(Happen(st, e).fs) && HasRegion(Happen(st, e).disk)
  {
    hide OpTrace, Step;
    match e
    case Call(op) => StepShaped(st, op);
    case Cut(op, k, heap) =>
  }

  function RunAll(st: State, es: seq<Event>): (r: State)
    requires Shaped(st.fs) && HasRegion(st.disk)
    ensures Shaped(r.fs) && HasRegion(r.disk)
    decreases |es|
  {
    if es == [] then st else EventShaped(st, es[0]); RunAll(Happen(st, es[0]), es[1..])
  }

  /** Every event is a proper one, and no cut falls into the window. */
  predicate AllOutside(st: State, es: seq<Event>)
    requires Shaped(st.fs) && HasRegion(st.disk)
    decreases |es|
  {
    es == [] || (
      && EventOk(es[0]) && (es[0].Cut? ==> !InWindow(st.fs, es[0].op, es[0].k))
      && (EventShaped(st, es[0]); AllOutside(Happen(st, es[0]), es[1..])))
  }

  /** The calls that were made or, though cut short, took effect. */
  function Done(st: State, es: seq<Event>): seq<Op>
    requires Shaped(st.fs) && HasRegion(st.disk)
    decreases |es|
  {
    if es == [] then []
    else
      EventShaped(st, es[0]);
      (if es[0].Call? || Took(st.fs, es[0].op, es[0].k) then [es[0].op] else []) + Done(Happen(st, es[0]), es[1..])
  }

  lemma EventRefines(st: State, a: Abs, e: Event)
    requires Refines(st, a) && EventOk(e) && (e.Cut? ==> !InWindow(st.fs, e.op, e.k))
    ensures Refines(Happen(st, e), if e.Call? || Took(st.fs, e.op, e.k) then AbsStep(a, e.op) else a)
  {
    hide Inv, Contents, Sum, Step, AbsStep, OpTrace, Took, InWindow, Apply;
    match e
    case Call(op) => StepRefines(st, a, op);
    case Cut(op, k, heap) => CutRefines(st, a, op, k, heap);
  }

  lemma {:induction false} AbsRunFirst(a: Abs, op: Op, ops: seq<Op>)
    ensures AbsRun(a, [op] + ops) == AbsRun(AbsStep(a, op), ops)
    decreases |ops|
  {
    hide AbsStep;
    if ops == [] {
      assert [op] + [] == [op] && [op][..0] == [];
      assert AbsRun(a, [op]) == AbsStep(AbsRun(a, []), op);
    } else {
      var n := |ops| - 1;
      assert ([op] + ops)[..n + 1] == [op] + ops[..n];
      AbsRunFirst(a, op, ops[..n]);
    }
  }

  /** Runs with any number of crashes outside the window refine the abstract run of the calls that
      took effect. */
  lemma {:induction false} CrashingRunRefines(st: State, a: Abs, es: seq<Event>)
    requires Refines(st, a) && AllOutside(st, es)
    ensures Refines(RunAll(st, es), AbsRun(a, Done(st, es)))
    decreases |es|
  {
    hide Inv, Contents, Sum, Happen, AbsStep, Took, InWindow, AbsRun;
    if es == [] {
      NoRun(a);
    } else {
      EventShaped(st, es[0]);
      EventRefines(st, a, es[0]);
      var d := Happen(st, es[0]);
      var took := es[0].Call? || Took(st.fs, es[0].op, es[0].k);
      CrashingRunRefines(d, if took then AbsStep(a, es[0].op) else a, es[1..]);
      if took {
        AbsRunFirst(a, es[0].op, Done(d, es[1..]));
      } else {
        assert [] + Done(d, es[1..]) == Done(d, es[1..]);
      }
    }
  }

  lemma NoRun(a: Abs)
    ensures AbsRun(a, []) == a
  {
  }

  // ---------- Inside the window ----------

  /** The bytes of a file whose extent another file was written over from the start. */
  function Overlay(was: seq<Byte>, over: seq<Byte>): (r: seq<Byte>)
    ensures |r| == |was|
  {
    seq(|was|, o requires 0 <= o < |was| =>
      if o / 512 < SectorsFor(|over|) then DataSector(over, o / 512)[o % 512] else was[o])
  }

  /** A completed write on tables that agree with the disk: the disk mounts to the new directory. */
  lemma CompletedMounts(m: FsState, d: DiskImage, name: Name, p: Plan, heap: Heap)
    requires Agrees(m, d) && PlanOk(m, name, p)
    ensures var d2, dir2 := Apply(d, WriteTrace(m, name, p)), AfterWrite(m, name, p).dir;
      && HasRegion(d2) && DirOk(dir2, FLAREFS_SECTORS) && Mount(d2, heap).Some?
      && Mount(d2, heap).value.dir == dir2 && Linked(Mount(d2, heap).value.files, dir2, d2)
      && (forall t :: DATA_START <= t < FLAREFS_SECTORS ==>
            At(d2, t) == if p.start <= t < p.start + p.count then DataSectors(p.data, p.count)[t - p.start]
              else At(d, t))
  {
    hide Linked, DirOk, Mount, Apply, BlockTrace, DirSectors, SuperSector, DataSectors, NewEntry, FindSlot, ValidName;
    var s' := AfterWrite(m, name, p);
    var t := WriteTrace(m, name, p);
    var data, dir, super := DataSectors(p.data, p.count), DirSectors(s'.dir), SuperSector(s'.super);
    var k := p.count + DIR_SECTORS + 1;
    assert t == BlockTrace(p.start, data) + BlockTrace(1, dir) + BlockTrace(0, [super]);
    assert t[..k] == t;
    CrashDisk(d, p.start, data, dir, super, k);
    var d2 := Apply(d, t);
    NewDirSound(m, d, name, p, FLAREFS_SECTORS);
    assert At(d2, 0) == CrashSector(d, p.start, data, dir, super, k, 0);
    forall i | 0 <= i < DIR_SECTORS
      ensures At(d2, 1 + i) == dir[i]
    {
      assert At(d2, 1 + i) == CrashSector(d, p.start, data, dir, super, k, 1 + i);
    }
    MountLinked(d2, s'.super, s'.dir, heap);
  }

  /** A write of another name leaves the directory entry of a listed file alone. */
  lemma EntryStays(m: FsState, d: DiskImage, name: Name, name2: Name, p2: Plan, k: nat)
    requires Agrees(m, d) && PlanOk(m, name2, p2) && name2 != name
    requires k < MAX_FILES && m.dir[k].used != 0 && CStr(m.dir[k].name) == name
    ensures k != p2.dirIndex && AfterWrite(m, name2, p2).dir[k] == m.dir[k]
  {
    hide DirOk, DiskHolds, Content, FindSlot, ValidName, NewEntry;
    if p2.slot < |m.files| {
      assert m.files[p2.slot].name == CStr(m.dir[p2.dirIndex].name);
    }
  }

  /** A listed file shows its extent's bytes under its name. */
  lemma ListedContent(files: seq<FsFile>, dir: Directory, d: DiskImage, k: nat)
    requires HasRegion(d) && DirOk(dir, FLAREFS_SECTORS) && Linked(files, dir, d) && k < MAX_FILES && dir[k].used != 0
    ensures var n := CStr(dir[k].name); n in Contents(files) && Contents(files)[n] == Content(d, dir[k])
  {
    hide Contents, Content, DirOk;
    LinkedNames(files, dir, d);
    assert Listed(files, k);
    var i :| 0 <= i < |files| && files[i].dirIndex == k;
    ContentsAt(files, i);
  }

  lemma OverlaidContent(d: DiskImage, d2: DiskImage, name: Name, p: Plan, p2: Plan)
    requires HasRegion(d) && HasRegion(d2) && |name| < NAME_LEN && EntryOk(NewEntry(p, name), FLAREFS_SECTORS)
    requires DATA_START <= p.start == p2.start && p.start + p.count <= FLAREFS_SECTORS
      && p2.start + p2.count <= FLAREFS_SECTORS
    requires p.count == SectorsFor(|p.data|) && p2.count == SectorsFor(|p2.data|) && |p.data| < 0x1_0000_0000
    requires forall t :: p.start <= t < p.start + p.count ==> At(d, t) == DataSectors(p.data, p.count)[t - p.start]
    requires forall t :: DATA_START <= t < FLAREFS_SECTORS ==>
      At(d2, t) == if p2.start <= t < p2.start + p2.count then DataSectors(p2.data, p2.count)[t - p2.start]
        else At(d, t)
    ensures Content(d2, NewEntry(p, name)) == Overlay(p.data, p2.data)
  {
    hide CStr, PadName, DataSector, EntryOk;
    var e := NewEntry(p, name);
    forall o | 0 <= o < |p.data|
      ensures ContentByte(d2, e, o) == Overlay(p.data, p2.data)[o]
    {
      var t := p.start + o / 512;
      InExtent(|p.data|, o);
      assert At(d, t) == DataSector(p.data, o / 512);
      DataSectorByte(p.data, o);
      assert At(d2, t) == if o / 512 < p2.count then DataSector(p2.data, o / 512) else At(d, t);
    }
  }

  /** After a crash in the window, a completed write of any other name overlays the bytes of the file
      whose write was cut short; what a mount then shows of it is its old bytes only if the overlay
      happens to agree with them. */
  lemma StaleWriteOverlays(s: FsState, d: DiskImage, name: Name, p: Plan, k: nat, heap: Heap,
                           name2: Name, data2: seq<Byte>, append2: bool, p2: Plan, heap2: Heap)
    requires Inv(s, d) && PlanOk(s, name, p) && k <= |WriteTrace(s, name, p)| && name2 != name && |data2| <= MAX_MEMORY
    requires !Before(p, k) && k <= p.count + DIR_SECTORS
    requires var m := Mount(Crashed(s, d, name, p, k), heap);
      m.Some? && PlanWrite(m.value, name2, data2, append2) == Some(p2)
    ensures var d' := Crashed(s, d, name, p, k);
      var m := Mount(d', heap).value;
      var m2 := Mount(Apply(d', WriteTrace(m, name2, p2)), heap2);
      && m2.Some? && name in Contents(m2.value.files)
      && Contents(m2.value.files)[name] == Overlay(p.data, p2.data)
      && (Contents(m2.value.files)[name] == p.data <==> Overlay(p.data, p2.data) == p.data)
  {
    hide Inv, PlanOk, Crashed, Mount, Contents, Content, WriteTrace, Apply, AfterWrite, PlanWrite, Overlay, Linked,
      DirOk, DataSectors;
    var d' := Crashed(s, d, name, p, k);
    StaleSuper(s, d, name, p, k, heap);
    StaleData(s, d, name, p, k);
    var m := Mount(d', heap).value;
    PlanFits(m, d', name2, data2, append2);
    PlanStarts(m, name2, p2);
    NewEntryOk(s, name, p);
    EntryStays(m, d', name, name2, p2, p.dirIndex);
    CompletedMounts(m, d', name2, p2, heap2);
    var d2 := Apply(d', WriteTrace(m, name2, p2));
    OverlaidContent(d', d2, name, p, p2);
    ListedContent(Mount(d2, heap2).value.files, AfterWrite(m, name2, p2).dir, d2, p.dirIndex);
  }

  lemma PlanStarts(m: FsState, name: Name, p: Plan)
    requires PlanOk(m, name, p)
    ensures p.start == m.super.nextFree && p.start + p.count <= FLAREFS_SECTORS && p.count == SectorsFor(|p.data|)
  {
  }

  /** In the window the new file's data is on disk. */
  lemma StaleData(s: FsState, d: DiskImage, name: Name, p: Plan, k: nat)
    requires Inv(s, d) && PlanOk(s, name, p) && k <= |WriteTrace(s, name, p)| && !Before(p, k)
    ensures HasRegion(Crashed(s, d, name, p, k)) && |name| < NAME_LEN && p.dirIndex < MAX_FILES
    ensures DATA_START <= p.start && p.start + p.count <= FLAREFS_SECTORS && p.count == SectorsFor(|p.data|)
      && |p.data| < 0x1_0000_0000
    ensures EntryOk(NewEntry(p, name), FLAREFS_SECTORS)
    ensures forall t :: p.start <= t < p.start + p.count ==>
      At(Crashed(s, d, name, p, k), t) == DataSectors(p.data, p.count)[t - p.start]
  {
    hide Crashed, Agrees, DirOk, Apart, WriteTrace, DataSectors, DiskHolds;
    CrashedSectors(s, d, name, p, k);
    NewEntryOk(s, name, p);
    StillRegion(s, d);
  }

  /** A witness: where the two files' first bytes differ, the first file is damaged. */
  lemma FirstByteLost(was: seq<Byte>, over: seq<Byte>)
    requires was != [] && over != [] && was[0] != over[0]
    ensures Overlay(was, over)[0] == over[0] && Overlay(was, over) != was
  {
    DataSectorByte(over, 0);
  }

  /** A witness: on an empty file system a one-byte file whose write stops before the superblock. */
  lemma OneByteFileStale(st: State, heap: Heap)
    requires Refines(st, Abs(map[], []))
    ensures var p := PlanWrite(st.fs, [0x61], [1], false);
      && p.Some? && PlanOk(st.fs, [0x61], p.value) && p.value.count == 1
      && |WriteTrace(st.fs, [0x61], p.value)| == 6
      && (var d' := Crashed(st.fs, st.disk, [0x61], p.value, 5);
          Mount(d', heap).Some? && !Inv(Mount(d', heap).value, d'))
  {
    hide Agrees, Apart, DirOk, Contents, PlanWrite, PlanOk, WriteTrace, Mount, Crashed, FinalData;
    AcceptsIff(st, Abs(map[], []), [0x61], [1], false);
    PlanFits(st.fs, st.disk, [0x61], [1], false);
    var p := PlanWrite(st.fs, [0x61], [1], false).value;
    PlanStarts(st.fs, [0x61], p);
    WholeTrace(st.fs, st.disk, [0x61], p);
    IndexBound(st.fs, [0x61], p);
    RecoveryIff(st.fs, st.disk, [0x61], p, 5, heap);
  }
}
