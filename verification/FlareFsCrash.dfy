/** Crash atomicity of fs_write_file and fs_remove_file: what a mount finds after any
    prefix of their sector writes. */
module FlareFsCrash {
  import opened Machine
  import opened FlareLayout
  import opened FlareFsModel
  import opened FlareFsInvariant

  /** All the memory paging_init maps; no buffer passed to fs_write_file is longer. */
  const MAX_MEMORY := 0x4_0000_0000

  // ---------- The plan of a write ----------

  lemma CountExact(size: nat)
    requires size <= MAX_MEMORY + 0x1_0000_0000
    ensures CountFor(size) == SectorsFor(size)
  {
  }

  lemma CountFits(next: U32, size: nat)
    requires next <= FLAREFS_SECTORS && size <= MAX_MEMORY + 0x1_0000_0000
    requires (next + CountFor(size)) % 0x1_0000_0000 <= FLAREFS_SECTORS
    ensures next + CountFor(size) <= FLAREFS_SECTORS && CountFor(size) == SectorsFor(size) && size < 0x1_0000_0000
  {
    CountExact(size);
  }

  lemma FinalDataBound(s: FsState, d: DiskImage, name: Name, data: seq<Byte>, append: bool)
    requires Agrees(s, d) && |data| <= MAX_MEMORY
    ensures |FinalData(s, name, data, append)| <= MAX_MEMORY + 0x1_0000_0000
  {
    var slot := FindSlot(s.files, name);
    if slot >= 0 {
      assert s.files[slot].data == Content(d, s.dir[s.files[slot].dirIndex]);
    }
  }

  /** No u32 of an accepted plan wraps, and the space check means what it says. */
  lemma PlanFits(s: FsState, d: DiskImage, name: Name, data: seq<Byte>, append: bool)
    requires Agrees(s, d) && |data| <= MAX_MEMORY
    requires PlanWrite(s, name, data, append).Some?
    ensures PlanOk(s, name, PlanWrite(s, name, data, append).value)
    ensures PlanWrite(s, name, data, append).value.data == FinalData(s, name, data, append)
  {
    hide Content, EntryOk, DiskHolds, CStr, ValidName, FinalData, CountFor, SectorsFor, Linked, DirOk, FindSlot,
      FreeEntry;
    FinalDataBound(s, d, name, data, append);
    CountFits(s.super.nextFree, |FinalData(s, name, data, append)|);
  }

  /** What an accepted plan is. */
  predicate PlanOk(s: FsState, name: Name, p: Plan) {
    && ValidName(name) && |name| < NAME_LEN
    && DATA_START <= p.start == s.super.nextFree && p.start + p.count <= FLAREFS_SECTORS
    && p.count == SectorsFor(|p.data|) && |p.data| < 0x1_0000_0000
    && p.dirIndex < MAX_FILES && p.slot <= |s.files| && p.slot < MAX_FILES
    && if p.slot == |s.files| then s.dir[p.dirIndex].used == 0 && FindSlot(s.files, name) < 0
       else s.files[p.slot].name == name && s.files[p.slot].dirIndex == p.dirIndex
  }

  // ---------- Traces, sector by sector ----------

  lemma ApplyOneEffect(d: DiskImage, w: SectorWrite)
    requires HasRegion(d) && w.sector < FLAREFS_SECTORS
    ensures var d' := ApplyOne(d, w);
      && (forall s :: 0 <= s < FLAREFS_SECTORS ==> At(d', s) == if s == w.sector then w.data else At(d, s))
      && SameOutside(d, d')
  {
    assert Lba(w.sector) == FLAREFS_LBA + w.sector;
  }

  /** Writing blocks reaches exactly their sectors of the region. */
  lemma {:induction false} BlockTraceEffect(d: DiskImage, base: nat, blocks: seq<Sector>)
    requires HasRegion(d) && base + |blocks| <= FLAREFS_SECTORS
    ensures var d' := Apply(d, BlockTrace(base, blocks));
      && (forall s :: 0 <= s < FLAREFS_SECTORS ==>
            At(d', s) == if base <= s < base + |blocks| then blocks[s - base] else At(d, s))
      && SameOutside(d, d')
  {
    hide ApplyOne, BlockTrace;
    if blocks != [] {
      var n := |blocks| - 1;
      var before := Apply(d, BlockTrace(base, blocks[..n]));
      var w := SectorWrite(base + n, blocks[n]);
      BlockTraceEffect(d, base, blocks[..n]);
      BlockTraceLast(base, blocks);
      ApplyOneEffect(before, w);
      assert Apply(d, BlockTrace(base, blocks)) == ApplyOne(before, w);
    }
  }

  lemma BlockTraceLast(base: nat, blocks: seq<Sector>)
    requires base + |blocks| <= FLAREFS_SECTORS && blocks != []
    ensures var n := |blocks| - 1;
      && BlockTrace(base, blocks)[..n] == BlockTrace(base, blocks[..n])
      && BlockTrace(base, blocks)[n] == SectorWrite(base + n, blocks[n])
  {
  }

  /** Nothing outside the FlareFS region differs. */
  predicate SameOutside(d: DiskImage, d': DiskImage) {
    |d'| == |d| && forall l :: 0 <= l < |d| && !(FLAREFS_LBA <= l < FLAREFS_LBA + FLAREFS_SECTORS) ==> d'[l] == d[l]
  }

  lemma BlockTracePrefix(base: nat, blocks: seq<Sector>, k: nat)
    requires k <= |blocks|
    ensures BlockTrace(base, blocks)[..k] == BlockTrace(base, blocks[..k])
  {
  }

  /** Sector `sec` of the region after the first k writes of: `data` from `start`, `dir` from 1, `super` at 0. */
  function CrashSector(d: DiskImage, start: nat, data: seq<Sector>, dir: seq<Sector>, super: Sector, k: nat,
      sec: nat): Sector
    requires HasRegion(d) && sec < FLAREFS_SECTORS && |dir| == DIR_SECTORS
  {
    if sec == 0 then
      if k > |data| + DIR_SECTORS then super else At(d, 0)
    else if sec <= DIR_SECTORS then
      if k >= |data| + sec then dir[sec - 1] else At(d, sec)
    else
      if start <= sec < start + Min(k, |data|) then data[sec - start] else At(d, sec)
  }

  lemma CrashDisk(d: DiskImage, start: nat, data: seq<Sector>, dir: seq<Sector>, super: Sector, k: nat)
    requires HasRegion(d) && |dir| == DIR_SECTORS && DATA_START <= start && start + |data| <= FLAREFS_SECTORS
    requires k <= |data| + DIR_SECTORS + 1
    ensures var d' := Apply(d, (BlockTrace(start, data) + BlockTrace(1, dir) + BlockTrace(0, [super]))[..k]);
      && (forall sec :: 0 <= sec < FLAREFS_SECTORS ==> At(d', sec) == CrashSector(d, start, data, dir, super, k, sec))
      && SameOutside(d, d')
  {
    hide ApplyOne, BlockTrace, Apply;
    var a, b, c := BlockTrace(start, data), BlockTrace(1, dir), BlockTrace(0, [super]);
    var t := a + b + c;
    if k <= |data| {
      BlockTracePrefix(start, data, k);
      assert t[..k] == a[..k];
      BlockTraceEffect(d, start, data[..k]);
    } else {
      BlockTraceEffect(d, start, data);
      var d1 := Apply(d, a);
      if k <= |data| + DIR_SECTORS {
        var j := k - |data|;
        BlockTracePrefix(1, dir, j);
        assert t[..k] == a + b[..j];
        ApplyAppend(d, a, b[..j]);
        BlockTraceEffect(d1, 1, dir[..j]);
      } else {
        assert t[..k] == a + b + c;
        ApplyAppend(d, a + b, c);
        ApplyAppend(d, a, b);
        BlockTraceEffect(d1, 1, dir);
        BlockTraceEffect(Apply(d1, b), 0, [super]);
      }
    }
  }

  // ---------- Around the one directory sector that changes ----------

  /** True while the write of the changed directory sector has not happened. */
  predicate Before(p: Plan, k: nat) {
    k <= p.count + p.dirIndex / 8
  }

  /** The disk after k of the writes of plan p. */
  function Crashed(s: FsState, d: DiskImage, name: Name, p: Plan, k: nat): DiskImage
    requires PlanOk(s, name, p) && k <= |WriteTrace(s, name, p)|
  {
    Apply(d, WriteTrace(s, name, p)[..k])
  }

  lemma DirSectorsChange(dir: Directory, k: nat, e: DirEntry, i: nat)
    requires k < MAX_FILES && i < DIR_SECTORS && i != k / 8
    ensures DirSectors(dir[k := e])[i] == DirSectors(dir)[i]
  {
    OneDirSectorChanges(dir, k, e, i);
  }

  /** Metadata and data sectors after k writes. */
  lemma CrashedSectors(s: FsState, d: DiskImage, name: Name, p: Plan, k: nat)
    requires Agrees(s, d) && PlanOk(s, name, p) && k <= |WriteTrace(s, name, p)|
    ensures var d' := Crashed(s, d, name, p, k);
      var s' := AfterWrite(s, name, p);
      && |WriteTrace(s, name, p)| == p.count + DIR_SECTORS + 1
      && DiskHolds(d', if k > p.count + DIR_SECTORS then s'.super else s.super,
                       if Before(p, k) then s.dir else s'.dir)
      && (forall t :: DATA_START <= t < p.start ==> At(d', t) == At(d, t))
      && (k >= p.count ==> forall t :: p.start <= t < p.start + p.count ==>
        At(d', t) == DataSectors(p.data, p.count)[t - p.start])
      && SameOutside(d, d')
  {
    hide DirSectors, SuperSector, DataSectors, Linked, DirOk, BlockTrace, Apply;
    var s' := AfterWrite(s, name, p);
    var d' := Crashed(s, d, name, p, k);
    var data, dir, super := DataSectors(p.data, p.count), DirSectors(s'.dir), SuperSector(s'.super);
    CrashDisk(d, p.start, data, dir, super, k);
    assert At(d', 0) == CrashSector(d, p.start, data, dir, super, k, 0);
    var now := DirSectors(if Before(p, k) then s.dir else s'.dir);
    forall i | 0 <= i < DIR_SECTORS
      ensures At(d', 1 + i) == now[i]
    {
      assert At(d', 1 + i) == CrashSector(d, p.start, data, dir, super, k, 1 + i);
      assert At(d, 1 + i) == DirSectors(s.dir)[i];
      if i != p.dirIndex / 8 {
        DirSectorsChange(s.dir, p.dirIndex, NewEntry(p, name), i);
      }
    }
  }

  /** Before it, the old state is intact. */
  lemma CrashedBefore(s: FsState, d: DiskImage, name: Name, p: Plan, k: nat)
    requires Inv(s, d) && PlanOk(s, name, p) && k <= |WriteTrace(s, name, p)| && Before(p, k)
    ensures Inv(s, Crashed(s, d, name, p, k))
  {
    CrashedSectors(s, d, name, p, k);
    hide Crashed, DirSectors, SuperSector, DirOk, Content;
    LinkedFrame(s.files, s.dir, d, Crashed(s, d, name, p, k), s.super.nextFree);
  }

  // ---------- After it ----------

  lemma NewEntryOk(s: FsState, name: Name, p: Plan)
    requires PlanOk(s, name, p)
    ensures CStr(NewEntry(p, name).name) == name
    ensures EntryOk(NewEntry(p, name), p.start + p.count)
  {
    PadNameRoundTrip(name);
  }

  lemma DataSectorByte(data: seq<Byte>, o: nat)
    requires o < |data|
    ensures DataSector(data, o / 512)[o % 512] == data[o]
  {
  }

  /** The bytes a mount finds in the new extent are the bytes written. */
  lemma NewContent(s: FsState, name: Name, p: Plan, d': DiskImage)
    requires HasRegion(d') && PlanOk(s, name, p)
    requires forall t :: p.start <= t < p.start + p.count ==> At(d', t) == DataSectors(p.data, p.count)[t - p.start]
    ensures EntryOk(NewEntry(p, name), FLAREFS_SECTORS) && Content(d', NewEntry(p, name)) == p.data
  {
    NewEntryOk(s, name, p);
    hide CStr, PadName, EntryOk, FindSlot, SectorsFor, DataSectors, ContentByte;
    var e := NewEntry(p, name);
    forall o | 0 <= o < e.size
      ensures ContentByte(d', e, o) == p.data[o]
    {
      NewByte(d', e, p.data, o);
    }
  }

  lemma NewByte(d': DiskImage, e: DirEntry, data: seq<Byte>, o: nat)
    requires HasRegion(d') && EntryOk(e, FLAREFS_SECTORS)
    requires o < e.size == |data| && e.count == SectorsFor(|data|) && e.start + e.count <= FLAREFS_SECTORS
    requires forall t :: e.start <= t < e.start + e.count ==> At(d', t) == DataSectors(data, e.count)[t - e.start]
    ensures ContentByte(d', e, o) == data[o]
  {
    InExtent(|data|, o);
    hide DataSector, SectorsFor;
    assert At(d', e.start + o / 512) == DataSectors(data, e.count)[o / 512];
    DataSectorByte(data, o);
  }

  lemma InExtent(size: nat, o: nat)
    requires o < size
    ensures o / 512 < SectorsFor(size)
  {
  }

  /** The new name clashes with no other entry. */
  lemma OthersNamed(s: FsState, d: DiskImage, name: Name, p: Plan, k: nat)
    requires Agrees(s, d) && PlanOk(s, name, p)
    requires k < MAX_FILES && k != p.dirIndex && s.dir[k].used != 0
    ensures CStr(s.dir[k].name) != name
  {
    assert Listed(s.files, k);
    var i: nat :| i < |s.files| && s.files[i].dirIndex == k;
    if p.slot < |s.files| {
      assert k < p.dirIndex || p.dirIndex < k;
    }
  }

  /** The directory with the new entry is sound up to a limit that holds for the old one and for the
      new extent. */
  lemma NewDirSound(s: FsState, d: DiskImage, name: Name, p: Plan, limit: nat)
    requires Agrees(s, d) && PlanOk(s, name, p) && DirOk(s.dir, limit) && p.start + p.count <= limit
    ensures DirOk(AfterWrite(s, name, p).dir, limit)
  {
    NewEntryOk(s, name, p);
    hide Linked, DiskHolds, ValidName, CStr, PadName, FindSlot;
    forall k | 0 <= k < MAX_FILES && k != p.dirIndex && s.dir[k].used != 0
      ensures CStr(s.dir[k].name) != name
    {
      OthersNamed(s, d, name, p, k);
    }
  }

  /** It is sound up to the end of the new extent, and live extents stay disjoint. */
  lemma NewDirOk(s: FsState, d: DiskImage, name: Name, p: Plan)
    requires Inv(s, d) && PlanOk(s, name, p)
    ensures DirOk(AfterWrite(s, name, p).dir, p.start + p.count) && Apart(AfterWrite(s, name, p).dir)
  {
    hide Linked, DiskHolds, ValidName, CStr, PadName, FindSlot;
    assert DirOk(s.dir, p.start + p.count);
    NewDirSound(s, d, name, p, p.start + p.count);
    hide Agrees, SectorsFor;
    var e := NewEntry(p, name);
    assert forall k :: 0 <= k < MAX_FILES && s.dir[k].used != 0 ==> EntryOk(s.dir[k], p.start);
  }

  /** Tables and disk agree again after the file table's slot is set. */
  lemma NewLinked(s: FsState, d: DiskImage, name: Name, p: Plan, d': DiskImage)
    requires Inv(s, d) && HasRegion(d') && PlanOk(s, name, p)
    requires forall t :: DATA_START <= t < p.start ==> At(d', t) == At(d, t)
    requires forall t :: p.start <= t < p.start + p.count ==> At(d', t) == DataSectors(p.data, p.count)[t - p.start]
    ensures DirOk(AfterWrite(s, name, p).dir, FLAREFS_SECTORS)
    ensures Linked(AfterWrite(s, name, p).files, AfterWrite(s, name, p).dir, d')
  {
    NewDirOk(s, d, name, p);
    NewContent(s, name, p, d');
    NewEntryOk(s, name, p);
    LinkedFrame(s.files, s.dir, d, d', s.super.nextFree);
    LinkedSet(s.files, s.dir, d', p.slot, p.dirIndex, NewEntry(p, name), FsFile(name, p.data, p.dirIndex));
  }

  /** Setting a slot of the file table and its directory entry together keeps them linked. */
  lemma LinkedSet(files: seq<FsFile>, dir: Directory, d: DiskImage, slot: nat, k: nat, e: DirEntry, f: FsFile)
    requires HasRegion(d) && k < MAX_FILES && slot <= |files|
    requires DirOk(dir, FLAREFS_SECTORS) && DirOk(dir[k := e], FLAREFS_SECTORS) && Linked(files, dir, d)
    requires if slot == |files| then dir[k].used == 0 else files[slot].dirIndex == k
    requires e.used != 0 && EntryOk(e, FLAREFS_SECTORS) && f == FsFile(CStr(e.name), Content(d, e), k)
    ensures Linked(WithSlot(files, slot, f), dir[k := e], d)
  {
    hide DirOk, EntryOk, Content, CStr, Listed;
    var files' := WithSlot(files, slot, f);
    var dir' := dir[k := e];
    forall i | 0 <= i < |files'| && i != slot
      ensures files'[i] == files[i] && files[i].dirIndex != k
    {
      if slot < |files| {
        assert i < slot || slot < i;
      }
    }
    hide WithSlot;
    forall j | 0 <= j < MAX_FILES && dir'[j].used != 0
      ensures Listed(files', j)
    {
      if j == k {
        ListedAt(files', slot);
      } else {
        ListedStill(files, files', slot, j, k);
      }
    }
  }

  lemma ListedAt(files: seq<FsFile>, i: nat)
    requires i < |files|
    ensures Listed(files, files[i].dirIndex)
  {
  }

  lemma ListedStill(files: seq<FsFile>, files': seq<FsFile>, slot: nat, j: nat, k: nat)
    requires Listed(files, j) && j != k && |files| <= |files'| && (slot < |files| ==> files[slot].dirIndex == k)
    requires forall i :: 0 <= i < |files| && i != slot ==> files'[i] == files[i]
    ensures Listed(files', j)
  {
    var i :| 0 <= i < |files| && files[i].dirIndex == j;
    assert files'[i].dirIndex == j;
  }

  /** Storing a file updates the map at its name and nowhere else. */
  lemma ContentsUpdate(files: seq<FsFile>, slot: nat, f: FsFile)
    requires slot <= |files|
    requires slot < |files| ==> files[slot].name == f.name
    requires DistinctNames(files)
    requires DistinctNames(WithSlot(files, slot, f))
    ensures Contents(WithSlot(files, slot, f)) == Contents(files)[f.name := f.data]
  {
    hide Contents, Names, WithSlot;
    var files' := WithSlot(files, slot, f);
    assert files'[slot] == f;
    ContentsAt(files', slot);
    forall n | n in Contents(files)
      ensures n in Contents(files') && (n != f.name ==> Contents(files')[n] == Contents(files)[n])
    {
      var i := ContentsIndex(files, n);
      assert files'[i].name == n;
      ContentsAt(files, i);
      ContentsAt(files', i);
    }
    forall n | n in Contents(files') && n != f.name
      ensures n in Contents(files)
    {
      var i := ContentsIndex(files', n);
      ContentsAt(files, i);
    }
  }

  /** After it, the disk holds the new directory and the new bytes. */
  lemma CrashedAfter(s: FsState, d: DiskImage, name: Name, p: Plan, k: nat)
    requires Inv(s, d) && PlanOk(s, name, p) && k <= |WriteTrace(s, name, p)| && !Before(p, k)
    ensures var d' := Crashed(s, d, name, p, k);
      var s' := AfterWrite(s, name, p);
      && DirOk(s'.dir, p.start + p.count) && Apart(s'.dir)
      && DiskHolds(d', if k > p.count + DIR_SECTORS then s'.super else s.super, s'.dir)
      && Linked(s'.files, s'.dir, d')
      && Contents(s'.files) == Contents(s.files)[name := p.data]
  {
    var s' := AfterWrite(s, name, p);
    var d' := Crashed(s, d, name, p, k);
    CrashedSectors(s, d, name, p, k);
    hide Crashed, DirSectors, SuperSector, Content, DataSectors, WriteTrace;
    NewDirOk(s, d, name, p);
    NewLinked(s, d, name, p, d');
    LinkedNames(s.files, s.dir, d);
    LinkedNames(s'.files, s'.dir, d');
    ContentsUpdate(s.files, p.slot, FsFile(name, p.data, p.dirIndex));
  }

  // ---------- Main results ----------

  /** Crash atomicity of a write: after any prefix of its sector writes the disk mounts, as
      exactly the old files up to the write of the one directory sector that changes, and as
      exactly the new files from there on. */
  lemma WriteCrashAtomic(s: FsState, d: DiskImage, name: Name, data: seq<Byte>, append: bool, p: Plan, k: nat,
      heap: Heap)
    requires Inv(s, d) && |data| <= MAX_MEMORY
    requires PlanWrite(s, name, data, append) == Some(p)
    requires k <= |WriteTrace(s, name, p)|
    ensures var m := Mount(Apply(d, WriteTrace(s, name, p)[..k]), heap);
      && m.Some?
      && Contents(m.value.files) ==
           if k <= p.count + p.dirIndex / 8 then Contents(s.files)
           else Contents(s.files)[name := FinalData(s, name, data, append)]
  {
    PlanFits(s, d, name, data, append);
    var d' := Crashed(s, d, name, p, k);
    hide Crashed, WriteTrace, Mount, Contents, DirSectors, SuperSector;
    if Before(p, k) {
      CrashedBefore(s, d, name, p, k);
      RemountSame(s, d', heap);
    } else {
      CrashedAfter(s, d, name, p, k);
      var s' := AfterWrite(s, name, p);
      MountLinked(d', if k > p.count + DIR_SECTORS then s'.super else s.super, s'.dir, heap);
      LinkedContentsUnique(Mount(d', heap).value.files, s'.files, s'.dir, d');
    }
    assert d' == Apply(d, WriteTrace(s, name, p)[..k]) by { CrashedIsApply(s, d, name, p, k); }
  }

  lemma CrashedIsApply(s: FsState, d: DiskImage, name: Name, p: Plan, k: nat)
    requires PlanOk(s, name, p) && k <= |WriteTrace(s, name, p)|
    ensures Crashed(s, d, name, p, k) == Apply(d, WriteTrace(s, name, p)[..k])
  {
  }

  /** A completed write keeps the invariant and updates the map at `name`. */
  lemma WriteCompletes(s: FsState, d: DiskImage, name: Name, p: Plan)
    requires Inv(s, d) && PlanOk(s, name, p)
    ensures Inv(AfterWrite(s, name, p), Apply(d, WriteTrace(s, name, p)))
    ensures Contents(AfterWrite(s, name, p).files) == Contents(s.files)[name := p.data]
    ensures SameOutside(d, Apply(d, WriteTrace(s, name, p)))
  {
    hide Contents, Linked, DirOk, DiskHolds, FindSlot, ValidName, Apply;
    var t := WriteTrace(s, name, p);
    CrashedSectors(s, d, name, p, |t|);
    assert t[..|t|] == t;
    hide WriteTrace, GoodSuper;
    CrashedAfter(s, d, name, p, |t|);
    CrashedIsApply(s, d, name, p, |t|);
    AfterWriteInv(s, d, name, p, Apply(d, t));
  }

  lemma AfterWriteInv(s: FsState, d: DiskImage, name: Name, p: Plan, d': DiskImage)
    requires Inv(s, d) && PlanOk(s, name, p) && HasRegion(d')
    requires var s' := AfterWrite(s, name, p);
      && DirOk(s'.dir, p.start + p.count) && Apart(s'.dir)
      && DiskHolds(d', s'.super, s'.dir) && Linked(s'.files, s'.dir, d')
    ensures Inv(AfterWrite(s, name, p), d')
  {
    hide Linked, DirOk, DiskHolds, FindSlot, ValidName, Apart;
    var s' := AfterWrite(s, name, p);
    DirOkWeaken(s'.dir, p.start + p.count);
    assert s'.super.nextFree == p.start + p.count;
    forall i | 0 <= i < |s'.files|
      ensures s'.files[i].dirIndex < MAX_FILES
    {
      assert i != p.slot ==> s'.files[i] == s.files[i];
    }
  }

  /** The remounted disk satisfies the allocation invariant exactly when the crash did not
      fall between the changed directory sector and the superblock. */
  lemma RecoveryIff(s: FsState, d: DiskImage, name: Name, p: Plan, k: nat, heap: Heap)
    requires Inv(s, d) && PlanOk(s, name, p) && k <= |WriteTrace(s, name, p)|
    ensures var d' := Crashed(s, d, name, p, k);
      && Mount(d', heap).Some?
      && (Inv(Mount(d', heap).value, d') <==> k <= p.count + p.dirIndex / 8 || k == p.count + DIR_SECTORS + 1)
  {
    hide WriteTrace, Crashed, Linked, DirOk, DiskHolds, Contents, FindSlot, ValidName, GoodSuper, Mount;
    var d' := Crashed(s, d, name, p, k);
    var s' := AfterWrite(s, name, p);
    CrashedSectors(s, d, name, p, k);
    if Before(p, k) {
      CrashedBefore(s, d, name, p, k);
      RemountSame(s, d', heap);
    } else if k > p.count + DIR_SECTORS {
      CrashedAfter(s, d, name, p, k);
      AfterWriteInv(s, d, name, p, d');
      RemountSame(s', d', heap);
    } else {
      StaleSuper(s, d, name, p, k, heap);
    }
  }

  /** In the window between the two, the mounted tables list the new file's extent at
      next_free_sector itself. */
  lemma StaleSuper(s: FsState, d: DiskImage, name: Name, p: Plan, k: nat, heap: Heap)
    requires Inv(s, d) && PlanOk(s, name, p) && k <= |WriteTrace(s, name, p)|
    requires !Before(p, k) && k <= p.count + DIR_SECTORS
    ensures var d' := Crashed(s, d, name, p, k);
      && Mount(d', heap).Some?
      && (var m := Mount(d', heap).value;
          && m.dir == AfterWrite(s, name, p).dir && m.dir[p.dirIndex] == NewEntry(p, name)
          && m.super.nextFree == p.start && Shaped(m)
          && Agrees(m, d') && !Inv(m, d'))
  {
    hide WriteTrace, Crashed, Linked, Contents, FindSlot, ValidName, CStr, Mount, SuperSector, DirSectors;
    var d' := Crashed(s, d, name, p, k);
    CrashedAfter(s, d, name, p, k);
    DirOkWeaken(AfterWrite(s, name, p).dir, p.start + p.count);
    MountLinked(d', s.super, AfterWrite(s, name, p).dir, heap);
    var m := Mount(d', heap).value;
    assert !EntryOk(m.dir[p.dirIndex], m.super.nextFree);
  }

  /** So the next accepted write of any file starts on the extent of the file whose write
      was cut short. */
  lemma StaleSuperReusesExtent(s: FsState, d: DiskImage, name: Name, p: Plan, k: nat, heap: Heap,
                               name2: Name, data2: seq<Byte>, append2: bool)
    requires Inv(s, d) && PlanOk(s, name, p) && k <= |WriteTrace(s, name, p)|
    requires !Before(p, k) && k <= p.count + DIR_SECTORS
    ensures var m := Mount(Crashed(s, d, name, p, k), heap);
      && m.Some? && Shaped(m.value)
      && (var e := m.value.dir[p.dirIndex];
          e.used != 0 && CStr(e.name) == name && e.start == p.start && e.count == p.count)
      && (var p2 := PlanWrite(m.value, name2, data2, append2); p2.Some? ==> p2.value.start == p.start)
  {
    StaleSuper(s, d, name, p, k, heap);
    NewEntryOk(s, name, p);
    hide Crashed, Mount, Inv, FindSlot, ValidName, PlanOk, CStr;
  }

  /** Where a write goes: nothing below next_free_sector but metadata, of the directory only
      one sector with new bytes, and nothing outside the region. */
  lemma WriteFootprint(s: FsState, d: DiskImage, name: Name, p: Plan, k: nat)
    requires Inv(s, d) && PlanOk(s, name, p) && k <= |WriteTrace(s, name, p)|
    ensures var d' := Crashed(s, d, name, p, k);
      && (forall t :: DATA_START <= t < s.super.nextFree ==> At(d', t) == At(d, t))
      && (forall t :: 1 <= t < DATA_START && t != 1 + p.dirIndex / 8 ==> At(d', t) == At(d, t))
      && SameOutside(d, d')
  {
    hide WriteTrace, Crashed, Linked, DirOk, DirSectors, SuperSector, FindSlot, ValidName;
    CrashedSectors(s, d, name, p, k);
    var d' := Crashed(s, d, name, p, k);
    var now := DirSectors(if Before(p, k) then s.dir else AfterWrite(s, name, p).dir);
    forall t | 1 <= t < DATA_START && t != 1 + p.dirIndex / 8
      ensures At(d', t) == At(d, t)
    {
      var i := t - 1;
      assert At(d', 1 + i) == now[i];
      assert At(d, 1 + i) == DirSectors(s.dir)[i];
      DirSectorsChange(s.dir, p.dirIndex, NewEntry(p, name), i);
    }
  }

  // ---------- Removal ----------

  /** Dropping a slot of the file table and clearing its directory entry keeps them linked. */
  lemma LinkedDrop(files: seq<FsFile>, dir: Directory, d: DiskImage, slot: nat)
    requires HasRegion(d) && slot < |files|
    requires DirOk(dir, FLAREFS_SECTORS) && Linked(files, dir, d)
    ensures DirOk(dir[files[slot].dirIndex := EMPTY_ENTRY], FLAREFS_SECTORS)
    ensures Linked(WithoutSlot(files, slot), dir[files[slot].dirIndex := EMPTY_ENTRY], d)
  {
    hide EntryOk, Content, CStr, DirOk, WithoutSlot;
    var k := files[slot].dirIndex;
    var files' := WithoutSlot(files, slot);
    var dir' := dir[k := EMPTY_ENTRY];
    RemovedDirOk(dir, k, FLAREFS_SECTORS);
    forall i | 0 <= i < |files'|
      ensures files'[i] == files[if i < slot then i else i + 1] && files'[i].dirIndex != k
    {
    }
    forall j | 0 <= j < MAX_FILES && dir'[j].used != 0
      ensures Listed(files', j)
    {
      ListedDrop(files, slot, j);
    }
    DroppedRest(files, dir, d, slot);
  }

  lemma ListedDrop(files: seq<FsFile>, slot: nat, k: nat)
    requires slot < |files| && files[slot].dirIndex != k && Listed(files, k)
    ensures Listed(WithoutSlot(files, slot), k)
  {
    hide WithoutSlot;
    var i :| 0 <= i < |files| && files[i].dirIndex == k;
    assert WithoutSlot(files, slot)[if i < slot then i else i - 1] == files[i];
  }

  lemma DroppedRest(files: seq<FsFile>, dir: Directory, d: DiskImage, slot: nat)
    requires HasRegion(d) && slot < |files|
    requires DirOk(dir, FLAREFS_SECTORS) && Linked(files, dir, d)
    ensures var k := files[slot].dirIndex;
      var dir' := dir[k := EMPTY_ENTRY];
      && DirOk(dir', FLAREFS_SECTORS)
      && (forall i :: 0 <= i < |files| && i != slot ==> var f := files[i];
            f.dirIndex < MAX_FILES && dir'[f.dirIndex].used != 0 &&
            f.name == CStr(dir'[f.dirIndex].name) && f.data == Content(d, dir'[f.dirIndex]))
  {
    RemovedDirOk(dir, files[slot].dirIndex, FLAREFS_SECTORS);
    hide DirOk, Content, CStr;
    forall i | 0 <= i < |files| && i != slot
      ensures files[i].dirIndex != files[slot].dirIndex
    {
      assert i < slot || slot < i;
    }
  }

  lemma ContentsDrop(files: seq<FsFile>, slot: nat)
    requires DistinctNames(files) && slot < |files|
    ensures Contents(WithoutSlot(files, slot)) == Contents(files) - {files[slot].name}
  {
    hide Contents, Names, WithoutSlot;
    var files' := WithoutSlot(files, slot);
    forall n | n in Contents(files) && n != files[slot].name
      ensures n in Contents(files') && Contents(files')[n] == Contents(files)[n]
    {
      var i := ContentsIndex(files, n);
      ContentsAt(files, i);
      ContentsAt(files', if i < slot then i else i - 1);
    }
    forall n | n in Contents(files')
      ensures n in Contents(files) && n != files[slot].name
    {
      var i := ContentsIndex(files', n);
      ContentsAt(files, if i < slot then i else i + 1);
    }
  }

  /** Crash atomicity of a remove: every prefix of its writes leaves the invariant with
      exactly the old tables or exactly the new ones, and nothing but the directory changes. */
  lemma RemoveCrashAtomic(s: FsState, d: DiskImage, name: Name, slot: nat, k: nat)
    requires Inv(s, d) && RemoveSlot(s, name) == slot
    requires k <= |RemoveTrace(s, slot)|
    ensures var d' := Apply(d, RemoveTrace(s, slot)[..k]);
      var s' := AfterRemove(s, slot);
      && Inv(if k <= s.files[slot].dirIndex / 8 then s else s', d')
      && Contents(s'.files) == Contents(s.files) - {name}
      && SameOutside(d, d')
  {
    hide DirSectors, SuperSector, Apply, BlockTrace, Contents, DirOk, Linked, Names, RemoveSlot;
    var t := RemoveTrace(s, slot);
    var d' := Apply(d, t[..k]);
    var s' := AfterRemove(s, slot);
    var q := s.files[slot].dirIndex;
    DirOkWeaken(s.dir, s.super.nextFree);
    LinkedNames(s.files, s.dir, d);
    ContentsDrop(s.files, slot);
    BlockTracePrefix(1, DirSectors(s'.dir), k);
    BlockTraceEffect(d, 1, DirSectors(s'.dir)[..k]);
    LinkedDrop(s.files, s.dir, d, slot);
    var now := DirSectors(if k <= q / 8 then s.dir else s'.dir);
    forall i | 0 <= i < DIR_SECTORS
      ensures At(d', 1 + i) == now[i]
    {
      assert At(d, 1 + i) == DirSectors(s.dir)[i];
      if i != q / 8 {
        DirSectorsChange(s.dir, q, EMPTY_ENTRY, i);
      }
    }
    assert At(d', 0) == At(d, 0);
    LinkedFrame(s.files, s.dir, d, d', s.super.nextFree);
    RemovedDirOk(s.dir, q, s.super.nextFree);
    LinkedFrame(s'.files, s'.dir, d, d', s.super.nextFree);
    assert Shaped(s');
    assert DiskHolds(d', s.super, if k <= q / 8 then s.dir else s'.dir);
    assert SameOutside(d, d');
    assert Contents(s'.files) == Contents(s.files) - {name};
    assert Inv(if k <= q / 8 then s else s', d');
  }

  lemma RemovedDirOk(dir: Directory, k: nat, limit: nat)
    requires k < MAX_FILES && DirOk(dir, limit)
    ensures DirOk(dir[k := EMPTY_ENTRY], limit)
    ensures Apart(dir) ==> Apart(dir[k := EMPTY_ENTRY])
  {
  }
}
