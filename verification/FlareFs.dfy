/** The FlareFS driver as it runs: global tables and disk sectors updated in place. */
module FlareFs {
  import opened Machine
  import opened FlareLayout
  import opened FlareFsModel
  import opened FlareFsInvariant
  import opened FlareFsCrash
  import opened FlareFsRuns
  import opened FlareFsInstall

  /** The log grew by a prefix of `t` and the sectors are what that prefix made of them. */
  predicate Wrote(d: DiskImage, log: seq<SectorWrite>, d': DiskImage, log': seq<SectorWrite>, t: seq<SectorWrite>) {
    log <= log' <= log + t && d' == Apply(d, log'[|log|..])
  }

  lemma WroteNothing(d: DiskImage, log: seq<SectorWrite>, t: seq<SectorWrite>)
    ensures Wrote(d, log, d, log, t)
  {
    assert log[|log|..] == [];
  }

  /** Writing all of `a` and then a prefix of `b`. */
  lemma WroteMore(d: DiskImage, log: seq<SectorWrite>, d1: DiskImage, log1: seq<SectorWrite>, d2: DiskImage,
      log2: seq<SectorWrite>, a: seq<SectorWrite>, b: seq<SectorWrite>)
    requires Wrote(d, log, d1, log1, a) && log1 == log + a
    requires Wrote(d1, log1, d2, log2, b)
    ensures Wrote(d, log, d2, log2, a + b)
  {
    hide Apply;
    assert log + a + b == log + (a + b);
    assert log1[|log|..] == a;
    assert log2[|log|..] == a + log2[|log1|..];
    ApplyAppend(d, a, log2[|log1|..]);
  }

  lemma WroteWider(d: DiskImage, log: seq<SectorWrite>, d': DiskImage, log': seq<SectorWrite>, a: seq<SectorWrite>,
      b: seq<SectorWrite>)
    requires Wrote(d, log, d', log', a)
    ensures Wrote(d, log, d', log', a + b)
  {
    assert log + (a + b) == log + a + b;
  }

  /** The ATA drive. `reliable` drives complete every addressable transfer; others may fail
      one, having stored the sector or not. */
  class AtaDisk {
    const present: bool
    const reliable: bool
    var sectors: DiskImage
    ghost var log: seq<SectorWrite>

    method Read(sector: U32) returns (ok: bool, data: Sector)
      ensures ok ==> present && ReadSector(sectors, sector) == Some(data)
      ensures present && reliable && ReadSector(sectors, sector).Some? ==> ok
    {
      var r := ReadSector(sectors, sector);
      ok := *;
      ok := present && r.Some? && (reliable || ok);
      data := if r.Some? then r.value else Zeros(SECTOR_LEN);
    }

    method Write(sector: U32, data: Sector) returns (ok: bool)
      modifies this
      ensures Wrote(old(sectors), old(log), sectors, log, [SectorWrite(sector, data)])
      ensures ok ==> present && log == old(log) + [SectorWrite(sector, data)]
      ensures present && reliable && Addressable(old(sectors), sector) ==> ok
    {
      var stored: bool := *;
      ok := *;
      ghost var w := SectorWrite(sector, data);
      WroteNothing(sectors, log, [w]);
      if !present || !Addressable(sectors, sector) {
        return false;
      }
      ok := reliable || ok;
      if ok || stored {
        sectors := sectors[Lba(sector) := data];
        log := log + [w];
        assert log[|old(log)|..] == [w];
        assert [w][..0] == [];
      }
    }
  }

  class FlareFs {
    const disk: AtaDisk
    var super: Super
    const dir: array<DirEntry>
    const files: array<FsFile>
    var fileCount: nat
    var writable: bool

    /** g_super, g_dir, the live part of g_files and g_fs_writable. */
    ghost function View(): FsState
      reads this, dir, files
      requires dir.Length == MAX_FILES && fileCount <= files.Length
    {
      FsState(super, dir[..], files[..fileCount], writable)
    }

    ghost predicate Valid()
      reads this, dir, files, disk
    {
      && dir.Length == MAX_FILES && files.Length == MAX_FILES && fileCount <= MAX_FILES
      && Shaped(View()) && HasRegion(disk.sectors)
    }

    constructor (disk: AtaDisk)
      requires HasRegion(disk.sectors)
      ensures Valid() && this.disk == disk && View() == Unmounted()
      ensures fresh(dir) && fresh(files)
    {
      this.disk := disk;
      super := Super(0, 0, 0, 0, 0, 0, 0, 0);
      dir := new DirEntry[MAX_FILES](_ => EMPTY_ENTRY);
      files := new FsFile[MAX_FILES](_ => FsFile([], [], 0));
      fileCount := 0;
      writable := false;
      new;
      assert dir[..] == EmptyDir();
    }

    // ---------- Metadata writes ----------

    /** flarefs_write_super. */
    method WriteSuper() returns (ok: bool)
      requires HasRegion(disk.sectors)
      modifies disk
      ensures Wrote(old(disk.sectors), old(disk.log), disk.sectors, disk.log, SuperTrace(super))
      ensures ok ==> disk.log == old(disk.log) + SuperTrace(super)
      ensures disk.present && disk.reliable ==> ok
    {
      ok := disk.Write(0, SuperSector(super));
      assert SuperTrace(super) == [SectorWrite(0, SuperSector(super))];
    }

    /** flarefs_write_directory. */
    method WriteDirectory() returns (ok: bool)
      requires dir.Length == MAX_FILES && HasRegion(disk.sectors)
      modifies disk
      ensures Wrote(old(disk.sectors), old(disk.log), disk.sectors, disk.log, DirTrace(dir[..]))
      ensures ok ==> disk.log == old(disk.log) + DirTrace(dir[..])
      ensures disk.present && disk.reliable ==> ok
    {
      ok := WriteBlocks(1, DirSectors(dir[..]));
    }

    /** `flarefs_write_directory() && flarefs_write_super()` */
    method WriteMetadata() returns (ok: bool)
      requires Valid()
      modifies disk
      ensures Wrote(old(disk.sectors), old(disk.log), disk.sectors, disk.log, DirTrace(dir[..]) + SuperTrace(super))
      ensures ok ==> disk.log == old(disk.log) + (DirTrace(dir[..]) + SuperTrace(super))
      ensures disk.present && disk.reliable && HasRegion(old(disk.sectors)) ==> ok
    {
      hide Wrote, Apply, DirTrace, SuperTrace;
      ghost var d1, log1 := disk.sectors, disk.log;
      ghost var b, c := DirTrace(dir[..]), SuperTrace(super);
      ok := WriteDirectory();
      ghost var d2, log2 := disk.sectors, disk.log;
      WroteLength(d1, log1, d2, log2, b);
      if !ok {
        WroteWider(d1, log1, d2, log2, b, c);
        return false;
      }
      ok := WriteSuper();
      WroteMore(d1, log1, d2, log2, disk.sectors, disk.log, b, c);
    }

    /** The sector loop shared by the directory, data and format writes: consecutive sectors
        from `base`, stopping at the first failure. */
    method WriteBlocks(base: U32, blocks: seq<Sector>) returns (ok: bool)
      modifies disk
      ensures Wrote(old(disk.sectors), old(disk.log), disk.sectors, disk.log, BlockTrace(base, blocks))
      ensures ok ==> disk.log == old(disk.log) + BlockTrace(base, blocks)
      ensures disk.present && disk.reliable && HasRegion(old(disk.sectors)) && base + |blocks| <= FLAREFS_SECTORS ==> ok
    {
      hide Apply, Wrote;
      ghost var d0, log0 := disk.sectors, disk.log;
      var k := 0;
      WroteNothing(d0, log0, BlockTrace(base, blocks[..0]));
      while k < |blocks|
        invariant 0 <= k <= |blocks|
        invariant Wrote(d0, log0, disk.sectors, disk.log, BlockTrace(base, blocks[..k]))
        invariant disk.log == log0 + BlockTrace(base, blocks[..k])
        invariant |disk.sectors| == |d0|
      {
        ghost var d1, log1 := disk.sectors, disk.log;
        ghost var a, b := BlockTrace(base, blocks[..k]), [SectorWrite((base + k) % 0x1_0000_0000, blocks[k])];
        ok := disk.Write((base + k) % 0x1_0000_0000, blocks[k]);
        WroteMore(d0, log0, d1, log1, disk.sectors, disk.log, a, b);
        BlockTraceSplit(base, blocks, k);
        if !ok {
          WroteWider(d0, log0, disk.sectors, disk.log, a + b, BlockTrace(base, blocks)[k + 1..]);
          return;
        }
        WroteLength(d1, log1, disk.sectors, disk.log, b);
        k := k + 1;
      }
      assert blocks[..k] == blocks;
      ok := true;
    }

    // ---------- Lookups ----------

    /** flarefs_valid_name. */
    static method CheckName(name: Name) returns (ok: bool)
      ensures ok == ValidName(name)
    {
      if name == [] {
        return false;
      }
      var len := 0;
      while len < |name|
        invariant 0 <= len <= |name|
        invariant len < NAME_LEN
        invariant forall i :: 0 <= i < len ==> NameByte(name[i])
      {
        if len + 1 >= NAME_LEN || !NameByte(name[len]) {
          return false;
        }
        len := len + 1;
      }
      return true;
    }

    /** flarefs_find_slot. */
    method LookUp(name: Name) returns (slot: int)
      requires Valid()
      ensures slot == FindSlot(View().files, name)
    {
      ghost var live := View().files;
      var i := 0;
      while i < fileCount
        invariant 0 <= i <= fileCount
        invariant FindFrom(live, name, i) == FindFrom(live, name, 0)
      {
        if files[i].name == name {
          return i;
        }
        i := i + 1;
      }
      return -1;
    }

    /** The search for an unused directory entry. */
    method LookForFree(n: nat) returns (k: nat)
      requires Valid() && n <= MAX_FILES
      ensures k == FreeEntry(dir[..], n)
    {
      k := 0;
      while k < n
        invariant 0 <= k <= n
        invariant FreeFrom(dir[..], k, n) == FreeFrom(dir[..], 0, n)
      {
        if dir[k].used == 0 {
          return;
        }
        k := k + 1;
      }
    }

    // ---------- fs_write_file ----------

    /** flarefs_write_internal's checks, up to its first disk write. */
    method Decide(name: Name, data: seq<Byte>, append: bool) returns (r: Option<Plan>)
      requires Valid()
      ensures r == PlanWrite(View(), name, data, append)
    {
      hide ValidName, FindSlot, FreeEntry;
      var valid := CheckName(name);
      if !writable || !valid {
        return None;
      }
      var slot := LookUp(name);
      var final := data;
      if append && slot >= 0 {
        final := files[slot].data + data;
      }
      var index;
      if slot >= 0 {
        index := files[slot].dirIndex;
      } else {
        var k := LookForFree(super.dirEntries);
        if k == super.dirEntries || fileCount >= MAX_FILES {
          return None;
        }
        index := k;
      }
      var count: U32 := (|final| + 511) / 512 % 0x1_0000_0000;
      if count == 0 {
        count := 1;
      }
      if (super.nextFree + count) % 0x1_0000_0000 > super.totalSectors {
        return None;
      }
      return Some(Plan(if slot >= 0 then slot else fileCount, slot < 0, index, final, super.nextFree, count));
    }

    /** fs_write_file. A rejected call changes nothing; a call whose data writes fail changes
        nothing in memory; a call that returns 1 leaves exactly the planned tables and trace. */
    method WriteFile(name: Name, data: seq<Byte>, append: bool) returns (ok: bool)
      requires Valid()
      modifies this, dir, files, disk
      ensures Valid()
      ensures PlanWrite(old(View()), name, data, append).None? ==>
        !ok && View() == old(View()) && disk.sectors == old(disk.sectors) && disk.log == old(disk.log)
      ensures PlanWrite(old(View()), name, data, append).Some? ==>
        var p := PlanWrite(old(View()), name, data, append).value;
        var s' := AfterWrite(old(View()), name, p);
        && Wrote(old(disk.sectors), old(disk.log), disk.sectors, disk.log, WriteTrace(old(View()), name, p))
        && (ok ==> View() == s' && disk.log == old(disk.log) + WriteTrace(old(View()), name, p))
        && (!ok ==> View() == old(View()) || View() == s'.(files := old(View()).files))
        && (|disk.log| < |old(disk.log)| + p.count ==> View() == old(View()))
        && (disk.present && disk.reliable && HasRegion(old(disk.sectors)) && p.start + p.count <= FLAREFS_SECTORS
          ==> ok)
    {
      hide Wrote, Apply, PlanWrite, NewEntry, DirTrace, SuperTrace, BlockTrace, DataSectors;
      ghost var s0, d0, log0 := View(), disk.sectors, disk.log;
      var plan := Decide(name, data, append);
      if plan.None? {
        return false;
      }
      var p := plan.value;
      ghost var a := BlockTrace(p.start, DataSectors(p.data, p.count));
      ok := WriteBlocks(p.start, DataSectors(p.data, p.count));
      ghost var d1, log1 := disk.sectors, disk.log;
      WroteLength(d0, log0, d1, log1, a);
      ghost var s' := AfterWrite(s0, name, p);
      ghost var b, c := DirTrace(s'.dir), SuperTrace(s'.super);
      assert WriteTrace(s0, name, p) == a + (b + c);
      if !ok {
        WroteWider(d0, log0, d1, log1, a, b + c);
        return false;
      }
      dir[p.dirIndex] := NewEntry(p, name);
      super := super.(nextFree := (p.start + p.count) % 0x1_0000_0000);
      assert dir[..] == s'.dir;
      assert View() == s'.(files := s0.files);
      ok := WriteMetadata();
      WroteLength(d1, log1, disk.sectors, disk.log, b + c);
      LogGrows(d1, log1, disk.sectors, disk.log, b + c);
      WroteMore(d0, log0, d1, log1, disk.sectors, disk.log, a, b + c);
      if !ok {
        return false;
      }
      assert disk.log == log0 + (a + (b + c));
      files[p.slot] := FsFile(name, p.data, p.dirIndex);
      if p.isNew {
        fileCount := fileCount + 1;
      }
      assert View().files == s'.files;
    }

    // ---------- fs_remove_file ----------

    /** fs_remove_file. */
    method RemoveFile(name: Name) returns (ok: bool)
      requires Valid()
      modifies this, dir, files, disk
      ensures Valid()
      ensures RemoveSlot(old(View()), name) < 0 ==>
        !ok && View() == old(View()) && disk.sectors == old(disk.sectors) && disk.log == old(disk.log)
      ensures RemoveSlot(old(View()), name) >= 0 ==>
        var slot := RemoveSlot(old(View()), name);
        var s' := AfterRemove(old(View()), slot);
        && Wrote(old(disk.sectors), old(disk.log), disk.sectors, disk.log, RemoveTrace(old(View()), slot))
        && (ok ==> View() == s' && disk.log == old(disk.log) + RemoveTrace(old(View()), slot))
        && (!ok ==> View() == s'.(files := old(View()).files))
        && (disk.present && disk.reliable ==> ok)
    {
      hide Wrote, Apply, FindSlot, WithoutSlot, DirTrace;
      ghost var s0, d0, log0 := View(), disk.sectors, disk.log;
      var slot := LookUp(name);
      if !writable || slot < 0 {
        return false;
      }
      var index := files[slot].dirIndex;
      if index >= super.dirEntries {
        return false;
      }
      dir[index] := EMPTY_ENTRY;
      ghost var s' := AfterRemove(s0, slot);
      assert dir[..] == s'.dir;
      ok := WriteDirectory();
      WroteLength(d0, log0, disk.sectors, disk.log, DirTrace(s'.dir));
      assert files[..fileCount] == s0.files;
      if !ok {
        return false;
      }
      ShiftDown(slot);
    }

    /** The loop that closes the gap in g_files. */
    method ShiftDown(slot: nat)
      requires files.Length == MAX_FILES && slot < fileCount <= MAX_FILES
      modifies this`fileCount, files
      ensures fileCount == old(fileCount) - 1
      ensures files[..fileCount] == WithoutSlot(old(files[..fileCount]), slot)
    {
      ghost var was := files[..fileCount];
      var i := slot + 1;
      while i < fileCount
        modifies files
        invariant slot < i <= fileCount
        invariant forall j :: 0 <= j < slot ==> files[j] == was[j]
        invariant forall j :: slot <= j < i - 1 ==> files[j] == was[j + 1]
        invariant forall j :: i <= j < fileCount ==> files[j] == was[j]
      {
        files[i - 1] := files[i];
        i := i + 1;
      }
      fileCount := fileCount - 1;
      files[fileCount] := FsFile([], [], 0);
      assert files[..fileCount] == WithoutSlot(was, slot);
    }

    // ---------- flarefs_mount ----------

    /** The sector loop that reads one file into a buffer kmalloc returned. */
    method ReadFile(e: DirEntry, heap: Heap, i: nat) returns (ok: bool, data: seq<Byte>)
      ensures ok ==> Readable(disk.sectors, e) && data == MountedBytes(disk.sectors, e, heap, i)
      ensures disk.present && disk.reliable && Readable(disk.sectors, e) ==> ok
    {
      var d := disk.sectors;
      data := seq(e.size, o requires 0 <= o < e.size => heap(i, o));
      NothingRead(d, e, heap, i, data);
      hide PartRead, ReadSector, Readable, MountedBytes;
      var k := 0;
      while k < e.count
        invariant 0 <= k <= e.count && 512 * k < e.size + 512
        invariant PartRead(d, e, heap, i, k, data)
      {
        var offset := 512 * k;
        var got, sector := disk.Read((e.start + k) % 0x1_0000_0000);
        SameSector(d, e.start + k);
        if !got {
          VisitedReadable(d, e, k);
          return false, data;
        }
        if offset >= e.size {
          break;
        }
        var copy := if offset + 512 > e.size then e.size - offset else 512;
        PartLength(d, e, heap, i, k, data);
        ghost var before := data;
        data := data[..offset] + sector[..copy] + data[offset + copy..];
        CopiedSector(d, e, heap, i, k, before, sector, copy, data);
        k := k + 1;
      }
      ok := true;
      ReadDone(d, e, heap, i, k, data);
    }

    /** The loop that reads g_dir's four sectors. */
    method ReadDirectory() returns (ok: bool)
      requires Valid() && !writable
      modifies dir
      ensures Valid()
      ensures ok ==> dir[..] == DirOf(disk.sectors)
      ensures disk.present && disk.reliable ==> ok
    {
      hide EntryAt, ScanTo;
      var d := disk.sectors;
      var i := 0;
      while i < DIR_SECTORS
        invariant 0 <= i <= DIR_SECTORS
        invariant forall k :: 0 <= k < 8 * i ==> dir[k] == EntryAt(At(d, 1 + k / 8), k % 8)
      {
        var got, sector := disk.Read(1 + i);
        assert ReadSector(d, 1 + i) == Some(At(d, 1 + i));
        if !got {
          return false;
        }
        forall j | 0 <= j < 8 {
          dir[8 * i + j] := EntryAt(sector, j);
        }
        i := i + 1;
      }
      ok := true;
    }

    /** flarefs_mount. A failed mount leaves the file system not writable. */
    method Mount(heap: Heap) returns (ok: bool)
      requires Valid() && !writable
      modifies this, dir, files
      ensures Valid() && disk.sectors == old(disk.sectors)
      ensures ok ==> FlareFsModel.Mount(disk.sectors, heap) == Some(View())
      ensures ok <==> writable
      ensures disk.present && disk.reliable ==> (ok <==> FlareFsModel.Mount(disk.sectors, heap).Some?)
    {
      hide MountedBytes, Readable, SuperOf, DirOf, ScanTo;
      if !disk.present {
        return false;
      }
      var d := disk.sectors;
      var got, sector := disk.Read(0);
      assert ReadSector(d, 0) == Some(At(d, 0));
      if !got {
        return false;
      }
      super := SuperOf(sector);
      if !GoodSuper(super) {
        return false;
      }
      got := ReadDirectory();
      if !got {
        return false;
      }
      ok := ReadFiles(heap);
      if ok {
        writable := true;
      }
    }

    /** The loop over directory entries: used entries with a name become files. */
    method ReadFiles(heap: Heap) returns (ok: bool)
      requires Valid() && !writable && super.dirEntries <= MAX_FILES
      modifies this`fileCount, files
      ensures Valid()
      ensures ok ==> ScanTo(disk.sectors, dir[..], super.dirEntries, heap) == Some(View().files)
      ensures disk.present && disk.reliable ==> (ok <==> ScanTo(disk.sectors, dir[..], super.dirEntries, heap).Some?)
    {
      hide MountedBytes, Readable, CStr;
      ghost var d, entries := disk.sectors, dir[..];
      fileCount := 0;
      var k := 0;
      assert files[..0] == [];
      while k < super.dirEntries
        invariant 0 <= k <= super.dirEntries && Valid()
        invariant ScanTo(d, entries, k, heap) == Some(files[..fileCount])
      {
        var e := dir[k];
        if !Skipped(e) && fileCount < MAX_FILES {
          var got, data := ReadFile(e, heap, k);
          if !got {
            if disk.present && disk.reliable {
              ScanStops(d, entries, k + 1, super.dirEntries, heap);
            }
            return false;
          }
          ghost var before := files[..fileCount];
          files[fileCount] := FsFile(CStr(e.name), data, k);
          fileCount := fileCount + 1;
          assert files[..fileCount] == before + [FsFile(CStr(e.name), data, k)];
        }
        k := k + 1;
      }
      ok := true;
    }

    /** fs_init: mount, or fall back to the files of the install media, read-only. */
    method Init(source: seq<FsFile>, heap: Heap)
      requires Valid() && |source| <= MAX_FILES
      modifies this, dir, files
      ensures Valid() && disk.sectors == old(disk.sectors)
      ensures disk.present && disk.reliable && FlareFsModel.Mount(disk.sectors, heap).Some? ==>
        View() == FlareFsModel.Mount(disk.sectors, heap).value
      ensures writable ==> FlareFsModel.Mount(disk.sectors, heap) == Some(View())
      ensures !writable ==> View().files == source
    {
      hide FlareFsModel.Mount;
      fileCount := 0;
      super := Super(0, 0, 0, 0, 0, 0, 0, 0);
      forall k | 0 <= k < MAX_FILES {
        dir[k] := EMPTY_ENTRY;
      }
      writable := false;
      var ok := Mount(heap);
      if !ok {
        fileCount := 0;
        while fileCount < |source|
          modifies this`fileCount, files
          invariant 0 <= fileCount <= |source| && Valid() && !writable
          invariant files[..fileCount] == source[..fileCount]
        {
          files[fileCount] := source[fileCount];
          fileCount := fileCount + 1;
        }
        assert source[..|source|] == source;
      }
    }

    // ---------- flarefs_format and fs_install ----------

    /** flarefs_format: on failure the tables keep their files, whatever the disk holds. */
    method Format() returns (ok: bool)
      requires Valid()
      modifies this, dir, files, disk
      ensures Valid()
      ensures Wrote(old(disk.sectors), old(disk.log), disk.sectors, disk.log, FormatTrace())
      ensures ok ==> View() == Formatted() && disk.log == old(disk.log) + FormatTrace()
      ensures disk.present && disk.reliable ==> ok
    {
      hide Wrote, Apply, ZeroBlocks, BlockTrace, SuperTrace, DirTrace;
      ghost var d0, log0 := disk.sectors, disk.log;
      ghost var a, b, c := BlockTrace(0, ZeroBlocks(FLAREFS_SECTORS)), SuperTrace(FormattedSuper()),
        DirTrace(EmptyDir());
      assert FormatTrace() == a + (b + c);
      if !disk.present {
        WroteNothing(d0, log0, FormatTrace());
        return false;
      }
      ok := WriteBlocks(0, ZeroBlocks(FLAREFS_SECTORS));
      ghost var d1, log1 := disk.sectors, disk.log;
      WroteLength(d0, log0, d1, log1, a);
      if !ok {
        WroteWider(d0, log0, d1, log1, a, b + c);
        return false;
      }
      super := FormattedSuper();
      forall k | 0 <= k < MAX_FILES {
        dir[k] := EMPTY_ENTRY;
      }
      assert dir[..] == EmptyDir();
      ok := WriteSuper();
      ghost var d2, log2 := disk.sectors, disk.log;
      WroteLength(d1, log1, d2, log2, b);
      if !ok {
        WroteWider(d1, log1, d2, log2, b, c);
        WroteMore(d0, log0, d1, log1, d2, log2, a, b + c);
        return false;
      }
      ok := WriteDirectory();
      WroteLength(d2, log2, disk.sectors, disk.log, c);
      WroteMore(d1, log1, d2, log2, disk.sectors, disk.log, b, c);
      WroteMore(d0, log0, d1, log1, disk.sectors, disk.log, a, b + c);
      if !ok {
        return false;
      }
      assert disk.log == log0 + (a + (b + c));
      fileCount := 0;
      writable := true;
      assert files[..0] == [];
    }

    /** fs_install: remember the files in memory, format, and write them back one by one. */
    method InstallFiles() returns (ok: bool)
      requires Valid()
      modifies this, dir, files, disk
      ensures Valid()
      ensures var p := Install(old(disk.sectors), old(View()).files);
        && Wrote(old(disk.sectors), old(disk.log), disk.sectors, disk.log, p.trace)
        && (ok ==> p.ok && View() == p.fs && disk.log == old(disk.log) + p.trace)
        && (disk.present && disk.reliable && Installable(old(View()).files) ==>
              (ok <==> p.ok) && View() == p.fs && disk.sectors == p.disk)
    {
      hide Wrote, Apply, FormatTrace, InstallTo, PlanWrite, WriteTrace, AfterWrite, Installable, Shaped, Formatted;
      ghost var d0, log0 := disk.sectors, disk.log;
      var saved := files[..fileCount];
      ghost var all := Install(d0, saved);
      InstallBegins(d0, saved);
      ok := Format();
      WroteLength(d0, log0, disk.sectors, disk.log, FormatTrace());
      if !ok {
        WidenTo(d0, log0, disk.sectors, disk.log, InstallTo(d0, saved, 0).trace, all.trace);
        return false;
      }
      WroteAll(d0, log0, disk.sectors, disk.log, InstallTo(d0, saved, 0).trace);
      var i := 0;
      while i < |saved|
        invariant 0 <= i <= |saved| && Valid()
        invariant var p := InstallTo(d0, saved, i);
          && p.ok && View() == p.fs && disk.sectors == p.disk && disk.log == log0 + p.trace
          && Wrote(d0, log0, disk.sectors, disk.log, p.trace)
      {
        ghost var p := InstallTo(d0, saved, i);
        ghost var d1, log1 := disk.sectors, disk.log;
        InstallStep(d0, saved, i);
        if Installable(saved) {
          InstallPlanFits(d0, saved, i);
        }
        InstallGrows(d0, saved, i + 1);
        ok := WriteFile(saved[i].name, saved[i].data, false);
        ghost var plan := PlanWrite(p.fs, saved[i].name, saved[i].data, false);
        if plan.None? {
          InstallGrows(d0, saved, i);
          WidenTo(d0, log0, d1, log1, p.trace, all.trace);
        } else {
          WroteMore(d0, log0, d1, log1, disk.sectors, disk.log, p.trace, WriteTrace(p.fs, saved[i].name, plan.value));
          WidenTo(d0, log0, disk.sectors, disk.log, p.trace + WriteTrace(p.fs, saved[i].name, plan.value), all.trace);
        }
        if !ok {
          return false;
        }
        ghost var t := WriteTrace(p.fs, saved[i].name, plan.value);
        assert log0 + p.trace + t == log0 + (p.trace + t);
        WroteAll(d1, log1, disk.sectors, disk.log, t);
        i := i + 1;
      }
    }
  }

  lemma WroteLength(d: DiskImage, log: seq<SectorWrite>, d': DiskImage, log': seq<SectorWrite>, t: seq<SectorWrite>)
    requires Wrote(d, log, d', log', t)
    ensures |d'| == |d|
  {
  }

  lemma BlockTraceSplit(base: nat, blocks: seq<Sector>, k: nat)
    requires k < |blocks|
    ensures var t := BlockTrace(base, blocks);
      var w := SectorWrite((base + k) % 0x1_0000_0000, blocks[k]);
      && BlockTrace(base, blocks[..k]) + [w] == BlockTrace(base, blocks[..k + 1])
      && BlockTrace(base, blocks[..k]) + [w] + t[k + 1..] == t
  {
  }

  lemma LogGrows(d: DiskImage, log: seq<SectorWrite>, d': DiskImage, log': seq<SectorWrite>, t: seq<SectorWrite>)
    requires Wrote(d, log, d', log', t)
    ensures |log| <= |log'| <= |log| + |t|
  {
  }

  lemma SameSector(d: DiskImage, sector: nat)
    ensures ReadSector(d, sector % 0x1_0000_0000) == ReadSector(d, sector)
  {
    assert Lba(sector % 0x1_0000_0000) == Lba(sector);
  }

  lemma VisitedReadable(d: DiskImage, e: DirEntry, k: nat)
    requires k < e.count && 512 * k < e.size + 512
    ensures Readable(d, e) ==> ReadSector(d, e.start + k).Some?
  {
    hide ReadSector;
    assert k < SectorsVisited(e);
  }

  /** The buffer after the first k sectors. */
  predicate PartRead(d: DiskImage, e: DirEntry, heap: Heap, i: nat, k: nat, data: seq<Byte>) {
    && |data| == e.size
    && (forall s :: e.start <= s < e.start + k ==> ReadSector(d, s).Some?)
    && (forall o :: 0 <= o < e.size ==>
          data[o] == if o / 512 < k then ReadSector(d, e.start + o / 512).value[o % 512] else heap(i, o))
  }

  lemma NothingRead(d: DiskImage, e: DirEntry, heap: Heap, i: nat, data: seq<Byte>)
    requires |data| == e.size && forall o :: 0 <= o < e.size ==> data[o] == heap(i, o)
    ensures PartRead(d, e, heap, i, 0, data)
  {
  }

  /** One round of the read loop copies sector k's share of the file. */
  lemma CopiedSector(d: DiskImage, e: DirEntry, heap: Heap, i: nat, k: nat, before: seq<Byte>, sector: Sector,
      copy: nat, data: seq<Byte>)
    requires k < e.count && 512 * k < e.size && PartRead(d, e, heap, i, k, before)
    requires ReadSector(d, e.start + k) == Some(sector)
    requires copy == if 512 * k + 512 > e.size then e.size - 512 * k else 512
    requires |before| == e.size && data == before[..512 * k] + sector[..copy] + before[512 * k + copy..]
    ensures PartRead(d, e, heap, i, k + 1, data)
  {
    hide ReadSector;
    forall o | 0 <= o < e.size
      ensures data[o] == if o / 512 < k + 1 then ReadSector(d, e.start + o / 512).value[o % 512] else heap(i, o)
    {
      if o < 512 * k {
        assert data[o] == before[o];
      } else if o < 512 * k + copy {
        assert data[o] == sector[o - 512 * k];
      } else {
        assert data[o] == before[o];
      }
    }
  }

  lemma ReadDone(d: DiskImage, e: DirEntry, heap: Heap, i: nat, k: nat, data: seq<Byte>)
    requires k <= e.count && 512 * k < e.size + 512 && PartRead(d, e, heap, i, k, data)
    requires k == e.count || (512 * k >= e.size && ReadSector(d, e.start + k).Some?)
    ensures Readable(d, e) && data == MountedBytes(d, e, heap, i)
  {
    hide ReadSector;
    assert SectorsVisited(e) <= k + 1;
    assert k == e.count ==> SectorsVisited(e) <= k;
    forall o | 0 <= o < e.size
      ensures data[o] == MountedByte(d, e, heap, i, o)
    {
    }
  }

  lemma PartLength(d: DiskImage, e: DirEntry, heap: Heap, i: nat, k: nat, data: seq<Byte>)
    requires PartRead(d, e, heap, i, k, data)
    ensures |data| == e.size
  {
  }

  /** A file that cannot be read stops the whole mount. */
  lemma {:induction false} ScanStops(d: DiskImage, dir: Directory, k: nat, n: nat, heap: Heap)
    requires 0 < k <= n <= MAX_FILES && ScanTo(d, dir, k, heap).None?
    ensures ScanTo(d, dir, n, heap).None?
  {
    if k < n {
      ScanStops(d, dir, k, n - 1, heap);
    }
  }

  lemma WidenTo(d: DiskImage, log: seq<SectorWrite>, d': DiskImage, log': seq<SectorWrite>, a: seq<SectorWrite>,
      t: seq<SectorWrite>)
    requires Wrote(d, log, d', log', a) && a <= t
    ensures Wrote(d, log, d', log', t)
  {
    WroteWider(d, log, d', log', a, t[|a|..]);
    assert a + t[|a|..] == t;
  }

  lemma WroteAll(d: DiskImage, log: seq<SectorWrite>, d': DiskImage, log': seq<SectorWrite>, t: seq<SectorWrite>)
    requires Wrote(d, log, d', log', t) && log' == log + t
    ensures d' == Apply(d, t)
  {
    assert log'[|log|..] == t;
  }

  lemma InstallBegins(d: DiskImage, files: seq<FsFile>)
    requires HasRegion(d)
    ensures InstallTo(d, files, 0) == Progress(true, 0, Formatted(), Apply(d, FormatTrace()), FormatTrace())
    ensures FormatTrace() <= Install(d, files).trace
  {
    hide Formatted, FormatTrace, Apply;
    InstallGrows(d, files, 0);
  }

  /** Later rounds only extend the trace, and an install that stopped stays stopped. */
  lemma {:induction false} InstallGrowsTo(d: DiskImage, files: seq<FsFile>, i: nat, n: nat)
    requires HasRegion(d) && i <= n <= |files|
    ensures InstallTo(d, files, i).trace <= InstallTo(d, files, n).trace
    ensures !InstallTo(d, files, i).ok ==> InstallTo(d, files, n) == InstallTo(d, files, i)
    decreases n
  {
    hide PlanWrite, WriteTrace, AfterWrite, Apply, FormatTrace, Formatted;
    if i < n {
      InstallGrowsTo(d, files, i, n - 1);
    }
  }

  lemma InstallGrows(d: DiskImage, files: seq<FsFile>, i: nat)
    requires HasRegion(d) && i <= |files|
    ensures InstallTo(d, files, i).trace <= Install(d, files).trace
    ensures !InstallTo(d, files, i).ok ==> Install(d, files) == InstallTo(d, files, i)
  {
    InstallGrowsTo(d, files, i, |files|);
  }

  /** What round i of the copy loop does. */
  lemma InstallStep(d: DiskImage, files: seq<FsFile>, i: nat)
    requires HasRegion(d) && i < |files| && InstallTo(d, files, i).ok
    ensures var p := InstallTo(d, files, i);
      var r := InstallTo(d, files, i + 1);
      var plan := PlanWrite(p.fs, files[i].name, files[i].data, false);
      && (plan.None? ==> r == p.(ok := false))
      && (plan.Some? ==>
            var t := WriteTrace(p.fs, files[i].name, plan.value);
            r == Progress(true, p.done + 1, AfterWrite(p.fs, files[i].name, plan.value), Apply(p.disk, t), p.trace + t))
  {
    hide WriteTrace, AfterWrite, Apply, PlanWrite, Formatted, FormatTrace;
  }

  /** On a reliable drive no planned write of an install leaves the region. */
  lemma InstallPlanFits(d: DiskImage, files: seq<FsFile>, i: nat)
    requires HasRegion(d) && Installable(files) && i < |files|
    ensures var p := InstallTo(d, files, i);
      var plan := PlanWrite(p.fs, files[i].name, files[i].data, false);
      plan.Some? ==> plan.value.start + plan.value.count <= FLAREFS_SECTORS
  {
    hide Inv, PlanWrite, CopiedTo, InstallTo;
    var p := InstallTo(d, files, i);
    if PlanWrite(p.fs, files[i].name, files[i].data, false).Some? {
      InstallRefines(d, files, i);
      CopiedInv(d, files, i, p);
      PlanFits(p.fs, p.disk, files[i].name, files[i].data, false);
    }
  }

  lemma CopiedInv(d: DiskImage, files: seq<FsFile>, n: nat, p: Progress)
    requires HasRegion(d) && n <= |files| && CopiedTo(d, files, n, p)
    ensures Inv(p.fs, p.disk)
  {
  }

  /** Crash atomicity also when a transfer fails: whatever one fs_write_file call left on the
      disk mounts as the old files or as the new ones. */
  lemma WrittenMounts(s: FsState, d: DiskImage, log: seq<SectorWrite>, d': DiskImage, log': seq<SectorWrite>,
                      name: Name, data: seq<Byte>, append: bool, p: Plan, heap: Heap)
    requires Inv(s, d) && |data| <= MAX_MEMORY
    requires PlanWrite(s, name, data, append) == Some(p)
    requires Wrote(d, log, d', log', WriteTrace(s, name, p))
    ensures |d'| == |d| && Mount(d', heap).Some?
    ensures var files := Mount(d', heap).value.files;
      Contents(files) == Contents(s.files)
      || Contents(files) == Contents(s.files)[name := FinalData(s, name, data, append)]
  {
    hide Inv, PlanWrite, WriteTrace, Mount, Contents, FinalData, Apply;
    var t := WriteTrace(s, name, p);
    var k := |log'| - |log|;
    assert log'[|log|..] == t[..k];
    WriteCrashAtomic(s, d, name, data, append, p, k, heap);
  }
}
