/** FlareFS byte by byte: what a format leaves on the disk, and what a mount makes of any disk. */
module FlareFsBytes {
  import opened Machine
  import opened FlareLayout
  import opened FlareFsModel
  import opened FlareFsCrash
  import FlareFsInstall

  /** The little-endian word at offset i of a sector. */
  function Le(x: Sector, i: nat): int
    requires i + 4 <= SECTOR_LEN
  {
    var b0: int, b1: int, b2: int, b3: int := x[i], x[i + 1], x[i + 2], x[i + 3];
    b0 + 0x100 * b1 + 0x1_0000 * b2 + 0x100_0000 * b3
  }

  /** Offset of entry k in its directory sector. */
  function Offset(k: nat): nat {
    64 * (k % 8)
  }

  // ---------- What is written ----------

  /** The words of a formatted superblock. */
  lemma FormattedWords()
    ensures var x := SuperSector(FormattedSuper());
      && GoodWords(x) && Le(x, 16) == 32 && Le(x, 24) == 5 && Le(x, 28) == 0 && x[32..] == Zeros(480)
  {
    hide SuperOf, Le;
    SuperRoundTrip(FormattedSuper());
    SuperFields(SuperSector(FormattedSuper()));
  }

  /** A finished format leaves that superblock and zeros in the region's other 255 sectors. */
  lemma FormatLayout(d: DiskImage, t: nat)
    requires HasRegion(d) && t < 256
    ensures At(Apply(d, FormatTrace()), t) == if t == 0 then SuperSector(FormattedSuper()) else Zeros(512)
  {
    hide DirSectors, SuperSector, BlockTrace, Apply, Zeros;
    var zeros, super, dir := ZeroBlocks(FLAREFS_SECTORS), SuperSector(FormattedSuper()), DirSectors(EmptyDir());
    var z, s := BlockTrace(0, zeros), SuperTrace(FormattedSuper());
    ApplyAppend(d, z + s, DirTrace(EmptyDir()));
    ApplyAppend(d, z, s);
    BlockTraceEffect(d, 0, zeros);
    BlockTraceEffect(Apply(d, z), 0, [super]);
    BlockTraceEffect(Apply(Apply(d, z), s), 1, dir);
    assert zeros[t] == Zeros(SECTOR_LEN);
    if 1 <= t < 5 {
      FlareFsInstall.EmptyDirSectors(t - 1);
    }
  }

  /** The fields of a directory entry, at their places in its sector. */
  lemma EntryBytesAt(dir: Directory, k: nat)
    requires k < 32
    ensures var x, p := DirSector(dir, k / 8), Offset(k);
      && Le(x, p) == dir[k].used && Le(x, p + 4) == dir[k].start && Le(x, p + 8) == dir[k].count
      && Le(x, p + 12) == dir[k].size && x[p + 16..p + 64] == dir[k].name
  {
    hide DirSector;
    DirEntryRoundTrip(dir, k);
    EntryFields(DirSector(dir, k / 8), k);
  }

  /** A remove clears all 64 bytes of the file's entry. */
  lemma RemovedBytes(s: FsState, slot: nat)
    requires Shaped(s) && s.writable && slot < |s.files| && s.files[slot].dirIndex < s.super.dirEntries
    ensures var k := s.files[slot].dirIndex;
      DirSector(AfterRemove(s, slot).dir, k / 8)[Offset(k)..Offset(k) + 64] == Zeros(64)
  {
    var k := s.files[slot].dirIndex;
    var dir := AfterRemove(s, slot).dir;
    var es := dir[8 * (k / 8)..8 * (k / 8) + 8];
    assert es[k % 8] == dir[k] == EMPTY_ENTRY;
    PackAt(es, k % 8);
    NoWords();
  }

  lemma NoWords()
    ensures EntryBytes(EMPTY_ENTRY) == Zeros(64)
  {
    assert LE32(0) == Zeros(4);
    assert [0, 0, 0, 0][1..] == [0, 0, 0] && [0, 0, 0][1..] == [0, 0] && [0, 0][1..] == [0];
    var one: seq<U32> := [0];
    assert one[1..] == [] && Words(one) == Zeros(4);
    assert Words([0, 0]) == Zeros(8);
    assert Words([0, 0, 0]) == Zeros(12);
    assert Words([0, 0, 0, 0]) == Zeros(16);
  }

  /** Reading an entry takes its fields from those places. */
  lemma EntryFields(x: Sector, k: nat)
    ensures var e, p := EntryAt(x, k % 8), Offset(k);
      && e.used == Le(x, p) && e.start == Le(x, p + 4) && e.count == Le(x, p + 8)
      && e.size == Le(x, p + 12) && e.name == x[p + 16..p + 64]
  {
    var p := Offset(k);
    var b := x[p..p + 64];
    SliceWord(x, p, 0);
    SliceWord(x, p, 1);
    SliceWord(x, p, 2);
    SliceWord(x, p, 3);
    assert b[16..64] == x[p + 16..p + 64];
  }

  lemma SliceWord(x: Sector, p: nat, j: nat)
    requires p + 64 <= SECTOR_LEN && j < 4
    ensures WordOf(x[p..p + 64], j) == Le(x, p + 4 * j)
  {
    var b, i := x[p..p + 64], 4 * j;
    assert b[i] == x[p + i] && b[i + 1] == x[p + i + 1] && b[i + 2] == x[p + i + 2] && b[i + 3] == x[p + i + 3];
    var w := b[i..i + 4];
    assert w[0] == b[i] && w[1] == b[i + 1] && w[2] == b[i + 2] && w[3] == b[i + 3];
  }

  // ---------- What is read ----------

  /** The superblock words that a mount insists on. */
  predicate GoodWords(x: Sector) {
    && Le(x, 0) == 0x31534646 && Le(x, 4) == 1 && Le(x, 8) == 321 && Le(x, 12) == 256
    && Le(x, 16) <= 32 && Le(x, 20) == 4
  }

  /** Entry k is in use and its name does not start with NUL. */
  predicate Shows(d: DiskImage, k: nat)
    requires HasRegion(d) && k < 32
  {
    Le(At(d, 1 + k / 8), Offset(k)) != 0 && At(d, 1 + k / 8)[Offset(k) + 16] != 0
  }

  lemma SuperFields(x: Sector)
    ensures var s := SuperOf(x);
      && s.magic == Le(x, 0) && s.version == Le(x, 4) && s.startLba == Le(x, 8) && s.totalSectors == Le(x, 12)
      && s.dirEntries == Le(x, 16) && s.dirSectors == Le(x, 20) && s.nextFree == Le(x, 24)
      && s.reserved == Le(x, 28)
  {
    forall j | 0 <= j < 8
      ensures WordOf(x, j) == Le(x, 4 * j)
    {
    }
  }

  /** Entry k as the directory sectors hold it. */
  lemma ShownIff(d: DiskImage, k: nat)
    requires HasRegion(d) && k < 32
    ensures Skipped(DirOf(d)[k]) <==> !Shows(d, k)
  {
    hide EntryAt, Le;
    EntryFields(At(d, 1 + k / 8), k);
  }

  lemma {:induction false} ScanIff(d: DiskImage, n: nat, heap: Heap)
    requires HasRegion(d) && n <= 32
    ensures ScanTo(d, DirOf(d), n, heap).Some? <==> forall k :: 0 <= k < n && Shows(d, k) ==> Readable(d, DirOf(d)[k])
  {
    hide DirOf, Readable, Skipped, Shows, MountedBytes;
    if n > 0 {
      ScanIff(d, n - 1, heap);
      ShownIff(d, n - 1);
    }
  }

  /** The sectors of entry k's extent that hold its bytes, and the one behind them when the extent
      has it, are on the disk. */
  ghost predicate Stored(d: DiskImage, k: nat)
    requires HasRegion(d) && k < 32
  {
    var x, p := At(d, 1 + k / 8), Offset(k);
    ExtentOnDisk(d, Le(x, p + 4), Le(x, p + 8), Le(x, p + 12))
  }

  ghost predicate ExtentOnDisk(d: DiskImage, start: int, count: int, size: int) {
    forall j :: 0 <= j < count && 512 * (j - 1) < size ==> OnDisk(d, start, j)
  }

  /** Sector j of an extent that starts at `start`: the region starts at sector 321, sector numbers
      are u32, and the drive addresses 28 bits. */
  predicate OnDisk(d: DiskImage, start: int, j: int) {
    var lba := (321 + start + j) % 0x1_0000_0000;
    lba < 0x1000_0000 && lba < |d|
  }

  lemma StoredIff(d: DiskImage, k: nat)
    requires HasRegion(d) && k < 32
    ensures Readable(d, DirOf(d)[k]) <==> Stored(d, k)
  {
    hide EntryAt, Le, ReadSector, OnDisk;
    EntryFields(At(d, 1 + k / 8), k);
    var e := DirOf(d)[k];
    assert e == EntryAt(At(d, 1 + k / 8), k % 8);
    if Readable(d, e) {
      forall j | 0 <= j < e.count && 512 * (j - 1) < e.size
        ensures OnDisk(d, e.start, j)
      {
        VisitedIff(d, e, j);
      }
    }
    if Stored(d, k) {
      forall s | e.start <= s < e.start + SectorsVisited(e)
        ensures ReadSector(d, s).Some?
      {
        VisitedIff(d, e, s - e.start);
      }
    }
  }

  lemma VisitedIff(d: DiskImage, e: DirEntry, j: nat)
    ensures j < SectorsVisited(e) <==> j < e.count && 512 * (j - 1) < e.size
    ensures ReadSector(d, e.start + j).Some? <==> OnDisk(d, e.start, j)
  {
  }

  /** A disk mounts exactly when those six words are right and the disk stores every shown entry. */
  lemma MountIff(d: DiskImage, heap: Heap)
    requires HasRegion(d)
    ensures Mount(d, heap).Some? <==>
      && GoodWords(At(d, 0))
      && forall k :: 0 <= k < Le(At(d, 0), 16) && Shows(d, k) ==> Stored(d, k)
  {
    hide DirOf, Readable, Shows, Le, ScanTo, SuperOf, Stored;
    SuperFields(At(d, 0));
    if GoodWords(At(d, 0)) {
      ScanIff(d, Le(At(d, 0), 16), heap);
      forall k | 0 <= k < Le(At(d, 0), 16)
        ensures Readable(d, DirOf(d)[k]) <==> Stored(d, k)
      {
        StoredIff(d, k);
      }
    }
  }

  /** What the table lists of the first n entries. */
  ghost predicate ListsShown(d: DiskImage, heap: Heap, n: nat, files: seq<FsFile>)
    requires HasRegion(d) && n <= 32
  {
    && (forall i, j :: 0 <= i < j < |files| ==> files[i].dirIndex < files[j].dirIndex)
    && (forall k :: 0 <= k < n && Shows(d, k) ==> exists i :: 0 <= i < |files| && files[i].dirIndex == k)
    && (forall i :: 0 <= i < |files| ==> files[i].dirIndex < n && ShownAs(d, heap, files[i]))
  }

  /** A table entry shows its directory entry: the name up to its NUL, as many bytes as its size
      says, and of each byte the one in its sector, or what memory held behind the extent. */
  ghost predicate ShownAs(d: DiskImage, heap: Heap, f: FsFile)
    requires HasRegion(d)
  {
    f.dirIndex < 32 && Shows(d, f.dirIndex) &&
    var x, p := At(d, 1 + f.dirIndex / 8), Offset(f.dirIndex);
    && f.name == CStr(x[p + 16..p + 64]) && |f.data| == Le(x, p + 12)
    && forall o :: 0 <= o < |f.data| ==>
         if o / 512 < Le(x, p + 8)
         then ReadSector(d, Le(x, p + 4) + o / 512).Some? &&
              f.data[o] == ReadSector(d, Le(x, p + 4) + o / 512).value[o % 512]
         else f.data[o] == heap(f.dirIndex, o)
  }

  lemma EntryShown(d: DiskImage, heap: Heap, k: nat)
    requires HasRegion(d) && k < 32 && Shows(d, k) && Readable(d, DirOf(d)[k])
    ensures ShownAs(d, heap, FsFile(CStr(DirOf(d)[k].name), MountedBytes(d, DirOf(d)[k], heap, k), k))
  {
    hide EntryAt, Le, CStr, ReadSector, Shows;
    EntryFields(At(d, 1 + k / 8), k);
    var e := DirOf(d)[k];
    assert e == EntryAt(At(d, 1 + k / 8), k % 8);
    forall o | 0 <= o < e.size && o / 512 < e.count
      ensures ReadSector(d, e.start + o / 512).Some?
    {
      assert o / 512 < SectorsVisited(e);
    }
  }

  lemma NothingListed(d: DiskImage, heap: Heap)
    requires HasRegion(d)
    ensures ListsShown(d, heap, 0, [])
  {
  }

  lemma {:induction false} ScanLists(d: DiskImage, n: nat, heap: Heap)
    requires HasRegion(d) && n <= 32 && ScanTo(d, DirOf(d), n, heap).Some?
    ensures ListsShown(d, heap, n, ScanTo(d, DirOf(d), n, heap).value)
  {
    hide DirOf, Readable, Skipped, Shows, MountedBytes, ShownAs, ListsShown;
    NothingListed(d, heap);
    if n > 0 {
      ScanLists(d, n - 1, heap);
      ShownIff(d, n - 1);
      var before := ScanTo(d, DirOf(d), n - 1, heap).value;
      if Shows(d, n - 1) {
        EntryShown(d, heap, n - 1);
        OneMore(d, heap, n - 1, before, ScanTo(d, DirOf(d), n, heap).value[|before|]);
      } else {
        NoMore(d, heap, n - 1, before);
      }
    }
  }

  lemma OneMore(d: DiskImage, heap: Heap, n: nat, files: seq<FsFile>, f: FsFile)
    requires HasRegion(d) && n < 32 && ListsShown(d, heap, n, files) && f.dirIndex == n && ShownAs(d, heap, f)
    ensures ListsShown(d, heap, n + 1, files + [f])
  {
    hide Shows, ShownAs;
    var all := files + [f];
    assert forall i :: 0 <= i < |files| ==> all[i] == files[i];
    assert all[|files|] == f;
  }

  lemma NoMore(d: DiskImage, heap: Heap, n: nat, files: seq<FsFile>)
    requires HasRegion(d) && n < 32 && ListsShown(d, heap, n, files) && !Shows(d, n)
    ensures ListsShown(d, heap, n + 1, files)
  {
    hide Shows, ShownAs;
  }

  /** The table of any disk that mounts. */
  lemma MountLists(d: DiskImage, heap: Heap)
    requires HasRegion(d) && Mount(d, heap).Some?
    ensures Le(At(d, 0), 16) <= 32 && ListsShown(d, heap, Le(At(d, 0), 16), Mount(d, heap).value.files)
    ensures Mount(d, heap).value.super.nextFree == Le(At(d, 0), 24)
  {
    hide DirOf, Shows, Le, ScanTo, SuperOf, ListsShown;
    SuperFields(At(d, 0));
    ScanLists(d, Le(At(d, 0), 16), heap);
  }
}
