/** When a disk and the tables in memory agree, and what a mount rebuilds from such a disk. */
module FlareFsInvariant {
  import opened Machine
  import opened FlareLayout
  import opened FlareFsModel

  predicate EntryOk(e: DirEntry, limit: nat) {
    && ValidName(CStr(e.name))
    && DATA_START <= e.start && e.start + e.count <= limit
    && e.count == SectorsFor(e.size)
  }

  predicate DisjointExtents(a: DirEntry, b: DirEntry) {
    a.start + a.count <= b.start || b.start + b.count <= a.start
  }

  /** Used entries are well formed below `limit`, with distinct names. */
  predicate DirOk(dir: Directory, limit: nat) {
    && limit <= FLAREFS_SECTORS
    && (forall k :: 0 <= k < MAX_FILES && dir[k].used != 0 ==> EntryOk(dir[k], limit))
    && (forall j, k :: 0 <= j < k < MAX_FILES && dir[j].used != 0 && dir[k].used != 0 ==>
          CStr(dir[j].name) != CStr(dir[k].name))
  }

  /** Live extents do not overlap. */
  predicate Apart(dir: Directory) {
    forall j, k :: 0 <= j < k < MAX_FILES && dir[j].used != 0 && dir[k].used != 0 ==> DisjointExtents(dir[j], dir[k])
  }

  /** The metadata sectors hold this superblock and this directory. */
  predicate DiskHolds(d: DiskImage, s: Super, dir: Directory) {
    && HasRegion(d)
    && At(d, 0) == SuperSector(s)
    && forall i :: 0 <= i < DIR_SECTORS ==> At(d, 1 + i) == DirSectors(dir)[i]
  }

  function ContentByte(d: DiskImage, e: DirEntry, o: nat): Byte
    requires HasRegion(d) && EntryOk(e, FLAREFS_SECTORS) && o < e.size
  {
    At(d, e.start + o / 512)[o % 512]
  }

  /** The bytes an entry's extent holds. */
  function Content(d: DiskImage, e: DirEntry): (b: seq<Byte>)
    requires HasRegion(d) && EntryOk(e, FLAREFS_SECTORS)
    ensures |b| == e.size
  {
    seq(e.size, o requires 0 <= o < e.size => ContentByte(d, e, o))
  }

  predicate Listed(files: seq<FsFile>, k: nat) {
    exists i :: 0 <= i < |files| && files[i].dirIndex == k
  }

  /** `files` lists exactly the used ones of the first n entries, each once. */
  predicate LinkedTo(files: seq<FsFile>, dir: Directory, d: DiskImage, n: nat)
    requires HasRegion(d) && DirOk(dir, FLAREFS_SECTORS) && n <= MAX_FILES
  {
    && (forall i :: 0 <= i < |files| ==>
          var f := files[i];
          f.dirIndex < n && dir[f.dirIndex].used != 0 &&
          f.name == CStr(dir[f.dirIndex].name) && f.data == Content(d, dir[f.dirIndex]))
    && (forall i, j :: 0 <= i < j < |files| ==> files[i].dirIndex != files[j].dirIndex)
    && (forall k :: 0 <= k < n && dir[k].used != 0 ==> Listed(files, k))
  }

  predicate Linked(files: seq<FsFile>, dir: Directory, d: DiskImage)
    requires HasRegion(d) && DirOk(dir, FLAREFS_SECTORS)
  {
    LinkedTo(files, dir, d, MAX_FILES)
  }

  /** Memory and disk agree; so after every mount of a disk with sound metadata. */
  predicate Agrees(s: FsState, d: DiskImage) {
    && s.writable && Shaped(s) && HasRegion(d)
    && GoodSuper(s.super) && s.super.dirEntries == MAX_FILES
    && DATA_START <= s.super.nextFree <= FLAREFS_SECTORS
    && DirOk(s.dir, FLAREFS_SECTORS)
    && DiskHolds(d, s.super, s.dir)
    && Linked(s.files, s.dir, d)
  }

  /** The invariant of every crash-free run: besides, live extents are disjoint and lie below
      next_free_sector. */
  predicate Inv(s: FsState, d: DiskImage) {
    Agrees(s, d) && DirOk(s.dir, s.super.nextFree) && Apart(s.dir)
  }

  // ---------- The file map of linked tables ----------

  lemma LinkedNames(files: seq<FsFile>, dir: Directory, d: DiskImage)
    requires HasRegion(d) && DirOk(dir, FLAREFS_SECTORS) && Linked(files, dir, d)
    ensures DistinctNames(files)
  {
    forall i, j | 0 <= i < j < |files|
      ensures files[i].name != files[j].name
    {
      var a, b := files[i].dirIndex, files[j].dirIndex;
      assert a != b;
      assert a < b || b < a;
    }
  }

  /** With distinct names the map has exactly one entry per file. */
  lemma ContentsAt(files: seq<FsFile>, i: nat)
    requires DistinctNames(files) && i < |files|
    ensures FindSlot(files, files[i].name) == i
    ensures files[i].name in Contents(files)
    ensures Contents(files)[files[i].name] == files[i].data
  {
    assert files[i].name in Names(files);
  }

  lemma ContentsIndex(files: seq<FsFile>, n: Name) returns (i: nat)
    requires n in Contents(files)
    ensures i < |files| && files[i].name == n
  {
    i := FindSlot(files, n);
  }

  /** Two tables linked to the same directory and disk show the same files. */
  lemma LinkedContentsUnique(f: seq<FsFile>, g: seq<FsFile>, dir: Directory, d: DiskImage)
    requires HasRegion(d) && DirOk(dir, FLAREFS_SECTORS)
    requires Linked(f, dir, d) && Linked(g, dir, d)
    ensures Contents(f) == Contents(g)
  {
    LinkedSubmap(f, g, dir, d);
    LinkedSubmap(g, f, dir, d);
  }

  lemma LinkedSubmap(f: seq<FsFile>, g: seq<FsFile>, dir: Directory, d: DiskImage)
    requires HasRegion(d) && DirOk(dir, FLAREFS_SECTORS)
    requires Linked(f, dir, d) && Linked(g, dir, d)
    ensures forall n :: n in Contents(f) ==> n in Contents(g) && Contents(f)[n] == Contents(g)[n]
  {
    LinkedNames(f, dir, d);
    LinkedNames(g, dir, d);
    forall n | n in Contents(f)
      ensures n in Contents(g) && Contents(f)[n] == Contents(g)[n]
    {
      var i :| 0 <= i < |f| && f[i].name == n;
      assert Listed(g, f[i].dirIndex);
      var j :| 0 <= j < |g| && g[j].dirIndex == f[i].dirIndex;
      ContentsAt(f, i);
      ContentsAt(g, j);
    }
  }

  // ---------- Mounting a well-formed disk ----------

  lemma DirOfHolds(d: DiskImage, s: Super, dir: Directory)
    requires DiskHolds(d, s, dir)
    ensures SuperOf(At(d, 0)) == s && DirOf(d) == dir
  {
    SuperRoundTrip(s);
    forall k | 0 <= k < MAX_FILES
      ensures DirOf(d)[k] == dir[k]
    {
      DirEntryRoundTrip(dir, k);
      assert At(d, 1 + k / 8) == DirSectors(dir)[k / 8];
    }
  }

  lemma MountedIsContent(d: DiskImage, e: DirEntry, heap: Heap, i: nat)
    requires HasRegion(d) && EntryOk(e, FLAREFS_SECTORS)
    ensures Readable(d, e) && MountedBytes(d, e, heap, i) == Content(d, e)
  {
    forall s | e.start <= s < e.start + SectorsVisited(e)
      ensures ReadSector(d, s).Some?
    {
      assert ReadSector(d, s) == Some(At(d, s));
    }
    forall o | 0 <= o < e.size
      ensures MountedByte(d, e, heap, i, o) == ContentByte(d, e, o)
    {
      assert o / 512 < e.count;
      assert ReadSector(d, e.start + o / 512) == Some(At(d, e.start + o / 512));
    }
  }

  /** Listing the used entry n after the entries below it. */
  lemma LinkedExtend(before: seq<FsFile>, file: FsFile, dir: Directory, d: DiskImage, n: nat)
    requires HasRegion(d) && DirOk(dir, FLAREFS_SECTORS) && n < MAX_FILES
    requires LinkedTo(before, dir, d, n) && dir[n].used != 0
    requires file == FsFile(CStr(dir[n].name), Content(d, dir[n]), n)
    ensures LinkedTo(before + [file], dir, d, n + 1)
  {
    var files := before + [file];
    forall k | 0 <= k < n + 1 && dir[k].used != 0
      ensures Listed(files, k)
    {
      if k == n {
        assert files[|before|].dirIndex == k;
      } else {
        assert Listed(before, k);
        var i :| 0 <= i < |before| && before[i].dirIndex == k;
        assert files[i].dirIndex == k;
      }
    }
  }

  lemma {:induction false} ScanLinked(d: DiskImage, dir: Directory, n: nat, heap: Heap)
    requires HasRegion(d) && DirOk(dir, FLAREFS_SECTORS) && n <= MAX_FILES
    ensures ScanTo(d, dir, n, heap).Some?
    ensures LinkedTo(ScanTo(d, dir, n, heap).value, dir, d, n)
  {
    hide MountedBytes, Content, Readable;
    if n > 0 {
      ScanLinked(d, dir, n - 1, heap);
      var e := dir[n - 1];
      if e.used != 0 {
        assert EntryOk(e, FLAREFS_SECTORS);
        assert !Skipped(e) by {
          assert CStr(e.name)[0] == e.name[0];
        }
        MountedIsContent(d, e, heap, n - 1);
        LinkedExtend(ScanTo(d, dir, n - 1, heap).value, FsFile(CStr(e.name), Content(d, e), n - 1), dir, d, n - 1);
      }
    }
  }

  /** A disk with sound metadata mounts, whatever the heap held, to tables linked to it. */
  lemma MountLinked(d: DiskImage, s: Super, dir: Directory, heap: Heap)
    requires GoodSuper(s) && s.dirEntries == MAX_FILES
    requires DirOk(dir, FLAREFS_SECTORS) && DiskHolds(d, s, dir)
    ensures Mount(d, heap).Some?
    ensures var m := Mount(d, heap).value;
      m.super == s && m.dir == dir && m.writable && Shaped(m) && Linked(m.files, dir, d)
  {
    DirOfHolds(d, s, dir);
    ScanLinked(d, dir, MAX_FILES, heap);
  }

  /** A remount after a crash-free run shows the same files and satisfies the invariant again. */
  lemma RemountSame(s: FsState, d: DiskImage, heap: Heap)
    requires Inv(s, d)
    ensures Mount(d, heap).Some?
    ensures var m := Mount(d, heap).value;
      Inv(m, d) && m.super == s.super && m.dir == s.dir && Contents(m.files) == Contents(s.files)
  {
    MountLinked(d, s.super, s.dir, heap);
    LinkedContentsUnique(Mount(d, heap).value.files, s.files, s.dir, d);
  }

  lemma DirOkWeaken(dir: Directory, limit: nat)
    requires DirOk(dir, limit)
    ensures limit <= FLAREFS_SECTORS && DirOk(dir, FLAREFS_SECTORS)
  {
  }

  /** Extents keep their bytes when their sectors do. */
  lemma ContentFrame(d: DiskImage, d': DiskImage, e: DirEntry)
    requires HasRegion(d) && HasRegion(d') && EntryOk(e, FLAREFS_SECTORS)
    requires forall s :: e.start <= s < e.start + e.count ==> At(d', s) == At(d, s)
    ensures Content(d', e) == Content(d, e)
  {
    forall o | 0 <= o < e.size
      ensures ContentByte(d', e, o) == ContentByte(d, e, o)
    {
      assert o / 512 < e.count;
      assert At(d', e.start + o / 512) == At(d, e.start + o / 512);
    }
  }

  lemma LinkedFrame(files: seq<FsFile>, dir: Directory, d: DiskImage, d': DiskImage, limit: nat)
    requires HasRegion(d) && HasRegion(d') && DirOk(dir, limit) && Linked(files, dir, d)
    requires forall s :: DATA_START <= s < limit ==> At(d', s) == At(d, s)
    ensures Linked(files, dir, d')
  {
    forall i | 0 <= i < |files|
      ensures files[i].data == Content(d', dir[files[i].dirIndex])
    {
      ContentFrame(d, d', dir[files[i].dirIndex]);
    }
  }
}
