/** FlareFS as functions: what a mount rebuilds from a disk, and what a write or remove
    plans, puts on the disk sector by sector, and leaves in memory. */
module FlareFsModel {
  import opened Machine
  import opened FlareLayout

  type Name = seq<Byte>

  /** Bytes of buffer i at offset o that kmalloc hands out and nothing overwrites. */
  type Heap = (nat, nat) -> Byte

  datatype FsFile = FsFile(name: Name, data: seq<Byte>, dirIndex: U32)

  /** g_super, g_dir, the first g_file_count of g_files, and g_fs_writable. */
  datatype FsState = FsState(super: Super, dir: Directory, files: seq<FsFile>, writable: bool)

  // ---------- The disk ----------

  /** The whole ATA disk, sector by sector. */
  type DiskImage = seq<Sector>

  datatype SectorWrite = SectorWrite(sector: U32, data: Sector)

  /** FLAREFS_LBA + sector in u32 arithmetic. */
  function Lba(sector: nat): U32 {
    (FLAREFS_LBA + sector) % 0x1_0000_0000
  }

  predicate Addressable(d: DiskImage, sector: nat) {
    Lba(sector) < 0x1000_0000 && Lba(sector) < |d|
  }

  function ReadSector(d: DiskImage, sector: nat): Option<Sector> {
    if Addressable(d, sector) then Some(d[Lba(sector)]) else None
  }

  function ApplyOne(d: DiskImage, w: SectorWrite): (d': DiskImage)
    ensures |d'| == |d|
  {
    if Addressable(d, w.sector) then d[Lba(w.sector) := w.data] else d
  }

  /** The disk after a trace of sector writes. */
  function Apply(d: DiskImage, ws: seq<SectorWrite>): (d': DiskImage)
    ensures |d'| == |d|
  {
    if ws == [] then d else ApplyOne(Apply(d, ws[..|ws| - 1]), ws[|ws| - 1])
  }

  lemma {:induction false} ApplyAppend(d: DiskImage, a: seq<SectorWrite>, b: seq<SectorWrite>)
    ensures Apply(d, a + b) == Apply(Apply(d, a), b)
  {
    if b == [] {
      assert a + b == a;
    } else {
      var n := |b| - 1;
      assert (a + b)[..|a| + n] == a + b[..n];
      assert (a + b)[|a + b| - 1] == b[n];
      ApplyAppend(d, a, b[..n]);
    }
  }

  /** A disk large enough to hold the FlareFS region. */
  predicate HasRegion(d: DiskImage) {
    |d| >= FLAREFS_LBA + FLAREFS_SECTORS
  }

  /** Sector `sector` of the FlareFS region. */
  function At(d: DiskImage, sector: nat): Sector
    requires HasRegion(d) && sector < FLAREFS_SECTORS
    ensures ReadSector(d, sector) == Some(At(d, sector))
  {
    d[FLAREFS_LBA + sector]
  }

  // ---------- Mounting ----------

  predicate GoodSuper(s: Super) {
    s.magic == FLAREFS_MAGIC && s.version == FLAREFS_VERSION && s.startLba == FLAREFS_LBA &&
    s.totalSectors == FLAREFS_SECTORS && s.dirEntries <= MAX_FILES && s.dirSectors == DIR_SECTORS
  }

  predicate Skipped(e: DirEntry) {
    e.used == 0 || e.name[0] == 0
  }

  function Min(a: nat, b: nat): nat {
    if a < b then a else b
  }

  /** The sectors the read loop of a mount visits: it stops one past the last useful one. */
  function SectorsVisited(e: DirEntry): nat {
    Min(e.count, (e.size + 511) / 512 + 1)
  }

  predicate Readable(d: DiskImage, e: DirEntry) {
    forall s :: e.start <= s < e.start + SectorsVisited(e) ==> ReadSector(d, s).Some?
  }

  /** Byte o of a file as a mount rebuilds it; past the extent the buffer keeps what it held. */
  function MountedByte(d: DiskImage, e: DirEntry, heap: Heap, i: nat, o: nat): Byte
    requires Readable(d, e) && o < e.size
  {
    if o / 512 < e.count then ReadSector(d, e.start + o / 512).value[o % 512] else heap(i, o)
  }

  function MountedBytes(d: DiskImage, e: DirEntry, heap: Heap, i: nat): (b: seq<Byte>)
    requires Readable(d, e)
    ensures |b| == e.size
  {
    seq(e.size, o requires 0 <= o < e.size => MountedByte(d, e, heap, i, o))
  }

  /** The files found in the first n directory entries, in directory order. */
  function ScanTo(d: DiskImage, dir: Directory, n: nat, heap: Heap): (r: Option<seq<FsFile>>)
    requires n <= MAX_FILES
    ensures r.Some? ==> |r.value| <= n && forall i :: 0 <= i < |r.value| ==> r.value[i].dirIndex < n
  {
    if n == 0 then Some([])
    else
      var before := ScanTo(d, dir, n - 1, heap);
      var e := dir[n - 1];
      if before.None? || Skipped(e) then before
      else if !Readable(d, e) then None
      else Some(before.value + [FsFile(CStr(e.name), MountedBytes(d, e, heap, n - 1), n - 1)])
  }

  /** g_dir after reading the four directory sectors. */
  function DirOf(d: DiskImage): Directory
    requires HasRegion(d)
  {
    seq(MAX_FILES, k requires 0 <= k < MAX_FILES => EntryAt(At(d, 1 + k / 8), k % 8))
  }

  /** What flarefs_mount leaves in memory when no transfer fails; None when it returns 0. */
  function Mount(d: DiskImage, heap: Heap): Option<FsState>
    requires HasRegion(d)
  {
    var s := SuperOf(At(d, 0));
    if !GoodSuper(s) then None
    else
      match ScanTo(d, DirOf(d), s.dirEntries, heap)
      case None => None
      case Some(files) => Some(FsState(s, DirOf(d), files, true))
  }

  // ---------- The file map ----------

  /** flarefs_find_slot from index i on. */
  function FindFrom(files: seq<FsFile>, name: Name, i: nat): (r: int)
    requires i <= |files|
    ensures r == -1 || i <= r < |files|
    ensures r >= 0 ==> files[r].name == name && forall j :: i <= j < r ==> files[j].name != name
    ensures r < 0 ==> forall j :: i <= j < |files| ==> files[j].name != name
    decreases |files| - i
  {
    if i == |files| then -1
    else if files[i].name == name then i
    else FindFrom(files, name, i + 1)
  }

  function FindSlot(files: seq<FsFile>, name: Name): (r: int)
    ensures r == -1 || 0 <= r < |files|
    ensures r >= 0 ==> files[r].name == name
    ensures r < 0 ==> forall j :: 0 <= j < |files| ==> files[j].name != name
  {
    FindFrom(files, name, 0)
  }

  function Names(files: seq<FsFile>): set<Name> {
    set i | 0 <= i < |files| :: files[i].name
  }

  /** The file table as a name-to-bytes map, as fs_file_name / fs_file_data show it. */
  function Contents(files: seq<FsFile>): map<Name, seq<Byte>> {
    map n | n in Names(files) :: files[FindSlot(files, n)].data
  }

  predicate DistinctNames(files: seq<FsFile>) {
    forall i, j :: 0 <= i < j < |files| ==> files[i].name != files[j].name
  }

  // ---------- Writing ----------

  predicate NameByte(ch: Byte) {
    0x20 < ch < 0x80 && ch != 0x2f && ch != 0x5c
  }

  /** flarefs_valid_name: 1 to 47 bytes; `char` is signed, so bytes from 0x80 are below ' '. */
  predicate ValidName(name: Name) {
    0 < |name| < NAME_LEN && forall i :: 0 <= i < |name| ==> NameByte(name[i])
  }

  /** The first unused directory entry among the first n, or n. */
  function FreeEntry(dir: Directory, n: nat): (k: nat)
    requires n <= MAX_FILES
    ensures k <= n
    ensures k < n ==> dir[k].used == 0
    ensures forall j :: 0 <= j < k ==> dir[j].used != 0
  {
    FreeFrom(dir, 0, n)
  }

  function FreeFrom(dir: Directory, i: nat, n: nat): (k: nat)
    requires i <= n <= MAX_FILES
    ensures i <= k <= n
    ensures k < n ==> dir[k].used == 0
    ensures forall j :: i <= j < k ==> dir[j].used != 0
    decreases n - i
  {
    if i == n || dir[i].used == 0 then i else FreeFrom(dir, i + 1, n)
  }

  /** What flarefs_write_internal decides before its first disk write. */
  datatype Plan = Plan(slot: nat, isNew: bool, dirIndex: U32, data: seq<Byte>, start: U32, count: U32)

  /** The bytes stored: the old ones first when appending to a file that exists. */
  function FinalData(s: FsState, name: Name, data: seq<Byte>, append: bool): seq<Byte> {
    var slot := FindSlot(s.files, name);
    if append && slot >= 0 then s.files[slot].data + data else data
  }

  /** sector_count in u32 arithmetic. */
  function CountFor(size: nat): U32 {
    var c := (size + 511) / 512 % 0x1_0000_0000;
    if c == 0 then 1 else c
  }

  /** Shape of every state: slots fit the tables once a file system is mounted. */
  predicate Shaped(s: FsState) {
    && |s.files| <= MAX_FILES
    && (s.writable ==> s.super.dirEntries <= MAX_FILES)
    && (s.writable ==> forall i :: 0 <= i < |s.files| ==> s.files[i].dirIndex < MAX_FILES)
  }

  function PlanWrite(s: FsState, name: Name, data: seq<Byte>, append: bool): (r: Option<Plan>)
    requires Shaped(s)
    ensures r.Some? ==>
      && r.value.dirIndex < MAX_FILES && ValidName(name) && |name| < NAME_LEN && s.writable
      && r.value.slot < MAX_FILES
      && r.value.slot <= |s.files| && (r.value.isNew <==> r.value.slot == |s.files|)
  {
    if !s.writable || !ValidName(name) then None
    else
      var final := FinalData(s, name, data, append);
      var slot := FindSlot(s.files, name);
      var k := FreeEntry(s.dir, s.super.dirEntries);
      if slot < 0 && (k == s.super.dirEntries || |s.files| >= MAX_FILES) then None
      else
        var count := CountFor(|final|);
        if (s.super.nextFree + count) % 0x1_0000_0000 > s.super.totalSectors then None
        else if slot >= 0 then Some(Plan(slot, false, s.files[slot].dirIndex, final, s.super.nextFree, count))
        else Some(Plan(|s.files|, true, k, final, s.super.nextFree, count))
  }

  /** The directory entry a write stores. */
  function NewEntry(p: Plan, name: Name): DirEntry
    requires |name| < NAME_LEN
  {
    DirEntry(1, p.start, p.count, |p.data| % 0x1_0000_0000, PadName(name))
  }

  /** The file table after its slot is set; slot g_file_count is the next free one. */
  function WithSlot(files: seq<FsFile>, slot: nat, f: FsFile): (r: seq<FsFile>)
    requires slot <= |files|
    ensures |r| == if slot == |files| then |files| + 1 else |files|
    ensures r[slot] == f
    ensures forall i :: 0 <= i < |r| && i != slot ==> r[i] == files[i]
  {
    if slot == |files| then files + [f] else files[slot := f]
  }

  function AfterWrite(s: FsState, name: Name, p: Plan): FsState
    requires |name| < NAME_LEN && p.dirIndex < MAX_FILES && p.slot <= |s.files|
  {
    var file := FsFile(name, p.data, p.dirIndex);
    s.(super := s.super.(nextFree := (p.start + p.count) % 0x1_0000_0000),
       dir := s.dir[p.dirIndex := NewEntry(p, name)],
       files := WithSlot(s.files, p.slot, file))
  }

  // ---------- Traces of sector writes ----------

  /** One write per block, to consecutive sectors from `base`. */
  function BlockTrace(base: nat, blocks: seq<Sector>): (t: seq<SectorWrite>)
    ensures |t| == |blocks|
  {
    seq(|blocks|, k requires 0 <= k < |blocks| => SectorWrite((base + k) % 0x1_0000_0000, blocks[k]))
  }

  /** A file's data cut into `count` sectors. */
  function DataSectors(data: seq<Byte>, count: nat): (b: seq<Sector>)
    ensures |b| == count
  {
    seq(count, k requires 0 <= k < count => DataSector(data, k))
  }

  /** g_dir cut into sectors. */
  function DirSectors(dir: Directory): (b: seq<Sector>)
    ensures |b| == DIR_SECTORS
  {
    seq(DIR_SECTORS, i requires 0 <= i < DIR_SECTORS => DirSector(dir, i))
  }

  /** flarefs_write_directory. */
  function DirTrace(dir: Directory): seq<SectorWrite> {
    BlockTrace(1, DirSectors(dir))
  }

  /** flarefs_write_super. */
  function SuperTrace(s: Super): seq<SectorWrite> {
    BlockTrace(0, [SuperSector(s)])
  }

  function WriteTrace(s: FsState, name: Name, p: Plan): seq<SectorWrite>
    requires |name| < NAME_LEN && p.dirIndex < MAX_FILES && p.slot <= |s.files|
  {
    var s' := AfterWrite(s, name, p);
    BlockTrace(p.start, DataSectors(p.data, p.count)) + DirTrace(s'.dir) + SuperTrace(s'.super)
  }

  /** The slot fs_remove_file clears, or -1 when it returns 0 before writing. */
  function RemoveSlot(s: FsState, name: Name): (slot: int)
    ensures slot == -1 || 0 <= slot < |s.files|
    ensures slot >= 0 ==> s.writable && s.files[slot].dirIndex < s.super.dirEntries && s.files[slot].name == name
  {
    var slot := FindSlot(s.files, name);
    if !s.writable || slot < 0 || s.files[slot].dirIndex >= s.super.dirEntries then -1 else slot
  }

  /** The file table after the shifting loop of fs_remove_file. */
  function WithoutSlot(files: seq<FsFile>, slot: nat): (r: seq<FsFile>)
    requires slot < |files|
    ensures |r| == |files| - 1
    ensures forall i :: 0 <= i < |r| ==> r[i] == files[if i < slot then i else i + 1]
  {
    files[..slot] + files[slot + 1..]
  }

  function RemoveTrace(s: FsState, slot: nat): (t: seq<SectorWrite>)
    requires Shaped(s) && s.writable && slot < |s.files| && s.files[slot].dirIndex < s.super.dirEntries
    ensures |t| == DIR_SECTORS
  {
    DirTrace(AfterRemove(s, slot).dir)
  }

  function AfterRemove(s: FsState, slot: nat): FsState
    requires Shaped(s) && s.writable && slot < |s.files| && s.files[slot].dirIndex < s.super.dirEntries
  {
    s.(dir := s.dir[s.files[slot].dirIndex := EMPTY_ENTRY],
       files := WithoutSlot(s.files, slot))
  }

  // ---------- Formatting ----------

  function FormattedSuper(): Super {
    Super(FLAREFS_MAGIC, FLAREFS_VERSION, FLAREFS_LBA, FLAREFS_SECTORS, MAX_FILES, DIR_SECTORS, DATA_START, 0)
  }

  function EmptyDir(): Directory {
    seq(MAX_FILES, _ => EMPTY_ENTRY)
  }

  function Formatted(): FsState {
    FsState(FormattedSuper(), EmptyDir(), [], true)
  }

  /** What fs_init leaves when nothing mounts and there is no install media. */
  function Unmounted(): FsState {
    FsState(Super(0, 0, 0, 0, 0, 0, 0, 0), EmptyDir(), [], false)
  }

  function ZeroBlocks(n: nat): (b: seq<Sector>)
    ensures |b| == n
  {
    seq(n, _ => Zeros(SECTOR_LEN))
  }

  /** flarefs_format: every sector zeroed, then the superblock, then the directory. */
  function FormatTrace(): seq<SectorWrite> {
    BlockTrace(0, ZeroBlocks(FLAREFS_SECTORS)) + SuperTrace(FormattedSuper()) + DirTrace(EmptyDir())
  }
}
