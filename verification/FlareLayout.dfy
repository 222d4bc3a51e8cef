/** The on-disk format of FlareFS: superblock, directory sectors, extents. */
module FlareLayout {
  import opened Machine

  const FLAREFS_MAGIC: U32 := 0x31534646
  const FLAREFS_VERSION: U32 := 1
  const FLAREFS_LBA: U32 := 321
  const FLAREFS_SECTORS: U32 := 256
  const DIR_SECTORS: U32 := 4
  const MAX_FILES: U32 := 32
  const NAME_LEN: nat := 48
  const SECTOR_LEN: nat := 512
  const DATA_START: U32 := 1 + DIR_SECTORS

  type Sector = s: seq<Byte> | |s| == SECTOR_LEN witness Zeros(SECTOR_LEN)
  type NameField = s: seq<Byte> | |s| == NAME_LEN witness Zeros(NAME_LEN)

  datatype Super = Super(magic: U32, version: U32, startLba: U32, totalSectors: U32,
                         dirEntries: U32, dirSectors: U32, nextFree: U32, reserved: U32)

  datatype DirEntry = DirEntry(used: U32, start: U32, count: U32, size: U32, name: NameField)

  const EMPTY_ENTRY := DirEntry(0, 0, 0, 0, Zeros(NAME_LEN))

  function SuperWords(s: Super): seq<U32> {
    [s.magic, s.version, s.startLba, s.totalSectors, s.dirEntries, s.dirSectors, s.nextFree, s.reserved]
  }

  function SuperSector(s: Super): Sector {
    Words(SuperWords(s)) + Zeros(480)
  }

  function WordOf(b: seq<Byte>, j: nat): U32
    requires 4 * j + 4 <= |b|
  {
    FromLE32(b[4 * j..4 * j + 4])
  }

  function SuperOf(x: Sector): Super {
    Super(WordOf(x, 0), WordOf(x, 1), WordOf(x, 2), WordOf(x, 3), WordOf(x, 4), WordOf(x, 5), WordOf(x, 6),
      WordOf(x, 7))
  }

  lemma SuperRoundTrip(s: Super)
    ensures SuperOf(SuperSector(s)) == s
  {
    forall j | 0 <= j < 8
      ensures WordOf(SuperSector(s), j) == SuperWords(s)[j]
    {
      WordAt(SuperWords(s), j, Zeros(480));
    }
  }

  /** The packed 64-byte directory entry. */
  function EntryBytes(e: DirEntry): (b: seq<Byte>)
    ensures |b| == 64
  {
    Words([e.used, e.start, e.count, e.size]) + e.name
  }

  function EntryOf(b: seq<Byte>): DirEntry
    requires |b| == 64
  {
    DirEntry(WordOf(b, 0), WordOf(b, 1), WordOf(b, 2), WordOf(b, 3), b[16..64])
  }

  lemma EntryRoundTrip(e: DirEntry)
    ensures EntryOf(EntryBytes(e)) == e
  {
    var ws := [e.used, e.start, e.count, e.size];
    forall j | 0 <= j < 4
      ensures WordOf(EntryBytes(e), j) == ws[j]
    {
      WordAt(ws, j, e.name);
    }
    assert EntryBytes(e)[16..64] == e.name;
  }

  /** Consecutive entries of g_dir as raw memory. */
  function Pack(es: seq<DirEntry>): (b: seq<Byte>)
    ensures |b| == 64 * |es|
  {
    if es == [] then [] else EntryBytes(es[0]) + Pack(es[1..])
  }

  lemma {:induction false} PackAt(es: seq<DirEntry>, j: nat)
    requires j < |es|
    ensures Pack(es)[64 * j..64 * j + 64] == EntryBytes(es[j])
  {
    if j > 0 {
      PackAt(es[1..], j - 1);
      assert Pack(es)[64..] == Pack(es[1..]);
      assert Pack(es)[64 * j..64 * j + 64] == Pack(es[1..])[64 * (j - 1)..64 * (j - 1) + 64];
    }
  }

  type Directory = d: seq<DirEntry> | |d| == MAX_FILES witness seq(32, _ => EMPTY_ENTRY)

  /** Directory sector i (of 4): g_dir's bytes from 512 * i. */
  function DirSector(dir: Directory, i: nat): Sector
    requires i < DIR_SECTORS
  {
    Pack(dir[8 * i..8 * i + 8])
  }

  /** Entry j of a directory sector. */
  function EntryAt(x: Sector, j: nat): DirEntry
    requires j < 8
  {
    EntryOf(x[64 * j..64 * j + 64])
  }

  /** A 64-byte entry never straddles two sectors: entry k is read back whole from sector k / 8. */
  lemma DirEntryRoundTrip(dir: Directory, k: nat)
    requires k < MAX_FILES
    ensures EntryAt(DirSector(dir, k / 8), k % 8) == dir[k]
  {
    PackAt(dir[8 * (k / 8)..8 * (k / 8) + 8], k % 8);
    EntryRoundTrip(dir[k]);
  }

  /** Changing entry k changes directory sector k / 8 and no other. */
  lemma OneDirSectorChanges(dir: Directory, k: nat, e: DirEntry, i: nat)
    requires k < MAX_FILES && i < DIR_SECTORS
    ensures DirSector(dir[k := e], i) == DirSector(dir, i) <==> (i != k / 8 || dir[k] == e)
  {
    if i != k / 8 {
      assert dir[k := e][8 * i..8 * i + 8] == dir[8 * i..8 * i + 8];
    } else {
      DirEntryRoundTrip(dir, k);
      DirEntryRoundTrip(dir[k := e], k);
      if dir[k] == e {
        assert dir[k := e] == dir;
      }
    }
  }

  /** A NUL-padded name field, as strcpy into zeroed memory leaves it. */
  function PadName(name: seq<Byte>): NameField
    requires |name| < NAME_LEN
  {
    name + Zeros(NAME_LEN - |name|)
  }

  lemma PadNameRoundTrip(name: seq<Byte>)
    requires |name| < NAME_LEN && 0 !in name
    ensures CStr(PadName(name)) == name
  {
    CStrOfTerminated(name, Zeros(NAME_LEN - |name|));
  }

  /** Sectors a file of `size` bytes occupies: at least one. */
  function SectorsFor(size: nat): (c: nat)
    ensures c > 0 && size <= SECTOR_LEN * c
    ensures c > 1 ==> SECTOR_LEN * (c - 1) < size
  {
    if size == 0 then 1 else (size + 511) / 512
  }

  /** Sector k of a file's data, zero-filled past the end. */
  function DataSector(data: seq<Byte>, k: nat): Sector {
    var offset := SECTOR_LEN * k;
    if offset >= |data| then Zeros(SECTOR_LEN)
    else if offset + SECTOR_LEN > |data| then data[offset..] + Zeros(SECTOR_LEN - (|data| - offset))
    else data[offset..offset + SECTOR_LEN]
  }
}
