/** The paging driver: page_pool, page_pool_used and table entries updated in place. */
module Paging {
  import opened Machine
  import opened PageTables
  import opened PageMapping
  import opened PageRanges
  import opened PageRoots

  // ---------- What paging_init builds ----------

  /** page_pool's physical address is page aligned and its 256 tables end below 2^52. */
  predicate PoolBase(base: nat) {
    base % PAGE_SIZE == 0 && base + PAGE_SIZE * PAGE_POOL_COUNT <= PHYS_LIMIT
  }

  /** One zeroed root. */
  function EmptyForest(base: nat): Forest {
    Forest([Empty()], base, 0, [[]])
  }

  lemma EmptyForestInv(base: nat)
    requires PoolBase(base)
    ensures Inv(EmptyForest(base)) && Counted(EmptyForest(base), 1) && PathSet(EmptyForest(base)) == {}
  {
  }

  lemma EmptyForestFaults(base: nat, va: nat)
    ensures Walk(EmptyForest(base), 0, va) == None
  {
  }

  function IdentitySize(totalMemory: U64): (size: nat)
    ensures 0 < size <= MAX_IDENTITY
  {
    if 0 < totalMemory <= MAX_IDENTITY then totalMemory
    else if totalMemory > MAX_IDENTITY then MAX_IDENTITY
    else 0x400_0000
  }

  /** 2 MiB pages that a size rounds up to. */
  function PagesFor(size: nat): (n: nat)
    ensures n * PAGE_SIZE_2MB < size + PAGE_SIZE_2MB && size <= n * PAGE_SIZE_2MB
  {
    (size + PAGE_SIZE_2MB - 1) / PAGE_SIZE_2MB
  }

  function RoundDown(x: nat): (r: nat)
    ensures r <= x < r + PAGE_SIZE_2MB && r % PAGE_SIZE_2MB == 0
  {
    x - x % PAGE_SIZE_2MB
  }

  /** Framebuffer pages that are mapped: none when its rounded base lies in the identity map. */
  function FramePages(identity: nat, fb: nat, fbSize: nat): nat {
    if RoundDown(fb) >= identity && fbSize != 0 then PagesFor(fbSize) else 0
  }

  function InitForest(base: nat, identity: nat, fb: nat, fbSize: nat): (r: Option<Forest>)
    requires PoolBase(base) && identity <= MAX_IDENTITY
      && RoundDown(fb) + PagesFor(fbSize) * PAGE_SIZE_2MB <= VIRT_LIMIT
    ensures r.Some? ==> Inv(r.value) && IsRoot(r.value, 0) && r.value.main == 0
  {
    EmptyForestInv(base);
    match MapRange(EmptyForest(base), 0, 0, PagesFor(identity), PAGE_WRITABLE)
    case None => None
    case Some(f) => MapRange(f, RoundDown(fb), RoundDown(fb), FramePages(identity, fb, fbSize), PAGE_WRITABLE)
  }

  /** Exactly the identity range and the framebuffer pages walk, each address to itself. */
  lemma InitWalks(base: nat, identity: nat, fb: nat, fbSize: nat, va: nat)
    requires PoolBase(base) && identity <= MAX_IDENTITY
      && RoundDown(fb) + PagesFor(fbSize) * PAGE_SIZE_2MB <= VIRT_LIMIT
    requires InitForest(base, identity, fb, fbSize).Some? && va < VIRT_LIMIT
    ensures var n := FramePages(identity, fb, fbSize);
      Walk(InitForest(base, identity, fb, fbSize).value, 0, va) ==
        if va < PagesFor(identity) * PAGE_SIZE_2MB || RoundDown(fb) <= va < RoundDown(fb) + n * PAGE_SIZE_2MB
        then Some(va) else None
  {
    hide Walk, MapRange, Inv, PagesFor, RoundDown, I4;
    EmptyForestInv(base);
    EmptyForestFaults(base, va);
    var n1, n2, start := PagesFor(identity), FramePages(identity, fb, fbSize), RoundDown(fb);
    var f := MapRange(EmptyForest(base), 0, 0, n1, PAGE_WRITABLE).value;
    MapRangeWalks(EmptyForest(base), 0, 0, n1, PAGE_WRITABLE, 0, va);
    MapRangeWalks(f, start, start, n2, PAGE_WRITABLE, 0, va);
  }

  /** Address a belongs to the memory that paging_init maps: all of it up to 16 GiB, and 64 MiB when
      its size is not known. */
  predicate InMemory(totalMemory: U64, a: nat) {
    if totalMemory == 0 then a < 0x400_0000 else a < totalMemory && a < 0x4_0000_0000
  }

  /** The pages that hold memory, and those of a framebuffer whose first page holds none, as many as
      its size rounds up to. */
  predicate BootMapped(totalMemory: U64, fb: nat, fbSize: nat, va: nat) {
    || InMemory(totalMemory, RoundDown(va))
    || (!InMemory(totalMemory, RoundDown(fb)) && RoundDown(fb) <= va && RoundDown(va) - RoundDown(fb) < fbSize)
  }

  lemma PageBegun(x: nat, va: nat)
    ensures va < PagesFor(x) * PAGE_SIZE_2MB <==> RoundDown(va) < x
  {
  }

  lemma PageOfRange(start: nat, x: nat, va: nat)
    requires start % PAGE_SIZE_2MB == 0 && start <= va
    ensures va < start + PagesFor(x) * PAGE_SIZE_2MB <==> RoundDown(va) - start < x
  {
    PageBegun(x, va - start);
    assert RoundDown(va) == start + RoundDown(va - start);
  }

  lemma SizeOfMemory(totalMemory: U64, a: nat)
    ensures a < IdentitySize(totalMemory) <==> InMemory(totalMemory, a)
  {
  }

  /** What paging_init leaves, from the boot info alone: each address of a mapped page walks to
      itself, and every other address faults. */
  lemma BootWalks(base: nat, totalMemory: U64, fb: nat, fbSize: nat, va: nat)
    requires PoolBase(base) && RoundDown(fb) + PagesFor(fbSize) * PAGE_SIZE_2MB <= VIRT_LIMIT
    requires InitForest(base, IdentitySize(totalMemory), fb, fbSize).Some? && va < VIRT_LIMIT
    ensures Walk(InitForest(base, IdentitySize(totalMemory), fb, fbSize).value, 0, va) ==
      if BootMapped(totalMemory, fb, fbSize, va) then Some(va) else None
  {
    hide Walk, InitForest, PagesFor, RoundDown, IdentitySize, InMemory;
    var identity := IdentitySize(totalMemory);
    InitWalks(base, identity, fb, fbSize, va);
    PageBegun(identity, va);
    SizeOfMemory(totalMemory, RoundDown(va));
    SizeOfMemory(totalMemory, RoundDown(fb));
    if RoundDown(fb) <= va {
      PageOfRange(RoundDown(fb), fbSize, va);
    }
  }

  /** Every byte of memory up to 16 GiB walks to itself, and 64 MiB do when the size is unknown. */
  lemma IdentityMapped(base: nat, totalMemory: U64, fb: nat, fbSize: nat, va: nat)
    requires PoolBase(base) && RoundDown(fb) + PagesFor(fbSize) * PAGE_SIZE_2MB <= VIRT_LIMIT
    requires InitForest(base, IdentitySize(totalMemory), fb, fbSize).Some?
    requires if totalMemory == 0 then va < 0x400_0000 else va < totalMemory && va < 0x4_0000_0000
    ensures Walk(InitForest(base, IdentitySize(totalMemory), fb, fbSize).value, 0, va) == Some(va)
  {
    hide Walk, InitForest, PagesFor, IdentitySize;
    BootWalks(base, totalMemory, fb, fbSize, va);
  }

  /** A machine with 512 MiB and no framebuffer: its last byte is mapped, the byte behind it not. */
  lemma HalfGigabyte(base: nat)
    requires PoolBase(base)
    ensures var r := InitForest(base, IdentitySize(0x2000_0000), 0, 0);
      && r.Some? && |r.value.tables| == 3
      && Walk(r.value, 0, 0x1fff_ffff) == Some(0x1fff_ffff) && Walk(r.value, 0, 0x2000_0000) == None
  {
    hide InitForest, Slots4, Slots3, Walk;
    InitCost(base, 0x2000_0000, 0, 0);
    NoSlots(0);
    IdentitySlots(256);
    assert PagesFor(0x2000_0000) == 256;
    assert Slots4(0, 256) + Slots4(0, 0) == Slots4(0, 256);
    assert Slots3(0, 256) + Slots3(0, 0) == Slots3(0, 256);
    BootWalks(base, 0x2000_0000, 0, 0, 0x1fff_ffff);
    BootWalks(base, 0x2000_0000, 0, 0, 0x2000_0000);
  }

  predicate MapsToItself(f: Forest, va: nat)
    requires f.main < |f.tables|
  {
    Walk(f, f.main, va) == Some(va)
  }

  /** A framebuffer above the identity map is mapped in full exactly when its size, rounded up
      to pages, still reaches its end from the rounded-down base. */
  lemma FramebufferMappedIff(base: nat, identity: nat, fb: nat, fbSize: nat)
    requires PoolBase(base) && identity <= MAX_IDENTITY
      && RoundDown(fb) + PagesFor(fbSize) * PAGE_SIZE_2MB <= VIRT_LIMIT
    requires InitForest(base, identity, fb, fbSize).Some?
    requires RoundDown(fb) >= identity && fbSize > 0 && fb + fbSize <= VIRT_LIMIT
    ensures (forall va :: fb <= va < fb + fbSize ==>
      MapsToItself(InitForest(base, identity, fb, fbSize).value, va)) <==>
      fb % PAGE_SIZE_2MB + fbSize <= PagesFor(fbSize) * PAGE_SIZE_2MB
  {
    hide Walk, InitForest;
    var f := InitForest(base, identity, fb, fbSize).value;
    if fb % PAGE_SIZE_2MB + fbSize <= PagesFor(fbSize) * PAGE_SIZE_2MB {
      forall va | fb <= va < fb + fbSize
        ensures MapsToItself(f, va)
      {
        InitWalks(base, identity, fb, fbSize, va);
      }
    } else {
      var va := fb + fbSize - 1;
      InitWalks(base, identity, fb, fbSize, va);
      assert !MapsToItself(f, va) by {
        BeyondIdentity(identity, fb);
      }
    }
  }

  lemma BeyondIdentity(identity: nat, fb: nat)
    requires RoundDown(fb) >= identity
    ensures PagesFor(identity) * PAGE_SIZE_2MB <= RoundDown(fb)
  {
  }

  // ---------- What paging_init costs ----------

  lemma IdentityCost(base: nat, n: nat)
    requires PoolBase(base) && 0 < n && n * PAGE_SIZE_2MB <= PHYS_LIMIT
    ensures var r := MapRange(EmptyForest(base), 0, 0, n, PAGE_WRITABLE);
      && (r.Some? <==> 1 + |Slots4(0, n) + Slots3(0, n)| <= PAGE_POOL_COUNT)
      && (r.Some? ==> Counted(r.value, 1) && PathSet(r.value) == Slots4(0, n) + Slots3(0, n))
  {
    hide MapRange, Inv, Slots4, Slots3, PathSet;
    EmptyForestInv(base);
    MapRangeCost(EmptyForest(base), 0, 0, n, PAGE_WRITABLE, 1);
    assert PathSet(EmptyForest(base)) + (Slots4(0, n) + Slots3(0, n)) == Slots4(0, n) + Slots3(0, n);
  }

  /** page_pool_used after paging_init: one root, one table per level 4 slot touched and one
      per level 3 slot touched; it panics exactly when that exceeds the pool. */
  lemma InitCost(base: nat, identity: nat, fb: nat, fbSize: nat)
    requires PoolBase(base) && 0 < identity <= MAX_IDENTITY
      && RoundDown(fb) + PagesFor(fbSize) * PAGE_SIZE_2MB <= VIRT_LIMIT
    ensures var n1, n2, s := PagesFor(identity), FramePages(identity, fb, fbSize), RoundDown(fb);
      var r := InitForest(base, identity, fb, fbSize);
      var tables := 1 + |Slots4(0, n1) + Slots4(s, n2)| + |Slots3(0, n1) + Slots3(s, n2)|;
      && (r.Some? <==> tables <= PAGE_POOL_COUNT)
      && (r.Some? ==> |r.value.tables| == tables)
  {
    hide MapRange, Inv, PathSet, Slots4, Slots3, PagesFor, RoundDown;
    EmptyForestInv(base);
    PagesPositive(identity);
    var n1, n2, s := PagesFor(identity), FramePages(identity, fb, fbSize), RoundDown(fb);
    IdentityCost(base, n1);
    LevelsApart(n1, s, n2);
    var first, more := Slots4(0, n1) + Slots3(0, n1), Slots4(s, n2) + Slots3(s, n2);
    SubsetCard(first, first + more);
    if MapRange(EmptyForest(base), 0, 0, n1, PAGE_WRITABLE).Some? {
      MapRangeCost(MapRange(EmptyForest(base), 0, 0, n1, PAGE_WRITABLE).value, s, s, n2, PAGE_WRITABLE, 1);
      if n2 == 0 {
        NoSlots(s);
        assert first + more == first;
      }
    }
  }

  lemma PagesPositive(size: nat)
    ensures size > 0 ==> PagesFor(size) > 0
  {
  }

  lemma LevelsApart(n1: nat, s: nat, n2: nat)
    ensures |Slots4(0, n1) + Slots3(0, n1) + (Slots4(s, n2) + Slots3(s, n2))| ==
      |Slots4(0, n1) + Slots4(s, n2)| + |Slots3(0, n1) + Slots3(s, n2)|
  {
    hide I4, I3;
    var a, b := Slots4(0, n1) + Slots4(s, n2), Slots3(0, n1) + Slots3(s, n2);
    assert forall p :: p in a ==> |p| == 1;
    assert forall p :: p in b ==> |p| == 2;
    assert a !! b;
    assert Slots4(0, n1) + Slots3(0, n1) + (Slots4(s, n2) + Slots3(s, n2)) == a + b;
  }

  /** No path is long enough for a table of 4 KiB pages. */
  predicate NoPageTables(f: Forest) {
    forall c :: 0 <= c < |f.path| ==> |f.path[c]| <= 2
  }

  lemma ShortPaths(f: Forest, v: nat, n: nat, g: Forest)
    requires NoPageTables(f) && PathSet(g) == PathSet(f) + (Slots4(v, n) + Slots3(v, n))
    ensures NoPageTables(g)
  {
    hide I4, I3;
    forall c | 0 <= c < |g.path|
      ensures |g.path[c]| <= 2
    {
      assert g.path[c] != [] ==> g.path[c] in PathSet(g);
    }
  }

  lemma RangeShort(f: Forest, v: nat, phys: nat, n: nat, roots: nat)
    requires Inv(f) && Counted(f, roots) && NoPageTables(f) && phys + n * PAGE_SIZE_2MB <= PHYS_LIMIT
    requires MapRange(f, v, phys, n, PAGE_WRITABLE).Some?
    ensures var g := MapRange(f, v, phys, n, PAGE_WRITABLE).value; Counted(g, roots) && NoPageTables(g)
  {
    hide Inv, Counted, NoPageTables, PathSet, Slots4, Slots3;
    MapRangeCost(f, v, phys, n, PAGE_WRITABLE, roots);
    ShortPaths(f, v, n, MapRange(f, v, phys, n, PAGE_WRITABLE).value);
  }

  lemma InitShort(base: nat, identity: nat, fb: nat, fbSize: nat)
    requires PoolBase(base) && identity <= MAX_IDENTITY
      && RoundDown(fb) + PagesFor(fbSize) * PAGE_SIZE_2MB <= VIRT_LIMIT
    requires InitForest(base, identity, fb, fbSize).Some?
    ensures NoPageTables(InitForest(base, identity, fb, fbSize).value)
  {
    hide MapRange, Inv, Counted, PagesFor, RoundDown;
    EmptyForestInv(base);
    var n1, n2, s := PagesFor(identity), FramePages(identity, fb, fbSize), RoundDown(fb);
    RangeShort(EmptyForest(base), 0, 0, n1, 1);
    RangeShort(MapRange(EmptyForest(base), 0, 0, n1, PAGE_WRITABLE).value, s, s, n2, 1);
  }

  lemma OnlyLarge(f: Forest, va: nat)
    requires Inv(f) && NoPageTables(f) && Walk(f, f.main, va).Some?
    ensures !NotLarge(f, va)
  {
    hide HasParent, LinkTo, I4, I3, I2, I1, LeafAt4, FrameOf;
    ViaPd(f, f.main, I4(va), I3(va), I2(va), I1(va));
    var d := PdOf(f, f.main, I4(va), I3(va));
    if d.Some? && Present(f.tables[d.value][I2(va)]) && !Large(f.tables[d.value][I2(va)]) {
      DerefPath(f, d.value, I2(va));
    }
  }

  /** After paging_init every identity address is in a large page, so mapping a 4 KiB page there
      changes no table unless that page's memory is a pool table. */
  lemma IdentityPageLost(base: nat, totalMemory: U64, fb: nat, fbSize: nat, v: nat, phys: U64, flags: U64)
    requires PoolBase(base) && RoundDown(fb) + PagesFor(fbSize) * PAGE_SIZE_2MB <= VIRT_LIMIT
    requires InitForest(base, IdentitySize(totalMemory), fb, fbSize).Some? && InMemory(totalMemory, v)
    ensures var f := InitForest(base, IdentitySize(totalMemory), fb, fbSize).value;
      && Inv(f) && !NotLarge(f, v)
      && (Deref(f, LargeEntry(f, v)).None? ==> Map4K(f, v, phys, flags) == Some(f))
  {
    hide Inv, Walk, Map4K, LargeEntry, NotLarge, Deref, MapRange, NoPageTables, RoundDown, PagesFor;
    var f := InitForest(base, IdentitySize(totalMemory), fb, fbSize).value;
    EmptyForestInv(base);
    IdentityMapped(base, totalMemory, fb, fbSize, v);
    InitShort(base, IdentitySize(totalMemory), fb, fbSize);
    OnlyLarge(f, v);
    if Deref(f, LargeEntry(f, v)).None? {
      Map4KLost(f, v, phys, flags);
    }
  }

  /** A framebuffer of one 2 MiB that starts in the middle of a page loses its second half. */
  lemma HalfFramebufferLost(base: nat, fb: nat)
    requires PoolBase(base) && fb % PAGE_SIZE_2MB == 0x10_0000 && MAX_IDENTITY <= fb < VIRT_LIMIT / 2
    requires InitForest(base, MAX_IDENTITY, fb, PAGE_SIZE_2MB).Some?
    ensures Walk(InitForest(base, MAX_IDENTITY, fb, PAGE_SIZE_2MB).value, 0, fb) == Some(fb)
    ensures Walk(InitForest(base, MAX_IDENTITY, fb, PAGE_SIZE_2MB).value, 0, fb + PAGE_SIZE_2MB - 1) == None
  {
    hide Walk, InitForest;
    InitWalks(base, MAX_IDENTITY, fb, PAGE_SIZE_2MB, fb);
    InitWalks(base, MAX_IDENTITY, fb, PAGE_SIZE_2MB, fb + PAGE_SIZE_2MB - 1);
  }

  /** Within the first 512 GiB an identity map of n pages uses one level 3 table and one level 2
      table per GiB begun. */
  lemma {:induction false} IdentitySlots(n: nat)
    requires 0 < n <= 0x4_0000
    ensures |Slots4(0, n)| == 1 && |Slots3(0, n)| == (n + 511) / 512
  {
    Slots4One(n);
    Slots3Are(n);
    GigCount((n + 511) / 512);
  }

  lemma Slots4One(n: nat)
    requires 0 < n <= 0x4_0000
    ensures Slots4(0, n) == {[0]}
  {
    forall k | 0 <= k < n
      ensures I4(0 + k * PAGE_SIZE_2MB) == 0
    {
      PageIndices(k);
    }
    assert [I4(0 + 0 * PAGE_SIZE_2MB)] in Slots4(0, n);
  }

  lemma PageIndices(k: nat)
    requires k < 0x4_0000
    ensures I4(k * PAGE_SIZE_2MB) == 0 && I3(k * PAGE_SIZE_2MB) == k / 512
  {
  }

  function Gigs(m: nat): set<seq<nat>> {
    set j: nat | j < m :: [0, j]
  }

  lemma Slots3Are(n: nat)
    requires 0 < n <= 0x4_0000
    ensures Slots3(0, n) == Gigs((n + 511) / 512)
  {
    hide I4, I3;
    forall k | 0 <= k < n
      ensures [I4(0 + k * PAGE_SIZE_2MB), I3(0 + k * PAGE_SIZE_2MB)] in Gigs((n + 511) / 512)
    {
      PageIndices(k);
      assert k / 512 < (n + 511) / 512;
    }
    forall j: nat | j < (n + 511) / 512
      ensures [0, j] in Slots3(0, n)
    {
      var k := j * 512;
      PageIndices(k);
      assert [I4(0 + k * PAGE_SIZE_2MB), I3(0 + k * PAGE_SIZE_2MB)] == [0, j];
    }
  }

  lemma {:induction false} GigCount(m: nat)
    ensures |Gigs(m)| == m
  {
    if m > 0 {
      GigCount(m - 1);
      assert Gigs(m) == Gigs(m - 1) + {[0, m - 1]};
    }
  }

  /** A 16 GiB identity map costs exactly 18 tables. */
  lemma SixteenGiB(base: nat, totalMemory: U64)
    requires PoolBase(base) && totalMemory >= MAX_IDENTITY
    ensures var r := InitForest(base, IdentitySize(totalMemory), 0, 0);
      r.Some? && |r.value.tables| == 18
  {
    hide InitForest, Slots4, Slots3;
    InitCost(base, MAX_IDENTITY, 0, 0);
    NoSlots(0);
    IdentitySlots(8192);
    assert PagesFor(MAX_IDENTITY) == 8192;
    assert Slots4(0, 8192) + Slots4(0, 0) == Slots4(0, 8192);
    assert Slots3(0, 8192) + Slots3(0, 0) == Slots3(0, 8192);
  }

  // ---------- The driver ----------

  /** The end of a range rounded up to 2 MiB, in u64 arithmetic. */
  function RangeEnd(start: U64, size: U64): U64 {
    RoundDown((start + size + PAGE_SIZE_2MB - 1) % 0x1_0000_0000_0000_0000)
  }

  /** The rounds of the range loop; an end that wraps below the start means none. */
  function RangePages(start: U64, size: U64): nat {
    if RangeEnd(start, size) <= RoundDown(start) then 0 else (RangeEnd(start, size) - RoundDown(start)) / PAGE_SIZE_2MB
  }

  lemma RangeLength(start: U64, size: U64)
    ensures RangeEnd(start, size) > RoundDown(start) ==>
      RangeEnd(start, size) == RoundDown(start) + Pages(RangePages(start, size))
  {
    hide RangeEnd;
    var e := (start + size + PAGE_SIZE_2MB - 1) % 0x1_0000_0000_0000_0000;
    assert RangeEnd(start, size) == RoundDown(e) by { EndIs(start, size); }
    DownMultiple(e);
    DownMultiple(start);
  }

  lemma EndIs(start: U64, size: U64)
    ensures RangeEnd(start, size) == RoundDown((start + size + PAGE_SIZE_2MB - 1) % 0x1_0000_0000_0000_0000)
  {
  }

  lemma DownMultiple(x: nat)
    ensures RoundDown(x) == PAGE_SIZE_2MB * (x / PAGE_SIZE_2MB)
  {
  }

  /** Without wrap-around the rounds cover the range to its last byte and no page more. */
  lemma RangeCovered(start: U64, size: U64)
    requires start + size + PAGE_SIZE_2MB - 1 < 0x1_0000_0000_0000_0000
    ensures RoundDown(start) + Pages(RangePages(start, size)) >= start + size
    ensures RoundDown(start) + Pages(RangePages(start, size)) < start + size + PAGE_SIZE_2MB || size == 0
  {
    RangeLength(start, size);
    DownMultiple(start);
    DownMultiple(start + size + PAGE_SIZE_2MB - 1);
  }

  /** A range that wraps in u64 maps nothing, unless its size alone does. */
  lemma RangeWraps(start: U64, size: U64)
    requires start + size + PAGE_SIZE_2MB - 1 >= 0x1_0000_0000_0000_0000
    requires size + PAGE_SIZE_2MB - 1 < 0x1_0000_0000_0000_0000
    ensures RangePages(start, size) == 0
  {
    hide RoundDown;
    var x := start + size + PAGE_SIZE_2MB - 1;
    assert x % 0x1_0000_0000_0000_0000 == x - 0x1_0000_0000_0000_0000 < start;
    DownMultiple(start);
    DownMultiple(x - 0x1_0000_0000_0000_0000);
    assert (x - 0x1_0000_0000_0000_0000) / PAGE_SIZE_2MB <= start / PAGE_SIZE_2MB;
  }

  /** page_pool, page_pool_used, g_pml4 and paging_pages_mapped. Methods return ok == false
      where alloc_table panics; the kernel halts there. */
  class PagingUnit {
    const base: nat
    const pool: array<Table>
    var used: nat
    var main: nat
    var mapped: U64
    ghost var path: seq<seq<nat>>

    ghost function View(): Forest
      reads this, pool
      requires used <= pool.Length
    {
      Forest(pool[..used], base, main, path)
    }

    ghost predicate Valid()
      reads this, pool
    {
      pool.Length == PAGE_POOL_COUNT && used <= PAGE_POOL_COUNT && Inv(View())
    }

    constructor (base: nat)
      requires PoolBase(base)
      ensures this.base == base && fresh(pool) && pool.Length == PAGE_POOL_COUNT
    {
      this.base := base;
      pool := new Table[PAGE_POOL_COUNT](_ => Empty());
      used, main, mapped, path := 0, 0, 0, [];
    }

    /** alloc_table. */
    method AllocTable() returns (ok: bool, t: nat)
      requires pool.Length == PAGE_POOL_COUNT
      modifies this`used, pool
      ensures ok == (old(used) < PAGE_POOL_COUNT)
      ensures ok ==> t == old(used) && used == t + 1 && pool[..] == old(pool[..])[t := Empty()]
      ensures !ok ==> used == old(used) && pool[..] == old(pool[..])
    {
      t := used;
      if used >= PAGE_POOL_COUNT {
        return false, t;
      }
      used := used + 1;
      pool[t] := Empty();
      ok := true;
    }

    /** paging_walk_create. */
    method WalkCreateAt(t: nat, i: nat) returns (ok: bool, next: nat)
      requires Valid() && Walkable(View(), t, i)
      modifies this`used, this`path, pool
      ensures Valid()
      ensures ok == WalkCreate(old(View()), t, i).Some?
      ensures ok ==>
        View() == WalkCreate(old(View()), t, i).value.f && next == WalkCreate(old(View()), t, i).value.table
      ensures !ok ==> View() == old(View())
    {
      ghost var f := View();
      hide SlotOk, HasParent, Deref;
      ok := Present(pool[t][i]);
      if !ok {
        var fits, c := AllocTable();
        if !fits {
          return false, 0;
        }
        LinkBits(f, c);
        pool[t] := pool[t][i := base + PAGE_SIZE * c + 3];
        path := path + [path[t] + [i]];
        assert View() == Linked(f, t, i);
        CreateInv(f, t, i);
        return true, c;
      }
      NextPath(f, t, i);
      next := (FrameOf(pool[t][i], PAGE_SIZE) - base) / PAGE_SIZE;
    }

    /** The first two walk-create steps of every mapping call. */
    method WalkToPd(v: U64) returns (ok: bool, pd: nat)
      requires Valid()
      modifies this`used, this`path, pool
      ensures Valid()
      ensures ok == ToPd(old(View()), v).Some?
      ensures ok ==> View() == ToPd(old(View()), v).value.f && pd == ToPd(old(View()), v).value.table
    {
      ghost var f := View();
      hide SlotOk, HasParent, Deref, WalkCreate, I4, I3;
      var pdpt;
      ok, pdpt := WalkCreateAt(main, I4(v));
      if !ok {
        return false, 0;
      }
      CreateInv(f, main, I4(v));
      ok, pd := WalkCreateAt(pdpt, I3(v));
    }

    /** The store both mapping calls end with. */
    method StoreEntry(t: nat, i: nat, e: U64)
      requires Valid() && PageSlot(View(), t, i, e)
      modifies this`mapped, pool
      ensures Valid() && View() == SetEntry(old(View()), t, i, e)
      ensures mapped == (old(mapped) + 1) % 0x1_0000_0000_0000_0000
    {
      ghost var f := View();
      hide SlotOk, HasParent;
      pool[t] := pool[t][i := e];
      mapped := (mapped + 1) % 0x1_0000_0000_0000_0000;
      assert View() == SetEntry(f, t, i, e);
      SetEntryInv(f, t, i, e);
    }

    /** paging_map_page_2mb. */
    method MapPage2M(v: U64, phys: U64, flags: U64) returns (ok: bool)
      requires Valid()
      modifies this`used, this`path, this`mapped, pool
      ensures Valid()
      ensures ok == Map2M(old(View()), v, phys, flags).Some?
      ensures ok ==> View() == Map2M(old(View()), v, phys, flags).value
      ensures mapped == if ok then (old(mapped) + 1) % 0x1_0000_0000_0000_0000 else old(mapped)
    {
      ghost var f := View();
      hide Inv, ToPd, I2, BigEntry;
      var pd;
      ok, pd := WalkToPd(v);
      if ok {
        ToPdFacts(f, v);
        BigEntryBits(phys, flags);
        StoreEntry(pd, I2(v), BigEntry(phys, flags));
      }
    }

    /** paging_map_page. Where a large page covers v its memory is taken for a table; it must then lie
        outside the pool. */
    method MapPage4K(v: U64, phys: U64, flags: U64) returns (ok: bool)
      requires Valid() && (NotLarge(View(), v) || Deref(View(), LargeEntry(View(), v)).None?)
      modifies this`used, this`path, this`mapped, pool
      ensures Valid()
      ensures ok == Map4K(old(View()), v, phys, flags).Some?
      ensures ok ==> View() == Map4K(old(View()), v, phys, flags).value
      ensures mapped == if ok then (old(mapped) + 1) % 0x1_0000_0000_0000_0000 else old(mapped)
    {
      hide Inv, Map4K, ToPd, I2, I1, SmallEntry, NotLarge, LargeEntry, SetEntry, WalkCreate, Deref;
      ghost var f := View();
      var pd;
      ok, pd := WalkToPd(v);
      if !ok {
        NoPd(f, v, phys, flags);
        return;
      }
      PdSlotWalkable(f, v);
      if Present(pool[pd][I2(v)]) && Large(pool[pd][I2(v)]) {
        Map4KLost(f, v, phys, flags);
        mapped := (mapped + 1) % 0x1_0000_0000_0000_0000;
        return;
      }
      var pt;
      ok, pt := WalkCreateAt(pd, I2(v));
      ViaPt(f, v, phys, flags);
      if ok {
        ToPtFacts(f, v);
        SmallEntryBits(phys, flags);
        StoreEntry(pt, I1(v), SmallEntry(phys, flags));
      }
    }

    /** The range loops have mapped k pages since f. */
    ghost predicate Mapping(f: Forest, v: nat, phys: nat, k: nat, flags: U64)
      reads this, pool
    {
      Valid() && MappedTo(f, v, phys, k, flags, Some(View()))
    }

    lemma Started(v: nat, phys: nat, flags: U64)
      requires Valid() && phys <= PHYS_LIMIT
      ensures Mapping(View(), v, phys, 0, flags)
    {
      MappedNone(View(), v, phys, flags);
    }

    lemma Mapped(f: Forest, v: nat, phys: nat, k: nat, flags: U64)
      requires Mapping(f, v, phys, k, flags)
      ensures Valid() && MappedTo(f, v, phys, k, flags, Some(View()))
    {
    }

    /** One round of the range loops. */
    method MapNextPage(ghost f: Forest, ghost v: nat, ghost phys: nat, ghost k: nat, a: U64, p: U64,
        flags: U64) returns (ok: bool)
      requires Mapping(f, v, phys, k, flags)
      requires phys + Pages(k + 1) <= PHYS_LIMIT && a == v + Pages(k) && p == phys + Pages(k)
      modifies this`used, this`path, this`mapped, pool
      ensures if ok then Mapping(f, v, phys, k + 1, flags) else Valid() && MappedTo(f, v, phys, k + 1, flags, None)
    {
      hide Inv, MapRange, MapNext, Map2M;
      RangeStep(f, v, phys, k, flags, View());
      ok := MapPage2M(a, p, flags);
    }

    /** The loop of paging_map_range and paging_map_identity_range, from v to `end`, n pages on. */
    method MapPages(v: U64, phys: U64, end: U64, ghost n: nat, flags: U64) returns (ok: bool)
      requires Valid() && end == v + Pages(n) && phys + Pages(n) <= PHYS_LIMIT
      modifies this`used, this`path, this`mapped, pool
      ensures Valid()
      ensures MappedTo(old(View()), v, phys, n, flags, if ok then Some(View()) else None)
    {
      hide Pages, MappedTo, Inv, AtPage, Mapping;
      ghost var f := View();
      Started(v, phys, flags);
      var a: U64, p: U64 := v, phys;
      ghost var k: nat := 0;
      FirstPage(v, phys, end, n);
      while a < end
        invariant AtPage(v, phys, end, n, k, a, p) && Mapping(f, v, phys, k, flags)
        decreases end - a
      {
        NextPageFits(v, phys, end, n, k, a, p);
        ok := MapNextPage(f, v, phys, k, a, p, flags);
        if !ok {
          MapStops(f, v, phys, k + 1, n, flags);
          return;
        }
        a, p, k := a + PAGE_SIZE_2MB, p + PAGE_SIZE_2MB, k + 1;
      }
      LastPage(v, phys, end, n, k, a, p);
      Mapped(f, v, phys, n, flags);
      ok := true;
    }

    /** paging_map_range. */
    method MapRangeOf(virt: U64, phys: U64, size: U64, flags: U64) returns (ok: bool)
      requires Valid() && RoundDown(phys) + Pages(RangePages(virt, size)) <= PHYS_LIMIT
      modifies this`used, this`path, this`mapped, pool
      ensures Valid()
      ensures var r := MapRange(old(View()), RoundDown(virt), RoundDown(phys), RangePages(virt, size), flags);
        ok == r.Some? && (ok ==> View() == r.value)
    {
      hide MapRange, Inv, RangeEnd;
      RangeLength(virt, size);
      if RangeEnd(virt, size) <= RoundDown(virt) {
        return true;
      }
      ok := MapPages(RoundDown(virt), RoundDown(phys), RangeEnd(virt, size), RangePages(virt, size), flags);
    }

    /** paging_alloc_pml4_copy; `copy` is the new root's table. */
    method AllocPml4Copy() returns (ok: bool, copy: nat)
      requires Valid()
      modifies this`used, this`path, pool
      ensures Valid()
      ensures ok == CopyRoot(old(View())).Some?
      ensures ok ==> View() == CopyRoot(old(View())).value.f && copy == CopyRoot(old(View())).value.table
      ensures !ok ==> View() == old(View())
    {
      ghost var f := View();
      hide SlotOk, HasParent;
      ok, copy := AllocTable();
      if !ok {
        return;
      }
      var i := 0;
      while i < 512
        modifies pool
        invariant 0 <= i <= 512
        invariant pool[..copy] == f.tables
        invariant forall j :: 0 <= j < 512 ==>
          pool[copy][j] == if j < i && Present(f.tables[main][j]) then f.tables[main][j] else 0
      {
        var entry := pool[main][i];
        assert pool[..copy][main] == pool[main];
        if Present(entry) {
          pool[copy] := pool[copy][i := entry];
        }
        i := i + 1;
      }
      path := path + [[]];
      assert pool[copy] == CopyTable(f.tables[main]);
      assert View() == CopyRoot(f).value.f;
      CopyInv(f);
    }

    /** paging_init over the boot info's memory size and framebuffer. */
    method Init(totalMemory: U64, fbAddr: U64, fbSize: U64) returns (ok: bool)
      requires pool.Length == PAGE_POOL_COUNT && PoolBase(base)
      requires RoundDown(fbAddr) + PagesFor(fbSize) * PAGE_SIZE_2MB <= VIRT_LIMIT
      modifies this, pool
      ensures var r := InitForest(base, IdentitySize(totalMemory), fbAddr, fbSize);
        ok == r.Some? && (ok ==> Valid() && View() == r.value)
      ensures ok ==> forall va :: 0 <= va < VIRT_LIMIT ==>
        Walk(View(), 0, va) == if BootMapped(totalMemory, fbAddr, fbSize, va) then Some(va) else None
    {
      hide MapRange, Inv;
      used := 0;
      mapped := 0;
      ok, main := AllocTable();
      path := [[]];
      EmptyForestInv(base);
      assert View() == EmptyForest(base);
      var identity := IdentitySize(totalMemory);
      ok := MapPages(0, 0, PagesFor(identity) * PAGE_SIZE_2MB, PagesFor(identity), PAGE_WRITABLE);
      if !ok {
        return;
      }
      var fb := RoundDown(fbAddr);
      if fb >= identity && fbSize != 0 {
        ok := MapPages(fb, fb, fb + PagesFor(fbSize) * PAGE_SIZE_2MB, PagesFor(fbSize), PAGE_WRITABLE);
      }
      if ok {
        AllBootWalks(base, totalMemory, fbAddr, fbSize);
      }
    }
  }

  lemma AllBootWalks(base: nat, totalMemory: U64, fb: nat, fbSize: nat)
    requires PoolBase(base) && RoundDown(fb) + PagesFor(fbSize) * PAGE_SIZE_2MB <= VIRT_LIMIT
    requires InitForest(base, IdentitySize(totalMemory), fb, fbSize).Some?
    ensures forall va :: 0 <= va < VIRT_LIMIT ==>
      Walk(InitForest(base, IdentitySize(totalMemory), fb, fbSize).value, 0, va) ==
        if BootMapped(totalMemory, fb, fbSize, va) then Some(va) else None
  {
    hide Walk, InitForest, PagesFor, RoundDown, IdentitySize, BootMapped;
    forall va | 0 <= va < VIRT_LIMIT
      ensures Walk(InitForest(base, IdentitySize(totalMemory), fb, fbSize).value, 0, va) ==
        if BootMapped(totalMemory, fb, fbSize, va) then Some(va) else None
    {
      BootWalks(base, totalMemory, fb, fbSize, va);
    }
  }

  lemma NoPd(f: Forest, v: nat, phys: U64, flags: U64)
    requires Inv(f) && ToPd(f, v).None?
    ensures Map4K(f, v, phys, flags).None?
  {
  }

  /** The last two steps where no large page is in the way. */
  lemma ViaPt(f: Forest, v: nat, phys: U64, flags: U64)
    requires Inv(f) && NotLarge(f, v) && ToPd(f, v).Some?
    requires Walkable(ToPd(f, v).value.f, ToPd(f, v).value.table, I2(v))
    ensures var c := ToPd(f, v).value;
      var t := WalkCreate(c.f, c.table, I2(v));
      && (t.Some? ==> t.value.table < |t.value.f.tables|)
      && Map4K(f, v, phys, flags) ==
           if t.None? then None else Some(SetEntry(t.value.f, t.value.table, I1(v), SmallEntry(phys, flags)))
  {
    hide Inv, ToPd, I2, I1, SmallEntry, NotLarge, WalkCreate, SetEntry;
    PdSlotWalkable(f, v);
    if WalkCreate(ToPd(f, v).value.f, ToPd(f, v).value.table, I2(v)).Some? {
      ToPtFacts(f, v);
    }
  }

  /** Bytes in k pages. */
  function Pages(k: nat): nat {
    k * PAGE_SIZE_2MB
  }

  lemma PagesOrder(k: nat, n: nat)
    ensures Pages(0) == 0 && Pages(k + 1) == Pages(k) + PAGE_SIZE_2MB
    ensures k < n ==> Pages(k + 1) <= Pages(n)
    ensures Pages(k) < Pages(n) <==> k < n
  {
  }

  /** Where the range loop stands after k of n pages. */
  predicate AtPage(v: nat, phys: nat, end: nat, n: nat, k: nat, a: nat, p: nat) {
    k <= n && end == v + Pages(n) && phys + Pages(n) <= PHYS_LIMIT && a == v + Pages(k) && p == phys + Pages(k)
  }

  lemma FirstPage(v: nat, phys: nat, end: nat, n: nat)
    requires end == v + Pages(n) && phys + Pages(n) <= PHYS_LIMIT
    ensures AtPage(v, phys, end, n, 0, v, phys)
  {
  }

  lemma NextPageFits(v: nat, phys: nat, end: nat, n: nat, k: nat, a: nat, p: nat)
    requires AtPage(v, phys, end, n, k, a, p) && a < end
    ensures k < n && phys + Pages(k + 1) <= PHYS_LIMIT && phys + Pages(n) <= PHYS_LIMIT
    ensures a == v + Pages(k) && p == phys + Pages(k) && a + PAGE_SIZE_2MB <= end && p + PAGE_SIZE_2MB <= PHYS_LIMIT
    ensures AtPage(v, phys, end, n, k + 1, a + PAGE_SIZE_2MB, p + PAGE_SIZE_2MB)
  {
    PagesOrder(k, n);
  }

  lemma LastPage(v: nat, phys: nat, end: nat, n: nat, k: nat, a: nat, p: nat)
    requires AtPage(v, phys, end, n, k, a, p) && a >= end
    ensures k == n
  {
    PagesOrder(k, n);
  }

  /** Mapping the first k pages gives r. */
  predicate MappedTo(f: Forest, v: nat, phys: nat, k: nat, flags: U64, r: Option<Forest>) {
    Inv(f) && phys + Pages(k) <= PHYS_LIMIT && MapRange(f, v, phys, k, flags) == r
  }

  lemma MappedNone(f: Forest, v: nat, phys: nat, flags: U64)
    requires Inv(f) && phys <= PHYS_LIMIT
    ensures MappedTo(f, v, phys, 0, flags, Some(f))
  {
  }

  lemma MapStops(f: Forest, v: nat, phys: nat, k: nat, n: nat, flags: U64)
    requires MappedTo(f, v, phys, k, flags, None) && 0 < k <= n && phys + Pages(n) <= PHYS_LIMIT
    ensures MappedTo(f, v, phys, n, flags, None)
  {
    hide Inv, MapRange;
    RangeStops(f, v, phys, k, n, flags);
  }

  lemma RangeStep(f: Forest, v: nat, phys: nat, k: nat, flags: U64, g: Forest)
    requires MappedTo(f, v, phys, k, flags, Some(g)) && phys + Pages(k + 1) <= PHYS_LIMIT
    ensures Inv(g)
    ensures MappedTo(f, v, phys, k + 1, flags, Map2M(g, v + Pages(k), phys + Pages(k), flags))
  {
    hide Inv, Map2M, MapRange;
    RangeUnfold(f, v, phys, k + 1, flags);
  }

  /** A range whose first k pages do not fit does not fit. */
  lemma {:induction false} RangeStops(f: Forest, v: nat, phys: nat, k: nat, n: nat, flags: U64)
    requires Inv(f) && phys + n * PAGE_SIZE_2MB <= PHYS_LIMIT && 0 < k <= n
    requires MapRange(f, v, phys, k, flags).None?
    ensures MapRange(f, v, phys, n, flags).None?
  {
    hide Inv, MapNext;
    if k < n {
      RangeStops(f, v, phys, k, n - 1, flags);
    }
  }
}
