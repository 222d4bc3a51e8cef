/** Mapping pages, ranges and copying roots: what each does to every address translation. */
module PageMapping {
  import opened Machine
  import opened PageTables

  // ---------- Entries ----------

  function WithBit0(x: nat): nat {
    if x % 2 == 1 then x else x + 1
  }

  function WithBit7(x: nat): nat {
    if x / 0x80 % 2 == 1 then x else x + 0x80
  }

  /** (phys & ~(2 MiB - 1)) | (flags & 0x1ff) | PRESENT | PS */
  function BigEntry(phys: U64, flags: U64): U64 {
    phys - phys % PAGE_SIZE_2MB + WithBit7(WithBit0(flags % 0x200))
  }

  /** (phys & ~0xfff) | (flags & 0xfff) | PRESENT */
  function SmallEntry(phys: U64, flags: U64): U64 {
    phys - phys % PAGE_SIZE + WithBit0(flags % 0x1000)
  }

  lemma Bits01And7(x: nat)
    requires x < 0x200
    ensures var low := WithBit7(WithBit0(x)); low < 0x200 && low % 2 == 1 && low / 0x80 % 2 == 1
  {
  }

  lemma BigAligned(q: nat, low: nat)
    requires low < 0x200
    ensures (PAGE_SIZE_2MB * q + low) % 2 == low % 2
    ensures (PAGE_SIZE_2MB * q + low) / 0x80 == 0x4000 * q + low / 0x80
    ensures (PAGE_SIZE_2MB * q + low) % PAGE_SIZE_2MB == low
  {
  }

  /** The stored entry is a present large page at phys rounded down, whatever the flags. */
  lemma BigEntryBits(phys: U64, flags: U64)
    ensures Present(BigEntry(phys, flags)) && Large(BigEntry(phys, flags))
    ensures phys < PHYS_LIMIT ==> FrameOf(BigEntry(phys, flags), PAGE_SIZE_2MB) == phys - phys % PAGE_SIZE_2MB
  {
    hide WithBit0, WithBit7, FrameOf;
    var low := WithBit7(WithBit0(flags % 0x200));
    Bits01And7(flags % 0x200);
    AlignDown(phys);
    BigFrame(phys / PAGE_SIZE_2MB, low);
  }

  lemma AlignDown(x: nat)
    ensures x - x % PAGE_SIZE_2MB == PAGE_SIZE_2MB * (x / PAGE_SIZE_2MB)
    ensures x < PHYS_LIMIT ==> x / PAGE_SIZE_2MB < 0x8000_0000
    ensures x < 0x1_0000_0000_0000_0000 ==> x / PAGE_SIZE_2MB < 0x800_0000_0000
  {
  }

  lemma BigFrame(q: nat, low: nat)
    requires q < 0x800_0000_0000 && low < 0x200 && low % 2 == 1 && low / 0x80 % 2 == 1
    ensures Present(PAGE_SIZE_2MB * q + low) && Large(PAGE_SIZE_2MB * q + low)
    ensures q < 0x8000_0000 ==> FrameOf(PAGE_SIZE_2MB * q + low, PAGE_SIZE_2MB) == PAGE_SIZE_2MB * q
  {
    BigAligned(q, low);
    EvenPlus(0x2000 * q, low / 0x80);
    if q < 0x8000_0000 {
      SmallMod(PAGE_SIZE_2MB * q + low);
    }
  }

  lemma EvenPlus(h: nat, x: nat)
    ensures (2 * h + x) % 2 == x % 2
  {
  }

  lemma SmallMod(x: nat)
    ensures x < PHYS_LIMIT ==> x % PHYS_LIMIT == x
  {
  }

  lemma SmallEntryBits(phys: U64, flags: U64)
    ensures Present(SmallEntry(phys, flags))
    ensures phys < PHYS_LIMIT ==> FrameOf(SmallEntry(phys, flags), PAGE_SIZE) == phys - phys % PAGE_SIZE
  {
    hide WithBit0, FrameOf, Present;
    var low := WithBit0(flags % 0x1000);
    SmallLow(flags % 0x1000);
    SmallFrame(phys / PAGE_SIZE, low);
  }

  lemma SmallLow(x: nat)
    requires x < 0x1000
    ensures WithBit0(x) < 0x1000 && WithBit0(x) % 2 == 1
  {
  }

  lemma SmallFrame(q: nat, low: nat)
    requires low < 0x1000 && low % 2 == 1 && PAGE_SIZE * q + low < 0x1_0000_0000_0000_0000
    ensures Present(PAGE_SIZE * q + low)
    ensures PAGE_SIZE * q < PHYS_LIMIT ==> FrameOf(PAGE_SIZE * q + low, PAGE_SIZE) == PAGE_SIZE * q
  {
    assert (PAGE_SIZE * q + low) % PAGE_SIZE == low;
    if PAGE_SIZE * q < PHYS_LIMIT {
      assert PAGE_SIZE * q + low < PHYS_LIMIT;
      SmallMod(PAGE_SIZE * q + low);
    }
  }

  /** Both entries keep the caller's other low flags, WRITABLE and USER among them. */
  lemma EntryFlags(phys: U64, flags: U64)
    ensures BigEntry(phys, flags) / 2 % 0x40 == flags / 2 % 0x40
    ensures BigEntry(phys, flags) / 0x100 % 2 == flags / 0x100 % 2
    ensures SmallEntry(phys, flags) / 2 % 0x800 == flags / 2 % 0x800
  {
    SetBits(flags % 0x200);
    SetBits(flags % 0x1000);
    LowFlags(flags);
    hide WithBit0, WithBit7;
    AlignDown(phys);
    LowBits(512 * (phys / PAGE_SIZE_2MB), WithBit7(WithBit0(flags % 0x200)));
    LowBits(phys / 0x1000, WithBit0(flags % 0x1000));
  }

  lemma LowFlags(x: nat)
    ensures x % 0x200 / 2 % 0x40 == x / 2 % 0x40 && x % 0x200 / 0x100 == x / 0x100 % 2
    ensures x % 0x1000 / 2 == x / 2 % 0x800
  {
    LowNine(x / 0x200, x % 0x200);
    LowBits(x / 0x1000, x % 0x1000);
  }

  lemma LowNine(q: nat, low: nat)
    requires low < 0x200
    ensures (0x200 * q + low) / 2 % 0x40 == low / 2 % 0x40 && (0x200 * q + low) / 0x100 % 2 == low / 0x100
  {
    Halved(0x100 * q, low);
    Mod64(4 * q, low / 2);
    EighthBit(2 * q, low);
    EvenPlus(q, low / 0x100);
  }

  lemma Halved(a: nat, low: nat)
    ensures (2 * a + low) / 2 == a + low / 2
  {
  }

  lemma Mod64(a: nat, low: nat)
    ensures (0x40 * a + low) % 0x40 == low % 0x40
  {
  }

  lemma EighthBit(a: nat, low: nat)
    ensures (0x100 * a + low) / 0x100 == a + low / 0x100
  {
  }

  lemma SetBits(x: nat)
    requires x < 0x1000
    ensures WithBit0(x) < 0x1000 && WithBit0(x) / 2 == x / 2
    ensures x < 0x200 ==> WithBit7(WithBit0(x)) < 0x200
    ensures x < 0x200 ==> WithBit7(WithBit0(x)) / 2 % 0x40 == x / 2 % 0x40 && WithBit7(WithBit0(x)) / 0x100 == x / 0x100
  {
  }

  lemma LowBits(q: nat, low: nat)
    requires low < 0x1000
    ensures (0x1000 * q + low) / 2 % 0x40 == low / 2 % 0x40
    ensures (0x1000 * q + low) / 0x100 % 2 == low / 0x100 % 2
    ensures (0x1000 * q + low) / 2 % 0x800 == low / 2
  {
    var half := low / 2;
    assert (0x1000 * q + low) / 2 == 0x800 * q + half by { Halved(0x800 * q, low); }
    Mod64(0x20 * q, half);
    Mod2048(q, half);
    EighthBit(0x10 * q, low);
    EvenPlus(8 * q, low / 0x100);
  }

  lemma Mod2048(a: nat, low: nat)
    requires low < 0x800
    ensures (0x800 * a + low) % 0x800 == low
  {
  }

  // ---------- The directory a mapping call ends up in ----------

  /** The two walk-create steps every mapping call starts with; None when the pool is empty. */
  function ToPd(f: Forest, v: nat): Option<Created>
    requires Inv(f)
  {
    match WalkCreate(f, f.main, I4(v))
    case None => None
    case Some(c) =>
      CreateInv(f, f.main, I4(v));
      WalkCreate(c.f, c.table, I3(v))
  }

  lemma RootLink(f: Forest, r: nat, i4: nat)
    requires Inv(f) && IsRoot(f, r) && i4 < 512
    ensures Present(f.tables[r][i4]) ==> Next(f, r, i4) == Next(f, f.main, i4)
    ensures !Present(f.tables[r][i4]) ==> Next(f, r, i4) == None
  {
    if Present(f.tables[r][i4]) {
      hide Deref, LinkTo, Links, SlotOk, HasParent;
      NextPath(f, r, i4);
      var u := Next(f, r, i4).value;
      assert f.path[f.main] + [i4] == f.path[u];
      PathImpliesPresent(f, f.main, i4, u);
      NextPath(f, f.main, i4);
      UniquePath(f, u, Next(f, f.main, i4).value);
    }
  }

  /** Roots with the same present slot share everything below it. */
  lemma RootShares(f: Forest, r: nat, i4: nat, i3: nat)
    requires Inv(f) && IsRoot(f, r) && i4 < 512 && i3 < 512
    ensures PdOf(f, r, i4, i3) == if Present(f.tables[r][i4]) then PdOf(f, f.main, i4, i3) else None
  {
    hide SlotOk, HasParent, Next;
    RootLink(f, r, i4);
  }

  lemma ToPdFacts(f: Forest, v: nat)
    requires Inv(f) && ToPd(f, v).Some?
    ensures var c := ToPd(f, v).value;
      && Inv(c.f) && c.f.base == f.base && c.f.main == f.main && f.path <= c.f.path
      && c.table < |c.f.tables| && c.f.path[c.table] == [I4(v), I3(v)]
      && PdOf(c.f, f.main, I4(v), I3(v)) == Some(c.table)
  {
    hide SlotOk, HasParent, I4, I3, LinkTo, Deref, Next;
    CreateInv(f, f.main, I4(v));
    var c1 := WalkCreate(f, f.main, I4(v)).value;
    CreateInv(c1.f, c1.table, I3(v));
    CreateKeepsNext(c1.f, c1.table, I3(v), f.main, I4(v));
  }

  /** Linking below another table leaves a slot's link as it was. */
  lemma CreateKeepsNext(f: Forest, t: nat, i: nat, u: nat, j: nat)
    requires Walkable(f, t, i) && WalkCreate(f, t, i).Some?
    requires u < |f.tables| && j < 512 && u != t && Next(f, u, j).Some?
    ensures u < |WalkCreate(f, t, i).value.f.tables| && Next(WalkCreate(f, t, i).value.f, u, j) == Next(f, u, j)
  {
    hide Inv, LinkTo, Deref;
    var f' := WalkCreate(f, t, i).value.f;
    if !Present(f.tables[t][i]) {
      assert f'.tables[u] == f.tables[u];
      LinkedDeref(f, t, i, f.tables[u][j]);
    }
  }

  lemma LinkedDeref(f: Forest, t: nat, i: nat, e: U64)
    requires Walkable(f, t, i) && |f.tables| < PAGE_POOL_COUNT && Deref(f, e).Some?
    ensures Deref(Linked(f, t, i), e) == Deref(f, e)
  {
    DerefSame(f, Linked(f, t, i), e);
  }

  /** No walk changes on the way to the directory, and no other root gains a slot. */
  lemma ToPdWalks(f: Forest, v: nat, r: nat, i4: nat, i3: nat, i2: nat, i1: nat)
    requires Inv(f) && ToPd(f, v).Some? && IsRoot(f, r)
    requires i4 < 512 && i3 < 512 && i2 < 512 && i1 < 512
    ensures var f' := ToPd(f, v).value.f;
      IsRoot(f', r) && LeafAt4(f', r, i4, i3, i2, i1) == LeafAt4(f, r, i4, i3, i2, i1)
  {
    hide SlotOk, HasParent, I4, I3, LinkTo, Deref, Next, LeafAt4, Linked;
    CreateInv(f, f.main, I4(v));
    CreateWalks(f, f.main, I4(v), r, i4, i3, i2, i1);
    var c1 := WalkCreate(f, f.main, I4(v)).value;
    CreateInv(c1.f, c1.table, I3(v));
    CreateWalks(c1.f, c1.table, I3(v), r, i4, i3, i2, i1);
  }

  lemma ToPdSlots(f: Forest, v: nat, r: nat)
    requires Inv(f) && ToPd(f, v).Some? && IsRoot(f, r)
    ensures r < |ToPd(f, v).value.f.tables|
    ensures r != f.main ==> ToPd(f, v).value.f.tables[r] == f.tables[r]
  {
    hide SlotOk, HasParent, I4, I3, LinkTo, Deref, Next;
    CreateInv(f, f.main, I4(v));
    var c1 := WalkCreate(f, f.main, I4(v)).value;
    CreateInv(c1.f, c1.table, I3(v));
  }

  // ---------- paging_map_page_2mb ----------

  /** paging_map_page_2mb; None when alloc_table panics. */
  function Map2M(f: Forest, v: nat, phys: U64, flags: U64): Option<Forest>
    requires Inv(f)
  {
    match ToPd(f, v)
    case None => None
    case Some(c) =>
      ToPdFacts(f, v);
      Some(SetEntry(c.f, c.table, I2(v), BigEntry(phys, flags)))
  }

  /** The slot of root r that leads to v is there: always for g_pml4 after the call. */
  predicate Serves(f: Forest, r: nat, v: nat)
    requires r < |f.tables|
  {
    r == f.main || Present(f.tables[r][I4(v)])
  }

  lemma Map2MLeaf(f: Forest, v: nat, phys: U64, flags: U64, r: nat, i4: nat, i3: nat, i2: nat, i1: nat)
    requires Inv(f) && Map2M(f, v, phys, flags).Some? && IsRoot(f, r)
    requires i4 < 512 && i3 < 512 && i2 < 512 && i1 < 512
    ensures var f' := Map2M(f, v, phys, flags).value;
      && IsRoot(f', r)
      && LeafAt4(f', r, i4, i3, i2, i1) ==
           if i4 == I4(v) && i3 == I3(v) && i2 == I2(v) && Serves(f, r, v)
           then Maps(BigEntry(phys, flags), PAGE_SIZE_2MB) else LeafAt4(f, r, i4, i3, i2, i1)
  {
    hide SlotOk, HasParent, I4, I3, I2, LinkTo, Deref, LeafAt4, BigEntry, ToPd, Next;
    BigEntryBits(phys, flags);
    ToPdFacts(f, v);
    ToPdWalks(f, v, r, i4, i3, i2, i1);
    ToPdSlots(f, v, r);
    var c := ToPd(f, v).value;
    hide PathsOk;
    SetBigWalks(c.f, c.table, I2(v), BigEntry(phys, flags), r, i4, i3, i2, i1);
    ViaPd(c.f, r, i4, i3, i2, i1);
    RootShares(c.f, r, i4, i3);
    PdPresent(c.f, f.main, I4(v), I3(v));
  }

  lemma PdPresent(f: Forest, r: nat, i4: nat, i3: nat)
    requires r < |f.tables| && i4 < 512 && i3 < 512
    ensures PdOf(f, r, i4, i3).Some? ==> Present(f.tables[r][i4])
  {
  }

  lemma Map2MInv(f: Forest, v: nat, phys: U64, flags: U64)
    requires Inv(f) && Map2M(f, v, phys, flags).Some?
    ensures var f' := Map2M(f, v, phys, flags).value;
      Inv(f') && f'.base == f.base && f'.main == f.main && f.path <= f'.path
  {
    hide SlotOk, HasParent, I4, I3, I2, BigEntry, ToPd;
    BigEntryBits(phys, flags);
    ToPdFacts(f, v);
    var c := ToPd(f, v).value;
    hide PathsOk;
    SetEntryInv(c.f, c.table, I2(v), BigEntry(phys, flags));
  }

  /** Addresses agree on the three upper indices exactly when they share a 2 MiB page. */
  lemma SamePage2M(a: nat, b: nat)
    requires a < VIRT_LIMIT && b < VIRT_LIMIT
    ensures a / PAGE_SIZE_2MB == b / PAGE_SIZE_2MB <==> I4(a) == I4(b) && I3(a) == I3(b) && I2(a) == I2(b)
  {
    Split2M(a);
    Split2M(b);
  }

  lemma Split2M(a: nat)
    requires a < VIRT_LIMIT
    ensures a / PAGE_SIZE_2MB == (I4(a) * 512 + I3(a)) * 512 + I2(a)
  {
    var k := a / PAGE_SIZE_2MB;
    assert a / 0x4000_0000 == k / 512;
    assert a / 0x80_0000_0000 == k / 512 / 512;
  }

  /** Mapping a 2 MiB page makes every address in it walk to the page plus the offset, from
      every root that has its level 4 slot, and leaves every other walk as it was. */
  lemma Map2MWalks(f: Forest, v: nat, phys: U64, flags: U64, r: nat, va: nat)
    requires Inv(f) && Map2M(f, v, phys, flags).Some? && IsRoot(f, r)
    requires v < VIRT_LIMIT && va < VIRT_LIMIT && phys < PHYS_LIMIT
    ensures var f' := Map2M(f, v, phys, flags).value;
      && IsRoot(f', r)
      && Walk(f', r, va) ==
           if va / PAGE_SIZE_2MB == v / PAGE_SIZE_2MB && Serves(f, r, v)
           then Some(phys - phys % PAGE_SIZE_2MB + va % PAGE_SIZE_2MB) else Walk(f, r, va)
  {
    hide Inv, I4, I3, I2, I1, LeafAt4, Map2M, FrameOf, Serves, BigEntry;
    BigEntryBits(phys, flags);
    Map2MLeaf(f, v, phys, flags, r, I4(va), I3(va), I2(va), I1(va));
    SamePage2M(va, v);
  }

  // ---------- paging_map_page ----------

  /** The walk of v from g_pml4 does not end in a 2 MiB page. */
  predicate NotLarge(f: Forest, v: nat)
    requires f.main < |f.tables|
  {
    match LeafAt4(f, f.main, I4(v), I3(v), I2(v), I1(v))
    case Fault => true
    case Maps(_, size) => size != PAGE_SIZE_2MB
  }

  /** Nothing is created on the way to a directory that is there. */
  lemma PdThere(f: Forest, v: nat)
    requires Inv(f) && PdOf(f, f.main, I4(v), I3(v)).Some?
    ensures ToPd(f, v) == Some(Created(f, PdOf(f, f.main, I4(v), I3(v)).value))
  {
    hide SlotOk, HasParent, LinkTo, Deref, I4, I3;
    NextPath(f, f.main, I4(v));
    var u := Next(f, f.main, I4(v)).value;
    NextPath(f, u, I3(v));
  }

  /** The directory slot of v holds a large page exactly when the walk ends there; otherwise it can
      be walked through or linked. */
  lemma PdSlotWalkable(f: Forest, v: nat)
    requires Inv(f) && ToPd(f, v).Some?
    ensures var c := ToPd(f, v).value;
      && c.table < |c.f.tables|
      && (var e := c.f.tables[c.table][I2(v)];
          if NotLarge(f, v) then Walkable(c.f, c.table, I2(v)) && !(Present(e) && Large(e))
          else Present(e) && Large(e) && c.f == f)
  {
    hide SlotOk, HasParent, I4, I3, I2, I1, LinkTo, Deref, LeafAt4, ToPd, Next;
    ToPdFacts(f, v);
    ToPdWalks(f, v, f.main, I4(v), I3(v), I2(v), I1(v));
    ViaPd(ToPd(f, v).value.f, f.main, I4(v), I3(v), I2(v), I1(v));
    if !NotLarge(f, v) {
      ViaPd(f, f.main, I4(v), I3(v), I2(v), I1(v));
      PdThere(f, v);
    }
  }

  /** A store through an entry taken for a table link: it changes a pool table or other memory. */
  function StoreThrough(f: Forest, e: U64, i: nat, x: U64): Forest
    requires i < 512
  {
    match Deref(f, e)
    case None => f
    case Some(u) => SetEntry(f, u, i, x)
  }

  /** paging_map_page; None when alloc_table panics. The third walk-create step does not look at
      the PS bit. */
  function Map4K(f: Forest, v: nat, phys: U64, flags: U64): Option<Forest>
    requires Inv(f)
  {
    match ToPd(f, v)
    case None => None
    case Some(c) =>
      PdSlotWalkable(f, v);
      var e := c.f.tables[c.table][I2(v)];
      if Present(e) && Large(e) then Some(StoreThrough(c.f, e, I1(v), SmallEntry(phys, flags)))
      else
        match WalkCreate(c.f, c.table, I2(v))
        case None => None
        case Some(t) =>
          CreateInv(c.f, c.table, I2(v));
          Some(SetEntry(t.f, t.table, I1(v), SmallEntry(phys, flags)))
  }

  /** The facts after the third walk-create step. */
  lemma ToPtFacts(f: Forest, v: nat)
    requires Inv(f) && ToPd(f, v).Some?
    requires Walkable(ToPd(f, v).value.f, ToPd(f, v).value.table, I2(v))
    requires WalkCreate(ToPd(f, v).value.f, ToPd(f, v).value.table, I2(v)).Some?
    ensures var t := WalkCreate(ToPd(f, v).value.f, ToPd(f, v).value.table, I2(v)).value;
      && Inv(t.f) && t.f.base == f.base && t.f.main == f.main < |t.f.tables| && f.path <= t.f.path
      && t.table < |t.f.tables| && t.f.path[t.table] == [I4(v), I3(v), I2(v)]
      && PtOf(t.f, f.main, I4(v), I3(v), I2(v)) == Some(t.table)
  {
    hide SlotOk, HasParent, I4, I3, I2, LinkTo, Deref, ToPd, Next;
    ToPdFacts(f, v);
    var c := ToPd(f, v).value;
    CreateInv(c.f, c.table, I2(v));
    CreateKeepsPd(c.f, c.table, I2(v), f.main, I4(v), I3(v));
  }

  lemma CreateKeepsPd(f: Forest, t: nat, i: nat, r: nat, i4: nat, i3: nat)
    requires Walkable(f, t, i) && WalkCreate(f, t, i).Some? && |f.path[t]| == 2
    requires IsRoot(f, r) && i4 < 512 && i3 < 512 && PdOf(f, r, i4, i3).Some?
    ensures r < |WalkCreate(f, t, i).value.f.tables|
    ensures PdOf(WalkCreate(f, t, i).value.f, r, i4, i3) == PdOf(f, r, i4, i3)
  {
    hide SlotOk, HasParent, LinkTo, Deref, Next;
    CreateInv(f, t, i);
    NextPath(f, r, i4);
    CreateKeepsNext(f, t, i, r, i4);
    CreateKeepsNext(f, t, i, Next(f, r, i4).value, i3);
  }

  lemma ToPtWalks(f: Forest, v: nat, r: nat, i4: nat, i3: nat, i2: nat, i1: nat)
    requires Inv(f) && NotLarge(f, v) && ToPd(f, v).Some? && IsRoot(f, r)
    requires Walkable(ToPd(f, v).value.f, ToPd(f, v).value.table, I2(v))
    requires WalkCreate(ToPd(f, v).value.f, ToPd(f, v).value.table, I2(v)).Some?
    requires i4 < 512 && i3 < 512 && i2 < 512 && i1 < 512
    ensures var f' := WalkCreate(ToPd(f, v).value.f, ToPd(f, v).value.table, I2(v)).value.f;
      && IsRoot(f', r) && LeafAt4(f', r, i4, i3, i2, i1) == LeafAt4(f, r, i4, i3, i2, i1)
      && (r != f.main ==> f'.tables[r] == f.tables[r])
  {
    hide SlotOk, HasParent, I4, I3, I2, LinkTo, Deref, ToPd, Next, LeafAt4;
    ToPdFacts(f, v);
    ToPdSlots(f, v, r);
    ToPdWalks(f, v, r, i4, i3, i2, i1);
    var c := ToPd(f, v).value;
    CreateInv(c.f, c.table, I2(v));
    CreateWalks(c.f, c.table, I2(v), r, i4, i3, i2, i1);
  }

  lemma Map4KLeaf(f: Forest, v: nat, phys: U64, flags: U64, r: nat, i4: nat, i3: nat, i2: nat, i1: nat)
    requires Inv(f) && NotLarge(f, v) && Map4K(f, v, phys, flags).Some? && IsRoot(f, r)
    requires i4 < 512 && i3 < 512 && i2 < 512 && i1 < 512
    ensures var f' := Map4K(f, v, phys, flags).value;
      && Inv(f') && f'.base == f.base && f'.main == f.main && f.path <= f'.path
      && IsRoot(f', r)
      && LeafAt4(f', r, i4, i3, i2, i1) ==
           if i4 == I4(v) && i3 == I3(v) && i2 == I2(v) && i1 == I1(v) && Serves(f, r, v)
           then Maps(SmallEntry(phys, flags), PAGE_SIZE) else LeafAt4(f, r, i4, i3, i2, i1)
  {
    hide SlotOk, HasParent, I4, I3, I2, I1, LinkTo, Deref, LeafAt4, SmallEntry, ToPd, Next, NotLarge, PathsOk;
    SmallEntryBits(phys, flags);
    PdSlotWalkable(f, v);
    ToPtFacts(f, v);
    ToPtWalks(f, v, r, i4, i3, i2, i1);
    var t := WalkCreate(ToPd(f, v).value.f, ToPd(f, v).value.table, I2(v)).value;
    hide WalkCreate, Walkable;
    SetEntryInv(t.f, t.table, I1(v), SmallEntry(phys, flags));
    SetSmallWalks(t.f, t.table, I1(v), SmallEntry(phys, flags), r, i4, i3, i2, i1);
    RootShares(t.f, r, i4, i3);
    PdPresent(t.f, f.main, I4(v), I3(v));
  }

  lemma SamePage4K(a: nat, b: nat)
    requires a < VIRT_LIMIT && b < VIRT_LIMIT
    ensures a / PAGE_SIZE == b / PAGE_SIZE <==>
      I4(a) == I4(b) && I3(a) == I3(b) && I2(a) == I2(b) && I1(a) == I1(b)
  {
    SamePage2M(a, b);
    assert a / PAGE_SIZE / 512 == a / PAGE_SIZE_2MB && b / PAGE_SIZE / 512 == b / PAGE_SIZE_2MB;
  }

  /** Mapping a 4 KiB page where no 2 MiB page is makes exactly its addresses walk to it. */
  lemma Map4KWalks(f: Forest, v: nat, phys: U64, flags: U64, r: nat, va: nat)
    requires Inv(f) && NotLarge(f, v) && Map4K(f, v, phys, flags).Some? && IsRoot(f, r)
    requires v < VIRT_LIMIT && va < VIRT_LIMIT && phys < PHYS_LIMIT
    ensures var f' := Map4K(f, v, phys, flags).value;
      && Inv(f') && IsRoot(f', r)
      && Walk(f', r, va) ==
           if va / PAGE_SIZE == v / PAGE_SIZE && Serves(f, r, v)
           then Some(phys - phys % PAGE_SIZE + va % PAGE_SIZE) else Walk(f, r, va)
  {
    hide Inv, I4, I3, I2, I1, LeafAt4, Map4K, FrameOf, Serves, SmallEntry, NotLarge;
    SmallEntryBits(phys, flags);
    Map4KLeaf(f, v, phys, flags, r, I4(va), I3(va), I2(va), I1(va));
    SamePage4K(va, v);
  }

  /** The entry of the large page that v lies in. */
  function LargeEntry(f: Forest, v: nat): U64
    requires f.main < |f.tables| && !NotLarge(f, v)
  {
    LeafAt4(f, f.main, I4(v), I3(v), I2(v), I1(v)).entry
  }

  /** Where a large page outside the pool covers v, mapping a 4 KiB page changes no table. */
  lemma Map4KLost(f: Forest, v: nat, phys: U64, flags: U64)
    requires Inv(f) && !NotLarge(f, v) && Deref(f, LargeEntry(f, v)).None?
    ensures Map4K(f, v, phys, flags) == Some(f)
  {
    hide SlotOk, HasParent, I4, I3, I2, I1, LinkTo, Deref, LeafAt4, SmallEntry, Next, ToPd;
    ViaPd(f, f.main, I4(v), I3(v), I2(v), I1(v));
    PdThere(f, v);
    PdSlotWalkable(f, v);
  }

  /** So the mapping takes effect exactly when no large page is in the way, or when that page maps
      v to the same place already; in its way, every walk from every root stays as it was. */
  lemma Map4KTakesEffectIff(f: Forest, v: nat, phys: U64, flags: U64, r: nat, va: nat)
    requires Inv(f) && Map4K(f, v, phys, flags).Some? && IsRoot(f, r)
    requires v < VIRT_LIMIT && va < VIRT_LIMIT && phys < PHYS_LIMIT
    requires NotLarge(f, v) || Deref(f, LargeEntry(f, v)).None?
    ensures var f', target := Map4K(f, v, phys, flags).value, Some(phys - phys % PAGE_SIZE + v % PAGE_SIZE);
      && Inv(f') && IsRoot(f', r)
      && (Walk(f', f.main, v) == target <==> NotLarge(f, v) || Walk(f, f.main, v) == target)
      && (!NotLarge(f, v) ==> Walk(f', r, va) == Walk(f, r, va))
  {
    hide SlotOk, HasParent, Links, Walk, Map4K, LeafAt4, Deref, I4, I3, I2, I1;
    if NotLarge(f, v) {
      Map4KWalks(f, v, phys, flags, r, va);
      Map4KWalks(f, v, phys, flags, f.main, v);
    } else {
      Map4KLost(f, v, phys, flags);
    }
  }
}
