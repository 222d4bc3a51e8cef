/** 4-level page tables: the forest built in the pool, and the hardware walk over it. */
module PageTables {
  import opened Machine

  const PAGE_SIZE := 0x1000
  const PAGE_SIZE_2MB := 0x20_0000
  const PAGE_WRITABLE: U64 := 2
  const PAGE_POOL_COUNT := 256
  /** Virtual addresses are 48 bits wide, physical ones at most 52. */
  const VIRT_LIMIT := 0x1_0000_0000_0000
  const PHYS_LIMIT := 0x10_0000_0000_0000

  type Table = t: seq<U64> | |t| == 512 witness Empty()

  function Empty(): (t: seq<U64>)
    ensures |t| == 512
  {
    seq(512, _ => 0)
  }

  predicate Present(e: U64) {
    e % 2 == 1
  }

  /** The PS bit. */
  predicate Large(e: U64) {
    e / 0x80 % 2 == 1
  }

  /** The tables allocated so far from the pool at physical address `base`; `main` is g_pml4.
      `path` records the table indices that lead to each table: a specification aid. */
  datatype Forest = Forest(tables: seq<Table>, base: nat, main: nat, path: seq<seq<nat>>)

  // ---------- The hardware walk (Intel SDM Vol. 3A, section 4.5) ----------

  function I4(va: nat): (i: nat) ensures i < 512 { va / 0x80_0000_0000 % 512 }
  function I3(va: nat): (i: nat) ensures i < 512 { va / 0x4000_0000 % 512 }
  function I2(va: nat): (i: nat) ensures i < 512 { va / 0x20_0000 % 512 }
  function I1(va: nat): (i: nat) ensures i < 512 { va / 0x1000 % 512 }

  /** The physical address field of an entry that maps a page of `size` bytes. */
  function FrameOf(e: U64, size: nat): int
    requires size > 0
  {
    e % PHYS_LIMIT - e % size
  }

  /** The pool table an entry points to, if it points into the pool. */
  function Deref(f: Forest, e: U64): (r: Option<nat>)
    ensures r.Some? ==> r.value < |f.tables|
  {
    var a := FrameOf(e, PAGE_SIZE) - f.base;
    if 0 <= a && a % PAGE_SIZE == 0 && a / PAGE_SIZE < |f.tables| then Some(a / PAGE_SIZE) else None
  }

  /** Where the walk stops: a fault, or the mapping entry and its page size. */
  datatype Leaf = Fault | Maps(entry: U64, size: nat)

  function LeafAt1(f: Forest, t: nat, i1: nat): Leaf
    requires t < |f.tables| && i1 < 512
  {
    var e := f.tables[t][i1];
    if !Present(e) then Fault else Maps(e, PAGE_SIZE)
  }

  function LeafAt2(f: Forest, t: nat, i2: nat, i1: nat): Leaf
    requires t < |f.tables| && i2 < 512 && i1 < 512
  {
    var e := f.tables[t][i2];
    if !Present(e) then Fault
    else if Large(e) then Maps(e, PAGE_SIZE_2MB)
    else
      match Deref(f, e)
      case None => Fault
      case Some(u) => LeafAt1(f, u, i1)
  }

  function LeafAt3(f: Forest, t: nat, i3: nat, i2: nat, i1: nat): Leaf
    requires t < |f.tables| && i3 < 512 && i2 < 512 && i1 < 512
  {
    var e := f.tables[t][i3];
    if !Present(e) then Fault
    else if Large(e) then Maps(e, 0x4000_0000)
    else
      match Deref(f, e)
      case None => Fault
      case Some(u) => LeafAt2(f, u, i2, i1)
  }

  function LeafAt4(f: Forest, r: nat, i4: nat, i3: nat, i2: nat, i1: nat): Leaf
    requires r < |f.tables| && i4 < 512 && i3 < 512 && i2 < 512 && i1 < 512
  {
    var e := f.tables[r][i4];
    if !Present(e) then Fault
    else
      match Deref(f, e)
      case None => Fault
      case Some(u) => LeafAt3(f, u, i3, i2, i1)
  }

  /** The physical address the processor reaches from root table r, or None for a page fault. */
  function Walk(f: Forest, r: nat, va: nat): Option<int>
    requires r < |f.tables|
  {
    match LeafAt4(f, r, I4(va), I3(va), I2(va), I1(va))
    case Fault => None
    case Maps(e, size) => if size > 0 then Some(FrameOf(e, size) + va % size) else None
  }

  // ---------- The shape of every reachable forest ----------

  /** The entry that links table c: its address with PRESENT and WRITABLE. */
  function LinkTo(f: Forest, c: nat): int {
    f.base + PAGE_SIZE * c + 3
  }

  /** `e` links a table whose path is `p`. */
  predicate Links(f: Forest, e: U64, p: seq<nat>)
    requires |f.path| == |f.tables|
  {
    exists c :: 0 <= c < |f.tables| && f.path[c] == p && e == LinkTo(f, c)
  }

  predicate SlotOk(f: Forest, t: nat, i: nat)
    requires |f.path| == |f.tables| && t < |f.tables| && i < 512
  {
    var e := f.tables[t][i];
    |f.path[t]| < 3 && Present(e) ==> (|f.path[t]| == 2 && Large(e)) || Links(f, e, f.path[t] + [i])
  }

  /** A table hangs below a present slot of the one table its path names: g_pml4, or a table
      with that path. */
  predicate HasParent(f: Forest, c: nat)
    requires |f.path| == |f.tables| && c < |f.tables|
    requires f.path[c] != [] && f.path[c][|f.path[c]| - 1] < 512
  {
    exists t :: 0 <= t < |f.tables| && ParentOf(f, f.path[c], t)
  }

  predicate ParentOf(f: Forest, p: seq<nat>, t: nat)
    requires |f.path| == |f.tables| && p != [] && p[|p| - 1] < 512
  {
    var n := |p| - 1;
    t < |f.tables| && f.path[t] == p[..n] && (n == 0 ==> t == f.main) && Present(f.tables[t][p[n]])
  }

  predicate PathsOk(f: Forest) {
    && |f.path| == |f.tables| <= PAGE_POOL_COUNT
    && f.base % PAGE_SIZE == 0 && f.base + PAGE_SIZE * PAGE_POOL_COUNT <= PHYS_LIMIT
    && f.main < |f.tables| && f.path[f.main] == []
    && (forall t :: 0 <= t < |f.path| ==> |f.path[t]| <= 3 && forall k :: 0 <= k < |f.path[t]| ==> f.path[t][k] < 512)
    && (forall t, u :: 0 <= t < u < |f.path| && f.path[t] != [] ==> f.path[t] != f.path[u])
  }

  predicate Inv(f: Forest) {
    && PathsOk(f)
    && (forall t, i :: 0 <= t < |f.tables| && 0 <= i < 512 ==> SlotOk(f, t, i))
    && (forall c :: 0 <= c < |f.tables| && f.path[c] != [] ==> HasParent(f, c))
  }

  // ---------- Links and pointers ----------

  lemma LinkBits(f: Forest, c: nat)
    requires f.base % PAGE_SIZE == 0 && f.base + PAGE_SIZE * PAGE_POOL_COUNT <= PHYS_LIMIT
    requires c < PAGE_POOL_COUNT
    ensures 0 <= LinkTo(f, c) < 0x1_0000_0000_0000_0000
    ensures Present(LinkTo(f, c)) && !Large(LinkTo(f, c))
    ensures c < |f.tables| ==> Deref(f, LinkTo(f, c)) == Some(c)
  {
    var e := LinkTo(f, c);
    var q := f.base / PAGE_SIZE + c;
    assert e == PAGE_SIZE * q + 3;
    assert e % PAGE_SIZE == 3;
    assert e % PHYS_LIMIT == e;
    assert e / 0x80 == 32 * q;
  }

  /** A present entry of a level 4 or 3 table, or a non-large one of level 2, leads to the table
      its path names. */
  lemma DerefPath(f: Forest, t: nat, i: nat)
    requires PathsOk(f) && t < |f.tables| && i < 512 && SlotOk(f, t, i)
    requires |f.path[t]| < 3 && Present(f.tables[t][i])
    requires |f.path[t]| == 2 ==> !Large(f.tables[t][i])
    ensures var e := f.tables[t][i];
      && !Large(e)
      && Deref(f, e).Some? && e == LinkTo(f, Deref(f, e).value)
      && f.path[Deref(f, e).value] == f.path[t] + [i]
  {
    var e := f.tables[t][i];
    var c :| 0 <= c < |f.tables| && f.path[c] == f.path[t] + [i] && e == LinkTo(f, c);
    LinkBits(f, c);
  }

  lemma DerefSame(f: Forest, f': Forest, e: U64)
    requires f'.base == f.base && |f'.tables| >= |f.tables| && Deref(f, e).Some?
    ensures Deref(f', e) == Deref(f, e)
  {
  }

  /** The table below slot i of table t, for a slot that holds no page. */
  function Next(f: Forest, t: nat, i: nat): (r: Option<nat>)
    requires t < |f.tables| && i < 512
    ensures r.Some? ==> r.value < |f.tables|
  {
    var e := f.tables[t][i];
    if Present(e) && !Large(e) then Deref(f, e) else None
  }

  /** The page directory the walk from root r goes through. */
  function PdOf(f: Forest, r: nat, i4: nat, i3: nat): (d: Option<nat>)
    requires r < |f.tables| && i4 < 512 && i3 < 512
    ensures d.Some? ==> d.value < |f.tables|
  {
    match Next(f, r, i4)
    case None => None
    case Some(u) => Next(f, u, i3)
  }

  /** g_pml4 or a copy of it. */
  predicate IsRoot(f: Forest, r: nat) {
    |f.path| == |f.tables| && r < |f.tables| && f.path[r] == []
  }

  lemma NextPath(f: Forest, t: nat, i: nat)
    requires Inv(f) && t < |f.tables| && i < 512 && |f.path[t]| < 3
    ensures Next(f, t, i).Some? ==> f.path[Next(f, t, i).value] == f.path[t] + [i]
    ensures Present(f.tables[t][i]) && (|f.path[t]| == 2 ==> !Large(f.tables[t][i])) ==> Next(f, t, i).Some?
    ensures |f.path[t]| < 2 && Next(f, t, i).None? ==> !Present(f.tables[t][i])
  {
    hide Deref, LinkTo;
    assert SlotOk(f, t, i);
    if Present(f.tables[t][i]) && (|f.path[t]| == 2 ==> !Large(f.tables[t][i])) {
      DerefPath(f, t, i);
    }
  }

  /** Under the invariant every walk goes through the directory its path names, or faults. */
  lemma ViaPd(f: Forest, r: nat, i4: nat, i3: nat, i2: nat, i1: nat)
    requires Inv(f) && IsRoot(f, r) && i4 < 512 && i3 < 512 && i2 < 512 && i1 < 512
    ensures var d := PdOf(f, r, i4, i3);
      && (d.None? ==> LeafAt4(f, r, i4, i3, i2, i1) == Fault)
      && (d.Some? ==> f.path[d.value] == [i4, i3] && LeafAt4(f, r, i4, i3, i2, i1) == LeafAt2(f, d.value, i2, i1))
  {
    hide Deref, LinkTo, HasParent;
    NextPath(f, r, i4);
    assert SlotOk(f, r, i4);
    if Present(f.tables[r][i4]) {
      DerefPath(f, r, i4);
      var u := Next(f, r, i4).value;
      NextPath(f, u, i3);
      assert SlotOk(f, u, i3);
      if Present(f.tables[u][i3]) {
        DerefPath(f, u, i3);
      }
    }
  }

  // ---------- alloc_table and paging_walk_create ----------

  datatype Created = Created(f: Forest, table: nat)

  /** Slot i of table t can be walked through or linked: what paging_walk_create is called on. */
  predicate Walkable(f: Forest, t: nat, i: nat) {
    && Inv(f) && t < |f.tables| && i < 512 && |f.path[t]| < 3
    && (f.path[t] == [] ==> t == f.main)
    && (|f.path[t]| == 2 && Present(f.tables[t][i]) ==> !Large(f.tables[t][i]))
  }

  /** The forest after alloc_table links a fresh zeroed table at slot i of table t. */
  function Linked(f: Forest, t: nat, i: nat): Forest
    requires Walkable(f, t, i) && |f.tables| < PAGE_POOL_COUNT
  {
    LinkBits(f, |f.tables|);
    Forest(f.tables[t := f.tables[t][i := LinkTo(f, |f.tables|)]] + [Empty()], f.base, f.main,
      f.path + [f.path[t] + [i]])
  }

  /** paging_walk_create; None when alloc_table panics. */
  function WalkCreate(f: Forest, t: nat, i: nat): Option<Created>
    requires Walkable(f, t, i)
  {
    if !Present(f.tables[t][i]) then
      if |f.tables| >= PAGE_POOL_COUNT then None
      else Some(Created(Linked(f, t, i), |f.tables|))
    else
      NextPath(f, t, i);
      Some(Created(f, Next(f, t, i).value))
  }

  /** A slot whose path some table has is present. */
  lemma PathImpliesPresent(f: Forest, t: nat, i: nat, c: nat)
    requires Walkable(f, t, i) && c < |f.tables| && f.path[c] == f.path[t] + [i]
    ensures Present(f.tables[t][i])
  {
    assert HasParent(f, c);
    assert f.path[c][..|f.path[t]|] == f.path[t];
    var u :| 0 <= u < |f.tables| && ParentOf(f, f.path[c], u);
    UniquePath(f, t, u);
  }

  lemma UniquePath(f: Forest, t: nat, u: nat)
    requires PathsOk(f) && t < |f.tables| && u < |f.tables| && f.path[t] == f.path[u]
    ensures f.path[t] != [] ==> t == u
  {
    if t < u {
    } else if u < t {
    }
  }

  lemma LinkedPathsOk(f: Forest, t: nat, i: nat)
    requires Walkable(f, t, i) && !Present(f.tables[t][i]) && |f.tables| < PAGE_POOL_COUNT
    ensures PathsOk(Linked(f, t, i))
  {
    hide SlotOk, HasParent;
    forall c | 0 <= c < |f.tables|
      ensures f.path[c] != f.path[t] + [i]
    {
      if f.path[c] == f.path[t] + [i] {
        PathImpliesPresent(f, t, i, c);
      }
    }
  }

  lemma LinkedSlotOk(f: Forest, t: nat, i: nat, u: nat, j: nat)
    requires Walkable(f, t, i) && !Present(f.tables[t][i]) && |f.tables| < PAGE_POOL_COUNT
    requires u <= |f.tables| && j < 512
    ensures SlotOk(Linked(f, t, i), u, j)
  {
    hide HasParent;
    var f' := Linked(f, t, i);
    if u == |f.tables| {
      assert f'.tables[u][j] == 0;
    } else if u == t && j == i {
      assert f'.path[|f.tables|] == f'.path[t] + [i];
    } else {
      assert SlotOk(f, u, j);
      var e := f.tables[u][j];
      assert f'.tables[u][j] == e;
      if Links(f, e, f.path[u] + [j]) {
        var c :| 0 <= c < |f.tables| && f.path[c] == f.path[u] + [j] && e == LinkTo(f, c);
        assert f'.path[c] == f'.path[u] + [j] && e == LinkTo(f', c);
      }
    }
  }

  lemma LinkedHasParent(f: Forest, t: nat, i: nat, c: nat)
    requires Walkable(f, t, i) && !Present(f.tables[t][i]) && |f.tables| < PAGE_POOL_COUNT
    requires c <= |f.tables| && Linked(f, t, i).path[c] != []
    requires PathsOk(Linked(f, t, i))
    ensures HasParent(Linked(f, t, i), c)
  {
    hide SlotOk;
    var f' := Linked(f, t, i);
    if c == |f.tables| {
      LinkBits(f, c);
      assert f'.path[c][..|f.path[t]|] == f'.path[t];
      assert ParentOf(f', f'.path[c], t);
    } else {
      assert HasParent(f, c);
      var u :| 0 <= u < |f.tables| && ParentOf(f, f.path[c], u);
      LinkBits(f, |f.tables|);
      assert ParentOf(f', f'.path[c], u);
    }
  }

  /** paging_walk_create keeps the invariant and returns the table the path names. */
  lemma CreateInv(f: Forest, t: nat, i: nat)
    requires Walkable(f, t, i) && WalkCreate(f, t, i).Some?
    ensures var c := WalkCreate(f, t, i).value;
      && Inv(c.f) && c.f.base == f.base && c.f.main == f.main
      && |f.tables| <= |c.f.tables| && f.path <= c.f.path
      && c.table < |c.f.tables| && c.f.path[c.table] == f.path[t] + [i]
      && Next(c.f, t, i) == Some(c.table)
  {
    hide SlotOk, HasParent;
    NextPath(f, t, i);
    if !Present(f.tables[t][i]) {
      LinkedPathsOk(f, t, i);
      var f' := Linked(f, t, i);
      forall u, j | 0 <= u < |f'.tables| && 0 <= j < 512
        ensures SlotOk(f', u, j)
      {
        LinkedSlotOk(f, t, i, u, j);
      }
      forall c | 0 <= c < |f'.tables| && f'.path[c] != []
        ensures HasParent(f', c)
      {
        LinkedHasParent(f, t, i, c);
      }
      LinkBits(f', |f.tables|);
    }
  }

  /** Linking an empty table changes no walk, from any root. */
  lemma CreateWalks(f: Forest, t: nat, i: nat, r: nat, i4: nat, i3: nat, i2: nat, i1: nat)
    requires Walkable(f, t, i) && WalkCreate(f, t, i).Some? && IsRoot(f, r)
    requires i4 < 512 && i3 < 512 && i2 < 512 && i1 < 512
    ensures LeafAt4(WalkCreate(f, t, i).value.f, r, i4, i3, i2, i1) == LeafAt4(f, r, i4, i3, i2, i1)
  {
    CreateInv(f, t, i);
    if !Present(f.tables[t][i]) {
      hide Inv, LinkTo, Walkable;
      var f' := Linked(f, t, i);
      LinkedLeaf4(f, f', t, i, r, i4, i3, i2, i1);
    }
  }

  lemma LinkedLeaf4(f: Forest, f': Forest, t: nat, i: nat, r: nat, i4: nat, i3: nat, i2: nat, i1: nat)
    requires Walkable(f, t, i) && !Present(f.tables[t][i]) && |f.tables| < PAGE_POOL_COUNT && f' == Linked(f, t, i)
    requires IsRoot(f, r) && i4 < 512 && i3 < 512 && i2 < 512 && i1 < 512
    ensures LeafAt4(f', r, i4, i3, i2, i1) == LeafAt4(f, r, i4, i3, i2, i1)
  {
    hide Deref, HasParent, SlotOk, Links;
    LinkBits(f', |f.tables|);
    var e := f.tables[r][i4];
    assert SlotOk(f, r, i4);
    if Present(e) {
      DerefPath(f, r, i4);
      DerefSame(f, f', e);
      LinkedLeaf3(f, f', t, i, Deref(f, e).value, i3, i2, i1);
    }
  }

  lemma LinkedLeaf3(f: Forest, f': Forest, t: nat, i: nat, u: nat, i3: nat, i2: nat, i1: nat)
    requires Walkable(f, t, i) && !Present(f.tables[t][i]) && |f.tables| < PAGE_POOL_COUNT && f' == Linked(f, t, i)
    requires u < |f.tables| && |f.path[u]| == 1 && i3 < 512 && i2 < 512 && i1 < 512
    ensures LeafAt3(f', u, i3, i2, i1) == LeafAt3(f, u, i3, i2, i1)
  {
    hide Deref, HasParent, SlotOk, Links;
    LinkBits(f', |f.tables|);
    var e := f.tables[u][i3];
    assert SlotOk(f, u, i3);
    if Present(e) {
      DerefPath(f, u, i3);
      DerefSame(f, f', e);
      LinkedLeaf2(f, f', t, i, Deref(f, e).value, i2, i1);
    }
  }

  lemma LinkedLeaf2(f: Forest, f': Forest, t: nat, i: nat, u: nat, i2: nat, i1: nat)
    requires Walkable(f, t, i) && !Present(f.tables[t][i]) && |f.tables| < PAGE_POOL_COUNT && f' == Linked(f, t, i)
    requires u < |f.tables| && |f.path[u]| == 2 && i2 < 512 && i1 < 512
    ensures LeafAt2(f', u, i2, i1) == LeafAt2(f, u, i2, i1)
  {
    hide Deref, HasParent, SlotOk, Links;
    LinkBits(f', |f.tables|);
    var e := f.tables[u][i2];
    assert SlotOk(f, u, i2);
    if Present(e) && !Large(e) {
      DerefPath(f, u, i2);
      DerefSame(f, f', e);
    }
  }

  // ---------- Storing a page entry ----------

  function SetEntry(f: Forest, t: nat, i: nat, e: U64): Forest
    requires t < |f.tables| && i < 512
  {
    f.(tables := f.tables[t := f.tables[t][i := e]])
  }

  /** Page entries go into level 2 tables as large pages and into level 1 tables. */
  predicate PageSlot(f: Forest, t: nat, i: nat, e: U64) {
    && Inv(f) && t < |f.tables| && i < 512 && Present(e)
    && (|f.path[t]| == 3 || (|f.path[t]| == 2 && Large(e)))
  }

  lemma SetEntryInv(f: Forest, t: nat, i: nat, e: U64)
    requires PageSlot(f, t, i, e)
    ensures Inv(SetEntry(f, t, i, e))
  {
    var f' := SetEntry(f, t, i, e);
    forall u, j | 0 <= u < |f'.tables| && 0 <= j < 512
      ensures SlotOk(f', u, j)
    {
      SetSlotOk(f, t, i, e, u, j);
    }
    hide SlotOk, HasParent;
    forall c | 0 <= c < |f'.tables| && f'.path[c] != []
      ensures HasParent(f', c)
    {
      SetHasParent(f, t, i, e, c);
    }
  }

  lemma SetHasParent(f: Forest, t: nat, i: nat, e: U64, c: nat)
    requires PageSlot(f, t, i, e) && c < |f.tables| && f.path[c] != []
    ensures HasParent(SetEntry(f, t, i, e), c)
  {
    hide SlotOk;
    var f' := SetEntry(f, t, i, e);
    assert HasParent(f, c);
    var u :| 0 <= u < |f.tables| && ParentOf(f, f.path[c], u);
    assert ParentOf(f', f'.path[c], u);
  }

  lemma SetSlotOk(f: Forest, t: nat, i: nat, e: U64, u: nat, j: nat)
    requires PageSlot(f, t, i, e) && u < |f.tables| && j < 512
    ensures SlotOk(SetEntry(f, t, i, e), u, j)
  {
    hide HasParent;
    var f' := SetEntry(f, t, i, e);
    if !(u == t && j == i) {
      assert SlotOk(f, u, j);
      var before := f.tables[u][j];
      assert f'.tables[u][j] == before;
      if Links(f, before, f.path[u] + [j]) {
        var c :| 0 <= c < |f.tables| && f.path[c] == f.path[u] + [j] && before == LinkTo(f, c);
        assert f'.path[c] == f'.path[u] + [j] && before == LinkTo(f', c);
      }
    }
  }

  /** Storing a page in slot i of a level 2 table changes exactly the walks that use the slot. */
  lemma SetBigWalks(f: Forest, t: nat, i: nat, e: U64, r: nat, i4: nat, i3: nat, i2: nat, i1: nat)
    requires PageSlot(f, t, i, e) && |f.path[t]| == 2 && IsRoot(f, r)
    requires i4 < 512 && i3 < 512 && i2 < 512 && i1 < 512
    ensures LeafAt4(SetEntry(f, t, i, e), r, i4, i3, i2, i1) ==
      if PdOf(f, r, i4, i3) == Some(t) && i2 == i then Maps(e, PAGE_SIZE_2MB) else LeafAt4(f, r, i4, i3, i2, i1)
  {
    var f' := SetEntry(f, t, i, e);
    ViaPd(f, r, i4, i3, i2, i1);
    SetEntryInv(f, t, i, e);
    ViaPd(f', r, i4, i3, i2, i1);
    SetPdOf(f, t, i, e, r, i4, i3);
    hide Inv, LinkTo, Links;
    if d: nat :| PdOf(f, r, i4, i3) == Some(d) {
      SetLeaf2(f, t, i, e, d, i2, i1);
    }
  }

  lemma SetPdOf(f: Forest, t: nat, i: nat, e: U64, r: nat, i4: nat, i3: nat)
    requires PageSlot(f, t, i, e) && IsRoot(f, r) && i4 < 512 && i3 < 512
    ensures PdOf(SetEntry(f, t, i, e), r, i4, i3) == PdOf(f, r, i4, i3)
  {
    hide Deref, LinkTo, Links, SlotOk, HasParent;
    var f' := SetEntry(f, t, i, e);
    NextPath(f, r, i4);
    DerefShape(f, f', f.tables[r][i4]);
    if u: nat :| Next(f, r, i4) == Some(u) {
      DerefShape(f, f', f.tables[u][i3]);
    }
  }

  lemma DerefShape(f: Forest, f': Forest, e: U64)
    requires f'.base == f.base && |f'.tables| == |f.tables|
    ensures Deref(f', e) == Deref(f, e)
  {
  }

  lemma SetLeaf2(f: Forest, t: nat, i: nat, e: U64, u: nat, i2: nat, i1: nat)
    requires PageSlot(f, t, i, e) && |f.path[t]| == 2
    requires u < |f.tables| && |f.path[u]| == 2 && i2 < 512 && i1 < 512
    ensures LeafAt2(SetEntry(f, t, i, e), u, i2, i1) ==
      if u == t && i2 == i then Maps(e, PAGE_SIZE_2MB) else LeafAt2(f, u, i2, i1)
  {
    hide Deref, LinkTo, Links, HasParent;
    var f' := SetEntry(f, t, i, e);
    var before := f.tables[u][i2];
    assert SlotOk(f, u, i2);
    DerefShape(f, f', before);
    if Present(before) && !Large(before) {
      DerefPath(f, u, i2);
    }
  }

  /** The page table the walk from root r goes through. */
  function PtOf(f: Forest, r: nat, i4: nat, i3: nat, i2: nat): (d: Option<nat>)
    requires r < |f.tables| && i4 < 512 && i3 < 512 && i2 < 512
    ensures d.Some? ==> d.value < |f.tables|
  {
    match PdOf(f, r, i4, i3)
    case None => None
    case Some(u) => Next(f, u, i2)
  }

  /** Storing a page in slot i of a level 1 table changes exactly the walks that use the slot. */
  lemma SetSmallWalks(f: Forest, t: nat, i: nat, e: U64, r: nat, i4: nat, i3: nat, i2: nat, i1: nat)
    requires PageSlot(f, t, i, e) && |f.path[t]| == 3 && IsRoot(f, r)
    requires i4 < 512 && i3 < 512 && i2 < 512 && i1 < 512
    ensures LeafAt4(SetEntry(f, t, i, e), r, i4, i3, i2, i1) ==
      if PtOf(f, r, i4, i3, i2) == Some(t) && i1 == i then Maps(e, PAGE_SIZE) else LeafAt4(f, r, i4, i3, i2, i1)
    ensures PtOf(f, r, i4, i3, i2).Some? ==> f.path[PtOf(f, r, i4, i3, i2).value] == [i4, i3, i2]
  {
    hide Inv, LinkTo, Links, Deref, LeafAt4, LeafAt2, Next;
    var f' := SetEntry(f, t, i, e);
    ViaPd(f, r, i4, i3, i2, i1);
    SetEntryInv(f, t, i, e);
    ViaPd(f', r, i4, i3, i2, i1);
    SetPdOf(f, t, i, e, r, i4, i3);
    if d: nat :| PdOf(f, r, i4, i3) == Some(d) {
      NextPath(f, d, i2);
      SetLeaf1(f, t, i, e, d, i2, i1);
    }
  }

  lemma SetLeaf1(f: Forest, t: nat, i: nat, e: U64, u: nat, i2: nat, i1: nat)
    requires PageSlot(f, t, i, e) && |f.path[t]| == 3
    requires u < |f.tables| && |f.path[u]| == 2 && i2 < 512 && i1 < 512
    ensures LeafAt2(SetEntry(f, t, i, e), u, i2, i1) ==
      if Next(f, u, i2) == Some(t) && i1 == i then Maps(e, PAGE_SIZE) else LeafAt2(f, u, i2, i1)
  {
    hide Deref, LinkTo, Links, HasParent;
    var f' := SetEntry(f, t, i, e);
    assert SlotOk(f, u, i2);
    DerefShape(f, f', f.tables[u][i2]);
  }
}
