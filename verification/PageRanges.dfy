/** Ranges of pages, copies of the root, and the boot-time identity map: meaning and cost. */
module PageRanges {
  import opened Machine
  import opened PageTables
  import opened PageMapping

  const MAX_IDENTITY := 0x4_0000_0000

  // ---------- Ranges ----------

  /** n consecutive 2 MiB pages from v to phys. */
  function MapRange(f: Forest, v: nat, phys: nat, n: nat, flags: U64): (r: Option<Forest>)
    requires Inv(f) && phys + n * PAGE_SIZE_2MB <= PHYS_LIMIT
    ensures r.Some? ==> Inv(r.value) && r.value.main == f.main && r.value.base == f.base && f.path <= r.value.path
    ensures n == 0 ==> r == Some(f)
  {
    if n == 0 then Some(f)
    else
      match MapRange(f, v, phys, n - 1, flags)
      case None => None
      case Some(g) => MapNext(g, v, phys, n - 1, flags)
  }

  function MapNext(g: Forest, v: nat, phys: nat, k: nat, flags: U64): (r: Option<Forest>)
    requires Inv(g) && phys + (k + 1) * PAGE_SIZE_2MB <= PHYS_LIMIT
    ensures r.Some? ==> Inv(r.value) && r.value.main == g.main && r.value.base == g.base && g.path <= r.value.path
  {
    var r := Map2M(g, v + k * PAGE_SIZE_2MB, phys + k * PAGE_SIZE_2MB, flags);
    if r.Some? then
      Map2MInv(g, v + k * PAGE_SIZE_2MB, phys + k * PAGE_SIZE_2MB, flags);
      r
    else None
  }

  /** Other roots' own tables are never written. */
  lemma Map2MKeepsRoot(f: Forest, v: nat, phys: U64, flags: U64, r: nat)
    requires Inv(f) && Map2M(f, v, phys, flags).Some? && IsRoot(f, r) && r != f.main
    ensures r < |Map2M(f, v, phys, flags).value.tables|
    ensures Map2M(f, v, phys, flags).value.tables[r] == f.tables[r]
  {
    hide SlotOk, HasParent, I4, I3, I2, BigEntry, ToPd;
    ToPdFacts(f, v);
    ToPdSlots(f, v, r);
    assert ToPd(f, v).value.f.path[r] == [];
  }

  lemma {:induction false} RangeKeepsRoot(f: Forest, v: nat, phys: nat, n: nat, flags: U64, r: nat)
    requires Inv(f) && phys + n * PAGE_SIZE_2MB <= PHYS_LIMIT
    requires MapRange(f, v, phys, n, flags).Some? && IsRoot(f, r) && r != f.main
    ensures IsRoot(MapRange(f, v, phys, n, flags).value, r)
    ensures MapRange(f, v, phys, n, flags).value.tables[r] == f.tables[r]
  {
    hide Inv, MapNext;
    if n > 0 {
      RangeKeepsRoot(f, v, phys, n - 1, flags, r);
      NextKeepsRoot(MapRange(f, v, phys, n - 1, flags).value, v, phys, n - 1, flags, r);
    }
  }

  lemma NextKeepsRoot(g: Forest, v: nat, phys: nat, k: nat, flags: U64, r: nat)
    requires Inv(g) && phys + (k + 1) * PAGE_SIZE_2MB <= PHYS_LIMIT
    requires MapNext(g, v, phys, k, flags).Some? && IsRoot(g, r) && r != g.main
    ensures IsRoot(MapNext(g, v, phys, k, flags).value, r)
    ensures MapNext(g, v, phys, k, flags).value.tables[r] == g.tables[r]
  {
    hide SlotOk, HasParent, Map2M;
    Map2MInv(g, v + k * PAGE_SIZE_2MB, phys + k * PAGE_SIZE_2MB, flags);
    Map2MKeepsRoot(g, v + k * PAGE_SIZE_2MB, phys + k * PAGE_SIZE_2MB, flags, r);
  }

  lemma PageOfRange(v: nat, k: nat, va: nat)
    requires v % PAGE_SIZE_2MB == 0
    ensures va / PAGE_SIZE_2MB == (v + k * PAGE_SIZE_2MB) / PAGE_SIZE_2MB <==>
      v + k * PAGE_SIZE_2MB <= va < v + (k + 1) * PAGE_SIZE_2MB
    ensures va / PAGE_SIZE_2MB == (v + k * PAGE_SIZE_2MB) / PAGE_SIZE_2MB ==>
      va % PAGE_SIZE_2MB == va - (v + k * PAGE_SIZE_2MB)
  {
  }

  lemma PageAligned(phys: nat, k: nat)
    requires phys % PAGE_SIZE_2MB == 0
    ensures (phys + k * PAGE_SIZE_2MB) % PAGE_SIZE_2MB == 0
  {
  }

  /** A range maps every address of its pages linearly and no other address differently. */
  lemma {:induction false} MapRangeWalks(f: Forest, v: nat, phys: nat, n: nat, flags: U64, r: nat, va: nat)
    requires Inv(f) && phys + n * PAGE_SIZE_2MB <= PHYS_LIMIT && v + n * PAGE_SIZE_2MB <= VIRT_LIMIT
    requires v % PAGE_SIZE_2MB == 0 && phys % PAGE_SIZE_2MB == 0
    requires MapRange(f, v, phys, n, flags).Some? && IsRoot(f, r) && va < VIRT_LIMIT
    ensures var f' := MapRange(f, v, phys, n, flags).value;
      && IsRoot(f', r)
      && Walk(f', r, va) ==
           if v <= va < v + n * PAGE_SIZE_2MB && Serves(f, r, va) then Some(phys + (va - v)) else Walk(f, r, va)
  {
    hide Inv, Map2M, Walk, I4;
    if n > 0 {
      var g := MapRange(f, v, phys, n - 1, flags).value;
      var w, p := v + (n - 1) * PAGE_SIZE_2MB, phys + (n - 1) * PAGE_SIZE_2MB;
      MapRangeWalks(f, v, phys, n - 1, flags, r, va);
      Map2MWalks(g, w, p, flags, r, va);
      PageOfRange(v, n - 1, va);
      PageAligned(phys, n - 1);
      if r != f.main {
        RangeKeepsRoot(f, v, phys, n - 1, flags, r);
      }
      if va / PAGE_SIZE_2MB == w / PAGE_SIZE_2MB {
        SamePage2M(va, w);
      }
    }
  }

  // ---------- How many tables ----------

  /** The index paths that have a table, roots aside. */
  function PathSet(f: Forest): set<seq<nat>> {
    set c | 0 <= c < |f.path| && f.path[c] != [] :: f.path[c]
  }

  /** page_pool_used is the roots plus one table per path. */
  predicate Counted(f: Forest, roots: nat) {
    |f.tables| == roots + |PathSet(f)|
  }

  lemma WalkCreateCost(f: Forest, t: nat, i: nat, roots: nat)
    requires Walkable(f, t, i) && Counted(f, roots)
    ensures WalkCreate(f, t, i).Some? <==> roots + |PathSet(f) + {f.path[t] + [i]}| <= PAGE_POOL_COUNT
    ensures WalkCreate(f, t, i).Some? ==>
      var g := WalkCreate(f, t, i).value.f;
      PathSet(g) == PathSet(f) + {f.path[t] + [i]} && Counted(g, roots)
  {
    hide SlotOk, HasParent, LinkTo, Deref, Next;
    var p := f.path[t] + [i];
    NextPath(f, t, i);
    if Present(f.tables[t][i]) {
      assert f.path[Next(f, t, i).value] == p;
      assert PathSet(f) + {p} == PathSet(f);
    } else {
      if p in PathSet(f) {
        var c :| 0 <= c < |f.path| && f.path[c] == p;
        PathImpliesPresent(f, t, i, c);
      }
      assert |PathSet(f) + {p}| == |PathSet(f)| + 1;
      if |f.tables| < PAGE_POOL_COUNT {
        LinkedPathSet(f, t, i);
      }
    }
  }

  lemma LinkedPathSet(f: Forest, t: nat, i: nat)
    requires Walkable(f, t, i) && |f.tables| < PAGE_POOL_COUNT
    ensures PathSet(Linked(f, t, i)) == PathSet(f) + {f.path[t] + [i]}
  {
    hide SlotOk, HasParent, LinkTo;
    var g := Linked(f, t, i);
    assert g.path == f.path + [f.path[t] + [i]];
    forall p | p in PathSet(f)
      ensures p in PathSet(g)
    {
      var c :| 0 <= c < |f.path| && f.path[c] == p;
      assert g.path[c] == p;
    }
    assert g.path[|f.path|] == f.path[t] + [i];
  }

  /** The two paths a 2 MiB page needs. */
  function PagePaths(v: nat): set<seq<nat>> {
    {[I4(v)], [I4(v), I3(v)]}
  }

  lemma SubsetCard(a: set<seq<nat>>, b: set<seq<nat>>)
    requires a <= b
    ensures |a| <= |b|
  {
    assert b == a + (b - a);
  }

  lemma Map2MCost(f: Forest, v: nat, phys: U64, flags: U64, roots: nat)
    requires Inv(f) && Counted(f, roots)
    ensures Map2M(f, v, phys, flags).Some? <==> roots + |PathSet(f) + PagePaths(v)| <= PAGE_POOL_COUNT
    ensures Map2M(f, v, phys, flags).Some? ==>
      var g := Map2M(f, v, phys, flags).value;
      PathSet(g) == PathSet(f) + PagePaths(v) && Counted(g, roots)
  {
    hide Inv, I4, I3, I2, WalkCreate, PathSet, BigEntry, Counted, SetEntry;
    ToPdCost(f, v, roots);
    if ToPd(f, v).Some? {
      ToPdFacts(f, v);
      var c := ToPd(f, v).value;
      SetPathSet(c.f, c.table, I2(v), BigEntry(phys, flags), roots);
    }
  }

  /** The two tables on the way to a page directory. */
  lemma ToPdCost(f: Forest, v: nat, roots: nat)
    requires Inv(f) && Counted(f, roots)
    ensures ToPd(f, v).Some? <==> roots + |PathSet(f) + PagePaths(v)| <= PAGE_POOL_COUNT
    ensures ToPd(f, v).Some? ==>
      PathSet(ToPd(f, v).value.f) == PathSet(f) + PagePaths(v) && Counted(ToPd(f, v).value.f, roots)
  {
    hide SlotOk, HasParent, I4, I3, I2, LinkTo, Deref, Next, WalkCreate, PathSet;
    var p, q := [I4(v)], [I4(v), I3(v)];
    WalkCreateCost(f, f.main, I4(v), roots);
    assert f.path[f.main] + [I4(v)] == p;
    OneThenBoth(PathSet(f), p, q);
    if WalkCreate(f, f.main, I4(v)).Some? {
      CreateInv(f, f.main, I4(v));
      var c := WalkCreate(f, f.main, I4(v)).value;
      WalkCreateCost(c.f, c.table, I3(v), roots);
      assert c.f.path[c.table] + [I3(v)] == q;
    }
  }

  lemma OneThenBoth(s: set<seq<nat>>, p: seq<nat>, q: seq<nat>)
    ensures s + {p} + {q} == s + {p, q} && |s + {p}| <= |s + {p, q}|
  {
    SubsetCard(s + {p}, s + {p, q});
  }

  lemma SetPathSet(f: Forest, t: nat, i: nat, e: U64, roots: nat)
    requires t < |f.tables| && i < 512
    ensures PathSet(SetEntry(f, t, i, e)) == PathSet(f) && |SetEntry(f, t, i, e).tables| == |f.tables|
    ensures Counted(SetEntry(f, t, i, e), roots) == Counted(f, roots)
  {
  }

  /** The level 4 slots, as paths, that n pages from v touch. */
  function Slots4(v: nat, n: nat): set<seq<nat>> {
    set k | 0 <= k < n :: [I4(v + k * PAGE_SIZE_2MB)]
  }

  /** The level 3 slots, as paths, that n pages from v touch. */
  function Slots3(v: nat, n: nat): set<seq<nat>> {
    set k | 0 <= k < n :: [I4(v + k * PAGE_SIZE_2MB), I3(v + k * PAGE_SIZE_2MB)]
  }

  lemma SlotsNext(v: nat, n: nat)
    ensures Slots4(v, n + 1) + Slots3(v, n + 1) == Slots4(v, n) + Slots3(v, n) + PagePaths(v + n * PAGE_SIZE_2MB)
  {
    hide I4, I3;
    var w := v + n * PAGE_SIZE_2MB;
    assert Slots4(v, n + 1) == Slots4(v, n) + {[I4(w)]};
    assert Slots3(v, n + 1) == Slots3(v, n) + {[I4(w), I3(w)]};
  }

  /** A range costs one table per new level 4 slot and one per new level 3 slot; it panics
      exactly when the pool has fewer left. */
  lemma {:induction false} MapRangeCost(f: Forest, v: nat, phys: nat, n: nat, flags: U64, roots: nat)
    requires Inv(f) && Counted(f, roots) && phys + n * PAGE_SIZE_2MB <= PHYS_LIMIT
    ensures n == 0 || (MapRange(f, v, phys, n, flags).Some? <==>
      roots + |PathSet(f) + (Slots4(v, n) + Slots3(v, n))| <= PAGE_POOL_COUNT)
    ensures MapRange(f, v, phys, n, flags).Some? ==>
      var g := MapRange(f, v, phys, n, flags).value;
      PathSet(g) == PathSet(f) + (Slots4(v, n) + Slots3(v, n)) && Counted(g, roots)
  {
    hide Inv, MapNext, MapRange, PathSet, PagePaths, Slots4, Slots3, Counted;
    if n == 0 {
      NoSlots(v);
    } else {
      MapRangeCost(f, v, phys, n - 1, flags, roots);
      SlotsGrow(PathSet(f), v, n - 1);
      RangeUnfold(f, v, phys, n, flags);
      if MapRange(f, v, phys, n - 1, flags).Some? {
        NextCost(MapRange(f, v, phys, n - 1, flags).value, v, phys, n - 1, flags, roots);
      }
    }
  }

  lemma RangeUnfold(f: Forest, v: nat, phys: nat, n: nat, flags: U64)
    requires Inv(f) && phys + n * PAGE_SIZE_2MB <= PHYS_LIMIT && n > 0
    ensures MapRange(f, v, phys, n, flags) ==
      match MapRange(f, v, phys, n - 1, flags)
      case None => None
      case Some(g) => MapNext(g, v, phys, n - 1, flags)
  {
  }

  lemma SlotsGrow(p: set<seq<nat>>, v: nat, n: nat)
    ensures var before, all := p + (Slots4(v, n) + Slots3(v, n)), p + (Slots4(v, n + 1) + Slots3(v, n + 1));
      all == before + PagePaths(v + n * PAGE_SIZE_2MB) && |before| <= |all|
  {
    hide Slots4, Slots3, PagePaths;
    var before, all := p + (Slots4(v, n) + Slots3(v, n)), p + (Slots4(v, n + 1) + Slots3(v, n + 1));
    SlotsNext(v, n);
    SubsetCard(before, all);
  }

  lemma NextCost(g: Forest, v: nat, phys: nat, k: nat, flags: U64, roots: nat)
    requires Inv(g) && Counted(g, roots) && phys + (k + 1) * PAGE_SIZE_2MB <= PHYS_LIMIT
    ensures var all := PathSet(g) + PagePaths(v + k * PAGE_SIZE_2MB);
      && (MapNext(g, v, phys, k, flags).Some? <==> roots + |all| <= PAGE_POOL_COUNT)
      && (MapNext(g, v, phys, k, flags).Some? ==>
            PathSet(MapNext(g, v, phys, k, flags).value) == all && Counted(MapNext(g, v, phys, k, flags).value, roots))
  {
    hide Inv, Map2M, PathSet, PagePaths, Counted;
    Map2MCost(g, v + k * PAGE_SIZE_2MB, phys + k * PAGE_SIZE_2MB, flags, roots);
  }

  lemma NoSlots(v: nat)
    ensures Slots4(v, 0) == {} && Slots3(v, 0) == {}
  {
  }
}
