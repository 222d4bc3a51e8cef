/** Copies of the root table, and the map paging_init builds. */
module PageRoots {
  import opened Machine
  import opened PageTables
  import opened PageMapping
  import opened PageRanges

  // ---------- Coherence of roots ----------

  /** In every reachable forest a root translates like g_pml4 wherever its slot is present, and
      faults elsewhere. */
  lemma RootCoherent(f: Forest, r: nat, va: nat)
    requires Inv(f) && IsRoot(f, r)
    ensures Walk(f, r, va) == if Present(f.tables[r][I4(va)]) then Walk(f, f.main, va) else None
  {
    hide SlotOk, HasParent, I4, I3, I2, I1, FrameOf, LeafAt2, LeafAt4, Next;
    ViaPd(f, r, I4(va), I3(va), I2(va), I1(va));
    ViaPd(f, f.main, I4(va), I3(va), I2(va), I1(va));
    RootShares(f, r, I4(va), I3(va));
  }

  // ---------- paging_alloc_pml4_copy ----------

  function CopyTable(t: Table): Table {
    seq(512, i requires 0 <= i < 512 => if Present(t[i]) then t[i] else 0)
  }

  /** paging_alloc_pml4_copy; None when alloc_table panics. */
  function CopyRoot(f: Forest): Option<Created>
    requires Inv(f)
  {
    if |f.tables| >= PAGE_POOL_COUNT then None
    else Some(Created(Forest(f.tables + [CopyTable(f.tables[f.main])], f.base, f.main, f.path + [[]]), |f.tables|))
  }

  lemma CopySlotOk(f: Forest, t: nat, i: nat)
    requires Inv(f) && CopyRoot(f).Some? && t <= |f.tables| && i < 512
    ensures SlotOk(CopyRoot(f).value.f, t, i)
  {
    hide HasParent;
    var g := CopyRoot(f).value.f;
    var s := if t == |f.tables| then f.main else t;
    assert SlotOk(f, s, i);
    var e := f.tables[s][i];
    if Present(e) {
      assert g.tables[t][i] == e;
      if Links(f, e, f.path[s] + [i]) {
        var c :| 0 <= c < |f.tables| && f.path[c] == f.path[s] + [i] && e == LinkTo(f, c);
        assert g.path[c] == g.path[t] + [i] && e == LinkTo(g, c);
      }
    }
  }

  /** The copy is a new root over the same subtrees, with exactly g_pml4's present slots. */
  lemma CopyInv(f: Forest)
    requires Inv(f) && CopyRoot(f).Some?
    ensures var c := CopyRoot(f).value;
      && Inv(c.f) && c.f.main == f.main && c.f.base == f.base && f.tables <= c.f.tables && f.path <= c.f.path
      && IsRoot(c.f, c.table) && c.table != f.main
      && (forall i :: 0 <= i < 512 ==> Present(c.f.tables[c.table][i]) == Present(f.tables[f.main][i]))
  {
    hide SlotOk, HasParent;
    var g := CopyRoot(f).value.f;
    forall t, i | 0 <= t < |g.tables| && 0 <= i < 512
      ensures SlotOk(g, t, i)
    {
      CopySlotOk(f, t, i);
    }
    forall c | 0 <= c < |g.tables| && g.path[c] != []
      ensures HasParent(g, c)
    {
      CopyHasParent(f, c);
    }
  }

  lemma CopyHasParent(f: Forest, c: nat)
    requires Inv(f) && CopyRoot(f).Some? && c < |f.tables| && f.path[c] != []
    ensures HasParent(CopyRoot(f).value.f, c)
  {
    hide SlotOk;
    assert HasParent(f, c);
    var u :| 0 <= u < |f.tables| && ParentOf(f, f.path[c], u);
    var g := CopyRoot(f).value.f;
    assert g.path[c] == f.path[c] && g.path[u] == f.path[u] && g.tables[u] == f.tables[u];
    assert ParentOf(g, g.path[c], u);
  }

  /** Tables added at the end of the pool change no walk. */
  lemma GrowLeaf2(f: Forest, g: Forest, u: nat, i2: nat, i1: nat)
    requires Inv(f) && f.tables <= g.tables && g.base == f.base
    requires u < |f.tables| && |f.path[u]| == 2 && i2 < 512 && i1 < 512
    ensures LeafAt2(g, u, i2, i1) == LeafAt2(f, u, i2, i1)
  {
    hide Deref, LinkTo, HasParent, Links;
    assert SlotOk(f, u, i2);
    if Present(f.tables[u][i2]) && !Large(f.tables[u][i2]) {
      DerefPath(f, u, i2);
      DerefSame(f, g, f.tables[u][i2]);
    }
  }

  lemma GrowWalk(f: Forest, g: Forest, r: nat, va: nat)
    requires Inv(f) && Inv(g) && f.tables <= g.tables && f.path <= g.path && g.base == f.base && IsRoot(f, r)
    ensures IsRoot(g, r) && Walk(g, r, va) == Walk(f, r, va)
  {
    hide Deref, SlotOk, HasParent, I4, I3, I2, I1, FrameOf, LeafAt2, LeafAt4;
    ViaPd(f, r, I4(va), I3(va), I2(va), I1(va));
    ViaPd(g, r, I4(va), I3(va), I2(va), I1(va));
    NextPath(f, r, I4(va));
    GrowNext(f, g, r, I4(va));
    if u: nat :| Next(f, r, I4(va)) == Some(u) {
      NextPath(f, u, I3(va));
      GrowNext(f, g, u, I3(va));
      if d: nat :| Next(f, u, I3(va)) == Some(d) {
        GrowLeaf2(f, g, d, I2(va), I1(va));
      }
    }
  }

  lemma GrowNext(f: Forest, g: Forest, u: nat, i: nat)
    requires Inv(f) && f.tables <= g.tables && g.base == f.base
    requires u < |f.tables| && |f.path[u]| < 2 && i < 512
    ensures Next(g, u, i) == Next(f, u, i)
  {
    hide Deref, LinkTo, HasParent, Links;
    NextPath(f, u, i);
    if Next(f, u, i).Some? {
      DerefSame(f, g, f.tables[u][i]);
    }
  }

  /** After the copy both roots translate every address alike, and as g_pml4 did before. */
  lemma CopyTranslatesAlike(f: Forest, va: nat)
    requires Inv(f) && CopyRoot(f).Some?
    ensures var c := CopyRoot(f).value;
      && Inv(c.f) && IsRoot(c.f, c.table) && IsRoot(c.f, f.main)
      && Walk(c.f, c.table, va) == Walk(c.f, f.main, va) == Walk(f, f.main, va)
  {
    CopyInv(f);
    hide SlotOk, HasParent, CopyRoot, Walk, I4;
    var c := CopyRoot(f).value;
    RootCoherent(c.f, c.table, va);
    RootCoherent(c.f, c.f.main, va);
    assert c.f.tables[f.main] == f.tables[f.main];
    GrowWalk(f, c.f, f.main, va);
  }

  // ---------- Runs of paging_map_range after a copy ----------

  datatype RangeOp = RangeOp(v: nat, phys: nat, n: nat, flags: U64)

  predicate OpOk(op: RangeOp) {
    && op.v % PAGE_SIZE_2MB == 0 && op.phys % PAGE_SIZE_2MB == 0
    && op.v + op.n * PAGE_SIZE_2MB <= VIRT_LIMIT && op.phys + op.n * PAGE_SIZE_2MB <= PHYS_LIMIT
  }

  function RunRanges(f: Forest, ops: seq<RangeOp>): (r: Option<Forest>)
    requires Inv(f) && forall i :: 0 <= i < |ops| ==> OpOk(ops[i])
    ensures r.Some? ==> Inv(r.value) && r.value.main == f.main && f.path <= r.value.path
  {
    if ops == [] then Some(f)
    else
      var last := ops[|ops| - 1];
      assert OpOk(last);
      match RunRanges(f, ops[..|ops| - 1])
      case None => None
      case Some(g) => MapRange(g, last.v, last.phys, last.n, last.flags)
  }

  /** Every page of the range has its level 4 slot present in root c. */
  predicate Within(f: Forest, c: nat, op: RangeOp)
    requires c < |f.tables|
  {
    forall k :: 0 <= k < op.n ==> SlotPresent(f, c, op.v + k * PAGE_SIZE_2MB)
  }

  predicate SlotPresent(f: Forest, c: nat, va: nat)
    requires c < |f.tables|
  {
    Present(f.tables[c][I4(va)])
  }

  /** A page whose level 4 slot exists is mapped without writing g_pml4 itself. */
  lemma Map2MKeepsMain(f: Forest, v: nat, phys: U64, flags: U64)
    requires Inv(f) && Map2M(f, v, phys, flags).Some? && SlotPresent(f, f.main, v)
    ensures f.main < |Map2M(f, v, phys, flags).value.tables|
    ensures Map2M(f, v, phys, flags).value.tables[f.main] == f.tables[f.main]
  {
    hide SlotOk, HasParent, I4, I3, I2, BigEntry, Next, LinkTo;
    ToPdFacts(f, v);
    CreateInv(f, f.main, I4(v));
    var c := WalkCreate(f, f.main, I4(v)).value;
    assert c.f == f;
    CreateInv(f, c.table, I3(v));
    assert c.table != f.main;
    assert ToPd(f, v).value.f.tables[f.main] == f.tables[f.main];
  }

  lemma {:induction false} RangeKeepsMain(f: Forest, op: RangeOp, n: nat)
    requires Inv(f) && OpOk(op) && n <= op.n && Within(f, f.main, op)
    requires op.phys + n * PAGE_SIZE_2MB <= PHYS_LIMIT
    requires MapRange(f, op.v, op.phys, n, op.flags).Some?
    ensures var g := MapRange(f, op.v, op.phys, n, op.flags).value;
      f.main < |g.tables| && g.tables[f.main] == f.tables[f.main]
  {
    hide SlotOk, HasParent, SlotPresent, Map2M;
    if n > 0 {
      RangeKeepsMain(f, op, n - 1);
      var g := MapRange(f, op.v, op.phys, n - 1, op.flags).value;
      var w := op.v + (n - 1) * PAGE_SIZE_2MB;
      assert SlotPresent(f, f.main, w);
      SameSlot(f, g, f.main, w);
      Map2MKeepsMain(g, w, op.phys + (n - 1) * PAGE_SIZE_2MB, op.flags);
    }
  }

  lemma SameSlot(f: Forest, g: Forest, c: nat, va: nat)
    requires c < |f.tables| && c < |g.tables| && f.tables[c] == g.tables[c]
    ensures SlotPresent(f, c, va) == SlotPresent(g, c, va)
  {
  }

  /** Runs never write a copy, and write g_pml4 only to add a slot. */
  lemma {:induction false} RunKeepsCopy(f: Forest, c: nat, ops: seq<RangeOp>)
    requires Inv(f) && IsRoot(f, c) && c != f.main && forall i :: 0 <= i < |ops| ==> OpOk(ops[i])
    requires RunRanges(f, ops).Some?
    ensures IsRoot(RunRanges(f, ops).value, c) && RunRanges(f, ops).value.tables[c] == f.tables[c]
  {
    hide Inv, MapRange;
    if ops != [] {
      var n := |ops| - 1;
      RunKeepsCopy(f, c, ops[..n]);
      var g := RunRanges(f, ops[..n]).value;
      RangeKeepsRoot(g, ops[n].v, ops[n].phys, ops[n].n, ops[n].flags, c);
    }
  }

  lemma {:induction false} RunKeepsMain(f: Forest, ops: seq<RangeOp>)
    requires Inv(f) && forall i :: 0 <= i < |ops| ==> OpOk(ops[i])
    requires RunRanges(f, ops).Some?
    requires f.main < |f.tables| && forall i :: 0 <= i < |ops| ==> Within(f, f.main, ops[i])
    ensures f.main < |RunRanges(f, ops).value.tables|
    ensures RunRanges(f, ops).value.tables[f.main] == f.tables[f.main]
  {
    hide Inv, MapRange, SlotPresent;
    if ops != [] {
      var n := |ops| - 1;
      RunKeepsMain(f, ops[..n]);
      var g := RunRanges(f, ops[..n]).value;
      assert Within(f, f.main, ops[n]);
      WithinSame(f, g, f.main, ops[n]);
      RangeKeepsMain(g, ops[n], ops[n].n);
    }
  }

  lemma WithinSame(f: Forest, g: Forest, c: nat, op: RangeOp)
    requires c < |f.tables| && c < |g.tables| && f.tables[c] == g.tables[c]
    ensures Within(f, c, op) == Within(g, c, op)
  {
  }

  /** A page mapped somewhere in a run is mapped at its end. */
  lemma {:induction false} RunMapped(f: Forest, ops: seq<RangeOp>, j: nat, k: nat)
    requires Inv(f) && forall i :: 0 <= i < |ops| ==> OpOk(ops[i])
    requires RunRanges(f, ops).Some? && j < |ops| && k < ops[j].n
    ensures IsRoot(RunRanges(f, ops).value, f.main)
    ensures Walk(RunRanges(f, ops).value, f.main, ops[j].v + k * PAGE_SIZE_2MB).Some?
  {
    hide MapRange, Walk, SlotOk, HasParent, I4;
    var n := |ops| - 1;
    var g := RunRanges(f, ops[..n]).value;
    var w := ops[j].v + k * PAGE_SIZE_2MB;
    PageBelow(ops[j], k);
    if j < n {
      RunMapped(f, ops[..n], j, k);
    }
    MapRangeWalks(g, ops[n].v, ops[n].phys, ops[n].n, ops[n].flags, f.main, w);
  }

  lemma PageBelow(op: RangeOp, k: nat)
    requires OpOk(op) && k < op.n
    ensures op.v + k * PAGE_SIZE_2MB < op.v + op.n * PAGE_SIZE_2MB <= VIRT_LIMIT
  {
  }

  predicate CopyOf(f: Forest, c: nat) {
    && IsRoot(f, c) && IsRoot(f, f.main) && c != f.main
    && forall i :: 0 <= i < 512 ==> Present(f.tables[c][i]) == Present(f.tables[f.main][i])
  }

  /** The two roots translate address va alike. */
  predicate Alike(f: Forest, c: nat, va: nat)
    requires c < |f.tables| && f.main < |f.tables|
  {
    Walk(f, c, va) == Walk(f, f.main, va)
  }

  /** From a copy on, after any run of paging_map_range the roots still translate every address
      alike exactly when every mapped page had its level 4 slot at the time of the copy. */
  lemma CoherenceIff(f: Forest, c: nat, ops: seq<RangeOp>)
    requires Inv(f) && CopyOf(f, c) && forall i :: 0 <= i < |ops| ==> OpOk(ops[i])
    requires RunRanges(f, ops).Some?
    ensures var g := RunRanges(f, ops).value;
      && IsRoot(g, c) && IsRoot(g, f.main)
      && ((forall va :: 0 <= va < VIRT_LIMIT ==> Alike(g, c, va)) <==>
          (forall i :: 0 <= i < |ops| ==> Within(f, c, ops[i])))
  {
    hide Inv, RunRanges, Within, Alike;
    var g := RunRanges(f, ops).value;
    RunKeepsCopy(f, c, ops);
    if forall i :: 0 <= i < |ops| ==> Within(f, c, ops[i]) {
      forall va | 0 <= va < VIRT_LIMIT
        ensures Alike(g, c, va)
      {
        StaysAlike(f, c, ops, va);
      }
    } else {
      var j: nat :| j < |ops| && !Within(f, c, ops[j]);
      var va := FallsApart(f, c, ops, j);
    }
  }

  /** A page outside the copied slots ends up mapped in g_pml4 and absent in the copy. */
  lemma FallsApart(f: Forest, c: nat, ops: seq<RangeOp>, j: nat) returns (va: nat)
    requires Inv(f) && CopyOf(f, c) && forall i :: 0 <= i < |ops| ==> OpOk(ops[i])
    requires RunRanges(f, ops).Some? && j < |ops| && !Within(f, c, ops[j])
    ensures va < VIRT_LIMIT
    ensures var g := RunRanges(f, ops).value; IsRoot(g, c) && IsRoot(g, f.main) && !Alike(g, c, va)
  {
    hide Inv, Walk, I4, RunRanges;
    var g := RunRanges(f, ops).value;
    RunKeepsCopy(f, c, ops);
    var k: nat :| k < ops[j].n && !SlotPresent(f, c, ops[j].v + k * PAGE_SIZE_2MB);
    va := ops[j].v + k * PAGE_SIZE_2MB;
    PageBelow(ops[j], k);
    RunMapped(f, ops, j, k);
    RootCoherent(g, c, va);
  }

  lemma StaysAlike(f: Forest, c: nat, ops: seq<RangeOp>, va: nat)
    requires Inv(f) && CopyOf(f, c) && forall i :: 0 <= i < |ops| ==> OpOk(ops[i])
    requires RunRanges(f, ops).Some?
    requires forall i :: 0 <= i < |ops| ==> Within(f, c, ops[i])
    ensures var g := RunRanges(f, ops).value;
      IsRoot(g, c) && IsRoot(g, f.main) && Alike(g, c, va)
  {
    hide SlotOk, HasParent, Walk, I4, RunRanges;
    var g := RunRanges(f, ops).value;
    RunKeepsCopy(f, c, ops);
    forall i | 0 <= i < |ops|
      ensures Within(f, f.main, ops[i])
    {
      assert Within(f, c, ops[i]);
      assert forall k :: 0 <= k < ops[i].n ==> SlotPresent(f, c, ops[i].v + k * PAGE_SIZE_2MB);
    }
    RunKeepsMain(f, ops);
    RootCoherent(g, c, va);
    RootCoherent(g, f.main, va);
  }
}
