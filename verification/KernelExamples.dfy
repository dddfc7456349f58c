/** Runs of the kernel code in which it does not do what it should: they start
    with page_init and use the calls of kern/env.c and kern/syscall.c only. */
module KernelExamples {
  import opened Mmu
  import opened Queue
  import opened PageGraph
  import opened PageOps
  import opened PageSys
  import opened Kern
  import opened Envs
  import opened EnvIds
  import opened Errors

  const VA: nat := 0x80_0000
  const FAR: nat := 0xc0_0000       // in another page table
  const PERM: nat := 7

  /** A machine of 161 pages after page_init and env_init. */
  method Booted() returns (table: EnvTable)
    ensures fresh(table) && fresh(table.mem) && fresh(table.mem.free) && fresh(table.freeEnvs) && table.Valid()
    ensures table.curenv == None && table.freeEnvs.elems == seq(NENV, i => i) && table.status == seq(NENV, _ => Free)
    ensures |table.mem.free.elems| >= 3 && |table.mem.dirs| == NENV + 1 && table.mem.dirs[0] == None
    ensures exists boot: nat :: G(table.mem.State()) == map[DirRef(BOOT) := Entry(boot, 0)]
  {
    hide List.Valid, Inv;
    var kernel := new Kernel(161, 161, 160, seq(161, _ => Zeros()));
    ThreeIn(kernel.free.elems);
    table := new EnvTable(kernel);
  }

  lemma ThreeIn(s: seq<nat>)
    requires 1 in s && 2 in s && 3 in s
    ensures |s| >= 3
  {
    var i :| 0 <= i < |s| && s[i] == 1;
    var j :| 0 <= j < |s| && s[j] == 2;
    var k :| 0 <= k < |s| && s[k] == 3;
    assert i != j && j != k && i != k;
  }

  ghost predicate RunsZero(table: EnvTable)
    reads table, table.mem, table.mem.free, table.freeEnvs
  {
    && table.Valid() && table.Running() && table.curenv == Some(0)
    && |table.id| == |table.parent| == NENV && |table.mem.dirs| == NENV + 1 && table.mem.dirs[0].Some?
  }

  /** Environment 0 runs, and nothing is mapped. */
  method OneEnv() returns (table: EnvTable)
    ensures fresh(table) && fresh(table.mem) && fresh(table.mem.free) && fresh(table.freeEnvs) && RunsZero(table)
    ensures FlatOf(G(table.mem.State())) == map[] && |table.mem.free.elems| >= 2
            && TableOf(0, FAR) !in G(table.mem.State())
  {
    hide List.Valid, Inv, Setup, Consistent, FlatOf;
    table := Booted();
    ghost var s := table.mem.State();
    var r, e := table.EnvAlloc(0);
    OnlyDir(s, table.mem.State());
    FieldLengths(table.Fields(), table.freeEnvs.elems, table.mem.dirs);
    table.ValidOrderly();
    var ok := table.Perform(DoSwitch(0));
    FieldLengths(table.Fields(), table.freeEnvs.elems, table.mem.dirs);
  }

  /** Environment 0 runs and has one page, at VA. */
  method OnePage() returns (table: EnvTable, ghost p: nat)
    ensures fresh(table) && fresh(table.mem) && fresh(table.mem.free) && fresh(table.freeEnvs) && RunsZero(table)
    ensures FlatOf(G(table.mem.State())) == map[VPage(0, VPN(VA)) := Entry(p, PERM)]
    ensures TableOf(0, FAR) !in G(table.mem.State())
  {
    hide List.Valid, Inv, MapNew, Consistent, FlatOf, MapNewFails, TableOf, GraphOf, PDX, VPN;
    table := OneEnv();
    p := table.mem.free.elems[0];
    FirstPage(table.mem.State());
    var r := table.SysPageAlloc(0, VA, PERM);
    FieldLengths(table.Fields(), table.freeEnvs.elems, table.mem.dirs);
  }

  lemma OnlyDir(s: VM, s': VM)
    requires Inv(s) && s' == Setup(s, 0) && s.mem.dirs[0] == None && |s.books.free| >= 3
    requires exists boot: nat :: G(s) == map[DirRef(BOOT) := Entry(boot, 0)]
    ensures Inv(s') && FlatOf(G(s')) == map[] && |s'.books.free| >= 2 && |s'.mem.dirs| == NENV + 1
            && s'.mem.dirs[0].Some?
    ensures TableOf(0, FAR) !in G(s')
  {
    hide Inv;
    BootInBounds(s);
    SetupCorrect(s, 0);
  }

  lemma FirstPage(s: VM)
    requires Inv(s) && FlatOf(G(s)) == map[] && |s.books.free| >= 2 && Mapper(s, 0, VA) && TableOf(0, FAR) !in G(s)
    ensures !MapNewFails(s, 0, VA) && MapNew(s, 0, VA, PERM).mem.dirs == s.mem.dirs
            && TableOf(0, FAR) !in G(MapNew(s, 0, VA, PERM))
    ensures FlatOf(G(MapNew(s, 0, VA, PERM))) == map[VPage(0, VPN(VA)) := Entry(s.books.free[0], PERM)]
  {
    hide Inv, FlatOf, Insert;
    MapNewCorrect(s, 0, VA, PERM);
    MapNewCan(s, 0, VA);
    TakeCorrect(s);
    InsertIsUpdate(Take(s), 0, s.books.free[0], VA, PERM);
    MapNewInsert(s, 0, VA, PERM);
    ClearCorrect(Insert(Take(s), 0, s.books.free[0], VA, PERM), s.books.free[0]);
  }

  /** Unmapping a page that was never mapped, in a table that exists, goes through
      a null page. */
  method UnmapNothing() returns (fault: bool)
    ensures fault
  {
    hide List.Valid, Inv, Consistent, FlatOf, Remove;
    var table, p := OnePage();
    NextUnmapped(table.mem.State(), p);
    var r;
    r, fault := table.SysPageUnmap(0, VA + PGSIZE);
  }

  lemma NextUnmapped(s: VM, p: nat)
    requires FlatOf(G(s)) == map[VPage(0, VPN(VA)) := Entry(p, PERM)]
    ensures Target(s.mem, TableOf(0, VA + PGSIZE)).Some? && At(s.mem, 0, VA + PGSIZE) == None
  {
    hide FlatOf, GraphOf;
    FlatAt(s, 0, VA);
    FlatAt(s, 0, VA + PGSIZE);
  }

  /** page_alloc until there is no free page. */
  method UseUp(k: Kernel)
    requires k.Valid()
    modifies k, k.free
    ensures k.Valid() && k.free.elems == [] && k.Memory() == old(k.Memory()) && k.ppref == old(k.ppref)
  {
    hide List.Valid, Inv;
    k.free.Head();
    while k.free.first.Some?
      invariant k.Valid() && (k.free.first.Some? <==> k.free.elems != [])
      invariant k.Memory() == old(k.Memory()) && k.ppref == old(k.ppref)
      decreases |k.free.elems|
    {
      var r, p := k.PageAlloc();
      k.free.Head();
    }
  }

  /** With no page free, mapping the page once more, where there is no table, fails
      and puts the page, which is still mapped, on the free list. */
  method MapWithoutMemory() returns (r: int, table: EnvTable)
    ensures r == -E_NO_MEM && !Inv(table.mem.State()) && table.mem.free.elems != []
  {
    hide List.Valid, Inv, Consistent, FlatOf, MapShared, MapResult;
    ghost var p;
    table, p := OnePage();
    UseUp(table.mem);
    ghost var s := table.mem.State();
    OutOfMemory(s, p);
    r := table.MapOldPage(0, VA, 0, FAR, PERM);
  }

  lemma OutOfMemory(s: VM, p: nat)
    requires Inv(s) && FlatOf(G(s)) == map[VPage(0, VPN(VA)) := Entry(p, PERM)] && TableOf(0, FAR) !in G(s)
    requires s.books.free == [] && Mapper(s, 0, VA) && Mapper(s, 0, FAR)
    ensures At(s.mem, 0, VA) == Some(Entry(p, PERM)) && p < |s.books.count| && s.books.count[p] + 1 < REF_LIMIT
    ensures MapResult(s, 0, VA, 0, FAR, PERM) == -E_NO_MEM
    ensures var s' := MapShared(s, 0, VA, 0, FAR, PERM); !Inv(s') && s'.books.free != []
  {
    hide Inv, FlatOf, Target;
    FlatAt(s, 0, VA);
    OneReference(s, VPage(0, VPN(VA)), p);
    assert Target(s.mem, TableOf(0, FAR)) == None by { TableInGraphOr(s); }
    MapSharedAccounting(s, 0, VA, 0, FAR, PERM);
  }

  lemma TableInGraphOr(s: VM)
    requires TableOf(0, FAR) !in G(s)
    ensures Target(s.mem, TableOf(0, FAR)) == None
  {
  }

  lemma OneReference(s: VM, k: VPage, p: nat)
    requires Inv(s) && FlatOf(G(s)) == map[k := Entry(p, PERM)]
    ensures p < |s.books.count| && s.books.count[p] == 1
  {
    hide FlatOf, Sound, Distinct, Place, RefsTo;
    var g := G(s);
    assert k in FlatOf(g) && Place(k) in g && g[Place(k)] == Entry(p, PERM);
    NotShared(s.mem, k, p);
    OnlyRef(g, k, p);
  }

  lemma NotShared(m: Mem, k: VPage, p: nat)
    requires Sound(m) && Place(k) in GraphOf(m) && GraphOf(m)[Place(k)].ppn == p
    ensures IsData(GraphOf(m), p)
  {
    hide Shaped, InRange, Target;
  }

  lemma OnlyRef(g: Graph, k: VPage, p: nat)
    requires FlatOf(g) == map[k := Entry(p, PERM)] && IsData(g, p) && forall r :: r in g ==> IsCounted(r)
    ensures RefsTo(g, p) == {Place(k)}
  {
    hide FlatOf, Place, IsCounted;
    assert k in FlatOf(g);
    forall r | r in RefsTo(g, p) ensures r == Place(k) {
      PageIsUser(r);
      PlacePage(Page(r), r);
      assert Page(r) in FlatOf(g);
    }
  }
}
