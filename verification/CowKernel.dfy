/** The copy-on-write steps are what the kernel's page system calls do: the
    memory of CowFork is the flat view of the two-level tables of PageOps. */
module CowKernel {
  import opened Mmu
  import opened Queue
  import opened PageGraph
  import opened PageOps
  import opened PageSys
  import C = CowFork

  /** What CowFork sees of the kernel's memory. */
  ghost function Seen(s: VM, procs: C.Procs): C.Sys {
    C.Sys(FlatOf(G(s)), map p | 0 <= p < |s.mem.frames| :: s.mem.frames[p], procs)
  }

  /** Two views with the same mappings and the same content behind them. */
  ghost predicate Agree(a: C.Sys, b: C.Sys) {
    a.space == b.space && forall k :: k in a.space ==> C.Content(a, k) == C.Content(b, k)
  }

  /** Every mapped page is a data page in use. */
  lemma MappedInUse(s: VM, k: VPage)
    requires Inv(s) && k in FlatOf(G(s))
    ensures var p := FlatOf(G(s))[k].ppn; p < |s.mem.frames| && InUse(s, p)
  {
    var p := FlatOf(G(s))[k].ppn;
    assert Place(k) in RefsTo(G(s), p);
  }

  /** What a system call leaves of the mapped pages' content. */
  lemma ContentKept(s: VM, s': VM, but: set<nat>)
    requires Inv(s) && SameData(s, s', but)
    ensures |s'.mem.frames| == |s.mem.frames|
    ensures forall k :: k in FlatOf(G(s)) ==>
              var p := FlatOf(G(s))[k].ppn;
              p < |s.mem.frames| && (p !in but ==> s'.mem.frames[p] == s.mem.frames[p])
  {
    hide Inv, InUse;
    forall k | k in FlatOf(G(s))
      ensures var p := FlatOf(G(s))[k].ppn;
              p < |s.mem.frames| && (p !in but ==> s'.mem.frames[p] == s.mem.frames[p])
    {
      MappedInUse(s, k);
    }
  }

  lemma UnreferencedUnmapped(s: VM, p: nat)
    requires RefsTo(G(s), p) == {}
    ensures C.Unmapped(FlatOf(G(s)), p)
  {
    forall k | k in FlatOf(G(s)) ensures FlatOf(G(s))[k].ppn != p {
      assert Place(k) !in RefsTo(G(s), p);
    }
  }

  /** sys_page_alloc maps a cleared page that nothing was mapped to, and no other
      page looks different. */
  lemma MapNewAgrees(s: VM, procs: C.Procs, e: nat, v: nat)
    requires Inv(s) && Mapper(s, e, Va(v)) && !MapNewFails(s, e, Va(v))
    ensures var p := s.books.free[0];
            var s' := MapNew(s, e, Va(v), C.PERM_RW);
            && C.Unmapped(FlatOf(G(s)), p) && Inv(s') && s'.mem.dirs == s.mem.dirs
            && Agree(Seen(s', procs),
                     C.Sys(FlatOf(G(s))[VPage(e, v) := Entry(p, C.PERM_RW)], Seen(s, procs).data[p := Zeros()], procs))
  {
    hide Inv, MapNew, SameData, Target, FlatOf, VPN, Va;
    var p := s.books.free[0];
    PageOfVa(v);
    assert UserPerm(C.PERM_RW);
    MapNewCorrect(s, e, Va(v), C.PERM_RW);
    UnreferencedUnmapped(s, p);
    ContentKept(s, MapNew(s, e, Va(v), C.PERM_RW), {p});
  }

  /** sys_page_alloc at the temporary page is the first step of the fault handler. */
  lemma AllocIsFaultAlloc(s: VM, procs: C.Procs, e: nat, v: nat)
    requires Inv(s) && Mapper(s, e, Va(C.PFTEMP_VPN)) && !MapNewFails(s, e, Va(C.PFTEMP_VPN))
    requires C.Idle(procs, e)
    requires var k := VPage(e, v); C.InRange(k) && k in FlatOf(G(s)) && !Writable(FlatOf(G(s))[k].perm)
    ensures var p := s.books.free[0];
            var st := C.FaultAlloc(e, v, p);
            && C.Enabled(Seen(s, procs), st)
            && Agree(Seen(MapNew(s, e, Va(C.PFTEMP_VPN), C.PERM_RW), C.Do(Seen(s, procs), st).procs),
                     C.Do(Seen(s, procs), st))
  {
    hide Inv, MapNew, Target, FlatOf, Agree;
    var st := C.FaultAlloc(e, v, s.books.free[0]);
    MapNewAgrees(s, procs, e, C.PFTEMP_VPN);
    MapNewAgrees(s, C.Do(Seen(s, procs), st).procs, e, C.PFTEMP_VPN);
  }

  /** A mapped page has its table, so the test of pgfault refuses none. */
  lemma MappedNotRefused(s: VM, k: VPage)
    requires k in FlatOf(G(s))
    ensures Table(s.mem, k.env, k.vpn / NENTRIES).Some?
    ensures !C.Refuses(Table(s.mem, k.env, k.vpn / NENTRIES).Some?, Cow(FlatOf(G(s))[k].perm))
  {
    assert Target(s.mem, Place(k)).Some?;
  }

  /** Without a table there is no entry either, and the test refuses. */
  lemma TablelessRefused(s: VM, k: VPage)
    requires IsUserPage(k) && Table(s.mem, k.env, k.vpn / NENTRIES) == None
    ensures k !in FlatOf(G(s)) && C.Refuses(Table(s.mem, k.env, k.vpn / NENTRIES).Some?, Cow(0))
  {
    assert Target(s.mem, Place(k)) == None;
  }

  /** sys_page_map from the temporary page is the step that installs the copy. */
  lemma MapIsFaultMove(s: VM, procs: C.Procs, e: nat, v: nat)
    requires Inv(s) && Mapper(s, e, Va(C.PFTEMP_VPN)) && Mapper(s, e, Va(v))
    requires C.Enabled(Seen(s, procs), C.FaultMove(e)) && procs[e].fault.value.v == v
    requires MapResult(s, e, Va(C.PFTEMP_VPN), e, Va(v), C.PERM_RW) == 0
    requires forall p :: 0 <= p < |s.books.count| ==> s.books.count[p] + 1 < REF_LIMIT
    ensures Agree(Seen(MapShared(s, e, Va(C.PFTEMP_VPN), e, Va(v), C.PERM_RW),
                       C.Do(Seen(s, procs), C.FaultMove(e)).procs),
                  C.Do(Seen(s, procs), C.FaultMove(e)))
  {
    hide Inv, MapShared, MapResult, FlatOf, Mapper;
    MoveSpace(s, e, Va(C.PFTEMP_VPN), v);
    ContentKept(s, MapShared(s, e, Va(C.PFTEMP_VPN), e, Va(v), C.PERM_RW), {});
  }

  /** What sys_page_map within one environment does to the mappings. */
  lemma MoveSpace(s: VM, e: nat, from: nat, v: nat)
    requires Inv(s) && Mapper(s, e, from) && Mapper(s, e, Va(v))
    requires MapResult(s, e, from, e, Va(v), C.PERM_RW) == 0
    requires forall p :: 0 <= p < |s.books.count| ==> s.books.count[p] + 1 < REF_LIMIT
    ensures var s' := MapShared(s, e, from, e, Va(v), C.PERM_RW);
            var k := VPage(e, VPN(from));
            && k in FlatOf(G(s)) && SameData(s, s', {})
            && FlatOf(G(s')) == FlatOf(G(s))[VPage(e, v) := Entry(FlatOf(G(s))[k].ppn, C.PERM_RW)]
  {
    hide Inv, MapShared, IsData, SameData, At, FlatOf, Mapper, MapResult, CanInsert, Holds, UserPerm, VPN, Va;
    PageOfVa(v);
    MapSharedFound(s, e, from, Va(v));
    MapSharedCounts(s, e, from);
    MapSharedCorrect(s, e, from, e, Va(v), C.PERM_RW);
  }

  lemma PageOfVa(v: nat)
    ensures VPN(Va(v)) == v
  {
  }

  lemma MapSharedFound(s: VM, e: nat, from: nat, to: nat)
    requires MapResult(s, e, from, e, to, C.PERM_RW) == 0
    ensures At(s.mem, e, from).Some? && UserPerm(C.PERM_RW)
  {
    hide At;
  }

  lemma MapSharedCounts(s: VM, e: nat, va: nat)
    requires Inv(s) && Mapper(s, e, va) && At(s.mem, e, va).Some?
    ensures At(s.mem, e, va).value.ppn < |s.books.count|
  {
    UserVaOwned(e, va);
    InBounds(s, e, va);
  }

  /** sys_page_unmap of the temporary page is the last step of the handler. */
  lemma UnmapIsFaultDone(s: VM, procs: C.Procs, e: nat)
    requires Inv(s) && Mapper(s, e, Va(C.PFTEMP_VPN)) && C.Enabled(Seen(s, procs), C.FaultDone(e))
    ensures Agree(Seen(Remove(s, e, Va(C.PFTEMP_VPN)), C.Do(Seen(s, procs), C.FaultDone(e)).procs),
                  C.Do(Seen(s, procs), C.FaultDone(e)))
  {
    hide Inv, SameData, Remove, Target;
    RemoveIsDelete(s, e, Va(C.PFTEMP_VPN));
    RemoveKeepsData(s, e, Va(C.PFTEMP_VPN));
    ContentKept(s, Remove(s, e, Va(C.PFTEMP_VPN)), {});
  }

  lemma RemoveKeepsData(s: VM, e: nat, va: nat)
    requires Inv(s) && Mapper(s, e, va)
    ensures SameData(s, Remove(s, e, va), {})
  {
    UserVaOwned(e, va);
    if At(s.mem, e, va).Some? {
      StoreKeepsData(s, PlaceOf(e, va), 0);
    }
  }

  /** What duppage asks of the kernel: a copy-on-write mapping in the child and
      then in the parent, or a read-only one in the child. */
  function DupCalls(s: VM, e: nat, c: nat, v: nat, perm: nat): VM {
    if Cow(perm) || Writable(perm) then
      MapShared(MapShared(s, e, Va(v), c, Va(v), C.PERM_COW), e, Va(v), e, Va(v), C.PERM_COW)
    else MapShared(s, e, Va(v), c, Va(v), C.PERM_RO)
  }

  /** These calls are duppage: on the mappings, and without a change to any page. */
  lemma DupCallsAreDuppage(s: VM, procs: C.Procs, e: nat, c: nat, v: nat)
    requires Inv(s) && Mapper(s, e, Va(v)) && Mapper(s, c, Va(v)) && c != e
    requires VPage(e, v) in FlatOf(G(s)) && User(FlatOf(G(s))[VPage(e, v)].perm)
    requires !InsertFails(s, c, Va(v))
    requires forall p :: 0 <= p < |s.books.count| ==> s.books.count[p] + 1 < REF_LIMIT
    ensures var s' := DupCalls(s, e, c, v, FlatOf(G(s))[VPage(e, v)].perm);
            && Inv(s') && s'.mem.dirs == s.mem.dirs
            && Agree(Seen(s', procs), C.Sys(C.Duppage(FlatOf(G(s)), e, c, v), Seen(s, procs).data, procs))
  {
    hide Inv, MapShared, IsData, SameData, Target, FlatOf, Mapper, InsertFails, VPN, Va, At, C.Duppage;
    var perm := FlatOf(G(s))[VPage(e, v)].perm;
    if Cow(perm) || Writable(perm) {
      MapTwiceIsDuppage(s, e, c, v);
    } else {
      MapOnceIsDuppage(s, e, c, v);
    }
  }

  /** Every page that is mapped afterwards has its old content. */
  ghost predicate PagesKept(s: VM, s': VM) {
    |s'.mem.frames| == |s.mem.frames|
    && forall k :: k in FlatOf(G(s')) ==>
         FlatOf(G(s'))[k].ppn < |s.mem.frames|
           && s'.mem.frames[FlatOf(G(s'))[k].ppn] == s.mem.frames[FlatOf(G(s'))[k].ppn]
  }

  /** sys_page_map to the same address of another environment, or of one's own. */
  lemma MapAlias(s: VM, e: nat, c: nat, v: nat, perm: nat)
    requires Inv(s) && Mapper(s, e, Va(v)) && Mapper(s, c, Va(v)) && UserPerm(perm)
    requires VPage(e, v) in FlatOf(G(s)) && MapResult(s, e, Va(v), c, Va(v), perm) == 0
    requires FlatOf(G(s))[VPage(e, v)].ppn < |s.books.count|
    requires Holds(s, c, FlatOf(G(s))[VPage(e, v)].ppn, Va(v))
             || s.books.count[FlatOf(G(s))[VPage(e, v)].ppn] + 1 < REF_LIMIT
    ensures var s' := MapShared(s, e, Va(v), c, Va(v), perm);
            && Inv(s') && s'.mem.dirs == s.mem.dirs && PagesKept(s, s')
            && FlatOf(G(s')) == FlatOf(G(s))[VPage(c, v) := Entry(FlatOf(G(s))[VPage(e, v)].ppn, perm)]
  {
    hide Inv, MapShared, MapResult, IsData, SameData, Target, FlatOf, VPN, Va, At, InsertFails;
    FlatPage(s, e, v);
    MapSharedCorrect(s, e, Va(v), c, Va(v), perm);
    PageOfVa(v);
    ContentKept(s, MapShared(s, e, Va(v), c, Va(v), perm), {});
  }

  /** What sys_page_map finds at a mapped page. */
  lemma FlatPage(s: VM, e: nat, v: nat)
    requires Inv(s) && Mapper(s, e, Va(v)) && VPage(e, v) in FlatOf(G(s))
    ensures At(s.mem, e, Va(v)) == Some(FlatOf(G(s))[VPage(e, v)]) && FlatOf(G(s))[VPage(e, v)].ppn < |s.books.count|
  {
    hide Inv, Target, FlatOf, VPN, Va;
    PageOfVa(v);
    FlatAt(s, e, Va(v));
    MapSharedCounts(s, e, Va(v));
  }

  /** Copy-on-write: two calls of sys_page_map. */
  lemma MapTwiceIsDuppage(s: VM, e: nat, c: nat, v: nat)
    requires Inv(s) && Mapper(s, e, Va(v)) && Mapper(s, c, Va(v)) && c != e
    requires var k := VPage(e, v); k in FlatOf(G(s)) && User(FlatOf(G(s))[k].perm)
                                   && (Cow(FlatOf(G(s))[k].perm) || Writable(FlatOf(G(s))[k].perm))
    requires !InsertFails(s, c, Va(v))
    requires forall p :: 0 <= p < |s.books.count| ==> s.books.count[p] + 1 < REF_LIMIT
    ensures var s1 := MapShared(s, e, Va(v), c, Va(v), C.PERM_COW);
            var s2 := MapShared(s1, e, Va(v), e, Va(v), C.PERM_COW);
            && MapResult(s, e, Va(v), c, Va(v), C.PERM_COW) == 0
            && Inv(s1) && MapResult(s1, e, Va(v), e, Va(v), C.PERM_COW) == 0
            && Inv(s2) && s2.mem.dirs == s.mem.dirs
            && FlatOf(G(s2)) == C.Duppage(FlatOf(G(s)), e, c, v) && PagesKept(s, s2)
  {
    hide Inv, MapShared, IsData, SameData, Target, FlatOf, VPN, Va, At, PagesKept, InsertFails, Holds;
    FlatPage(s, e, v);
    assert UserPerm(C.PERM_COW);
    MapAlias(s, e, c, v, C.PERM_COW);
    var s1 := MapShared(s, e, Va(v), c, Va(v), C.PERM_COW);
    FlatPage(s1, e, v);
    RemapOk(s1, e, Va(v));
    MapAlias(s1, e, e, v, C.PERM_COW);
    PagesKeptTwice(s, s1, MapShared(s1, e, Va(v), e, Va(v), C.PERM_COW), VPage(e, v), C.PERM_COW);
  }

  lemma PagesKeptTwice(s: VM, s1: VM, s2: VM, j: VPage, perm: nat)
    requires PagesKept(s, s1) && PagesKept(s1, s2) && j in FlatOf(G(s1))
    requires FlatOf(G(s2)) == FlatOf(G(s1))[j := Entry(FlatOf(G(s1))[j].ppn, perm)]
    ensures PagesKept(s, s2)
  {
    hide FlatOf;
    forall x | x in FlatOf(G(s2))
      ensures FlatOf(G(s2))[x].ppn < |s.mem.frames|
              && s2.mem.frames[FlatOf(G(s2))[x].ppn] == s.mem.frames[FlatOf(G(s2))[x].ppn]
    {
      assert x in FlatOf(G(s1)) && FlatOf(G(s1))[x].ppn == FlatOf(G(s2))[x].ppn;
    }
  }

  /** Neither writable nor copy-on-write: one call. */
  lemma MapOnceIsDuppage(s: VM, e: nat, c: nat, v: nat)
    requires Inv(s) && Mapper(s, e, Va(v)) && Mapper(s, c, Va(v)) && c != e
    requires var k := VPage(e, v); k in FlatOf(G(s)) && User(FlatOf(G(s))[k].perm)
                                   && !Cow(FlatOf(G(s))[k].perm) && !Writable(FlatOf(G(s))[k].perm)
    requires !InsertFails(s, c, Va(v))
    requires forall p :: 0 <= p < |s.books.count| ==> s.books.count[p] + 1 < REF_LIMIT
    ensures var s1 := MapShared(s, e, Va(v), c, Va(v), C.PERM_RO);
            && MapResult(s, e, Va(v), c, Va(v), C.PERM_RO) == 0
            && Inv(s1) && s1.mem.dirs == s.mem.dirs
            && FlatOf(G(s1)) == C.Duppage(FlatOf(G(s)), e, c, v) && PagesKept(s, s1)
  {
    hide Inv, MapShared, IsData, SameData, Target, FlatOf, VPN, Va, At, PagesKept, InsertFails, Holds;
    FlatPage(s, e, v);
    assert UserPerm(C.PERM_RO);
    MapAlias(s, e, c, v, C.PERM_RO);
  }

  /** Re-mapping a page onto itself never needs a table. */
  lemma RemapOk(s: VM, e: nat, va: nat)
    requires Inv(s) && Mapper(s, e, va) && At(s.mem, e, va).Some?
    ensures MapResult(s, e, va, e, va, C.PERM_COW) == 0 && Holds(s, e, At(s.mem, e, va).value.ppn, va)
  {
    hide Sound, Balanced, IsData;
    UserVaOwned(e, va);
    InBounds(s, e, va);
  }
}
