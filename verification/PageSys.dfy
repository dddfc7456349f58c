/** The page system calls (kern/syscall.c) as functions on memory and books. */
module PageSys {
  import opened Mmu
  import opened Queue
  import opened PageGraph
  import opened EnvIds
  import opened PageOps
  import opened Errors

  /** `va < UTOP` and page-aligned. */
  predicate UserVa(va: nat) { va < UTOP && va % PGSIZE == 0 }

  lemma UserVaOwned(e: nat, va: nat)
    requires va < UTOP && e < NENV
    ensures va < ADDRESSES && OwnsPdx(e, PDX(va))
  {
  }

  /** memset(page2kva(pp), 0, PGSIZE). */
  function Clear(s: VM, p: nat): VM {
    if p < |s.mem.frames| then s.(mem := s.mem.(frames := s.mem.frames[p := Zeros()])) else s
  }

  /** sys_page_alloc past the argument checks.  When page_insert fails the page
      goes back to where it came from. */
  function MapNew(s: VM, e: nat, va: nat, perm: nat): VM {
    if s.books.free == [] || InsertFails(Take(s), e, va) then s
    else Clear(Insert(Take(s), e, s.books.free[0], va, perm), s.books.free[0])
  }

  predicate MapNewFails(s: VM, e: nat, va: nat) {
    s.books.free == [] || InsertFails(Take(s), e, va)
  }

  /** Frames that hold somebody's data keep their content. */
  ghost predicate SameData(s: VM, s': VM, but: set<nat>) {
    |s'.mem.frames| == |s.mem.frames|
    && forall p :: 0 <= p < |s.mem.frames| && p !in but && InUse(s, p) ==> s'.mem.frames[p] == s.mem.frames[p]
  }

  /** A data page: mapped somewhere, or taken for that purpose. */
  ghost predicate InUse(s: VM, p: nat) {
    p !in s.books.free && IsData(G(s), p)
  }

  lemma StoreKeepsData(s: VM, r: Ref, w: nat)
    requires Inv(s) && r.PageRef? && OwnsPdx(r.root, r.pdx) && Table(s.mem, r.root, r.pdx).Some?
    ensures SameData(s, s.(mem := Store(s.mem, TableFrame(s.mem, r), r.ptx, w)), {})
  {
    TableInGraph(s.mem, r.root, r.pdx);
  }

  lemma AddTableKeepsData(s: VM, root: nat, d: nat)
    requires Inv(s) && OwnsPdx(root, d) && s.mem.dirs[root].Some?
    ensures SameData(s, AddTable(s, root, d), {})
  {
    assert DirRef(root) in G(s);
    if s.books.free != [] {
      assert s.books.free[0] in s.books.free;
    }
  }

  lemma OverwriteKeepsData(s: VM, root: nat, pp: nat, va: nat, perm: nat)
    requires Inv(s) && Rooted(s.mem, root, va) && root < NENV && perm < PGSIZE
    requires TableOf(root, va) in G(s) && CanInsert(s, root, pp, va)
    ensures SameData(s, Overwrite(s, root, pp, va, perm), {})
  {
    var place := PlaceOf(root, va);
    OverwriteFrames(s, root, pp, va, perm);
    TableInGraph(s.mem, root, PDX(va));
  }

  lemma OverwriteFrames(s: VM, root: nat, pp: nat, va: nat, perm: nat)
    requires Inv(s) && Rooted(s.mem, root, va) && root < NENV && TableOf(root, va) in G(s)
    ensures var s' := Overwrite(s, root, pp, va, perm);
            |s'.mem.frames| == |s.mem.frames|
            && forall p :: 0 <= p < |s.mem.frames| && p != TableFrame(s.mem, PlaceOf(root, va)) ==>
                 s'.mem.frames[p] == s.mem.frames[p]
  {
    hide Sound, Balanced, SameBut, Inv;
    RemoveKeepsTable(s, root, va);
  }

  lemma InsertKeepsData(s: VM, root: nat, pp: nat, va: nat, perm: nat)
    requires Inv(s) && Rooted(s.mem, root, va) && root < NENV && perm < PGSIZE
    requires CanInsert(s, root, pp, va)
    ensures SameData(s, Insert(s, root, pp, va, perm), {})
  {
    hide Sound, Balanced, SameBut, Overwrite, Walk, SameData;
    if InsertFails(s, root, va) {
      SameDataRefl(s);
    } else {
      WalkCorrect(s, root, va);
      WalkKeepsInsertable(s, root, pp, va);
      var s1 := Walk(s, root, va);
      WalkKeepsData(s, root, va);
      OverwriteKeepsData(s1, root, pp, va, perm);
      SameDataChain(s, s1, Insert(s, root, pp, va, perm));
    }
  }

  lemma SameDataRefl(s: VM)
    ensures SameData(s, s, {})
  {
  }

  lemma WalkKeepsData(s: VM, root: nat, va: nat)
    requires Inv(s) && Rooted(s.mem, root, va)
    ensures SameData(s, Walk(s, root, va), {})
    ensures forall p :: InUse(s, p) ==> InUse(Walk(s, root, va), p)
  {
    AddTableKeepsData(s, root, PDX(va));
    WalkCorrect(s, root, va);
    if Walk(s, root, va) != s {
      AddTableCorrect(s, root, PDX(va));
      assert s.books.free[0] in s.books.free;
    }
  }

  lemma SameDataChain(s: VM, s1: VM, s2: VM)
    requires SameData(s, s1, {}) && SameData(s1, s2, {})
    requires forall p :: InUse(s, p) ==> InUse(s1, p)
    ensures SameData(s, s2, {})
  {
  }

  /** sys_page_alloc maps a cleared page that nobody else refers to, and fails
      without a trace. */
  lemma MapNewCorrect(s: VM, e: nat, va: nat, perm: nat)
    requires Inv(s) && e < NENV && |s.mem.dirs| == NENV + 1 && s.mem.dirs[e].Some? && va < UTOP && UserPerm(perm)
    ensures var s' := MapNew(s, e, va, perm);
            Inv(s') && s'.mem.dirs == s.mem.dirs
            && if MapNewFails(s, e, va) then s' == s
               else
                 var p := s.books.free[0];
                 && RefsTo(G(s), p) == {} && p < |s'.mem.frames| && s'.mem.frames[p] == Zeros()
                 && FlatOf(G(s')) == FlatOf(G(s))[VPage(e, VPN(va)) := Entry(p, perm)]
                 && SameData(s, s', {p})
                 && s'.books.flight == s.books.flight && s'.books.reserved == s.books.reserved
  {
    hide Sound, Balanced, SameBut, Insert, SameData, Inv;
    if !MapNewFails(s, e, va) {
      var p := s.books.free[0];
      MapNewInsert(s, e, va, perm);
      var s2 := Insert(Take(s), e, p, va, perm);
      ClearCorrect(s2, p);
      MapNewData(s, s2, p);
    }
  }

  lemma MapNewInsert(s: VM, e: nat, va: nat, perm: nat)
    requires Inv(s) && e < NENV && |s.mem.dirs| == NENV + 1 && s.mem.dirs[e].Some? && va < UTOP && UserPerm(perm)
    requires !MapNewFails(s, e, va)
    ensures var p := s.books.free[0];
            var s2 := Insert(Take(s), e, p, va, perm);
            && RefsTo(G(s), p) == {} && Inv(s2) && IsData(G(s2), p) && p < |s2.mem.frames|
            && FlatOf(G(s2)) == FlatOf(G(s))[VPage(e, VPN(va)) := Entry(p, perm)]
            && SameData(Take(s), s2, {}) && s2.mem.dirs == s.mem.dirs
            && s2.books.flight == s.books.flight && s2.books.reserved == s.books.reserved
  {
    hide Sound, Balanced, SameBut, Insert, SameData, Inv;
    UserVaOwned(e, va);
    var p := s.books.free[0];
    TakeCorrect(s);
    NothingRefers(s, p);
    InsertIsUpdate(Take(s), e, p, va, perm);
    InsertKeepsData(Take(s), e, p, va, perm);
    InsertedIsData(Take(s), e, p, va, perm);
    assert Take(s).books.flight - {p} == s.books.flight;
  }

  lemma MapNewKeepsInv(s: VM, e: nat, va: nat, perm: nat)
    requires Inv(s) && Mapper(s, e, va) && UserPerm(perm)
    ensures Inv(MapNew(s, e, va, perm)) && perm < PGSIZE && MapNew(s, e, va, perm).mem.dirs == s.mem.dirs
  {
    MapNewCorrect(s, e, va, perm);
  }

  /** The page just taken can be inserted. */
  lemma MapNewCan(s: VM, e: nat, va: nat)
    requires Inv(s) && Mapper(s, e, va) && s.books.free != []
    ensures Rooted(s.mem, e, va) && CanInsert(Take(s), e, s.books.free[0], va)
    ensures Take(s).books.flight - {s.books.free[0]} == s.books.flight
    ensures InsertFails(Take(s), e, va) ==> s.books.free == [s.books.free[0]]
  {
    UserVaOwned(e, va);
    TakeCorrect(s);
    NothingRefers(s, s.books.free[0]);
  }

  lemma MapNewLookup(s: VM, e: nat, va: nat, perm: nat)
    requires Inv(s) && Mapper(s, e, va) && UserPerm(perm) && !MapNewFails(s, e, va)
    ensures var s2 := Insert(Take(s), e, s.books.free[0], va, perm);
            && Rooted(s2.mem, e, va) && At(s2.mem, e, va) == Some(Entry(s.books.free[0], perm))
            && s.books.free[0] < |s2.mem.frames|
  {
    hide Sound, Balanced, SameBut, Insert, SameData, Inv;
    MapNewInsert(s, e, va, perm);
    UserVaOwned(e, va);
    FlatAt(Insert(Take(s), e, s.books.free[0], va, perm), e, va);
  }

  lemma NothingRefers(s: VM, p: nat)
    requires RefsTo(G(s), p) == {}
    ensures IsData(G(s), p)
  {
    forall r | r in G(s) ensures G(s)[r].ppn != p {
      assert r !in RefsTo(G(s), p);
    }
  }

  lemma InsertedIsData(s: VM, e: nat, p: nat, va: nat, perm: nat)
    requires Inv(s) && Rooted(s.mem, e, va) && e < NENV && perm < PGSIZE && CanInsert(s, e, p, va)
    requires !InsertFails(s, e, va)
    ensures var s' := Insert(s, e, p, va, perm);
            IsData(G(s'), p) && p < |s'.mem.frames|
  {
    hide Sound, Balanced, SameBut, Insert, SameData;
    InsertIsUpdate(s, e, p, va, perm);
    FreshTableDiffers(s, p);
  }

  lemma FreshTableDiffers(s: VM, p: nat)
    requires Inv(s) && Insertable(s, p)
    ensures s.books.free != [] ==> s.books.free[0] != p
    ensures p < |s.mem.frames|
  {
    if s.books.free != [] {
      assert s.books.free[0] in s.books.free;
    }
  }

  lemma ClearCorrect(s: VM, p: nat)
    requires Inv(s) && IsData(G(s), p) && p < |s.mem.frames|
    ensures var s' := Clear(s, p);
            && Inv(s') && G(s') == G(s) && s'.mem.frames == s.mem.frames[p := Zeros()]
            && s'.mem.dirs == s.mem.dirs && s'.books == s.books
  {
    StoreFrame(s.mem, p, Zeros());
  }

  lemma MapNewData(s: VM, s2: VM, p: nat)
    requires SameData(Take(s), s2, {}) && s.books.free != [] && p == s.books.free[0]
    ensures SameData(s, Clear(s2, p), {p})
  {
    assert forall q :: InUse(s, q) ==> InUse(Take(s), q);
  }

  // ---- sys_page_map ----

  /** The answer of sys_page_map past the argument checks. */
  function MapResult(s: VM, src: nat, srcva: nat, dst: nat, dstva: nat, perm: nat): int {
    var e := At(s.mem, src, srcva);
    if e == None || (Writable(perm) && !Writable(e.value.perm)) then -E_INVAL
    else if InsertFails(s, dst, dstva) then -E_NO_MEM
    else 0
  }

  /** Its effect.  After a failed page_insert the source frees the page, which
      is still mapped at the source address. */
  function MapShared(s: VM, src: nat, srcva: nat, dst: nat, dstva: nat, perm: nat): VM {
    var r := MapResult(s, src, srcva, dst, dstva, perm);
    if r == 0 then Insert(s, dst, At(s.mem, src, srcva).value.ppn, dstva, perm)
    else if r == -E_NO_MEM then s.(books := s.books.(free := [At(s.mem, src, srcva).value.ppn] + s.books.free))
    else s
  }

  /** When sys_page_alloc fails: no page is free, or only one and it is needed for
      the table. */
  lemma MapNewAnswer(s: VM, e: nat, va: nat)
    requires Inv(s) && Mapper(s, e, va)
    ensures MapNewFails(s, e, va) <==> s.books.free == [] || (TableRef(e, PDX(va)) !in G(s) && |s.books.free| == 1)
  {
    UserVaOwned(e, va);
    TakeCorrect(s);
  }

  /** What sys_page_map answers, on the flat address spaces: the source page must be
      mapped, and for writing if the target is to be. */
  lemma MapAnswer(s: VM, src: nat, srcva: nat, dst: nat, dstva: nat, perm: nat)
    requires Inv(s) && Mapper(s, src, srcva) && Mapper(s, dst, dstva)
    ensures var flat, k := FlatOf(G(s)), VPage(src, VPN(srcva));
            MapResult(s, src, srcva, dst, dstva, perm) ==
            if k !in flat || (Writable(perm) && !Writable(flat[k].perm)) then -E_INVAL
            else if TableRef(dst, PDX(dstva)) !in G(s) && s.books.free == [] then -E_NO_MEM
            else 0
  {
    hide Inv, FlatOf, VPN;
    FlatAt(s, src, srcva);
    TableSeen(s, dst, dstva);
  }

  lemma TableSeen(s: VM, e: nat, va: nat)
    requires e < NENV && va < UTOP
    ensures Target(s.mem, TableOf(e, va)).Some? <==> TableRef(e, PDX(va)) in G(s)
  {
    UserVaOwned(e, va);
  }

  /** What a successful sys_page_map does, on the flat address spaces. */
  lemma MapMeaning(s: VM, src: nat, srcva: nat, dst: nat, dstva: nat, perm: nat)
    requires Inv(s) && Mapper(s, src, srcva) && Mapper(s, dst, dstva) && UserPerm(perm)
    requires forall p :: 0 <= p < |s.books.count| ==> s.books.count[p] + 1 < REF_LIMIT
    ensures MapResult(s, src, srcva, dst, dstva, perm) == 0 ==>
              var s' := MapShared(s, src, srcva, dst, dstva, perm);
              var flat, k := FlatOf(G(s)), VPage(src, VPN(srcva));
              && k in flat && SameData(s, s', {})
              && FlatOf(G(s')) == flat[VPage(dst, VPN(dstva)) := Entry(flat[k].ppn, perm)]
    ensures MapResult(s, src, srcva, dst, dstva, perm) == -E_INVAL ==>
              MapShared(s, src, srcva, dst, dstva, perm) == s
  {
    if MapResult(s, src, srcva, dst, dstva, perm) == 0 {
      SourceInBounds(s, src, srcva);
      hide Inv, FlatOf, MapResult, MapShared, SameData;
      MapSharedCorrect(s, src, srcva, dst, dstva, perm);
    }
  }

  lemma SourceInBounds(s: VM, src: nat, srcva: nat)
    requires Inv(s) && Mapper(s, src, srcva) && At(s.mem, src, srcva).Some?
    ensures At(s.mem, src, srcva).value.ppn < |s.books.count|
  {
    UserVaOwned(src, srcva);
    InBounds(s, src, srcva);
  }

  predicate Mapper(s: VM, e: nat, va: nat) {
    e < NENV && |s.mem.dirs| == NENV + 1 && s.mem.dirs[e].Some? && va < UTOP
  }

  /** A successful sys_page_map makes the target page an alias of the source
      page, with the permissions asked for, and touches no data. */
  lemma MapSharedCorrect(s: VM, src: nat, srcva: nat, dst: nat, dstva: nat, perm: nat)
    requires Inv(s) && Mapper(s, src, srcva) && Mapper(s, dst, dstva) && UserPerm(perm)
    requires MapResult(s, src, srcva, dst, dstva, perm) == 0
    requires Holds(s, dst, At(s.mem, src, srcva).value.ppn, dstva)
             || s.books.count[At(s.mem, src, srcva).value.ppn] + 1 < REF_LIMIT
    ensures CanInsert(s, dst, At(s.mem, src, srcva).value.ppn, dstva)
    ensures var s' := MapShared(s, src, srcva, dst, dstva, perm);
            var p := At(s.mem, src, srcva).value.ppn;
            && Inv(s') && s'.mem.dirs == s.mem.dirs && SameData(s, s', {})
            && FlatOf(G(s)).Keys >= {VPage(src, VPN(srcva))} && FlatOf(G(s))[VPage(src, VPN(srcva))].ppn == p
            && FlatOf(G(s')) == FlatOf(G(s))[VPage(dst, VPN(dstva)) := Entry(p, perm)]
            && s'.books.flight == s.books.flight && s'.books.reserved == s.books.reserved
  {
    hide Sound, Balanced, SameBut, Insert, SameData, Inv;
    var p := At(s.mem, src, srcva).value.ppn;
    UserVaOwned(src, srcva);
    UserVaOwned(dst, dstva);
    InBounds(s, src, srcva);
    InsertIsUpdate(s, dst, p, dstva, perm);
    InsertKeepsData(s, dst, p, dstva, perm);
    FlatAt(s, src, srcva);
    assert s.books.flight - {p} == s.books.flight;
  }

  /** The flat map at a virtual page is what the walk finds there. */
  lemma FlatAt(s: VM, e: nat, va: nat)
    requires e < NENV && va < UTOP
    ensures VPage(e, VPN(va)) in FlatOf(G(s)) <==> At(s.mem, e, va).Some?
    ensures At(s.mem, e, va).Some? ==> FlatOf(G(s))[VPage(e, VPN(va))] == At(s.mem, e, va).value
  {
    AddressSplit(va);
    UserVaOwned(e, va);
    PlacePage(VPage(e, VPN(va)), PlaceOf(e, va));
  }

  /** Page accounting survives sys_page_map exactly when it does not run out of
      memory, that is, when the request is refused, the target has a page table,
      or a page is free.  Otherwise a page that is still mapped ends up on the
      free list. */
  lemma MapSharedAccounting(s: VM, src: nat, srcva: nat, dst: nat, dstva: nat, perm: nat)
    requires Inv(s) && Mapper(s, src, srcva) && Mapper(s, dst, dstva) && UserPerm(perm)
    requires At(s.mem, src, srcva).Some? ==>
               Holds(s, dst, At(s.mem, src, srcva).value.ppn, dstva)
               || s.books.count[At(s.mem, src, srcva).value.ppn] + 1 < REF_LIMIT
    ensures Inv(MapShared(s, src, srcva, dst, dstva, perm)) <==>
            (At(s.mem, src, srcva) == None || (Writable(perm) && !Writable(At(s.mem, src, srcva).value.perm))
             || Target(s.mem, TableOf(dst, dstva)).Some? || s.books.free != [])
  {
    var r := MapResult(s, src, srcva, dst, dstva, perm);
    if r == 0 {
      MapSharedCorrect(s, src, srcva, dst, dstva, perm);
    } else if r == -E_NO_MEM {
      StillMapped(s, src, srcva);
      var p := At(s.mem, src, srcva).value.ppn;
      var s' := MapShared(s, src, srcva, dst, dstva, perm);
      assert p in s'.books.free && RefsTo(G(s'), p) != {};
    }
  }

  lemma StillMapped(s: VM, e: nat, va: nat)
    requires Inv(s) && Mapper(s, e, va) && At(s.mem, e, va).Some?
    ensures RefsTo(G(s), At(s.mem, e, va).value.ppn) != {}
  {
    UserVaOwned(e, va);
    assert PlaceOf(e, va) in RefsTo(G(s), At(s.mem, e, va).value.ppn);
  }
}
