/** The page allocator, page tables and environments as the kernel updates them
    in place (kern/pmap.c, kern/env.c, the page system calls of kern/syscall.c). */
module Kern {
  import opened Mmu
  import opened Queue
  import opened PageGraph
  import opened EnvIds
  import opened PageOps
  import opened Teardown
  import opened Errors

  const IOPAGE: nat := 160   // PPN(IOPHYSMEM)

  /** Page 0, and everything from the I/O hole up to the end of the kernel. */
  predicate IsReserved(i: nat, upper: nat) { i == 0 || IOPAGE <= i < upper }

  /** The address of a word in physical memory. */
  datatype Slot = Slot(frame: nat, index: nat)

  class Kernel {
    var frames: seq<Frame>        // physical memory, by page number
    var dirs: seq<Option<nat>>    // env_pgdir of every environment, then boot_pgdir
    var ppref: seq<nat>           // pp_ref of pages[]
    const free: List              // page_free_list
    ghost var reserved: set<nat>
    ghost var flight: set<nat>

    function Memory(): Mem
      reads this
    {
      Mem(frames, dirs)
    }

    ghost function State(): VM
      reads this, free
    {
      VM(Memory(), Books(ppref, free.elems, reserved, flight))
    }

    ghost predicate Valid()
      reads this, free
    {
      free.Valid() && |free.next| == |ppref| && Inv(State())
    }

    // ---- Allocator ----

    /** page_init, after the boot-time allocator has laid out the kernel below
        page `upper`; `boot` is the page directory it made. */
    constructor (n: nat, upper: nat, boot: nat, memory: seq<Frame>)
      requires |memory| == n && upper <= n
      requires forall f :: 0 <= f < n ==> |memory[f]| == NENTRIES
      requires IOPAGE <= boot < upper
      requires forall d: nat :: OwnsPdx(BOOT, d) ==> memory[boot][d] == 0
      ensures Valid() && frames == memory && |ppref| == n && flight == {}
      ensures dirs == seq(NENV, _ => None) + [Some(boot)] && fresh(free)
      ensures reserved == set i | 0 <= i < n && IsReserved(i, upper)
      ensures forall p: nat :: p in free.elems <==> p < n && !IsReserved(p, upper)
      ensures forall p: nat :: p in free.elems <==> 0 < p < n && (p * PGSIZE < 0xa_0000 || upper <= p)
      ensures G(State()) == map[DirRef(BOOT) := Entry(boot, 0)]
    {
      hide List.Valid, Sound, Balanced;
      frames := memory;
      dirs := seq(NENV, _ => None) + [Some(boot)];
      ppref := seq(n, _ => 0);
      free := new List(n);
      reserved := set i | 0 <= i < n && IsReserved(i, upper);
      flight := {};
      new;
      BootGraph(Memory(), boot);
      for i := 0 to n
        invariant |ppref| == n && free.Valid() && |free.next| == n && fresh(free)
        invariant frames == memory && flight == {}
        invariant dirs == seq(NENV, _ => None) + [Some(boot)]
        invariant reserved == set j | 0 <= j < n && IsReserved(j, upper)
        invariant forall p: nat :: p in free.elems <==> p < i && !IsReserved(p, upper)
        invariant forall p :: 0 <= p < i ==> ppref[p] == if IsReserved(p, upper) then 1 else 0
      {
        ppref := ppref[i := 1];
        if i == 0 || (IOPAGE <= i && i < upper) {
          continue;
        }
        ppref := ppref[i := 0];
        free.InsertHead(i);
      }
      free.Head();
      BootBalance(G(State()), State().books, boot);
    }

    /** page_alloc. */
    method PageAlloc() returns (r: int, p: nat)
      requires Valid()
      modifies `flight, free
      ensures Valid()
      ensures old(free.elems) != [] ==> r == 0 && p == old(free.elems)[0] && State() == Take(old(State()))
      ensures old(free.elems) == [] ==> r == -E_NO_MEM && State() == old(State())
    {
      p := 0;
      r := -E_NO_MEM;
      if free.first.Some? {
        TakeCorrect(State());
        hide Sound, Balanced;
        ghost var s := State();
        p := free.first.value;
        free.Remove(p, 0);
        flight := flight + {p};
        r := 0;
        assert State() == Take(s);
      }
    }

    /** page_free; the source does not look at the counter. */
    method PageFree(p: nat)
      requires free.Valid() && p < |free.next| && p !in free.elems
      modifies free
      ensures free.Valid() && free.elems == [p] + old(free.elems) && |free.next| == old(|free.next|)
    {
      free.InsertHead(p);
    }

    /** page_decref. */
    method PageDecref(p: nat)
      requires free.Valid() && |free.next| == |ppref|
      requires p < |ppref| && ppref[p] > 0 && p !in free.elems
      modifies `ppref, free
      ensures free.Valid() && |free.next| == |ppref| == old(|ppref|)
      ensures State().books == Decref(old(State()).books, p)
    {
      ppref := ppref[p := ppref[p] - 1];
      if ppref[p] == 0 {
        PageFree(p);
      }
    }

    // ---- Page tables ----

    /** pgdir_walk: the frame and index of the table entry for `va`. */
    method PgdirWalk(root: nat, va: nat, create: bool) returns (pte: Option<Slot>)
      requires Valid() && Rooted(Memory(), root, va)
      modifies `frames, `ppref, `flight, free
      ensures Valid()
      ensures State() == if create then Walk(old(State()), root, va) else old(State())
      ensures pte == if Target(Memory(), TableOf(root, va)).Some?
                     then Some(Slot(TableFrame(Memory(), PlaceOf(root, va)), PTX(va))) else None
      ensures pte.Some? ==> pte.value.frame < |frames| && |frames[pte.value.frame]| == NENTRIES
    {
      hide Sound, Balanced, SameBut, Inv, List.Valid;
      ghost var s := State();
      InBounds(s, root, va);
      WalkCorrect(s, root, va);
      var pd := dirs[root].value;
      var pde := frames[pd][PDX(va)];
      if Present(pde) {
        return Some(Slot(Decode(pde).ppn, PTX(va)));
      }
      if create {
        var r, p := PageAlloc();
        if r == 0 {
          HookBounds(s, root, va);
          ppref := ppref[p := 1];
          flight := flight - {p};
          frames := frames[p := Zeros()];
          SetWord(Slot(pd, PDX(va)), MakePte(p, PTE_U + PTE_W + PTE_P));
          assert State() == Walk(s, root, va);
          InBounds(State(), root, va);
          return Some(Slot(p, PTX(va)));
        }
      }
      pte := None;
    }

    /** page_lookup: the page mapped at `va`, and the slot of its table entry. */
    method PageLookup(root: nat, va: nat) returns (p: Option<nat>, pte: Option<Slot>)
      requires Valid() && Rooted(Memory(), root, va)
      ensures p == if At(Memory(), root, va).Some? then Some(At(Memory(), root, va).value.ppn) else None
      ensures pte == if Target(Memory(), TableOf(root, va)).Some?
                     then Some(Slot(TableFrame(Memory(), PlaceOf(root, va)), PTX(va))) else None
      ensures pte.Some? ==> pte.value.frame < |frames| && |frames[pte.value.frame]| == NENTRIES
                            && EntryOf(frames[pte.value.frame][pte.value.index]) == At(Memory(), root, va)
    {
      hide Sound, Balanced;
      InBounds(State(), root, va);
      var pde := frames[dirs[root].value][PDX(va)];
      if !Present(pde) {
        return None, None;
      }
      pte := Some(Slot(Decode(pde).ppn, PTX(va)));
      var w := frames[pte.value.frame][pte.value.index];
      p := if Present(w) then Some(Decode(w).ppn) else None;
    }

    /** A store through a table pointer. */
    method SetWord(pte: Slot, w: nat)
      requires pte.frame < |frames| && pte.index < |frames[pte.frame]|
      modifies `frames
      ensures Memory() == Store(old(Memory()), pte.frame, pte.index, w)
    {
      var frame: Frame := frames[pte.frame][pte.index := w];
      frames := frames[pte.frame := frame];
    }

    /** page_remove.  The source tests the slot, not the page: when the table
        exists and the entry is not present it goes through a null page
        pointer, which is reported here as `fault`. */
    method PageRemove(root: nat, va: nat) returns (fault: bool)
      requires Valid() && Rooted(Memory(), root, va) && root < NENV
      modifies `frames, `ppref, free
      ensures Valid()
      ensures State() == Remove(old(State()), root, va)
      ensures fault <==> old(Target(Memory(), TableOf(root, va))).Some? && old(At(Memory(), root, va)) == None
    {
      hide Sound, Balanced, SameBut, Inv;
      ghost var s := State();
      InBounds(s, root, va);
      RemoveKeepsInv(s, root, va);
      var p, pte := PageLookup(root, va);
      if pte.Some? {
        if p == None {
          return true;
        }
        PageDecref(p.value);
        SetWord(pte.value, 0);
      }
      fault := false;
    }

    /** page_insert. */
    method PageInsert(root: nat, pp: nat, va: nat, perm: nat) returns (r: int)
      requires Valid() && Rooted(Memory(), root, va) && root < NENV && perm < PGSIZE
      requires CanInsert(State(), root, pp, va)
      modifies `frames, `ppref, `flight, free
      ensures Valid()
      ensures r == if InsertFails(old(State()), root, va) then -E_NO_MEM else 0
      ensures State() == Insert(old(State()), root, pp, va, perm)
      ensures r < 0 ==> State() == old(State())
    {
      hide Sound, Balanced, SameBut, Inv;
      ghost var s := State();
      InsertIsUpdate(s, root, pp, va, perm);
      WalkCorrect(s, root, va);
      WalkKeepsInsertable(s, root, pp, va);
      var pte := PgdirWalk(root, va, true);
      if pte == None {
        return -E_NO_MEM;
      }
      InBounds(State(), root, va);
      Replace(root, pp, va, perm, pte.value);
      r := 0;
    }

    /** page_insert once the slot is known. */
    method Replace(root: nat, pp: nat, va: nat, perm: nat, pte: Slot)
      requires Valid() && Rooted(Memory(), root, va) && root < NENV && perm < PGSIZE
      requires CanInsert(State(), root, pp, va) && Target(Memory(), TableOf(root, va)).Some?
      requires pte == Slot(TableFrame(Memory(), PlaceOf(root, va)), PTX(va))
      modifies `frames, `ppref, `flight, free
      ensures Valid()
      ensures State() == Overwrite(old(State()), root, pp, va, perm)
    {
      hide Sound, Balanced, SameBut, Inv, CanInsert, Insertable, Erase, Store, Target;
      ghost var s := State();
      OverwriteKeepsInv(s, root, pp, va, perm);
      InBounds(s, root, va);
      DropOld(root, pp, va, pte);
      FillSlot(PlaceOf(root, va), pp, perm, pte);
      if Holds(s, root, pp, va) {
        assert s.books.flight - {pp} == s.books.flight;
        assert ppref == s.books.count;
      }
    }

    /** What page_insert does about an entry that is already present. */
    method DropOld(root: nat, pp: nat, va: nat, pte: Slot)
      requires Valid() && Rooted(Memory(), root, va) && root < NENV && pp < |ppref|
      requires Target(Memory(), TableOf(root, va)).Some?
      requires pte == Slot(TableFrame(Memory(), PlaceOf(root, va)), PTX(va))
      modifies `frames, `ppref, free
      ensures free.Valid() && |free.next| == |ppref| == old(|ppref|)
      ensures Holds(old(State()), root, pp, va) ==>
                old(ppref)[pp] > 0 && Memory() == old(Memory()) && free.elems == old(free.elems)
                && ppref == old(ppref)[pp := old(ppref)[pp] - 1]
      ensures !Holds(old(State()), root, pp, va) ==>
                State() == Remove(old(State()), root, va) && At(Memory(), root, va) == None
      ensures TableFrame(Memory(), PlaceOf(root, va)) == pte.frame < |frames|
      ensures |frames[pte.frame]| == NENTRIES
    {
      hide Sound, Balanced, SameBut, Inv;
      ghost var s := State();
      InBounds(s, root, va);
      RemoveKeepsTable(s, root, va);
      var w := frames[pte.frame][pte.index];
      if Present(w) {
        if Decode(w).ppn != pp {
          var fault := PageRemove(root, va);
        } else {
          ppref := ppref[pp := ppref[pp] - 1];
        }
      }
    }

    /** `*pte = page2pa(pp)|perm|PTE_P; pp->pp_ref++`. */
    method FillSlot(ghost place: Ref, pp: nat, perm: nat, pte: Slot)
      requires pp < |ppref| && place.PageRef? && pte == Slot(TableFrame(Memory(), place), place.ptx)
      requires pte.frame < |frames| && pte.index < |frames[pte.frame]|
      modifies `frames, `ppref, `flight
      ensures Memory() == Fill(old(State()), place, pp, perm).mem
      ensures old(Target(Memory(), place)) == None ==> State() == Fill(old(State()), place, pp, perm)
      ensures ppref == old(ppref)[pp := old(ppref)[pp] + 1] && flight == old(flight) - {pp}
    {
      SetWord(pte, MakePte(pp, perm));
      ppref := ppref[pp := ppref[pp] + 1];
      flight := flight - {pp};
    }

    /** boot_map_segment.  The source does not test the result of pgdir_walk; a
        walk that fails is reported as `fault`.  That happens exactly when more
        tables are missing than pages are free. */
    method BootMapSegment(la: nat, size: nat, pa: nat, perm: nat) returns (fault: bool)
      requires Valid() && perm < PGSIZE && |dirs| == NENV + 1 && dirs[BOOT].Some?
      requires la % PGSIZE == 0 && size % PGSIZE == 0 && pa % PGSIZE == 0 && la + size <= ADDRESSES
      requires forall v :: la <= Va(v) < la + size ==> OwnsPdx(BOOT, PDX(Va(v)))
      modifies `frames, `ppref, `flight, free
      ensures Valid()
      ensures fault <==> |MissingTables(old(Memory()), la, la + size)| > |old(free.elems)|
      ensures fault ==> free.elems == []
      ensures !fault ==> SegmentDone(old(Memory()), Memory(), la, size, pa, perm)
    {
      hide Sound, Balanced, SameBut, Inv, Target, SegmentDone, MissingTables, At, PDX, OwnsPdx, List.Valid;
      var i := 0;
      SegmentEmpty(Memory(), la, pa, perm);
      while i < size
        invariant 0 <= i <= size && i % PGSIZE == 0 && Valid()
        invariant SegmentDone(old(Memory()), Memory(), la, i, pa, perm)
        invariant |MissingTables(Memory(), la + i, la + size)| - |free.elems|
                  == |MissingTables(old(Memory()), la, la + size)| - |old(free.elems)|
      {
        fault := MapTurn(la, i, size, pa, perm, old(Memory()));
        if fault {
          return true;
        }
        i := i + PGSIZE;
      }
      NothingMissing(Memory(), la + size);
      fault := false;
    }

    /** One turn of boot_map_segment. */
    method MapTurn(la: nat, i: nat, size: nat, pa: nat, perm: nat, ghost m0: Mem) returns (fault: bool)
      requires Valid() && perm < PGSIZE && |dirs| == NENV + 1 && dirs[BOOT].Some?
      requires la % PGSIZE == i % PGSIZE == size % PGSIZE == pa % PGSIZE == 0 && la + size <= ADDRESSES && i < size
      requires forall v :: la <= Va(v) < la + size ==> OwnsPdx(BOOT, PDX(Va(v)))
      requires SegmentDone(m0, Memory(), la, i, pa, perm)
      modifies `frames, `ppref, `flight, free
      ensures Valid()
      ensures fault ==> free.elems == [] && |MissingTables(old(Memory()), la + i, la + size)| > |old(free.elems)|
      ensures !fault ==>
                && SegmentDone(m0, Memory(), la, i + PGSIZE, pa, perm)
                && |MissingTables(Memory(), la + i + PGSIZE, la + size)| - |free.elems|
                   == |MissingTables(old(Memory()), la + i, la + size)| - |old(free.elems)|
    {
      hide Sound, Balanced, SameBut, Inv, Target, SegmentDone, MissingTables, At, OwnsPdx, List.Valid, WithPresent;
      ghost var m := Memory();
      PageNumber(la + i);
      FirstMissing(m, la + i, la + size);
      fault := MapBootPage(la + i, pa + i, perm);
      if !fault {
        SegmentStep(m0, m, Memory(), la, i, pa, perm);
        MissingStep(m, Memory(), la + i, la + size);
      }
    }

    method MapBootPage(va: nat, pa: nat, perm: nat) returns (fault: bool)
      requires Valid() && Rooted(Memory(), BOOT, va) && perm < PGSIZE && pa % PGSIZE == 0
      modifies `frames, `ppref, `flight, free
      ensures Valid()
      ensures fault <==> InsertFails(old(State()), BOOT, va)
      ensures fault ==> free.elems == []
      ensures !fault ==> SameBut(old(Memory()), Memory(), {TableOf(BOOT, va), PlaceOf(BOOT, va)})
      ensures !fault ==> At(Memory(), BOOT, va) == Some(Entry(pa / PGSIZE, WithPresent(perm)))
      ensures !fault ==> Target(Memory(), TableOf(BOOT, va)).Some?
      ensures !fault ==>
                |free.elems| == old(|free.elems|) - if old(Target(Memory(), TableOf(BOOT, va))) == None then 1 else 0
    {
      hide Sound, Balanced, SameBut, Inv;
      ghost var s := State();
      WalkCorrect(s, BOOT, va);
      var pte := PgdirWalk(BOOT, va, true);
      if pte == None {
        return true;
      }
      BootFillCorrect(s, va, pa / PGSIZE, perm);
      InBounds(State(), BOOT, va);
      SetWord(pte.value, MakePte(pa / PGSIZE, perm));
      fault := false;
    }

    // ---- Address spaces of environments ----

    /** env_setup_vm. */
    method EnvSetupVm(e: nat) returns (r: int)
      requires Valid() && e < NENV && |dirs| == NENV + 1 && dirs[e] == None
      modifies `frames, `dirs, `ppref, `flight, free
      ensures Valid()
      ensures r == if old(free.elems) == [] then -E_NO_MEM else 0
      ensures State() == Setup(old(State()), e)
      ensures r < 0 ==> State() == old(State())
    {
      hide Sound, Balanced, SameBut, Inv;
      ghost var s := State();
      BootInBounds(s);
      if free.first.Some? {
        SetupCorrect(s, e);
        TakeCorrect(s);
      }
      var p;
      r, p := PageAlloc();
      if r < 0 {
        return;
      }
      var boot := frames[dirs[BOOT].value];
      var page: Frame := seq(NENTRIES, d requires 0 <= d < |boot| => if d < UPDX then 0 else boot[d]);
      page := page[PDX_VPT := p * PGSIZE + PTE_P + PTE_W];
      page := page[PDX_UVPT := p * PGSIZE + PTE_P + PTE_U];
      assert page == DirPage(s.mem, p);
      frames := frames[p := page];
      dirs := dirs[e := Some(p)];
      ppref := ppref[p := ppref[p] + 1];
      flight := flight - {p};
      assert flight == s.books.flight;
    }

    /** The memory part of env_free. */
    method FreeSpace(e: nat)
      requires Valid() && e < NENV && |dirs| == NENV + 1 && dirs[e].Some?
      modifies `frames, `dirs, `ppref, free
      ensures Valid() && Freed(old(State()), State(), e)
    {
      hide Sound, Balanced, SameBut, SameOthers, Inv, Gone, Target, IsData;
      ghost var g := G(State());
      SameOthersRefl(Memory(), e);
      GoneAll(g, e);
      for d := 0 to UPDX
        invariant Valid() && |ppref| == old(|ppref|) && dirs == old(dirs)
        invariant G(State()) == g - Gone(g, e, d, 0)
        invariant SameOthers(old(Memory()), Memory(), e)
      {
        FreeTable(e, d, old(Memory()));
      }
      ghost var s := State();
      DirInBounds(s, e);
      DropDirCorrect(s, e);
      var dir := dirs[e].value;
      dirs := dirs[e := None];
      PageDecref(dir);
      assert State() == DropDir(s, e);
      StillNoDir(old(Memory()), s, Gone(g, e, UPDX, 0), e);
      OthersStep(old(Memory()), s.mem, Memory(), e, DirRef(e), dir);
    }

    /** One turn of env_free's outer loop. */
    method FreeTable(e: nat, d: nat, ghost m0: Mem)
      requires Valid() && e < NENV && d < UPDX && |dirs| == NENV + 1 && dirs[e].Some?
      requires G(State()) == GraphOf(m0) - Gone(GraphOf(m0), e, d, 0) && SameOthers(m0, Memory(), e)
      modifies `frames, `ppref, free
      ensures Valid() && |ppref| == old(|ppref|)
      ensures G(State()) == GraphOf(m0) - Gone(GraphOf(m0), e, d + 1, 0) && SameOthers(m0, Memory(), e)
    {
      hide Sound, Balanced, SameBut, SameOthers, Inv, Target, Gone, IsData;
      DirEntryInBounds(State(), e, d);
      var pde := frames[dirs[e].value][d];
      if !Present(pde) {
        GoneKeepsTable(GraphOf(m0), e, d);
        GoneEmpty(m0, e, d);
        return;
      }
      var table := Decode(pde).ppn;
      FreeEntries(e, d, table, m0);
      ghost var s := State();
      GoneTable(m0, e, d);
      DropTableCorrect(s, e, d);
      TableInBounds(s, e, d);
      SetWord(Slot(dirs[e].value, d), 0);
      PageDecref(table);
      assert State() == DropTable(s, e, d);
      StillNoDir(m0, s, Gone(GraphOf(m0), e, d, NENTRIES), e);
      OthersStep(m0, s.mem, Memory(), e, TableRef(e, d), dirs[e].value);
    }

    /** env_free's inner loop. */
    method FreeEntries(e: nat, d: nat, table: nat, ghost m0: Mem)
      requires Valid() && e < NENV && d < UPDX && |dirs| == NENV + 1 && dirs[e].Some?
      requires Table(Memory(), e, d).Some? && Table(Memory(), e, d).value.ppn == table
      requires G(State()) == GraphOf(m0) - Gone(GraphOf(m0), e, d, 0) && SameOthers(m0, Memory(), e)
      modifies `frames, `ppref, free
      ensures Valid() && |ppref| == old(|ppref|)
      ensures G(State()) == GraphOf(m0) - Gone(GraphOf(m0), e, d, NENTRIES) && SameOthers(m0, Memory(), e)
      ensures TableRef(e, d) in G(State()) && G(State())[TableRef(e, d)].ppn == table
    {
      hide Sound, Balanced, SameBut, SameOthers, Inv, Gone, Target, IsData;
      ghost var g := GraphOf(m0);
      for t := 0 to NENTRIES
        invariant Valid() && |ppref| == old(|ppref|)
        invariant G(State()) == g - Gone(g, e, d, t) && SameOthers(m0, Memory(), e)
        invariant Table(Memory(), e, d) == old(Table(Memory(), e, d))
      {
        FreeEntry(e, d, t, table, m0);
      }
      TableInGraph(Memory(), e, d);
    }

    /** One turn of env_free's inner loop. */
    method FreeEntry(e: nat, d: nat, t: nat, table: nat, ghost m0: Mem)
      requires Valid() && e < NENV && d < UPDX && t < NENTRIES && |dirs| == NENV + 1 && dirs[e].Some?
      requires Table(Memory(), e, d).Some? && Table(Memory(), e, d).value.ppn == table
      requires G(State()) == GraphOf(m0) - Gone(GraphOf(m0), e, d, t) && SameOthers(m0, Memory(), e)
      modifies `frames, `ppref, free
      ensures Valid() && |ppref| == old(|ppref|)
      ensures G(State()) == GraphOf(m0) - Gone(GraphOf(m0), e, d, t + 1) && SameOthers(m0, Memory(), e)
      ensures Table(Memory(), e, d) == old(Table(Memory(), e, d))
    {
      hide Sound, Balanced, SameBut, SameOthers, Inv, Gone, Target, IsData;
      GonePage(GraphOf(m0), e, d, t);
      AddressJoin(d, t, 0);
      ghost var s := State();
      EntryInBounds(s, e, d, t);
      if Present(frames[table][t]) {
        RemoveEntry(s, e, d, t);
        var fault := PageRemove(e, PGADDR(d, t, 0));
        TableInGraph(s.mem, e, d);
        StillNoData(m0, s.mem, Gone(GraphOf(m0), e, d, t), TableRef(e, d));
        OthersStep(m0, s.mem, Memory(), e, PageRef(e, d, t), table);
      }
    }
  }
}
