/** What the operations of kern/pmap.c do to memory and to the books, as
    functions on values, and what these functions mean. */
module PageOps {
  import opened Mmu
  import opened Queue
  import opened PageGraph
  import opened EnvIds

  datatype VM = VM(mem: Mem, books: Books)

  ghost function G(s: VM): Graph { GraphOf(s.mem) }

  /** The global invariant: the tables are sound, and every counter is the
      number of references. */
  ghost predicate Inv(s: VM) {
    Sound(s.mem) && |s.books.count| == |s.mem.frames| && Balanced(G(s), s.books)
  }

  predicate Rooted(m: Mem, root: nat, va: nat) {
    root <= NENV && |m.dirs| == NENV + 1 && m.dirs[root].Some? && va < ADDRESSES && OwnsPdx(root, PDX(va))
  }

  function TableOf(root: nat, va: nat): Ref { TableRef(root, PDX(va)) }

  function PlaceOf(root: nat, va: nat): Ref { PageRef(root, PDX(va), PTX(va)) }

  /** What root `root` sees at `va` (check_va2pa). */
  function At(m: Mem, root: nat, va: nat): Option<Entry> { Target(m, PlaceOf(root, va)) }

  // ---- The steps ----

  /** page_alloc: the head of the free list goes into flight. */
  function Take(s: VM): VM {
    if s.books.free == [] then s
    else s.(books := s.books.(free := s.books.free[1..], flight := s.books.flight + {s.books.free[0]}))
  }

  /** A page table for directory entry `d`, from the head of the free list. */
  function AddTable(s: VM, root: nat, d: nat): VM {
    if s.books.free == [] then s
    else
      var p := s.books.free[0];
      VM(HookTable(s.mem, root, d, p),
         if p < |s.books.count| then s.books.(count := s.books.count[p := 1], free := s.books.free[1..]) else s.books)
  }

  /** page_decref, then `*pte = 0`. */
  function Erase(s: VM, r: Ref): VM
    requires r.PageRef?
  {
    if Target(s.mem, r).Some? then
      VM(Store(s.mem, TableFrame(s.mem, r), r.ptx, 0), Decref(s.books, Target(s.mem, r).value.ppn))
    else s
  }

  /** `*pte = page2pa(pp)|perm|PTE_P; pp->pp_ref++`, over an entry that is clear
      or (after `pp->pp_ref--`) holds the same page. */
  function Fill(s: VM, r: Ref, p: nat, perm: nat): VM
    requires r.PageRef?
  {
    VM(Store(s.mem, TableFrame(s.mem, r), r.ptx, MakePte(p, perm)),
       if Target(s.mem, r).Some? || p >= |s.books.count| then s.books
       else s.books.(count := s.books.count[p := s.books.count[p] + 1], flight := s.books.flight - {p}))
  }

  /** pgdir_walk with `create`. */
  function Walk(s: VM, root: nat, va: nat): VM {
    if Target(s.mem, TableOf(root, va)).Some? then s else AddTable(s, root, PDX(va))
  }

  /** page_remove. */
  function Remove(s: VM, root: nat, va: nat): VM { Erase(s, PlaceOf(root, va)) }

  predicate InsertFails(s: VM, root: nat, va: nat) {
    Target(s.mem, TableOf(root, va)) == None && s.books.free == []
  }

  predicate Holds(s: VM, root: nat, pp: nat, va: nat) {
    At(s.mem, root, va).Some? && At(s.mem, root, va).value.ppn == pp
  }

  /** page_insert once there is a table: another page is removed first. */
  function Overwrite(s: VM, root: nat, pp: nat, va: nat, perm: nat): VM {
    Fill(if Holds(s, root, pp, va) then s else Remove(s, root, va), PlaceOf(root, va), pp, perm)
  }

  /** page_insert. */
  function Insert(s: VM, root: nat, pp: nat, va: nat, perm: nat): VM {
    if InsertFails(s, root, va) then s else Overwrite(Walk(s, root, va), root, pp, va, perm)
  }

  // ---- Their meaning ----

  /** Every address the walk computes lies in memory. */
  lemma InBounds(s: VM, root: nat, va: nat)
    requires Inv(s) && Rooted(s.mem, root, va)
    ensures s.mem.dirs[root].value < |s.mem.frames|
    ensures forall f :: 0 <= f < |s.mem.frames| ==> |s.mem.frames[f]| == NENTRIES
    ensures Target(s.mem, TableOf(root, va)) == EntryOf(s.mem.frames[s.mem.dirs[root].value][PDX(va)])
    ensures Target(s.mem, TableOf(root, va)).Some? ==>
              && Target(s.mem, TableOf(root, va)).value.ppn == TableFrame(s.mem, PlaceOf(root, va)) < |s.mem.frames|
              && At(s.mem, root, va) == EntryOf(s.mem.frames[TableFrame(s.mem, PlaceOf(root, va))][PTX(va)])
    ensures Target(s.mem, TableOf(root, va)) == None ==> At(s.mem, root, va) == None
    ensures root < NENV && At(s.mem, root, va).Some? ==>
              var p := At(s.mem, root, va).value.ppn;
              p < |s.books.count| && s.books.count[p] > 0 && p !in s.books.free && p !in s.books.flight
              && p !in s.books.reserved && IsData(G(s), p)
  {
    assert DirRef(root) in G(s);
    if Target(s.mem, TableOf(root, va)).Some? {
      assert TableOf(root, va) in G(s);
    }
    if root < NENV && At(s.mem, root, va).Some? {
      assert PlaceOf(root, va) in G(s);
      assert PlaceOf(root, va) in RefsTo(G(s), At(s.mem, root, va).value.ppn);
    }
  }

  lemma TakeCorrect(s: VM)
    requires Inv(s)
    ensures Inv(Take(s))
    ensures s.books.free != [] ==>
              var p := s.books.free[0];
              p < |s.books.count| && s.books.count[p] == 0 && p !in s.books.flight && p !in s.books.reserved
              && p !in Take(s).books.free && RefsTo(G(s), p) == {}
  {
    if s.books.free != [] {
      assert s.books.free[0] in s.books.free;
      TakeKeepsBalance(G(s), s.books);
    }
  }

  lemma HookBounds(s: VM, root: nat, va: nat)
    requires Inv(s) && Rooted(s.mem, root, va) && s.books.free != []
    requires Target(s.mem, TableOf(root, va)) == None
    ensures var p := s.books.free[0];
            && p < |s.mem.frames| && s.books.flight + {p} - {p} == s.books.flight
            && |s.books.count| == |s.mem.frames|
            && Target(Walk(s, root, va).mem, TableOf(root, va)) == Some(Entry(p, 7))
  {
    assert s.books.free[0] in s.books.free;
    AddTableCorrect(s, root, PDX(va));
    assert TableOf(root, va) in G(Walk(s, root, va));
  }

  lemma AddTableCorrect(s: VM, root: nat, d: nat)
    requires Inv(s) && OwnsPdx(root, d) && s.mem.dirs[root].Some? && Target(s.mem, TableRef(root, d)) == None
    requires s.books.free != []
    ensures var s' := AddTable(s, root, d);
            && Inv(s') && G(s') == G(s)[TableRef(root, d) := Entry(s.books.free[0], 7)]
            && SameBut(s.mem, s'.mem, {TableRef(root, d)})
            && s'.mem.dirs == s.mem.dirs && |s'.mem.frames| == |s.mem.frames|
            && s.books.free[0] < |s.books.count| && s.books.free[0] !in s'.books.free
            && (forall p :: p != s.books.free[0] && p in s'.books.free ==> p in s.books.free)
  {
    HookTableCorrect(s.mem, s.books, root, d);
    assert s.books.free[0] in s.books.free;
  }

  lemma EraseCorrect(s: VM, r: Ref)
    requires Inv(s) && r.PageRef? && IsCounted(r)
    ensures var s' := Erase(s, r);
            && Inv(s') && G(s') == G(s) - {r} && SameBut(s.mem, s'.mem, {r})
            && s'.books.flight == s.books.flight && s'.books.reserved == s.books.reserved
            && s'.mem.dirs == s.mem.dirs && |s'.mem.frames| == |s.mem.frames|
  {
    hide RefsTo, Distinct, Target;
    if r in G(s) {
      ErasePte(s.mem, s.books, r);
    }
  }

  ghost predicate Insertable(s: VM, pp: nat) {
    pp < |s.books.count| && pp !in s.books.reserved && pp !in s.books.free && IsData(G(s), pp)
  }

  lemma FillCorrect(s: VM, r: Ref, p: nat, perm: nat)
    requires Inv(s) && r.PageRef? && IsCounted(r) && TableRef(r.root, r.pdx) in G(s) && perm < PGSIZE
    requires Insertable(s, p) && (if r in G(s) then G(s)[r].ppn == p else s.books.count[p] + 1 < REF_LIMIT)
    ensures var s' := Fill(s, r, p, perm);
            && Inv(s') && G(s') == G(s)[r := Entry(p, WithPresent(perm))] && SameBut(s.mem, s'.mem, {r})
            && s'.books.free == s.books.free && s'.books.flight == s.books.flight - {p}
            && s'.books.reserved == s.books.reserved
            && s'.mem.dirs == s.mem.dirs && |s'.mem.frames| == |s.mem.frames|
  {
    hide Sound, Balanced, SameBut, Target;
    if r in G(s) {
      InsertAgain(s.mem, s.books, r, perm);
    } else {
      InsertFresh(s.mem, s.books, r, p, perm);
    }
  }

  /** page_remove is a single-key delete of the flat address spaces. */
  lemma RemoveIsDelete(s: VM, root: nat, va: nat)
    requires Inv(s) && Rooted(s.mem, root, va) && root < NENV
    ensures var s' := Remove(s, root, va);
            && Inv(s') && G(s') == G(s) - {PlaceOf(root, va)} && SameBut(s.mem, s'.mem, {PlaceOf(root, va)})
            && FlatOf(G(s')) == FlatOf(G(s)) - {VPage(root, VPN(va))}
  {
    EraseCorrect(s, PlaceOf(root, va));
    FlatAfterRemove(G(s), root, va);
  }

  lemma WalkCorrect(s: VM, root: nat, va: nat)
    requires Inv(s) && Rooted(s.mem, root, va)
    ensures var s' := Walk(s, root, va);
            && Inv(s') && SameBut(s.mem, s'.mem, {TableOf(root, va)})
            && G(s') == WithTable(G(s), TableOf(root, va), FirstOf(s.books.free))
            && (TableOf(root, va) in G(s') <==> !InsertFails(s, root, va))
            && At(s'.mem, root, va) == At(s.mem, root, va)
            && s'.mem.dirs == s.mem.dirs && |s'.mem.frames| == |s.mem.frames|
            && s'.books.flight == s.books.flight && s'.books.reserved == s.books.reserved
            && |s'.books.count| == |s.books.count|
            && (forall p :: p in s'.books.free ==> p in s.books.free)
  {
    hide Sound, Balanced, SameBut;
    if Target(s.mem, TableOf(root, va)) == None && s.books.free != [] {
      AddTableCorrect(s, root, PDX(va));
    } else {
      SameButRefl(s.mem, {TableOf(root, va)});
    }
  }

  lemma SameButRefl(m: Mem, rs: set<Ref>)
    ensures SameBut(m, m, rs)
  {
  }

  function FirstOf(s: seq<nat>): Option<nat> { if s == [] then None else Some(s[0]) }

  ghost predicate CanInsert(s: VM, root: nat, pp: nat, va: nat) {
    && Insertable(s, pp)
    && (Holds(s, root, pp, va) || s.books.count[pp] + 1 < REF_LIMIT)
  }

  lemma WalkKeepsInsertable(s: VM, root: nat, pp: nat, va: nat)
    requires Inv(s) && Rooted(s.mem, root, va) && CanInsert(s, root, pp, va)
    ensures CanInsert(Walk(s, root, va), root, pp, va)
  {
    WalkCorrect(s, root, va);
    hide Sound, Balanced, SameBut;
    var s' := Walk(s, root, va);
    if s' != s {
      AddTableCorrect(s, root, PDX(va));
      assert s'.books.count == s.books.count[s.books.free[0] := 1];
    }
  }

  lemma RemoveKeepsInsertable(s: VM, root: nat, pp: nat, va: nat)
    requires Inv(s) && Rooted(s.mem, root, va) && root < NENV && CanInsert(s, root, pp, va)
    requires !Holds(s, root, pp, va)
    ensures CanInsert(Remove(s, root, va), root, pp, va)
  {
    hide Sound, Balanced, SameBut;
    EraseCorrect(s, PlaceOf(root, va));
  }

  lemma RemoveKeepsTable(s: VM, root: nat, va: nat)
    requires Inv(s) && Rooted(s.mem, root, va) && root < NENV
    ensures TableFrame(Remove(s, root, va).mem, PlaceOf(root, va)) == TableFrame(s.mem, PlaceOf(root, va))
    ensures At(Remove(s, root, va).mem, root, va) == None
    ensures |Remove(s, root, va).books.count| == |s.books.count|
    ensures Target(s.mem, TableOf(root, va)).Some? ==>
              var f := TableFrame(s.mem, PlaceOf(root, va));
              f < |Remove(s, root, va).mem.frames| && |Remove(s, root, va).mem.frames[f]| == NENTRIES
  {
    hide Sound, Balanced, SameBut, FlatOf;
    RemoveIsDelete(s, root, va);
    assert TableOf(root, va) in G(s) ==> TableOf(root, va) in G(Remove(s, root, va));
    InBounds(s, root, va);
    assert PlaceOf(root, va) !in G(Remove(s, root, va));
  }

  lemma OverwriteCorrect(s: VM, root: nat, pp: nat, va: nat, perm: nat)
    requires Inv(s) && Rooted(s.mem, root, va) && root < NENV && perm < PGSIZE
    requires TableOf(root, va) in G(s) && CanInsert(s, root, pp, va)
    ensures var s' := Overwrite(s, root, pp, va, perm);
            && Inv(s') && G(s') == G(s)[PlaceOf(root, va) := Entry(pp, WithPresent(perm))]
            && SameBut(s.mem, s'.mem, {PlaceOf(root, va)})
            && s'.books.flight == s.books.flight - {pp} && s'.books.reserved == s.books.reserved
            && s'.mem.dirs == s.mem.dirs && |s'.mem.frames| == |s.mem.frames|
  {
    hide Sound, Balanced, SameBut, Inv, Target;
    var place := PlaceOf(root, va);
    if !Holds(s, root, pp, va) {
      EraseCorrect(s, place);
      RemoveKeepsInsertable(s, root, pp, va);
      var s2 := Remove(s, root, va);
      FillCorrect(s2, place, pp, perm);
      SameButTwice(s.mem, s2.mem, Overwrite(s, root, pp, va, perm).mem, place);
    } else {
      FillCorrect(s, place, pp, perm);
    }
  }

  /** page_insert is a single-key update of the flat address spaces, and fails
      without any effect exactly when a table is missing and memory is out. */
  lemma InsertIsUpdate(s: VM, root: nat, pp: nat, va: nat, perm: nat)
    requires Inv(s) && Rooted(s.mem, root, va) && root < NENV && perm < PGSIZE
    requires CanInsert(s, root, pp, va)
    ensures var s' := Insert(s, root, pp, va, perm);
            var e := Entry(pp, WithPresent(perm));
            if InsertFails(s, root, va) then s' == s
            else
              && Inv(s')
              && G(s') == WithTable(G(s), TableOf(root, va), FirstOf(s.books.free))[PlaceOf(root, va) := e]
              && FlatOf(G(s')) == FlatOf(G(s))[VPage(root, VPN(va)) := e]
              && SameBut(s.mem, s'.mem, {TableOf(root, va), PlaceOf(root, va)})
              && s'.books.flight == s.books.flight - {pp} && s'.books.reserved == s.books.reserved
              && s'.mem.dirs == s.mem.dirs && |s'.mem.frames| == |s.mem.frames|
  {
    hide Sound, Balanced, SameBut, Overwrite, Walk;
    if !InsertFails(s, root, va) {
      WalkCorrect(s, root, va);
      WalkKeepsInsertable(s, root, pp, va);
      FlatAfterInsert(G(s), root, va, FirstOf(s.books.free), Entry(pp, WithPresent(perm)));
      var s1 := Walk(s, root, va);
      OverwriteCorrect(s1, root, pp, va, perm);
      SameButChain(s.mem, s1.mem, Insert(s, root, pp, va, perm).mem, TableOf(root, va), PlaceOf(root, va));
    }
  }

  lemma RemoveKeepsInv(s: VM, root: nat, va: nat)
    requires Inv(s) && Rooted(s.mem, root, va) && root < NENV
    ensures Inv(Remove(s, root, va))
  {
    RemoveIsDelete(s, root, va);
  }

  lemma OverwriteKeepsInv(s: VM, root: nat, pp: nat, va: nat, perm: nat)
    requires Inv(s) && Rooted(s.mem, root, va) && root < NENV && perm < PGSIZE
    requires CanInsert(s, root, pp, va) && Target(s.mem, TableOf(root, va)).Some?
    ensures Inv(Overwrite(s, root, pp, va, perm))
            && pp < |s.books.count| == |Overwrite(s, root, pp, va, perm).books.count|
  {
    OverwriteCorrect(s, root, pp, va, perm);
  }

  // ---- boot_map_segment ----

  /** The address of page `v`. */
  function Va(v: nat): nat { v * PGSIZE }

  /** One turn of boot_map_segment once the slot is known; the counter is left alone. */
  function BootFill(s: VM, va: nat, ppn: nat, perm: nat): VM {
    s.(mem := Store(s.mem, TableFrame(s.mem, PlaceOf(BOOT, va)), PTX(va), MakePte(ppn, perm)))
  }

  lemma BootFillCorrect(s: VM, va: nat, ppn: nat, perm: nat)
    requires Inv(s) && Rooted(s.mem, BOOT, va) && perm < PGSIZE && !InsertFails(s, BOOT, va)
    ensures var s' := BootFill(Walk(s, BOOT, va), va, ppn, perm);
            && Inv(s') && At(s'.mem, BOOT, va) == Some(Entry(ppn, WithPresent(perm)))
            && SameBut(s.mem, s'.mem, {TableOf(BOOT, va), PlaceOf(BOOT, va)})
            && s'.mem.dirs == s.mem.dirs
            && s'.books.flight == s.books.flight && s'.books.reserved == s.books.reserved
  {
    hide Sound, Balanced, SameBut, Target;
    WalkCorrect(s, BOOT, va);
    var s1 := Walk(s, BOOT, va);
    BootStore(s1, va, ppn, perm);
    SameButChain(s.mem, s1.mem, BootFill(s1, va, ppn, perm).mem, TableOf(BOOT, va), PlaceOf(BOOT, va));
  }

  lemma BootStore(s: VM, va: nat, ppn: nat, perm: nat)
    requires Inv(s) && Rooted(s.mem, BOOT, va) && perm < PGSIZE && TableOf(BOOT, va) in G(s)
    ensures var s' := BootFill(s, va, ppn, perm);
            && Inv(s') && At(s'.mem, BOOT, va) == Some(Entry(ppn, WithPresent(perm)))
            && SameBut(s.mem, s'.mem, {PlaceOf(BOOT, va)}) && s'.mem.dirs == s.mem.dirs
  {
    WritePte(s.mem, PlaceOf(BOOT, va), ppn, perm);
  }

  lemma PlacesDiffer(root: nat, v: nat, va: nat)
    requires va < ADDRESSES && va % PGSIZE == 0 && Va(v) < ADDRESSES && Va(v) != va
    ensures PlaceOf(root, Va(v)) != PlaceOf(root, va)
  {
    AddressSplit(va);
    AddressSplit(Va(v));
  }

  /** The first `i` bytes of the segment are mapped, every other page of the
      boot space is as in `m0`, and so are all other spaces. */
  ghost predicate SegmentDone(m0: Mem, m: Mem, la: nat, i: nat, pa: nat, perm: nat) {
    && (forall r :: IsPlace(r) && r.root != BOOT ==> Target(m, r) == Target(m0, r))
    && (forall v :: Va(v) < ADDRESSES && OwnsPdx(BOOT, PDX(Va(v))) ==>
          At(m, BOOT, Va(v)) ==
          if la <= Va(v) < la + i then Some(Entry((pa + (Va(v) - la)) / PGSIZE, WithPresent(perm)))
          else At(m0, BOOT, Va(v)))
  }

  lemma SegmentEmpty(m: Mem, la: nat, pa: nat, perm: nat)
    ensures SegmentDone(m, m, la, 0, pa, perm)
  {
  }

  lemma PageNumber(va: nat)
    requires va % PGSIZE == 0
    ensures Va(va / PGSIZE) == va
  {
  }

  lemma SegmentStep(m0: Mem, m: Mem, m': Mem, la: nat, i: nat, pa: nat, perm: nat)
    requires SegmentDone(m0, m, la, i, pa, perm)
    requires la % PGSIZE == 0 && i % PGSIZE == 0 && pa % PGSIZE == 0 && la + i < ADDRESSES
    requires SameBut(m, m', {TableOf(BOOT, la + i), PlaceOf(BOOT, la + i)})
    requires At(m', BOOT, la + i) == Some(Entry((pa + i) / PGSIZE, WithPresent(perm)))
    ensures SegmentDone(m0, m', la, i + PGSIZE, pa, perm)
  {
    hide Target, At, WithPresent;
    forall v | Va(v) < ADDRESSES && OwnsPdx(BOOT, PDX(Va(v)))
      ensures At(m', BOOT, Va(v)) ==
              if la <= Va(v) < la + (i + PGSIZE) then Some(Entry((pa + (Va(v) - la)) / PGSIZE, WithPresent(perm)))
              else At(m0, BOOT, Va(v))
    {
      SegmentPage(m0, m, m', la, i, pa, perm, v);
    }
  }

  lemma SegmentPage(m0: Mem, m: Mem, m': Mem, la: nat, i: nat, pa: nat, perm: nat, v: nat)
    requires la % PGSIZE == 0 && i % PGSIZE == 0 && la + i < ADDRESSES && Va(v) < ADDRESSES && OwnsPdx(BOOT, PDX(Va(v)))
    requires At(m, BOOT, Va(v)) ==
             if la <= Va(v) < la + i then Some(Entry((pa + (Va(v) - la)) / PGSIZE, WithPresent(perm)))
               else At(m0, BOOT, Va(v))
    requires SameBut(m, m', {TableOf(BOOT, la + i), PlaceOf(BOOT, la + i)})
    requires At(m', BOOT, la + i) == Some(Entry((pa + i) / PGSIZE, WithPresent(perm)))
    ensures At(m', BOOT, Va(v)) ==
            if la <= Va(v) < la + (i + PGSIZE) then Some(Entry((pa + (Va(v) - la)) / PGSIZE, WithPresent(perm)))
            else At(m0, BOOT, Va(v))
  {
    hide Target, At, WithPresent, SameBut, TableOf, PlaceOf;
    if Va(v) != la + i {
      NextPage(la + i, v);
      OtherPage(m, m', la + i, v);
    }
  }

  lemma NextPage(va: nat, v: nat)
    requires va % PGSIZE == 0 && Va(v) != va
    ensures !(va <= Va(v) < va + PGSIZE)
  {
  }

  lemma OtherPage(m: Mem, m': Mem, va: nat, v: nat)
    requires va < ADDRESSES && va % PGSIZE == 0 && Va(v) < ADDRESSES && Va(v) != va && OwnsPdx(BOOT, PDX(Va(v)))
    requires SameBut(m, m', {TableOf(BOOT, va), PlaceOf(BOOT, va)})
    ensures At(m', BOOT, Va(v)) == At(m, BOOT, Va(v))
  {
    hide Target;
    PlacesDiffer(BOOT, v, va);
    assert IsPlace(PlaceOf(BOOT, Va(v)));
  }

  /** The directory entries without a table that the addresses [la, end) need. */
  ghost function MissingTables(m: Mem, la: nat, end: nat): set<nat> {
    set d | 0 <= d < NENTRIES && la < end && la / PTSIZE <= d <= (end - 1) / PTSIZE
      && Target(m, TableRef(BOOT, d)) == None
  }

  /** The boot directory has all addresses but those of the two self maps; an
      environment has those below UTOP. */
  lemma OwnedAddresses(root: nat, va: nat)
    requires root <= NENV && va < ADDRESSES
    ensures OwnsPdx(root, PDX(va)) <==>
            if root < NENV then va < UTOP
            else !(UVPT <= va < UVPT + PTSIZE) && !(VPT <= va < VPT + PTSIZE)
  {
    assert PDX(va) == va / PTSIZE;
  }

  lemma NothingMissing(m: Mem, end: nat)
    ensures MissingTables(m, end, end) == {}
  {
  }

  lemma FirstMissing(m: Mem, la: nat, end: nat)
    requires la < end <= ADDRESSES
    ensures PDX(la) in MissingTables(m, la, end) <==> Target(m, TableOf(BOOT, la)) == None
  {
    hide Target;
  }

  /** Mapping the first page of a segment takes its table out of those missing. */
  lemma MissingStep(m: Mem, m': Mem, la: nat, end: nat)
    requires la % PGSIZE == 0 && end % PGSIZE == 0 && la < end <= ADDRESSES
    requires forall v :: la <= Va(v) < end ==> OwnsPdx(BOOT, PDX(Va(v)))
    requires SameBut(m, m', {TableOf(BOOT, la), PlaceOf(BOOT, la)}) && Target(m', TableOf(BOOT, la)).Some?
    ensures MissingTables(m', la + PGSIZE, end) == MissingTables(m, la, end) - {PDX(la)}
  {
    hide Target, SameBut;
    TableOfPage(la, end);
    forall d: nat | d < NENTRIES && la / PTSIZE <= d <= (end - 1) / PTSIZE && d != PDX(la)
      ensures Target(m', TableRef(BOOT, d)) == Target(m, TableRef(BOOT, d))
    {
      TableOwned(la, end, d);
      OtherTable(m, m', la, d);
    }
  }

  lemma TableOfPage(la: nat, end: nat)
    requires la % PGSIZE == 0 && end % PGSIZE == 0 && la < end <= ADDRESSES
    ensures PDX(la) == la / PTSIZE && (end - 1) / PTSIZE < NENTRIES
    ensures la + PGSIZE < end ==> la / PTSIZE <= (la + PGSIZE) / PTSIZE <= la / PTSIZE + 1
    ensures la + PGSIZE >= end ==> la / PTSIZE == (end - 1) / PTSIZE
  {
  }

  /** A table that the segment needs holds the entry of one of its pages. */
  lemma TableOwned(la: nat, end: nat, d: nat)
    requires la % PGSIZE == 0 && end % PGSIZE == 0 && la < end <= ADDRESSES && la / PTSIZE <= d <= (end - 1) / PTSIZE
    requires forall v :: la <= Va(v) < end ==> OwnsPdx(BOOT, PDX(Va(v)))
    ensures OwnsPdx(BOOT, d)
  {
    hide OwnsPdx;
    var v := if d * PTSIZE < la then la / PGSIZE else d * NENTRIES;
    assert la <= Va(v) < end && PDX(Va(v)) == d;
  }

  lemma OtherTable(m: Mem, m': Mem, la: nat, d: nat)
    requires SameBut(m, m', {TableOf(BOOT, la), PlaceOf(BOOT, la)}) && OwnsPdx(BOOT, d) && d != PDX(la)
    ensures Target(m', TableRef(BOOT, d)) == Target(m, TableRef(BOOT, d))
  {
    hide Target;
    assert IsPlace(TableRef(BOOT, d));
  }

  // ---- env_setup_vm ----

  /** The directory page of a new environment in frame `p`: the boot directory,
      with the user part cleared and the self maps redirected. */
  function DirPage(m: Mem, p: nat): Frame {
    seq(NENTRIES, d requires 0 <= d =>
      if d < UPDX then 0
      else if d == PDX_VPT then p * PGSIZE + PTE_P + PTE_W
      else if d == PDX_UVPT then p * PGSIZE + PTE_P + PTE_U
      else if BOOT < |m.dirs| && m.dirs[BOOT].Some? then Word(m, m.dirs[BOOT].value, d) else 0)
  }

  function Setup(s: VM, e: nat): VM {
    if s.books.free == [] || e >= |s.mem.dirs| then s
    else
      var p := s.books.free[0];
      if p < |s.mem.frames| && p < |s.books.count| then
        VM(Mem(s.mem.frames[p := DirPage(s.mem, p)], s.mem.dirs[e := Some(p)]),
           s.books.(free := s.books.free[1..], count := s.books.count[p := s.books.count[p] + 1]))
      else s
  }

  /** A new environment maps nothing in its user part, shares the kernel part
      of the boot directory, and owns one page: its directory. */
  lemma SetupCorrect(s: VM, e: nat)
    requires Inv(s) && e < NENV && s.mem.dirs[e] == None && s.books.free != []
    ensures var s' := Setup(s, e);
            var p := s.books.free[0];
            && Inv(s') && G(s') == G(s)[DirRef(e) := Entry(p, 0)] && p < |s.mem.frames|
            && s'.mem.dirs == s.mem.dirs[e := Some(p)]
            && SameBut(s.mem, s'.mem, {DirRef(e)})
            && s'.books.flight == s.books.flight && s'.books.reserved == s.books.reserved
            && (forall d :: UPDX <= d < NENTRIES && d != PDX_UVPT && d != PDX_VPT ==>
                  Table(s'.mem, e, d) == Table(s.mem, BOOT, d))
  {
    hide Distinct, Sound;
    var p := s.books.free[0];
    TakeCorrect(s);
    SetupMemory(s, e);
    AddKeepsBalance(G(s), Take(s).books, DirRef(e), Entry(p, 0));
    assert Take(s).books.flight - {p} == s.books.flight;
  }

  /** Its directory also appears as a page table: for the kernel to read and write,
      and for users to read. */
  lemma SelfMaps(s: VM, e: nat)
    requires Inv(s) && e < NENV && s.mem.dirs[e] == None && s.books.free != []
    ensures var m, p := Setup(s, e).mem, s.books.free[0];
            && m.dirs[e] == Some(p)
            && Table(m, e, PDX(VPT)) == Some(Entry(p, PTE_P + PTE_W))
            && Table(m, e, PDX(UVPT)) == Some(Entry(p, PTE_P + PTE_U))
            && (forall d :: 0 <= d < PDX(UTOP) ==> Table(m, e, d) == None)
    ensures !User(PTE_P + PTE_W) && !Writable(PTE_P + PTE_U)
  {
    hide Balanced, Sound;
    BootInBounds(s);
    TakeCorrect(s);
    var p := s.books.free[0];
    assert |s.books.count| == |s.mem.frames|;
    assert (p * PGSIZE + PTE_P + PTE_W) / PGSIZE == p && (p * PGSIZE + PTE_P + PTE_U) / PGSIZE == p;
    assert (p * PGSIZE + PTE_P + PTE_W) % PGSIZE == 3 && (p * PGSIZE + PTE_P + PTE_U) % PGSIZE == 5;
  }

  /** The word that the hardware finds at a linear address. */
  function Load(m: Mem, e: nat, la: nat): Option<nat> {
    var pde := Table(m, e, PDX(la));
    if pde == None then None
    else
      var pte := EntryOf(Word(m, pde.value.ppn, PTX(la)));
      if pte == None then None else Some(Word(m, pte.value.ppn, PGOFF(la) / 4))
  }

  /** So the table entries of an environment stand in a row at UVPT, by page number,
      wherever there is a table (`vpt` of lib/entry.S). */
  lemma TablesReadable(m: Mem, e: nat, vpn: nat, perm: nat)
    requires e < |m.dirs| && m.dirs[e].Some? && Table(m, e, PDX(UVPT)) == Some(Entry(m.dirs[e].value, perm))
    requires vpn < NENTRIES * NENTRIES
    ensures Load(m, e, UVPT + 4 * vpn) ==
            var table := Table(m, e, vpn / NENTRIES);
            if table == None then None else Some(Word(m, table.value.ppn, vpn % NENTRIES))
  {
    var la := UVPT + 4 * vpn;
    assert PDX(la) == PDX(UVPT) && PTX(la) == vpn / NENTRIES && PGOFF(la) / 4 == vpn % NENTRIES by {
      VptAddress(vpn);
    }
  }

  lemma VptAddress(vpn: nat)
    requires vpn < NENTRIES * NENTRIES
    ensures var la := UVPT + 4 * vpn;
            PDX(la) == PDX(UVPT) && PTX(la) == vpn / NENTRIES && PGOFF(la) / 4 == vpn % NENTRIES
  {
    var t, i := vpn / NENTRIES, vpn % NENTRIES;
    assert vpn == t * NENTRIES + i;
    assert UVPT + 4 * vpn == PGADDR(957, t, 4 * i);
    AddressJoin(957, t, 4 * i);
    AddressJoin(957, 0, 0);
  }

  lemma SetupMemory(s: VM, e: nat)
    requires Inv(s) && e < NENV && s.mem.dirs[e] == None && s.books.free != []
    ensures var s' := Setup(s, e);
            var p := s.books.free[0];
            && p < |s.mem.frames| && |s.books.count| == |s.mem.frames|
            && Sound(s'.mem) && G(s') == G(s)[DirRef(e) := Entry(p, 0)]
            && SameBut(s.mem, s'.mem, {DirRef(e)})
  {
    var p := s.books.free[0];
    assert p in s.books.free;
    forall r | r in G(s) ensures G(s)[r].ppn != p {
      assert r !in RefsTo(G(s), p);
    }
    StoreFrame(s.mem, p, DirPage(s.mem, p));
    SetDir(s.mem.(frames := s.mem.frames[p := DirPage(s.mem, p)]), e, p);
  }

  lemma SetupDirs(s: VM, e: nat)
    requires Inv(s) && e < NENV && s.mem.dirs[e] == None && s.books.free != []
    ensures Setup(s, e).mem.dirs == s.mem.dirs[e := Some(s.books.free[0])]
  {
    SetupCorrect(s, e);
  }

  // ---- env_free ----

  /** Clearing a directory entry and dropping its table. */
  function DropTable(s: VM, e: nat, d: nat): VM {
    if e < |s.mem.dirs| && s.mem.dirs[e].Some? && Table(s.mem, e, d).Some? then
      VM(Store(s.mem, s.mem.dirs[e].value, d, 0), Decref(s.books, Table(s.mem, e, d).value.ppn))
    else s
  }

  lemma DropTableCorrect(s: VM, e: nat, d: nat)
    requires Inv(s) && e < NENV && d < UPDX && TableRef(e, d) in G(s)
    requires forall t :: 0 <= t < NENTRIES ==> PageRef(e, d, t) !in G(s)
    ensures var s' := DropTable(s, e, d);
            && Inv(s') && G(s') == G(s) - {TableRef(e, d)} && SameBut(s.mem, s'.mem, {TableRef(e, d)})
            && s'.mem.dirs == s.mem.dirs
            && s'.books.flight == s.books.flight && s'.books.reserved == s.books.reserved
  {
    ClearPde(s.mem, e, d);
    DropKeepsBalance(G(s), s.books, TableRef(e, d));
  }

  /** Forgetting the directory itself. */
  function DropDir(s: VM, e: nat): VM {
    if e < |s.mem.dirs| && s.mem.dirs[e].Some? then
      VM(s.mem.(dirs := s.mem.dirs[e := None]), Decref(s.books, s.mem.dirs[e].value))
    else s
  }

  lemma DropDirCorrect(s: VM, e: nat)
    requires Inv(s) && e < NENV && DirRef(e) in G(s)
    requires forall d :: 0 <= d < UPDX ==> TableRef(e, d) !in G(s)
    ensures var s' := DropDir(s, e);
            && Inv(s') && G(s') == G(s) - {DirRef(e)} && SameBut(s.mem, s'.mem, {DirRef(e)})
            && s'.mem.dirs == s.mem.dirs[e := None]
            && s'.books.flight == s.books.flight && s'.books.reserved == s.books.reserved
  {
    hide RefsTo, Distinct, Sound;
    ClearDir(s.mem, e);
    DropKeepsBalance(G(s), s.books, DirRef(e));
  }

  lemma BootInBounds(s: VM)
    requires Inv(s)
    ensures |s.mem.dirs| == NENV + 1 && s.mem.dirs[BOOT].Some? && s.mem.dirs[BOOT].value < |s.mem.frames|
    ensures |s.mem.frames[s.mem.dirs[BOOT].value]| == NENTRIES
  {
    assert DirRef(BOOT) in G(s);
  }

  /** The page of a directory or of a table is counted and not free. */
  lemma DirInBounds(s: VM, e: nat)
    requires Inv(s) && e < NENV && s.mem.dirs[e].Some?
    ensures DirRef(e) in G(s)
    ensures var p := s.mem.dirs[e].value;
            p < |s.books.count| && s.books.count[p] > 0 && p !in s.books.free
  {
    assert DirRef(e) in RefsTo(G(s), s.mem.dirs[e].value);
  }

  lemma TableInBounds(s: VM, e: nat, d: nat)
    requires Inv(s) && e < NENV && TableRef(e, d) in G(s)
    ensures Table(s.mem, e, d) == Some(G(s)[TableRef(e, d)])
    ensures s.mem.dirs[e].Some? && s.mem.dirs[e].value < |s.mem.frames|
    ensures |s.mem.frames[s.mem.dirs[e].value]| == NENTRIES
    ensures var p := G(s)[TableRef(e, d)].ppn;
            p < |s.books.count| && s.books.count[p] > 0 && p !in s.books.free
  {
    assert DirRef(e) in G(s);
    assert TableRef(e, d) in RefsTo(G(s), G(s)[TableRef(e, d)].ppn);
  }

  lemma TableInGraph(m: Mem, e: nat, d: nat)
    requires OwnsPdx(e, d) && Table(m, e, d).Some?
    ensures TableRef(e, d) in GraphOf(m) && GraphOf(m)[TableRef(e, d)] == Table(m, e, d).value
  {
    assert Target(m, TableRef(e, d)) == Table(m, e, d);
  }

  lemma DirEntryInBounds(s: VM, e: nat, d: nat)
    requires Inv(s) && e < NENV && d < UPDX && s.mem.dirs[e].Some?
    ensures s.mem.dirs[e].value < |s.mem.frames| && |s.mem.frames[s.mem.dirs[e].value]| == NENTRIES
    ensures Table(s.mem, e, d) == EntryOf(s.mem.frames[s.mem.dirs[e].value][d])
    ensures TableRef(e, d) in G(s) <==> Table(s.mem, e, d).Some?
  {
    assert DirRef(e) in G(s);
    assert Target(s.mem, TableRef(e, d)) == Table(s.mem, e, d);
  }

  lemma EntryInBounds(s: VM, e: nat, d: nat, t: nat)
    requires Inv(s) && e < NENV && d < UPDX && t < NENTRIES && Table(s.mem, e, d).Some?
    ensures var f := Table(s.mem, e, d).value.ppn;
            && f < |s.mem.frames| && |s.mem.frames[f]| == NENTRIES
            && (PageRef(e, d, t) in G(s) <==> Present(s.mem.frames[f][t]))
  {
    TableInGraph(s.mem, e, d);
    assert Target(s.mem, PageRef(e, d, t)) == EntryOf(Word(s.mem, Table(s.mem, e, d).value.ppn, t));
  }

  /** page_remove at a known entry leaves the table in place. */
  lemma RemoveEntry(s: VM, e: nat, d: nat, t: nat)
    requires Inv(s) && e < NENV && d < UPDX && t < NENTRIES && PageRef(e, d, t) in G(s)
    ensures Rooted(s.mem, e, PGADDR(d, t, 0))
    ensures var s' := Remove(s, e, PGADDR(d, t, 0));
            && Inv(s') && G(s') == G(s) - {PageRef(e, d, t)} && SameBut(s.mem, s'.mem, {PageRef(e, d, t)})
            && Table(s'.mem, e, d) == Table(s.mem, e, d) && |s'.books.count| == |s.books.count|
  {
    AddressJoin(d, t, 0);
    EraseCorrect(s, PageRef(e, d, t));
    var s' := Remove(s, e, PGADDR(d, t, 0));
    assert Target(s'.mem, TableRef(e, d)) == Target(s.mem, TableRef(e, d));
  }
}
