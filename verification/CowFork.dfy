/** Copy-on-write fork (lib/fork.c over the page system calls).

    Environments run interleaved, one system call or memory access at a time.
    The pages of [UTEXT, UXSTACKTOP - PGSIZE) are shared copy-on-write; what is
    proved is that this cannot be told apart from private memory.
 */
module CowFork {
  import opened Mmu
  import opened Queue
  import opened PageGraph

  const UTEXT_VPN: nat := 2048          // VPN(UTEXT)
  const UXSTACK_VPN: nat := 977919      // VPN(UXSTACKTOP - PGSIZE)
  const PFTEMP_VPN: nat := 2047         // VPN(PFTEMP)

  const PERM_RW: nat := 7               // PTE_U|PTE_W|PTE_P
  const PERM_RO: nat := 5               // PTE_U|PTE_P
  const PERM_COW: nat := 0x805          // PTE_COW|PTE_U|PTE_P

  /** The addresses behind these numbers: fork visits the pages of [UTEXT, UTOP -
      PGSIZE), the exception stack lies above them and the temporary page below. */
  lemma PageNumbers(va: nat)
    requires va % PGSIZE == 0
    ensures UTEXT_VPN <= VPN(va) < UXSTACK_VPN <==> 2 * PTSIZE <= va < UTOP - PGSIZE
    ensures VPN(UTOP - PGSIZE) == UXSTACK_VPN && VPN(2 * PTSIZE - PGSIZE) == PFTEMP_VPN
  {
  }

  /** The handler pgfault of one environment, by system call; `v` is the page
      that faulted.  The copy is made word by word. */
  datatype Fault = Copying(v: nat, words: nat) | Moved(v: nat)

  /** fork of one environment: the pages below `next` have been visited. */
  datatype Forking = Forking(child: nat, next: nat)

  datatype Proc =
    | Absent
    | Embryo                            // made by sys_exofork, not runnable yet
    | Live(fork: Option<Forking>, fault: Option<Fault>)

  datatype Sys = Sys(space: Spaces, data: map<nat, Frame>, procs: Procs)

  predicate InRange(k: VPage) { UTEXT_VPN <= k.vpn < UXSTACK_VPN }

  type Procs = map<nat, Proc>

  function ProcOf(ps: Procs, e: nat): Proc { if e in ps then ps[e] else Absent }

  function Temp(e: nat): VPage { VPage(e, PFTEMP_VPN) }

  /** A page that nothing refers to, as page_alloc hands out. */
  predicate Unmapped(space: Spaces, p: nat) {
    forall k :: k in space ==> space[k].ppn != p
  }

  datatype Step =
    | Write(env: nat, v: nat, i: nat, w: nat)   // a store that the hardware allows
    | Grow(env: nat, v: nat, p: nat)            // sys_page_alloc for oneself
    | FaultAlloc(env: nat, v: nat, p: nat)      // pgfault: sys_page_alloc(0, PFTEMP)
    | FaultCopy(env: nat)                       // pgfault: one word of memmove
    | FaultMove(env: nat)                       // pgfault: sys_page_map(0, PFTEMP, 0, addr)
    | FaultDone(env: nat)                       // pgfault: sys_page_unmap(0, PFTEMP)
    | ForkStart(env: nat, child: nat)           // sys_exofork
    | ForkPage(env: nat)                        // one turn of fork's loop: duppage
    | ForkEnd(env: nat, p: nat)                 // exception stack, status
    | Exit(env: nat)                            // env_destroy

  predicate Idle(ps: Procs, e: nat) { ProcOf(ps, e).Live? && ProcOf(ps, e).fault == None }

  predicate Maps(s: Sys, e: nat, v: nat) { VPage(e, v) in s.space }

  /** The test of pgfault: its panic needs a missing page table and, at the same
      time, an entry that is not copy-on-write. */
  predicate Refuses(table: bool, cow: bool) { !table && !cow }

  /** When a step can be taken, apart from the page it may need.  A mapped page
      has its page table. */
  predicate Ready(s: Sys, st: Step) {
    match st
    case Write(e, v, i, w) =>
      Idle(s.procs, e) && InRange(VPage(e, v)) && Maps(s, e, v) && Writable(s.space[VPage(e, v)].perm) && i < NENTRIES
    case Grow(e, v, _) =>
      Idle(s.procs, e) && InRange(VPage(e, v))
    case FaultAlloc(e, v, _) =>
      && Idle(s.procs, e) && InRange(VPage(e, v)) && Maps(s, e, v) && !Writable(s.space[VPage(e, v)].perm)
      && !Refuses(true, Cow(s.space[VPage(e, v)].perm))
    case FaultCopy(e) =>
      var pr := ProcOf(s.procs, e);
      pr.Live? && pr.fault.Some? && pr.fault.value.Copying? && pr.fault.value.words < NENTRIES
    case FaultMove(e) =>
      var pr := ProcOf(s.procs, e);
      pr.Live? && pr.fault.Some? && pr.fault.value.Copying? && pr.fault.value.words == NENTRIES
    case FaultDone(e) =>
      var pr := ProcOf(s.procs, e);
      pr.Live? && pr.fault.Some? && pr.fault.value.Moved?
    case ForkStart(e, c) =>
      Idle(s.procs, e) && ProcOf(s.procs, e).fork == None && ProcOf(s.procs, c) == Absent
    case ForkPage(e) =>
      Idle(s.procs, e) && ProcOf(s.procs, e).fork.Some? && ProcOf(s.procs, e).fork.value.next < UXSTACK_VPN
    case ForkEnd(e, _) =>
      Idle(s.procs, e) && ProcOf(s.procs, e).fork.Some? && ProcOf(s.procs, e).fork.value.next == UXSTACK_VPN
    case Exit(e) => ProcOf(s.procs, e).Live?
  }

  predicate Allocates(st: Step) { st.Grow? || st.FaultAlloc? || st.ForkEnd? }

  predicate Enabled(s: Sys, st: Step) {
    Ready(s, st) && (Allocates(st) ==> Unmapped(s.space, st.p))
  }

  /** duppage on page `v`, when it is mapped. */
  function Duppage(space: Spaces, e: nat, c: nat, v: nat): Spaces {
    var k := VPage(e, v);
    if k in space && User(space[k].perm) then
      var pte := space[k];
      if Cow(pte.perm) || Writable(pte.perm) then
        space[VPage(c, v) := Entry(pte.ppn, PERM_COW)][k := Entry(pte.ppn, PERM_COW)]
      else
        space[VPage(c, v) := Entry(pte.ppn, PERM_RO)]
    else space
  }

  function PageAt(s: Sys, k: VPage): nat { if k in s.space then s.space[k].ppn else 0 }

  function Content(s: Sys, k: VPage): Frame {
    if PageAt(s, k) in s.data then s.data[PageAt(s, k)] else []
  }

  function SetWord(page: Frame, i: nat, w: nat): Frame { if i < |page| then page[i := w] else page }

  function WordAt(page: Frame, i: nat): nat { if i < |page| then page[i] else 0 }

  function Do(s: Sys, st: Step): Sys
    requires Enabled(s, st)
  {
    match st
    case Write(e, v, i, w) =>
      var k := VPage(e, v);
      s.(data := s.data[PageAt(s, k) := SetWord(Content(s, k), i, w)])
    case Grow(e, v, p) =>
      s.(space := s.space[VPage(e, v) := Entry(p, PERM_RW)], data := s.data[p := Zeros()])
    case FaultAlloc(e, v, p) =>
      Sys(s.space[Temp(e) := Entry(p, PERM_RW)], s.data[p := Zeros()],
          s.procs[e := Live(s.procs[e].fork, Some(Copying(v, 0)))])
    case FaultCopy(e) =>
      var f := s.procs[e].fault.value;
      var w := WordAt(Content(s, VPage(e, f.v)), f.words);
      s.(data := s.data[PageAt(s, Temp(e)) := SetWord(Content(s, Temp(e)), f.words, w)],
         procs := s.procs[e := Live(s.procs[e].fork, Some(Copying(f.v, f.words + 1)))])
    case FaultMove(e) =>
      var f := s.procs[e].fault.value;
      s.(space := s.space[VPage(e, f.v) := Entry(PageAt(s, Temp(e)), PERM_RW)],
         procs := s.procs[e := Live(s.procs[e].fork, Some(Moved(f.v)))])
    case FaultDone(e) =>
      s.(space := s.space - {Temp(e)}, procs := s.procs[e := Live(s.procs[e].fork, None)])
    case ForkStart(e, c) =>
      s.(procs := s.procs[e := Live(Some(Forking(c, UTEXT_VPN)), None)][c := Embryo])
    case ForkPage(e) =>
      var f := s.procs[e].fork.value;
      s.(space := Duppage(s.space, e, f.child, f.next),
         procs := s.procs[e := Live(Some(Forking(f.child, f.next + 1)), None)])
    case ForkEnd(e, p) =>
      var c := s.procs[e].fork.value.child;
      Sys(s.space[VPage(c, UXSTACK_VPN) := Entry(p, PERM_RW)], s.data[p := Zeros()],
          s.procs[e := Live(None, None)][c := Live(None, None)])
    case Exit(e) =>
      s.(space := Without(s.space, e), procs := s.procs[e := Absent])
  }

  function Without(space: Spaces, e: nat): Spaces {
    map k | k in space && k.env != e :: space[k]
  }

  // ---- The invariant ----

  /** Every mapping is a user mapping and leads to a page of memory. */
  ghost predicate Backed(s: Sys) {
    forall k :: k in s.space ==>
      s.space[k].ppn in s.data && |s.data[s.space[k].ppn]| == NENTRIES && User(s.space[k].perm)
  }

  /** A physical page mapped more than once is writable nowhere. */
  ghost predicate NoSharedWrites(m: Spaces) {
    forall k, j :: k in m && j in m && k != j && InRange(k) && InRange(j) && m[k].ppn == m[j].ppn ==>
      !Writable(m[k].perm)
  }

  predicate MovedTo(ps: Procs, e: nat, v: nat) {
    ProcOf(ps, e).Live? && ProcOf(ps, e).fault == Some(Moved(v))
  }

  /** Outside the range only the temporary page and the exception stack are
      mapped, to pages of their own; while pgfault is between its last two calls
      the temporary page is also the new page. */
  ghost predicate Outside(m: Spaces, ps: Procs) {
    && (forall k :: k in m && !InRange(k) ==> k.vpn == PFTEMP_VPN || k.vpn == UXSTACK_VPN)
    && (forall k, j :: k in m && j in m && !InRange(k) && k != j && m[k].ppn == m[j].ppn ==>
          k == Temp(j.env) && MovedTo(ps, j.env, j.vpn))
  }

  /** The handler's progress: the page that faulted is still mapped and not
      writable, and the words copied so far agree with it. */
  ghost predicate Handler(s: Sys, e: nat) {
    var pr := ProcOf(s.procs, e);
    pr.Live? && pr.fault.Some? ==>
      var f := pr.fault.value;
      var original, copy := VPage(e, f.v), Temp(e);
      && copy in s.space && original in s.space && InRange(original)
      && (f.Moved? ==> PageAt(s, copy) == PageAt(s, original))
      && (f.Copying? ==>
            && f.words <= NENTRIES && !Writable(s.space[original].perm)
            && Same(Content(s, copy), Content(s, original), f.words))
  }

  /** The first `n` words agree. */
  ghost predicate Same(a: Frame, b: Frame, n: nat) {
    forall i :: 0 <= i < n ==> WordAt(a, i) == WordAt(b, i)
  }

  /** A child under construction has only the pages its parent has visited. */
  ghost predicate Parent(m: Spaces, ps: Procs, e: nat) {
    var pr := ProcOf(ps, e);
    pr.Live? && pr.fork.Some? ==>
      var f := pr.fork.value;
      && UTEXT_VPN <= f.next <= UXSTACK_VPN && f.child != e && ProcOf(ps, f.child) == Embryo
      && (forall k :: k in m && k.env == f.child ==> UTEXT_VPN <= k.vpn < f.next)
  }

  function ChildOf(ps: Procs, e: nat): Option<nat> {
    var pr := ProcOf(ps, e);
    if pr.Live? && pr.fork.Some? then Some(pr.fork.value.child) else None
  }

  ghost predicate Family(m: Spaces, ps: Procs) {
    && (forall e :: Parent(m, ps, e))
    && (forall e, e' :: e != e' && ChildOf(ps, e).Some? ==> ChildOf(ps, e) != ChildOf(ps, e'))
    && (forall k :: k in m ==> ProcOf(ps, k.env) != Absent)
    && (forall k :: k in m && k == Temp(k.env) ==> ProcOf(ps, k.env).Live? && ProcOf(ps, k.env).fault.Some?)
  }

  ghost predicate Handlers(s: Sys) {
    forall e :: Handler(s, e)
  }

  ghost predicate Inv(s: Sys) {
    Backed(s) && NoSharedWrites(s.space) && Outside(s.space, s.procs) && Family(s.space, s.procs) && Handlers(s)
  }

  /** One environment whose pages are mapped once each. */
  ghost predicate Started(s: Sys, e: nat) {
    && s.procs == map[e := Live(None, None)] && Backed(s)
    && (forall k :: k in s.space ==> k.env == e && (InRange(k) || k.vpn == UXSTACK_VPN))
    && (forall k, j :: k in s.space && j in s.space && k != j ==> s.space[k].ppn != s.space[j].ppn)
  }

  /** So the invariant holds when the first environment starts. */
  lemma StartKeepsInv(s: Sys, e: nat)
    requires Started(s, e)
    ensures Inv(s)
  {
    forall x ensures Handler(s, x) && Parent(s.space, s.procs, x) && ChildOf(s.procs, x) == None {
    }
  }

  // ---- Private memory ----

  /** What every environment reads in its range. */
  function View(s: Sys): map<VPage, Frame> {
    map k | k in s.space && InRange(k) :: Content(s, k)
  }

  /** The same run on private memories. */
  datatype Event =
    | Quiet
    | Stores(k: VPage, i: nat, w: nat)
    | Zeroes(k: VPage)
    | Copies(from: VPage, to: VPage)
    | Ends(env: nat)

  function EventOf(s: Sys, st: Step): Event
    requires Enabled(s, st)
  {
    match st
    case Write(e, v, i, w) => Stores(VPage(e, v), i, w)
    case Grow(e, v, p) => Zeroes(VPage(e, v))
    case ForkPage(e) =>
      var f := s.procs[e].fork.value;
      if Maps(s, e, f.next) && User(s.space[VPage(e, f.next)].perm)
      then Copies(VPage(e, f.next), VPage(f.child, f.next)) else Quiet
    case Exit(e) => Ends(e)
    case _ => Quiet
  }

  function Apply(m: map<VPage, Frame>, ev: Event): map<VPage, Frame> {
    match ev
    case Quiet => m
    case Stores(k, i, w) =>
      if k in m then m[k := SetWord(m[k], i, w)] else m
    case Zeroes(k) => m[k := Zeros()]
    case Copies(from, to) => if from in m then m[to := m[from]] else m
    case Ends(e) => map k | k in m && k.env != e :: m[k]
  }

  // ---- Each step refines the private memories ----

  /** The key to isolation: a writable page in the range is mapped nowhere else. */
  lemma SoleMapping(s: Sys, k: VPage, j: VPage)
    requires NoSharedWrites(s.space) && Outside(s.space, s.procs) && k in s.space && j in s.space
    requires j != k && InRange(k)
    requires Writable(s.space[k].perm) && Idle(s.procs, k.env)
    ensures s.space[j].ppn != s.space[k].ppn
  {
  }

  /** A handler does not notice a step that leaves its two pages alone. */
  lemma HandlerFrame(s: Sys, s': Sys, e: nat)
    requires Handler(s, e) && ProcOf(s'.procs, e) == ProcOf(s.procs, e)
    requires forall j: VPage :: j.env == e && j in s.space ==>
               j in s'.space && s'.space[j] == s.space[j] && Content(s', j) == Content(s, j)
    ensures Handler(s', e)
  {
  }

  lemma NoHandler(s: Sys, e: nat)
    requires Idle(s.procs, e) || !ProcOf(s.procs, e).Live?
    ensures Handler(s, e)
  {
  }

  /** The handlers of everybody but `e` go on as before. */
  lemma OtherHandlers(s: Sys, s': Sys, e: nat)
    requires Handlers(s) && Handler(s', e)
    requires forall e' :: e' != e ==>
               ProcOf(s'.procs, e') == ProcOf(s.procs, e') || Idle(s'.procs, e') || !ProcOf(s'.procs, e').Live?
    requires forall j: VPage :: j.env != e && j in s.space ==>
               j in s'.space && s'.space[j] == s.space[j] && Content(s', j) == Content(s, j)
    ensures Handlers(s')
  {
    forall e' ensures Handler(s', e') {
      assert Handler(s, e');
      if Idle(s'.procs, e') || !ProcOf(s'.procs, e').Live? {
        NoHandler(s', e');
      } else if e' != e {
        HandlerFrame(s, s', e');
      }
    }
  }

  /** A step of `e` that changes only its own pages and its own handler. */
  lemma OwnFamily(m: Spaces, ps: Procs, m': Spaces, e: nat, fault: Option<Fault>)
    requires Family(m, ps) && ProcOf(ps, e).Live?
    requires forall k :: k in m' ==> k in m || k.env == e
    requires Temp(e) in m' ==> fault.Some?
    ensures Family(m', ps[e := Live(ps[e].fork, fault)])
  {
    var ps' := ps[e := Live(ps[e].fork, fault)];
    assert forall e' :: ChildOf(ps', e') == ChildOf(ps, e');
    forall e' ensures Parent(m', ps', e') {
      assert Parent(m, ps, e');
    }
  }

  /** Mapping a fresh page shares nothing. */
  lemma FreshMapping(m: Spaces, ps: Procs, ps': Procs, k: VPage, p: nat, perm: nat)
    requires NoSharedWrites(m) && Outside(m, ps) && Unmapped(m, p)
    requires InRange(k) || k.vpn == PFTEMP_VPN || k.vpn == UXSTACK_VPN
    requires forall e, v :: MovedTo(ps, e, v) ==> MovedTo(ps', e, v)
    ensures NoSharedWrites(m[k := Entry(p, perm)]) && Outside(m[k := Entry(p, perm)], ps')
  {
  }

  lemma WriteStep(s: Sys, e: nat, v: nat, i: nat, w: nat)
    requires Inv(s) && Enabled(s, Write(e, v, i, w))
    ensures var s' := Do(s, Write(e, v, i, w));
            Inv(s') && View(s') == Apply(View(s), Stores(VPage(e, v), i, w))
  {
    hide NoSharedWrites, Outside, Family, Handler;
    var k := VPage(e, v);
    var s' := Do(s, Write(e, v, i, w));
    forall j | j in s.space && j != k ensures Content(s', j) == Content(s, j) {
      SoleMapping(s, k, j);
    }
    NoHandler(s', e);
    OtherHandlers(s, s', e);
  }

  /** A page that nothing refers to can be filled without anybody noticing. */
  lemma FreshPage(s: Sys, s': Sys, p: nat)
    requires Unmapped(s.space, p) && forall q :: q in s.data && q != p ==> q in s'.data && s'.data[q] == s.data[q]
    requires Backed(s)
    ensures forall j :: j in s.space && j in s'.space && s'.space[j] == s.space[j] ==> Content(s', j) == Content(s, j)
  {
  }

  lemma GrowStep(s: Sys, e: nat, v: nat, p: nat)
    requires Inv(s) && Enabled(s, Grow(e, v, p))
    ensures var s' := Do(s, Grow(e, v, p));
            Inv(s') && View(s') == Apply(View(s), Zeroes(VPage(e, v)))
  {
    hide NoSharedWrites, Outside, Family, Handler, Unmapped, View;
    var s' := Do(s, Grow(e, v, p));
    FreshPage(s, s', p);
    GrowView(s, s', VPage(e, v), p);
    FreshMapping(s.space, s.procs, s.procs, VPage(e, v), p, PERM_RW);
    assert s.procs == s.procs[e := Live(s.procs[e].fork, None)];
    OwnTempUnmapped(s.space, s.procs, e);
    OwnFamily(s.space, s.procs, s'.space, e, None);
    NoHandler(s', e);
    OtherHandlers(s, s', e);
  }

  lemma GrowView(s: Sys, s': Sys, k: VPage, p: nat)
    requires InRange(k) && s'.space == s.space[k := Entry(p, PERM_RW)] && p in s'.data && s'.data[p] == Zeros()
    requires forall j :: j in s.space && j != k ==> Content(s', j) == Content(s, j)
    ensures View(s') == Apply(View(s), Zeroes(k))
  {
  }

  lemma OwnTempUnmapped(m: Spaces, ps: Procs, e: nat)
    requires Family(m, ps) && Idle(ps, e)
    ensures Temp(e) !in m
  {
  }

  lemma FaultAllocStep(s: Sys, e: nat, v: nat, p: nat)
    requires Inv(s) && Enabled(s, FaultAlloc(e, v, p))
    ensures var s' := Do(s, FaultAlloc(e, v, p));
            Inv(s') && View(s') == View(s)
  {
    hide NoSharedWrites, Outside, Family, Unmapped;
    var s' := Do(s, FaultAlloc(e, v, p));
    FreshPage(s, s', p);
    FreshMapping(s.space, s.procs, s'.procs, Temp(e), p, PERM_RW);
    OwnFamily(s.space, s.procs, s'.space, e, Some(Copying(v, 0)));
    OtherHandlers(s, s', e);
  }

  /** The temporary page is its own while the copy is made. */
  lemma TempAlone(s: Sys, e: nat, j: VPage)
    requires Outside(s.space, s.procs) && Temp(e) in s.space && j in s.space && j != Temp(e)
    requires ProcOf(s.procs, e).Live? && ProcOf(s.procs, e).fault.Some? && ProcOf(s.procs, e).fault.value.Copying?
    ensures s.space[j].ppn != s.space[Temp(e)].ppn
  {
  }

  lemma FaultCopyStep(s: Sys, e: nat)
    requires Inv(s) && Enabled(s, FaultCopy(e))
    ensures var s' := Do(s, FaultCopy(e));
            Inv(s') && View(s') == View(s)
  {
    hide NoSharedWrites, Outside, Family;
    var s' := Do(s, FaultCopy(e));
    assert Handler(s, e);
    forall j | j in s.space && j != Temp(e) ensures Content(s', j) == Content(s, j) {
      TempAlone(s, e, j);
    }
    SameMoves(s.space, s.procs, s'.procs);
    OwnFamily(s.space, s.procs, s'.space, e, s'.procs[e].fault);
    OtherHandlers(s, s', e);
  }

  lemma SameMoves(m: Spaces, ps: Procs, ps': Procs)
    requires Outside(m, ps) && forall e, v :: MovedTo(ps, e, v) ==> MovedTo(ps', e, v)
    ensures Outside(m, ps')
  {
  }

  lemma FaultMoveStep(s: Sys, e: nat)
    requires Inv(s) && Enabled(s, FaultMove(e))
    ensures var s' := Do(s, FaultMove(e));
            Inv(s') && View(s') == View(s)
  {
    hide NoSharedWrites, Outside, Family;
    var s' := Do(s, FaultMove(e));
    assert Handler(s, e);
    SameWhole(Content(s, Temp(e)), Content(s, VPage(e, s.procs[e].fault.value.v)));
    MoveShape(s, e);
    OwnFamily(s.space, s.procs, s'.space, e, s'.procs[e].fault);
    OtherHandlers(s, s', e);
  }

  lemma MoveShape(s: Sys, e: nat)
    requires Inv(s) && Enabled(s, FaultMove(e))
    ensures var s' := Do(s, FaultMove(e));
            NoSharedWrites(s'.space) && Outside(s'.space, s'.procs)
  {
    hide Family, Backed, Same, Outside, NoSharedWrites;
    assert Handler(s, e);
    forall j | j in s.space && j != Temp(e) ensures s.space[j].ppn != s.space[Temp(e)].ppn {
      TempAlone(s, e, j);
    }
    MoveNoShare(s.space, e, s.procs[e].fault.value.v);
    MoveOutside(s.space, s.procs, Do(s, FaultMove(e)).procs, e, s.procs[e].fault.value.v);
  }

  lemma MoveNoShare(m: Spaces, e: nat, v: nat)
    requires NoSharedWrites(m) && Temp(e) in m
    requires forall j :: j in m && j != Temp(e) ==> m[j].ppn != m[Temp(e)].ppn
    ensures NoSharedWrites(m[VPage(e, v) := Entry(m[Temp(e)].ppn, PERM_RW)])
  {
  }

  lemma MoveOutside(m: Spaces, ps: Procs, ps': Procs, e: nat, v: nat)
    requires Outside(m, ps) && Temp(e) in m && InRange(VPage(e, v)) && MovedTo(ps', e, v)
    requires forall j :: j in m && j != Temp(e) ==> m[j].ppn != m[Temp(e)].ppn
    requires forall e', x :: e' != e ==> (MovedTo(ps', e', x) <==> MovedTo(ps, e', x))
    ensures Outside(m[VPage(e, v) := Entry(m[Temp(e)].ppn, PERM_RW)], ps')
  {
    hide MovedTo;
  }

  lemma SameWhole(a: Frame, b: Frame)
    requires |a| == |b| == NENTRIES && Same(a, b, NENTRIES)
    ensures a == b
  {
    assert forall i :: 0 <= i < |a| ==> a[i] == WordAt(a, i) && b[i] == WordAt(b, i);
  }

  lemma FaultDoneStep(s: Sys, e: nat)
    requires Inv(s) && Enabled(s, FaultDone(e))
    ensures var s' := Do(s, FaultDone(e));
            Inv(s') && View(s') == View(s)
  {
    hide NoSharedWrites, Outside, Family, Handler;
    var s' := Do(s, FaultDone(e));
    FewerMappings(s.space, s.procs, s'.space, s'.procs, e);
    OwnFamily(s.space, s.procs, s'.space, e, None);
    NoHandler(s', e);
    OtherHandlers(s, s', e);
  }

  /** Removing mappings of `e`, its temporary page among them. */
  lemma FewerMappings(m: Spaces, ps: Procs, m': Spaces, ps': Procs, e: nat)
    requires NoSharedWrites(m) && Outside(m, ps)
    requires forall k :: k in m' ==> k in m && m'[k] == m[k] && k != Temp(e)
    requires forall e', v :: e' != e && MovedTo(ps, e', v) ==> MovedTo(ps', e', v)
    ensures NoSharedWrites(m') && Outside(m', ps')
  {
  }

  lemma Children(m: Spaces, ps: Procs)
    requires Family(m, ps)
    ensures forall e :: ChildOf(ps, e).Some? ==> ProcOf(ps, ChildOf(ps, e).value) == Embryo
  {
    forall e | ChildOf(ps, e).Some? ensures ProcOf(ps, ChildOf(ps, e).value) == Embryo {
      assert Parent(m, ps, e);
    }
  }

  lemma ForkStartStep(s: Sys, e: nat, c: nat)
    requires Inv(s) && Enabled(s, ForkStart(e, c))
    ensures var s' := Do(s, ForkStart(e, c));
            Inv(s') && View(s') == View(s)
  {
    hide NoSharedWrites, Outside, Handler;
    var s' := Do(s, ForkStart(e, c));
    SameMoves(s.space, s.procs, s'.procs);
    assert forall e' :: ChildOf(s'.procs, e') == if e' == e then Some(c) else ChildOf(s.procs, e');
    Children(s.space, s.procs);
    forall e' ensures Parent(s'.space, s'.procs, e') {
      assert Parent(s.space, s.procs, e');
    }
    NoHandler(s', e);
    OtherHandlers(s, s', e);
  }

  lemma ForkPageStep(s: Sys, e: nat)
    requires Inv(s) && Enabled(s, ForkPage(e))
    ensures var s' := Do(s, ForkPage(e));
            Inv(s') && View(s') == Apply(View(s), EventOf(s, ForkPage(e)))
  {
    hide NoSharedWrites, Outside, Handler, Family, View;
    var s' := Do(s, ForkPage(e));
    ForkPageShape(s, e);
    ForkPageFamily(s, e);
    ForkPageView(s, e);
    NoHandler(s', e);
    OtherHandlers(s, s', e);
  }

  lemma ForkPageView(s: Sys, e: nat)
    requires Inv(s) && Enabled(s, ForkPage(e))
    ensures View(Do(s, ForkPage(e))) == Apply(View(s), EventOf(s, ForkPage(e)))
  {
    hide NoSharedWrites, Outside, Handlers, Family;
    ForkPageFamily(s, e);
  }

  lemma ForkPageShape(s: Sys, e: nat)
    requires Inv(s) && Enabled(s, ForkPage(e))
    ensures var s' := Do(s, ForkPage(e));
            NoSharedWrites(s'.space) && Outside(s'.space, s'.procs) && Backed(s')
  {
    hide Handler, Family, NoSharedWrites, Outside;
    ForkPageFamily(s, e);
    var s' := Do(s, ForkPage(e));
    var f := s.procs[e].fork.value;
    if s'.space != s.space {
      DuppageShares(s.space, s.procs, e, f.child, f.next);
    }
    SameMoves(s'.space, s.procs, s'.procs);
  }

  /** duppage adds an alias of a page and leaves the page writable for nobody. */
  lemma DuppageShares(m: Spaces, ps: Procs, e: nat, c: nat, v: nat)
    requires NoSharedWrites(m) && Outside(m, ps) && Idle(ps, e)
    requires InRange(VPage(e, v)) && VPage(c, v) !in m && c != e
    ensures NoSharedWrites(Duppage(m, e, c, v)) && Outside(Duppage(m, e, c, v), ps)
  {
    var k := VPage(e, v);
    if k in m && User(m[k].perm) {
      forall j | j in m && j != k && m[j].ppn == m[k].ppn
        ensures InRange(j) && !Writable(m[j].perm) && !Writable(m[k].perm)
      {
        assert !InRange(j) ==> j == Temp(e) && MovedTo(ps, e, v);
      }
    }
  }

  lemma WorkingPerm()
    ensures Present(PERM_RW) && User(PERM_RW) && Writable(PERM_RW) && !Cow(PERM_RW)
  {
  }

  /** What becomes of a page that duppage visits: both map it, present, for users and
      not for writing.  If it was writable or copy-on-write, it is copy-on-write in
      both; otherwise it is not in the child, and unchanged in the parent. */
  ghost predicate Marked(before: Entry, parent: Entry, child: Entry) {
    && parent.ppn == child.ppn == before.ppn
    && Present(child.perm) && User(child.perm) && !Writable(child.perm) && !Writable(parent.perm)
    && (if Writable(before.perm) || Cow(before.perm)
        then Cow(child.perm) && Cow(parent.perm) && Present(parent.perm) && User(parent.perm)
        else !Cow(child.perm) && parent == before)
  }

  lemma DuppageMarks(m: Spaces, e: nat, c: nat, v: nat)
    requires c != e
    ensures var m' := Duppage(m, e, c, v);
            if VPage(e, v) in m && User(m[VPage(e, v)].perm) then
              && VPage(e, v) in m' && VPage(c, v) in m' && Marked(m[VPage(e, v)], m'[VPage(e, v)], m'[VPage(c, v)])
              && m' - {VPage(e, v), VPage(c, v)} == m - {VPage(e, v), VPage(c, v)}
            else m' == m
  {
  }

  lemma DuppageKeys(m: Spaces, e: nat, c: nat, v: nat)
    ensures forall k :: k in Duppage(m, e, c, v) ==> k in m || (k == VPage(c, v) && VPage(e, v) in m)
  {
  }

  lemma ForkPageTarget(s: Sys, e: nat)
    requires Inv(s) && Enabled(s, ForkPage(e))
    ensures InRange(VPage(e, s.procs[e].fork.value.next)) && s.procs[e].fork.value.next != PFTEMP_VPN
  {
    hide Handlers, NoSharedWrites, Outside, Backed;
    assert Parent(s.space, s.procs, e);
  }

  lemma ForkPageFamily(s: Sys, e: nat)
    requires Inv(s) && Enabled(s, ForkPage(e))
    ensures var s' := Do(s, ForkPage(e));
            Family(s'.space, s'.procs)
            && InRange(VPage(e, s.procs[e].fork.value.next)) && s.procs[e].fork.value.child != e
            && VPage(s.procs[e].fork.value.child, s.procs[e].fork.value.next) !in s.space
            && ProcOf(s.procs, s.procs[e].fork.value.child) == Embryo
  {
    hide Handlers, NoSharedWrites, Outside, Backed, Duppage, InRange;
    var s' := Do(s, ForkPage(e));
    ForkPageTarget(s, e);
    var f := s.procs[e].fork.value;
    DuppageKeys(s.space, e, f.child, f.next);
    assert Parent(s.space, s.procs, e);
    assert forall e' :: ChildOf(s'.procs, e') == ChildOf(s.procs, e');
    forall e' ensures Parent(s'.space, s'.procs, e') {
      assert Parent(s.space, s.procs, e');
      assert e' != e ==> ChildOf(s.procs, e') != ChildOf(s.procs, e);
    }
  }

  lemma ForkEndStep(s: Sys, e: nat, p: nat)
    requires Inv(s) && Enabled(s, ForkEnd(e, p))
    ensures var s' := Do(s, ForkEnd(e, p));
            Inv(s') && View(s') == View(s)
  {
    hide NoSharedWrites, Outside, Handler, Unmapped, Family;
    var s' := Do(s, ForkEnd(e, p));
    ForkEndFamily(s, e, p);
    FreshPage(s, s', p);
    FreshMapping(s.space, s.procs, s'.procs, VPage(s.procs[e].fork.value.child, UXSTACK_VPN), p, PERM_RW);
    NoHandler(s', e);
    OtherHandlers(s, s', e);
  }

  lemma ForkEndFamily(s: Sys, e: nat, p: nat)
    requires Inv(s) && Enabled(s, ForkEnd(e, p))
    ensures var s' := Do(s, ForkEnd(e, p));
            Family(s'.space, s'.procs) && s.procs[e].fork.value.child != e
            && ProcOf(s.procs, s.procs[e].fork.value.child) == Embryo
            && VPage(s.procs[e].fork.value.child, UXSTACK_VPN) !in s.space
  {
    hide Handler, NoSharedWrites, Outside;
    var s' := Do(s, ForkEnd(e, p));
    assert Parent(s.space, s.procs, e);
    Children(s.space, s.procs);
    assert forall e' :: ChildOf(s'.procs, e') == if e' == e then None else ChildOf(s.procs, e');
    forall e' ensures Parent(s'.space, s'.procs, e') {
      assert Parent(s.space, s.procs, e');
      assert e' != e ==> ChildOf(s.procs, e') != ChildOf(s.procs, e);
    }
  }

  lemma ExitFamily(s: Sys, e: nat)
    requires Inv(s) && Enabled(s, Exit(e))
    ensures var s' := Do(s, Exit(e)); Family(s'.space, s'.procs)
  {
    hide NoSharedWrites, Outside, Handlers;
    var s' := Do(s, Exit(e));
    Children(s.space, s.procs);
    assert forall e' :: ChildOf(s'.procs, e') == if e' == e then None else ChildOf(s.procs, e');
    forall e' ensures Parent(s'.space, s'.procs, e') {
      assert Parent(s.space, s.procs, e');
    }
  }

  lemma ExitStep(s: Sys, e: nat)
    requires Inv(s) && Enabled(s, Exit(e))
    ensures var s' := Do(s, Exit(e));
            Inv(s') && View(s') == Apply(View(s), Ends(e))
  {
    hide NoSharedWrites, Outside, Handler, Family;
    var s' := Do(s, Exit(e));
    FewerMappings(s.space, s.procs, s'.space, s'.procs, e);
    ExitFamily(s, e);
    NoHandler(s', e);
    OtherHandlers(s, s', e);
  }

  // ---- Whole runs ----

  /** Every step of the system is the corresponding step on private memories. */
  lemma StepRefines(s: Sys, st: Step)
    requires Inv(s) && Enabled(s, st)
    ensures Inv(Do(s, st))
    ensures View(Do(s, st)) == Apply(View(s), EventOf(s, st))
  {
    hide Inv, Do, View, Enabled;
    match st {
      case Write(e, v, i, w) => WriteStep(s, e, v, i, w);
      case Grow(e, v, p) => GrowStep(s, e, v, p);
      case FaultAlloc(e, v, p) => FaultAllocStep(s, e, v, p);
      case FaultCopy(e) => FaultCopyStep(s, e);
      case FaultMove(e) => FaultMoveStep(s, e);
      case FaultDone(e) => FaultDoneStep(s, e);
      case ForkStart(e, c) => ForkStartStep(s, e, c);
      case ForkPage(e) => ForkPageStep(s, e);
      case ForkEnd(e, p) => ForkEndStep(s, e, p);
      case Exit(e) => ExitStep(s, e);
    }
  }

  /** A run: every step is enabled where it is taken. */
  ghost predicate CanRun(s: Sys, steps: seq<Step>)
    decreases |steps|
  {
    steps == [] || (Enabled(s, steps[0]) && CanRun(Do(s, steps[0]), steps[1..]))
  }

  function Run(s: Sys, steps: seq<Step>): Sys
    requires CanRun(s, steps)
    decreases |steps|
  {
    if steps == [] then s else Run(Do(s, steps[0]), steps[1..])
  }

  /** The same run on private memories. */
  ghost function RunPrivate(m: map<VPage, Frame>, s: Sys, steps: seq<Step>): map<VPage, Frame>
    requires CanRun(s, steps)
    decreases |steps|
  {
    if steps == [] then m
    else RunPrivate(Apply(m, EventOf(s, steps[0])), Do(s, steps[0]), steps[1..])
  }

  /** Copy-on-write refines private memory, over every interleaving: what the
      environments read at the end is what they would read if each had its own
      memory, and no page mapped twice is writable. */
  lemma {:induction false} RunRefines(s: Sys, steps: seq<Step>)
    requires Inv(s) && CanRun(s, steps)
    ensures Inv(Run(s, steps)) && NoSharedWrites(Run(s, steps).space)
    ensures View(Run(s, steps)) == RunPrivate(View(s), s, steps)
    decreases |steps|
  {
    if steps != [] {
      hide Do, Enabled, View;
      StepRefines(s, steps[0]);
      RunRefines(Do(s, steps[0]), steps[1..]);
    }
  }

  /** Isolation: a step of one environment never changes what another running
      environment reads. */
  lemma Isolation(s: Sys, st: Step, k: VPage)
    requires Inv(s) && Enabled(s, st) && k.env != st.env && ProcOf(s.procs, k.env).Live?
    ensures k in View(s) <==> k in View(Do(s, st))
    ensures k in View(s) ==> View(Do(s, st))[k] == View(s)[k]
  {
    hide View, Do, Inv;
    StepRefines(s, st);
    EventElsewhere(s, st, k, View(s));
  }

  lemma EventElsewhere(s: Sys, st: Step, k: VPage, m: map<VPage, Frame>)
    requires Inv(s) && Enabled(s, st) && k.env != st.env && ProcOf(s.procs, k.env).Live?
    ensures var m' := Apply(m, EventOf(s, st));
            (k in m <==> k in m') && (k in m ==> m'[k] == m[k])
  {
    hide Handlers, NoSharedWrites, Outside, Backed;
    if st.ForkPage? {
      assert Parent(s.space, s.procs, st.env);
    }
  }

  // ---- What pgfault serves ----

  /** The rest of pgfault when `i` words have been copied. */
  function HandlerFrom(e: nat, i: nat): seq<Step>
    decreases NENTRIES - i
  {
    if i < NENTRIES then [FaultCopy(e)] + HandlerFrom(e, i + 1) else [FaultMove(e), FaultDone(e)]
  }

  /** The steps of pgfault on a write fault at page `v`. */
  function HandlerSteps(e: nat, v: nat, p: nat): seq<Step> { [FaultAlloc(e, v, p)] + HandlerFrom(e, 0) }

  lemma RunNone(s: Sys)
    ensures CanRun(s, []) && Run(s, []) == s
  {
  }

  lemma RunTwo(s: Sys, a: Step, b: Step)
    ensures CanRun(s, [a, b]) <==> Enabled(s, a) && Enabled(Do(s, a), b)
    ensures CanRun(s, [a, b]) ==> Run(s, [a, b]) == Do(Do(s, a), b)
  {
    hide Do, Enabled, CanRun, Run;
    assert [a] + [b] == [a, b] && [b] + [] == [b];
    RunCons(s, a, [b]);
    if Enabled(s, a) {
      RunCons(Do(s, a), b, []);
      RunNone(Do(s, a));
      if Enabled(Do(s, a), b) {
        RunNone(Do(Do(s, a), b));
      }
    }
  }

  lemma RunCons(s: Sys, a: Step, rest: seq<Step>)
    ensures CanRun(s, [a] + rest) <==> Enabled(s, a) && CanRun(Do(s, a), rest)
    ensures CanRun(s, [a] + rest) ==> Run(s, [a] + rest) == Run(Do(s, a), rest)
  {
    hide Do, Enabled;
    assert ([a] + rest)[1..] == rest;
  }

  lemma {:induction false} HandlerFinishes(s: Sys, e: nat, v: nat, i: nat)
    requires ProcOf(s.procs, e).Live? && s.procs[e].fault == Some(Copying(v, i)) && i <= NENTRIES
    requires Temp(e) in s.space && v != PFTEMP_VPN
    ensures CanRun(s, HandlerFrom(e, i))
    ensures Run(s, HandlerFrom(e, i)).space == s.space[VPage(e, v) := Entry(PageAt(s, Temp(e)), PERM_RW)] - {Temp(e)}
    ensures Run(s, HandlerFrom(e, i)).procs == s.procs[e := Live(s.procs[e].fork, None)]
    decreases NENTRIES - i
  {
    hide CanRun, Run, Content;
    if i < NENTRIES {
      RunCons(s, FaultCopy(e), HandlerFrom(e, i + 1));
      HandlerFinishes(Do(s, FaultCopy(e)), e, v, i + 1);
    } else {
      RunTwo(s, FaultMove(e), FaultDone(e));
    }
  }

  /** A write to the page faults, or there is no page. */
  predicate WriteFaults(s: Sys, e: nat, v: nat) {
    Maps(s, e, v) ==> !Writable(s.space[VPage(e, v)].perm)
  }

  /** pgfault runs to its end and leaves the page writable. */
  ghost predicate Served(s: Sys, e: nat, v: nat, p: nat) {
    var steps := HandlerSteps(e, v, p);
    CanRun(s, steps) && Maps(Run(s, steps), e, v) && Writable(Run(s, steps).space[VPage(e, v)].perm)
  }

  /** A write fault is served if and only if the page is mapped, whatever the
      comment says about copy-on-write; its new page is the one allocated. */
  lemma ServedExactly(s: Sys, e: nat, v: nat, p: nat)
    requires Inv(s) && Idle(s.procs, e) && InRange(VPage(e, v)) && Unmapped(s.space, p) && WriteFaults(s, e, v)
    ensures Served(s, e, v, p) <==> Maps(s, e, v)
    ensures Maps(s, e, v) ==> Run(s, HandlerSteps(e, v, p)).space == s.space[VPage(e, v) := Entry(p, PERM_RW)]
  {
    hide CanRun, Run, Inv, Unmapped;
    var alloc := FaultAlloc(e, v, p);
    RunCons(s, alloc, HandlerFrom(e, 0));
    if Maps(s, e, v) {
      NoTemp(s, e);
      var s1 := Do(s, alloc);
      HandlerFinishes(s1, e, v, 0);
      assert s1.space[VPage(e, v) := Entry(p, PERM_RW)] - {Temp(e)} == s.space[VPage(e, v) := Entry(p, PERM_RW)];
    }
  }

  /** So a page is made writable against the comment, which asks for a panic
      unless the page is copy-on-write, if and only if it is mapped for reading
      and not copy-on-write. */
  lemma ServedAgainstComment(s: Sys, e: nat, v: nat, p: nat)
    requires Inv(s) && Idle(s.procs, e) && InRange(VPage(e, v)) && Unmapped(s.space, p)
    ensures WriteFaults(s, e, v) && Served(s, e, v, p) && !Cow(s.space[VPage(e, v)].perm)
            <==> Maps(s, e, v) && !Writable(s.space[VPage(e, v)].perm) && !Cow(s.space[VPage(e, v)].perm)
  {
    hide Inv, Served, Unmapped;
    if WriteFaults(s, e, v) {
      ServedExactly(s, e, v, p);
    }
  }

  /** An environment with one read-only page. */
  function ReadOnlyPage(): Sys {
    Sys(map[VPage(0, UTEXT_VPN) := Entry(5, PERM_RO)], map[5 := Zeros()], map[0 := Live(None, None)])
  }

  lemma ReadOnlyServed()
    ensures Inv(ReadOnlyPage()) && WriteFaults(ReadOnlyPage(), 0, UTEXT_VPN)
    ensures !Cow(PERM_RO) && Served(ReadOnlyPage(), 0, UTEXT_VPN, 6)
  {
    hide Served, Inv;
    StartKeepsInv(ReadOnlyPage(), 0);
    ServedExactly(ReadOnlyPage(), 0, UTEXT_VPN, 6);
  }

  // ---- pgfault and fork, run without interruption ----

  predicate Copied(m: map<VPage, Frame>, e: nat, c: nat, next: nat, k: VPage) {
    k.env == c && k.vpn < next && VPage(e, k.vpn) in m
  }

  /** The pages of `e` below `next` copied to `c`. */
  ghost function WithCopies(m: map<VPage, Frame>, e: nat, c: nat, next: nat): (r: map<VPage, Frame>)
    ensures forall k :: k in r <==> k in m || Copied(m, e, c, next, k)
    ensures forall k :: k in r ==> r[k] == if Copied(m, e, c, next, k) then m[VPage(e, k.vpn)] else m[k]
  {
    var copies := set j | j in m && j.env == e && j.vpn < next :: VPage(c, j.vpn);
    assert forall k :: Copied(m, e, c, next, k) ==> VPage(e, k.vpn) in m && VPage(c, VPage(e, k.vpn).vpn) in copies;
    map k | k in m.Keys + copies ::
      if Copied(m, e, c, next, k) then m[VPage(e, k.vpn)] else m[k]
  }

  lemma NoTemp(s: Sys, e: nat)
    requires Inv(s) && Idle(s.procs, e)
    ensures Temp(e) !in s.space
  {
    OwnTempUnmapped(s.space, s.procs, e);
  }

  lemma NewChild(s: Sys, e: nat, c: nat)
    requires Inv(s) && Enabled(s, ForkStart(e, c))
    ensures View(s) == WithCopies(View(s), e, c, UTEXT_VPN) && c != e
    ensures View(Do(s, ForkStart(e, c))) == View(s)
  {
    hide Inv, WithCopies;
    ForkStartStep(s, e, c);
    NoCopies(View(s), e, c);
  }

  lemma ForkEndQuiet(s: Sys, e: nat, p: nat)
    requires Enabled(s, ForkEnd(e, p))
    ensures Apply(View(s), EventOf(s, ForkEnd(e, p))) == View(s)
  {
  }

  lemma NoCopies(m: map<VPage, Frame>, e: nat, c: nat)
    requires forall k :: k in m ==> k.vpn >= UTEXT_VPN
    ensures m == WithCopies(m, e, c, UTEXT_VPN)
  {
  }

  lemma CopyOne(s: Sys, m: map<VPage, Frame>, e: nat, c: nat, i: nat)
    requires Inv(s) && Enabled(s, ForkPage(e)) && s.procs[e].fork == Some(Forking(c, i)) && c != e
    requires View(s) == WithCopies(m, e, c, i)
    ensures Apply(View(s), EventOf(s, ForkPage(e))) == WithCopies(m, e, c, i + 1)
  {
    hide NoSharedWrites, Outside, Family, Handlers;
    ForkPageFamily(s, e);
    ExtendCopies(m, e, c, i);
    assert VPage(e, i) in View(s) <==> VPage(e, i) in s.space;
  }

  lemma ExtendCopies(m: map<VPage, Frame>, e: nat, c: nat, i: nat)
    requires c != e
    ensures var m' := WithCopies(m, e, c, i);
            && (VPage(e, i) in m <==> VPage(e, i) in m')
            && WithCopies(m, e, c, i + 1) ==
               (if VPage(e, i) in m then m'[VPage(c, i) := m'[VPage(e, i)]] else m')
  {
    var m' := WithCopies(m, e, c, i);
    forall k ensures Copied(m, e, c, i + 1, k) <==> Copied(m, e, c, i, k) || (k == VPage(c, i) && VPage(e, i) in m) {
    }
    assert WithCopies(m, e, c, i + 1) == (if VPage(e, i) in m then m'[VPage(c, i) := m'[VPage(e, i)]] else m');
  }

  lemma DupKeepsUnmapped(s: Sys, e: nat, p: nat)
    requires Enabled(s, ForkPage(e)) && Unmapped(s.space, p)
    ensures Unmapped(Do(s, ForkPage(e)).space, p)
  {
  }

  /** The pages of `e` below `next` are shared with `c`; nothing else has changed. */
  ghost predicate Shared(m0: Spaces, m: Spaces, e: nat, c: nat, next: nat) {
    && (forall v :: UTEXT_VPN <= v < next ==>
          if VPage(e, v) in m0
          then VPage(e, v) in m && VPage(c, v) in m && Marked(m0[VPage(e, v)], m[VPage(e, v)], m[VPage(c, v)])
          else VPage(e, v) !in m && VPage(c, v) !in m)
    && (forall k: VPage :: k.env == c && !(UTEXT_VPN <= k.vpn < next) ==> k !in m)
    && (forall k: VPage :: k.env != c && !(k.env == e && UTEXT_VPN <= k.vpn < next) ==>
          (k in m <==> k in m0) && (k in m0 ==> m[k] == m0[k]))
  }

  lemma SharedStart(s: Sys, e: nat, c: nat)
    requires Inv(s) && Enabled(s, ForkStart(e, c))
    ensures Shared(s.space, s.space, e, c, UTEXT_VPN)
    ensures forall k :: k in s.space ==> k.env != c
  {
    hide NoSharedWrites, Outside, Handlers, Backed;
  }

  lemma SharedStep(m0: Spaces, s: Sys, e: nat, c: nat, i: nat)
    requires Inv(s) && Enabled(s, ForkPage(e)) && s.procs[e].fork == Some(Forking(c, i)) && UTEXT_VPN <= i && c != e
    requires Shared(m0, s.space, e, c, i)
    ensures Shared(m0, Do(s, ForkPage(e)).space, e, c, i + 1)
  {
    hide NoSharedWrites, Outside, Handlers, Family, Duppage, Shared;
    DuppageMarks(s.space, e, c, i);
    assert VPage(e, i) in s.space ==> User(s.space[VPage(e, i)].perm);
    SharedMore(m0, s.space, Duppage(s.space, e, c, i), e, c, i);
  }

  lemma SharedMore(m0: Spaces, m: Spaces, m': Spaces, e: nat, c: nat, i: nat)
    requires Shared(m0, m, e, c, i) && UTEXT_VPN <= i && c != e
    requires if VPage(e, i) in m then
               && VPage(e, i) in m' && VPage(c, i) in m' && Marked(m[VPage(e, i)], m'[VPage(e, i)], m'[VPage(c, i)])
               && m' - {VPage(e, i), VPage(c, i)} == m - {VPage(e, i), VPage(c, i)}
             else m' == m
    ensures Shared(m0, m', e, c, i + 1)
  {
    hide Marked;
    forall k: VPage | k != VPage(e, i) && k != VPage(c, i) ensures (k in m' <==> k in m) && (k in m ==> m'[k] == m[k]) {
      if VPage(e, i) in m {
        Elsewhere(m, m', VPage(e, i), VPage(c, i), k);
      }
    }
  }

  lemma NoStack(m0: Spaces, m: Spaces, e: nat, c: nat, entry: Entry)
    requires Shared(m0, m, e, c, UXSTACK_VPN)
    ensures m[VPage(c, UXSTACK_VPN) := entry] - {VPage(c, UXSTACK_VPN)} == m
  {
    hide Marked;
    assert VPage(c, UXSTACK_VPN) !in m;
  }

  lemma Elsewhere(m: Spaces, m': Spaces, a: VPage, b: VPage, k: VPage)
    requires m' - {a, b} == m - {a, b} && k != a && k != b
    ensures (k in m' <==> k in m) && (k in m ==> m'[k] == m[k])
  {
    assert k in m <==> k in m - {a, b};
    assert k in m' <==> k in m' - {a, b};
    if k in m {
      assert (m - {a, b})[k] == m[k] && (m' - {a, b})[k] == m'[k];
    }
  }

  /** One environment's user library, with the memory it works on. */
  class UserSpace {
    var space: Spaces
    var data: map<nat, Frame>
    var procs: Procs

    function State(): Sys
      reads this
    {
      Sys(space, data, procs)
    }

    /** pgfault, with `p` the page that sys_page_alloc hands out.  Nobody reads
        anything different afterwards, and the page that faulted is writable. */
    method Pgfault(e: nat, v: nat, p: nat)
      requires Inv(State()) && Enabled(State(), FaultAlloc(e, v, p))
      modifies this
      ensures Inv(State()) && View(State()) == View(old(State()))
      ensures procs == old(procs) && space == old(space)[VPage(e, v) := Entry(p, PERM_RW)]
      ensures var r := space[VPage(e, v)].perm; Present(r) && User(r) && Writable(r) && !Cow(r)
    {
      hide Inv, View, Do, Present, User, Writable, Cow, Unmapped;
      ghost var s0 := State();
      StepRefines(s0, FaultAlloc(e, v, p));
      NoTemp(s0, e);
      AllocTemp(e, v, p);
      var i := 0;
      while i < NENTRIES
        invariant 0 <= i <= NENTRIES && Inv(State()) && View(State()) == View(s0)
        invariant space == s0.space[Temp(e) := Entry(p, PERM_RW)]
        invariant procs == s0.procs[e := Live(s0.procs[e].fork, Some(Copying(v, i)))]
      {
        StepRefines(State(), FaultCopy(e));
        CopyWord(e, v, i);
        i := i + 1;
      }
      StepRefines(State(), FaultMove(e));
      MoveTemp(e, v);
      StepRefines(State(), FaultDone(e));
      DropTemp(e);
      WorkingPerm();
    }

    /** sys_page_alloc(0, PFTEMP, PTE_U|PTE_P|PTE_W). */
    method AllocTemp(e: nat, v: nat, p: nat)
      requires Enabled(State(), FaultAlloc(e, v, p))
      modifies this
      ensures State() == Do(old(State()), FaultAlloc(e, v, p))
      ensures space == old(space)[Temp(e) := Entry(p, PERM_RW)]
      ensures procs == old(procs)[e := Live(old(procs)[e].fork, Some(Copying(v, 0)))]
    {
      space := space[Temp(e) := Entry(p, PERM_RW)];
      data := data[p := Zeros()];
      procs := procs[e := Live(procs[e].fork, Some(Copying(v, 0)))];
    }

    /** One word of memmove(PFTEMP, ROUNDDOWN(addr, PGSIZE), PGSIZE). */
    method CopyWord(e: nat, v: nat, i: nat)
      requires i < NENTRIES && ProcOf(procs, e).Live? && procs[e].fault == Some(Copying(v, i))
      modifies this
      ensures State() == Do(old(State()), FaultCopy(e)) && space == old(space)
      ensures procs == old(procs)[e := Live(old(procs)[e].fork, Some(Copying(v, i + 1)))]
    {
      var w := WordAt(Content(State(), VPage(e, v)), i);
      data := data[PageAt(State(), Temp(e)) := SetWord(Content(State(), Temp(e)), i, w)];
      procs := procs[e := Live(procs[e].fork, Some(Copying(v, i + 1)))];
    }

    /** sys_page_map(0, PFTEMP, 0, addr, PTE_U|PTE_P|PTE_W). */
    method MoveTemp(e: nat, v: nat)
      requires ProcOf(procs, e).Live? && procs[e].fault == Some(Copying(v, NENTRIES))
      modifies this
      ensures State() == Do(old(State()), FaultMove(e))
      ensures space == old(space)[VPage(e, v) := Entry(PageAt(old(State()), Temp(e)), PERM_RW)]
      ensures procs == old(procs)[e := Live(old(procs)[e].fork, Some(Moved(v)))]
    {
      space := space[VPage(e, v) := Entry(PageAt(State(), Temp(e)), PERM_RW)];
      procs := procs[e := Live(procs[e].fork, Some(Moved(v)))];
    }

    /** sys_page_unmap(0, PFTEMP). */
    method DropTemp(e: nat)
      requires Enabled(State(), FaultDone(e))
      modifies this
      ensures State() == Do(old(State()), FaultDone(e)) && space == old(space) - {Temp(e)}
      ensures procs == old(procs)[e := Live(old(procs)[e].fork, None)]
    {
      space := space - {Temp(e)};
      procs := procs[e := Live(procs[e].fork, None)];
    }

    /** duppage, as one turn of the loop in fork. */
    method DupPage(e: nat, c: nat, v: nat)
      requires Enabled(State(), ForkPage(e)) && procs[e] == Live(Some(Forking(c, v)), None)
      modifies this
      ensures State() == Do(old(State()), ForkPage(e))
      ensures procs == old(procs)[e := Live(Some(Forking(c, v + 1)), None)]
    {
      var k := VPage(e, v);
      if k in space && User(space[k].perm) {
        var pte := space[k];
        if Cow(pte.perm) || Writable(pte.perm) {
          space := space[VPage(c, v) := Entry(pte.ppn, PERM_COW)];
          space := space[k := Entry(pte.ppn, PERM_COW)];
        } else {
          space := space[VPage(c, v) := Entry(pte.ppn, PERM_RO)];
        }
      }
      procs := procs[e := Live(Some(Forking(c, v + 1)), None)];
    }

    /** fork, with `c` the child that sys_exofork makes and `p` the page of its
        exception stack: the child starts with the parent's contents, and nobody
        else, the parent included, reads anything different. */
    method Fork(e: nat, c: nat, p: nat)
      requires Inv(State()) && Enabled(State(), ForkStart(e, c))
      requires Unmapped(space, p)
      modifies this
      ensures Inv(State())
      ensures View(State()) == WithCopies(View(old(State())), e, c, UXSTACK_VPN)
      ensures procs == old(procs)[c := Live(None, None)]
      ensures var stack := VPage(c, UXSTACK_VPN);
              && Shared(old(space), space - {stack}, e, c, UXSTACK_VPN)
              && stack in space && space[stack].ppn == p
              && Present(space[stack].perm) && User(space[stack].perm) && Writable(space[stack].perm)
    {
      hide Inv, View, Do, Unmapped, WithCopies, Apply, EventOf, Duppage, Shared;
      ghost var s0 := State();
      StepRefines(s0, ForkStart(e, c));
      NewChild(s0, e, c);
      Exofork(e, c);
      SharedStart(s0, e, c);
      var i := UTEXT_VPN;
      while i < UXSTACK_VPN
        invariant UTEXT_VPN <= i <= UXSTACK_VPN && Inv(State())
        invariant procs == s0.procs[e := Live(Some(Forking(c, i)), None)][c := Embryo]
        invariant View(State()) == WithCopies(View(s0), e, c, i)
        invariant Unmapped(space, p) && Shared(s0.space, space, e, c, i)
      {
        SharedStep(s0.space, State(), e, c, i);
        StepRefines(State(), ForkPage(e));
        CopyOne(State(), View(s0), e, c, i);
        DupKeepsUnmapped(State(), e, p);
        DupPage(e, c, i);
        i := i + 1;
      }
      StepRefines(State(), ForkEnd(e, p));
      ForkEndQuiet(State(), e, p);
      NoStack(s0.space, space, e, c, Entry(p, PERM_RW));
      Launch(e, c, p);
    }

    /** sys_exofork. */
    method Exofork(e: nat, c: nat)
      requires Enabled(State(), ForkStart(e, c))
      modifies this
      ensures State() == Do(old(State()), ForkStart(e, c)) && space == old(space)
      ensures procs == old(procs)[e := Live(Some(Forking(c, UTEXT_VPN)), None)][c := Embryo]
    {
      procs := procs[e := Live(Some(Forking(c, UTEXT_VPN)), None)][c := Embryo];
    }

    /** sys_uxstack_pgfault_status: the child's exception stack, and go. */
    method Launch(e: nat, c: nat, p: nat)
      requires Enabled(State(), ForkEnd(e, p)) && procs[e].fork.value.child == c
      modifies this
      ensures State() == Do(old(State()), ForkEnd(e, p))
      ensures space == old(space)[VPage(c, UXSTACK_VPN) := Entry(p, PERM_RW)]
      ensures procs == old(procs)[e := Live(None, None)][c := Live(None, None)]
    {
      space := space[VPage(c, UXSTACK_VPN) := Entry(p, PERM_RW)];
      data := data[p := Zeros()];
      procs := procs[e := Live(None, None)][c := Live(None, None)];
    }
  }
}
