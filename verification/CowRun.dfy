/** Runs of the kernel under fork and pgfault.

    A state is the memory of PageOps, with directories, tables, reference counts
    and free list, and the environments' progress.  Every step is a memory access
    of an environment or a page system call on the two-level tables.  All runs
    are runs on private memories.
 */
module CowRun {
  import opened Mmu
  import opened Queue
  import opened EnvIds
  import opened PageGraph
  import opened PageOps
  import opened PageSys
  import opened Teardown
  import opened CowKernel
  import C = CowFork

  datatype State = State(vm: VM, procs: C.Procs)

  /** The memory as the environments see it. */
  ghost function Sees(k: State): C.Sys { Seen(k.vm, k.procs) }

  /** The kernel's invariant and that of copy-on-write, and a directory for every
      environment in use. */
  ghost predicate Good(k: State) {
    Inv(k.vm) && C.Inv(Sees(k)) && HaveDirs(k.procs, k.vm.mem.dirs)
  }

  ghost predicate HaveDirs(procs: C.Procs, dirs: seq<Option<nat>>) {
    |dirs| == NENV + 1 && forall e: nat :: C.ProcOf(procs, e) != C.Absent <==> e < NENV && dirs[e].Some?
  }

  // ---- The steps ----

  /** A store to a word of a page. */
  function StoreWord(s: VM, p: nat, i: nat, w: nat): VM {
    if p < |s.mem.frames| then s.(mem := s.mem.(frames := s.mem.frames[p := C.SetWord(s.mem.frames[p], i, w)])) else s
  }

  /** sys_page_alloc for page `v` of `e` succeeds with page `p`. */
  predicate Allocates(s: VM, e: nat, v: nat, p: nat, s': VM) {
    e < NENV && s.books.free != [] && p == s.books.free[0] && !MapNewFails(s, e, Va(v))
      && s' == MapNew(s, e, Va(v), C.PERM_RW)
  }

  /** Reference counts have 16 bits. */
  ghost predicate CountsFit(s: VM) {
    forall p :: 0 <= p < |s.books.count| ==> s.books.count[p] + 1 < REF_LIMIT
  }

  /** What a step does to memory, when its system calls succeed. */
  ghost predicate Calls(k: State, st: C.Step, s': VM)
    requires C.Ready(Sees(k), st)
  {
    var s := k.vm;
    match st
    case Write(e, v, i, w) => s' == StoreWord(s, C.PageAt(Sees(k), VPage(e, v)), i, w)
    case Grow(e, v, p) => Allocates(s, e, v, p, s')
    case FaultAlloc(e, _, p) => Allocates(s, e, C.PFTEMP_VPN, p, s')
    case FaultCopy(e) =>
      var f := k.procs[e].fault.value;
      s' == StoreWord(s, C.PageAt(Sees(k), C.Temp(e)), f.words, C.WordAt(C.Content(Sees(k), VPage(e, f.v)), f.words))
    case FaultMove(e) =>
      var v := k.procs[e].fault.value.v;
      && CountsFit(s) && MapResult(s, e, Va(C.PFTEMP_VPN), e, Va(v), C.PERM_RW) == 0
      && s' == MapShared(s, e, Va(C.PFTEMP_VPN), e, Va(v), C.PERM_RW)
    case FaultDone(e) => s' == Remove(s, e, Va(C.PFTEMP_VPN))
    case ForkStart(_, c) => c < NENV && s.books.free != [] && s' == Setup(s, c)
    case ForkPage(e) =>
      var f := k.procs[e].fork.value;
      var page := VPage(e, f.next);
      if page in FlatOf(G(s)) then
        && CountsFit(s) && !InsertFails(s, f.child, Va(f.next))
        && s' == DupCalls(s, e, f.child, f.next, FlatOf(G(s))[page].perm)
      else s' == s
    case ForkEnd(e, p) => Allocates(s, k.procs[e].fork.value.child, C.UXSTACK_VPN, p, s')
    case Exit(e) => Freed(s, s', e)
  }

  /** One step; the environments' progress is that of CowFork. */
  ghost predicate Step(k: State, st: C.Step, k': State) {
    && C.Ready(Sees(k), st) && Calls(k, st, k'.vm)
    && (C.Enabled(Sees(k), st) ==> k'.procs == C.Do(Sees(k), st).procs)
  }

  // ---- Every step is the step of CowFork ----

  /** A step on the kernel's memory that is also one on what is seen. */
  ghost predicate Matches(k: State, st: C.Step, k': State) {
    && C.Enabled(Sees(k), st) && Inv(k'.vm)
    && k'.procs == C.Do(Sees(k), st).procs && Agree(Sees(k'), C.Do(Sees(k), st))
  }

  lemma UserAddress(v: nat)
    requires v < UPDX * NENTRIES
    ensures UserVa(Va(v)) && VPN(Va(v)) == v
  {
  }

  lemma MapperOf(k: State, e: nat, v: nat)
    requires Good(k) && C.ProcOf(k.procs, e) != C.Absent && v < UPDX * NENTRIES
    ensures Mapper(k.vm, e, Va(v))
  {
    hide C.Inv, Va, UserVa;
    UserAddress(v);
  }

  lemma AllocMatches(k: State, st: C.Step, k': State)
    requires Good(k) && Step(k, st, k') && C.Allocates(st)
    ensures Matches(k, st, k') && k'.vm.mem.dirs == k.vm.mem.dirs
  {
    hide Inv, MapNew, FlatOf, Agree, MapNewFails, C.Inv, Va;
    var e := if st.ForkEnd? then k.procs[st.env].fork.value.child else st.env;
    var v := if st.Grow? then st.v else if st.FaultAlloc? then C.PFTEMP_VPN else C.UXSTACK_VPN;
    if st.ForkEnd? {
      ChildAlive(Sees(k), st.env);
    }
    MapperOf(k, e, v);
    MapNewAgrees(k.vm, k.procs, e, v);
    MapNewAgrees(k.vm, k'.procs, e, v);
  }

  lemma ChildAlive(s: C.Sys, e: nat)
    requires C.Inv(s) && C.ProcOf(s.procs, e).Live? && C.ProcOf(s.procs, e).fork.Some?
    ensures var c := s.procs[e].fork.value.child; C.ProcOf(s.procs, c) == C.Embryo && c != e
  {
    hide C.Backed, C.NoSharedWrites, C.Outside, C.Handlers;
    assert C.Parent(s.space, s.procs, e);
  }

  /** A store to a mapped page changes that page only. */
  lemma StoreMatches(k: State, page: VPage, i: nat, w: nat, procs: C.Procs)
    requires Good(k) && page in FlatOf(G(k.vm))
    ensures var p := FlatOf(G(k.vm))[page].ppn;
            var s' := StoreWord(k.vm, p, i, w);
            && Inv(s') && s'.mem.dirs == k.vm.mem.dirs
            && Seen(s', procs) ==
               C.Sys(FlatOf(G(k.vm)), Sees(k).data[p := C.SetWord(C.Content(Sees(k), page), i, w)], procs)
  {
    hide C.Inv, Inv, FlatOf, Seen, StoreWord, C.Content;
    var p := FlatOf(G(k.vm))[page].ppn;
    MappedInUse(k.vm, page);
    StoreKeepsInv(k.vm, p, i, w);
    SeenAfterStore(k.vm, p, i, w, k.procs, procs, page);
  }

  lemma SeenAfterStore(s: VM, p: nat, i: nat, w: nat, procs: C.Procs, after: C.Procs, page: VPage)
    requires p < |s.mem.frames| && G(StoreWord(s, p, i, w)) == G(s) && page in FlatOf(G(s))
             && FlatOf(G(s))[page].ppn == p
    ensures StoreWord(s, p, i, w).mem.dirs == s.mem.dirs
    ensures Seen(StoreWord(s, p, i, w), after) ==
            C.Sys(FlatOf(G(s)), Seen(s, procs).data[p := C.SetWord(C.Content(Seen(s, procs), page), i, w)], after)
  {
    hide FlatOf, C.SetWord, G;
    var content := C.SetWord(s.mem.frames[p], i, w);
    assert C.Content(Seen(s, procs), page) == s.mem.frames[p];
    var data := Seen(s, procs).data;
    assert Seen(StoreWord(s, p, i, w), after).data == data[p := content];
  }

  lemma StoreKeepsInv(s: VM, p: nat, i: nat, w: nat)
    requires Inv(s) && p < |s.mem.frames| && IsData(G(s), p)
    ensures Inv(StoreWord(s, p, i, w)) && G(StoreWord(s, p, i, w)) == G(s)
  {
    hide Balanced, Target, Exclusive, InRange;
    StoreFrame(s.mem, p, C.SetWord(s.mem.frames[p], i, w));
  }

  /** The pages of the handler are mapped. */
  lemma HandlerPages(s: C.Sys, e: nat)
    requires C.Inv(s) && C.ProcOf(s.procs, e).Live? && C.ProcOf(s.procs, e).fault.Some?
    ensures C.Temp(e) in s.space && VPage(e, s.procs[e].fault.value.v) in s.space
    ensures C.InRange(VPage(e, s.procs[e].fault.value.v))
  {
    hide C.Backed, C.NoSharedWrites, C.Outside, C.Family;
    assert C.Handler(s, e);
  }

  lemma WriteMatches(k: State, st: C.Step, k': State)
    requires Good(k) && Step(k, st, k') && (st.Write? || st.FaultCopy?)
    ensures Matches(k, st, k') && k'.vm.mem.dirs == k.vm.mem.dirs
  {
    hide Inv, FlatOf, C.Inv, StoreWord;
    if st.Write? {
      StoreMatches(k, VPage(st.env, st.v), st.i, st.w, k'.procs);
    } else {
      HandlerPages(Sees(k), st.env);
      var f := k.procs[st.env].fault.value;
      StoreMatches(k, C.Temp(st.env), f.words, C.WordAt(C.Content(Sees(k), VPage(st.env, f.v)), f.words), k'.procs);
    }
  }

  lemma MoveMatches(k: State, st: C.Step, k': State)
    requires Good(k) && Step(k, st, k') && st.FaultMove?
    ensures Matches(k, st, k') && k'.vm.mem.dirs == k.vm.mem.dirs
  {
    hide Inv, FlatOf, C.Inv, MapShared, MapResult, Agree, Va, Mapper, C.Do;
    HandlerPages(Sees(k), st.env);
    var v := k.procs[st.env].fault.value.v;
    MapperOf(k, st.env, C.PFTEMP_VPN);
    MapperOf(k, st.env, v);
    MoveKeepsInv(k.vm, st.env, v);
    MapIsFaultMove(k.vm, k.procs, st.env, v);
  }

  lemma MoveKeepsInv(s: VM, e: nat, v: nat)
    requires Inv(s) && Mapper(s, e, Va(C.PFTEMP_VPN)) && Mapper(s, e, Va(v)) && CountsFit(s)
    requires MapResult(s, e, Va(C.PFTEMP_VPN), e, Va(v), C.PERM_RW) == 0
    ensures var s' := MapShared(s, e, Va(C.PFTEMP_VPN), e, Va(v), C.PERM_RW);
            Inv(s') && s'.mem.dirs == s.mem.dirs
  {
    hide Inv, FlatOf, MapShared, Va, At;
    MapSharedFound(s, e, Va(C.PFTEMP_VPN), Va(v));
    MapSharedCounts(s, e, Va(C.PFTEMP_VPN));
    MapSharedCorrect(s, e, Va(C.PFTEMP_VPN), e, Va(v), C.PERM_RW);
  }

  lemma RemoveKeepsDirs(s: VM, e: nat, va: nat)
    requires Inv(s) && Mapper(s, e, va)
    ensures Inv(Remove(s, e, va)) && Remove(s, e, va).mem.dirs == s.mem.dirs
  {
    hide Inv;
    UserVaOwned(e, va);
    EraseCorrect(s, PlaceOf(e, va));
  }

  lemma DoneMatches(k: State, st: C.Step, k': State)
    requires Good(k) && Step(k, st, k') && st.FaultDone?
    ensures Matches(k, st, k') && k'.vm.mem.dirs == k.vm.mem.dirs
  {
    hide Inv, FlatOf, C.Inv, Remove, Agree, Va, C.Do;
    MapperOf(k, st.env, C.PFTEMP_VPN);
    RemoveKeepsDirs(k.vm, st.env, Va(C.PFTEMP_VPN));
    UnmapIsFaultDone(k.vm, k.procs, st.env);
  }

  lemma ForkStartMatches(k: State, st: C.Step, k': State)
    requires Good(k) && Step(k, st, k') && st.ForkStart?
    ensures Matches(k, st, k')
    ensures st.child < NENV && exists p :: k'.vm.mem.dirs == k.vm.mem.dirs[st.child := Some(p)]
  {
    hide Inv, C.Inv, Setup, FlatOf, SameBut, Target;
    SetupCorrect(k.vm, st.child);
    DirIsNoPage(G(k.vm), DirRef(st.child), Entry(k.vm.books.free[0], 0));
    SetupKeepsPages(k.vm, st.child);
  }

  lemma DirIsNoPage(g: Graph, r: Ref, e: Entry)
    requires !r.PageRef?
    ensures FlatOf(g[r := e]) == FlatOf(g)
  {
  }

  lemma SetupKeepsPages(s: VM, e: nat)
    requires Inv(s)
    ensures |Setup(s, e).mem.frames| == |s.mem.frames|
    ensures forall k :: k in FlatOf(G(s)) ==>
              FlatOf(G(s))[k].ppn < |s.mem.frames|
                && Setup(s, e).mem.frames[FlatOf(G(s))[k].ppn] == s.mem.frames[FlatOf(G(s))[k].ppn]
  {
    hide Inv, FlatOf;
    forall k | k in FlatOf(G(s))
      ensures FlatOf(G(s))[k].ppn < |s.mem.frames|
              && Setup(s, e).mem.frames[FlatOf(G(s))[k].ppn] == s.mem.frames[FlatOf(G(s))[k].ppn]
    {
      MappedInUse(s, k);
    }
  }

  lemma ForkPageMatches(k: State, st: C.Step, k': State)
    requires Good(k) && Step(k, st, k') && st.ForkPage?
    ensures Matches(k, st, k') && k'.vm.mem.dirs == k.vm.mem.dirs
  {
    hide Inv, FlatOf, C.Inv, DupCalls, Agree, Va, Mapper, InsertFails, C.Duppage;
    var e, c, v := st.env, k.procs[st.env].fork.value.child, k.procs[st.env].fork.value.next;
    ChildAlive(Sees(k), e);
    MapperOf(k, e, v);
    MapperOf(k, c, v);
    if VPage(e, v) in FlatOf(G(k.vm)) {
      UserMapping(Sees(k), VPage(e, v));
      DupCallsAreDuppage(k.vm, k'.procs, e, c, v);
    } else {
      NothingToDup(k, k'.procs, e, c, v);
    }
  }

  lemma UserMapping(s: C.Sys, x: VPage)
    requires C.Inv(s) && x in s.space
    ensures User(s.space[x].perm)
  {
  }

  lemma NothingToDup(k: State, procs: C.Procs, e: nat, c: nat, v: nat)
    requires VPage(e, v) !in FlatOf(G(k.vm))
    ensures Agree(Seen(k.vm, procs), C.Sys(C.Duppage(FlatOf(G(k.vm)), e, c, v), Sees(k).data, procs))
  {
  }

  lemma ExitMatches(k: State, st: C.Step, k': State)
    requires Good(k) && Step(k, st, k') && st.Exit?
    ensures Matches(k, st, k') && st.env < NENV && k'.vm.mem.dirs == k.vm.mem.dirs[st.env := None]
  {
    hide Inv, C.Inv, FlatOf, Target, RefsOf;
    TeardownFlat(G(k.vm), st.env);
    forall x | x in FlatOf(G(k.vm))
      ensures FlatOf(G(k.vm))[x].ppn < |k.vm.mem.frames|
              && k'.vm.mem.frames[FlatOf(G(k.vm))[x].ppn] == k.vm.mem.frames[FlatOf(G(k.vm))[x].ppn]
    {
      MappedInUse(k.vm, x);
    }
  }

  // ---- The invariant is kept ----

  lemma AgreeKeepsInv(a: C.Sys, b: C.Sys)
    requires Agree(a, b) && a.procs == b.procs && C.Inv(b)
    ensures C.Inv(a) && C.View(a) == C.View(b)
  {
    hide C.NoSharedWrites, C.Outside, C.Family;
    forall x | x in a.space
      ensures a.space[x].ppn in a.data && |a.data[a.space[x].ppn]| == NENTRIES && User(a.space[x].perm)
    {
      assert |C.Content(b, x)| == NENTRIES;
    }
    forall e ensures C.Handler(a, e) {
      assert C.Handler(b, e);
    }
  }

  /** Which environments are in use after a step. */
  lemma InUseAfter(s: C.Sys, st: C.Step, e: nat)
    requires C.Inv(s) && C.Enabled(s, st)
    ensures C.ProcOf(C.Do(s, st).procs, e) != C.Absent <==>
            if st.Exit? && e == st.env then false
            else if st.ForkStart? && e == st.child then true
            else C.ProcOf(s.procs, e) != C.Absent
  {
    hide C.Inv, C.Unmapped, C.Duppage;
    if st.ForkEnd? {
      ChildAlive(s, st.env);
    }
  }

  /** Every step of the kernel is the step of CowFork, and keeps both invariants. */
  lemma StepMatches(k: State, st: C.Step, k': State)
    requires Good(k) && Step(k, st, k')
    ensures Good(k') && Matches(k, st, k')
    ensures C.View(Sees(k')) == C.Apply(C.View(Sees(k)), C.EventOf(Sees(k), st))
  {
    hide Inv, C.Inv, C.Enabled, C.Do, C.View, C.Ready, Calls, FlatOf, C.EventOf, C.Apply, Agree, HaveDirs;
    match st {
      case Write(_, _, _, _) => WriteMatches(k, st, k');
      case FaultCopy(_) => WriteMatches(k, st, k');
      case Grow(_, _, _) => AllocMatches(k, st, k');
      case FaultAlloc(_, _, _) => AllocMatches(k, st, k');
      case ForkEnd(_, _) => AllocMatches(k, st, k');
      case FaultMove(_) => MoveMatches(k, st, k');
      case FaultDone(_) => DoneMatches(k, st, k');
      case ForkStart(_, _) => ForkStartMatches(k, st, k');
      case ForkPage(_) => ForkPageMatches(k, st, k');
      case Exit(_) => ExitMatches(k, st, k');
    }
    C.StepRefines(Sees(k), st);
    AgreeKeepsInv(Sees(k'), C.Do(Sees(k), st));
    DirsFollow(k, st, k');
  }

  lemma DirsFollow(k: State, st: C.Step, k': State)
    requires C.Inv(Sees(k)) && C.Enabled(Sees(k), st) && k'.procs == C.Do(Sees(k), st).procs
    requires HaveDirs(k.procs, k.vm.mem.dirs) && (st.ForkStart? ==> st.child < NENV)
    requires var dirs, after := k.vm.mem.dirs, k'.vm.mem.dirs;
             if st.Exit? then st.env < NENV && after == dirs[st.env := None]
             else if st.ForkStart? then exists p :: after == dirs[st.child := Some(p)]
             else after == dirs
    ensures HaveDirs(k'.procs, k'.vm.mem.dirs)
  {
    hide C.Inv, C.Enabled, C.Do;
    forall e: nat ensures C.ProcOf(k'.procs, e) != C.Absent <==> e < NENV && k'.vm.mem.dirs[e].Some? {
      InUseAfter(Sees(k), st, e);
    }
  }

  // ---- Whole runs ----

  /** A run, with all states it goes through. */
  ghost predicate IsRun(trace: seq<State>, steps: seq<C.Step>) {
    |trace| == |steps| + 1 && forall i :: 0 <= i < |steps| ==> Step(trace[i], steps[i], trace[i + 1])
  }

  ghost function EventAt(k: State, st: C.Step): C.Event {
    if C.Enabled(Sees(k), st) then C.EventOf(Sees(k), st) else C.Quiet
  }

  /** The same run on private memories. */
  ghost function Private(m: map<VPage, Frame>, trace: seq<State>, steps: seq<C.Step>): map<VPage, Frame>
    requires |trace| == |steps| + 1
    decreases |steps|
  {
    if steps == [] then m else Private(C.Apply(m, EventAt(trace[0], steps[0])), trace[1..], steps[1..])
  }

  /** Over every run of system calls and memory accesses, whatever the
      interleaving, the counters and tables stay sound, and what the environments
      read at the end is what they would read with memories of their own. */
  lemma {:induction false} KernelRefinesPrivate(trace: seq<State>, steps: seq<C.Step>)
    requires IsRun(trace, steps) && Good(trace[0])
    ensures forall k :: k in trace ==> Good(k)
    ensures C.View(Sees(trace[|steps|])) == Private(C.View(Sees(trace[0])), trace, steps)
    decreases |steps|
  {
    hide Good, Step, C.View, C.Apply, C.EventOf, Sees, C.Enabled;
    if steps != [] {
      StepMatches(trace[0], steps[0], trace[1]);
      EnabledMatch(trace[0], steps[0], trace[1]);
      KernelRefinesPrivate(trace[1..], steps[1..]);
    }
  }

  lemma EnabledMatch(k: State, st: C.Step, k': State)
    requires Matches(k, st, k')
    ensures C.Enabled(Sees(k), st) && EventAt(k, st) == C.EventOf(Sees(k), st)
  {
  }

  /** A run can start with one environment whose pages are mapped once each, for
      example all data pages of a loaded program. */
  lemma StartIsGood(s: VM, e: nat)
    requires Inv(s) && e < NENV && (forall x :: 0 <= x < NENV ==> (s.mem.dirs[x].Some? <==> x == e))
    requires forall k :: k in FlatOf(G(s)) ==> User(FlatOf(G(s))[k].perm) && (C.InRange(k) || k.vpn == C.UXSTACK_VPN)
    requires forall k, j :: k in FlatOf(G(s)) && j in FlatOf(G(s)) && k != j ==>
               FlatOf(G(s))[k].ppn != FlatOf(G(s))[j].ppn
    ensures Good(State(s, map[e := C.Live(None, None)]))
  {
    hide C.Inv, FlatOf;
    var k := State(s, map[e := C.Live(None, None)]);
    forall x | x in FlatOf(G(s)) ensures x.env == e && FlatOf(G(s))[x].ppn < |s.mem.frames| {
      MappedInUse(s, x);
      assert Target(s.mem, Place(x)).Some?;
    }
    C.StartKeepsInv(Sees(k), e);
  }
}
