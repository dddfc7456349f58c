/** The environment table and the page system calls (kern/env.c, kern/syscall.c). */
module Envs {
  import opened Mmu
  import opened Queue
  import opened PageGraph
  import opened PageOps
  import opened Teardown
  import opened PageSys
  import opened Kern
  import opened Errors
  import opened EnvIds
  import Ipc

  /** The fields of envs[], and how often every slot has been allocated. */
  datatype EnvFields = EnvFields(id: seq<int>, parent: seq<int>, status: seq<Status>, issued: seq<nat>)

  /** In every reachable state a slot is free exactly when it is on the free
      list, exactly when it has no directory; its id is determined by how often
      it was allocated. */
  ghost predicate Consistent(t: EnvFields, free: seq<nat>, dirs: seq<Option<nat>>) {
    && |t.id| == |t.parent| == |t.status| == |t.issued| == NENV && |dirs| == NENV + 1
    && Distinct(free) && (forall e :: e in free ==> e < NENV)
    && (forall e :: 0 <= e < NENV ==> (t.status[e] == Free <==> e in free))
    && (forall e :: 0 <= e < NENV ==> (t.status[e] == Free <==> dirs[e] == None))
    && (forall e :: 0 <= e < NENV ==> t.id[e] == IdAfter(e, t.issued[e]))
    && (forall e :: 0 <= e < NENV && t.status[e] != Free ==> t.issued[e] > 0)
  }

  /** The commit of env_alloc. */
  function Alloc(t: EnvFields, e: nat, parentId: int): EnvFields
    requires e < |t.id| && e < |t.parent| && e < |t.status| && e < |t.issued|
  {
    EnvFields(t.id[e := NextId(t.id[e], e)], t.parent[e := parentId],
           t.status[e := Runnable], t.issued[e := t.issued[e] + 1])
  }

  lemma AllocConsistent(t: EnvFields, free: seq<nat>, dirs: seq<Option<nat>>, parentId: int, p: nat)
    requires Consistent(t, free, dirs) && free != []
    ensures free[0] < NENV && dirs[free[0]] == None && t.status[free[0]] == Free
    ensures Consistent(Alloc(t, free[0], parentId), free[1..], dirs[free[0] := Some(p)])
  {
    assert free[0] in free;
    assert forall x :: x in free <==> x == free[0] || x in free[1..];
  }

  lemma NewIdNamesSlot(t: EnvFields, free: seq<nat>, dirs: seq<Option<nat>>, e: nat)
    requires Consistent(t, free, dirs) && e < NENV && t.status[e] != Free
    ensures t.id[e] > 0 && t.id[e] % NENV == e
  {
    IdNamesSlot(e, t.issued[e]);
  }

  lemma FreeConsistent(t: EnvFields, free: seq<nat>, dirs: seq<Option<nat>>, e: nat)
    requires Consistent(t, free, dirs) && e < NENV && t.status[e] != Free
    ensures e !in free && dirs[e].Some?
    ensures Consistent(t.(status := t.status[e := Free]), [e] + free, dirs[e := None])
  {
  }

  lemma FieldLengths(t: EnvFields, free: seq<nat>, dirs: seq<Option<nat>>)
    requires Consistent(t, free, dirs)
    ensures |t.id| == |t.parent| == |t.status| == |t.issued| == NENV && |dirs| == NENV + 1
  {
  }

  /** Environment identity: the ids of allocated slots are positive, name their
      slot, and so are pairwise distinct. */
  lemma Identity(t: EnvFields, free: seq<nat>, dirs: seq<Option<nat>>, e: nat, e': nat)
    requires Consistent(t, free, dirs) && e < NENV && e' < NENV
    requires t.status[e] != Free && t.status[e'] != Free
    ensures t.id[e] > 0 && ENVX(t.id[e]) == e
    ensures t.id[e] == t.id[e'] ==> e == e'
  {
    IdNamesSlot(e, t.issued[e]);
    IdNamesSlot(e', t.issued[e']);
  }

  /** The answer of envid2env for a nonzero id without permission check. */
  predicate Names(t: EnvFields, envid: int)
    requires |t.id| == |t.status| == NENV
  {
    t.status[ENVX(envid)] != Free && t.id[ENVX(envid)] == envid
  }

  /** A stale id, given out by the `k`-th allocation of its slot, is accepted
      again only while the slot is in use by an allocation a multiple of 524287
      later: never before the 524287th. */
  lemma StaleIdRejected(t: EnvFields, free: seq<nat>, dirs: seq<Option<nat>>, e: nat, k: nat)
    requires Consistent(t, free, dirs) && e < NENV && 0 < k <= t.issued[e]
    ensures Names(t, IdAfter(e, k)) <==>
            t.status[e] != Free && (t.issued[e] - k) % GENERATIONS == 0
  {
    hide IdAfter;
    IdNamesSlot(e, k);
    if k < t.issued[e] {
      IdReissued(e, k, t.issued[e]);
    }
  }

  datatype Call =
    | DoBoot                                      // env_alloc for a first environment
    | DoSwitch(env: nat)                          // the scheduler runs somebody
    | DoDestroy(env: nat)
    | DoExofork
    | DoAlloc(envid: int, va: nat, perm: nat)
    | DoMap(srcid: int, srcva: nat, dstid: int, dstva: nat, perm: nat)
    | DoUnmap(envid: int, va: nat)
    | DoStatus(envid: int, status: Status)
    | DoSend(envid: int, waits: Option<nat>, srcva: nat, perm: nat)   // `waits`: where the receiver takes a page
    | DoRecv(woken: Option<nat>)                                      // `woken`: the sender that is next in line

  /** Memory, environment table, free slots, and who runs. */
  datatype World = World(vm: VM, t: EnvFields, free: seq<nat>, cur: Option<nat>)

  ghost predicate Orderly(w: World) {
    Inv(w.vm) && Consistent(w.t, w.free, w.vm.mem.dirs) && (w.cur.Some? ==> w.cur.value < NENV)
  }

  /** A system call is being made by an environment in use. */
  predicate CallerAlive(w: World) {
    w.cur.Some? && w.cur.value < |w.t.status| && w.t.status[w.cur.value] != Free
  }

  /** envid2env with permission check. */
  function Allowed(t: EnvFields, cur: Option<nat>, envid: int): Option<nat>
    requires |t.id| == |t.parent| == |t.status| == NENV && cur.Some? && cur.value < NENV
  {
    if envid == 0 then cur
    else
      var x := ENVX(envid);
      if t.status[x] != Free && t.id[x] == envid && (Some(x) == cur || t.parent[x] == t.id[cur.value])
      then Some(x) else None
  }

  /** Exactly the environment that runs, under 0 or its id, and its children, under
      theirs, may be acted on. */
  lemma AllowedExactly(t: EnvFields, free: seq<nat>, dirs: seq<Option<nat>>, cur: nat, envid: int, e: nat)
    requires Consistent(t, free, dirs) && cur < NENV && e < NENV
    ensures Allowed(t, Some(cur), envid) == Some(e) <==>
            if envid == 0 then e == cur
            else t.status[e] != Free && t.id[e] == envid && (e == cur || t.parent[e] == t.id[cur])
  {
    if t.status[e] != Free {
      IdNamesSlot(e, t.issued[e]);
    }
  }

  /** Exactly the environments in use, under their ids, can be sent to. */
  lemma ReceiverExactly(t: EnvFields, free: seq<nat>, dirs: seq<Option<nat>>, cur: Option<nat>, envid: int, e: nat)
    requires Consistent(t, free, dirs) && e < NENV
    ensures Receiver(t, cur, envid) == Some(e) <==>
            if envid == 0 then cur == Some(e) else t.status[e] != Free && t.id[e] == envid
  {
    if t.status[e] != Free {
      IdNamesSlot(e, t.issued[e]);
    }
  }

  /** The environment that a call may act on. */
  ghost function Acts(w: World, envid: int): Option<nat>
    requires Orderly(w)
  {
    if CallerAlive(w) then Allowed(w.t, w.cur, envid) else None
  }

  ghost predicate CountsRoom(w: World) {
    forall p :: 0 <= p < |w.vm.books.count| ==> w.vm.books.count[p] + 1 < REF_LIMIT
  }

  /** sys_page_map reaches page_insert or one of its last tests. */
  ghost predicate MapReached(w: World, c: Call)
    requires Orderly(w) && c.DoMap?
  {
    && CountsRoom(w) && UserVa(c.srcva) && UserVa(c.dstva) && UserPerm(c.perm)
    && Acts(w, c.srcid).Some? && Acts(w, c.dstid).Some?
  }

  /** envid2env without permission check. */
  function Receiver(t: EnvFields, cur: Option<nat>, envid: int): Option<nat>
    requires |t.id| == |t.status| == NENV
  {
    if envid == 0 then cur else if Names(t, envid) then Some(ENVX(envid)) else None
  }

  /** The environment that a message is for. */
  ghost function SendsTo(w: World, envid: int): Option<nat>
    requires Orderly(w)
  {
    if CallerAlive(w) then Receiver(w.t, w.cur, envid) else None
  }

  /** It waits for a message; whoever runs does not. */
  ghost predicate IsReady(w: World, c: Call)
    requires Orderly(w) && c.DoSend?
  {
    SendsTo(w, c.envid).Some? && c.waits.Some? && SendsTo(w, c.envid) != w.cur
  }

  /** A page goes with the message. */
  predicate WithPage(srcva: nat, dstva: nat) { srcva < UTOP && dstva < UTOP }

  /** The answer of sys_ipc_try_send to a waiting environment `d`. */
  function SendResult(s: VM, cur: nat, d: nat, dstva: nat, srcva: nat, perm: nat): int {
    if !WithPage(srcva, dstva) then 0
    else if srcva % PGSIZE != 0 || !UserPerm(perm) then -E_INVAL
    else MapResult(s, cur, srcva, d, dstva, perm)
  }

  /** Its effect on memory: page_insert, and after a failure page_free. */
  function SendPage(s: VM, cur: nat, d: nat, dstva: nat, srcva: nat, perm: nat): VM {
    if WithPage(srcva, dstva) && srcva % PGSIZE == 0 && UserPerm(perm) then MapShared(s, cur, srcva, d, dstva, perm)
      else s
  }

  /** It is the answer that module Ipc works with: the page argument there is what
      these page tables hold. */
  lemma SendResultIsPageError(s: VM, cur: nat, d: nat, dstva: nat, srcva: nat, perm: nat)
    requires WithPage(srcva, dstva)
    ensures var o := At(s.mem, cur, srcva);
            var found := if o.Some? then Some(Writable(o.value.perm)) else None;
            SendResult(s, cur, d, dstva, srcva, perm)
              == Ipc.PageError(Ipc.PageArg(srcva, perm, found, InsertFails(s, d, dstva)))
  {
    hide Target, UserPerm;
  }

  lemma ResultSign(s: VM, src: nat, srcva: nat, dst: nat, dstva: nat, perm: nat)
    ensures MapResult(s, src, srcva, dst, dstva, perm) <= 0
  {
    hide At, InsertFails;
  }

  function WithStatus(t: EnvFields, e: nat, status: Status): EnvFields {
    if e < |t.status| then t.(status := t.status[e := status]) else t
  }

  lemma StatusConsistent(t: EnvFields, free: seq<nat>, dirs: seq<Option<nat>>, e: nat, status: Status)
    requires Consistent(t, free, dirs) && e < NENV && t.status[e] != Free && status != Free
    ensures Consistent(WithStatus(t, e, status), free, dirs)
  {
  }

  /** A message for environment `d`, which waits for a page at `dstva`. */
  ghost function AfterSend(w: World, d: nat, dstva: nat, srcva: nat, perm: nat): World
    requires Orderly(w) && w.cur.Some?
  {
    var r := SendResult(w.vm, w.cur.value, d, dstva, srcva, perm);
    w.(vm := SendPage(w.vm, w.cur.value, d, dstva, srcva, perm),
       t := if r == 0 then WithStatus(w.t, d, Runnable) else w.t)
  }

  /** Nobody acts on an environment but one that runs and is in use. */
  lemma ActsExactly(w: World, envid: int, e: nat)
    requires Orderly(w) && e < NENV
    ensures Acts(w, envid) == Some(e) <==>
            && w.cur.Some? && w.t.status[w.cur.value] != Free
            && (if envid == 0 then Some(e) == w.cur
                else w.t.status[e] != Free && w.t.id[e] == envid
                     && (Some(e) == w.cur || w.t.parent[e] == w.t.id[w.cur.value]))
  {
    hide Inv, Allowed;
    if w.cur.Some? {
      AllowedExactly(w.t, w.free, w.vm.mem.dirs, w.cur.value, envid, e);
      AllowedSlot(w.t, w.cur, envid);
    }
  }

  lemma AllowedSlot(t: EnvFields, cur: Option<nat>, envid: int)
    requires |t.id| == |t.parent| == |t.status| == NENV && cur.Some? && cur.value < NENV
    ensures Allowed(t, cur, envid).Some? ==> Allowed(t, cur, envid).value < NENV
  {
  }

  lemma SendsToExactly(w: World, envid: int, e: nat)
    requires Orderly(w) && e < NENV
    ensures SendsTo(w, envid) == Some(e) <==>
            && w.cur.Some? && w.t.status[w.cur.value] != Free
            && (if envid == 0 then Some(e) == w.cur else w.t.status[e] != Free && w.t.id[e] == envid)
  {
    hide Inv, Receiver;
    ReceiverExactly(w.t, w.free, w.vm.mem.dirs, w.cur, envid, e);
  }

  /** A new environment has the first free slot, an id that names it, the parent and
      status asked for, a directory of its own, and no pages; without a slot or a page
      nothing happens. */
  lemma WithEnvMeaning(w: World, parentId: int, status: Status)
    requires Orderly(w)
    ensures var w' := WithEnv(w, parentId, status);
            if w.free == [] || w.vm.books.free == [] then w' == w
            else
              var e := w.free[0];
              && e < NENV && w.t.status[e] == Free && w'.free == w.free[1..] && w'.cur == w.cur
              && w'.t.status == w.t.status[e := status] && w'.t.parent == w.t.parent[e := parentId]
              && w'.t.id == w.t.id[e := w'.t.id[e]] && w'.t.id[e] > 0 && w'.t.id[e] % NENV == e
              && w'.vm.mem.dirs == w.vm.mem.dirs[e := Some(w.vm.books.free[0])]
              && G(w'.vm) == G(w.vm)[DirRef(e) := Entry(w.vm.books.free[0], 0)]
  {
    hide Inv, Setup, NextId;
    if w.free != [] && w.vm.books.free != [] {
      var e := w.free[0];
      AllocConsistent(w.t, w.free, w.vm.mem.dirs, parentId, w.vm.books.free[0]);
      SetupCorrect(w.vm, e);
      NewIdNamesSlot(Alloc(w.t, e, parentId), w.free[1..], w.vm.mem.dirs[e := Some(w.vm.books.free[0])], e);
    }
  }

  /** What a message to a waiting environment does.  With an address on both sides
      the page must be mapped, and for writing if it is to be; then it is mapped at
      the receiver.  The receiver runs again exactly when the send succeeds. */
  lemma SendMeaning(w: World, d: nat, dstva: nat, srcva: nat, perm: nat)
    requires Orderly(w) && w.cur.Some? && d < NENV && w.t.status[w.cur.value] != Free && w.t.status[d] != Free
    requires CountsRoom(w)
    ensures var flat, k := FlatOf(G(w.vm)), VPage(w.cur.value, VPN(srcva));
            var r := SendResult(w.vm, w.cur.value, d, dstva, srcva, perm);
            if srcva >= UTOP || dstva >= UTOP then r == 0
            else if srcva % PGSIZE != 0 || !UserPerm(perm) then r == -E_INVAL
            else if k !in flat || (Writable(perm) && !Writable(flat[k].perm)) then r == -E_INVAL
            else if TableRef(d, PDX(dstva)) !in G(w.vm) && w.vm.books.free == [] then r == -E_NO_MEM
            else r == 0
    ensures var flat, k := FlatOf(G(w.vm)), VPage(w.cur.value, VPN(srcva));
            var w' := AfterSend(w, d, dstva, srcva, perm);
            if SendResult(w.vm, w.cur.value, d, dstva, srcva, perm) != 0 then w'.t == w.t
            else
              && w'.t == w.t.(status := w.t.status[d := Runnable]) && w'.free == w.free && w'.cur == w.cur
              && (if srcva >= UTOP || dstva >= UTOP then w'.vm == w.vm
                  else k in flat && SameData(w.vm, w'.vm, {})
                       && FlatOf(G(w'.vm)) == flat[VPage(d, VPN(dstva)) := Entry(flat[k].ppn, perm)])
  {
    hide Inv, FlatOf, MapResult, MapShared, SameData, UserPerm, VPN, PDX;
    if srcva < UTOP && dstva < UTOP {
      MapAnswer(w.vm, w.cur.value, srcva, d, dstva, perm);
      if UserPerm(perm) {
        MapMeaning(w.vm, w.cur.value, srcva, d, dstva, perm);
      }
    }
  }

  /** The call neither meets a null page nor runs out of memory half-way
      through sys_page_map or sys_ipc_try_send. */
  ghost predicate GoesOn(w: World, c: Call)
    requires Orderly(w)
  {
    match c
    case DoMap(srcid, srcva, dstid, dstva, perm) =>
      MapReached(w, c) ==>
        MapResult(w.vm, Acts(w, srcid).value, srcva, Acts(w, dstid).value, dstva, perm) != -E_NO_MEM
    case DoUnmap(envid, va) =>
      UserVa(va) && Acts(w, envid).Some? ==>
        var e := Acts(w, envid).value;
        Target(w.vm.mem, TableOf(e, va)).Some? ==> At(w.vm.mem, e, va).Some?
    case DoSend(envid, waits, srcva, perm) =>
      CountsRoom(w) && IsReady(w, c) ==>
        SendResult(w.vm, w.cur.value, SendsTo(w, envid).value, waits.value, srcva, perm) != -E_NO_MEM
    case _ => true
  }

  /** A new environment in the first free slot, if there is one and memory for
      its directory. */
  ghost function WithEnv(w: World, parentId: int, status: Status): World
    requires Orderly(w)
  {
    if w.free == [] || w.vm.books.free == [] then w
    else
      var e := w.free[0];
      FirstFree(w);
      var t := Alloc(w.t, e, parentId);
      World(Setup(w.vm, e), t.(status := t.status[e := status]), w.free[1..], w.cur)
  }

  lemma FirstFree(w: World)
    requires Orderly(w) && w.free != []
    ensures w.free[0] < NENV
  {
    assert w.free[0] in w.free;
  }

  /** What a call does. */
  ghost predicate Does(w: World, c: Call, w': World)
    requires Orderly(w)
  {
    match c
    case DoBoot => w' == WithEnv(w, 0, Runnable)
    case DoSwitch(e) => w' == w.(cur := if e < NENV && w.t.status[e] == Runnable then Some(e) else None)
    case DoDestroy(e) =>
      if e < NENV && w.t.status[e] != Free then
        && Freed(w.vm, w'.vm, e) && w'.t == w.t.(status := w.t.status[e := Free]) && w'.free == [e] + w.free
        && w'.cur == if w.cur == Some(e) then None else w.cur
      else w' == w
    case DoExofork => w' == if CallerAlive(w) then WithEnv(w, w.t.id[w.cur.value], NotRunnable) else w
    case DoAlloc(envid, va, perm) =>
      w' == if UserVa(va) && UserPerm(perm) && Acts(w, envid).Some?
            then w.(vm := MapNew(w.vm, Acts(w, envid).value, va, perm)) else w
    case DoMap(srcid, srcva, dstid, dstva, perm) =>
      w' == if MapReached(w, c)
            then w.(vm := MapShared(w.vm, Acts(w, srcid).value, srcva, Acts(w, dstid).value, dstva, perm)) else w
    case DoUnmap(envid, va) =>
      w' == if UserVa(va) && Acts(w, envid).Some? then w.(vm := Remove(w.vm, Acts(w, envid).value, va)) else w
    case DoStatus(envid, status) =>
      w' == if status != Free && Acts(w, envid).Some? then w.(t := WithStatus(w.t, Acts(w, envid).value, status)) else w
    case DoSend(envid, waits, srcva, perm) =>
      w' == if !CountsRoom(w) || SendsTo(w, envid) == None then w
            else if IsReady(w, c) then AfterSend(w, SendsTo(w, envid).value, waits.value, srcva, perm)
            else w.(t := WithStatus(w.t, w.cur.value, NotRunnable))
    case DoRecv(woken) =>
      w' == if CallerAlive(w) then
              var t := WithStatus(w.t, w.cur.value, NotRunnable);
              w.(t := if woken.Some? && woken.value < NENV && t.status[woken.value] != Free
                      then WithStatus(t, woken.value, Runnable) else t)
            else w
  }

  class EnvTable {
    const mem: Kernel
    const freeEnvs: List            // env_free_list
    var id: seq<int>                // env_id
    var parent: seq<int>            // env_parent_id
    var status: seq<Status>         // env_status
    var curenv: Option<nat>
    ghost var issued: seq<nat>      // allocations of every slot so far

    ghost function Fields(): EnvFields
      reads this
    {
      EnvFields(id, parent, status, issued)
    }

    ghost predicate Valid()
      reads this, mem, mem.free, freeEnvs
    {
      && mem.Valid() && freeEnvs.Valid() && freeEnvs != mem.free && |freeEnvs.next| == NENV
      && Consistent(Fields(), freeEnvs.elems, mem.dirs)
      && (curenv.Some? ==> curenv.value < NENV)
    }

    ghost function Now(): World
      reads this, mem, mem.free, freeEnvs
    {
      World(mem.State(), Fields(), freeEnvs.elems, curenv)
    }

    /** A system call is being made. */
    ghost predicate Running()
      reads this
    {
      |status| == NENV && curenv.Some? && curenv.value < NENV && status[curenv.value] != Free
    }

    /** env_init. */
    constructor (kernel: Kernel)
      requires kernel.Valid() && |kernel.dirs| == NENV + 1 && forall e :: 0 <= e < NENV ==> kernel.dirs[e] == None
      ensures Valid() && mem == kernel && curenv == None && fresh(freeEnvs)
      ensures status == seq(NENV, _ => Free) && issued == seq(NENV, _ => 0)
      ensures freeEnvs.elems == seq(NENV, i => i)
    {
      hide Inv, List.Valid;
      mem := kernel;
      id := seq(NENV, _ => 0);
      parent := seq(NENV, _ => 0);
      status := seq(NENV, _ => Free);
      issued := seq(NENV, _ => 0);
      curenv := None;
      freeEnvs := new List(NENV);
      new;
      var i := NENV;
      while i > 0
        invariant 0 <= i <= NENV && freeEnvs.Valid() && |freeEnvs.next| == NENV
        invariant freeEnvs.elems == seq(NENV - i, j requires j >= 0 => i + j)
        invariant fresh(freeEnvs) && freeEnvs != kernel.free && mem == kernel && kernel.Valid()
        invariant |kernel.dirs| == NENV + 1 && forall e :: 0 <= e < NENV ==> kernel.dirs[e] == None
        invariant id == seq(NENV, _ => 0) && |parent| == NENV && curenv == None
        invariant status == seq(NENV, _ => Free) && issued == seq(NENV, _ => 0)
      {
        i := i - 1;
        freeEnvs.InsertHead(i);
      }
      forall e: nat | e < NENV ensures e in freeEnvs.elems {
        assert freeEnvs.elems[e] == e;
      }
    }

    /** envid2env. */
    method Envid2env(envid: int, checkperm: bool) returns (r: int, e: Option<nat>)
      requires Valid() && (checkperm ==> Running())
      ensures envid == 0 ==> r == 0 && e == curenv
      ensures envid != 0 ==>
                var x := ENVX(envid);
                var ok := Names(Fields(), envid)
                          && (checkperm ==> Some(x) == curenv || parent[x] == id[curenv.value]);
                if ok then r == 0 && e == Some(x) else r == -E_BAD_ENV && e == None
      ensures e.Some? ==> e.value < NENV && (envid != 0 || Running() ==> status[e.value] != Free)
    {
      if envid == 0 {
        return 0, curenv;
      }
      var x := ENVX(envid);
      if status[x] == Free || id[x] != envid {
        return -E_BAD_ENV, None;
      }
      if checkperm && Some(x) != curenv && parent[x] != id[curenv.value] {
        return -E_BAD_ENV, None;
      }
      return 0, Some(x);
    }

    /** env_alloc. */
    method EnvAlloc(parentId: int) returns (r: int, e: nat)
      requires Valid()
      modifies this, mem, mem.free, freeEnvs
      ensures Valid() && curenv == old(curenv)
      ensures r == if old(freeEnvs.elems) == [] then -E_NO_FREE_ENV
                   else if old(mem.free.elems) == [] then -E_NO_MEM else 0
      ensures r < 0 ==>
                mem.State() == old(mem.State()) && Fields() == old(Fields()) && freeEnvs.elems == old(freeEnvs.elems)
      ensures r == 0 ==>
                && e < NENV && e == old(freeEnvs.elems)[0] && freeEnvs.elems == old(freeEnvs.elems)[1..]
                && mem.State() == Setup(old(mem.State()), e)
                && Fields() == Alloc(old(Fields()), e, parentId)
      ensures r == 0 ==>
                && |id| == |parent| == |status| == |old(id)| == |old(parent)| == |old(status)| == NENV
                && parent == old(parent)[e := parentId] && status == old(status)[e := Runnable]
                && id == old(id)[e := id[e]] && id[e] > 0 && id[e] % NENV == e
    {
      hide Inv, Consistent, Setup, List.Valid, NextId;
      freeEnvs.Head();
      if freeEnvs.first == None {
        return -E_NO_FREE_ENV, 0;
      }
      e := freeEnvs.first.value;
      ghost var s, t := mem.State(), Fields();
      BootInBounds(s);
      AllocConsistent(t, freeEnvs.elems, mem.dirs, parentId, if mem.free.elems != [] then mem.free.elems[0] else 0);
      FieldLengths(t, freeEnvs.elems, mem.dirs);
      if mem.free.elems != [] {
        SetupDirs(s, e);
      }
      r := mem.EnvSetupVm(e);
      if r < 0 {
        return r, 0;
      }
      id := id[e := NextId(id[e], e)];
      parent := parent[e := parentId];
      status := status[e := Runnable];
      freeEnvs.Remove(e, 0);
      issued := issued[e := issued[e] + 1];
      assert freeEnvs.elems == old(freeEnvs.elems)[1..];
      assert Fields() == Alloc(t, e, parentId);
      NewIdNamesSlot(Fields(), freeEnvs.elems, mem.dirs, e);
    }

    /** env_free: what the environment held is gone from the tables, and nobody
        else notices. */
    method EnvFree(e: nat)
      requires Valid() && e < NENV && status[e] != Free
      modifies this, mem, mem.free, freeEnvs
      ensures Valid() && curenv == old(curenv)
      ensures Fields() == old(Fields()).(status := old(status)[e := Free])
              && freeEnvs.elems == [e] + old(freeEnvs.elems)
      ensures Freed(old(mem.State()), mem.State(), e)
      ensures forall p :: 0 <= p < |mem.ppref| && p !in mem.reserved ==>
                var g := G(old(mem.State()));
                var mine := RefsTo(g, p) * RefsOf(g, e);
                && |mem.ppref| == old(|mem.ppref|)
                && mem.ppref[p] == old(mem.ppref)[p] - |mine|
                && (p in mem.free.elems <==> p in old(mem.free.elems) || (mine != {} && mine == RefsTo(g, p)))
    {
      hide Inv, SameOthers, Consistent;
      ghost var s := mem.State();
      BootInBounds(s);
      FieldLengths(Fields(), freeEnvs.elems, mem.dirs);
      FreeConsistent(Fields(), freeEnvs.elems, mem.dirs, e);
      mem.FreeSpace(e);
      status := status[e := Free];
      freeEnvs.InsertHead(e);
      forall p | 0 <= p < |mem.ppref| && p !in mem.reserved
        ensures var g := G(s);
                var mine := RefsTo(g, p) * RefsOf(g, e);
                && mem.ppref[p] == s.books.count[p] - |mine|
                && (p in mem.free.elems <==> p in s.books.free || (mine != {} && mine == RefsTo(g, p)))
      {
        TeardownAccounts(s, mem.State(), e, p);
      }
    }

    /** env_destroy, up to the call of the scheduler. */
    method EnvDestroy(e: nat)
      requires Valid() && e < NENV && status[e] != Free
      modifies this, mem, mem.free, freeEnvs
      ensures Valid() && curenv == if old(curenv) == Some(e) then None else old(curenv)
      ensures Fields() == old(Fields()).(status := old(status)[e := Free])
              && freeEnvs.elems == [e] + old(freeEnvs.elems)
      ensures Freed(old(mem.State()), mem.State(), e)
    {
      EnvFree(e);
      if curenv == Some(e) {
        curenv := None;
      }
    }

    // ---- System calls ----

    /** envid2env with permission check. */
    ghost function MayUse(envid: int): Option<nat>
      reads this
      requires |id| == |parent| == |status| == NENV && curenv.Some? && curenv.value < NENV
    {
      Allowed(Fields(), curenv, envid)
    }

    method EnvForCall(envid: int) returns (r: int, e: nat)
      requires Valid() && Running()
      ensures |id| == |parent| == |status| == NENV
      ensures r == if MayUse(envid).Some? then 0 else -E_BAD_ENV
      ensures r == 0 ==> e == MayUse(envid).value && e < NENV && status[e] != Free
                         && |mem.dirs| == NENV + 1 && mem.dirs[e].Some?
    {
      var o;
      r, o := Envid2env(envid, true);
      e := if o.Some? then o.value else 0;
    }

    /** sys_exofork: a child of the running environment, not runnable, with an
        empty user space. */
    method SysExofork() returns (r: int)
      requires Valid() && Running()
      modifies this, mem, mem.free, freeEnvs
      ensures Valid() && curenv == old(curenv)
      ensures if old(freeEnvs.elems) == [] then r == -E_NO_FREE_ENV
              else if old(mem.free.elems) == [] then r == -E_NO_MEM else r > 0
      ensures r < 0 ==>
                mem.State() == old(mem.State()) && Fields() == old(Fields()) && freeEnvs.elems == old(freeEnvs.elems)
      ensures r > 0 ==>
                var c := ENVX(r);
                && c == old(freeEnvs.elems)[0] && freeEnvs.elems == old(freeEnvs.elems)[1..]
                && mem.State() == Setup(old(mem.State()), c) && id[c] == r && status[c] == NotRunnable
                && Fields() == Alloc(old(Fields()), c,
                      old(id)[old(curenv).value]).(status := old(status)[c := NotRunnable])
      ensures r > 0 ==>
                var c := ENVX(r);
                && |id| == |parent| == |status| == |old(id)| == |old(parent)| == |old(status)| == NENV
                && parent == old(parent)[c := id[curenv.value]] && parent[c] == id[curenv.value]
                && id == old(id)[c := r] && status == old(status)[c := NotRunnable] && Some(c) != curenv
                && MayUse(r) == Some(c)
    {
      hide Inv, Setup, List.Valid;
      var c;
      FieldLengths(Fields(), freeEnvs.elems, mem.dirs);
      r, c := EnvAlloc(id[curenv.value]);
      if r < 0 {
        return;
      }
      IdNamesSlot(c, issued[c]);
      status := status[c := NotRunnable];
      r := id[c];
    }

    /** sys_page_alloc. */
    method SysPageAlloc(envid: int, va: nat, perm: nat) returns (r: int)
      requires Valid() && Running() && |id| == |parent| == NENV
      modifies mem, mem.free
      ensures Valid()
      ensures var e := MayUse(envid);
              var s := old(mem.State());
              if !UserVa(va) || !UserPerm(perm) then r == -E_INVAL && mem.State() == s
              else if e == None then r == -E_BAD_ENV && mem.State() == s
              else
                && mem.State() == MapNew(s, e.value, va, perm)
                && r == if MapNewFails(s, e.value, va) then -E_NO_MEM else 0
      ensures var o := MayUse(envid);
              var s := old(mem.State());
              if va >= UTOP || va % PGSIZE != 0 || !UserPerm(perm) then r == -E_INVAL
              else if o == None then r == -E_BAD_ENV
              else if s.books.free == [] || (TableRef(o.value, PDX(va)) !in G(s) && |s.books.free| == 1)
                then r == -E_NO_MEM
              else
                && r == 0 && s.books.free[0] < |mem.frames| && mem.frames[s.books.free[0]] == Zeros()
                && FlatOf(G(mem.State())) ==
                   FlatOf(G(s))[VPage(o.value, VPN(va)) := Entry(s.books.free[0], perm)]
      ensures r < 0 ==> mem.State() == old(mem.State())
    {
      hide Inv, Consistent, MapNew, MapNewFails, UserPerm, FlatOf;
      FieldLengths(Fields(), freeEnvs.elems, mem.dirs);
      if !UserVa(va) || !UserPerm(perm) {
        return -E_INVAL;
      }
      var e;
      r, e := EnvForCall(envid);
      if r < 0 {
        return;
      }
      MapNewAnswer(mem.State(), e, va);
      MapNewCorrect(mem.State(), e, va, perm);
      r := MapNewPage(e, va, perm);
    }

    /** The allocating part of sys_page_alloc. */
    method MapNewPage(e: nat, va: nat, perm: nat) returns (r: int)
      requires mem.Valid() && Mapper(mem.State(), e, va) && UserPerm(perm)
      modifies mem, mem.free
      ensures mem.Valid()
      ensures mem.State() == MapNew(old(mem.State()), e, va, perm) && mem.dirs == old(mem.dirs)
      ensures r == if MapNewFails(old(mem.State()), e, va) then -E_NO_MEM else 0
    {
      hide Inv, Insert, InsertFails, IsData, CanInsert, UserPerm, Target;
      ghost var s := mem.State();
      MapNewKeepsInv(s, e, va, perm);
      var pp;
      r, pp := mem.PageAlloc();
      if r < 0 {
        return;
      }
      MapNewCan(s, e, va);
      ghost var s1 := mem.State();
      r := mem.PageInsert(e, pp, va, perm);
      if r < 0 {
        mem.PageFree(pp);
        mem.flight := mem.flight - {pp};
        assert mem.State() == s;
        return;
      }
      MapNewLookup(s, e, va, perm);
      var found, pte := mem.PageLookup(e, va);
      mem.frames := mem.frames[found.value := Zeros()];
      assert mem.State() == MapNew(s, e, va, perm);
    }

    /** sys_page_map.  The books are in order afterwards unless page_insert ran
        out of memory. */
    method SysPageMap(srcid: int, srcva: nat, dstid: int, dstva: nat, perm: nat) returns (r: int)
      requires Valid() && Running() && |id| == |parent| == NENV
      requires forall p :: 0 <= p < |mem.ppref| ==> mem.ppref[p] + 1 < REF_LIMIT
      modifies mem, mem.free
      ensures r != -E_NO_MEM ==> Valid()
      ensures var src, dst := MayUse(srcid), MayUse(dstid);
              var s := old(mem.State());
              if !UserVa(srcva) || !UserVa(dstva) || !UserPerm(perm) then r == -E_INVAL && mem.State() == s
              else if src == None || dst == None then r == -E_BAD_ENV && mem.State() == s
              else r == MapResult(s, src.value, srcva, dst.value, dstva, perm)
                   && mem.State() == MapShared(s, src.value, srcva, dst.value, dstva, perm)
      ensures var src, dst := MayUse(srcid), MayUse(dstid);
              var s := old(mem.State());
              if srcva >= UTOP || srcva % PGSIZE != 0 || dstva >= UTOP || dstva % PGSIZE != 0 || !UserPerm(perm)
                then r == -E_INVAL
              else if src == None || dst == None then r == -E_BAD_ENV
              else r in {0, -E_INVAL, -E_NO_MEM}
    {
      hide Inv, Consistent, UserPerm, MapShared;
      FieldLengths(Fields(), freeEnvs.elems, mem.dirs);
      if !UserVa(srcva) || !UserVa(dstva) || !UserPerm(perm) {
        return -E_INVAL;
      }
      var src, dst;
      r, src := EnvForCall(srcid);
      if r < 0 {
        return;
      }
      r, dst := EnvForCall(dstid);
      if r < 0 {
        return;
      }
      UserVaOwned(src, srcva);
      InBounds(mem.State(), src, srcva);
      r := MapOldPage(src, srcva, dst, dstva, perm);
    }

    /** The mapping part of sys_page_map. */
    method MapOldPage(src: nat, srcva: nat, dst: nat, dstva: nat, perm: nat) returns (r: int)
      requires mem.Valid() && Mapper(mem.State(), src, srcva) && Mapper(mem.State(), dst, dstva) && UserPerm(perm)
      requires var o := At(mem.Memory(), src, srcva);
               o.Some? ==> o.value.ppn < |mem.ppref| && mem.ppref[o.value.ppn] + 1 < REF_LIMIT
      modifies mem, mem.free
      ensures r != -E_NO_MEM ==> mem.Valid()
      ensures mem.dirs == old(mem.dirs)
      ensures r == MapResult(old(mem.State()), src, srcva, dst, dstva, perm)
      ensures mem.State() == MapShared(old(mem.State()), src, srcva, dst, dstva, perm)
    {
      hide Inv, Insert, InsertFails, IsData;
      ghost var s := mem.State();
      UserVaOwned(src, srcva);
      UserVaOwned(dst, dstva);
      InBounds(s, src, srcva);
      var pp, pte := mem.PageLookup(src, srcva);
      if pp == None {
        return -E_INVAL;
      }
      var w := mem.frames[pte.value.frame][pte.value.index];
      if Writable(perm) && !Writable(Decode(w).perm) {
        return -E_INVAL;
      }
      if MapResult(s, src, srcva, dst, dstva, perm) == 0 {
        MapSharedCorrect(s, src, srcva, dst, dstva, perm);
      }
      r := mem.PageInsert(dst, pp.value, dstva, perm);
      if r < 0 {
        mem.PageFree(pp.value);
      }
    }

    /** sys_page_unmap; `fault` is the null page pointer of page_remove. */
    method SysPageUnmap(envid: int, va: nat) returns (r: int, fault: bool)
      requires Valid() && Running() && |id| == |parent| == NENV
      modifies mem, mem.free
      ensures Valid()
      ensures var e := MayUse(envid);
              var s := old(mem.State());
              if !UserVa(va) then r == -E_INVAL && !fault && mem.State() == s
              else if e == None then r == -E_BAD_ENV && !fault && mem.State() == s
              else r == 0 && mem.State() == Remove(s, e.value, va)
                   && FlatOf(G(mem.State())) == FlatOf(G(s)) - {VPage(e.value, VPN(va))}
                   && (fault <==> Target(s.mem, TableOf(e.value, va)).Some? && At(s.mem, e.value, va) == None)
    {
      hide Inv, Consistent, FlatOf;
      FieldLengths(Fields(), freeEnvs.elems, mem.dirs);
      fault := false;
      if !UserVa(va) {
        return -E_INVAL, false;
      }
      var e;
      r, e := EnvForCall(envid);
      if r < 0 {
        return;
      }
      UserVaOwned(e, va);
      RemoveIsDelete(mem.State(), e, va);
      fault := mem.PageRemove(e, va);
    }

    /** sys_env_set_status. */
    method SysEnvSetStatus(envid: int, st: Status) returns (r: int)
      requires Valid() && Running() && |id| == |parent| == NENV
      modifies this`status
      ensures Valid()
      ensures var e := old(MayUse(envid));
              if st == Free then r == -E_INVAL && status == old(status)
              else if e == None then r == -E_BAD_ENV && status == old(status)
              else r == 0 && e.value < NENV && status == old(status)[e.value := st]
    {
      hide Inv, Consistent;
      FieldLengths(Fields(), freeEnvs.elems, mem.dirs);
      if st == Free {
        return -E_INVAL;
      }
      var e;
      r, e := EnvForCall(envid);
      if r < 0 {
        return;
      }
      SetStatus(e, st);
    }

    /** An environment in use becomes runnable, or stops. */
    method SetStatus(e: nat, st: Status)
      requires Valid() && e < NENV && |status| == NENV && status[e] != Free && st != Free
      modifies this`status
      ensures Valid() && status == old(status)[e := st] && Fields() == WithStatus(old(Fields()), e, st)
    {
      hide Inv, Consistent;
      StatusConsistent(Fields(), freeEnvs.elems, mem.dirs, e, st);
      status := status[e := st];
    }

    /** sys_ipc_try_send, apart from the mailbox: `waits` says whether the receiver
        waits, and at which address it takes a page.  A sender that nobody waits
        for stops. */
    method SysIpcTrySend(envid: int, waits: Option<nat>, srcva: nat, perm: nat) returns (r: int)
      requires Valid() && Orderly(Now()) && Running() && |id| == |parent| == NENV
      requires forall p :: 0 <= p < |mem.ppref| ==> mem.ppref[p] + 1 < REF_LIMIT
      modifies mem, mem.free, this`status
      ensures r != -E_NO_MEM ==> Valid()
      ensures var w := old(Now());
              var d := SendsTo(w, envid);
              if d == None then r == -E_BAD_ENV && Now() == w
              else if !IsReady(w, DoSend(envid, waits, srcva, perm))
                then r == 0 && Now() == w.(t := WithStatus(w.t, w.cur.value, NotRunnable))
              else r == SendResult(w.vm, w.cur.value, d.value, waits.value, srcva, perm)
                   && Now() == AfterSend(w, d.value, waits.value, srcva, perm)
    {
      hide Inv, Consistent, MapShared, MapResult, SendResult, AfterSend;
      FieldLengths(Fields(), freeEnvs.elems, mem.dirs);
      var d;
      r, d := Envid2env(envid, false);
      if r < 0 {
        return;
      }
      if waits == None || d == curenv {
        SetStatus(curenv.value, NotRunnable);
        return;
      }
      r := Deliver(d.value, waits.value, srcva, perm);
    }

    /** The delivery to environment `d`. */
    method Deliver(d: nat, dstva: nat, srcva: nat, perm: nat) returns (r: int)
      requires Valid() && Orderly(Now()) && Running() && d < NENV && status[d] != Free
      requires forall p :: 0 <= p < |mem.ppref| ==> mem.ppref[p] + 1 < REF_LIMIT
      modifies mem, mem.free, this`status
      ensures r != -E_NO_MEM ==> Valid()
      ensures r == SendResult(old(mem.State()), curenv.value, d, dstva, srcva, perm)
      ensures Now() == AfterSend(old(Now()), d, dstva, srcva, perm)
    {
      hide Inv, Consistent, MapShared, MapResult, UserPerm;
      r := 0;
      if WithPage(srcva, dstva) {
        if srcva % PGSIZE != 0 || !UserPerm(perm) {
          return -E_INVAL;
        }
        ghost var s := mem.State();
        HaveDirs(curenv.value, d);
        UserVaOwned(curenv.value, srcva);
        InBounds(s, curenv.value, srcva);
        r := MapOldPage(curenv.value, srcva, d, dstva, perm);
        ResultSign(s, curenv.value, srcva, d, dstva, perm);
        if r < 0 {
          return;
        }
      }
      SetStatus(d, Runnable);
    }

    lemma HaveDirs(e: nat, d: nat)
      requires Valid() && e < NENV && d < NENV && |status| == NENV && status[e] != Free && status[d] != Free
      ensures |mem.dirs| == NENV + 1 && mem.dirs[e].Some? && mem.dirs[d].Some?
    {
    }

    /** sys_ipc_recv, apart from the mailbox: the caller stops, and the sender that
        is next in line, if any, may run. */
    method SysIpcRecv(woken: Option<nat>)
      requires Valid() && Running()
      modifies this`status
      ensures Valid()
      ensures var t := WithStatus(old(Fields()), curenv.value, NotRunnable);
              Fields() == if woken.Some? && woken.value < NENV && old(status)[woken.value] != Free
                          then WithStatus(t, woken.value, Runnable) else t
    {
      hide Inv, Consistent;
      SetStatus(curenv.value, NotRunnable);
      if woken.Some? && woken.value < NENV && status[woken.value] != Free {
        SetStatus(woken.value, Runnable);
      }
    }

    /** Any sequence of calls, as far as they go on: `trace` is what happened, with
        everything in order at every point, and the calls stop exactly at the first
        that meets a null page or runs out of memory half-way through sys_page_map or
        sys_ipc_try_send. */
    method Run(calls: seq<Call>) returns (done: bool, ghost trace: seq<World>)
      requires Valid()
      modifies this, mem, mem.free, freeEnvs
      ensures 0 < |trace| <= |calls| + 1 && trace[0] == old(Now())
      ensures forall i :: 0 <= i < |trace| ==> Orderly(trace[i])
      ensures forall i :: 0 <= i < |trace| - 1 ==> GoesOn(trace[i], calls[i]) && Does(trace[i], calls[i], trace[i + 1])
      ensures done <==> |trace| == |calls| + 1
      ensures if done then Valid() && Now() == trace[|calls|]
              else
                && !GoesOn(trace[|trace| - 1], calls[|trace| - 1])
                && Does(trace[|trace| - 1], calls[|trace| - 1], Now())
    {
      hide Inv, Consistent, GoesOn, Does, Orderly;
      trace := [Now()];
      ValidOrderly();
      for i := 0 to |calls|
        invariant Valid() && |trace| == i + 1 && trace[0] == old(Now()) && trace[i] == Now()
        invariant forall j :: 0 <= j <= i ==> Orderly(trace[j])
        invariant forall j :: 0 <= j < i ==> GoesOn(trace[j], calls[j]) && Does(trace[j], calls[j], trace[j + 1])
      {
        var ok := Perform(calls[i]);
        if !ok {
          return false, trace;
        }
        ValidOrderly();
        trace := trace + [Now()];
      }
      done := true;
    }

    lemma ValidOrderly()
      requires Valid()
      ensures Orderly(Now())
    {
    }

    /** One call.  Returns whether the kernel goes on. */
    method Perform(c: Call) returns (ok: bool)
      requires Valid() && Orderly(Now())
      modifies this, mem, mem.free, freeEnvs
      ensures ok <==> GoesOn(old(Now()), c)
      ensures ok ==> Valid()
      ensures Does(old(Now()), c, Now())
    {
      if c.DoAlloc? || c.DoMap? || c.DoUnmap? || c.DoSend? {
        ok := PerformOnPages(c);
      } else {
        PerformOnTable(c);
        ok := true;
      }
    }

    /** The calls that map and unmap pages. */
    method PerformOnPages(c: Call) returns (ok: bool)
      requires Valid() && Orderly(Now()) && (c.DoAlloc? || c.DoMap? || c.DoUnmap? || c.DoSend?)
      modifies mem, mem.free, this`status
      ensures ok <==> GoesOn(old(Now()), c)
      ensures ok ==> Valid()
      ensures Does(old(Now()), c, Now())
    {
      hide Inv, Consistent, MapNew, MapShared, MapResult, Setup, Remove, List.Valid, Freed, AfterSend, SendResult,
           UserPerm, Target, MapNewFails, FlatOf, GraphOf, PageSys.SameData, PDX, VPN, WithPage;
      FieldLengths(Fields(), freeEnvs.elems, mem.dirs);
      ok := true;
      match c {
        case DoAlloc(envid, va, perm) =>
          if IsAlive() {
            var r := SysPageAlloc(envid, va, perm);
          }
        case DoMap(srcid, srcva, dstid, dstva, perm) =>
          if IsAlive() && forall p :: 0 <= p < |mem.ppref| ==> mem.ppref[p] + 1 < REF_LIMIT {
            var r := SysPageMap(srcid, srcva, dstid, dstva, perm);
            ok := r != -E_NO_MEM;
          }
        case DoUnmap(envid, va) =>
          if IsAlive() {
            var r, fault := SysPageUnmap(envid, va);
            ok := !fault;
          }
        case DoSend(envid, waits, srcva, perm) =>
          if IsAlive() && forall p :: 0 <= p < |mem.ppref| ==> mem.ppref[p] + 1 < REF_LIMIT {
            var r := SysIpcTrySend(envid, waits, srcva, perm);
            ok := r != -E_NO_MEM;
          }
      }
    }

    /** The other calls. */
    method PerformOnTable(c: Call)
      requires Valid() && Orderly(Now()) && !(c.DoAlloc? || c.DoMap? || c.DoUnmap? || c.DoSend?)
      modifies this, mem, mem.free, freeEnvs
      ensures GoesOn(old(Now()), c) && Valid() && Does(old(Now()), c, Now())
    {
      hide Inv, Consistent, MapNew, MapShared, MapResult, Setup, Remove, List.Valid, Freed, AfterSend, SendResult,
           UserPerm, Target, MapNewFails, FlatOf, GraphOf, PageSys.SameData, PDX, VPN, WithPage;
      FieldLengths(Fields(), freeEnvs.elems, mem.dirs);
      match c {
        case DoBoot =>
          var r, e := EnvAlloc(0);
        case DoSwitch(e) =>
          curenv := if e < NENV && status[e] == Runnable then Some(e) else None;
        case DoDestroy(e) =>
          if e < NENV && status[e] != Free {
            EnvDestroy(e);
          }
        case DoExofork =>
          if IsAlive() {
            var r := SysExofork();
          }
        case DoStatus(envid, st) =>
          if IsAlive() {
            var r := SysEnvSetStatus(envid, st);
          }
        case DoRecv(woken) =>
          if IsAlive() {
            SysIpcRecv(woken);
          }
      }
    }

    predicate IsAlive()
      reads this
      requires |status| == NENV
    {
      curenv.Some? && curenv.value < NENV && status[curenv.value] != Free
    }
  }
}
