/** Blocking message passing (sys_ipc_try_send and sys_ipc_recv of kern/syscall.c)
    together with the scheduler. */
module Ipc {
  import opened Queue
  import opened Sched
  import opened Errors
  import opened EnvIds
  import Mmu

  /** The part of struct Env that messages touch. */
  datatype Env = Env(id: int, task: Task, recving: bool, from: int, value: nat, perm: nat, dstva: nat, eax: int)

  /** The environments, the two waiting arrays, and who runs. */
  datatype State = State(envs: seq<Env>, src: seq<int>, dst: seq<int>, cur: Option<nat>)

  function TasksOf(envs: seq<Env>): (ts: Tasks)
    ensures |ts| == |envs| && forall i :: 0 <= i < |envs| ==> ts[i] == envs[i].task
  {
    seq(|envs|, i requires 0 <= i < |envs| => envs[i].task)
  }

  /** The page that goes with a message: what page_lookup finds at `va` (and
      whether it is writable), and whether page_insert runs out of memory. */
  datatype PageArg = PageArg(va: nat, perm: nat, found: Option<bool>, insertFails: bool)

  datatype Op =
    | Send(envid: int, msg: nat, page: PageArg)
    | Recv(va: nat)
    | Yield

  /** envid2env without permission check. */
  function Lookup(s: State, envid: int): Option<nat> {
    if envid == 0 then s.cur
    else
      var x := ENVX(envid);
      if x < |s.envs| && s.envs[x].task.status != Free && s.envs[x].id == envid then Some(x) else None
  }

  function PageError(p: PageArg): int {
    if p.va % Mmu.PGSIZE != 0 then -E_INVAL
    else if !Mmu.UserPerm(p.perm) then -E_INVAL
    else if p.found == None then -E_INVAL
    else if Mmu.Writable(p.perm) && !p.found.value then -E_INVAL
    else if p.insertFails then -E_NO_MEM
    else 0
  }

  predicate Transfers(p: PageArg, e: Env) { p.va < Mmu.UTOP && e.dstva < Mmu.UTOP }

  predicate Waiting(e: Env) { e.recving && e.from == 0 }

  // ---- One system call, up to the point where the scheduler takes over ----

  function SetStatus(e: Env, st: Status): Env { e.(task := e.task.(status := st)) }

  /** The fields of the receiver after a successful send. */
  function Delivered(e: Env, from: int, msg: nat, p: PageArg): Env {
    SetStatus(e, Runnable).(perm := if Transfers(p, e) then p.perm else 0,
                            recving := false, from := from, value := msg, eax := 0)
  }

  function CountSend(e: Env): Env {
    e.(task := e.task.(sended := (e.task.sended + 1) % NO_SENDS), eax := 0)
  }

  /** The first position in `dst` that waits for `id`, or the length. */
  function FirstFor(dst: seq<int>, id: int): nat {
    if dst == [] || dst[0] == id then 0 else 1 + FirstFor(dst[1..], id)
  }

  lemma {:induction false} FirstForCorrect(dst: seq<int>, id: int)
    ensures var i := FirstFor(dst, id);
            && i <= |dst| && (i < |dst| ==> dst[i] == id) && (forall k :: 0 <= k < i ==> dst[k] != id)
  {
    if dst != [] && dst[0] != id {
      FirstForCorrect(dst[1..], id);
    }
  }

  function RemoveAt(s: seq<int>, i: nat): seq<int> {
    if i < |s| then s[..i] + s[i + 1..] else s
  }

  /** What a call does before the scheduler runs, and whether it runs. */
  datatype Effect = Effect(state: State, stops: bool)   // stops: the caller may no longer run, or yields

  function SendEffect(s: State, c: nat, envid: int, msg: nat, p: PageArg): Effect
    requires c < |s.envs|
  {
    var d := Lookup(s, envid);
    if d == None || d.value >= |s.envs| then Effect(s.(envs := s.envs[c := s.envs[c].(eax := -E_BAD_ENV)]), false)
    else if !Waiting(s.envs[d.value]) then
      Effect(s.(envs := s.envs[c := SetStatus(s.envs[c], NotRunnable)],
                src := s.src + [s.envs[c].id], dst := s.dst + [envid]), true)
    else
      var err := if Transfers(p, s.envs[d.value]) then PageError(p) else 0;
      if err != 0 then Effect(s.(envs := s.envs[c := s.envs[c].(eax := err)]), false)
      else
        var envs1 := s.envs[d.value := Delivered(s.envs[d.value], s.envs[c].id, msg, p)];
        Effect(s.(envs := envs1[c := CountSend(envs1[c])]), false)
  }

  function StartRecv(e: Env, va: nat): Env {
    SetStatus(e, NotRunnable).(from := 0, recving := true, dstva := va)
  }

  /** The sender that a receive wakes has to try again. */
  function Woken(e: Env): Env { SetStatus(e, Runnable).(eax := -E_IPC_NOT_RECV) }

  function RecvEffect(s: State, c: nat, va: nat): Effect
    requires c < |s.envs|
  {
    var s1 := s.(envs := s.envs[c := StartRecv(s.envs[c], va)]);
    if va < Mmu.UTOP && va % Mmu.PGSIZE != 0 then
      Effect(s1.(envs := s1.envs[c := s1.envs[c].(eax := -E_INVAL)]), true)
    else
      var i := FirstFor(s.dst, s.envs[c].id);
      if i >= |s.dst| || i >= |s.src| then Effect(s1, true)
      else
        var w := Lookup(s1, s.src[i]);
        if w == None || w.value >= |s1.envs|
          then Effect(s1.(envs := s1.envs[c := s1.envs[c].(eax := -E_BAD_ENV)]), true)
        else
          var envs := s1.envs[w.value := Woken(s1.envs[w.value])];
          Effect(State(envs, RemoveAt(s.src, i), RemoveAt(s.dst, i), s.cur), true)
  }

  function Effects(s: State, op: Op): Effect
    requires s.cur.Some? && s.cur.value < |s.envs|
  {
    match op
    case Send(envid, msg, p) => SendEffect(s, s.cur.value, envid, msg, p)
    case Recv(va) => RecvEffect(s, s.cur.value, va)
    case Yield => Effect(s, true)
  }

  /** One call of the running environment, and whoever runs next. */
  ghost predicate Step(s: State, op: Op, s': State) {
    && s.cur.Some? && s.cur.value < |s.envs|
    && var e := Effects(s, op);
       if e.stops then s' == e.state.(cur := s'.cur) && IsNext(TasksOf(e.state.envs), s.cur, s'.cur)
       else s' == e.state
  }

  // ---- The invariant ----

  /** The environment `id` exists, is stopped, and is not receiving. */
  predicate Sleeping(envs: seq<Env>, id: int) {
    var x := ENVX(id);
    id > 0 && x < |envs| && envs[x].id == id && envs[x].task.status == NotRunnable && !envs[x].recving
  }

  ghost predicate EnvsOk(envs: seq<Env>) {
    && |envs| == NENV
    && (forall i :: 0 <= i < NENV && envs[i].task.status != Free ==> envs[i].id > 0 && ENVX(envs[i].id) == i)
    && (forall i :: 0 <= i < NENV && envs[i].recving ==> envs[i].task.status == NotRunnable && envs[i].from == 0)
    && (forall i :: 0 <= i < NENV ==> envs[i].task.sended < NO_SENDS)
  }

  ghost predicate QueueOk(envs: seq<Env>, src: seq<int>, dst: seq<int>) {
    && |src| == |dst|
    && (forall k :: 0 <= k < |src| ==> Sleeping(envs, src[k]))
    && (forall j, k :: 0 <= j < k < |src| ==> src[j] != src[k])
  }

  predicate Running(envs: seq<Env>, cur: Option<nat>) {
    cur.Some? ==> cur.value < |envs| && envs[cur.value].task.status == Runnable
  }

  /** A receiving environment is stopped and has no sender recorded; queued senders
      are distinct and asleep; ids lead back to their slots; whoever runs may run. */
  ghost predicate Inv(s: State) {
    EnvsOk(s.envs) && QueueOk(s.envs, s.src, s.dst) && Running(s.envs, s.cur)
  }

  lemma NextRuns(envs: seq<Env>, cur: Option<nat>, next: Option<nat>)
    requires IsNext(TasksOf(envs), cur, next)
    ensures Running(envs, next)
  {
  }

  /** A sleeper stays one when the environment in another slot changes. */
  lemma QueueKept(envs: seq<Env>, src: seq<int>, dst: seq<int>, i: nat, e: Env)
    requires QueueOk(envs, src, dst) && i < |envs|
    requires envs[i].task.status == Runnable || envs[i].recving || envs[i].id !in src
    ensures QueueOk(envs[i := e], src, dst)
  {
    forall k | 0 <= k < |src| ensures Sleeping(envs[i := e], src[k]) {
      assert Sleeping(envs, src[k]) && src[k] in src;
    }
  }

  lemma SendKeepsInv(s: State, envid: int, msg: nat, p: PageArg)
    requires Inv(s) && s.cur.Some?
    ensures var e := SendEffect(s, s.cur.value, envid, msg, p);
            && EnvsOk(e.state.envs) && QueueOk(e.state.envs, e.state.src, e.state.dst)
            && (!e.stops ==> Running(e.state.envs, s.cur) && e.state.cur == s.cur)
  {
    hide QueueOk, PageError, Transfers;
    var c := s.cur.value;
    var d := Lookup(s, envid);
    var e := SendEffect(s, c, envid, msg, p);
    if d.Some? && !Waiting(s.envs[d.value]) {
      var asleep := SetStatus(s.envs[c], NotRunnable);
      QueueKept(s.envs, s.src, s.dst, c, asleep);
      JoinQueue(s.envs[c := asleep], s.src, s.dst, s.envs[c].id, envid, s.envs, c);
    } else if d.Some? && e.state.envs != s.envs[c := s.envs[c].(eax := e.state.envs[c].eax)] {
      var filled := Delivered(s.envs[d.value], s.envs[c].id, msg, p);
      QueueKept(s.envs, s.src, s.dst, d.value, filled);
      QueueKept(s.envs[d.value := filled], s.src, s.dst, c, CountSend(s.envs[c]));
    } else {
      QueueKept(s.envs, s.src, s.dst, c, e.state.envs[c]);
    }
  }

  /** A running environment is not queued, so it may join the queue asleep. */
  lemma JoinQueue(envs: seq<Env>, src: seq<int>, dst: seq<int>, id: int, to: int, before: seq<Env>, c: nat)
    requires QueueOk(envs, src, dst) && Sleeping(envs, id)
    requires QueueOk(before, src, dst) && c < |before| && before[c].id == id
    requires before[c].task.status == Runnable && ENVX(id) == c
    ensures QueueOk(envs, src + [id], dst + [to])
  {
    forall k | 0 <= k < |src| ensures src[k] != id {
      assert Sleeping(before, src[k]);
    }
  }

  lemma LeaveQueue(envs: seq<Env>, src: seq<int>, dst: seq<int>, i: nat)
    requires QueueOk(envs, src, dst) && i < |src|
    ensures QueueOk(envs, RemoveAt(src, i), RemoveAt(dst, i)) && src[i] !in RemoveAt(src, i)
  {
    var r := RemoveAt(src, i);
    forall k | 0 <= k < |r| ensures r[k] == src[if k < i then k else k + 1] {
    }
  }

  lemma RecvKeepsInv(s: State, va: nat)
    requires Inv(s) && s.cur.Some?
    ensures var e := RecvEffect(s, s.cur.value, va);
            EnvsOk(e.state.envs) && QueueOk(e.state.envs, e.state.src, e.state.dst) && e.stops
  {
    var c := s.cur.value;
    var me := s.envs[c].id;
    var i := FirstFor(s.dst, me);
    FirstForCorrect(s.dst, me);
    if i < |s.src| {
      SenderExists(s, i);
    }
    hide QueueOk, FirstFor, RemoveAt;
    var started := StartRecv(s.envs[c], va);
    QueueKept(s.envs, s.src, s.dst, c, started);
    var envs1 := s.envs[c := started];
    if va < Mmu.UTOP && va % Mmu.PGSIZE != 0 {
      QueueKept(envs1, s.src, s.dst, c, started.(eax := -E_INVAL));
    } else if i < |s.dst| && i < |s.src| {
      LeaveQueue(envs1, s.src, s.dst, i);
      var w := ENVX(s.src[i]);
      QueueKept(envs1, RemoveAt(s.src, i), RemoveAt(s.dst, i), w, Woken(envs1[w]));
    }
  }

  /** The sender that a receive finds in the arrays still exists. */
  lemma SenderExists(s: State, i: nat)
    requires Inv(s) && s.cur.Some? && i < |s.src|
    ensures var x := ENVX(s.src[i]);
            && Lookup(s, s.src[i]) == Some(x) && x != s.cur.value
            && x < NENV && s.envs[x].id == s.src[i] && s.envs[x].task.status == NotRunnable && !s.envs[x].recving
  {
    assert Sleeping(s.envs, s.src[i]);
  }

  /** Every call keeps the invariant. */
  lemma StepKeepsInv(s: State, op: Op, s': State)
    requires Inv(s) && Step(s, op, s')
    ensures Inv(s')
  {
    hide SendEffect, RecvEffect, IsNext, QueueOk, EnvsOk;
    assert |s.envs| == NENV by { EnvCount(s); }
    var e := Effects(s, op);
    match op {
      case Send(envid, msg, p) => SendKeepsInv(s, envid, msg, p);
      case Recv(va) => RecvKeepsInv(s, va);
      case Yield =>
    }
    if e.stops {
      NextRuns(e.state.envs, s.cur, s'.cur);
    }
  }

  lemma EnvCount(s: State)
    requires Inv(s)
    ensures |s.envs| == NENV && (s.cur.Some? ==> s.cur.value < NENV) && |s.src| == |s.dst|
  {
  }

  // ---- The queue has room ----

  function SlotsOf(q: seq<int>): set<nat> {
    if q == [] then {} else SlotsOf(q[1..]) + {ENVX(q[0])}
  }

  lemma {:induction false} SlotsCount(envs: seq<Env>, q: seq<int>, dst: seq<int>)
    requires QueueOk(envs, q, dst)
    ensures |SlotsOf(q)| == |q|
    ensures forall x :: x in SlotsOf(q) ==> x < |envs| && envs[x].task.status == NotRunnable && envs[x].id in q
  {
    if q != [] {
      assert QueueOk(envs, q[1..], dst[1..]);
      SlotsCount(envs, q[1..], dst[1..]);
      assert Sleeping(envs, q[0]);
      assert q[0] !in q[1..];
      assert ENVX(q[0]) !in SlotsOf(q[1..]);
    }
  }

  function Below(n: nat): (r: set<nat>)
    ensures |r| == n && forall x: nat :: x in r <==> x < n
  {
    if n == 0 then {} else Below(n - 1) + {n - 1}
  }

  /** While somebody runs the waiting arrays are not full, so the overflow panic
      of a send cannot be reached. */
  lemma QueueRoom(s: State)
    requires Inv(s) && s.cur.Some?
    ensures |s.src| < NENV
  {
    hide QueueOk, EnvsOk, Below;
    EnvCount(s);
    SlotsCount(s.envs, s.src, s.dst);
    Subset(SlotsOf(s.src), Below(NENV) - {s.cur.value});
  }

  // ---- What one call does to a mailbox ----

  datatype Mailbox = Mailbox(recving: bool, from: int, value: nat, perm: nat, dstva: nat)

  function BoxOf(e: Env): Mailbox { Mailbox(e.recving, e.from, e.value, e.perm, e.dstva) }

  /** In `s` the call `op` is a send that succeeds in delivering to slot `d`. */
  predicate Delivers(s: State, op: Op, d: nat) {
    && s.cur.Some? && op.Send? && Lookup(s, op.envid) == Some(d) && d < |s.envs|
    && Waiting(s.envs[d]) && (Transfers(op.page, s.envs[d]) ==> PageError(op.page) == 0)
  }

  predicate Receives(s: State, op: Op, d: nat) { op.Recv? && s.cur == Some(d) }

  /** A delivery goes to a mailbox that waits and fills it with the sender's id,
      the value and the permission; a receive empties it and waits; every other
      call, and in particular a send that fails, leaves the mailbox alone. */
  lemma MailboxStep(s: State, op: Op, s': State, d: nat)
    requires Inv(s) && Step(s, op, s') && d < NENV
    ensures |s.envs| == |s'.envs| == NENV && s.cur.Some? && s.cur.value < NENV
    ensures Delivers(s, op, d) ==>
              && s.envs[d].recving && s'.envs[d].task.status == Runnable && s'.envs[d].eax == 0
              && BoxOf(s'.envs[d]) == Mailbox(false, s.envs[s.cur.value].id, op.msg,
                   if op.page.va < Mmu.UTOP && s.envs[d].dstva < Mmu.UTOP then op.page.perm else 0, s.envs[d].dstva)
    ensures Receives(s, op, d) ==>
              !s.envs[d].recving && BoxOf(s'.envs[d]) == BoxOf(s.envs[d]).(recving := true, from := 0, dstva := op.va)
    ensures !Delivers(s, op, d) && !Receives(s, op, d) ==> BoxOf(s'.envs[d]) == BoxOf(s.envs[d])
  {
    hide IsNext, QueueOk, FirstFor, RemoveAt;
  }

  /** A send that succeeds is counted and answered with zero; one that fails is not counted. */
  lemma SendCounts(s: State, op: Op, s': State)
    requires Inv(s) && Step(s, op, s') && op.Send? && s'.cur == s.cur && !Effects(s, op).stops
    ensures s'.envs[s.cur.value].eax == 0 <==> exists d :: Delivers(s, op, d)
    ensures forall i :: 0 <= i < NENV ==>
              s'.envs[i].task.sended == if i == s.cur.value && s'.envs[i].eax == 0
                then (s.envs[i].task.sended + 1) % NO_SENDS
                                        else s.envs[i].task.sended
  {
    hide IsNext, QueueOk;
    var d := Lookup(s, op.envid);
    if d.Some? && Waiting(s.envs[d.value]) && (Transfers(op.page, s.envs[d.value]) ==> PageError(op.page) == 0) {
      assert Delivers(s, op, d.value);
    }
  }

  /** The environment with an id, and the caller under 0. */
  lemma LookupExactly(s: State, envid: int, d: nat)
    requires Inv(s) && d < NENV
    ensures Lookup(s, envid) == Some(d) <==>
            if envid == 0 then s.cur == Some(d) else s.envs[d].task.status != Free && s.envs[d].id == envid
  {
  }

  /** What a send answers its caller: an environment that does not exist, a page that
      cannot go with the message, or zero; without an answer it sleeps. */
  lemma SendAnswer(s: State, op: Op, s': State)
    requires Inv(s) && Step(s, op, s') && op.Send?
    ensures var c, d, p := s.cur.value, Lookup(s, op.envid), op.page;
            var me := s'.envs[c];
            if d == None then me.eax == -E_BAD_ENV && me.task.status == Runnable
            else if !s.envs[d.value].recving then
              me == s.envs[c].(task := s.envs[c].task.(status := NotRunnable))
              && s'.src == s.src + [me.id] && s'.dst == s.dst + [op.envid]
            else if p.va < Mmu.UTOP && s.envs[d.value].dstva < Mmu.UTOP
                    && (p.va % Mmu.PGSIZE != 0 || !Mmu.UserPerm(p.perm) || p.found == None
                        || (Mmu.Writable(p.perm) && !p.found.value))
              then me.eax == -E_INVAL && me.task.status == Runnable && !Delivers(s, op, d.value)
            else if p.va < Mmu.UTOP && s.envs[d.value].dstva < Mmu.UTOP && p.insertFails
              then me.eax == -E_NO_MEM && me.task.status == Runnable && !Delivers(s, op, d.value)
            else me.eax == 0 && me.task.status == Runnable && Delivers(s, op, d.value)
    ensures Lookup(s, op.envid) == None || s.envs[Lookup(s, op.envid).value].recving ==>
              s'.src == s.src && s'.dst == s.dst && s'.cur == s.cur
  {
    hide IsNext, QueueOk, Mmu.UserPerm, Mmu.Writable;
  }

  /** The sender that a receive of `me` wakes: the first that is queued for it. */
  ghost predicate FirstFrom(s: State, me: int, id: int) {
    |s.src| == |s.dst|
    && exists k :: 0 <= k < |s.src| && s.src[k] == id && s.dst[k] == me && forall j :: 0 <= j < k ==> s.dst[j] != me
  }

  /** What a receive does: its caller stops, a bad address is answered with
      -E_INVAL, and otherwise the first sender in line may run again. */
  lemma RecvAnswer(s: State, op: Op, s': State, i: nat)
    requires Inv(s) && Step(s, op, s') && op.Recv? && i < NENV
    ensures s.cur.Some? && s.cur.value < |s.envs| == |s'.envs| == NENV
    ensures var bad := op.va < Mmu.UTOP && op.va % Mmu.PGSIZE != 0;
            var e, e' := s.envs[i], s'.envs[i];
            if i == s.cur.value then
              && e'.task.status == NotRunnable && e'.recving && e'.dstva == op.va
              && e'.eax == if bad then -E_INVAL else e.eax
            else if !bad && e.task.status != Free && FirstFrom(s, s.envs[s.cur.value].id, e.id) then
              e' == e.(task := e.task.(status := Runnable), eax := -E_IPC_NOT_RECV)
            else e' == e
  {
    hide IsNext;
    var me := s.envs[s.cur.value].id;
    var k := FirstFor(s.dst, me);
    FirstForCorrect(s.dst, me);
    EnvCount(s);
    if k < |s.src| {
      SenderExists(s, k);
      assert FirstFrom(s, me, s.src[k]);
    }
    forall id | FirstFrom(s, me, id) ensures k < |s.src| && id == s.src[k] {
    }
  }

  /** No call changes what it is not about: a send its receiver, its caller and the
      lines; a yield nothing but who runs; no call ids or priorities. */
  lemma CallFrame(s: State, op: Op, s': State, i: nat)
    requires Inv(s) && Step(s, op, s') && i < NENV
    ensures s.cur.Some? && s.cur.value < |s.envs| == |s'.envs| == NENV
    ensures s'.envs[i].id == s.envs[i].id && s'.envs[i].task.priority == s.envs[i].task.priority
    ensures op.Send? && i != s.cur.value && !Delivers(s, op, i) ==> s'.envs[i] == s.envs[i]
    ensures op.Yield? ==> s'.envs == s.envs && s'.src == s.src && s'.dst == s.dst
  {
    hide IsNext, QueueOk;
    EnvCount(s);
    if op.Recv? {
      RecvAnswer(s, op, s', i);
      hide RecvEffect, Step;
      if i == s.cur.value {
        OwnRecv(s, op, s');
      }
    }
  }

  /** Who runs after a call: whoever the scheduler picks when the caller yields,
      receives or has to wait, and otherwise the caller. */
  lemma RunsNext(s: State, op: Op, s': State)
    requires Inv(s) && Step(s, op, s')
    ensures var waits := op.Send? && Lookup(s, op.envid).Some? && !s.envs[Lookup(s, op.envid).value].recving;
            if op.Yield? || op.Recv? || waits then IsNext(TasksOf(s'.envs), s.cur, s'.cur) else s'.cur == s.cur
  {
    hide IsNext, QueueOk, FirstFor, RemoveAt;
    if op.Recv? {
      RecvKeepsInv(s, op.va);
    }
  }

  lemma OwnRecv(s: State, op: Op, s': State)
    requires Inv(s) && Step(s, op, s') && op.Recv?
    ensures var e, e' := s.envs[s.cur.value], s'.envs[s.cur.value];
            e'.id == e.id && e'.task.priority == e.task.priority
  {
    hide IsNext, RemoveAt, FirstFor;
  }

  // ---- Whole runs ----

  ghost predicate Run(states: seq<State>, ops: seq<Op>) {
    && |states| == |ops| + 1
    && forall k :: 0 <= k < |ops| ==> Step(states[k], ops[k], states[k + 1])
  }

  /** The invariant holds throughout every run that starts with it. */
  lemma {:induction false} InvForever(states: seq<State>, ops: seq<Op>, k: nat)
    requires Run(states, ops) && Inv(states[0]) && k < |states|
    ensures Inv(states[k])
  {
    hide Inv, Step;
    if k > 0 {
      InvForever(states, ops, k - 1);
      StepKeepsInv(states[k - 1], ops[k - 1], states[k]);
    }
  }

  /** Neither a delivery to `d` nor a receive by `d` happens in calls from..to. */
  ghost predicate Quiet(states: seq<State>, ops: seq<Op>, d: nat, from: nat, to: nat) {
    forall i :: from <= i < to < |states| && i < |ops| ==>
      !Delivers(states[i], ops[i], d) && !Receives(states[i], ops[i], d)
  }

  /** A delivered message stays in the mailbox, whatever happens, until the
      receiver's next receive; meanwhile nobody else delivers to it. */
  lemma {:induction false} MessageKept(states: seq<State>, ops: seq<Op>, d: nat, j: nat, k: nat)
    requires Run(states, ops) && Inv(states[0]) && d < NENV && j < k < |states|
    requires Delivers(states[j], ops[j], d)
    requires forall i :: j < i < k ==> !Receives(states[i], ops[i], d)
    ensures Quiet(states, ops, d, j + 1, k)
    ensures |states[k].envs| == |states[j].envs| == NENV && states[j].cur.Some? && states[j].cur.value < NENV
    ensures BoxOf(states[k].envs[d]) == Mailbox(false, states[j].envs[states[j].cur.value].id, ops[j].msg,
              if Transfers(ops[j].page, states[j].envs[d]) then ops[j].page.perm else 0, states[j].envs[d].dstva)
  {
    hide Inv, Step, Delivers, Receives;
    InvForever(states, ops, k - 1);
    MailboxStep(states[k - 1], ops[k - 1], states[k], d);
    SendsOnly(states[j], ops[j], d);
    if k - 1 > j {
      MessageKept(states, ops, d, j, k - 1);
    }
  }

  lemma SendsOnly(s: State, op: Op, d: nat)
    requires Delivers(s, op, d)
    ensures op.Send? && s.cur.Some? && !Receives(s, op, d)
  {
  }

  /** A receiving environment does not run and has no sender recorded, at every
      moment of every run. */
  lemma RecvingSleeps(states: seq<State>, ops: seq<Op>, d: nat, k: nat)
    requires Run(states, ops) && Inv(states[0]) && d < NENV && k < |states|
    ensures |states[k].envs| == NENV
    ensures states[k].envs[d].recving ==>
              states[k].envs[d].task.status == NotRunnable && states[k].envs[d].from == 0 && states[k].cur != Some(d)
  {
    InvForever(states, ops, k);
  }

  /** Every successful send has its own receive: the last thing that happened to
      a mailbox that waits is a receive by its owner. */
  lemma {:induction false} DeliveryHasReceive(states: seq<State>, ops: seq<Op>, d: nat, k: nat) returns (i: nat)
    requires Run(states, ops) && Inv(states[0]) && d < NENV && k < |states|
    requires |states[0].envs| == |states[k].envs| == NENV && !states[0].envs[d].recving && states[k].envs[d].recving
    ensures i < k && Receives(states[i], ops[i], d) && Quiet(states, ops, d, i + 1, k)
  {
    hide Inv, Step, Delivers, Receives;
    InvForever(states, ops, k - 1);
    MailboxStep(states[k - 1], ops[k - 1], states[k], d);
    if Receives(states[k - 1], ops[k - 1], d) {
      i := k - 1;
    } else {
      i := DeliveryHasReceive(states, ops, d, k - 1);
    }
  }

  /** How often `d` has received, less how often something was delivered to it. */
  ghost function Owed(states: seq<State>, ops: seq<Op>, d: nat, k: nat): int
    requires k <= |ops| && |states| == |ops| + 1
  {
    if k == 0 then 0
    else
      Owed(states, ops, d, k - 1) + (if Receives(states[k - 1], ops[k - 1], d) then 1 else 0)
      - (if Delivers(states[k - 1], ops[k - 1], d) then 1 else 0)
  }

  /** Receives and deliveries alternate: at every moment of a run the receives
      outnumber the deliveries by exactly the one that is still waiting. */
  lemma {:induction false} SendsPairWithReceives(states: seq<State>, ops: seq<Op>, d: nat, k: nat)
    requires Run(states, ops) && Inv(states[0]) && d < NENV && k < |states|
    ensures |states[0].envs| == |states[k].envs| == NENV
    ensures Owed(states, ops, d, k) ==
            (if states[k].envs[d].recving then 1 else 0) - (if states[0].envs[d].recving then 1 else 0)
  {
    hide Inv, Step, Delivers, Receives;
    EnvCount(states[0]);
    if k > 0 {
      SendsPairWithReceives(states, ops, d, k - 1);
      InvForever(states, ops, k - 1);
      OwedStep(states[k - 1], ops[k - 1], states[k], d);
    }
  }

  lemma OwedStep(s: State, op: Op, s': State, d: nat)
    requires Inv(s) && Step(s, op, s') && d < NENV
    ensures |s.envs| == |s'.envs| == NENV
    ensures (if s'.envs[d].recving then 1 else 0) - (if s.envs[d].recving then 1 else 0) ==
            (if Receives(s, op, d) then 1 else 0) - (if Delivers(s, op, d) then 1 else 0)
  {
    hide Inv, Step, Delivers, Receives;
    MailboxStep(s, op, s', d);
    if Delivers(s, op, d) {
      SendsOnly(s, op, d);
    }
  }

  // ---- The queue is first-in first-out for every destination ----

  /** The senders queued for `id`, oldest first. */
  function Pending(src: seq<int>, dst: seq<int>, id: int): seq<int>
    requires |src| == |dst|
  {
    if src == [] then []
    else
      var n := |src| - 1;
      Pending(src[..n], dst[..n], id) + if dst[n] == id then [src[n]] else []
  }

  lemma {:induction false} NoPending(src: seq<int>, dst: seq<int>, id: int)
    requires |src| == |dst| && id !in dst
    ensures Pending(src, dst, id) == []
  {
    if src != [] {
      NoPending(src[..|src| - 1], dst[..|src| - 1], id);
    }
  }

  lemma RemoveBeforeLast(s: seq<int>, i: nat)
    requires i < |s| - 1
    ensures var n := |s| - 1; RemoveAt(s, i) == RemoveAt(s[..n], i) + [s[n]] && |RemoveAt(s[..n], i)| == n - 1
  {
  }

  lemma PendingAppend(src: seq<int>, dst: seq<int>, from: int, to: int, id: int)
    requires |src| == |dst|
    ensures Pending(src + [from], dst + [to], id) == Pending(src, dst, id) + if to == id then [from] else []
  {
    assert (src + [from])[..|src|] == src && (dst + [to])[..|src|] == dst;
  }

  /** Taking out the first pair for one destination takes that destination's
      oldest sender and leaves every other destination's senders in order. */
  lemma {:induction false} PendingRemove(src: seq<int>, dst: seq<int>, i: nat, id: int)
    requires |src| == |dst| && i < |src| && dst[i] !in dst[..i]
    ensures |RemoveAt(src, i)| == |RemoveAt(dst, i)| == |src| - 1
    ensures Pending(src, dst, id) ==
            (if id == dst[i] then [src[i]] else []) + Pending(RemoveAt(src, i), RemoveAt(dst, i), id)
    decreases |src|, 1
  {
    var n := |src| - 1;
    if i == n {
      assert RemoveAt(src, i) == src[..n] && RemoveAt(dst, i) == dst[..n];
      if id == dst[i] {
        NoPending(src[..n], dst[..n], id);
      }
    } else {
      PendingRemoveEarlier(src, dst, i, id);
    }
  }

  lemma {:induction false} PendingRemoveEarlier(src: seq<int>, dst: seq<int>, i: nat, id: int)
    requires |src| == |dst| && i < |src| - 1 && dst[i] !in dst[..i]
    ensures |RemoveAt(src, i)| == |RemoveAt(dst, i)| == |src| - 1
    ensures Pending(src, dst, id) ==
            (if id == dst[i] then [src[i]] else []) + Pending(RemoveAt(src, i), RemoveAt(dst, i), id)
    decreases |src|, 0
  {
    hide RemoveAt;
    var n := |src| - 1;
    assert dst[..n][..i] == dst[..i];
    PendingRemove(src[..n], dst[..n], i, id);
    RemoveBeforeLast(src, i);
    RemoveBeforeLast(dst, i);
    PendingAppend(RemoveAt(src[..n], i), RemoveAt(dst[..n], i), src[n], dst[n], id);
  }

  function PendingFor(s: State, id: int): seq<int>
    requires |s.src| == |s.dst|
  {
    Pending(s.src, s.dst, id)
  }

  /** The sender that this call puts in the queue for `id`. */
  ghost function Enqueued(s: State, op: Op, id: int): seq<int> {
    if s.cur.Some? && s.cur.value < |s.envs| && op.Send? && op.envid == id && Effects(s, op).stops
    then [s.envs[s.cur.value].id] else []
  }

  /** The sender that this call wakes because the environment `id` receives. */
  ghost function Awakened(s: State, op: Op, id: int): seq<int> {
    if s.cur.Some? && s.cur.value < |s.envs| && op.Recv? && s.envs[s.cur.value].id == id
      && (op.va >= Mmu.UTOP || op.va % Mmu.PGSIZE == 0)
       && |s.src| == |s.dst| && PendingFor(s, id) != []
    then PendingFor(s, id)[..1] else []
  }

  /** A call lengthens the line of a destination at its end or shortens it at its
      front, and leaves the lines of all others alone. */
  lemma QueueStep(s: State, op: Op, s': State, id: int)
    requires Inv(s) && Step(s, op, s')
    ensures |s.src| == |s.dst| && |s'.src| == |s'.dst|
    ensures PendingFor(s, id) + Enqueued(s, op, id) == Awakened(s, op, id) + PendingFor(s', id)
  {
    hide IsNext, Pending, RemoveAt, FirstFor, EnvsOk, PageError, Transfers;
    EnvCount(s);
    match op {
      case Send(envid, msg, p) =>
        if Effects(s, op).stops {
          PendingAppend(s.src, s.dst, s.envs[s.cur.value].id, envid, id);
        }
      case Recv(va) =>
        var me := s.envs[s.cur.value].id;
        var i := FirstFor(s.dst, me);
        FirstForCorrect(s.dst, me);
        if va < Mmu.UTOP && va % Mmu.PGSIZE != 0 {
        } else if i < |s.dst| {
          SenderExists(s, i);
          PendingRemove(s.src, s.dst, i, id);
        } else {
          NoPending(s.src, s.dst, me);
        }
      case Yield =>
    }
  }

  /** A sleeping sender is made runnable by nothing but its turn in the queue, and
      then its call returns -E_IPC_NOT_RECV. */
  lemma WokenInTurn(s: State, op: Op, s': State, id: int)
    requires Inv(s) && Step(s, op, s') && id in s.src
    ensures var x := ENVX(id);
            && x < |s.envs| && x < |s'.envs| && s'.envs[x].id == id
            && (s'.envs[x].task.status == Runnable <==> exists to :: id in Awakened(s, op, to))
            && (s'.envs[x].task.status == Runnable ==> s'.envs[x].eax == -E_IPC_NOT_RECV && id !in s'.src)
            && (s'.envs[x].task.status != Runnable ==> id in s'.src)
  {
    hide IsNext, Pending, FirstFor, PageError, Transfers;
    var x := ENVX(id);
    assert Sleeping(s.envs, id);
    StepKeepsInv(s, op, s');
    var me := s.envs[s.cur.value].id;
    forall to | to != me ensures Awakened(s, op, to) == [] {
    }
    match op {
      case Send(envid, msg, p) =>
      case Recv(va) =>
        var i := FirstFor(s.dst, me);
        FirstForCorrect(s.dst, me);
        if va < Mmu.UTOP && va % Mmu.PGSIZE != 0 {
        } else if i < |s.dst| {
          SenderExists(s, i);
          PendingRemove(s.src, s.dst, i, me);
          assert Awakened(s, op, me) == [s.src[i]];
          WokenIsFirst(s, i, id);
        } else {
          NoPending(s.src, s.dst, me);
        }
      case Yield =>
    }
  }

  lemma WokenIsFirst(s: State, i: nat, id: int)
    requires Inv(s) && i < |s.src| && id in s.src
    ensures id in RemoveAt(s.src, i) <==> id != s.src[i]
    ensures id != s.src[i] ==> ENVX(id) != ENVX(s.src[i])
  {
    var k :| 0 <= k < |s.src| && s.src[k] == id;
    assert Sleeping(s.envs, id) && Sleeping(s.envs, s.src[i]);
    RemovedOne(s.src, i, k);
    assert forall j :: 0 <= j < |s.src| && j != i ==> s.src[j] != s.src[i];
  }

  lemma RemovedOne(q: seq<int>, i: nat, k: nat)
    requires i < |q| && k < |q|
    requires forall a, b :: 0 <= a < b < |q| ==> q[a] != q[b]
    ensures q[k] in RemoveAt(q, i) <==> k != i
  {
    if k < i {
      assert RemoveAt(q, i)[k] == q[k];
    } else if k > i {
      assert RemoveAt(q, i)[k - 1] == q[k];
    }
  }

  /** All that was queued for `id` in the first k calls, in order. */
  ghost function EnqueuedBy(states: seq<State>, ops: seq<Op>, id: int, k: nat): seq<int>
    requires k <= |ops| && |states| == |ops| + 1
  {
    if k == 0 then [] else EnqueuedBy(states, ops, id, k - 1) + Enqueued(states[k - 1], ops[k - 1], id)
  }

  ghost function AwakenedBy(states: seq<State>, ops: seq<Op>, id: int, k: nat): seq<int>
    requires k <= |ops| && |states| == |ops| + 1
  {
    if k == 0 then [] else AwakenedBy(states, ops, id, k - 1) + Awakened(states[k - 1], ops[k - 1], id)
  }

  /** First in, first out: over every run the senders woken for `id`, followed by
      those still waiting, are the ones waiting at the start followed by the ones
      queued since, in that order. */
  lemma {:induction false} FirstInFirstOut(states: seq<State>, ops: seq<Op>, id: int, k: nat)
    requires Run(states, ops) && Inv(states[0]) && k < |states|
    ensures |states[0].src| == |states[0].dst| && |states[k].src| == |states[k].dst|
    ensures PendingFor(states[0], id) + EnqueuedBy(states, ops, id, k)
              == AwakenedBy(states, ops, id, k) + PendingFor(states[k], id)
  {
    assert |states[0].src| == |states[0].dst|;
    hide Inv, Step, Enqueued, Awakened, PendingFor;
    if k > 0 {
      FirstInFirstOut(states, ops, id, k - 1);
      InvForever(states, ops, k - 1);
      var s, s', op := states[k - 1], states[k], ops[k - 1];
      QueueStep(s, op, s', id);
      Extend(PendingFor(states[0], id), EnqueuedBy(states, ops, id, k - 1), AwakenedBy(states, ops, id, k - 1),
             PendingFor(s, id), Enqueued(s, op, id), Awakened(s, op, id), PendingFor(s', id));
    }
  }

  lemma Extend(q0: seq<int>, en: seq<int>, aw: seq<int>, p: seq<int>, e: seq<int>, a: seq<int>, p': seq<int>)
    requires q0 + en == aw + p && p + e == a + p'
    ensures q0 + (en + e) == (aw + a) + p'
  {
    assert q0 + (en + e) == (q0 + en) + e;
    assert (aw + p) + e == aw + (p + e);
    assert aw + (a + p') == (aw + a) + p';
  }

  // ---- Sends that are never answered ----

  /** Each of `ids` is queued for another of them, or for 0, which is nobody's id. */
  ghost predicate WaitInside(s: State, ids: set<int>) {
    |s.src| == |s.dst|
    && forall id :: id in ids ==> exists k :: 0 <= k < |s.src| && s.src[k] == id && (s.dst[k] == 0 || s.dst[k] in ids)
  }

  /** No call takes one of them out: only its destination could, which sleeps too. */
  lemma WaitInsideStep(s: State, op: Op, s': State, ids: set<int>)
    requires Inv(s) && Step(s, op, s') && WaitInside(s, ids)
    ensures WaitInside(s', ids)
  {
    hide EnvsOk, IsNext;
    match op {
      case Send(_, _, _) => MoreQueued(s, s', ids);
      case Yield =>
      case Recv(va) =>
        var me := s.envs[s.cur.value].id;
        var i := FirstFor(s.dst, me);
        FirstForCorrect(s.dst, me);
        if s'.src != s.src {
          RunnerOutside(s);
          if me in ids {
            InsideQueued(s, ids, me);
          }
          OneTakenOut(s, s', ids, i);
        }
    }
  }

  lemma MoreQueued(s: State, s': State, ids: set<int>)
    requires WaitInside(s, ids) && s.src <= s'.src && s.dst <= s'.dst && |s'.src| == |s'.dst|
    ensures WaitInside(s', ids)
  {
    forall id | id in ids
      ensures exists k :: 0 <= k < |s'.src| && s'.src[k] == id && (s'.dst[k] == 0 || s'.dst[k] in ids)
    {
      var k :| 0 <= k < |s.src| && s.src[k] == id && (s.dst[k] == 0 || s.dst[k] in ids);
      assert s'.src[k] == id && s'.dst[k] == s.dst[k];
    }
  }

  /** Whoever runs is not queued, and has an id above 0. */
  lemma RunnerOutside(s: State)
    requires Inv(s) && s.cur.Some?
    ensures s.envs[s.cur.value].id > 0 && s.envs[s.cur.value].id !in s.src && !s.envs[s.cur.value].recving
  {
    var me := s.envs[s.cur.value].id;
    forall k | 0 <= k < |s.src| ensures s.src[k] != me {
      assert Sleeping(s.envs, s.src[k]);
    }
  }

  lemma InsideQueued(s: State, ids: set<int>, id: int)
    requires WaitInside(s, ids) && id in ids
    ensures id in s.src
  {
  }

  lemma OneTakenOut(s: State, s': State, ids: set<int>, i: nat)
    requires WaitInside(s, ids) && i < |s.src| && s.dst[i] != 0 && s.dst[i] !in ids
    requires s'.src == RemoveAt(s.src, i) && s'.dst == RemoveAt(s.dst, i)
    requires forall j, k :: 0 <= j < k < |s.src| ==> s.src[j] != s.src[k]
    ensures WaitInside(s', ids)
  {
    forall id | id in ids
      ensures exists k :: 0 <= k < |s'.src| && s'.src[k] == id && (s'.dst[k] == 0 || s'.dst[k] in ids)
    {
      var k :| 0 <= k < |s.src| && s.src[k] == id && (s.dst[k] == 0 || s.dst[k] in ids);
      var k' := if k < i then k else k - 1;
      assert s'.src[k'] == id && s'.dst[k'] == s.dst[k];
    }
  }

  /** Environments that wait for one another stay queued and asleep in every
      later state of every run. */
  lemma {:induction false} WaitInsideForever(states: seq<State>, ops: seq<Op>, ids: set<int>, k: nat)
    requires Run(states, ops) && Inv(states[0]) && WaitInside(states[0], ids) && k < |states|
    ensures WaitInside(states[k], ids)
    ensures forall id :: id in ids ==> Sleeping(states[k].envs, id) && id in states[k].src
  {
    hide Step;
    if k > 0 {
      WaitInsideForever(states, ops, ids, k - 1);
      InvForever(states, ops, k - 1);
      WaitInsideStep(states[k - 1], ops[k - 1], states[k], ids);
    }
    InvForever(states, ops, k);
    forall id | id in ids ensures Sleeping(states[k].envs, id) && id in states[k].src {
      var j :| 0 <= j < |states[k].src| && states[k].src[j] == id;
    }
  }

  /** The two ways to name oneself, and no other. */
  lemma NamesSelf(s: State, envid: int)
    requires Inv(s) && s.cur.Some?
    ensures Lookup(s, envid) == s.cur <==> envid == 0 || envid == s.envs[s.cur.value].id
  {
  }

  /** A send queues its caller for itself if and only if it names the caller; the
      caller is not receiving, so such a send always queues. */
  lemma SelfSendQueues(s: State, op: Op, s': State)
    requires Inv(s) && Step(s, op, s') && op.Send?
    ensures var me := s.envs[s.cur.value].id;
            Lookup(s, op.envid) == s.cur <==> WaitInside(s', {me})
  {
    hide EnvsOk, IsNext, PageError, Transfers, WaitInside;
    var me := s.envs[s.cur.value].id;
    EnvCount(s);
    NamesSelf(s, op.envid);
    RunnerOutside(s);
    InsideAlone(s', me);
    if s'.src == s.src + [me] && s'.dst == s.dst + [op.envid] {
      assert s'.src[|s.src|] == me && s'.dst[|s.src|] == op.envid;
    }
  }

  lemma InsideAlone(s: State, id: int)
    requires |s.src| == |s.dst|
    ensures WaitInside(s, {id}) <==> exists k :: 0 <= k < |s.src| && s.src[k] == id && (s.dst[k] == 0 || s.dst[k] == id)
  {
  }

  /** A send to oneself, by 0 or by one's own id, is never answered: its caller is
      asleep in every later state of every run. */
  lemma SelfSendSleepsForever(states: seq<State>, ops: seq<Op>, k: nat)
    requires Run(states, ops) && Inv(states[0]) && 0 < k < |states|
    requires ops[0].Send? && Lookup(states[0], ops[0].envid) == states[0].cur
    ensures states[0].cur.Some? && states[0].cur.value < |states[0].envs|
    ensures Sleeping(states[k].envs, states[0].envs[states[0].cur.value].id)
  {
    assert Step(states[0], ops[0], states[1]);
    hide Step, Inv;
    StepKeepsInv(states[0], ops[0], states[1]);
    SelfSendQueues(states[0], ops[0], states[1]);
    WaitInsideForever(states[1..], ops[1..], {states[0].envs[states[0].cur.value].id}, k - 1);
  }

  const LONELY_ID: int := NENV + 1

  /** One environment, in slot 1, which runs. */
  function Lonely(): State {
    State(seq(NENV, i => if i == 1 then Env(LONELY_ID, Task(Runnable, 0, 0), false, 0, 0, 0, 0, 0)
                         else Env(0, Task(Free, 0, 0), false, 0, 0, 0, 0, 0)),
          [], [], Some(1))
  }

  /** Either way to name itself stops it for good, and nobody runs. */
  lemma LonelySend(envid: int, msg: nat, p: PageArg)
    requires envid == 0 || envid == LONELY_ID
    ensures Inv(Lonely())
    ensures var s := Lonely();
            var s' := State(s.envs[1 := SetStatus(s.envs[1], NotRunnable)], [LONELY_ID], [envid], None);
            Step(s, Send(envid, msg, p), s') && WaitInside(s', {LONELY_ID})
  {
    var s := Lonely();
    var s' := State(s.envs[1 := SetStatus(s.envs[1], NotRunnable)], [LONELY_ID], [envid], None);
    assert Lookup(s, envid) == Some(1);
    assert s'.src[0] == LONELY_ID && s'.dst[0] == envid;
    forall i ensures !Eligible(TasksOf(s'.envs), i) {
    }
  }

  /** Nor are two sends to each other. */
  lemma CrossSendQueues(s: State, op: Op, s': State, k: nat)
    requires Inv(s) && Step(s, op, s') && op.Send? && k < |s.src|
    requires s.dst[k] == s.envs[s.cur.value].id && op.envid == s.src[k]
    ensures WaitInside(s', {s.src[k], s.envs[s.cur.value].id})
  {
    hide EnvsOk, IsNext, PageError, Transfers;
    assert Sleeping(s.envs, s.src[k]);
    var me := s.envs[s.cur.value].id;
    assert s'.src == s.src + [me] && s'.dst == s.dst + [op.envid];
    assert s'.src[k] == s.src[k] && s'.dst[k] == me;
    assert s'.src[|s.src|] == me && s'.dst[|s.src|] == s.src[k];
  }

  /** In every reachable state the idle environment is not chosen while another
      environment can run, because no send counter reaches 0xffffffff. */
  lemma IdleNeverPreempts(s: State, op: Op, s': State, i: nat)
    requires Inv(s) && Step(s, op, s') && Effects(s, op).stops
    requires 0 < i < |Effects(s, op).state.envs| && Effects(s, op).state.envs[i].task.status == Runnable
    ensures s'.cur.Some? && s'.cur.value != 0
  {
    StepKeepsInv(s, op, s');
    hide Inv;
    var ts := TasksOf(Effects(s, op).state.envs);
    assert Candidate(ts, i);
    assert ts[i].sended < NO_SENDS by { CountersBounded(s', i); }
    IdleOnlyWhenAlone(ts, s.cur, s'.cur);
  }

  lemma CountersBounded(s: State, i: nat)
    requires Inv(s) && i < NENV
    ensures |s.envs| == NENV && s.envs[i].task.sended < NO_SENDS
  {
  }

  // ---- The counters of sends, over runs ----

  /** The call completes a send. */
  ghost predicate Counts(s: State, op: Op) { exists d :: Delivers(s, op, d) }

  /** Only a completed send changes a counter, and its caller goes on. */
  lemma CounterStep(s: State, op: Op, s': State)
    requires Inv(s) && Step(s, op, s')
    ensures s.cur.Some? && s.cur.value < |s.envs| == |s'.envs| == NENV
    ensures Counts(s, op) ==> s'.cur == s.cur && !Effects(s, op).stops
    ensures forall i :: 0 <= i < NENV ==>
              s'.envs[i].task.sended == if Counts(s, op) && i == s.cur.value then (s.envs[i].task.sended + 1) % NO_SENDS
                                        else s.envs[i].task.sended
  {
    hide IsNext, QueueOk, FirstFor, RemoveAt;
    if op.Send? {
      var d := Lookup(s, op.envid);
      if d.Some? && Waiting(s.envs[d.value]) && (Transfers(op.page, s.envs[d.value]) ==> PageError(op.page) == 0) {
        assert Delivers(s, op, d.value);
      }
    }
  }

  /** The counters of the members are within one of each other. */
  ghost predicate LevelIn(s: State, r: set<nat>) { Level(TasksOf(s.envs), r) }

  /** Whoever runs has no more completed sends than any member. */
  ghost predicate Least(s: State, r: set<nat>) {
    && s.cur.Some? && s.cur.value < |s.envs|
    && forall j :: j in r ==> j < |s.envs| && s.envs[s.cur.value].task.sended <= s.envs[j].task.sended
  }

  /** A call that takes no counter beyond its range. */
  ghost predicate NoWrap(s: State, op: Op)
    requires s.cur.Some? && s.cur.value < |s.envs|
  {
    Counts(s, op) ==> s.envs[s.cur.value].task.sended + 1 < NO_SENDS
  }

  ghost predicate MemberSends(s: State, op: Op, r: set<nat>) { Counts(s, op) && s.cur.Some? && s.cur.value in r }

  /** A call keeps counters within one of each other if and only if it is no send
      that completes, or its caller had the fewest. */
  lemma StepLevel(s: State, op: Op, s': State, r: set<nat>)
    requires Inv(s) && Step(s, op, s') && s.cur.Some? && s.cur.value < |s.envs| && NoWrap(s, op) && LevelIn(s, r)
    ensures LevelIn(s', r) <==> (MemberSends(s, op, r) ==> Least(s, r))
  {
    hide Inv, Step, Counts;
    CounterStep(s, op, s');
    var c := s.cur.value;
    if MemberSends(s, op, r) && LevelIn(s', r) {
      forall j | j in r ensures j < |s.envs| && s.envs[c].task.sended <= s.envs[j].task.sended {
        assert TasksOf(s'.envs)[c].sended <= TasksOf(s'.envs)[j].sended + 1;
      }
    } else if MemberSends(s, op, r) ==> Least(s, r) {
      forall i, j | i in r && j in r
        ensures i < |s'.envs| && j < |s'.envs| && TasksOf(s'.envs)[i].sended <= TasksOf(s'.envs)[j].sended + 1
      {
        assert TasksOf(s.envs)[i].sended <= TasksOf(s.envs)[j].sended + 1;
      }
    }
  }

  /** Over every run, with sends that complete, queue or fail, of members and of
      others: the counters of the members stay within one of each other if and
      only if every member that completes a send had the fewest. */
  lemma {:induction false} LevelOverRun(states: seq<State>, ops: seq<Op>, r: set<nat>, k: nat)
    requires Run(states, ops) && Inv(states[0]) && k < |states| && LevelIn(states[0], r)
    requires forall i :: 0 <= i < k ==>
               states[i].cur.Some? && states[i].cur.value < |states[i].envs| && NoWrap(states[i], ops[i])
    ensures (forall i :: 0 <= i <= k ==> LevelIn(states[i], r))
            <==> forall i :: 0 <= i < k ==> MemberSends(states[i], ops[i], r) ==> Least(states[i], r)
  {
    hide Inv, Step, LevelIn, MemberSends, Least, NoWrap;
    if k > 0 {
      LevelOverRun(states, ops, r, k - 1);
      InvForever(states, ops, k - 1);
      if LevelIn(states[k - 1], r) {
        StepLevel(states[k - 1], ops[k - 1], states[k], r);
      }
    }
  }

  /** Whoever the scheduler picks from the eligible environments of the highest
      priority has the fewest completed sends of them. */
  lemma PickedIsLeast(s: State, op: Op, s': State, r: set<nat>)
    requires Inv(s) && Step(s, op, s') && Effects(s, op).stops
    requires r != {} && TopPriority(TasksOf(s'.envs), r)
    ensures s'.cur.Some? && s'.cur.value in r && Least(s', r)
  {
    hide Inv, Effects, Step;
    PickOfStep(s, op, s');
    var ts := TasksOf(s'.envs);
    var m :| m in r;
    assert Eligible(ts, m);
    var p := s'.cur.value;
    assert Eligible(ts, p);
    forall j | j in r ensures j < |s'.envs| && s'.envs[p].task.sended <= s'.envs[j].task.sended {
      assert Eligible(ts, j);
    }
    forall j: nat | Eligible(ts, j) ensures ts[j].priority <= ts[p].priority {
      assert Eligible(ts, m) && ts[j].priority <= ts[m].priority;
    }
  }

  lemma PickOfStep(s: State, op: Op, s': State)
    requires Step(s, op, s') && Effects(s, op).stops
    ensures IsNext(TasksOf(s'.envs), s.cur, s'.cur)
  {
  }

  /** The sends completed since the scheduler last ran. */
  ghost function SentInTurn(states: seq<State>, ops: seq<Op>, k: nat): nat
    requires k <= |ops| && |states| == |ops| + 1
    requires forall i :: 0 <= i < k ==> states[i].cur.Some? && states[i].cur.value < |states[i].envs|
  {
    if k == 0 || Effects(states[k - 1], ops[k - 1]).stops then 0
    else SentInTurn(states, ops, k - 1) + if Counts(states[k - 1], ops[k - 1]) then 1 else 0
  }

  /** So counters stay level over runs in which nobody completes two sends in one
      turn and the members are the eligible environments of the highest priority
      whenever the scheduler has run. */
  lemma {:induction false} TurnsKeepLevel(states: seq<State>, ops: seq<Op>, r: set<nat>, k: nat)
    requires Run(states, ops) && Inv(states[0]) && k < |states| && r != {} && LevelIn(states[0], r)
             && Least(states[0], r)
    requires forall i :: 0 <= i < k ==>
               states[i].cur.Some? && states[i].cur.value < |states[i].envs| && NoWrap(states[i], ops[i])
    requires forall i :: 0 <= i < k && Counts(states[i], ops[i]) ==> SentInTurn(states, ops, i) == 0
    requires forall i :: 0 <= i < k && Effects(states[i], ops[i]).stops ==> TopPriority(TasksOf(states[i + 1].envs), r)
    ensures LevelIn(states[k], r) && (SentInTurn(states, ops, k) == 0 ==> Least(states[k], r))
  {
    hide Inv, Step, LevelIn, Least, NoWrap, Counts, Effects, TopPriority;
    if k > 0 {
      TurnsKeepLevel(states, ops, r, k - 1);
      InvForever(states, ops, k - 1);
      var s, op, s' := states[k - 1], ops[k - 1], states[k];
      StepLevel(s, op, s', r);
      if Effects(s, op).stops {
        PickedIsLeast(s, op, s', r);
      } else if !Counts(s, op) && SentInTurn(states, ops, k - 1) == 0 {
        LeastStays(s, op, s', r);
      }
    }
  }

  lemma LeastStays(s: State, op: Op, s': State, r: set<nat>)
    requires Inv(s) && Step(s, op, s') && s.cur.Some? && s.cur.value < |s.envs| && !Effects(s, op).stops
    requires !Counts(s, op) && Least(s, r)
    ensures Least(s', r)
  {
    hide Inv, Counts;
    CounterStep(s, op, s');
  }

  /** Environments 1 and 2 can run, 3 and 4 wait for messages. */
  function Crowd(): State {
    State(seq(NENV, i requires 0 <= i => CrowdEnv(i)), [], [], Some(1))
  }

  function CrowdEnv(i: nat): Env {
    var status := if 1 <= i <= 2 then Runnable else if 3 <= i <= 4 then NotRunnable else Free;
    Env(NENV + i, Task(status, 0, 0), 3 <= i <= 4, 0, 0, 0, Mmu.UTOP, 0)
  }

  function Message(to: nat): Op { Send(NENV + to, 0, PageArg(Mmu.UTOP, 0, None, false)) }

  function AfterMessage(s: State, to: nat): State
    requires 1 < to < |s.envs|
  {
    var envs := s.envs[to := Delivered(s.envs[to], s.envs[1].id, 0, PageArg(Mmu.UTOP, 0, None, false))];
    s.(envs := envs[1 := CountSend(envs[1])])
  }

  lemma MessageStep(s: State, to: nat)
    requires 1 < to < |s.envs| == NENV && s.cur == Some(1)
    requires s.envs[to].id == NENV + to && s.envs[to].task.status == NotRunnable && Waiting(s.envs[to])
    ensures Step(s, Message(to), AfterMessage(s, to))
  {
    assert Lookup(s, NENV + to) == Some(to);
  }

  lemma CrowdMembers()
    ensures |Crowd().envs| == NENV && (forall i :: 0 <= i < NENV ==> Crowd().envs[i] == CrowdEnv(i))
    ensures Crowd().src == Crowd().dst == [] && Crowd().cur == Some(1)
  {
  }

  lemma CrowdReady()
    ensures Inv(Crowd()) && TopPriority(TasksOf(Crowd().envs), {1, 2})
    ensures LevelIn(Crowd(), {1, 2}) && Least(Crowd(), {1, 2})
  {
    hide Crowd;
    CrowdMembers();
  }

  /** Two sends that complete in one turn leave its counter two ahead. */
  lemma TwoSendsInATurn()
    ensures var s := Crowd(); var s1 := AfterMessage(s, 3); var s2 := AfterMessage(s1, 4);
            && Inv(s) && TopPriority(TasksOf(s.envs), {1, 2}) && Least(s, {1, 2})
            && Run([s, s1, s2], [Message(3), Message(4)])
            && LevelIn(s, {1, 2}) && LevelIn(s1, {1, 2}) && !LevelIn(s2, {1, 2})
  {
    hide Step, Inv, TopPriority, Least, Crowd;
    CrowdReady();
    CrowdMembers();
    var s := Crowd();
    var s1 := AfterMessage(s, 3);
    var s2 := AfterMessage(s1, 4);
    MessageStep(s, 3);
    MessageStep(s1, 4);
    assert TasksOf(s1.envs)[1].sended == 1 && TasksOf(s1.envs)[2].sended == 0;
    assert TasksOf(s2.envs)[1].sended == 2 && TasksOf(s2.envs)[2].sended == 0;
  }

  // ---- The kernel code ----

  /** Positions at..i have moved down by one, the rest is as before. */
  ghost predicate Shifted(q: seq<int>, q': seq<int>, at: nat, i: nat) {
    && |q'| == |q| && at <= i < |q|
    && (forall k :: 0 <= k < at || i < k < |q| ==> q'[k] == q[k])
    && (forall k :: at <= k < i ==> q'[k] == q[k + 1])
    && (i == at ==> q'[at] == q[at])
  }

  lemma ShiftRemoves(q: seq<int>, q': seq<int>, at: nat, n: nat)
    requires at < n <= |q| && Shifted(q, q', at, n - 1)
    ensures q'[..n - 1] == RemoveAt(q[..n], at)
  {
  }

  /** envs[], curenv and the two waiting arrays of kern/syscall.c. */
  class IpcKernel {
    const envs: array<Env>
    const waitingSrcenvIds: array<int>
    const waitingDstenvIds: array<int>
    var waitingEnvNum: nat
    var curenv: Option<nat>

    constructor (table: seq<Env>, running: Option<nat>)
      requires EnvsOk(table) && Running(table, running)
      ensures Valid() && Current() == State(table, [], [], running) && Inv(Current())
      ensures fresh(envs) && fresh(waitingSrcenvIds) && fresh(waitingDstenvIds)
    {
      envs := new Env[NENV](i requires 0 <= i < |table| => table[i]);
      waitingSrcenvIds := new int[NENV];
      waitingDstenvIds := new int[NENV];
      waitingEnvNum := 0;
      curenv := running;
      new;
      assert envs[..] == table;
    }

    ghost predicate Valid()
      reads this
    {
      && envs.Length == waitingSrcenvIds.Length == waitingDstenvIds.Length == NENV
      && waitingSrcenvIds != waitingDstenvIds && waitingEnvNum <= NENV
    }

    ghost function Current(): State
      reads this, envs, waitingSrcenvIds, waitingDstenvIds
      requires Valid()
    {
      State(envs[..], waitingSrcenvIds[..waitingEnvNum], waitingDstenvIds[..waitingEnvNum], curenv)
    }

    /** envid2env without permission check; None is -E_BAD_ENV. */
    method Envid2env(envid: int) returns (e: Option<nat>)
      requires Valid()
      ensures e == Lookup(Current(), envid)
    {
      if envid == 0 {
        return curenv;
      }
      var x := ENVX(envid);
      if envs[x].task.status == Free || envs[x].id != envid {
        return None;
      }
      e := Some(x);
    }

    /** sched_yield. */
    method Reschedule()
      requires Valid() && EnvsOk(envs[..]) && (curenv.Some? ==> curenv.value < NENV)
      modifies this`curenv
      ensures IsNext(TasksOf(envs[..]), old(curenv), curenv)
    {
      curenv := SchedYield(TasksOf(envs[..]), curenv);
    }

    /** sys_yield. */
    method Yield()
      requires Valid() && Inv(Current()) && curenv.Some?
      modifies this`curenv
      ensures Step(old(Current()), Op.Yield, Current())
    {
      Reschedule();
    }

    /** The last part of a successful send. */
    method Deliver(c: nat, d: nat, msg: nat)
      requires c < envs.Length && d < envs.Length && c != d
      modifies envs
      ensures envs[..] == old(envs[..])[d := SetStatus(old(envs[d]), Runnable).(
                recving := false, from := old(envs[c].id), value := msg, eax := 0)]
                                       [c := CountSend(old(envs[c]))]
    {
      envs[d] := envs[d].(recving := false);
      envs[d] := envs[d].(from := envs[c].id);
      envs[d] := envs[d].(value := msg);
      envs[d] := SetStatus(envs[d], Runnable).(eax := 0);
      envs[c] := CountSend(envs[c]);
    }

    /** sys_ipc_try_send; the result goes to the caller's eax. */
    method TrySend(envid: int, msg: nat, page: PageArg)
      requires Valid() && Inv(Current()) && curenv.Some?
      modifies this, envs, waitingSrcenvIds, waitingDstenvIds
      ensures Valid() && Step(old(Current()), Send(envid, msg, page), Current()) && Inv(Current())
    {
      hide IsNext, QueueOk, PageError;
      ghost var s := Current();
      var c := curenv.value;
      var d := Envid2env(envid);
      if d == None {
        envs[c] := envs[c].(eax := -E_BAD_ENV);
      } else if !envs[d.value].recving || envs[d.value].from != 0 {
        QueueRoom(s);
        SendKeepsInv(s, envid, msg, page);
        waitingSrcenvIds[waitingEnvNum] := envs[c].id;
        waitingDstenvIds[waitingEnvNum] := envid;
        waitingEnvNum := waitingEnvNum + 1;
        envs[c] := SetStatus(envs[c], NotRunnable);
        assert Current() == SendEffect(s, c, envid, msg, page).state;
        Reschedule();
      } else {
        var r := 0;
        if page.va < Mmu.UTOP && envs[d.value].dstva < Mmu.UTOP {
          r := PageError(page);
          if r == 0 {
            envs[d.value] := envs[d.value].(perm := page.perm);
          }
        } else {
          envs[d.value] := envs[d.value].(perm := 0);
        }
        if r != 0 {
          envs[c] := envs[c].(eax := r);
        } else {
          Deliver(c, d.value, msg);
        }
        assert envs[..] == SendEffect(s, c, envid, msg, page).state.envs;
      }
      StepKeepsInv(s, Send(envid, msg, page), Current());
    }

    /** The search of a receive: the first waiting pair for `id`, or the count. */
    method FindWaiting(id: int) returns (i: nat)
      requires Valid()
      ensures i == FirstFor(waitingDstenvIds[..waitingEnvNum], id)
    {
      i := 0;
      while i < waitingEnvNum && waitingDstenvIds[i] != id
        invariant i <= waitingEnvNum
        invariant FirstFor(waitingDstenvIds[..waitingEnvNum], id)
                    == i + FirstFor(waitingDstenvIds[i..waitingEnvNum], id)
      {
        assert waitingDstenvIds[i..waitingEnvNum][1..] == waitingDstenvIds[i + 1..waitingEnvNum];
        i := i + 1;
      }
    }

    /** The compaction of a receive: every later pair moves down by one. */
    method Compact(at: nat)
      requires Valid() && at < waitingEnvNum
      modifies this`waitingEnvNum, waitingSrcenvIds, waitingDstenvIds
      ensures Valid() && waitingEnvNum == old(waitingEnvNum) - 1
      ensures waitingSrcenvIds[..waitingEnvNum] == RemoveAt(old(waitingSrcenvIds[..waitingEnvNum]), at)
      ensures waitingDstenvIds[..waitingEnvNum] == RemoveAt(old(waitingDstenvIds[..waitingEnvNum]), at)
    {
      var i := at;
      while i < waitingEnvNum - 1
        invariant waitingEnvNum == old(waitingEnvNum) && at <= i <= waitingEnvNum - 1
        invariant Shifted(old(waitingSrcenvIds[..]), waitingSrcenvIds[..], at, i)
        invariant Shifted(old(waitingDstenvIds[..]), waitingDstenvIds[..], at, i)
      {
        waitingSrcenvIds[i] := waitingSrcenvIds[i + 1];
        waitingDstenvIds[i] := waitingDstenvIds[i + 1];
        i := i + 1;
      }
      ShiftRemoves(old(waitingSrcenvIds[..]), waitingSrcenvIds[..], at, waitingEnvNum);
      ShiftRemoves(old(waitingDstenvIds[..]), waitingDstenvIds[..], at, waitingEnvNum);
      waitingEnvNum := waitingEnvNum - 1;
    }

    /** sys_ipc_recv. */
    method Recv(va: nat)
      requires Valid() && Inv(Current()) && curenv.Some?
      modifies this, envs, waitingSrcenvIds, waitingDstenvIds
      ensures Valid() && Step(old(Current()), Op.Recv(va), Current()) && Inv(Current())
    {
      hide IsNext, QueueOk, FirstFor, RemoveAt;
      ghost var s := Current();
      var c := curenv.value;
      var me := envs[c].id;
      FirstForCorrect(s.dst, me);
      RecvKeepsInv(s, va);
      envs[c] := envs[c].(from := 0);
      envs[c] := envs[c].(recving := true);
      envs[c] := envs[c].(dstva := va);
      envs[c] := SetStatus(envs[c], NotRunnable);
      assert envs[..] == s.envs[c := StartRecv(s.envs[c], va)];
      if va < Mmu.UTOP && va % Mmu.PGSIZE != 0 {
        envs[c] := envs[c].(eax := -E_INVAL);
      } else {
        var i := FindWaiting(me);
        if i < waitingEnvNum {
          SenderExists(s, i);
          var w := Envid2env(waitingSrcenvIds[i]);
          assert w.Some?;
          envs[w.value] := SetStatus(envs[w.value].(eax := -E_IPC_NOT_RECV), Runnable);
          Compact(i);
        }
      }
      assert Current() == RecvEffect(s, c, va).state;
      Reschedule();
      StepKeepsInv(s, Op.Recv(va), Current());
    }
  }
}
