/** The scheduler (kern/sched.c), with priorities and the fewest-sends rule. */
module Sched {
  import opened Queue
  import opened EnvIds

  const NO_SENDS: nat := 0xffff_ffff   // the initial min_ipc_sended

  /** What the scheduler looks at in a struct Env. */
  datatype Task = Task(status: Status, priority: nat, sended: nat)

  type Tasks = seq<Task>

  /** The idle environment is never a candidate. */
  predicate Candidate(ts: Tasks, i: nat) { 0 < i < |ts| && ts[i].status == Runnable }

  /** A candidate that can beat the initial values of the search. */
  predicate Eligible(ts: Tasks, i: nat) {
    Candidate(ts, i) && (ts[i].priority > 0 || ts[i].sended < NO_SENDS)
  }

  /** `i` is preferred to `j` on its merits. */
  predicate Better(ts: Tasks, i: nat, j: nat)
    requires i < |ts| && j < |ts|
  {
    ts[i].priority > ts[j].priority || (ts[i].priority == ts[j].priority && ts[i].sended < ts[j].sended)
  }

  /** How many places after `c` the search comes to `i`; `c` itself is last. */
  function Distance(c: nat, i: nat): int { if i > c then i - c else i - c + NENV }

  /** It is the number of steps that lead from `c` round to `i`. */
  lemma DistanceExactly(c: nat, i: nat, k: int)
    requires c < NENV && i < NENV && 1 <= k <= NENV
    ensures k == Distance(c, i) <==> (c + k) % NENV == i
  {
  }

  /** The environment that should run after `c`: highest priority, then fewest
      sends, then next in circular order. */
  ghost predicate IsChoice(ts: Tasks, c: nat, p: nat) {
    && Eligible(ts, p)
    && forall j :: Eligible(ts, j) && j != p ==>
         Better(ts, p, j) || (!Better(ts, j, p) && Distance(c, p) < Distance(c, j))
  }

  /** The choice is unique. */
  lemma ChoiceUnique(ts: Tasks, c: nat, p: nat, q: nat)
    requires IsChoice(ts, c, p) && IsChoice(ts, c, q)
    ensures p == q
  {
  }

  /** It is the first on the way round from `c` of those that nobody beats: whoever
      is passed over is not eligible, has a lower priority, or has the same and
      completed more sends. */
  lemma ChoiceGoesRound(ts: Tasks, c: nat, p: nat, k: int)
    requires |ts| == NENV && c < NENV && IsChoice(ts, c, p) && 1 <= k < Distance(c, p)
    ensures 1 <= Distance(c, p) <= NENV && (c + Distance(c, p)) % NENV == p
    ensures var j := (c + k) % NENV;
            ts[j].status != Runnable || j == 0 || ts[j].priority < ts[p].priority
            || (ts[j].priority == ts[p].priority && ts[j].sended > ts[p].sended)
  {
    DistanceExactly(c, p, Distance(c, p));
    var j := (c + k) % NENV;
    DistanceExactly(c, j, k);
    assert !Eligible(ts, j) || Better(ts, p, j);
    assert Eligible(ts, p);
  }

  /** Nobody beats it: it has the highest priority of all that can run, and of those
      the fewest completed sends. */
  lemma ChoiceIsBest(ts: Tasks, c: nat, p: nat, j: nat)
    requires |ts| == NENV && IsChoice(ts, c, p) && 0 < j < NENV && ts[j].status == Runnable
    ensures 0 < p < NENV && ts[p].status == Runnable && ts[j].priority <= ts[p].priority
    ensures ts[j].priority == ts[p].priority ==> ts[p].sended <= ts[j].sended
  {
    if Eligible(ts, j) && j != p {
      assert Better(ts, p, j) || !Better(ts, j, p);
    }
  }

  /** What runs after `curenv`: the choice if anybody is eligible, else the idle
      environment, else nothing. */
  ghost predicate IsNext(ts: Tasks, curenv: Option<nat>, next: Option<nat>) {
    var c := if curenv.Some? then curenv.value else 0;
    |ts| == NENV &&
    if exists i :: Eligible(ts, i) then next.Some? && IsChoice(ts, c, next.value)
    else next == if ts[0].status == Runnable then Some(0) else None
  }

  /** The idle environment runs although a candidate exists exactly when every
      candidate has priority zero and a send counter of at least 0xffffffff. */
  lemma IdleOnlyWhenAlone(ts: Tasks, curenv: Option<nat>, next: Option<nat>)
    requires IsNext(ts, curenv, next) && exists i: nat :: Candidate(ts, i)
    ensures next in {None, Some(0)} <==>
            forall i: nat :: Candidate(ts, i) ==> ts[i].priority == 0 && ts[i].sended >= NO_SENDS
  {
    if next.Some? && next.value != 0 {
      assert Eligible(ts, next.value);
    }
    assert forall i: nat :: Candidate(ts, i) ==> Eligible(ts, i) || (ts[i].priority == 0 && ts[i].sended >= NO_SENDS);
  }

  /** The best of the first `n` places after `c`; -1 when none is eligible. */
  ghost predicate BestOf(ts: Tasks, c: nat, n: int, best: int) {
    && (best == -1 ==> forall j :: Eligible(ts, j) ==> Distance(c, j) >= n)
    && (best != -1 ==>
          && 0 <= best < NENV && Eligible(ts, best) && Distance(c, best) < n
          && forall j :: Eligible(ts, j) && j != best && Distance(c, j) < n ==>
               Better(ts, best, j) || (!Better(ts, j, best) && Distance(c, best) < Distance(c, j)))
  }

  /** The next place replaces the best one so far exactly when it beats it. */
  lemma BestStep(ts: Tasks, c: nat, n: int, best: int, k: nat)
    requires |ts| == NENV && c < NENV && k < NENV && Distance(c, k) == n && BestOf(ts, c, n, best)
    ensures BestOf(ts, c, n + 1, if Eligible(ts, k) && (best == -1 || Better(ts, k, best)) then k else best)
  {
    assert forall j :: Eligible(ts, j) && Distance(c, j) == n ==> j == k;
  }

  /** sched_yield: the slot that runs next; None when not even the idle
      environment can run. */
  method SchedYield(ts: Tasks, curenv: Option<nat>) returns (next: Option<nat>)
    requires |ts| == NENV && (curenv.Some? ==> curenv.value < NENV)
    ensures IsNext(ts, curenv, next)
  {
    hide BestOf, IsNext;
    var c := if curenv.Some? then curenv.value else 0;
    var maxPriority: nat := 0;
    var minSended: nat := NO_SENDS;
    var envidx: int := -1;
    var i := c + 1;
    BestStart(ts, c);
    while i <= c + NENV
      invariant c + 1 <= i <= c + NENV + 1
      invariant BestOf(ts, c, i - c, envidx)
      invariant envidx == -1 ==> maxPriority == 0 && minSended == NO_SENDS
      invariant envidx != -1 ==>
                  envidx >= 0 && Eligible(ts, envidx) && maxPriority == ts[envidx].priority
                    && minSended == ts[envidx].sended
    {
      var k := i % NENV;
      BestStep(ts, c, i - c, envidx, k);
      if k != 0 && ts[k].status == Runnable {
        if ts[k].priority > maxPriority || (ts[k].priority == maxPriority && ts[k].sended < minSended) {
          envidx := k;
          maxPriority := ts[k].priority;
          minSended := ts[k].sended;
        }
      }
      i := i + 1;
    }
    BestIsNext(ts, curenv, envidx);
    if envidx != -1 {
      return Some(envidx);
    }
    next := if ts[0].status == Runnable then Some(0) else None;
  }

  lemma BestStart(ts: Tasks, c: nat)
    requires |ts| == NENV && c < NENV
    ensures BestOf(ts, c, 1, -1)
  {
  }

  /** After a full circle the best place is what runs next. */
  lemma BestIsNext(ts: Tasks, curenv: Option<nat>, best: int)
    requires |ts| == NENV && (curenv.Some? ==> curenv.value < NENV)
    requires BestOf(ts, if curenv.Some? then curenv.value else 0, NENV + 1, best)
    ensures best != -1 ==> best >= 0 && IsNext(ts, curenv, Some(best))
    ensures best == -1 ==> IsNext(ts, curenv, if ts[0].status == Runnable then Some(0) else None)
  {
    var c := if curenv.Some? then curenv.value else 0;
    assert forall j :: Eligible(ts, j) ==> Distance(c, j) < NENV + 1;
  }

  // ---- Fairness ----

  /** `r` is exactly the set of eligible environments that nobody beats. */
  ghost predicate Contenders(ts: Tasks, r: set<nat>) {
    && |ts| == NENV
    && forall i :: i in r <==> Eligible(ts, i) && forall j :: Eligible(ts, j) ==> !Better(ts, j, i)
  }

  /** The members that come before `m`, or are `m`, after `c`. */
  ghost function Ahead(r: set<nat>, c: nat, m: nat): set<nat> {
    set j | j in r && Distance(c, j) <= Distance(c, m)
  }

  /** A yield that does not pick `m` takes exactly the picked member out of its way. */
  lemma AheadShrinks(ts: Tasks, r: set<nat>, c: nat, p: nat, m: nat)
    requires Contenders(ts, r) && m in r && c < NENV && IsChoice(ts, c, p) && p != m
    ensures Ahead(r, p, m) == Ahead(r, c, m) - {p} && p in Ahead(r, c, m)
  {
    assert p in r && m in r;
    forall j | j in r ensures Distance(p, j) <= Distance(p, m) <==> Distance(c, j) <= Distance(c, m) && j != p {
      assert j != p ==> Distance(c, p) < Distance(c, j);
    }
  }

  /** A run of yields: what the k-th yield sees, who yields, and who is picked.
      Between the yields everything may change except who the contenders are. */
  ghost predicate IsSchedule(seen: seq<Tasks>, picks: seq<nat>, r: set<nat>) {
    && |picks| == |seen| + 1 && picks[0] < NENV
    && forall k :: 0 <= k < |seen| ==>
         Contenders(seen[k], r) && picks[k] < NENV && IsChoice(seen[k], picks[k], picks[k + 1])
  }

  /** Every contender runs after as many yields as it has contenders ahead of it. */
  lemma {:induction false} EverybodyRuns(seen: seq<Tasks>, r: set<nat>, picks: seq<nat>, m: nat)
    requires IsSchedule(seen, picks, r) && m in r && |seen| >= |Ahead(r, picks[0], m)|
    ensures exists k :: 1 <= k < |picks| && k <= |Ahead(r, picks[0], m)| && picks[k] == m
    decreases |picks|
  {
    assert m in Ahead(r, picks[0], m);
    assert IsChoice(seen[0], picks[0], picks[1]);
    if picks[1] != m {
      AheadShrinks(seen[0], r, picks[0], picks[1], m);
      var rest := picks[1..];
      assert IsSchedule(seen[1..], rest, r) by {
        assert rest[0] == picks[1] < NENV;
        forall k | 0 <= k < |seen[1..]|
          ensures Contenders(seen[1..][k], r) && rest[k] < NENV && IsChoice(seen[1..][k], rest[k], rest[k + 1])
        {
          assert IsChoice(seen[k + 1], picks[k + 1], picks[k + 2]);
        }
      }
      EverybodyRuns(seen[1..], r, rest, m);
      var k :| 1 <= k < |rest| && k <= |Ahead(r, rest[0], m)| && rest[k] == m;
      assert picks[k + 1] == m;
    }
  }

  lemma {:induction false} Subset(a: set<nat>, b: set<nat>)
    requires a <= b
    ensures |a| <= |b|
    decreases a
  {
    if a != {} {
      var x :| x in a;
      Subset(a - {x}, b - {x});
    }
  }

  /** Round robin: among contenders each runs within as many yields as there are
      contenders, wherever the run starts. */
  lemma RoundRobin(seen: seq<Tasks>, r: set<nat>, picks: seq<nat>, m: nat)
    requires IsSchedule(seen, picks, r) && m in r && |seen| == |r|
    ensures exists k :: 1 <= k <= |r| && picks[k] == m
  {
    Subset(Ahead(r, picks[0], m), r);
    EverybodyRuns(seen, r, picks, m);
    var k :| 1 <= k < |picks| && k <= |Ahead(r, picks[0], m)| && picks[k] == m;
  }

  /** `r` is the set of eligible environments of the highest priority. */
  ghost predicate TopPriority(ts: Tasks, r: set<nat>) {
    && |ts| == NENV
    && forall i: nat ::
         i in r <==> Eligible(ts, i) && forall j: nat :: Eligible(ts, j) ==> ts[j].priority <= ts[i].priority
  }

  /** The counters of the members are within one of each other. */
  ghost predicate Level(ts: Tasks, r: set<nat>) {
    forall i, j :: i in r && j in r ==> i < |ts| && j < |ts| && ts[i].sended <= ts[j].sended + 1
  }

  /** The picked environment completes one send. */
  function Send(ts: Tasks, p: nat): Tasks
    requires p < |ts|
  {
    ts[p := ts[p].(sended := (ts[p].sended + 1) % NO_SENDS)]
  }

  /** A run in which every pick completes one send and no counter wraps. */
  ghost predicate SendRun(states: seq<Tasks>, cs: seq<nat>) {
    && |states| == |cs| > 0
    && forall k :: 0 <= k < |states| - 1 ==>
         && IsChoice(states[k], cs[k], cs[k + 1])
         && states[k][cs[k + 1]].sended + 1 < NO_SENDS
         && states[k + 1] == Send(states[k], cs[k + 1])
  }

  lemma SendKeepsLevel(ts: Tasks, r: set<nat>, c: nat, p: nat)
    requires TopPriority(ts, r) && Level(ts, r) && IsChoice(ts, c, p) && ts[p].sended + 1 < NO_SENDS
    ensures Level(Send(ts, p), r) && TopPriority(Send(ts, p), r)
    ensures |Send(ts, p)| == |ts| && Send(ts, p)[p] == ts[p].(sended := ts[p].sended + 1)
    ensures forall i :: 0 <= i < |ts| && i != p ==> Send(ts, p)[i] == ts[i]
  {
    assert p in r by {
      assert forall j :: Eligible(ts, j) && j != p ==> Better(ts, p, j) || !Better(ts, j, p);
    }
    forall j | j in r ensures ts[p].sended <= ts[j].sended {
      assert Eligible(ts, j);
    }
    var ts' := Send(ts, p);
    forall i ensures Eligible(ts', i) <==> Eligible(ts, i) {
    }
  }

  /** Counters that start within one of each other stay so over the whole run. */
  lemma {:induction false} LevelForever(states: seq<Tasks>, cs: seq<nat>, r: set<nat>, k: nat)
    requires SendRun(states, cs) && k < |states| && TopPriority(states[0], r) && Level(states[0], r)
    ensures Level(states[k], r) && TopPriority(states[k], r)
  {
    hide IsChoice, Level, TopPriority;
    if k > 0 {
      LevelForever(states, cs, r, k - 1);
      SendKeepsLevel(states[k - 1], r, cs[k - 1], cs[k]);
    }
  }
}
