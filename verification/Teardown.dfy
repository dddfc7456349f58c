/** env_free: what is gone at each point of its two loops, and what the whole
    teardown means for the counters and the free list. */
module Teardown {
  import opened Mmu
  import opened Queue
  import opened PageGraph
  import opened EnvIds
  import opened PageOps

  /** The references of environment `e` already removed when the loops stand at
      directory entry `d` and table entry `t`. */
  ghost function Gone(g: Graph, e: nat, d: nat, t: nat): set<Ref> {
    set r | r in g && r.root == e &&
            ((r.TableRef? && r.pdx < d) || (r.PageRef? && (r.pdx < d || (r.pdx == d && r.ptx < t))))
  }

  ghost function RefsOf(g: Graph, e: nat): set<Ref> {
    set r | r in g && r.root == e
  }

  /** Every root but `e` sees what it saw, and data pages keep their content. */
  ghost predicate SameOthers(m: Mem, m': Mem, e: nat) {
    && (forall r :: IsPlace(r) && r.root != e ==> Target(m', r) == Target(m, r))
    && SamePages(m, m')
  }

  ghost predicate SamePages(m: Mem, m': Mem) {
    |m'.frames| == |m.frames| && forall p :: 0 <= p < |m.frames| && IsData(GraphOf(m), p) ==>
      m'.frames[p] == m.frames[p]
  }

  lemma StillNoDir(m0: Mem, s: VM, gone: set<Ref>, e: nat)
    requires Inv(s) && e < NENV && s.mem.dirs[e].Some? && G(s) == GraphOf(m0) - gone
    ensures !IsData(GraphOf(m0), s.mem.dirs[e].value)
  {
    DirInBounds(s, e);
    StillNoData(m0, s.mem, gone, DirRef(e));
  }

  /** Only frame `f` is stored to. */
  ghost predicate OneFrame(m: Mem, m': Mem, f: nat) {
    |m'.frames| == |m.frames| && forall p :: 0 <= p < |m.frames| && p != f ==> m'.frames[p] == m.frames[p]
  }

  /** A directory or table that has not been given back is no data page. */
  lemma StillNoData(m0: Mem, m: Mem, gone: set<Ref>, r: Ref)
    requires GraphOf(m) == GraphOf(m0) - gone && r in GraphOf(m) && !r.PageRef?
    ensures !IsData(GraphOf(m0), GraphOf(m)[r].ppn)
  {
  }

  lemma SameOthersRefl(m: Mem, e: nat)
    ensures SameOthers(m, m, e)
  {
  }

  lemma OthersStep(m0: Mem, m1: Mem, m2: Mem, e: nat, r: Ref, f: nat)
    requires SameOthers(m0, m1, e) && SameBut(m1, m2, {r}) && r.root == e
    requires OneFrame(m1, m2, f) && !IsData(GraphOf(m0), f)
    ensures SameOthers(m0, m2, e)
  {
  }

  lemma GonePage(g: Graph, e: nat, d: nat, t: nat)
    ensures g - Gone(g, e, d, t + 1) == g - Gone(g, e, d, t) - {PageRef(e, d, t)}
  {
    assert forall r :: r in Gone(g, e, d, t + 1) <==> r in Gone(g, e, d, t) || (r in g && r == PageRef(e, d, t));
  }

  /** After the inner loop nothing of the table is left. */
  lemma GoneTable(m: Mem, e: nat, d: nat)
    requires e < NENV && d < UPDX
    ensures GraphOf(m) - Gone(GraphOf(m), e, d + 1, 0) ==
            GraphOf(m) - Gone(GraphOf(m), e, d, NENTRIES) - {TableRef(e, d)}
    ensures forall t :: 0 <= t < NENTRIES ==> PageRef(e, d, t) !in GraphOf(m) - Gone(GraphOf(m), e, d, NENTRIES)
  {
    var g := GraphOf(m);
    assert forall r :: r in Gone(g, e, d + 1, 0) <==> r in Gone(g, e, d, NENTRIES) || (r in g && r == TableRef(e, d));
    assert forall t :: 0 <= t < NENTRIES && PageRef(e, d, t) in g ==> PageRef(e, d, t) in Gone(g, e, d, NENTRIES);
  }

  lemma GoneKeepsTable(g: Graph, e: nat, d: nat)
    ensures TableRef(e, d) in g <==> TableRef(e, d) in g - Gone(g, e, d, 0)
  {
  }

  /** A directory entry that is not present has nothing below it. */
  lemma GoneEmpty(m: Mem, e: nat, d: nat)
    requires e < NENV && d < UPDX && TableRef(e, d) !in GraphOf(m)
    ensures GraphOf(m) - Gone(GraphOf(m), e, d + 1, 0) == GraphOf(m) - Gone(GraphOf(m), e, d, 0)
  {
    var g := GraphOf(m);
    assert forall t :: PageRef(e, d, t) !in g by {
      assert Table(m, e, d) == Target(m, TableRef(e, d));
    }
    assert Gone(g, e, d + 1, 0) == Gone(g, e, d, 0);
  }

  lemma GoneAll(g: Graph, e: nat)
    requires forall r :: r in g ==> IsCounted(r)
    requires e < NENV
    ensures g - Gone(g, e, UPDX, 0) - {DirRef(e)} == g - RefsOf(g, e)
    ensures g - Gone(g, e, 0, 0) == g
    ensures forall d :: 0 <= d < UPDX ==> TableRef(e, d) !in g - Gone(g, e, UPDX, 0)
  {
    assert forall r :: r in g && r.root == e ==> r in Gone(g, e, UPDX, 0) || r == DirRef(e);
    assert forall d :: 0 <= d < UPDX && TableRef(e, d) in g ==> TableRef(e, d) in Gone(g, e, UPDX, 0);
  }

  /** The memory that env_free leaves: every reference of `e` is gone, everybody
      else sees what they saw, and data pages keep their content. */
  ghost predicate Freed(s: VM, s': VM, e: nat) {
    && Inv(s') && e < |s.mem.dirs| && s'.mem.dirs == s.mem.dirs[e := None]
    && G(s') == G(s) - RefsOf(G(s), e) && SameOthers(s.mem, s'.mem, e)
    && s'.books.reserved == s.books.reserved && s'.books.flight == s.books.flight && |s'.books.count| == |s.books.count|
  }

  /** env_free conserves memory.  Each page loses exactly the references the
      environment held; what goes on the free list is exactly what only this
      environment held: data pages, page tables and the directory. */
  lemma TeardownAccounts(s: VM, s': VM, e: nat, p: nat)
    requires Inv(s) && Freed(s, s', e)
    requires p < |s.books.count| && p !in s.books.reserved
    ensures var mine := RefsTo(G(s), p) * RefsOf(G(s), e);
            && s'.books.count[p] == s.books.count[p] - |mine|
            && (p in s'.books.free <==> p in s.books.free || (mine != {} && mine == RefsTo(G(s), p)))
  {
    hide Sound, SameOthers, Distinct;
    var all, mine := RefsTo(G(s), p), RefsTo(G(s), p) * RefsOf(G(s), e);
    assert RefsTo(G(s'), p) == all - mine;
    assert |all - mine| == |all| - |mine|;
  }

  /** The flat spaces lose the pages of `e` and nothing else. */
  lemma TeardownFlat(g: Graph, e: nat)
    requires e < NENV
    ensures FlatOf(g - RefsOf(g, e)) == map k | k in FlatOf(g) && k.env != e :: FlatOf(g)[k]
  {
    var g' := g - RefsOf(g, e);
    assert forall k :: Place(k) in g' <==> Place(k) in g && k.env != e;
  }
}
