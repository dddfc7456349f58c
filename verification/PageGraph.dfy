/** Physical memory as a graph of references.

    Page directories, page tables and data pages are all physical frames.  A
    reference is a place that names a frame: the page directory of an
    environment, a present directory entry, or a present table entry.  The
    counter `pp_ref` counts references; the flat address space of an
    environment is the set of its table entries.

    Roots 0..NENV-1 are the environments.  Root NENV is the boot-time
    directory `boot_pgdir`, whose table entries are not counted.
 */
module PageGraph {
  import opened Mmu
  import opened Queue
  import opened EnvIds

  const BOOT: nat := NENV
  const UPDX: nat := 955        // PDX(UTOP)
  const PDX_UVPT: nat := 957    // PDX(UVPT)
  const PDX_VPT: nat := 959     // PDX(VPT)
  const REF_LIMIT: nat := 65536 // pp_ref has 16 bits

  type Frame = seq<nat>

  /** The frames, and the frame of the page directory of each root. */
  datatype Mem = Mem(frames: seq<Frame>, dirs: seq<Option<nat>>)

  datatype Ref =
    | DirRef(root: nat)
    | TableRef(root: nat, pdx: nat)
    | PageRef(root: nat, pdx: nat, ptx: nat)

  /** The part of a directory that a root owns.  Environments share the kernel
      part of the boot directory; nobody owns the two self maps. */
  predicate OwnsPdx(root: nat, pdx: nat) {
    if root == BOOT then pdx < NENTRIES && pdx != PDX_UVPT && pdx != PDX_VPT
    else root < NENV && pdx < UPDX
  }

  predicate IsPlace(r: Ref) {
    match r
    case DirRef(e) => e <= NENV
    case TableRef(e, d) => OwnsPdx(e, d)
    case PageRef(e, d, t) => OwnsPdx(e, d) && t < NENTRIES
  }

  /** The places whose content is counted in pp_ref. */
  predicate IsCounted(r: Ref) {
    IsPlace(r) && !(r.PageRef? && r.root == BOOT)
  }

  ghost function Counted(): (s: set<Ref>)
    ensures forall r :: r in s <==> IsCounted(r)
  {
    (set e | 0 <= e <= NENV :: DirRef(e))
    + (set e, d | 0 <= e <= NENV && 0 <= d < NENTRIES && OwnsPdx(e, d) :: TableRef(e, d))
    + (set e, d, t | 0 <= e < NENV && 0 <= d < NENTRIES && 0 <= t < NENTRIES && OwnsPdx(e, d) :: PageRef(e, d, t))
  }

  function Word(m: Mem, f: nat, i: nat): nat {
    if f < |m.frames| && i < |m.frames[f]| then m.frames[f][i] else 0
  }

  function EntryOf(w: nat): Option<Entry> {
    if Present(w) then Some(Decode(w)) else None
  }

  function Table(m: Mem, e: nat, d: nat): Option<Entry> {
    if e < |m.dirs| && m.dirs[e].Some? then EntryOf(Word(m, m.dirs[e].value, d)) else None
  }

  /** What a place holds: the hardware walk of two levels (check_va2pa). */
  function Target(m: Mem, r: Ref): Option<Entry> {
    match r
    case DirRef(e) =>
      if e < |m.dirs| && m.dirs[e].Some? then Some(Entry(m.dirs[e].value, 0)) else None
    case TableRef(e, d) => Table(m, e, d)
    case PageRef(e, d, t) =>
      var table := Table(m, e, d);
      if table.Some? then EntryOf(Word(m, table.value.ppn, t)) else None
  }

  /** Every place outside `rs` holds the same in both memories. */
  ghost predicate SameBut(m: Mem, m': Mem, rs: set<Ref>) {
    forall s :: IsPlace(s) && s !in rs ==> Target(m', s) == Target(m, s)
  }

  lemma SameButChain(m0: Mem, m1: Mem, m2: Mem, r: Ref, s: Ref)
    requires SameBut(m0, m1, {r}) && SameBut(m1, m2, {s})
    ensures SameBut(m0, m2, {r, s})
  {
  }

  lemma SameButTwice(m0: Mem, m1: Mem, m2: Mem, r: Ref)
    requires SameBut(m0, m1, {r}) && SameBut(m1, m2, {r})
    ensures SameBut(m0, m2, {r})
  {
  }

  type Graph = map<Ref, Entry>

  ghost function GraphOf(m: Mem): (g: Graph)
    ensures forall r :: r in g <==> IsCounted(r) && Target(m, r).Some?
    ensures forall r :: r in g ==> g[r] == Target(m, r).value
  {
    map r | r in Counted() && Target(m, r).Some? :: Target(m, r).value
  }

  ghost predicate Shaped(m: Mem) {
    && |m.dirs| == NENV + 1
    && m.dirs[BOOT].Some?
    && forall f :: 0 <= f < |m.frames| ==> |m.frames[f]| == NENTRIES
  }

  /** Directories and tables are each referenced once, and never mapped as
      data: two references to one frame are both table entries. */
  ghost predicate Exclusive(g: Graph) {
    forall a, b :: a in g && b in g && a != b && g[a].ppn == g[b].ppn ==> a.PageRef? && b.PageRef?
  }

  ghost predicate InRange(g: Graph, n: nat) {
    forall r :: r in g ==> g[r].ppn < n
  }

  ghost predicate Sound(m: Mem) {
    Shaped(m) && Exclusive(GraphOf(m)) && InRange(GraphOf(m), |m.frames|)
  }

  // ---- Reference counts ----

  ghost function RefsTo(g: Graph, p: nat): set<Ref> {
    set r | r in g && g[r].ppn == p
  }

  /** The allocator's bookkeeping.  `reserved` frames belong to the kernel for
      good; `flight` frames have been taken off the free list and are not
      referenced yet. */
  datatype Books = Books(count: seq<nat>, free: seq<nat>, reserved: set<nat>, flight: set<nat>)

  ghost predicate Balanced(g: Graph, b: Books) {
    && (forall r :: r in g ==> g[r].ppn < |b.count|)
    && (forall r :: r in g && r != DirRef(BOOT) ==> g[r].ppn !in b.reserved)
    && (forall p :: 0 <= p < |b.count| && p !in b.reserved ==> b.count[p] == |RefsTo(g, p)|)
    && (forall p :: 0 <= p < |b.count| ==> b.count[p] < REF_LIMIT)
    && Distinct(b.free)
    && (forall p :: p in b.free <==> 0 <= p < |b.count| && p !in b.reserved && p !in b.flight && RefsTo(g, p) == {})
    && (forall p :: p in b.flight ==> p < |b.count| && p !in b.reserved && RefsTo(g, p) == {})
  }

  lemma RefsAfterAdd(g: Graph, r: Ref, e: Entry, p: nat)
    requires r !in g
    ensures RefsTo(g[r := e], p) == if p == e.ppn then RefsTo(g, p) + {r} else RefsTo(g, p)
  {
  }

  lemma RefsAfterDrop(g: Graph, r: Ref, p: nat)
    requires r in g
    ensures RefsTo(g - {r}, p) == RefsTo(g, p) - {r}
    ensures r in RefsTo(g, p) <==> p == g[r].ppn
  {
  }

  /** Storing a new reference and raising the counter keeps the books. */
  lemma AddKeepsBalance(g: Graph, b: Books, r: Ref, e: Entry)
    requires Balanced(g, b) && r !in g && r != DirRef(BOOT)
    requires e.ppn < |b.count| && e.ppn !in b.reserved && e.ppn !in b.free
    requires b.count[e.ppn] + 1 < REF_LIMIT
    ensures Balanced(g[r := e], b.(count := b.count[e.ppn := b.count[e.ppn] + 1], flight := b.flight - {e.ppn}))
  {
    forall p: nat ensures RefsTo(g[r := e], p) == if p == e.ppn then RefsTo(g, p) + {r} else RefsTo(g, p) {
      RefsAfterAdd(g, r, e, p);
    }
    assert r in RefsTo(g[r := e], e.ppn);
  }

  /** page_decref: the books after the last reference is gone, or one of several. */
  function Decref(b: Books, p: nat): Books {
    if p < |b.count| && b.count[p] > 0 then
      var b' := b.(count := b.count[p := b.count[p] - 1]);
      if b.count[p] == 1 then b'.(free := [p] + b.free) else b'
    else b
  }

  lemma DropKeepsBalance(g: Graph, b: Books, r: Ref)
    requires Balanced(g, b) && r in g && r != DirRef(BOOT)
    ensures b.count[g[r].ppn] > 0
    ensures Balanced(g - {r}, Decref(b, g[r].ppn))
  {
    var q := g[r].ppn;
    forall p: nat ensures RefsTo(g - {r}, p) == if p == q then RefsTo(g, p) - {r} else RefsTo(g, p) {
      RefsAfterDrop(g, r, p);
    }
    assert r in RefsTo(g, q);
    assert |RefsTo(g - {r}, q)| == |RefsTo(g, q)| - 1;
  }

  /** Before the first allocation the only reference is the boot directory. */
  lemma BootGraph(m: Mem, boot: nat)
    requires Shaped(m) && m.dirs == seq(NENV, _ => None) + [Some(boot)] && boot < |m.frames|
    requires forall d: nat :: OwnsPdx(BOOT, d) ==> m.frames[boot][d] == 0
    ensures GraphOf(m) == map[DirRef(BOOT) := Entry(boot, 0)] && Sound(m)
  {
    forall r | IsCounted(r) ensures Target(m, r).Some? ==> r == DirRef(BOOT) {
    }
  }

  lemma BootBalance(g: Graph, b: Books, boot: nat)
    requires g == map[DirRef(BOOT) := Entry(boot, 0)] && boot < |b.count|
    requires boot in b.reserved && b.flight == {} && Distinct(b.free)
    requires forall p: nat :: p in b.free <==> p < |b.count| && p !in b.reserved
    requires forall p :: 0 <= p < |b.count| ==> b.count[p] == if p in b.reserved then 1 else 0
    ensures Balanced(g, b)
  {
    assert forall p :: p != boot ==> RefsTo(g, p) == {};
  }

  /** page_alloc: the head of the free list goes into flight. */
  lemma TakeKeepsBalance(g: Graph, b: Books)
    requires Balanced(g, b) && b.free != []
    ensures Balanced(g, b.(free := b.free[1..], flight := b.flight + {b.free[0]}))
    ensures b.free[0] !in b.flight && b.free[0] !in b.free[1..] && b.count[b.free[0]] == 0
  {
    assert forall p :: p in b.free <==> p == b.free[0] || p in b.free[1..];
  }

  /** page_free of a page in flight. */
  lemma GiveKeepsBalance(g: Graph, b: Books, p: nat)
    requires Balanced(g, b) && p in b.flight
    ensures Balanced(g, b.(free := [p] + b.free, flight := b.flight - {p}))
  {
  }

  // ---- The flat address spaces ----

  /** Virtual page `vpn` of environment `env`. */
  datatype VPage = VPage(env: nat, vpn: nat)

  predicate IsUserPage(k: VPage) { k.env < NENV && k.vpn < UPDX * NENTRIES }

  ghost function UserPages(): (s: set<VPage>)
    ensures forall k :: k in s <==> IsUserPage(k)
  {
    set e, v | 0 <= e < NENV && 0 <= v < UPDX * NENTRIES :: VPage(e, v)
  }

  /** The user part of the address space of every environment, as one map from
      virtual page to physical page and permissions. */
  type Spaces = map<VPage, Entry>

  /** The table entry of a virtual page. */
  function Place(k: VPage): Ref { PageRef(k.env, k.vpn / NENTRIES, k.vpn % NENTRIES) }

  function Page(r: Ref): VPage
    requires r.PageRef?
  {
    VPage(r.root, r.pdx * NENTRIES + r.ptx)
  }

  lemma PlacePage(k: VPage, r: Ref)
    requires r.PageRef? && r.ptx < NENTRIES
    ensures Place(k) == r <==> k == Page(r)
  {
    assert k.vpn == k.vpn / NENTRIES * NENTRIES + k.vpn % NENTRIES;
  }

  ghost function FlatOf(g: Graph): (s: Spaces)
    ensures forall k :: k in s <==> IsUserPage(k) && Place(k) in g
    ensures forall k :: k in s ==> s[k] == g[Place(k)]
  {
    map k | k in UserPages() && Place(k) in g :: g[Place(k)]
  }

  /** A graph update at a table entry is a single-key update of the flat map;
      at a table or directory it is invisible there. */
  lemma FlatAfterPage(g: Graph, r: Ref, e: Entry)
    requires IsCounted(r) && r.PageRef?
    ensures FlatOf(g[r := e]) == FlatOf(g)[Page(r) := e]
    ensures FlatOf(g - {r}) == FlatOf(g) - {Page(r)}
  {
    hide Place, Page, IsUserPage, IsCounted;
    PageIsUser(r);
    forall k: VPage ensures Place(k) == r <==> k == Page(r) {
      PlacePage(k, r);
    }
  }

  lemma PageIsUser(r: Ref)
    requires IsCounted(r) && r.PageRef?
    ensures IsUserPage(Page(r)) && r.ptx < NENTRIES
  {
  }

  lemma FlatAfterRemove(g: Graph, root: nat, va: nat)
    requires root < NENV && va < ADDRESSES && OwnsPdx(root, PDX(va))
    ensures FlatOf(g - {PageRef(root, PDX(va), PTX(va))}) == FlatOf(g) - {VPage(root, VPN(va))}
    ensures PageRef(root, PDX(va), PTX(va)) !in g ==> g - {PageRef(root, PDX(va), PTX(va))} == g
  {
    FlatAfterPage(g, PageRef(root, PDX(va), PTX(va)), Entry(0, 0));
    AddressSplit(va);
  }

  ghost function WithTable(g: Graph, table: Ref, p: Option<nat>): Graph {
    if table in g || p == None then g else g[table := Entry(p.value, 7)]
  }

  lemma FlatAfterInsert(g: Graph, root: nat, va: nat, p: Option<nat>, e: Entry)
    requires root < NENV && va < ADDRESSES && OwnsPdx(root, PDX(va))
    ensures FlatOf(WithTable(g, TableRef(root, PDX(va)), p)[PageRef(root, PDX(va), PTX(va)) := e]) ==
            FlatOf(g)[VPage(root, VPN(va)) := e]
  {
    hide FlatOf, PDX, PTX, VPN;
    var table := TableRef(root, PDX(va));
    PlaceOfVa(root, va);
    FlatAfterPage(WithTable(g, table, p), PageRef(root, PDX(va), PTX(va)), e);
    if p.Some? {
      FlatAfterOther(g, table, Entry(p.value, 7));
    }
  }

  lemma PlaceOfVa(root: nat, va: nat)
    requires root < NENV && va < ADDRESSES && OwnsPdx(root, PDX(va))
    ensures var r := PageRef(root, PDX(va), PTX(va)); IsCounted(r) && Page(r) == VPage(root, VPN(va))
  {
    AddressSplit(va);
  }

  lemma FlatAfterOther(g: Graph, r: Ref, e: Entry)
    requires !r.PageRef?
    ensures FlatOf(g[r := e]) == FlatOf(g) && FlatOf(g - {r}) == FlatOf(g)
  {
  }

  // ---- Stores into memory, seen on the graph ----

  function Store(m: Mem, f: nat, i: nat, w: nat): Mem {
    if f < |m.frames| && i < |m.frames[f]| then
      var frame: Frame := m.frames[f][i := w];
      m.(frames := m.frames[f := frame])
    else m
  }

  /** Writing one table entry changes the content of that one place only, in
      the flat spaces of all roots. */
  lemma StorePte(m: Mem, root: nat, d: nat, t: nat, w: nat)
    requires Sound(m) && OwnsPdx(root, d) && t < NENTRIES
    requires Target(m, TableRef(root, d)).Some?
    ensures TableRef(root, d) in GraphOf(m) && Target(m, TableRef(root, d)).value.ppn < |m.frames|
    ensures var m' := Store(m, Target(m, TableRef(root, d)).value.ppn, t, w);
            && (forall r :: IsPlace(r) ==>
                  Target(m', r) == if r == PageRef(root, d, t) then EntryOf(w) else Target(m, r))
  {
    hide EntryOf;
    var g := GraphOf(m);
    var table := TableRef(root, d);
    assert table in g;
    var f := g[table].ppn;
    var m' := Store(m, f, t, w);
    forall r | IsPlace(r)
      ensures Target(m', r) == if r == PageRef(root, d, t) then EntryOf(w) else Target(m, r)
    {
      match r {
        case DirRef(e) =>
        case TableRef(e, d') => DirNotTable(m, table, e);
        case PageRef(e, d', t') =>
          DirNotTable(m, table, e);
          assert Target(m', TableRef(e, d')) == Target(m, TableRef(e, d'));
          if Target(m, TableRef(e, d')).Some? {
            assert TableRef(e, d') in g;
          }
      }
    }
  }

  lemma DirNotTable(m: Mem, table: Ref, e: nat)
    requires Sound(m) && table in GraphOf(m) && table.TableRef? && e <= NENV
    ensures m.dirs[e].Some? ==> m.dirs[e].value != GraphOf(m)[table].ppn
  {
    if m.dirs[e].Some? {
      assert DirRef(e) in GraphOf(m);
    }
  }

  /** The graph after a store that makes place `r` hold `e`, or nothing. */
  ghost function Put(g: Graph, r: Ref, e: Option<Entry>): Graph {
    if e.Some? then g[r := e.value] else g - {r}
  }

  lemma GraphAfter(m: Mem, m': Mem, r: Ref, e: Option<Entry>)
    requires IsPlace(r)
    requires forall s :: IsPlace(s) ==> Target(m', s) == if s == r then e else Target(m, s)
    ensures GraphOf(m') == if IsCounted(r) then Put(GraphOf(m), r, e) else GraphOf(m)
  {
    hide Target;
    assert GraphOf(m').Keys == (if IsCounted(r) then Put(GraphOf(m), r, e) else GraphOf(m)).Keys;
  }

  ghost predicate IsData(g: Graph, p: nat) {
    forall r :: r in g && g[r].ppn == p ==> r.PageRef?
  }

  function TableFrame(m: Mem, r: Ref): nat
    requires r.PageRef?
  {
    var table := Table(m, r.root, r.pdx);
    if table.Some? then table.value.ppn else 0
  }

  /** `*pte = 0` after page_decref: exactly one reference is gone and accounted for. */
  lemma ErasePte(m: Mem, b: Books, r: Ref)
    requires Sound(m) && Balanced(GraphOf(m), b) && r.PageRef? && r in GraphOf(m)
    ensures TableFrame(m, r) < |m.frames| && |m.frames[TableFrame(m, r)]| == NENTRIES && b.count[GraphOf(m)[r].ppn] > 0
    ensures var m' := Store(m, TableFrame(m, r), r.ptx, 0);
            && GraphOf(m') == GraphOf(m) - {r} && Sound(m')
            && Balanced(GraphOf(m'), Decref(b, GraphOf(m)[r].ppn))
            && SameBut(m, m', {r})
  {
    StorePte(m, r.root, r.pdx, r.ptx, 0);
    GraphAfter(m, Store(m, TableFrame(m, r), r.ptx, 0), r, None);
    DropKeepsBalance(GraphOf(m), b, r);
  }

  /** A store of `page2pa(pp)|perm|PTE_P` into a table entry. */
  lemma WritePte(m: Mem, r: Ref, p: nat, perm: nat)
    requires Sound(m) && IsPlace(r) && r.PageRef? && Target(m, TableRef(r.root, r.pdx)).Some?
    requires perm < PGSIZE && (IsCounted(r) ==> p < |m.frames| && IsData(GraphOf(m), p))
    ensures TableFrame(m, r) < |m.frames| && |m.frames[TableFrame(m, r)]| == NENTRIES
    ensures var m' := Store(m, TableFrame(m, r), r.ptx, MakePte(p, perm));
            && (forall s :: IsPlace(s) ==>
                  Target(m', s) == if s == r then Some(Entry(p, WithPresent(perm))) else Target(m, s))
            && GraphOf(m') == (if IsCounted(r) then GraphOf(m)[r := Entry(p, WithPresent(perm))] else GraphOf(m))
            && Sound(m')
  {
    PteRoundTrip(p, perm);
    StorePte(m, r.root, r.pdx, r.ptx, MakePte(p, perm));
    GraphAfter(m, Store(m, TableFrame(m, r), r.ptx, MakePte(p, perm)), r, Some(Entry(p, WithPresent(perm))));
  }

  /** The final store of page_insert into an entry that is not present. */
  lemma InsertFresh(m: Mem, b: Books, r: Ref, p: nat, perm: nat)
    requires Sound(m) && Balanced(GraphOf(m), b) && |b.count| == |m.frames|
    requires r.PageRef? && IsCounted(r) && r !in GraphOf(m) && TableRef(r.root, r.pdx) in GraphOf(m)
    requires p < |m.frames| && p !in b.reserved && p !in b.free && IsData(GraphOf(m), p)
    requires b.count[p] + 1 < REF_LIMIT && perm < PGSIZE
    ensures TableFrame(m, r) < |m.frames| && |m.frames[TableFrame(m, r)]| == NENTRIES
    ensures var m' := Store(m, TableFrame(m, r), r.ptx, MakePte(p, perm));
            && GraphOf(m') == GraphOf(m)[r := Entry(p, WithPresent(perm))] && Sound(m')
            && Balanced(GraphOf(m'), b.(count := b.count[p := b.count[p] + 1], flight := b.flight - {p}))
            && SameBut(m, m', {r})
  {
    hide RefsTo, Distinct, Sound, IsData;
    WritePte(m, r, p, perm);
    AddKeepsBalance(GraphOf(m), b, r, Entry(p, WithPresent(perm)));
  }

  /** The final store of page_insert over an entry that holds the same page. */
  lemma InsertAgain(m: Mem, b: Books, r: Ref, perm: nat)
    requires Sound(m) && Balanced(GraphOf(m), b)
    requires r.PageRef? && r in GraphOf(m) && perm < PGSIZE
    ensures IsData(GraphOf(m), GraphOf(m)[r].ppn)
    ensures TableFrame(m, r) < |m.frames| && |m.frames[TableFrame(m, r)]| == NENTRIES
    ensures var p := GraphOf(m)[r].ppn;
            var m' := Store(m, TableFrame(m, r), r.ptx, MakePte(p, perm));
            && p < |b.count| && b.count[p] > 0 && p !in b.flight && p !in b.free
            && GraphOf(m') == GraphOf(m)[r := Entry(p, WithPresent(perm))] && Sound(m')
            && Balanced(GraphOf(m'), b)
            && SameBut(m, m', {r})
  {
    var p := GraphOf(m)[r].ppn;
    assert r in RefsTo(GraphOf(m), p);
    WritePte(m, r, p, perm);
    RewriteKeepsBalance(GraphOf(m), b, r, WithPresent(perm));
  }

  /** Re-inserting the page that is already there changes the permissions only. */
  lemma RewriteKeepsBalance(g: Graph, b: Books, r: Ref, perm: nat)
    requires Balanced(g, b) && r in g
    ensures Balanced(g[r := Entry(g[r].ppn, perm)], b)
  {
    var g' := g[r := Entry(g[r].ppn, perm)];
    assert forall p :: RefsTo(g', p) == RefsTo(g, p);
  }

  /** A frame that no directory or table place refers to can be overwritten
      without any effect on the graph. */
  lemma StoreFrame(m: Mem, f: nat, content: Frame)
    requires Sound(m) && f < |m.frames| && |content| == NENTRIES
    requires IsData(GraphOf(m), f)
    ensures var m' := m.(frames := m.frames[f := content]);
            (forall r :: IsPlace(r) ==> Target(m', r) == Target(m, r)) && GraphOf(m') == GraphOf(m) && Sound(m')
  {
    var g := GraphOf(m);
    var m' := m.(frames := m.frames[f := content]);
    forall r | IsPlace(r) ensures Target(m', r) == Target(m, r) {
      match r {
        case DirRef(e) =>
        case TableRef(e, d) => UnreferencedDir(m, f, e);
        case PageRef(e, d, t) =>
          UnreferencedDir(m, f, e);
          assert Target(m', TableRef(e, d)) == Target(m, TableRef(e, d));
          if Target(m, TableRef(e, d)).Some? {
            assert TableRef(e, d) in g;
          }
      }
    }
    assert GraphOf(m') == g;
  }

  lemma UnreferencedDir(m: Mem, f: nat, e: nat)
    requires Sound(m) && e <= NENV
    requires IsData(GraphOf(m), f)
    ensures m.dirs[e].Some? ==> m.dirs[e].value != f
  {
    if m.dirs[e].Some? {
      assert DirRef(e) in GraphOf(m);
    }
  }

  ghost predicate AllZero(m: Mem, f: nat) {
    f < |m.frames| && forall i :: 0 <= i < |m.frames[f]| ==> m.frames[f][i] == 0
  }

  /** Hooking a cleared, unreferenced frame into a directory adds exactly that
      directory entry: the new table maps nothing. */
  lemma StorePde(m: Mem, root: nat, d: nat, f: nat, perm: nat)
    requires Sound(m) && OwnsPdx(root, d) && m.dirs[root].Some? && perm < PGSIZE
    requires Target(m, TableRef(root, d)) == None
    requires f < |m.frames| && AllZero(m, f) && RefsTo(GraphOf(m), f) == {}
    ensures m.dirs[root].value < |m.frames|
    ensures var m' := Store(m, m.dirs[root].value, d, MakePte(f, perm));
            && GraphOf(m') == GraphOf(m)[TableRef(root, d) := Entry(f, WithPresent(perm))]
            && Sound(m')
            && (forall r :: IsPlace(r) ==>
                  Target(m', r) == if r == TableRef(root, d) then Some(Entry(f, WithPresent(perm))) else Target(m, r))
  {
    var g := GraphOf(m);
    var dir := DirRef(root);
    assert dir in g;
    var m' := Store(m, g[dir].ppn, d, MakePte(f, perm));
    PteRoundTrip(f, perm);
    assert f != g[dir].ppn by { assert dir !in RefsTo(g, f); }
    forall r | IsPlace(r)
      ensures Target(m', r) == if r == TableRef(root, d) then Some(Entry(f, WithPresent(perm))) else Target(m, r)
    {
      PdeFrame(m, root, d, MakePte(f, perm), r);
      if r.PageRef? && r.root == root && r.pdx == d {
        assert Target(m', TableRef(root, d)) == Some(Entry(f, WithPresent(perm)));
      }
    }
    GraphAfter(m, m', TableRef(root, d), Some(Entry(f, WithPresent(perm))));
    forall r | r in g ensures g[r].ppn != f {
      assert r !in RefsTo(g, f);
    }
  }

  function Zeros(): Frame { seq(NENTRIES, _ => 0) }

  /** The memory after pgdir_walk has made table `p` for directory entry `d`. */
  function HookTable(m: Mem, root: nat, d: nat, p: nat): Mem {
    if root < |m.dirs| && m.dirs[root].Some? && p < |m.frames| then
      Store(m.(frames := m.frames[p := Zeros()]), m.dirs[root].value, d, MakePte(p, PTE_U + PTE_W + PTE_P))
    else m
  }

  lemma HookTableCorrect(m: Mem, b: Books, root: nat, d: nat)
    requires Sound(m) && Balanced(GraphOf(m), b) && |b.count| == |m.frames| && b.free != []
    requires OwnsPdx(root, d) && m.dirs[root].Some? && Target(m, TableRef(root, d)) == None
    ensures m.dirs[root].value < |m.frames| && b.free[0] < |m.frames| && b.free[0] !in b.flight
    ensures forall f :: 0 <= f < |m.frames| ==> |m.frames[f]| == NENTRIES
    ensures var p := b.free[0];
            var m' := HookTable(m, root, d, p);
            && GraphOf(m') == GraphOf(m)[TableRef(root, d) := Entry(p, 7)]
            && Sound(m')
            && Balanced(GraphOf(m'), b.(count := b.count[p := 1], free := b.free[1..]))
            && SameBut(m, m', {TableRef(root, d)})
  {
    hide RefsTo, Distinct, SameBut, GraphOf, HookTable;
    HookMemory(m, root, d, b);
    HookBalance(GraphOf(m), b, TableRef(root, d));
  }

  lemma HookMemory(m: Mem, root: nat, d: nat, b: Books)
    requires Sound(m) && Balanced(GraphOf(m), b) && |b.count| == |m.frames| && b.free != []
    requires OwnsPdx(root, d) && m.dirs[root].Some? && Target(m, TableRef(root, d)) == None
    ensures m.dirs[root].value < |m.frames| && b.free[0] < |m.frames|
    ensures forall f :: 0 <= f < |m.frames| ==> |m.frames[f]| == NENTRIES
    ensures var m' := HookTable(m, root, d, b.free[0]);
            && GraphOf(m') == GraphOf(m)[TableRef(root, d) := Entry(b.free[0], 7)]
            && Sound(m') && SameBut(m, m', {TableRef(root, d)}) && TableRef(root, d) !in GraphOf(m)
  {
    hide RefsTo, Distinct, Exclusive, InRange;
    var p := b.free[0];
    assert DirRef(root) in GraphOf(m);
    assert p in b.free;
    ClearedFrame(m, p);
    StorePde(m.(frames := m.frames[p := Zeros()]), root, d, p, PTE_U + PTE_W + PTE_P);
  }

  /** The head of the free list gets its first reference. */
  lemma HookBalance(g: Graph, b: Books, r: Ref)
    requires Balanced(g, b) && b.free != [] && r !in g && r != DirRef(BOOT)
    ensures b.free[0] < |b.count| && b.free[0] !in b.flight
    ensures Balanced(g[r := Entry(b.free[0], 7)], b.(count := b.count[b.free[0] := 1], free := b.free[1..]))
  {
    hide RefsTo, Distinct;
    var p := b.free[0];
    assert p in b.free;
    TakeKeepsBalance(g, b);
    var b1 := b.(free := b.free[1..], flight := b.flight + {p});
    AddKeepsBalance(g, b1, r, Entry(p, 7));
    assert b1.flight - {p} == b.flight;
  }

  lemma ClearedFrame(m: Mem, p: nat)
    requires Sound(m) && p < |m.frames| && RefsTo(GraphOf(m), p) == {}
    ensures var m' := m.(frames := m.frames[p := Zeros()]);
            && GraphOf(m') == GraphOf(m) && Sound(m') && AllZero(m', p)
            && (forall r :: IsPlace(r) ==> Target(m', r) == Target(m, r))
  {
    forall r | r in GraphOf(m) ensures GraphOf(m)[r].ppn != p {
      assert r !in RefsTo(GraphOf(m), p);
    }
    StoreFrame(m, p, Zeros());
  }

  /** A directory entry store is seen only through that entry. */
  lemma PdeFrame(m: Mem, root: nat, d: nat, w: nat, r: Ref)
    requires Sound(m) && OwnsPdx(root, d) && m.dirs[root].Some? && IsPlace(r)
    requires m.dirs[root].value < |m.frames|
    ensures var m' := Store(m, m.dirs[root].value, d, w);
            && Target(m', TableRef(root, d)) == EntryOf(w)
            && (!(!r.DirRef? && r.root == root && r.pdx == d) ==> Target(m', r) == Target(m, r))
  {
    var m' := Store(m, m.dirs[root].value, d, w);
    if !r.DirRef? && !(r.root == root && r.pdx == d) {
      if r.root != root {
        DirsApart(m, root, r.root);
      }
      assert Table(m', r.root, r.pdx) == Table(m, r.root, r.pdx);
      if r.PageRef? && Table(m, r.root, r.pdx).Some? {
        assert TableRef(r.root, r.pdx) in GraphOf(m);
        DirNotTable(m, TableRef(r.root, r.pdx), root);
      }
    }
  }

  lemma DirsApart(m: Mem, e: nat, e': nat)
    requires Sound(m) && e <= NENV && e' <= NENV && m.dirs[e].Some? && e != e'
    ensures m.dirs[e'] != m.dirs[e]
  {
    if m.dirs[e'].Some? {
      assert DirRef(e) in GraphOf(m) && DirRef(e') in GraphOf(m);
    }
  }

  /** Clearing a directory entry whose table is empty removes exactly that entry. */
  lemma ClearPde(m: Mem, root: nat, d: nat)
    requires Sound(m) && OwnsPdx(root, d) && m.dirs[root].Some?
    requires forall t :: 0 <= t < NENTRIES ==> Target(m, PageRef(root, d, t)) == None
    ensures m.dirs[root].value < |m.frames|
    ensures var m' := Store(m, m.dirs[root].value, d, 0);
            && GraphOf(m') == GraphOf(m) - {TableRef(root, d)}
            && Sound(m')
            && (forall r :: IsPlace(r) ==> Target(m', r) == if r == TableRef(root, d) then None else Target(m, r))
  {
    assert DirRef(root) in GraphOf(m);
    var m' := Store(m, m.dirs[root].value, d, 0);
    forall r | IsPlace(r) ensures Target(m', r) == if r == TableRef(root, d) then None else Target(m, r) {
      PdeFrame(m, root, d, 0, r);
    }
    GraphAfter(m, m', TableRef(root, d), None);
  }

  /** Giving a root a directory whose own part is clear adds exactly that
      directory; forgetting one whose own part is clear removes exactly it. */
  lemma SetDir(m: Mem, e: nat, f: nat)
    requires Sound(m) && e < NENV && m.dirs[e] == None && f < |m.frames|
    requires RefsTo(GraphOf(m), f) == {}
    requires forall d :: 0 <= d < UPDX ==> m.frames[f][d] == 0
    ensures var m' := m.(dirs := m.dirs[e := Some(f)]);
            && GraphOf(m') == GraphOf(m)[DirRef(e) := Entry(f, 0)]
            && Sound(m')
            && SameBut(m, m', {DirRef(e)})
  {
    var m' := m.(dirs := m.dirs[e := Some(f)]);
    forall r | IsPlace(r) ensures Target(m', r) == if r == DirRef(e) then Some(Entry(f, 0)) else Target(m, r) {
      if r.PageRef? {
        assert Target(m', TableRef(r.root, r.pdx)) == Target(m, TableRef(r.root, r.pdx));
      }
    }
    GraphAfter(m, m', DirRef(e), Some(Entry(f, 0)));
    forall r | r in GraphOf(m) ensures GraphOf(m)[r].ppn != f {
      assert r !in RefsTo(GraphOf(m), f);
    }
  }

  lemma ClearDir(m: Mem, e: nat)
    requires Sound(m) && e < NENV && m.dirs[e].Some?
    requires forall d :: 0 <= d < UPDX ==> Target(m, TableRef(e, d)) == None
    ensures var m' := m.(dirs := m.dirs[e := None]);
            && GraphOf(m') == GraphOf(m) - {DirRef(e)}
            && Sound(m')
            && SameBut(m, m', {DirRef(e)})
  {
    var m' := m.(dirs := m.dirs[e := None]);
    forall r | IsPlace(r) ensures Target(m', r) == if r == DirRef(e) then None else Target(m, r) {
      if r.PageRef? {
        assert Target(m', TableRef(r.root, r.pdx)) == Target(m, TableRef(r.root, r.pdx));
      }
    }
    GraphAfter(m, m', DirRef(e), None);
  }
}
