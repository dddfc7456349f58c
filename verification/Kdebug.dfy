/** The binary search over symbol table entries of mixed types
    (stab_binsearch of kern/kdebug.c). */
module Kdebug {

  const TOP: nat := 0xffff_ffff   // the largest address

  datatype Stab = Stab(kind: nat, value: nat)

  /** One search: the table, the type looked for, and the region. */
  datatype Query = Query(stabs: seq<Stab>, kind: nat, left: int, right: int)

  /** The region lies in the table, and addresses have 32 bits. */
  ghost predicate InTable(q: Query) {
    0 <= q.left && q.right < |q.stabs| && forall i :: 0 <= i < |q.stabs| ==> q.stabs[i].value <= TOP
  }

  /** `i` is an entry of the right type inside the region. */
  predicate Is(q: Query, i: int) {
    q.left <= i <= q.right && 0 <= i < |q.stabs| && q.stabs[i].kind == q.kind
  }

  function Value(q: Query, i: int): nat { if 0 <= i < |q.stabs| then q.stabs[i].value else 0 }

  /** Entries of the right type come in order of address. */
  ghost predicate Sorted(q: Query) {
    forall i, j :: Is(q, i) && Is(q, j) && i < j ==> Value(q, i) <= Value(q, j)
  }

  // ---- The search as a function ----

  datatype State = State(l: int, r: int, left: int, right: int, anyMatches: bool, addr: nat)

  function Start(q: Query, addr: nat): State { State(q.left, q.right, q.left, q.right, false, addr) }

  /** The last entry of the right type in l..m, or l - 1. */
  function LastMatch(q: Query, l: int, m: int): int
    decreases m - l + 1
  {
    if m < l then l - 1 else if Is(q, m) then m else LastMatch(q, l, m - 1)
  }

  /** One turn of the search loop; addr++ wraps around. */
  function Turn(q: Query, s: State): State {
    var middle := (s.l + s.r) / 2;
    var m := LastMatch(q, s.l, middle);
    if m < s.l then s.(l := middle + 1)
    else if Value(q, m) < s.addr then s.(left := m, l := middle + 1, anyMatches := true)
    else if Value(q, m) > s.addr then s.(right := m - 1, r := m - 1, anyMatches := true)
    else s.(left := m, l := m, addr := if s.addr >= TOP then 0 else s.addr + 1, anyMatches := true)
  }

  function Width(s: State): nat { if s.l <= s.r then s.r - s.l + 1 else 0 }

  /** An exact match at the lower end is the one turn that may leave the range as it is. */
  function Pending(q: Query, s: State): nat { if Is(q, s.l) && Value(q, s.l) == s.addr then 1 else 0 }

  lemma LastMatchRange(q: Query, l: int, m: int)
    requires l <= m + 1
    ensures l - 1 <= LastMatch(q, l, m) <= m
    ensures LastMatch(q, l, m) >= l ==> Is(q, LastMatch(q, l, m))
    ensures forall i :: LastMatch(q, l, m) < i <= m ==> !Is(q, i)
    decreases m - l + 1
  {
  }

  /** Every turn makes progress, although an exact match need not shrink the range. */
  lemma TurnDecreases(q: Query, s: State)
    requires s.l <= s.r
    ensures var t := Turn(q, s); Width(t) < Width(s) || (Width(t) == Width(s) && Pending(q, t) < Pending(q, s))
  {
    LastMatchRange(q, s.l, (s.l + s.r) / 2);
  }

  function Loop(q: Query, s: State): State
    decreases Width(s), Pending(q, s)
  {
    if s.l <= s.r then
      TurnDecreases(q, s);
      Loop(q, Turn(q, s))
    else s
  }

  /** The last loop: back from `l` to the nearest entry of the right type, but not below `lo`. */
  function Back(q: Query, lo: int, l: int): int
    decreases l - lo
  {
    if l > lo && !Is(q, l) then Back(q, lo, l - 1) else l
  }

  datatype Region = Region(left: int, right: int)

  /** What stab_binsearch leaves in *region_left and *region_right. */
  function Search(q: Query, addr: nat): Region {
    var s := Loop(q, Start(q, addr));
    if s.anyMatches then Region(Back(q, s.left, s.right), s.right) else Region(s.left, s.left - 1)
  }

  /** The inner loop: back from the middle to the nearest entry of the right type. */
  method ScanBack(q: Query, l: int, middle: int) returns (m: int)
    requires InTable(q) && q.left <= l <= middle + 1 && middle <= q.right
    ensures m == LastMatch(q, l, middle)
  {
    m := middle;
    while m >= l && q.stabs[m].kind != q.kind
      invariant l - 1 <= m <= middle
      invariant LastMatch(q, l, m) == LastMatch(q, l, middle)
    {
      m := m - 1;
    }
  }

  /** The last loop. */
  method Settle(q: Query, lo: int, hi: int) returns (l: int)
    requires InTable(q) && q.left <= lo && hi <= q.right
    ensures l == Back(q, lo, hi)
  {
    l := hi;
    while l > lo && q.stabs[l].kind != q.kind
      invariant l <= hi && Back(q, lo, l) == Back(q, lo, hi)
    {
      l := l - 1;
    }
  }

  /** stab_binsearch: it stops on every table, sorted or not, and reads inside the
      region only. */
  method StabBinsearch(q: Query, address: nat) returns (region: Region)
    requires InTable(q)
    ensures region == Search(q, address)
  {
    hide LastMatch, Back;
    var regionLeft, regionRight := q.left, q.right;
    var l, r, anyMatches := q.left, q.right, false;
    var addr: nat := address;
    ghost var s := Start(q, address);
    while l <= r
      invariant s == State(l, r, regionLeft, regionRight, anyMatches, addr)
      invariant q.left <= l && q.left <= regionLeft && r == regionRight <= q.right
      invariant Loop(q, s) == Loop(q, Start(q, address))
      decreases Width(s), Pending(q, s)
    {
      TurnDecreases(q, s);
      var trueM := (l + r) / 2;
      var m := ScanBack(q, l, trueM);
      LastMatchRange(q, l, trueM);
      s := Turn(q, s);
      if m < l {
        l := trueM + 1;
        continue;
      }
      anyMatches := true;
      if q.stabs[m].value < addr {
        regionLeft := m;
        l := trueM + 1;
      } else if q.stabs[m].value > addr {
        regionRight := m - 1;
        r := m - 1;
      } else {
        regionLeft := m;
        l := m;
        addr := if addr >= TOP then 0 else addr + 1;
      }
    }
    if !anyMatches {
      regionRight := regionLeft - 1;
    } else {
      regionLeft := Settle(q, regionLeft, regionRight);
    }
    region := Region(regionLeft, regionRight);
  }

  // ---- What the search finds ----

  /** `p` is the last entry at or below `addr`, and `e` is the last position before
      the first entry above it, or the end of the region. */
  ghost predicate Brackets(q: Query, addr: nat, p: int, e: int) {
    && Is(q, p) && Value(q, p) <= addr && p <= e <= q.right
    && (forall j :: Is(q, j) ==> (Value(q, j) <= addr <==> j <= p))
    && (forall j :: Is(q, j) ==> (Value(q, j) > addr <==> j > e))
    && (e == q.right || Is(q, e + 1))
  }

  ghost predicate Bounds(q: Query, s: State) {
    && q.left <= s.l && q.left <= s.left && s.r == s.right <= q.right
    && (s.anyMatches ==> exists i :: Is(q, i))
    && (!s.anyMatches ==> s.left == q.left && s.r == q.right && forall i :: Is(q, i) ==> i >= s.l)
  }

  /** Nothing beyond `addr` has been taken for it. */
  ghost predicate Exact(q: Query, addr: nat, s: State) {
    && (s.addr == addr || (s.addr == addr + 1 && At(q, addr) && Is(q, s.left)))
    && (s.left == q.left || (Is(q, s.left) && Value(q, s.left) <= addr))
    && (forall j :: Is(q, j) && j < s.l ==> Value(q, j) <= addr && j <= s.left && Is(q, s.left))
    && (if s.addr == addr then forall j :: Is(q, j) && j < s.l ==> Value(q, j) < addr else Value(q, s.left) <= addr)
    && (forall j :: Is(q, j) && j > s.r ==> Value(q, j) > addr)
    && (s.r == q.right || Is(q, s.r + 1))
  }

  /** An entry above `addr` has been taken for it. */
  ghost predicate Passed(q: Query, addr: nat, s: State) {
    && Is(q, s.left) && addr < Value(q, s.left) < s.addr && s.left <= s.l && s.left <= s.r
    && (s.r == q.right || Is(q, s.r + 1)) && At(q, addr) && At(q, addr + 1)
  }

  /** The address has wrapped around after a match at the largest one. */
  ghost predicate Wrapped(q: Query, s: State) {
    && s.addr == 0 && Is(q, s.l) && Value(q, s.l) == TOP && s.left == s.l && s.r >= s.l - 1
    && (forall i :: Is(q, i) ==> Value(q, i) <= TOP) && (s.r == q.right || Is(q, s.r + 1))
  }

  /** One of the three situations a search can be in. */
  ghost predicate Phase(q: Query, addr: nat, s: State) {
    (s.addr <= TOP && (Exact(q, addr, s) || Passed(q, addr, s)))
      || (Wrapped(q, s) && At(q, addr) && (addr == TOP || At(q, addr + 1)))
  }

  ghost predicate At(q: Query, addr: nat) { exists i :: Is(q, i) && Value(q, i) == addr }

  /** `m` is the last entry of the right type up to the middle. */
  ghost predicate Probed(q: Query, s: State, m: int) {
    Is(q, m) && s.l <= m <= (s.l + s.r) / 2 && forall i :: m < i <= (s.l + s.r) / 2 ==> !Is(q, i)
  }

  lemma MoveUp(q: Query, addr: nat, s: State, m: int)
    requires Sorted(q) && s.l <= s.r && Probed(q, s, m) && Value(q, m) < s.addr
    ensures var t := s.(left := m, l := (s.l + s.r) / 2 + 1, anyMatches := true);
            (Exact(q, addr, s) ==> Exact(q, addr, t)) && (Passed(q, addr, s) ==> Passed(q, addr, t))
  {
    if Exact(q, addr, s) {
      assert Value(q, m) <= addr;
      assert forall j :: Is(q, j) && j <= (s.l + s.r) / 2 ==> j <= m && Value(q, j) <= Value(q, m);
    }
  }

  lemma CutDown(q: Query, addr: nat, s: State, m: int)
    requires Sorted(q) && s.l <= s.r && Probed(q, s, m) && Value(q, m) > s.addr
    ensures var t := s.(right := m - 1, r := m - 1, anyMatches := true);
            (Exact(q, addr, s) ==> Exact(q, addr, t)) && (Passed(q, addr, s) ==> Passed(q, addr, t))
  {
    if Exact(q, addr, s) {
      assert Value(q, m) > addr;
      assert forall j :: Is(q, j) && j > m - 1 ==> Value(q, j) >= Value(q, m);
    }
  }

  lemma StepOn(q: Query, addr: nat, s: State, m: int)
    requires InTable(q) && Sorted(q) && s.l <= s.r && Probed(q, s, m) && Value(q, m) == s.addr
    requires Phase(q, addr, s) && Bounds(q, s)
    ensures Phase(q, addr, s.(left := m, l := m, addr := if s.addr >= TOP then 0 else s.addr + 1, anyMatches := true))
  {
    hide InTable, Sorted, Is;
    if s.addr <= TOP && Exact(q, addr, s) {
      StepFromExact(q, addr, s, m);
    } else if s.addr <= TOP && Passed(q, addr, s) {
      StepFromPassed(q, addr, s, m);
    } else {
      WrappedCuts(q, s, m);
    }
  }

  lemma StepFromExact(q: Query, addr: nat, s: State, m: int)
    requires InTable(q) && Sorted(q) && s.l <= s.r && Probed(q, s, m) && Value(q, m) == s.addr <= TOP
    requires Exact(q, addr, s)
    ensures Phase(q, addr, s.(left := m, l := m, addr := if s.addr >= TOP then 0 else s.addr + 1, anyMatches := true))
  {
    assert At(q, s.addr);
    assert forall j :: Is(q, j) && j < m ==> Value(q, j) <= Value(q, m);
  }

  lemma StepFromPassed(q: Query, addr: nat, s: State, m: int)
    requires InTable(q) && Sorted(q) && s.l <= s.r && Probed(q, s, m) && Value(q, m) == s.addr <= TOP
    requires Passed(q, addr, s)
    ensures Phase(q, addr, s.(left := m, l := m, addr := if s.addr >= TOP then 0 else s.addr + 1, anyMatches := true))
  {
  }

  lemma WrappedCuts(q: Query, s: State, m: int)
    requires Sorted(q) && Wrapped(q, s) && Probed(q, s, m)
    ensures Value(q, m) > s.addr && Wrapped(q, s.(right := m - 1, r := m - 1, anyMatches := true))
  {
  }

  lemma SkipUp(q: Query, addr: nat, s: State)
    requires s.l <= s.r && forall i :: s.l <= i <= (s.l + s.r) / 2 ==> !Is(q, i)
    ensures var t := s.(l := (s.l + s.r) / 2 + 1);
            (Exact(q, addr, s) ==> Exact(q, addr, t)) && (Passed(q, addr, s) ==> Passed(q, addr, t))
  {
  }

  lemma TurnBounds(q: Query, s: State)
    requires s.l <= s.r && Bounds(q, s)
    ensures Bounds(q, Turn(q, s))
  {
    hide LastMatch;
    LastMatchRange(q, s.l, (s.l + s.r) / 2);
  }

  lemma TurnKeeps(q: Query, addr: nat, s: State)
    requires InTable(q) && Sorted(q) && s.l <= s.r && Bounds(q, s) && Phase(q, addr, s)
    ensures Bounds(q, Turn(q, s)) && Phase(q, addr, Turn(q, s))
  {
    hide LastMatch, Exact, Passed, Bounds, Sorted, Is, At, InTable;
    var middle := (s.l + s.r) / 2;
    var m := LastMatch(q, s.l, middle);
    LastMatchRange(q, s.l, middle);
    TurnBounds(q, s);
    if m < s.l {
      SkipUp(q, addr, s);
    } else {
      assert Probed(q, s, m);
      if Wrapped(q, s) {
        WrappedCuts(q, s, m);
      }
      if Value(q, m) < s.addr {
        MoveUp(q, addr, s, m);
      } else if Value(q, m) > s.addr {
        CutDown(q, addr, s, m);
      } else {
        StepOn(q, addr, s, m);
      }
    }
  }

  lemma {:induction false} LoopKeeps(q: Query, addr: nat, s: State)
    requires InTable(q) && Sorted(q) && Bounds(q, s) && Phase(q, addr, s)
    ensures var t := Loop(q, s); t.l > t.r && Bounds(q, t) && Phase(q, addr, t)
    decreases Width(s), Pending(q, s)
  {
    hide Sorted, Bounds, Phase, Turn, InTable;
    if s.l <= s.r {
      TurnDecreases(q, s);
      TurnKeeps(q, addr, s);
      LoopKeeps(q, addr, Turn(q, s));
    }
  }

  lemma {:induction false} BackFinds(q: Query, lo: int, l: int)
    ensures var p := Back(q, lo, l);
            && p <= l && (l >= lo ==> p >= lo) && (l < lo ==> p == l)
            && (p > lo ==> Is(q, p)) && forall i :: p < i <= l ==> !Is(q, i)
    decreases l - lo
  {
    if l > lo && !Is(q, l) {
      BackFinds(q, lo, l - 1);
    }
  }

  /** The entry found is the one whose range contains `addr` exactly when it is an
      entry of the type with an address not above `addr`; at the largest address,
      exactly when no entry stands there.  It always is when no entry stands at
      `addr`, or (below the largest address) none at `addr + 1`. */
  lemma SearchBrackets(q: Query, addr: nat, k: int)
    requires InTable(q) && Sorted(q) && addr <= TOP && Is(q, k) && Value(q, k) <= addr
    ensures var g := Search(q, addr);
            && (addr < TOP ==> (Brackets(q, addr, g.left, g.right) <==> Is(q, g.left) && Value(q, g.left) <= addr))
            && (addr == TOP ==> (Brackets(q, addr, g.left, g.right) <==> !At(q, addr)))
            && (!At(q, addr) || (addr < TOP && !At(q, addr + 1)) ==> Brackets(q, addr, g.left, g.right))
  {
    hide Loop, Back, Brackets, At, Exact, Passed, Wrapped, InTable;
    StartExact(q, addr);
    LoopKeeps(q, addr, Start(q, addr));
    var s := Loop(q, Start(q, addr));
    if s.addr <= TOP && Exact(q, addr, s) {
      ExactBrackets(q, addr, s, k);
    } else if s.addr <= TOP && Passed(q, addr, s) {
      PassedMisses(q, addr, s);
    } else {
      WrappedMisses(q, addr, s);
    }
  }

  lemma StartExact(q: Query, addr: nat)
    ensures Exact(q, addr, Start(q, addr)) && Bounds(q, Start(q, addr))
  {
  }

  lemma ExactBrackets(q: Query, addr: nat, s: State, k: int)
    requires InTable(q) && Sorted(q) && Is(q, k) && Value(q, k) <= addr && s.l > s.r && Bounds(q, s)
    requires Exact(q, addr, s) && s.addr <= TOP
    ensures s.anyMatches && (addr == TOP ==> !At(q, addr))
    ensures var p := Back(q, s.left, s.right); Is(q, p) && Value(q, p) <= addr && Brackets(q, addr, p, s.right)
  {
    hide Back;
    BackFinds(q, s.left, s.right);
    assert k <= s.r && k < s.l;
    assert Is(q, s.left) && Value(q, s.left) <= addr && s.left <= s.r;
    var p := Back(q, s.left, s.right);
    assert Is(q, p) && p < s.l;
  }

  lemma PassedMisses(q: Query, addr: nat, s: State)
    requires Sorted(q) && Bounds(q, s) && Passed(q, addr, s) && s.addr <= TOP
    ensures s.anyMatches && addr < TOP && At(q, addr) && At(q, addr + 1)
    ensures var p := Back(q, s.left, s.right); Is(q, p) && Value(q, p) > addr && !Brackets(q, addr, p, s.right)
  {
    BackFinds(q, s.left, s.right);
  }

  lemma WrappedMisses(q: Query, addr: nat, s: State)
    requires Sorted(q) && s.l > s.r && Bounds(q, s) && Wrapped(q, s) && addr <= TOP
    ensures s.anyMatches
    ensures var p := Back(q, s.left, s.right);
            Brackets(q, addr, p, s.right) <==> addr < TOP && Is(q, p) && Value(q, p) <= addr
  {
    BackFinds(q, s.left, s.right);
    assert s.right == s.l - 1;
  }

  // ---- Exactly when it brackets ----

  /** The first entry of the type with value `v` from `i` on, or q.right + 1. */
  function FirstAt(q: Query, v: nat, i: int): int
    decreases q.right - i
  {
    if i > q.right || (Is(q, i) && Value(q, i) == v) then i else FirstAt(q, v, i + 1)
  }

  /** The entry that a bisection stops at, and the upper end of its range. */
  datatype Met = Met(at: int, r: int)

  /** A bisection of the positions l..r that stops at the first entry it meets
      from `a` up to `f`. */
  function Meet(q: Query, a: int, f: int, l: int, r: int): Met
    decreases r - l
  {
    if l > r then Met(a - 1, r)
    else
      var middle := (l + r) / 2;
      var m := LastMatch(q, l, middle);
      LastMatchRange(q, l, middle);
      if m < a then Meet(q, a, f, middle + 1, r)
      else if m > f then Meet(q, a, f, l, m - 1)
      else Met(m, r)
  }

  /** The search for `addr` succeeds: no entries stand at `addr`, or none at
      `addr + 1`, or bisecting meets the first entry at `addr + 1` before any at
      `addr`.  With `addr + 1` the largest address, the wrapped search also stops
      rightly behind an entry at `addr` that is next to the first one above, if
      that one is the first to be met in what is left. */
  predicate Succeeds(q: Query, addr: nat) {
    var a, f := FirstAt(q, addr, q.left), FirstAt(q, addr + 1, q.left);
    if a > q.right then true
    else if addr >= TOP then false
    else if f > q.right then true
    else
      var met := Meet(q, a, f, q.left, q.right);
      met.at == f
      || (addr + 1 == TOP && Is(q, f - 1) && Meet(q, f, q.right, met.at, met.r).at == f)
  }

  /** `i` is the first entry with value `v`. */
  ghost predicate IsFirst(q: Query, v: nat, i: int) {
    Is(q, i) && Value(q, i) == v && forall j :: Is(q, j) && j < i ==> Value(q, j) < v
  }

  lemma {:induction false} FirstAtFinds(q: Query, v: nat, i: int)
    requires forall j :: Is(q, j) && Value(q, j) == v ==> j >= i
    ensures var f := FirstAt(q, v, i);
            if f > q.right then !At(q, v)
            else Is(q, f) && Value(q, f) == v && forall j :: Is(q, j) && Value(q, j) == v ==> j >= f
    decreases q.right - i
  {
    if i <= q.right && !(Is(q, i) && Value(q, i) == v) {
      FirstAtFinds(q, v, i + 1);
    }
  }

  lemma FirstAtIsFirst(q: Query, v: nat)
    requires Sorted(q)
    ensures var f := FirstAt(q, v, q.left); if f > q.right then !At(q, v) else IsFirst(q, v, f) && At(q, v)
  {
    FirstAtFinds(q, v, q.left);
    var f := FirstAt(q, v, q.left);
    if f <= q.right {
      forall j | Is(q, j) && j < f ensures Value(q, j) < v {
        assert Value(q, j) <= Value(q, f) && Value(q, j) != v;
      }
    }
  }

  /** No entry above `addr` is left in the range. */
  ghost predicate Clear(q: Query, addr: nat, s: State) {
    forall i :: Is(q, i) && s.l <= i <= s.r ==> Value(q, i) <= addr
  }

  /** Then none is ever taken for it. */
  lemma {:induction false} ClearLoop(q: Query, addr: nat, s: State)
    requires Sorted(q) && addr < TOP && Exact(q, addr, s) && Clear(q, addr, s)
    ensures Exact(q, addr, Loop(q, s)) && Loop(q, s).addr <= TOP
    decreases Width(s), Pending(q, s)
  {
    hide Sorted, Turn, Exact, Clear;
    if s.l <= s.r {
      TurnDecreases(q, s);
      ClearTurn(q, addr, s);
      ClearLoop(q, addr, Turn(q, s));
    } else {
      ExactAddr(q, addr, s);
    }
  }

  lemma ExactAddr(q: Query, addr: nat, s: State)
    requires Exact(q, addr, s)
    ensures s.addr == addr || s.addr == addr + 1
  {
  }

  lemma ClearTurn(q: Query, addr: nat, s: State)
    requires Sorted(q) && addr < TOP && Exact(q, addr, s) && Clear(q, addr, s) && s.l <= s.r
    ensures Exact(q, addr, Turn(q, s)) && Clear(q, addr, Turn(q, s))
  {
    hide LastMatch, Exact, Sorted, Is;
    var middle := (s.l + s.r) / 2;
    var m := LastMatch(q, s.l, middle);
    LastMatchRange(q, s.l, middle);
    ExactAddr(q, addr, s);
    if m < s.l {
      SkipUp(q, addr, s);
    } else {
      assert Probed(q, s, m);
      if Value(q, m) < s.addr {
        MoveUp(q, addr, s, m);
      } else {
        HitExact(q, addr, s, m);
      }
    }
  }

  lemma HitExact(q: Query, addr: nat, s: State, m: int)
    requires Sorted(q) && s.l <= s.r && Probed(q, s, m) && Value(q, m) == addr == s.addr < TOP && Exact(q, addr, s)
    ensures Exact(q, addr, s.(left := m, l := m, addr := s.addr + 1, anyMatches := true))
  {
    assert forall j :: Is(q, j) && j < m ==> Value(q, j) <= Value(q, m);
  }

  /** Everything at or below entry `b` has been left behind. */
  ghost predicate Over(q: Query, b: int, s: State) {
    Is(q, b) && b <= s.left && b <= s.l && b <= s.r == s.right && Value(q, b) < TOP
      && (b < s.l || Value(q, b) <= s.addr)
  }

  lemma {:induction false} OverLoop(q: Query, b: int, s: State)
    requires InTable(q) && Over(q, b, s)
    ensures Over(q, b, Loop(q, s)) && Back(q, Loop(q, s).left, Loop(q, s).right) >= b
    decreases Width(s), Pending(q, s)
  {
    hide LastMatch;
    if s.l <= s.r {
      TurnDecreases(q, s);
      LastMatchRange(q, s.l, (s.l + s.r) / 2);
      OverLoop(q, b, Turn(q, s));
    } else {
      BackFinds(q, s.left, s.right);
    }
  }

  /** While `addr + 1` is looked for and entry `f` there is in reach, the search
      goes on to an entry above `addr`. */
  lemma {:induction false} FinallyOver(q: Query, addr: nat, f: int, s: State)
    requires InTable(q) && Sorted(q) && Is(q, f) && Value(q, f) == addr + 1 == s.addr < TOP
    requires s.l <= f <= s.r == s.right
    ensures var t := Loop(q, s); var p := Back(q, t.left, t.right); Is(q, p) ==> Value(q, p) > addr
    decreases Width(s), Pending(q, s)
  {
    hide LastMatch, Back, Over;
    var middle := (s.l + s.r) / 2;
    var m := LastMatch(q, s.l, middle);
    LastMatchRange(q, s.l, middle);
    TurnDecreases(q, s);
    if m >= s.l && Value(q, m) == s.addr {
      HitIsOver(q, s, m);
      OverLoop(q, m, Turn(q, s));
    } else {
      StillInReach(q, f, s, m);
      FinallyOver(q, addr, f, Turn(q, s));
    }
  }

  lemma HitIsOver(q: Query, s: State, m: int)
    requires s.l <= s.r == s.right && Probed(q, s, m) && Value(q, m) == s.addr < TOP
    ensures Over(q, m, s.(left := m, l := m, addr := s.addr + 1, anyMatches := true))
  {
  }

  /** A turn that is no hit keeps an entry with the value in reach. */
  lemma StillInReach(q: Query, f: int, s: State, m: int)
    requires Sorted(q) && Is(q, f) && Value(q, f) == s.addr && s.l <= f <= s.r == s.right
    requires m == LastMatch(q, s.l, (s.l + s.r) / 2) && !(m >= s.l && Value(q, m) == s.addr)
    ensures var t := Turn(q, s); t.l <= f <= t.r == t.right && t.addr == s.addr
    ensures var t := Turn(q, s);
            if m < f then t.l == (s.l + s.r) / 2 + 1 && t.r == s.r else t.l == s.l && t.r == m - 1
  {
    hide LastMatch;
    LastMatchRange(q, s.l, (s.l + s.r) / 2);
  }

  /** Once the address has wrapped around, only the right end moves. */
  lemma {:induction false} WrappedLoop(q: Query, s: State)
    requires Sorted(q) && Wrapped(q, s) && s.r == s.right
    ensures var t := Loop(q, s); t.left == s.left && t.right == s.left - 1
    decreases Width(s), Pending(q, s)
  {
    hide LastMatch, Sorted;
    if s.l <= s.r {
      LastMatchRange(q, s.l, (s.l + s.r) / 2);
      TurnDecreases(q, s);
      WrappedCuts(q, s, LastMatch(q, s.l, (s.l + s.r) / 2));
      WrappedLoop(q, Turn(q, s));
    }
  }

  lemma TopHit(q: Query, s: State, m: int)
    requires InTable(q) && s.l <= m <= s.r == s.right && Is(q, m) && Value(q, m) == s.addr == TOP
    requires s.r == q.right || Is(q, s.r + 1)
    ensures Wrapped(q, s.(left := m, l := m, addr := 0, anyMatches := true))
  {
  }

  lemma TopOrder(q: Query, f: int, m: int)
    requires InTable(q) && Sorted(q) && IsFirst(q, TOP, f)
    ensures Is(q, m) ==> (m < f <==> Value(q, m) < TOP) && Value(q, m) <= TOP
  {
  }

  lemma IsThere(q: Query, v: nat, i: int)
    requires IsFirst(q, v, i)
    ensures Is(q, i) && Value(q, i) == v
  {
  }

  lemma MeetTurn(q: Query, a: int, f: int, l: int, r: int)
    requires l <= r
    ensures var middle := (l + r) / 2; var m := LastMatch(q, l, middle);
            && (m < a ==> Meet(q, a, f, l, r) == Meet(q, a, f, middle + 1, r))
            && (a <= m && m > f ==> Meet(q, a, f, l, r) == Meet(q, a, f, l, m - 1))
            && (a <= m <= f ==> Meet(q, a, f, l, r) == Met(m, r))
  {
    hide LastMatch;
  }

  /** While the largest address is looked for and its first entry `f` is in reach,
      the search stops before the entry there that a bisection meets first. */
  lemma {:induction false} TopLoop(q: Query, f: int, s: State)
    requires InTable(q) && Sorted(q) && IsFirst(q, TOP, f) && s.addr == TOP && s.l <= f <= s.r == s.right
    requires s.r == q.right || Is(q, s.r + 1)
    ensures var h := Meet(q, f, q.right, s.l, s.r).at;
            Is(q, h) && h >= f && Loop(q, s).left == h && Loop(q, s).right == h - 1
    decreases Width(s), Pending(q, s)
  {
    hide LastMatch, InTable, Sorted, Wrapped, Is, Value, IsFirst, Meet;
    var middle := (s.l + s.r) / 2;
    var m := LastMatch(q, s.l, middle);
    LastMatchRange(q, s.l, middle);
    TurnDecreases(q, s);
    TopOrder(q, f, m);
    IsThere(q, TOP, f);
    MeetTurn(q, f, q.right, s.l, s.r);
    if m >= s.l && Value(q, m) == s.addr {
      TopHit(q, s, m);
      WrappedLoop(q, Turn(q, s));
    } else {
      StillInReach(q, f, s, m);
      TopLoop(q, f, Turn(q, s));
    }
  }

  /** With entries at `addr` and `addr + 1`: the search ends well if bisecting meets
      the first one at `addr + 1` before any at `addr`, and otherwise beyond `addr`,
      or, wrapped around, before an entry at the largest address. */
  ghost predicate Decided(q: Query, addr: nat, f: int, met: Met, t: State) {
    var p := Back(q, t.left, t.right);
    if met.at == f then Exact(q, addr, t) && t.addr <= TOP
    else if addr + 1 < TOP then Is(q, p) ==> Value(q, p) > addr
    else
      var h := Meet(q, f, q.right, met.at, met.r).at;
      Is(q, h) && h >= f && t.right == h - 1 && p == h - 1
  }

  /** Nothing has been found yet, and both entries are in reach. */
  ghost predicate InReach(q: Query, addr: nat, a: int, f: int, s: State) {
    && IsFirst(q, addr, a) && IsFirst(q, addr + 1, f)
    && Exact(q, addr, s) && s.addr == addr && s.l <= a && f <= s.r == s.right
  }

  lemma {:induction false} MeetDecides(q: Query, addr: nat, a: int, f: int, s: State)
    requires InTable(q) && Sorted(q) && addr < TOP && InReach(q, addr, a, f, s)
    ensures Decided(q, addr, f, Meet(q, a, f, s.l, s.r), Loop(q, s))
    decreases Width(s), Pending(q, s)
  {
    hide Turn, Decided, InReach, InTable, Sorted, Meet;
    NotEmpty(q, addr, a, f, s);
    TurnDecreases(q, s);
    var m := LastMatch(q, s.l, (s.l + s.r) / 2);
    if a <= m <= f {
      MeetStops(q, addr, a, f, s);
    } else {
      MeetGoesOn(q, addr, a, f, s);
      MeetDecides(q, addr, a, f, Turn(q, s));
    }
  }

  lemma NotEmpty(q: Query, addr: nat, a: int, f: int, s: State)
    requires Sorted(q) && InReach(q, addr, a, f, s)
    ensures s.l <= s.r
  {
    hide Exact;
    InOrder(q, addr, a, f, a);
  }

  lemma MeetGoesOn(q: Query, addr: nat, a: int, f: int, s: State)
    requires Sorted(q) && InReach(q, addr, a, f, s) && s.l <= s.r
    requires var m := LastMatch(q, s.l, (s.l + s.r) / 2); m < a || m > f
    ensures InReach(q, addr, a, f, Turn(q, s))
    ensures Meet(q, a, f, Turn(q, s).l, Turn(q, s).r) == Meet(q, a, f, s.l, s.r)
  {
    hide LastMatch, Sorted, Exact, Is, Value, IsFirst, Meet;
    var middle := (s.l + s.r) / 2;
    var m := LastMatch(q, s.l, middle);
    LastMatchRange(q, s.l, middle);
    InOrder(q, addr, a, f, a);
    InOrder(q, addr, a, f, m);
    IsThere(q, addr, a);
    IsThere(q, addr + 1, f);
    MeetTurn(q, a, f, s.l, s.r);
    if m < s.l {
      SkipUp(q, addr, s);
    } else {
      assert Probed(q, s, m);
      if m < a {
        MoveUp(q, addr, s, m);
      } else {
        CutDown(q, addr, s, m);
      }
    }
  }

  lemma MeetStops(q: Query, addr: nat, a: int, f: int, s: State)
    requires InTable(q) && Sorted(q) && addr < TOP && InReach(q, addr, a, f, s) && s.l <= s.r
    requires a <= LastMatch(q, s.l, (s.l + s.r) / 2) <= f
    ensures Decided(q, addr, f, Meet(q, a, f, s.l, s.r), Loop(q, s))
  {
    hide LastMatch, Sorted, Exact, InTable, Back, Loop;
    var middle := (s.l + s.r) / 2;
    var m := LastMatch(q, s.l, middle);
    LastMatchRange(q, s.l, middle);
    InOrder(q, addr, a, f, m);
    assert Probed(q, s, m);
    LoopTurn(q, s);
    MeetTurn(q, a, f, s.l, s.r);
    if m == f {
      CutDown(q, addr, s, m);
      NowClear(q, addr, f, Turn(q, s));
      ClearLoop(q, addr, Turn(q, s));
    } else if addr + 1 < TOP {
      FinallyOver(q, addr, f, Turn(q, s));
    } else {
      RightEnd(q, addr, s);
      TopLoop(q, f, Turn(q, s));
      BackFinds(q, Loop(q, s).left, Loop(q, s).right);
    }
  }

  lemma LoopTurn(q: Query, s: State)
    requires s.l <= s.r
    ensures Loop(q, s) == Loop(q, Turn(q, s))
  {
  }

  /** Where an entry of the type stands with respect to the first ones at `addr`
      and at `addr + 1`. */
  lemma InOrder(q: Query, addr: nat, a: int, f: int, m: int)
    requires Sorted(q) && IsFirst(q, addr, a) && IsFirst(q, addr + 1, f)
    ensures a < f
    ensures Is(q, m) ==> (m < a <==> Value(q, m) < addr) && (m < f <==> Value(q, m) <= addr)
  {
  }

  lemma NowClear(q: Query, addr: nat, f: int, s: State)
    requires IsFirst(q, addr + 1, f) && s.r < f
    ensures Clear(q, addr, s)
  {
  }

  lemma RightEnd(q: Query, addr: nat, s: State)
    requires Exact(q, addr, s)
    ensures s.r == q.right || Is(q, s.r + 1)
  {
  }

  /** The search brackets `addr` if and only if the table is one on which it
      succeeds. */
  lemma SearchBracketsExactly(q: Query, addr: nat, k: int)
    requires InTable(q) && Sorted(q) && addr <= TOP && Is(q, k) && Value(q, k) <= addr
    ensures var g := Search(q, addr); Brackets(q, addr, g.left, g.right) <==> Succeeds(q, addr)
  {
    hide Loop, Back, Brackets, FirstAt, Meet, InTable, Sorted, Exact, IsFirst, At;
    SearchBrackets(q, addr, k);
    FirstAtIsFirst(q, addr);
    FirstAtIsFirst(q, addr + 1);
    var a, f := FirstAt(q, addr, q.left), FirstAt(q, addr + 1, q.left);
    if a <= q.right && addr < TOP && f <= q.right {
      BothThere(q, addr, a, f, k);
    }
  }

  /** The case of entries at `addr` and at `addr + 1`. */
  lemma BothThere(q: Query, addr: nat, a: int, f: int, k: int)
    requires InTable(q) && Sorted(q) && addr < TOP && IsFirst(q, addr, a) && IsFirst(q, addr + 1, f)
    requires Is(q, k) && Value(q, k) <= addr
    ensures var g := Search(q, addr);
            var met := Meet(q, a, f, q.left, q.right);
            Brackets(q, addr, g.left, g.right) <==>
            met.at == f || (addr + 1 == TOP && Is(q, f - 1) && Meet(q, f, q.right, met.at, met.r).at == f)
  {
    hide Loop, Back, Meet, InTable, Sorted, Exact;
    StartExact(q, addr);
    LoopBounds(q, Start(q, addr));
    MeetDecides(q, addr, a, f, Start(q, addr));
    var s := Loop(q, Start(q, addr));
    var met := Meet(q, a, f, q.left, q.right);
    if met.at == f {
      ExactBrackets(q, addr, s, k);
    } else if addr + 1 == TOP {
      BeforeTop(q, f, Meet(q, f, q.right, met.at, met.r).at);
    }
  }

  /** When the region is the one position before entry `h` at the largest address. */
  lemma BeforeTop(q: Query, f: int, h: int)
    requires InTable(q) && Sorted(q) && IsFirst(q, TOP, f) && Is(q, h) && h >= f
    ensures Brackets(q, TOP - 1, h - 1, h - 1) <==> h == f && Is(q, f - 1)
  {
  }

  /** With every entry of the type above `addr` the region ends just before the
      first of them and its left end is no such entry. */
  lemma SearchBelowAll(q: Query, addr: nat, i: int)
    requires InTable(q) && Sorted(q) && addr <= TOP && Is(q, i) && forall j :: Is(q, j) ==> Value(q, j) > addr
    ensures var g := Search(q, addr);
            Is(q, g.right + 1) && (forall j :: Is(q, j) ==> j > g.right)
              && g.left == (if g.right < q.left then g.right else q.left)
  {
    hide Loop, Back, Wrapped;
    StartExact(q, addr);
    LoopKeeps(q, addr, Start(q, addr));
    var s := Loop(q, Start(q, addr));
    BackFinds(q, s.left, s.right);
    assert Exact(q, addr, s);
    assert i > s.r;
  }

  lemma {:induction false} LoopBounds(q: Query, s: State)
    requires Bounds(q, s)
    ensures Bounds(q, Loop(q, s)) && Loop(q, s).l > Loop(q, s).r
    decreases Width(s), Pending(q, s)
  {
    hide Turn, Bounds;
    if s.l <= s.r {
      TurnDecreases(q, s);
      TurnBounds(q, s);
      LoopBounds(q, Turn(q, s));
    }
  }

  /** Contrary to the comment on the function, left > right says only that the
      region holds no entry of the type at all. */
  lemma LeftBeyondRight(q: Query, addr: nat)
    ensures var g := Search(q, addr); g.left > g.right <==> forall i :: !Is(q, i)
  {
    hide Loop, Back;
    StartExact(q, addr);
    LoopBounds(q, Start(q, addr));
    var s := Loop(q, Start(q, addr));
    BackFinds(q, s.left, s.right);
  }

  /** Then the region is empty and stands where it began. */
  lemma SearchNone(q: Query, addr: nat)
    requires forall i :: !Is(q, i)
    ensures Search(q, addr) == Region(q.left, q.left - 1)
  {
    hide Loop, Back;
    StartExact(q, addr);
    LoopBounds(q, Start(q, addr));
  }

  /** Two tables on which the search goes wrong: with entries at `addr` and at
      `addr + 1`, and with one at the largest address. */
  lemma SearchMisses()
    ensures Search(Query([Stab(0, 7), Stab(0, 8)], 0, 0, 1), 7) == Region(1, 1)
    ensures Search(Query([Stab(0, TOP)], 0, 0, 0), TOP) == Region(-1, -1)
  {
    var q := Query([Stab(0, 7), Stab(0, 8)], 0, 0, 1);
    var s := State(0, 1, 0, 1, false, 7);
    assert LastMatch(q, 0, 0) == 0;
    var s1 := Turn(q, s);
    assert s1 == State(0, 1, 0, 1, true, 8);
    var s2 := Turn(q, s1);
    assert s2 == State(1, 1, 0, 1, true, 8);
    assert LastMatch(q, 1, 1) == 1;
    var s3 := Turn(q, s2);
    assert s3 == State(1, 1, 1, 1, true, 9);
    var s4 := Turn(q, s3);
    assert s4 == State(2, 1, 1, 1, true, 9);
    assert Loop(q, s) == Loop(q, s1) == Loop(q, s2) == Loop(q, s3) == Loop(q, s4) == s4;

    var p := Query([Stab(0, TOP)], 0, 0, 0);
    var t := State(0, 0, 0, 0, false, TOP);
    assert LastMatch(p, 0, 0) == 0;
    var t1 := Turn(p, t);
    assert t1 == State(0, 0, 0, 0, true, 0);
    var t2 := Turn(p, t1);
    assert t2 == State(0, -1, 0, -1, true, 0);
    assert Loop(p, t) == Loop(p, t1) == Loop(p, t2) == t2;
  }

  /** With a third entry the first one to be met is the one at `addr + 1`, and the
      search is right. */
  lemma SearchSucceeds()
    ensures var q := Query([Stab(0, 7), Stab(0, 8), Stab(0, 9)], 0, 0, 2);
            Search(q, 7) == Region(0, 0) && Brackets(q, 7, 0, 0)
  {
    var q := Query([Stab(0, 7), Stab(0, 8), Stab(0, 9)], 0, 0, 2);
    var s := Start(q, 7);
    assert LastMatch(q, 0, 1) == 1 && LastMatch(q, 0, 0) == 0;
    var s1 := Turn(q, s);
    assert s1 == State(0, 0, 0, 0, true, 7);
    var s2 := Turn(q, s1);
    assert s2 == State(0, 0, 0, 0, true, 8);
    var s3 := Turn(q, s2);
    assert s3 == State(1, 0, 0, 0, true, 8);
    assert Loop(q, s) == Loop(q, s1) == Loop(q, s2) == Loop(q, s3) == s3;
  }

  /** The largest addresses: the wrapped search stops rightly behind an entry next
      to the first one above, and misses when another kind stands between. */
  lemma SearchBelowTop()
    ensures var q := Query([Stab(0, TOP - 1), Stab(0, TOP)], 0, 0, 1);
            Search(q, TOP - 1) == Region(0, 0) && Brackets(q, TOP - 1, 0, 0)
    ensures var q := Query([Stab(0, TOP - 1), Stab(1, 0), Stab(0, TOP)], 0, 0, 2);
            Search(q, TOP - 1) == Region(1, 1) && !Brackets(q, TOP - 1, 1, 1)
  {
    var q := Query([Stab(0, TOP - 1), Stab(0, TOP)], 0, 0, 1);
    var s := Start(q, TOP - 1);
    assert LastMatch(q, 0, 0) == 0 && LastMatch(q, 1, 1) == 1;
    var s1 := Turn(q, s);
    assert s1 == State(0, 1, 0, 1, true, TOP);
    var s2 := Turn(q, s1);
    assert s2 == State(1, 1, 0, 1, true, TOP);
    var s3 := Turn(q, s2);
    assert s3 == State(1, 1, 1, 1, true, 0);
    var s4 := Turn(q, s3);
    assert s4 == State(1, 0, 1, 0, true, 0);
    assert Loop(q, s) == Loop(q, s1) == Loop(q, s2) == Loop(q, s3) == Loop(q, s4) == s4;

    var p := Query([Stab(0, TOP - 1), Stab(1, 0), Stab(0, TOP)], 0, 0, 2);
    var t := Start(p, TOP - 1);
    assert LastMatch(p, 0, 1) == 0 && LastMatch(p, 2, 2) == 2;
    var t1 := Turn(p, t);
    assert t1 == State(0, 2, 0, 2, true, TOP);
    var t2 := Turn(p, t1);
    assert t2 == State(2, 2, 0, 2, true, TOP);
    var t3 := Turn(p, t2);
    assert t3 == State(2, 2, 2, 2, true, 0);
    var t4 := Turn(p, t3);
    assert t4 == State(2, 1, 2, 1, true, 0);
    assert Loop(p, t) == Loop(p, t1) == Loop(p, t2) == Loop(p, t3) == Loop(p, t4) == t4;
  }
}
