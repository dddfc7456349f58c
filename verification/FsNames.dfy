/** Directories and path names (dir_lookup, dir_alloc_file, walk_path, file_create
    and file_remove of fs/fs.c). */
module FsNames {
  import opened FsBytes
  import opened FsLayout
  import opened Errors
  import opened Queue

  const MAXNAMELEN: nat := 128
  const NAME_WORDS: nat := 32
  const BLKFILES: nat := 16
  const SLASH: nat := '/' as nat

  /** struct File: its fields follow one another and fill 256 bytes, sixteen of them
      to a block. */
  lemma FileLayout()
    ensures 4 * F_SIZE == MAXNAMELEN == 4 * NAME_WORDS && F_TYPE == F_SIZE + 1 && F_DIRECT == F_TYPE + 1
    ensures F_INDIRECT == F_DIRECT + NDIRECT && F_INDIRECT < FILE_WORDS && 4 * FILE_WORDS == 256
    ensures BLKFILES * FILE_WORDS == WORDS && 4 * WORDS == BLKSIZE
    ensures MAXBLOCKS == NDIRECT + NINDIRECT && 4 * NINDIRECT == BLKSIZE && BLKBITSIZE == 8 * BLKSIZE
    ensures 2 * INT_LIMIT == WORD_LIMIT && MAXDISK * BLKSIZE == 0xC000_0000
  {
  }

  type Name = seq<nat>

  /** A path component that fits a File structure. */
  predicate IsName(n: Name) {
    0 < |n| < MAXNAMELEN && forall i :: 0 <= i < |n| ==> 0 < n[i] < 256 && n[i] != SLASH
  }

  /** `f->f_name[i]`. */
  function NameByte(d: Disk, f: FilePtr, i: nat): nat { ByteOf(Field(d, f, i / 4), i % 4) }

  /** `strcmp(f->f_name, n) == 0`. */
  predicate HasName(d: Disk, f: FilePtr, n: Name) {
    NameByte(d, f, |n|) == 0 && forall i :: 0 <= i < |n| ==> NameByte(d, f, i) == n[i]
  }

  predicate Unused(d: Disk, f: FilePtr) { NameByte(d, f, 0) == 0 }

  /** Two names of one File structure are the same name. */
  lemma NameUnique(d: Disk, f: FilePtr, m: Name, n: Name)
    requires IsName(m) && IsName(n) && HasName(d, f, m) && HasName(d, f, n)
    ensures m == n && !Unused(d, f)
  {
    assert forall i :: 0 <= i < |n| ==> NameByte(d, f, i) != 0;
    assert forall i :: 0 <= i < |m| ==> NameByte(d, f, i) != 0;
  }

  // ---- Directories ----

  function DirBlocks(d: Disk, dir: FilePtr): nat { Size(d, dir) / BLKSIZE }

  function Entries(d: Disk, dir: FilePtr): nat { DirBlocks(d, dir) * BLKFILES }

  /** The File structure at position `k` of a directory. */
  function Entry(d: Disk, dir: FilePtr, k: nat): FilePtr {
    FilePtr(Target(d, Slot(dir, k / BLKFILES)), k % BLKFILES * FILE_WORDS)
  }

  /** The first entry from position `k` on that has the name. */
  function Find(d: Disk, dir: FilePtr, n: Name, k: nat): Option<FilePtr>
    decreases if k < Entries(d, dir) then Entries(d, dir) - k else 0
  {
    if k >= Entries(d, dir) then None
    else if HasName(d, Entry(d, dir, k), n) then Some(Entry(d, dir, k))
    else Find(d, dir, n, k + 1)
  }

  /** dir_lookup, for a directory without holes. */
  function Lookup(d: Disk, dir: FilePtr, n: Name): Option<FilePtr> { Find(d, dir, n, 0) }

  ghost predicate IsEntry(d: Disk, dir: FilePtr, g: FilePtr) {
    exists k :: 0 <= k < Entries(d, dir) && Entry(d, dir, k) == g
  }

  /** A directory is whole blocks without holes; its entries are File structures,
      their names are unique, and the unused ones are no directories. */
  ghost predicate DirOk(d: Disk, files: set<FilePtr>, dir: FilePtr) {
    && Size(d, dir) % BLKSIZE == 0 && DirBlocks(d, dir) <= MAXBLOCKS
    && (forall i :: 0 <= i < DirBlocks(d, dir) ==> Target(d, Slot(dir, i)) != 0)
    && (forall g :: IsEntry(d, dir, g) ==> g in files && (Unused(d, g) ==> !IsDir(d, g)))
    && (forall g, h, n ::
          IsEntry(d, dir, g) && IsEntry(d, dir, h) && IsName(n) && HasName(d, g, n) && HasName(d, h, n) ==> g == h)
  }

  ghost predicate DirsOk(d: Disk, files: set<FilePtr>) {
    forall dir :: dir in files && IsDir(d, dir) ==> DirOk(d, files, dir)
  }

  ghost predicate Tree(d: Disk, files: set<FilePtr>) {
    FsInv(d, files) && ROOT in files && DirsOk(d, files)
  }

  lemma {:induction false} FindCorrect(d: Disk, dir: FilePtr, n: Name, k: nat)
    ensures match Find(d, dir, n, k)
            case Some(g) => IsEntry(d, dir, g) && HasName(d, g, n)
            case None => forall j :: k <= j < Entries(d, dir) ==> !HasName(d, Entry(d, dir, j), n)
    decreases if k < Entries(d, dir) then Entries(d, dir) - k else 0
  {
    hide HasName, Entry, Entries;
    if k < Entries(d, dir) && !HasName(d, Entry(d, dir, k), n) {
      FindCorrect(d, dir, n, k + 1);
    }
  }

  /** A lookup finds exactly the entry that has the name. */
  lemma LookupIff(d: Disk, files: set<FilePtr>, dir: FilePtr, n: Name, g: FilePtr)
    requires Tree(d, files) && dir in files && IsDir(d, dir) && IsName(n)
    ensures Lookup(d, dir, n) == Some(g) <==> IsEntry(d, dir, g) && HasName(d, g, n)
    ensures Lookup(d, dir, n) == Some(g) ==> g in files
  {
    hide FsInv, HasName, Entry, Entries;
    FindCorrect(d, dir, n, 0);
    assert DirOk(d, files, dir);
  }

  /** No File structure is an entry of two directories, and the root of none. */
  lemma EntryOnce(d: Disk, files: set<FilePtr>, x: FilePtr, y: FilePtr, g: FilePtr)
    requires Tree(d, files) && x in files && y in files && IsDir(d, x) && IsDir(d, y)
    requires IsEntry(d, x, g) && IsEntry(d, y, g)
    ensures x == y && g != ROOT
  {
    hide Shaped, Placed, HomesApart, SlotsFit, ReservedInUse;
    assert DirOk(d, files, x) && DirOk(d, files, y);
    var i :| 0 <= i < Entries(d, x) && Entry(d, x, i) == g;
    var k :| 0 <= k < Entries(d, y) && Entry(d, y, k) == g;
    var r, s := Slot(x, i / BLKFILES), Slot(y, k / BLKFILES);
    assert IsRef(files, r) && IsRef(files, s);
    assert Target(d, r) == Target(d, s) == g.block;
    assert Target(d, r) != 0;
  }

  // ---- Paths ----

  function SkipSlash(p: seq<nat>): seq<nat> {
    if p != [] && p[0] == SLASH then SkipSlash(p[1..]) else p
  }

  function WordLen(p: seq<nat>): nat {
    if p == [] || p[0] == SLASH then 0 else 1 + WordLen(p[1..])
  }

  lemma SkipShorter(p: seq<nat>)
    ensures |SkipSlash(p)| <= |p| && (SkipSlash(p) != [] ==> SkipSlash(p)[0] != SLASH)
  {
  }

  lemma WordShorter(p: seq<nat>)
    ensures WordLen(p) <= |p| && (p != [] && p[0] != SLASH ==> WordLen(p) > 0)
    ensures forall i :: 0 <= i < WordLen(p) ==> p[i] != SLASH
    ensures WordLen(p) < |p| ==> p[WordLen(p)] == SLASH
  {
  }

  /** The components of a path. */
  function Components(p: seq<nat>): seq<Name>
    decreases |p|
  {
    SkipShorter(p);
    var q := SkipSlash(p);
    WordShorter(q);
    if q == [] then [] else [q[..WordLen(q)]] + Components(q[WordLen(q)..])
  }

  /** Slashes only separate: a path is its parts' components, however many
      slashes stand between, before or after them. */
  lemma {:induction false} ComponentsAppend(p: seq<nat>, q: seq<nat>)
    ensures Components(p + [SLASH] + q) == Components(p) + Components(q)
    decreases |p|
  {
    SkipShorter(p);
    SkipAppend(p, q);
    var s := SkipSlash(p);
    WordShorter(s);
    if s != [] {
      WordAppend(s, q);
      var w := WordLen(s);
      assert (s + [SLASH] + q)[..w] == s[..w];
      assert (s + [SLASH] + q)[w..] == s[w..] + [SLASH] + q;
      ComponentsAppend(s[w..], q);
    }
  }

  /** What has no slash is one component; so with the law above a path is split at
      every slash and nowhere else. */
  lemma ComponentsOfWord(p: seq<nat>)
    requires SLASH !in p
    ensures Components(p) == if p == [] then [] else [p]
  {
    WholeWord(p);
    assert p[|p|..] == [];
    assert p[..|p|] == p;
  }

  lemma {:induction false} WholeWord(p: seq<nat>)
    requires SLASH !in p
    ensures WordLen(p) == |p| && SkipSlash(p) == p
  {
    if p != [] {
      WholeWord(p[1..]);
    }
  }

  lemma {:induction false} SkipAppend(p: seq<nat>, q: seq<nat>)
    ensures SkipSlash(p) != [] ==> SkipSlash(p + [SLASH] + q) == SkipSlash(p) + [SLASH] + q
    ensures SkipSlash(p) == [] ==> SkipSlash(p + [SLASH] + q) == SkipSlash(q)
  {
    if p != [] && p[0] == SLASH {
      SkipAppend(p[1..], q);
      assert (p + [SLASH] + q)[1..] == p[1..] + [SLASH] + q;
    } else if p == [] {
      assert (p + [SLASH] + q)[1..] == q;
    }
  }

  lemma {:induction false} WordAppend(p: seq<nat>, q: seq<nat>)
    ensures WordLen(p + [SLASH] + q) == WordLen(p)
  {
    if p != [] && p[0] != SLASH {
      WordAppend(p[1..], q);
      assert (p + [SLASH] + q)[1..] == p[1..] + [SLASH] + q;
    }
  }

  /** The components of a C string are non-empty and without slash. */
  lemma {:induction false} ComponentsAreWords(p: seq<nat>)
    requires forall i :: 0 <= i < |p| ==> 0 < p[i] < 256
    ensures IsPath(Components(p))
    decreases |p|
  {
    SkipShorter(p);
    SkipBytes(p);
    var q := SkipSlash(p);
    WordShorter(q);
    if q != [] {
      ComponentsAreWords(q[WordLen(q)..]);
    }
  }

  lemma {:induction false} SkipBytes(p: seq<nat>)
    requires forall i :: 0 <= i < |p| ==> 0 < p[i] < 256
    ensures var q := SkipSlash(p); forall i :: 0 <= i < |q| ==> 0 < q[i] < 256
  {
    if p != [] && p[0] == SLASH {
      SkipBytes(p[1..]);
      assert SkipSlash(p) == SkipSlash(p[1..]);
    }
  }

  /** What walk_path tells: the file and its directory; or that only the last
      component is missing, and where; or an error. */
  datatype Walked =
    | Found(parent: Option<FilePtr>, file: FilePtr)
    | Missing(dir: FilePtr, last: Name)
    | Failed(r: int)

  /** One component further. */
  function Next(d: Disk, w: Walked, n: Name): Walked {
    match w
    case Failed(r) => Failed(r)
    case Missing(_, _) => Failed(-E_NOT_FOUND)
    case Found(_, x) =>
      if |n| >= MAXNAMELEN then Failed(-E_BAD_PATH)
      else if !IsDir(d, x) then Failed(-E_NOT_FOUND)
      else
        match Lookup(d, x, n)
        case None => Missing(x, n)
        case Some(g) => Found(Some(x), g)
  }

  /** Component by component from the root. */
  function Walk(d: Disk, names: seq<Name>): Walked {
    if names == [] then Found(None, ROOT)
    else Next(d, Walk(d, names[..|names| - 1]), names[|names| - 1])
  }

  predicate IsPath(names: seq<Name>) {
    forall i :: 0 <= i < |names| ==>
      |names[i]| > 0 && forall j :: 0 <= j < |names[i]| ==> 0 < names[i][j] < 256 && names[i][j] != SLASH
  }

  /** A chain of entries from the root that have these names. */
  ghost predicate IsChain(d: Disk, names: seq<Name>, chain: seq<FilePtr>) {
    && |chain| == |names| + 1 && chain[0] == ROOT
    && forall i :: 0 <= i < |names| ==>
         && IsDir(d, chain[i]) && IsName(names[i])
         && IsEntry(d, chain[i], chain[i + 1]) && HasName(d, chain[i + 1], names[i])
  }

  /** A path leads to a file if and only if a chain of entries does. */
  lemma FoundExactly(d: Disk, files: set<FilePtr>, names: seq<Name>, f: FilePtr)
    requires Tree(d, files) && IsPath(names)
    ensures Walk(d, names).Found? && Walk(d, names).file == f <==>
            exists chain :: |chain| == |names| + 1 && IsChain(d, names, chain) && chain[|names|] == f
  {
    hide Tree, Walk, IsPath, IsChain;
    if Walk(d, names).Found? {
      HasChain(d, files, names);
    }
    forall chain | |chain| == |names| + 1 && IsChain(d, names, chain)
      ensures Walk(d, names).Found? && Walk(d, names).file == chain[|names|]
    {
      ChainFound(d, files, names, chain);
    }
  }

  lemma {:induction false} HasChain(d: Disk, files: set<FilePtr>, names: seq<Name>)
    requires Tree(d, files) && IsPath(names) && Walk(d, names).Found?
    ensures exists chain :: |chain| == |names| + 1 && IsChain(d, names, chain) && chain[|names|] == Walk(d, names).file
  {
    hide Tree, IsEntry, HasName, IsName, Lookup, IsDir, Walk, IsPath;
    WalkStays(d, files, names);
    if names == [] {
      assert IsChain(d, names, [ROOT]);
    } else {
      var n := |names| - 1;
      FrontPath(names);
      HasChain(d, files, names[..n]);
      var front :| |front| == n + 1 && IsChain(d, names[..n], front) && front[n] == Walk(d, names[..n]).file;
      assert IsChain(d, names, front + [Walk(d, names).file]);
    }
  }

  lemma {:induction false} ChainFound(d: Disk, files: set<FilePtr>, names: seq<Name>, chain: seq<FilePtr>)
    requires Tree(d, files) && IsPath(names) && IsChain(d, names, chain)
    ensures Walk(d, names).Found? && Walk(d, names).file == chain[|names|]
  {
    hide Tree, IsEntry, HasName, IsName, Lookup;
    if names != [] {
      var n := |names| - 1;
      FrontPath(names);
      assert IsChain(d, names[..n], chain[..n + 1]);
      ChainFound(d, files, names[..n], chain[..n + 1]);
      WalkStays(d, files, names[..n]);
      ShortName(names[n]);
      LookupIff(d, files, chain[n], names[n], chain[n + 1]);
    }
  }

  /** Otherwise it stops at a component: one that is too long, or behind what is no
      directory, or without an entry; only at the last one a name is missing. */
  lemma {:induction false} WalkStops(d: Disk, names: seq<Name>, k: nat)
    requires k < |names| && Walk(d, names[..k]).Found? && !Walk(d, names[..k + 1]).Found?
    ensures var dir := Walk(d, names[..k]).file;
            Walk(d, names) ==
            if |names[k]| >= MAXNAMELEN then Failed(-E_BAD_PATH)
            else if !IsDir(d, dir) || k + 1 < |names| then Failed(-E_NOT_FOUND)
            else Missing(dir, names[k])
    decreases |names|
  {
    hide IsDir, Lookup;
    var n := |names| - 1;
    if k < n {
      assert names[..n][..k] == names[..k] && names[..n][..k + 1] == names[..k + 1];
      WalkStops(d, names[..n], k);
    } else {
      assert names[..k + 1] == names;
    }
  }

  lemma {:induction false} WalkStays(d: Disk, files: set<FilePtr>, names: seq<Name>)
    requires Tree(d, files) && IsPath(names)
    ensures match Walk(d, names)
            case Found(x, g) =>
              && g in files
              && (names == [] <==> x == None) && (names == [] ==> g == ROOT)
              && (names != [] ==> var n := names[|names| - 1];
                    x.value in files && IsDir(d, x.value) && IsName(n) && IsEntry(d, x.value, g) && HasName(d, g, n)
                    && Walk(d, names[..|names| - 1]).Found? && Walk(d, names[..|names| - 1]).file == x.value)
            case Missing(x, n) =>
              && x in files && IsDir(d, x) && IsName(n) && Lookup(d, x, n) == None && names != []
              && n == names[|names| - 1]
              && Walk(d, names[..|names| - 1]).Found? && Walk(d, names[..|names| - 1]).file == x
            case Failed(_) => true
  {
    hide FsInv, DirsOk, HasName, Lookup, IsEntry;
    if names != [] {
      var front := names[..|names| - 1];
      WalkStays(d, files, front);
      var w := Walk(d, front);
      var n := names[|names| - 1];
      if w.Found? && |n| < MAXNAMELEN && IsDir(d, w.file) {
        assert IsName(n);
        if Lookup(d, w.file, n).Some? {
          LookupIff(d, files, w.file, n, Lookup(d, w.file, n).value);
        }
      }
    }
  }

  /** A file is found under one sequence of components only. */
  lemma {:induction false} PathUnique(d: Disk, files: set<FilePtr>, p: seq<Name>, q: seq<Name>)
    requires Tree(d, files) && IsPath(p) && IsPath(q)
    requires Walk(d, p).Found? && Walk(d, q).Found? && Walk(d, p).file == Walk(d, q).file
    ensures p == q
    decreases |p|
  {
    hide Tree, Walk, HasName, IsEntry, IsName, IsDir;
    WalkStays(d, files, p);
    WalkStays(d, files, q);
    var g := Walk(d, p).file;
    if p != [] && q != [] {
      var x, y := Walk(d, p).parent.value, Walk(d, q).parent.value;
      EntryOnce(d, files, x, y, g);
      NameUnique(d, g, p[|p| - 1], q[|q| - 1]);
      PathUnique(d, files, p[..|p| - 1], q[..|q| - 1]);
      assert p == p[..|p| - 1] + [p[|p| - 1]] && q == q[..|q| - 1] + [q[|q| - 1]];
    } else if p != [] {
      EntryOnce(d, files, Walk(d, p).parent.value, Walk(d, p).parent.value, g);
    } else if q != [] {
      EntryOnce(d, files, Walk(d, q).parent.value, Walk(d, q).parent.value, g);
    }
  }

  // ---- One entry more, or less ----

  /** The two disks differ, for lookups, in one entry: `dir` has a regular file `f`
      called `name` in the second and nothing of that name in the first. */
  ghost predicate OneMore(d: Disk, d': Disk, files: set<FilePtr>, dir: FilePtr, name: Name, f: FilePtr) {
    && dir in files && IsDir(d, dir) && Lookup(d, dir, name) == None && Lookup(d', dir, name) == Some(f)
    && !IsDir(d', f)
    && (forall x :: x in files ==> (IsDir(d', x) <==> IsDir(d, x)))
    && (forall x, n :: x in files && IsDir(d, x) && IsName(n) && !(x == dir && n == name) ==>
          Lookup(d', x, n) == Lookup(d, x, n))
  }

  predicate GoesOn(p: seq<Name>, q: seq<Name>) { |p| < |q| && q[..|p|] == p }

  /** Looking one component further on both disks. */
  lemma OneMoreNext(d: Disk, d': Disk, files: set<FilePtr>, dir: FilePtr, name: Name, f: FilePtr, w: Walked, n: Name)
    requires OneMore(d, d', files, dir, name, f)
    requires w.Found? ==> w.file in files
    requires |n| > 0 && forall j :: 0 <= j < |n| ==> 0 < n[j] < 256 && n[j] != SLASH
    ensures if w.Found? && w.file == dir && n == name && |n| < MAXNAMELEN then Next(d', w, n) == Found(Some(dir), f)
            else Next(d', w, n) == Next(d, w, n)
  {
    hide IsDir, Lookup;
    assert |n| < MAXNAMELEN ==> IsName(n);
  }

  /** The path of the entry leads to it; a path that goes on behind it fails on
      both disks; and all other paths resolve alike. */
  lemma {:induction false} OneMorePath(d: Disk, d': Disk, files: set<FilePtr>, p: seq<Name>, f: FilePtr, q: seq<Name>)
    requires Tree(d, files) && IsPath(p) && IsPath(q) && Walk(d, p).Missing?
    requires OneMore(d, d', files, Walk(d, p).dir, Walk(d, p).last, f)
    ensures if q == p then Walk(d', q) == Found(Some(Walk(d, p).dir), f)
            else if GoesOn(p, q) then
              && Walk(d, q) == Failed(-E_NOT_FOUND)
              && Walk(d', q) == Failed(if |q[|p|]| >= MAXNAMELEN then -E_BAD_PATH else -E_NOT_FOUND)
            else Walk(d', q) == Walk(d, q)
    decreases |q|
  {
    hide Tree, IsName, IsEntry, HasName, Lookup, IsDir;
    WalkStays(d, files, p);
    if q == [] {
      assert p != [];
    } else {
      var front, n := q[..|q| - 1], q[|q| - 1];
      OneMorePath(d, d', files, p, f, front);
      WalkStays(d, files, front);
      LastStep(d, d', files, p, f, q);
    }
  }

  lemma LastStep(d: Disk, d': Disk, files: set<FilePtr>, p: seq<Name>, f: FilePtr, q: seq<Name>)
    requires Tree(d, files) && IsPath(p) && IsPath(q) && Walk(d, p).Missing? && q != [] && p != []
    requires OneMore(d, d', files, Walk(d, p).dir, Walk(d, p).last, f)
    requires var front := q[..|q| - 1];
             if front == p then Walk(d', front) == Found(Some(Walk(d, p).dir), f)
             else if GoesOn(p, front) then
               && Walk(d, front) == Failed(-E_NOT_FOUND)
               && Walk(d', front) == Failed(if |front[|p|]| >= MAXNAMELEN then -E_BAD_PATH else -E_NOT_FOUND)
             else Walk(d', front) == Walk(d, front)
    ensures if q == p then Walk(d', q) == Found(Some(Walk(d, p).dir), f)
            else if GoesOn(p, q) then
              && Walk(d, q) == Failed(-E_NOT_FOUND)
              && Walk(d', q) == Failed(if |q[|p|]| >= MAXNAMELEN then -E_BAD_PATH else -E_NOT_FOUND)
            else Walk(d', q) == Walk(d, q)
  {
    hide Tree, IsName, IsEntry, HasName, Lookup, IsDir, OneMore;
    var front := q[..|q| - 1];
    if front == p {
      assert q[..|p|] == p;
      assert !IsDir(d', f) by { RegularEntry(d, d', files, Walk(d, p).dir, Walk(d, p).last, f); }
    } else if GoesOn(p, front) {
      assert q[..|p|] == front[..|p|] && q[|p|] == front[|p|];
    } else {
      StepApart(d, d', files, p, f, q);
      if |p| <= |front| {
        assert front[..|p|] == q[..|p|];
      }
    }
  }

  lemma StepApart(d: Disk, d': Disk, files: set<FilePtr>, p: seq<Name>, f: FilePtr, q: seq<Name>)
    requires Tree(d, files) && IsPath(p) && IsPath(q) && Walk(d, p).Missing? && q != [] && p != []
    requires OneMore(d, d', files, Walk(d, p).dir, Walk(d, p).last, f)
    requires Walk(d', q[..|q| - 1]) == Walk(d, q[..|q| - 1])
    ensures Walk(d', q) == if q == p then Found(Some(Walk(d, p).dir), f) else Walk(d, q)
  {
    hide Tree, IsName, IsEntry, HasName, Lookup, IsDir, OneMore, Next, Walk, IsPath;
    var front, n := q[..|q| - 1], q[|q| - 1];
    WalkStays(d, files, p);
    FrontFound(d, files, q);
    WalkLast(d, q);
    WalkLast(d', q);
    OneMoreNext(d, d', files, Walk(d, p).dir, Walk(d, p).last, f, Walk(d, front), n);
    if Walk(d, front).Found? && Walk(d, front).file == Walk(d, p).dir && n == Walk(d, p).last {
      FrontPath(p);
      PathUnique(d, files, front, p[..|p| - 1]);
      assert q == front + [n] && p == p[..|p| - 1] + [p[|p| - 1]];
    }
    ShortName(Walk(d, p).last);
  }

  lemma WalkLast(d: Disk, q: seq<Name>)
    requires q != []
    ensures Walk(d, q) == Next(d, Walk(d, q[..|q| - 1]), q[|q| - 1])
  {
  }

  lemma FrontPath(q: seq<Name>)
    requires IsPath(q) && q != []
    ensures IsPath(q[..|q| - 1])
    ensures var n := q[|q| - 1]; |n| > 0 && forall j :: 0 <= j < |n| ==> 0 < n[j] < 256 && n[j] != SLASH
  {
  }

  lemma FrontFound(d: Disk, files: set<FilePtr>, q: seq<Name>)
    requires Tree(d, files) && IsPath(q) && q != []
    ensures IsPath(q[..|q| - 1])
    ensures var n := q[|q| - 1]; |n| > 0 && forall j :: 0 <= j < |n| ==> 0 < n[j] < 256 && n[j] != SLASH
    ensures Walk(d, q[..|q| - 1]).Found? ==> Walk(d, q[..|q| - 1]).file in files
  {
    hide Tree, Walk;
    FrontPath(q);
    WalkStays(d, files, q[..|q| - 1]);
  }

  lemma ShortName(n: Name)
    requires IsName(n)
    ensures 0 < |n| < MAXNAMELEN
  {
  }

  lemma RegularEntry(d: Disk, d': Disk, files: set<FilePtr>, dir: FilePtr, name: Name, f: FilePtr)
    requires OneMore(d, d', files, dir, name, f)
    ensures !IsDir(d', f)
  {
  }
}
