/** Creating and removing names (dir_alloc_file, file_create and file_remove of
    fs/fs.c). */
module FsDirs {
  import opened FsBytes
  import opened FsLayout
  import opened FsOps
  import opened FsResize
  import opened FsNames
  import opened FsSpace
  import opened Errors
  import opened Queue

  // ---- Writing a name ----

  /** `strcpy(f->f_name, n)`. */
  function SetName(d: Disk, f: FilePtr, n: Name): Disk {
    if f.block < |d| then d[f.block := Splice(d[f.block], 4 * f.base, n + [0])] else d
  }

  /** A block whose words outside one name are as before. */
  lemma StoreName(d: Disk, files: set<FilePtr>, f: FilePtr, content: Block)
    requires Sound(d, files) && f in files && IsBlock(content)
    requires forall k: nat :: !(f.base <= k < f.base + NAME_WORDS) ==> Word(content, k) == WordAt(d, f.block, k)
    ensures f.block < |d|
    ensures var d' := d[f.block := content];
            && Sound(d', files) && SameBitmap(d, d') && SameTargets(d, d', files, {})
            && (forall g, j: nat :: g in files && j < FILE_WORDS && !(g == f && j < NAME_WORDS) ==>
                  Field(d', g, j) == Field(d, g, j))
            && SameBytes(d, d', files)
  {
    hide Word, Bit, Raw;
    FilePlace(d, files, f, 0);
    FilePlace(d, files, f, 31);
    var d' := d[f.block := content];
    assert forall x: nat, k: nat :: !(x == f.block && f.base <= k < f.base + NAME_WORDS) ==>
             WordAt(d', x, k) == WordAt(d, x, k);
    forall x: nat | x < NBlocks(d) ensures IsFree(d', x) == IsFree(d, x) {
      assert 2 + x / BLKBITSIZE < Reserved(d);
    }
    forall g, j: nat | g in files && j < FILE_WORDS && !(g == f && j < NAME_WORDS)
      ensures Field(d', g, j) == Field(d, g, j)
    {
      if g.block == f.block && f.base <= g.base + j < f.base + NAME_WORDS {
        FilesApart(d, files, f, g.base + j - f.base, g, j);
      }
    }
    forall r | IsRef(files, r) ensures Target(d', r) == Target(d, r) {
      assert IsRef(files, Indirect(r.f));
      assert Target(d', Indirect(r.f)) == Target(d, Indirect(r.f));
    }
    StoreMetaKeepsSound(d, d', files);
    forall g, n: nat | g in files && !IsDir(d, g) && n < MAXBLOCKS && Target(d, Slot(g, n)) != 0
      ensures Target(d, Slot(g, n)) != f.block
    {
      DataApart(d, files, g, n, f);
    }
    SameTargetsSameBytes(d, d', files);
  }

  /** Every regular file reads the same. */
  ghost predicate SameBytes(d: Disk, d': Disk, files: set<FilePtr>) {
    forall g :: g in files && !IsDir(d, g) ==>
      Size(d', g) == Size(d, g) && forall pos: nat :: pos < MAXBLOCKS * BLKSIZE ==> Raw(d', g, pos) == Raw(d, g, pos)
  }

  lemma SameTargetsSameBytes(d: Disk, d': Disk, files: set<FilePtr>)
    requires |d'| == |d| && SameTargets(d, d', files, {}) && SameData(d, d', files)
    requires forall g :: g in files ==> Size(d', g) == Size(d, g)
    ensures SameBytes(d, d', files)
  {
    hide Target, Size;
    forall g, pos: nat | g in files && !IsDir(d, g) && pos < MAXBLOCKS * BLKSIZE
      ensures Raw(d', g, pos) == Raw(d, g, pos)
    {
      var n := pos / BLKSIZE;
      assert n < MAXBLOCKS && IsRef(files, Slot(g, n));
      if Target(d, Slot(g, n)) != 0 {
        assert BlockAt(d', Target(d, Slot(g, n))) == BlockAt(d, Target(d, Slot(g, n)));
      }
    }
  }

  lemma NameSplice(b: Block, base: nat, n: Name)
    requires IsBlock(b) && base + NAME_WORDS <= WORDS && IsName(n)
    ensures var r := Splice(b, 4 * base, n + [0]);
            && IsBlock(r)
            && (forall k: nat :: !(base <= k < base + NAME_WORDS) ==> Word(r, k) == Word(b, k))
            && (forall i :: 0 <= i <= |n| ==> ByteOf(Word(r, base + i / 4), i % 4) == (n + [0])[i])
  {
    hide ByteOf, Word, Splice;
    SpliceKeepsWords(b, base, NAME_WORDS, n + [0]);
    SpliceCorrect(b, 4 * base, n + [0]);
    var r := Splice(b, 4 * base, n + [0]);
    forall i | 0 <= i <= |n| ensures ByteOf(Word(r, base + i / 4), i % 4) == (n + [0])[i] {
      WordBytes(r, base + i / 4, i % 4);
      assert r[4 * base + i] == r[4 * base..4 * base + |n| + 1][i];
    }
  }

  /** Afterwards the File structure has this name, and nothing else has changed. */
  lemma SetNameSound(d: Disk, files: set<FilePtr>, f: FilePtr, n: Name)
    requires FsInv(d, files) && f in files && IsName(n)
    ensures var d' := SetName(d, f, n);
            && FsInv(d', files) && SameBitmap(d, d') && SameTargets(d, d', files, {}) && HasName(d', f, n)
            && SameBytes(d, d', files)
            && (forall g, j: nat :: g in files && j < FILE_WORDS && !(g == f && j < NAME_WORDS) ==>
                  Field(d', g, j) == Field(d, g, j))
  {
    hide Word, Bit, ByteOf, Splice, Target;
    FilePlace(d, files, f, 0);
    FilePlace(d, files, f, 31);
    NameSplice(d[f.block], f.base, n);
    var d' := SetName(d, f, n);
    StoreName(d, files, f, d'[f.block]);
    assert forall i: nat :: i <= |n| ==> NameByte(d', f, i) == (n + [0])[i];
    forall g, m | g in files && Blocks(Size(d', g)) <= m < MAXBLOCKS ensures Target(d', Slot(g, m)) == 0 {
      assert IsRef(files, Slot(g, m));
      assert Size(d', g) == Size(d, g);
    }
  }

  // ---- When a lookup stays the same ----

  /** Directories have the same size and blocks on both disks. */
  ghost predicate SameShape(d: Disk, d': Disk, files: set<FilePtr>) {
    forall x :: x in files && IsDir(d, x) ==>
      Size(d', x) == Size(d, x) && forall i :: 0 <= i < MAXBLOCKS ==> Target(d', Slot(x, i)) == Target(d, Slot(x, i))
  }

  ghost predicate SameName(d: Disk, d': Disk, g: FilePtr) {
    forall j :: 0 <= j < NAME_WORDS ==> Field(d', g, j) == Field(d, g, j)
  }

  lemma SameNames(d: Disk, d': Disk, g: FilePtr, n: Name)
    requires SameName(d, d', g) && |n| < MAXNAMELEN
    ensures HasName(d', g, n) <==> HasName(d, g, n)
    ensures Unused(d', g) <==> Unused(d, g)
  {
    hide Field;
    assert forall i :: 0 <= i < MAXNAMELEN ==> NameByte(d', g, i) == NameByte(d, g, i);
  }

  lemma SameEntries(d: Disk, d': Disk, files: set<FilePtr>, x: FilePtr, g: FilePtr)
    requires Tree(d, files) && x in files && IsDir(d, x) && SameShape(d, d', files)
    ensures IsEntry(d', x, g) <==> IsEntry(d, x, g)
  {
    hide FsInv, Target, Size;
    assert DirOk(d, files, x);
    assert Entries(d', x) == Entries(d, x);
    assert forall k :: 0 <= k < Entries(d, x) ==> Entry(d', x, k) == Entry(d, x, k);
  }

  /** One File structure `f` in directory `dir` has another name, or none, and
      everything else that directories consist of is the same. */
  ghost predicate OneNameChanged(d: Disk, d': Disk, files: set<FilePtr>, dir: FilePtr, f: FilePtr) {
    && dir in files && IsDir(d, dir) && IsEntry(d, dir, f) && !IsDir(d, f)
    && SameShape(d, d', files) && (forall x :: x in files ==> (IsDir(d', x) <==> IsDir(d, x)))
    && (forall g :: g in files && g != f ==> SameName(d, d', g))
  }

  /** Then the directories are in order again if the new name is not taken. */
  lemma NameChangeKeepsTree(d: Disk, d': Disk, files: set<FilePtr>, dir: FilePtr, f: FilePtr)
    requires Tree(d, files) && FsInv(d', files) && OneNameChanged(d, d', files, dir, f)
    requires forall n :: IsName(n) && HasName(d', f, n) ==> Lookup(d, dir, n) == None
    ensures Tree(d', files)
  {
    hide FsInv, SameName, HasName, Unused, IsName, IsEntry, Lookup, Size, Target, SameShape;
    forall x | x in files && IsDir(d', x) ensures DirOk(d', files, x) {
      assert DirOk(d, files, x);
      forall g ensures IsEntry(d', x, g) <==> IsEntry(d, x, g) {
        SameEntries(d, d', files, x, g);
      }
      ShapeOk(d, d', files, x);
      forall g | IsEntry(d', x, g) ensures g in files && (Unused(d', g) ==> !IsDir(d', g)) {
        if g != f {
          SameNames(d, d', g, []);
        }
      }
      forall g, h, n | IsEntry(d', x, g) && IsEntry(d', x, h) && IsName(n) && HasName(d', g, n) && HasName(d', h, n)
        ensures g == h
      {
        ShortName(n);
        if g != f { SameNames(d, d', g, n); }
        if h != f { SameNames(d, d', h, n); }
        if g == f || h == f {
          EntryOnce(d, files, x, dir, f);
          if g != f { LookupIff(d, files, dir, n, g); }
          if h != f { LookupIff(d, files, dir, n, h); }
        }
      }
    }
  }

  lemma ShapeOk(d: Disk, d': Disk, files: set<FilePtr>, x: FilePtr)
    requires DirOk(d, files, x) && x in files && IsDir(d, x) && SameShape(d, d', files)
    ensures Size(d', x) % BLKSIZE == 0 && DirBlocks(d', x) <= MAXBLOCKS
    ensures forall i :: 0 <= i < DirBlocks(d', x) ==> Target(d', Slot(x, i)) != 0
  {
    hide Target, Size;
  }

  /** A lookup that does not look for the old or the new name of `f` in `dir`
      finds what it found before. */
  lemma LookupKept(d: Disk, d': Disk, files: set<FilePtr>, dir: FilePtr, f: FilePtr, x: FilePtr, n: Name)
    requires Tree(d, files) && Tree(d', files) && OneNameChanged(d, d', files, dir, f)
    requires x in files && IsDir(d, x) && IsName(n)
    requires x == dir ==> !HasName(d, f, n) && !HasName(d', f, n)
    ensures Lookup(d', x, n) == Lookup(d, x, n)
  {
    hide Tree, SameName, HasName, IsName, IsEntry, Lookup, SameShape;
    forall g ensures Lookup(d', x, n) == Some(g) <==> Lookup(d, x, n) == Some(g) {
      LookupIff(d, files, x, n, g);
      LookupIff(d', files, x, n, g);
      SameEntries(d, d', files, x, g);
      if IsEntry(d, x, g) {
        ShortName(n);
        if g == f {
          EntryOnce(d, files, x, dir, f);
        } else {
          EntryInFiles(d, files, x, g);
          SameNames(d, d', g, n);
        }
      }
    }
    if Lookup(d', x, n).Some? {
      assert Lookup(d', x, n) == Some(Lookup(d', x, n).value);
    }
  }

  /** Directories with the same blocks and names are in order as before. */
  lemma ShapeKeepsTree(d: Disk, d': Disk, files: set<FilePtr>)
    requires Tree(d, files) && FsInv(d', files) && SameShape(d, d', files)
    requires forall g :: g in files ==> SameName(d, d', g) && (IsDir(d', g) <==> IsDir(d, g))
    ensures Tree(d', files)
  {
    hide FsInv, SameName, HasName, Unused, IsName, IsEntry, Size, Target, SameShape;
    forall x | x in files && IsDir(d', x) ensures DirOk(d', files, x) {
      assert DirOk(d, files, x);
      forall g ensures IsEntry(d', x, g) <==> IsEntry(d, x, g) {
        SameEntries(d, d', files, x, g);
      }
      ShapeOk(d, d', files, x);
      forall g | IsEntry(d', x, g) ensures g in files && (Unused(d', g) ==> !IsDir(d', g)) {
        SameNames(d, d', g, []);
      }
      forall g, h, n | IsEntry(d', x, g) && IsEntry(d', x, h) && IsName(n) && HasName(d', g, n) && HasName(d', h, n)
        ensures g == h
      {
        ShortName(n);
        SameNames(d, d', g, n);
        SameNames(d, d', h, n);
      }
    }
  }

  /** With the same blocks and names, every path leads where it led. */
  lemma {:induction false} ShapeKeepsWalk(d: Disk, d': Disk, files: set<FilePtr>, q: seq<Name>)
    requires Tree(d, files) && Tree(d', files) && SameShape(d, d', files) && IsPath(q)
    requires forall g :: g in files ==> SameName(d, d', g) && (IsDir(d', g) <==> IsDir(d, g))
    ensures Walk(d', q) == Walk(d, q)
  {
    hide Tree, SameName, SameShape, Lookup, IsName;
    if q != [] {
      FrontPath(q);
      ShapeKeepsWalk(d, d', files, q[..|q| - 1]);
      WalkStays(d, files, q[..|q| - 1]);
      var w, n := Walk(d, q[..|q| - 1]), q[|q| - 1];
      if w.Found? && |n| < MAXNAMELEN && IsDir(d, w.file) {
        PartIsName(n);
        ShapeKeepsLookup(d, d', files, w.file, n);
      }
    }
  }

  lemma PartIsName(n: Name)
    requires 0 < |n| < MAXNAMELEN && forall j :: 0 <= j < |n| ==> 0 < n[j] < 256 && n[j] != SLASH
    ensures IsName(n)
  {
  }

  lemma ShapeKeepsLookup(d: Disk, d': Disk, files: set<FilePtr>, x: FilePtr, n: Name)
    requires Tree(d, files) && Tree(d', files) && SameShape(d, d', files)
    requires forall g :: g in files ==> SameName(d, d', g)
    requires x in files && IsDir(d, x) && IsDir(d', x) && IsName(n)
    ensures Lookup(d', x, n) == Lookup(d, x, n)
  {
    hide Tree, SameName, HasName, IsName, IsEntry, Lookup, SameShape;
    forall g ensures Lookup(d', x, n) == Some(g) <==> Lookup(d, x, n) == Some(g) {
      LookupIff(d, files, x, n, g);
      LookupIff(d', files, x, n, g);
      SameEntries(d, d', files, x, g);
      if IsEntry(d, x, g) {
        ShortName(n);
        EntryInFiles(d, files, x, g);
        SameNames(d, d', g, n);
      }
    }
    if Lookup(d', x, n).Some? {
      assert Lookup(d', x, n) == Some(Lookup(d', x, n).value);
    }
  }

  /** Reading, writing or resizing a regular file: the tree stays in order and every
      path leads where it led. */
  lemma DataKeepsPaths(d: Disk, d': Disk, files: set<FilePtr>, f: FilePtr)
    requires Tree(d, files) && FsInv(d', files) && f in files && !IsDir(d, f) && OthersKept(d, d', files, f)
    requires forall g, j: nat :: g in files && j < F_DIRECT && !(g == f && j == F_SIZE) ==>
               Field(d', g, j) == Field(d, g, j)
    ensures Tree(d', files)
    ensures forall q :: IsPath(q) ==> Walk(d', q) == Walk(d, q)
  {
    hide FsInv, Target, DirsOk, Field;
    forall g | g in files ensures SameName(d, d', g) && (IsDir(d', g) <==> IsDir(d, g)) {
      assert Field(d', g, F_TYPE) == Field(d, g, F_TYPE);
    }
    forall x, i | x in files && IsDir(d, x) && 0 <= i < MAXBLOCKS
      ensures Size(d', x) == Size(d, x) && Target(d', Slot(x, i)) == Target(d, Slot(x, i))
    {
      assert Field(d', x, F_SIZE) == Field(d, x, F_SIZE) && IsRef(files, Slot(x, i));
    }
    ShapeKeepsTree(d, d', files);
    forall q | IsPath(q) ensures Walk(d', q) == Walk(d, q) {
      ShapeKeepsWalk(d, d', files, q);
    }
  }

  lemma EntryInFiles(d: Disk, files: set<FilePtr>, x: FilePtr, g: FilePtr)
    requires Tree(d, files) && x in files && IsDir(d, x) && IsEntry(d, x, g)
    ensures g in files && (Unused(d, g) ==> !IsDir(d, g))
  {
    assert DirOk(d, files, x);
  }

  /** Naming an unused entry adds exactly that name. */
  lemma SetNameAdds(d: Disk, files: set<FilePtr>, dir: FilePtr, f: FilePtr, n: Name)
    requires Tree(d, files) && dir in files && IsDir(d, dir) && IsEntry(d, dir, f) && Unused(d, f)
    requires IsName(n) && Lookup(d, dir, n) == None
    ensures Tree(SetName(d, f, n), files) && OneMore(d, SetName(d, f, n), files, dir, n, f)
  {
    hide FsInv, SetName, HasName, Unused, Lookup, IsEntry, Sound;
    var d' := SetName(d, f, n);
    EntryInFiles(d, files, dir, f);
    SetNameSound(d, files, f, n);
    SetNameShape(d, files, dir, f, n);
    forall m | IsName(m) && HasName(d', f, m) ensures Lookup(d, dir, m) == None {
      NameUnique(d', f, m, n);
    }
    NameChangeKeepsTree(d, d', files, dir, f);
    forall x, m | x in files && IsDir(d, x) && IsName(m) && !(x == dir && m == n)
      ensures Lookup(d', x, m) == Lookup(d, x, m)
    {
      if x == dir {
        if HasName(d, f, m) { NameUnique(d, f, m, m); }
        if HasName(d', f, m) { NameUnique(d', f, m, n); }
      }
      LookupKept(d, d', files, dir, f, x, m);
    }
    SameEntries(d, d', files, dir, f);
    LookupIff(d', files, dir, n, f);
  }

  lemma SetNameShape(d: Disk, files: set<FilePtr>, dir: FilePtr, f: FilePtr, n: Name)
    requires FsInv(d, files) && dir in files && IsDir(d, dir) && IsEntry(d, dir, f) && f in files
    requires !IsDir(d, f) && IsName(n)
    ensures OneNameChanged(d, SetName(d, f, n), files, dir, f)
  {
    hide FsInv, SetName, HasName, IsEntry, Target, Sound, Field;
    var d' := SetName(d, f, n);
    SetNameSound(d, files, f, n);
    assert forall x, i :: x in files && 0 <= i < MAXBLOCKS ==> IsRef(files, Slot(x, i));
  }

  // ---- Removing a name ----

  /** Removing a regular file takes away exactly its name. */
  lemma RemoveTakesAway(d: Disk, files: set<FilePtr>, dir: FilePtr, f: FilePtr, n: Name)
    requires Tree(d, files) && dir in files && IsDir(d, dir) && IsName(n) && Lookup(d, dir, n) == Some(f)
    requires !IsDir(d, f)
    ensures Tree(RemoveFile(d, f), files) && OneMore(RemoveFile(d, f), d, files, dir, n, f)
  {
    hide FsInv, RemoveFile, HasName, Unused, Lookup, IsEntry, Sound;
    var d' := RemoveFile(d, f);
    LookupIff(d, files, dir, n, f);
    RemoveShape(d, files, dir, f);
    forall m | IsName(m) && HasName(d', f, m) ensures false {
      NameUnique(d', f, m, m);
    }
    NameChangeKeepsTree(d, d', files, dir, f);
    forall x, m | x in files && IsDir(d', x) && IsName(m) && !(x == dir && m == n)
      ensures Lookup(d, x, m) == Lookup(d', x, m)
    {
      if x == dir {
        if HasName(d, f, m) { NameUnique(d, f, m, n); }
        if HasName(d', f, m) { NameUnique(d', f, m, m); }
      }
      LookupKept(d, d', files, dir, f, x, m);
    }
    if Lookup(d', dir, n).Some? {
      var g := Lookup(d', dir, n).value;
      LookupIff(d', files, dir, n, g);
      SameEntries(d, d', files, dir, g);
      EntryInFiles(d, files, dir, g);
      ShortName(n);
      if g != f {
        SameNames(d, d', g, n);
        LookupIff(d, files, dir, n, g);
      }
    }
  }

  lemma RemoveShape(d: Disk, files: set<FilePtr>, dir: FilePtr, f: FilePtr)
    requires FsInv(d, files) && dir in files && IsDir(d, dir) && IsEntry(d, dir, f) && f in files && !IsDir(d, f)
    ensures var d' := RemoveFile(d, f); FsInv(d', files) && OneNameChanged(d, d', files, dir, f) && Unused(d', f)
  {
    hide FsInv, RemoveFile, IsEntry, Target, Sound, Field, Surplus, IsFree, Raw;
    RegularVacant(d, files, f);
    RemoveFileCorrect(d, files, f);
    assert forall x, i :: x in files && 0 <= i < MAXBLOCKS ==> IsRef(files, Slot(x, i));
  }

  // ---- Growing a directory ----

  /** dir_alloc_file for a full directory: one more block. */
  function GrowDir(d: Disk, dir: FilePtr): Out {
    GetBlock(PutSize(d, dir, Size(d, dir) + BLKSIZE), dir, DirBlocks(d, dir))
  }

  /** A full directory cannot get another block: it has the greatest number, or
      there are not enough free blocks, two if it needs an indirect block first. */
  ghost predicate NoRoom(d: Disk, dir: FilePtr) {
    || DirBlocks(d, dir) >= MAXBLOCKS
    || |FreeSet(d)| < (if DirBlocks(d, dir) >= NDIRECT && Target(d, Indirect(dir)) == 0 then 2 else 1)
  }

  /** The File structures of a directory block. */
  function NewFiles(b: nat): set<FilePtr> {
    set j | 0 <= j < BLKFILES :: FilePtr(b, j * FILE_WORDS)
  }

  lemma GrowSize(d: Disk, files: set<FilePtr>, dir: FilePtr)
    requires Tree(d, files) && dir in files && IsDir(d, dir)
    ensures var d1 := PutSize(d, dir, Size(d, dir) + BLKSIZE); var n := DirBlocks(d, dir);
            && FsInv(d1, files) && SameBitmap(d, d1) && SameTargets(d, d1, files, {})
            && Size(d1, dir) == Size(d, dir) + BLKSIZE
            && Blocks(Size(d1, dir)) == n + 1
            && (n < MAXBLOCKS ==> Target(d1, Slot(dir, n)) == 0)
            && (forall g, j: nat :: g in files && j < F_DIRECT && !(g == dir && j == F_SIZE) ==>
                  Field(d1, g, j) == Field(d, g, j))
            && SameBytes(d, d1, files)
  {
    hide Sound, Target, PutAt, Raw, Field, IsFree;
    assert DirOk(d, files, dir);
    var d1 := PutSize(d, dir, Size(d, dir) + BLKSIZE);
    StoreMetaSound(d, files, dir, F_SIZE, Size(d, dir) + BLKSIZE);
    forall g, m | g in files && Blocks(Size(d1, g)) <= m < MAXBLOCKS ensures Target(d1, Slot(g, m)) == 0 {
      assert IsRef(files, Slot(g, m));
      assert Size(d1, g) >= Size(d, g);
    }
    assert DirBlocks(d, dir) < MAXBLOCKS ==> IsRef(files, Slot(dir, DirBlocks(d, dir)));
  }

  /** A block that file_get_block takes for a hole was free and is cleared; if it
      finds none, the hole remains. */
  lemma GetBlockFresh(d: Disk, files: set<FilePtr>, f: FilePtr, n: nat)
    requires FsInv(d, files) && f in files && n < Blocks(Size(d, f)) && n < MAXBLOCKS && Target(d, Slot(f, n)) == 0
    ensures var o := GetBlock(d, f, n);
            if o.r >= 0 then IsFree(d, o.r) && o.r < |o.disk| && o.disk[o.r] == ZeroBlock()
              else Target(o.disk, Slot(f, n)) == 0
  {
    hide IsFree, AllocCleared, Sound, SameContent, SameData, Shaped, Unowned, BlockWalk, Target, Word;
    WalkCorrect(d, files, f, n);
    var w := BlockWalk(d, f, n, true);
    ExtendsSound(d, w.disk, files);
    assert IsRef(files, Slot(f, n)) && IsRef(files, Indirect(f));
    if w.r >= 0 {
      AllocClearedCorrect(w.disk, files);
      var o := AllocCleared(w.disk);
      if Target(w.disk, Slot(f, n)) == 0 && o.r >= 0 {
        SlotKeepsBlock(o.disk, files, f, n, o.r);
      }
    }
  }

  lemma SlotKeepsBlock(d: Disk, files: set<FilePtr>, f: FilePtr, n: nat, b: nat)
    requires Sound(d, files) && Unowned(d, files, b) && f in files && n < MAXBLOCKS
    ensures |SetSlot(d, f, n, b)| == |d| && SetSlot(d, f, n, b)[b] == d[b]
  {
    hide Word, IsFree;
    assert IsRef(files, Indirect(f));
  }

  /** The File structures in a cleared block that a directory has just got. */
  lemma AdoptBlock(d: Disk, files: set<FilePtr>, dir: FilePtr, n: nat, b: nat)
    requires FsInv(d, files) && dir in files && IsDir(d, dir) && n < MAXBLOCKS && Target(d, Slot(dir, n)) == b != 0
    requires b < |d| && d[b] == ZeroBlock() && forall f :: f in files ==> f.block != b
    ensures FsInv(d, files + NewFiles(b)) && NewFiles(b) !! files
    ensures forall g, j: nat :: g in NewFiles(b) ==> Field(d, g, j) == 0
  {
    hide Word, IsFree;
    ZeroWords();
    var all := files + NewFiles(b);
    assert IsRef(files, Slot(dir, n));
    assert forall g, j: nat :: g in NewFiles(b) ==> Field(d, g, j) == 0;
    forall r | IsRef(all, r) && r.f in NewFiles(b) ensures Target(d, r) == 0 {
    }
    AdoptSound(d, files, NewFiles(b), Slot(dir, n));
    assert SlotsFit(d, all);
  }

  lemma AdoptSound(d: Disk, files: set<FilePtr>, more: set<FilePtr>, home: Ref)
    requires Sound(d, files) && IsRef(files, home) && home.Slot? && IsDir(d, home.f) && Target(d, home) != 0
    requires forall g :: g in more ==> g.block == Target(d, home) && g.base % FILE_WORDS == 0 && g.base < WORDS
    requires forall r :: IsRef(files + more, r) && r.f in more ==> Target(d, r) == 0
    ensures Sound(d, files + more)
  {
    hide Target, Word, IsFree, IsDir, Field, Shaped;
    var all := files + more;
    assert Placed(d, all);
    forall r | IsRef(all, r) && Target(d, r) != 0 ensures IsRef(files, r) {
    }
    forall r, g | IsRef(all, r) && g in all && Target(d, r) == g.block ensures r.Slot? && IsDir(d, r.f) {
      if r.f in more {
        HomeNotNull(d, files, g);
      } else if g in more {
        assert r == home;
      }
    }
  }

  lemma HomeNotNull(d: Disk, files: set<FilePtr>, g: FilePtr)
    requires Sound(d, files) && g in files
    ensures g.block != 0
  {
  }

  /** Between the two disks directory `dir` has got the block `b`, and directories
      are otherwise the same. */
  ghost predicate BlockAdded(d: Disk, d': Disk, files: set<FilePtr>, dir: FilePtr, b: nat) {
    && dir in files && IsDir(d, dir) && DirBlocks(d, dir) < MAXBLOCKS
    && (forall x :: x in files ==> (IsDir(d', x) <==> IsDir(d, x)) && SameName(d, d', x))
    && (forall x :: x in files ==> Size(d', x) == if x == dir then Size(d, x) + BLKSIZE else Size(d, x))
    && Target(d', Slot(dir, DirBlocks(d, dir))) == b
    && (forall x, i :: x in files && 0 <= i < MAXBLOCKS && !(x == dir && i == DirBlocks(d, dir)) ==>
          Target(d', Slot(x, i)) == Target(d, Slot(x, i)))
  }

  lemma AddedEntries(d: Disk, d': Disk, files: set<FilePtr>, dir: FilePtr, b: nat, x: FilePtr, g: FilePtr)
    requires Tree(d, files) && BlockAdded(d, d', files, dir, b) && x in files && IsDir(d, x)
    ensures IsEntry(d', x, g) <==> IsEntry(d, x, g) || (x == dir && g in NewFiles(b))
  {
    hide FsInv, Target, Size, SameName, HasName, Unused;
    assert DirOk(d, files, x);
    var n := DirBlocks(d, x);
    assert forall k :: 0 <= k < Entries(d, x) ==> k / BLKFILES < n && Entry(d', x, k) == Entry(d, x, k);
    if x == dir {
      assert Entries(d', x) == Entries(d, x) + BLKFILES;
      forall k | Entries(d, x) <= k < Entries(d', x) ensures Entry(d', x, k) in NewFiles(b) {
        assert k / BLKFILES == n;
      }
      if g in NewFiles(b) {
        var j :| 0 <= j < BLKFILES && g == FilePtr(b, j * FILE_WORDS);
        assert Entry(d', x, n * BLKFILES + j) == g;
      }
    } else {
      assert Entries(d', x) == Entries(d, x);
    }
  }

  /** The tree with the new File structures, all of them unused. */
  lemma AddedKeepsTree(d: Disk, d': Disk, files: set<FilePtr>, dir: FilePtr, b: nat)
    requires Tree(d, files) && BlockAdded(d, d', files, dir, b) && b != 0
    requires FsInv(d', files + NewFiles(b)) && NewFiles(b) !! files
    requires forall g, j: nat :: g in NewFiles(b) ==> Field(d', g, j) == 0
    ensures Tree(d', files + NewFiles(b))
  {
    hide FsInv, Target, Size, SameName, HasName, IsEntry, NewFiles, Field, IsName, Unused;
    var all := files + NewFiles(b);
    forall x | x in all && IsDir(d', x) ensures DirOk(d', all, x) {
      assert x in files by { if x in NewFiles(b) { NewUnused(d', x); } }
      assert DirOk(d, files, x);
      forall g ensures IsEntry(d', x, g) <==> IsEntry(d, x, g) || (x == dir && g in NewFiles(b)) {
        AddedEntries(d, d', files, dir, b, x, g);
      }
      AddedShape(d, d', files, dir, b, x);
      forall g | IsEntry(d', x, g) ensures g in all && (Unused(d', g) ==> !IsDir(d', g)) {
        if g in NewFiles(b) { NewUnused(d', g); } else { SameNames(d, d', g, []); }
      }
      forall g, h, n | IsEntry(d', x, g) && IsEntry(d', x, h) && IsName(n) && HasName(d', g, n) && HasName(d', h, n)
        ensures g == h
      {
        ShortName(n);
        NameUnique(d', g, n, n);
        NameUnique(d', h, n, n);
        if g in NewFiles(b) { NewUnused(d', g); } else { SameNames(d, d', g, n); }
        if h in NewFiles(b) { NewUnused(d', h); } else { SameNames(d, d', h, n); }
      }
    }
  }

  lemma NewUnused(d: Disk, g: FilePtr)
    requires forall j: nat :: Field(d, g, j) == 0
    ensures Unused(d, g) && !IsDir(d, g)
  {
  }

  lemma AddedShape(d: Disk, d': Disk, files: set<FilePtr>, dir: FilePtr, b: nat, x: FilePtr)
    requires DirOk(d, files, x) && BlockAdded(d, d', files, dir, b) && x in files && b != 0
    ensures Size(d', x) % BLKSIZE == 0 && DirBlocks(d', x) <= MAXBLOCKS
    ensures forall i :: 0 <= i < DirBlocks(d', x) ==> Target(d', Slot(x, i)) != 0
  {
    hide Target, Size;
  }

  lemma AddedLookup(d: Disk, d': Disk, files: set<FilePtr>, dir: FilePtr, b: nat, x: FilePtr, n: Name)
    requires Tree(d, files) && BlockAdded(d, d', files, dir, b) && Tree(d', files + NewFiles(b))
    requires forall g, j: nat :: g in NewFiles(b) ==> Field(d', g, j) == 0
    requires x in files && IsDir(d, x) && IsName(n)
    ensures Lookup(d', x, n) == Lookup(d, x, n)
  {
    hide Tree, SameName, HasName, IsName, IsEntry, Lookup, NewFiles, Field;
    ShortName(n);
    forall g ensures Lookup(d', x, n) == Some(g) <==> Lookup(d, x, n) == Some(g) {
      LookupIff(d, files, x, n, g);
      LookupIff(d', files + NewFiles(b), x, n, g);
      AddedEntries(d, d', files, dir, b, x, g);
      if IsEntry(d, x, g) {
        EntryInFiles(d, files, x, g);
        SameNames(d, d', g, n);
      } else if IsEntry(d', x, g) {
        NewUnused(d', g);
        if HasName(d', g, n) { NameUnique(d', g, n, n); }
      }
    }
    if Lookup(d', x, n).Some? {
      assert Lookup(d', x, n) == Some(Lookup(d', x, n).value);
    }
  }

  /** A grown directory: the tree has sixteen more File structures, all unused, and
      no lookup finds anything different.  Exactly when there is no room the
      directory keeps its new size without the block, so that it is no longer in
      order. */
  lemma GrowCorrect(d: Disk, files: set<FilePtr>, dir: FilePtr)
    requires Tree(d, files) && dir in files && IsDir(d, dir)
    ensures var o := GrowDir(d, dir);
            if NoRoom(d, dir) then o.r < 0 && FsInv(o.disk, files) && !DirOk(o.disk, files, dir) && IsDir(o.disk, dir)
            else
              && o.r >= 0 && BlockAdded(d, o.disk, files, dir, o.r) && IsFree(d, o.r) && NewFiles(o.r) !! files
              && Tree(o.disk, files + NewFiles(o.r)) && SameBytes(d, o.disk, files)
              && IsEntry(o.disk, dir, FilePtr(o.r, 0)) && Unused(o.disk, FilePtr(o.r, 0))
              && (forall x, n :: x in files && IsDir(d, x) && IsName(n) ==> Lookup(o.disk, x, n) == Lookup(d, x, n))
  {
    hide Tree, NoRoom, BlockAdded, SameBytes, NewFiles, Lookup, IsEntry, IsName, IsDir, Unused, Size, Target,
         GetBlock, FsInv, DirOk, GrowDir;
    GrowBlock(d, files, dir);
    var o := GrowDir(d, dir);
    if o.r >= 0 {
      AddedKeepsTree(d, o.disk, files, dir, o.r);
      forall x, m | x in files && IsDir(d, x) && IsName(m) ensures Lookup(o.disk, x, m) == Lookup(d, x, m) {
        AddedLookup(d, o.disk, files, dir, o.r, x, m);
      }
      FirstNew(o.r);
      AddedEntries(d, o.disk, files, dir, o.r, dir, FilePtr(o.r, 0));
      NewUnused(o.disk, FilePtr(o.r, 0));
    }
  }

  lemma GrowBlock(d: Disk, files: set<FilePtr>, dir: FilePtr)
    requires Tree(d, files) && dir in files && IsDir(d, dir)
    ensures var o := GrowDir(d, dir);
            if NoRoom(d, dir) then o.r < 0 && FsInv(o.disk, files) && !DirOk(o.disk, files, dir) && IsDir(o.disk, dir)
            else
              && o.r > 0 && BlockAdded(d, o.disk, files, dir, o.r) && IsFree(d, o.r) && NewFiles(o.r) !! files
              && FsInv(o.disk, files + NewFiles(o.r)) && SameBytes(d, o.disk, files)
              && forall g, j: nat :: g in NewFiles(o.r) ==> Field(o.disk, g, j) == 0
  {
    hide Sound, Target, PutSize, Raw, IsFree, GetBlock, SlotsFit, DirsOk, DirOk, BlockAdded, SameBytes, NewFiles;
    OneDir(d, files, dir);
    var d1, n := PutSize(d, dir, Size(d, dir) + BLKSIZE), DirBlocks(d, dir);
    GrowSize(d, files, dir);
    GetBlockCorrect(d1, files, dir, n);
    var o := GrowDir(d, dir);
    GrownShape(d, d1, o.disk, files, dir);
    if n < MAXBLOCKS {
      GetBlockFresh(d1, files, dir, n);
      RoomExactly(d, d1, files, dir);
    }
    if o.r >= 0 {
      FreeApart(d1, files, o.r);
      AdoptBlock(o.disk, files, dir, n, o.r);
      SameContentBytes(d, d1, o.disk, files);
    } else {
      HoleBreaksDir(o.disk, files, dir, n);
    }
  }

  lemma HoleBreaksDir(d: Disk, files: set<FilePtr>, dir: FilePtr, n: nat)
    requires DirBlocks(d, dir) == n + 1 && (n >= MAXBLOCKS || Target(d, Slot(dir, n)) == 0)
    ensures !DirOk(d, files, dir)
  {
    hide Target, Size, IsEntry, HasName;
  }

  lemma GrownShape(d: Disk, d1: Disk, d2: Disk, files: set<FilePtr>, dir: FilePtr)
    requires DirOk(d, files, dir) && dir in files && IsDir(d, dir) && SameTargets(d, d1, files, {})
    requires Size(d1, dir) == Size(d, dir) + BLKSIZE
    requires forall g, j: nat :: g in files && j < F_DIRECT && !(g == dir && j == F_SIZE) ==>
               Field(d1, g, j) == Field(d, g, j)
    requires SameMeta(d1, d2, files) && SameTargets(d1, d2, files, {Indirect(dir), Slot(dir, DirBlocks(d, dir))})
    ensures DirBlocks(d2, dir) == DirBlocks(d, dir) + 1 && IsDir(d2, dir)
    ensures forall g :: g in files ==> (IsDir(d1, g) <==> IsDir(d, g))
    ensures DirBlocks(d, dir) < MAXBLOCKS ==> BlockAdded(d, d2, files, dir, Target(d2, Slot(dir, DirBlocks(d, dir))))
  {
    hide Target, IsEntry, HasName, Word, WordAt;
    assert forall x, i :: x in files && 0 <= i < MAXBLOCKS ==> IsRef(files, Slot(x, i));
    assert Field(d2, dir, F_SIZE) == Field(d1, dir, F_SIZE);
    assert forall g :: g in files ==> Field(d2, g, F_TYPE) == Field(d1, g, F_TYPE) == Field(d, g, F_TYPE);
    assert forall g :: g in files ==> Field(d2, g, F_SIZE) == Field(d1, g, F_SIZE);
  }

  lemma RoomExactly(d: Disk, d1: Disk, files: set<FilePtr>, dir: FilePtr)
    requires FsInv(d1, files) && dir in files && SameBitmap(d, d1) && SameTargets(d, d1, files, {})
    requires var n := DirBlocks(d, dir); n < MAXBLOCKS && n < Blocks(Size(d1, dir)) && Target(d1, Slot(dir, n)) == 0
    ensures GetBlock(d1, dir, DirBlocks(d, dir)).r < 0 <==> NoRoom(d, dir)
  {
    hide Sound, IsFree, Target, GetBlock, SlotsFit, Size;
    SameFree(d, d1);
    assert IsRef(files, Indirect(dir));
    GetBlockSpace(d1, files, dir, DirBlocks(d, dir));
  }

  lemma OneDir(d: Disk, files: set<FilePtr>, dir: FilePtr)
    requires Tree(d, files) && dir in files && IsDir(d, dir)
    ensures DirOk(d, files, dir)
  {
  }

  lemma FreeApart(d: Disk, files: set<FilePtr>, b: nat)
    requires FsInv(d, files) && IsFree(d, b)
    ensures forall f :: f in files ==> f.block != b
  {
    FreeIsUnowned(d, files, b);
  }

  lemma FirstNew(b: nat)
    ensures FilePtr(b, 0) in NewFiles(b)
  {
    assert FilePtr(b, 0) == FilePtr(b, 0 * FILE_WORDS);
  }

  lemma SameContentBytes(d: Disk, d1: Disk, d2: Disk, files: set<FilePtr>)
    requires SameBytes(d, d1, files) && SameContent(d1, d2, files)
    requires forall g :: g in files ==> (IsDir(d1, g) <==> IsDir(d, g))
    ensures SameBytes(d, d2, files)
  {
    hide Raw;
  }

  // ---- Creating and removing a path ----

  /** The first unused entry from position `k` on. */
  function FindUnused(d: Disk, dir: FilePtr, k: nat): Option<FilePtr>
    decreases if k < Entries(d, dir) then Entries(d, dir) - k else 0
  {
    if k >= Entries(d, dir) then None
    else if Unused(d, Entry(d, dir, k)) then Some(Entry(d, dir, k))
    else FindUnused(d, dir, k + 1)
  }

  lemma {:induction false} FindUnusedCorrect(d: Disk, dir: FilePtr, k: nat)
    ensures match FindUnused(d, dir, k)
            case Some(g) =>
              && IsEntry(d, dir, g) && Unused(d, g)
              && exists i :: k <= i < Entries(d, dir) && Entry(d, dir, i) == g
                             && forall j :: k <= j < i ==> !Unused(d, Entry(d, dir, j))
            case None => forall j :: k <= j < Entries(d, dir) ==> !Unused(d, Entry(d, dir, j))
    decreases if k < Entries(d, dir) then Entries(d, dir) - k else 0
  {
    hide Unused, Entry, Entries;
    if k < Entries(d, dir) && !Unused(d, Entry(d, dir, k)) {
      FindUnusedCorrect(d, dir, k + 1);
    }
  }

  /** The disk afterwards, the return value, and the File structure. */
  datatype Made = Made(disk: Disk, r: int, file: FilePtr)

  /** dir_alloc_file. */
  function DirAlloc(d: Disk, dir: FilePtr): Made {
    match FindUnused(d, dir, 0)
    case Some(f) => Made(d, 0, f)
    case None =>
      var o := GrowDir(d, dir);
      if o.r < 0 then Made(o.disk, o.r, ROOT) else Made(o.disk, 0, FilePtr(o.r, 0))
  }

  /** file_create, for the components of the path. */
  function Create(d: Disk, names: seq<Name>): Made {
    match Walk(d, names)
    case Found(_, f) => Made(d, -E_FILE_EXISTS, f)
    case Failed(r) => Made(d, r, ROOT)
    case Missing(dir, n) =>
      var a := DirAlloc(d, dir);
      if a.r < 0 then Made(a.disk, -E_NOT_FOUND, ROOT) else Made(SetName(a.disk, a.file, n), 0, a.file)
  }

  /** The File structures after dir_alloc_file: all, and those of a new block. */
  ghost function FilesAfter(d: Disk, files: set<FilePtr>, dir: FilePtr): set<FilePtr> {
    if FindUnused(d, dir, 0).Some? || DirAlloc(d, dir).r < 0 then files
      else files + NewFiles(DirAlloc(d, dir).file.block)
  }

  /** No entry is unused and the directory cannot grow. */
  ghost predicate DirFull(d: Disk, dir: FilePtr) {
    (forall g :: IsEntry(d, dir, g) ==> !Unused(d, g)) && NoRoom(d, dir)
  }

  /** It takes the first unused entry, wherever it stands. */
  lemma DirAllocTakesFirst(d: Disk, dir: FilePtr, i: nat)
    requires i < Entries(d, dir) && Unused(d, Entry(d, dir, i))
    requires forall j :: 0 <= j < i ==> !Unused(d, Entry(d, dir, j))
    ensures DirAlloc(d, dir) == Made(d, 0, Entry(d, dir, i))
  {
    hide Unused, Entry, Entries;
    FindUnusedCorrect(d, dir, 0);
  }

  /** dir_alloc_file finds or makes an unused entry, and no lookup notices; exactly
      for a full directory it leaves one that is out of order. */
  lemma DirAllocCorrect(d: Disk, files: set<FilePtr>, dir: FilePtr)
    requires Tree(d, files) && dir in files && IsDir(d, dir)
    ensures var a := DirAlloc(d, dir); var all := FilesAfter(d, files, dir);
            if DirFull(d, dir) then a.r < 0 && FsInv(a.disk, files) && !DirsOk(a.disk, files)
            else
              && a.r >= 0 && Tree(a.disk, all) && files <= all && SameBytes(d, a.disk, files)
              && IsEntry(a.disk, dir, a.file) && Unused(a.disk, a.file)
              && (forall x :: x in files ==> (IsDir(a.disk, x) <==> IsDir(d, x)))
              && (forall x, n :: x in files && IsDir(d, x) && IsName(n) ==> Lookup(a.disk, x, n) == Lookup(d, x, n))
  {
    hide FsInv, Target, GrowDir, IsEntry, Unused, Lookup, IsName, DirOk, SameName, Size, NoRoom, Entry;
    FindUnusedCorrect(d, dir, 0);
    UsedEntries(d, dir);
    if FindUnused(d, dir, 0) == None {
      GrowCorrect(d, files, dir);
    }
  }

  lemma UsedEntries(d: Disk, dir: FilePtr)
    ensures FindUnused(d, dir, 0) == None <==> forall g :: IsEntry(d, dir, g) ==> !Unused(d, g)
  {
    hide Unused, Entry, Entries;
    FindUnusedCorrect(d, dir, 0);
    if FindUnused(d, dir, 0) == None {
      forall g | IsEntry(d, dir, g) ensures !Unused(d, g) {
        var k :| 0 <= k < Entries(d, dir) && Entry(d, dir, k) == g;
      }
    }
  }

  /** file_create.  When it succeeds, the path leads to the new entry, every other
      path resolves as before (a path that goes on behind the entry fails as it
      did), the directories are in order, and every regular file reads the same.
      Exactly when the name is missing from a full directory, it fails and leaves
      the directory out of order. */
  lemma CreateCorrect(d: Disk, files: set<FilePtr>, p: seq<Name>)
    requires Tree(d, files) && IsPath(p)
    ensures var m := Create(d, p); var w := Walk(d, p);
            if w.Found? then m == Made(d, -E_FILE_EXISTS, w.file)
            else if w.Failed? then m == Made(d, w.r, ROOT)
            else if DirFull(d, w.dir) then m.r == -E_NOT_FOUND && FsInv(m.disk, files) && !DirsOk(m.disk, files)
            else
              var all := FilesAfter(d, files, w.dir);
              && m.r == 0 && Tree(m.disk, all) && files <= all && SameBytes(d, m.disk, files) && !IsDir(m.disk, m.file)
              && (forall q :: IsPath(q) ==>
                    Walk(m.disk, q) == if q == p then Found(Some(w.dir), m.file)
                                       else if GoesOn(p, q)
                                         then Failed(if |q[|p|]| >= MAXNAMELEN then -E_BAD_PATH else -E_NOT_FOUND)
                                       else Walk(d, q))
  {
    hide FsInv, DirAlloc, IsEntry, Unused, Lookup, IsName, DirOk, SetName, SameBytes, FilesAfter, IsPath, DirsOk,
         GoesOn, DirFull;
    WalkStays(d, files, p);
    var w := Walk(d, p);
    if w.Missing? {
      DirAllocCorrect(d, files, w.dir);
      if !DirFull(d, w.dir) {
        CreateSucceeds(d, files, p);
      }
    }
  }

  lemma CreateSucceeds(d: Disk, files: set<FilePtr>, p: seq<Name>)
    requires Tree(d, files) && IsPath(p) && Walk(d, p).Missing? && !DirFull(d, Walk(d, p).dir)
    ensures var w := Walk(d, p); var a := DirAlloc(d, w.dir); var d' := SetName(a.disk, a.file, w.last);
            var all := FilesAfter(d, files, w.dir);
            && Tree(d', all) && files <= all && SameBytes(d, d', files) && !IsDir(d', a.file)
            && (forall q :: IsPath(q) ==>
                  Walk(d', q) == if q == p then Found(Some(w.dir), a.file)
                                 else if GoesOn(p, q)
                                   then Failed(if |q[|p|]| >= MAXNAMELEN then -E_BAD_PATH else -E_NOT_FOUND)
                                 else Walk(d, q))
  {
    hide FsInv, DirAlloc, IsEntry, Unused, Lookup, IsName, DirOk, DirsOk, SetName, SameBytes, FilesAfter, IsPath,
         Walk, DirFull;
    WalkStays(d, files, p);
    var w := Walk(d, p);
    var a := DirAlloc(d, w.dir);
    var all := FilesAfter(d, files, w.dir);
    DirAllocCorrect(d, files, w.dir);
    SetNameAdds(a.disk, all, w.dir, a.file, w.last);
    var d' := SetName(a.disk, a.file, w.last);
    CreateKeepsBytes(d, a.disk, files, all, w.dir, a.file, w.last);
    NewRegular(a.disk, all, w.dir, a.file, w.last);
    assert OneMore(d, d', files, w.dir, w.last, a.file);
    forall q | IsPath(q)
      ensures Walk(d', q) == if q == p then Found(Some(w.dir), a.file)
                             else if GoesOn(p, q)
                               then Failed(if |q[|p|]| >= MAXNAMELEN then -E_BAD_PATH else -E_NOT_FOUND)
                             else Walk(d, q)
    {
      OneMorePath(d, d', files, p, a.file, q);
    }
  }

  /** The new file is a regular one. */
  lemma NewRegular(d: Disk, files: set<FilePtr>, dir: FilePtr, f: FilePtr, n: Name)
    requires Tree(d, files) && dir in files && IsDir(d, dir) && IsEntry(d, dir, f) && Unused(d, f) && IsName(n)
    ensures !IsDir(SetName(d, f, n), f)
  {
    hide FsInv, DirsOk, IsEntry, Unused, IsName, SetName, SameBytes, HasName;
    EntryInFiles(d, files, dir, f);
    SetNameSound(d, files, f, n);
    assert Field(SetName(d, f, n), f, F_TYPE) == Field(d, f, F_TYPE);
  }

  lemma CreateKeepsBytes(d: Disk, d1: Disk, files: set<FilePtr>, all: set<FilePtr>, dir: FilePtr, f: FilePtr, n: Name)
    requires Tree(d1, all) && files <= all && dir in all && IsDir(d1, dir) && IsEntry(d1, dir, f)
    requires IsName(n) && SameBytes(d, d1, files)
    requires forall x :: x in files ==> (IsDir(d1, x) <==> IsDir(d, x))
    ensures SameBytes(d, SetName(d1, f, n), files)
  {
    hide FsInv, IsEntry, Unused, IsName, DirOk, SetName, Raw, Size;
    EntryInFiles(d1, all, dir, f);
    SetNameSound(d1, all, f, n);
  }

  /** file_remove, for the components of the path. */
  function Remove(d: Disk, names: seq<Name>): Out {
    match Walk(d, names)
    case Found(_, f) => Out(RemoveFile(d, f), 0)
    case Missing(_, _) => Out(d, -E_NOT_FOUND)
    case Failed(r) => Out(d, r)
  }

  /** file_remove of a regular file: the path is not found any more, every other
      path resolves as before, and the directories stay in order. */
  lemma RemoveCorrect(d: Disk, files: set<FilePtr>, p: seq<Name>)
    requires Tree(d, files) && IsPath(p) && Walk(d, p).Found? && !IsDir(d, Walk(d, p).file) && p != []
    ensures var w := Walk(d, p); var d' := Remove(d, p).disk;
            && Remove(d, p).r == 0 && Tree(d', files) && w.parent.Some?
            && (forall q :: IsPath(q) ==>
                  Walk(d', q) == if q == p then Missing(w.parent.value, p[|p| - 1])
                                 else if GoesOn(p, q) then Failed(-E_NOT_FOUND)
                                 else Walk(d, q))
  {
    hide FsInv, IsEntry, Unused, Lookup, IsName, DirOk, DirsOk, RemoveFile, IsPath, HasName;
    WalkStays(d, files, p);
    var w := Walk(d, p);
    var dir, n := w.parent.value, p[|p| - 1];
    LookupIff(d, files, dir, n, w.file);
    RemoveTakesAway(d, files, dir, w.file, n);
    var d' := RemoveFile(d, w.file);
    MissingAfter(d, d', files, p);
    forall q | IsPath(q)
      ensures Walk(d', q) == if q == p then Missing(dir, n) else if GoesOn(p, q) then Failed(-E_NOT_FOUND)
                else Walk(d, q)
    {
      OneMorePath(d', d, files, p, w.file, q);
    }
  }

  /** Before the last component nothing has changed, so it is the one that is missing. */
  lemma MissingAfter(d: Disk, d': Disk, files: set<FilePtr>, p: seq<Name>)
    requires Tree(d, files) && Tree(d', files) && IsPath(p) && p != [] && Walk(d, p).Found? && Walk(d, p).parent.Some?
    requires OneMore(d', d, files, Walk(d, p).parent.value, p[|p| - 1], Walk(d, p).file)
    ensures Walk(d', p) == Missing(Walk(d, p).parent.value, p[|p| - 1])
  {
    hide Tree, IsEntry, Unused, Lookup, IsName, HasName;
    WalkStays(d, files, p);
    PrefixAlike(d, d', files, p, |p| - 1);
  }

  lemma {:induction false} PrefixAlike(d: Disk, d': Disk, files: set<FilePtr>, p: seq<Name>, k: nat)
    requires Tree(d, files) && IsPath(p) && k < |p| && Walk(d, p).Found? && Walk(d, p).parent.Some?
    requires OneMore(d', d, files, Walk(d, p).parent.value, p[|p| - 1], Walk(d, p).file)
    ensures Walk(d', p[..k]) == Walk(d, p[..k]) && Walk(d, p[..k]).Found?
  {
    hide Tree, IsEntry, Unused, Lookup, IsName, HasName, Next, Walk, IsPath, OneMore;
    WalkPrefix(d, p, k);
    if k > 0 {
      PrefixAlike(d, d', files, p, k - 1);
      assert p[..k][..k - 1] == p[..k - 1] && p[..k][k - 1] == p[k - 1];
      PathPrefix(p, k);
      FrontFound(d, files, p[..k]);
      WalkLast(d, p[..k]);
      WalkLast(d', p[..k]);
      WalkStays(d, files, p);
      OneMoreNext(d', d, files, Walk(d, p).parent.value, p[|p| - 1], Walk(d, p).file, Walk(d, p[..k - 1]), p[k - 1]);
      if Walk(d, p[..k - 1]).file == Walk(d, p).parent.value {
        PathPrefix(p, |p| - 1);
        PathUnique(d, files, p[..k - 1], p[..|p| - 1]);
      }
    } else {
      assert p[..0] == [];
      WalkEmpty(d);
      WalkEmpty(d');
    }
  }

  lemma PathPrefix(p: seq<Name>, k: nat)
    requires IsPath(p) && k <= |p|
    ensures IsPath(p[..k])
  {
  }

  lemma WalkEmpty(d: Disk)
    ensures Walk(d, []) == Found(None, ROOT)
  {
  }

  /** On the way to a file that is found, everything is found. */
  lemma {:induction false} WalkPrefix(d: Disk, p: seq<Name>, k: nat)
    requires k <= |p| && Walk(d, p).Found?
    ensures Walk(d, p[..k]).Found?
  {
    hide Lookup, IsDir;
    if k < |p| {
      assert p[..|p| - 1][..k] == p[..k];
      WalkPrefix(d, p[..|p| - 1], k);
    } else {
      assert p[..k] == p;
    }
  }

  // ---- Removing the root ----

  /** The File structures outside the blocks of `f`. */
  ghost function Outside(d: Disk, files: set<FilePtr>, f: FilePtr): set<FilePtr> {
    set g | g in files && forall n: nat :: n < MAXBLOCKS ==> g.block != Target(d, Slot(f, n))
  }

  lemma OutsideVacant(d: Disk, files: set<FilePtr>, f: FilePtr)
    requires FsInv(d, files) && f in files
    ensures FsInv(d, Outside(d, files, f)) && Vacant(d, Outside(d, files, f), f, 0)
  {
    hide FsInv, Target;
    FewerFiles(d, files, Outside(d, files, f));
  }

  /** The root and the entries of other directories are outside the root. */
  lemma OutsideRoot(d: Disk, files: set<FilePtr>, x: FilePtr, i: nat, g: FilePtr)
    requires Tree(d, files)
    ensures ROOT in Outside(d, files, ROOT)
    ensures x in files && x != ROOT && i < MAXBLOCKS && Target(d, Slot(x, i)) != 0 && g in files
            && g.block == Target(d, Slot(x, i)) ==>
              g in Outside(d, files, ROOT)
  {
    hide Shaped, IsFree, HomesApart, SlotsFit, DirsOk, Target;
    forall n: nat | n < MAXBLOCKS ensures ROOT.block != Target(d, Slot(ROOT, n)) {
      assert IsRef(files, Slot(ROOT, n));
    }
    if x in files && x != ROOT && i < MAXBLOCKS && Target(d, Slot(x, i)) != 0 {
      assert IsRef(files, Slot(x, i));
      forall n: nat | n < MAXBLOCKS ensures Target(d, Slot(x, i)) != Target(d, Slot(ROOT, n)) {
        assert IsRef(files, Slot(ROOT, n));
      }
    }
  }

  /** file_remove of the root: it is an empty directory then, every name is gone,
      and what is left is in order. */
  lemma RemoveRootCorrect(d: Disk, files: set<FilePtr>)
    requires Tree(d, files) && IsDir(d, ROOT)
    ensures var d' := RemoveFile(d, ROOT); var left := Outside(d, files, ROOT);
            && Vacant(d, left, ROOT, 0) && FsInv(d, left) && Tree(d', left) && IsDir(d', ROOT) && Size(d', ROOT) == 0
            && (forall q :: IsPath(q) ==> Walk(d', q) == InEmpty(q))
            && SameBytes(d, d', left - {ROOT})
  {
    hide FsInv, RemoveFile, Target, IsPath, Walk, Surplus, IsFree, Raw, DirOk, Vacant;
    var left := Outside(d, files, ROOT);
    OutsideVacant(d, files, ROOT);
    OutsideRoot(d, files, ROOT, 0, ROOT);
    RemoveFileCorrect(d, left, ROOT);
    var d' := RemoveFile(d, ROOT);
    forall x | x in left
      ensures IsDir(d', x) == IsDir(d, x) && (x != ROOT ==> SameName(d, d', x) && Size(d', x) == Size(d, x))
    {
      assert Field(d', x, F_TYPE) == Field(d, x, F_TYPE);
    }
    assert Size(d', ROOT) == 0;
    forall x | x in left && IsDir(d', x) ensures DirOk(d', left, x) {
      if x == ROOT {
        EmptyDir(d', left, ROOT);
      } else {
        assert DirOk(d, files, x);
        forall i | 0 <= i < MAXBLOCKS ensures Target(d', Slot(x, i)) == Target(d, Slot(x, i)) {
          assert IsRef(left, Slot(x, i));
        }
        LeftDir(d, d', files, x);
      }
    }
    forall q | IsPath(q) ensures Walk(d', q) == InEmpty(q) {
      EmptyWalk(d', q);
    }
  }

  /** What a path leads to when the root is empty. */
  function InEmpty(q: seq<Name>): Walked {
    if q == [] then Found(None, ROOT)
    else if |q[0]| >= MAXNAMELEN then Failed(-E_BAD_PATH)
    else if |q| == 1 then Missing(ROOT, q[0])
    else Failed(-E_NOT_FOUND)
  }

  lemma EmptyDir(d: Disk, files: set<FilePtr>, dir: FilePtr)
    requires Size(d, dir) == 0
    ensures DirOk(d, files, dir)
  {
    hide Target, Size;
  }

  lemma LeftDir(d: Disk, d': Disk, files: set<FilePtr>, x: FilePtr)
    requires Tree(d, files) && x in files && x != ROOT && DirOk(d, files, x) && Size(d', x) == Size(d, x)
    requires forall i :: 0 <= i < MAXBLOCKS ==> Target(d', Slot(x, i)) == Target(d, Slot(x, i))
    requires forall g :: g in Outside(d, files, ROOT) ==>
               IsDir(d', g) == IsDir(d, g) && (g == ROOT || SameName(d, d', g))
    requires IsDir(d, x)
    ensures DirOk(d', Outside(d, files, ROOT), x)
  {
    hide FsInv, Target, SameName, HasName, Unused, IsName, IsEntry, DirsOk, Size, IsDir;
    var left := Outside(d, files, ROOT);
    forall g ensures IsEntry(d', x, g) ==> IsEntry(d, x, g) && g in left && SameName(d, d', g) {
      if IsEntry(d', x, g) {
        LeftEntry(d, d', files, x, g);
        EntryOnce(d, files, x, x, g);
      }
    }
    forall i | 0 <= i < DirBlocks(d', x) ensures Target(d', Slot(x, i)) != 0 {
    }
    forall g | IsEntry(d', x, g) ensures g in left && (Unused(d', g) ==> !IsDir(d', g)) {
      SameNames(d, d', g, []);
    }
    forall g, h, n | IsEntry(d', x, g) && IsEntry(d', x, h) && IsName(n) && HasName(d', g, n) && HasName(d', h, n)
      ensures g == h
    {
      ShortName(n);
      SameNames(d, d', g, n);
      SameNames(d, d', h, n);
    }
  }

  lemma LeftEntry(d: Disk, d': Disk, files: set<FilePtr>, x: FilePtr, g: FilePtr)
    requires Tree(d, files) && x in files && x != ROOT && IsDir(d, x) && Size(d', x) == Size(d, x)
    requires forall i :: 0 <= i < MAXBLOCKS ==> Target(d', Slot(x, i)) == Target(d, Slot(x, i))
    requires IsEntry(d', x, g)
    ensures IsEntry(d, x, g) && g in Outside(d, files, ROOT)
  {
    hide FsInv, Target, Size, Unused, HasName;
    assert DirOk(d, files, x);
    var k :| 0 <= k < Entries(d', x) && Entry(d', x, k) == g;
    assert Entries(d, x) == Entries(d', x) && Entry(d, x, k) == g;
    OutsideRoot(d, files, x, k / BLKFILES, g);
  }

  lemma {:induction false} EmptyWalk(d: Disk, q: seq<Name>)
    requires IsDir(d, ROOT) && Size(d, ROOT) == 0 && IsPath(q)
    ensures Walk(d, q) == InEmpty(q)
  {
    hide IsDir, Size, IsPath;
    if q != [] {
      var n := |q| - 1;
      FrontPath(q);
      EmptyWalk(d, q[..n]);
      WalkLast(d, q);
    }
  }
}
