/** Path names over the block cache (fs/fs.c). */
module FsPaths {
  import opened FsBytes
  import opened FsLayout
  import opened FsOps
  import opened FsResize
  import opened FsNames
  import opened FsDirs
  import opened FsSpace
  import opened Fs
  import opened Errors
  import opened Queue

  /** file_get_block of a block that is there changes nothing. */
  lemma GetBlockPresent(d: Disk, f: FilePtr, n: nat)
    requires n < MAXBLOCKS && Target(d, Slot(f, n)) != 0
    ensures GetBlock(d, f, n) == Out(d, Target(d, Slot(f, n)))
  {
    hide AllocCleared, WordAt, Field;
  }

  /** Comparing the bytes of the block is comparing the name. */
  lemma NameBytes(d: Disk, f: FilePtr, n: Name)
    requires f.block < |d| && IsBlock(d[f.block]) && f.base + NAME_WORDS <= WORDS && |n| < MAXNAMELEN
    ensures HasName(d, f, n) <==> d[f.block][4 * f.base..4 * f.base + |n| + 1] == n + [0]
    ensures Unused(d, f) <==> d[f.block][4 * f.base] == 0
  {
    hide ByteOf, Word, IsBlock;
    var b := d[f.block];
    assert |b| == BLKSIZE by { BlockSize(b); }
    forall i: nat | i <= |n| ensures NameByte(d, f, i) == b[4 * f.base + i] {
      WordBytes(b, f.base + i / 4, i % 4);
    }
    var s := b[4 * f.base..4 * f.base + |n| + 1];
    assert forall i :: 0 <= i <= |n| ==> s[i] == NameByte(d, f, i);
    assert HasName(d, f, n) <==> forall i :: 0 <= i <= |n| ==> s[i] == (n + [0])[i];
  }

  lemma BlockSize(b: Block)
    requires IsBlock(b)
    ensures |b| == BLKSIZE
  {
  }

  /** strcmp against a name in a block. */
  method Strcmp(page: Block, at: nat, n: Name) returns (equal: bool)
    requires at + |n| < |page| && forall i :: 0 <= i < |n| ==> n[i] != 0
    ensures equal <==> page[at..at + |n| + 1] == n + [0]
  {
    var i := 0;
    while page[at + i] != 0 && i < |n| && page[at + i] == n[i]
      invariant i <= |n| && page[at..at + i] == n[..i]
      decreases |n| - i
    {
      assert page[at..at + i + 1] == page[at..at + i] + [page[at + i]];
      i := i + 1;
    }
    equal := page[at + i] == if i < |n| then n[i] else 0;
    assert page[at..at + |n| + 1][i] == page[at + i] && (n + [0])[i] == if i < |n| then n[i] else 0;
  }

  /** What the directory code knows of entry `j` of block `i`. */
  lemma EntryPlace(d: Disk, files: set<FilePtr>, dir: FilePtr, i: nat, j: nat)
    requires Tree(d, files) && dir in files && IsDir(d, dir) && i < DirBlocks(d, dir) && j < BLKFILES
    ensures i < MAXBLOCKS && Target(d, Slot(dir, i)) != 0
    ensures var g := Entry(d, dir, i * BLKFILES + j);
            && g == FilePtr(Target(d, Slot(dir, i)), j * FILE_WORDS) && i * BLKFILES + j < Entries(d, dir)
            && g.block < |d| && IsBlock(d[g.block]) && g.base + NAME_WORDS <= WORDS && g in files
            && InUse(d, g.block)
  {
    hide Target, Word, Size, Bit, IsDir;
    assert DirOk(d, files, dir);
    var k := i * BLKFILES + j;
    assert k / BLKFILES == i && k % BLKFILES == j;
    assert IsEntry(d, dir, Entry(d, dir, k));
    assert IsRef(files, Slot(dir, i));
    OwnedAccess(d, files, Slot(dir, i));
  }

  /** dir_lookup's loop over one block. */
  method ScanName(b: nat, page: Block, name: Name, ghost d: Disk, ghost files: set<FilePtr>, ghost dir: FilePtr,
      ghost i: nat)
    returns (file: Option<FilePtr>)
    requires Tree(d, files) && dir in files && IsDir(d, dir) && i < DirBlocks(d, dir) && IsName(name)
    requires b == Target(d, Slot(dir, i)) && b < |d| && page == d[b]
    ensures Find(d, dir, name, i * BLKFILES) == if file.Some? then file else Find(d, dir, name, (i + 1) * BLKFILES)
  {
    hide Tree, Target, Size, IsDir, HasName, Entry, IsBlock, InUse;
    var j := 0;
    while j < BLKFILES
      invariant j <= BLKFILES && Find(d, dir, name, i * BLKFILES) == Find(d, dir, name, i * BLKFILES + j)
    {
      EntryPlace(d, files, dir, i, j);
      BlockSize(page);
      NameBytes(d, FilePtr(b, j * FILE_WORDS), name);
      var equal := Strcmp(page, 4 * (j * FILE_WORDS), name);
      if equal {
        return Some(FilePtr(b, j * FILE_WORDS));
      }
      j := j + 1;
    }
    file := None;
  }

  /** dir_alloc_file's loop over one block. */
  method ScanUnused(b: nat, page: Block, ghost d: Disk, ghost files: set<FilePtr>, ghost dir: FilePtr, ghost i: nat)
    returns (file: Option<FilePtr>)
    requires Tree(d, files) && dir in files && IsDir(d, dir) && i < DirBlocks(d, dir)
    requires b == Target(d, Slot(dir, i)) && b < |d| && page == d[b]
    ensures FindUnused(d, dir, i * BLKFILES) == if file.Some? then file else FindUnused(d, dir, (i + 1) * BLKFILES)
  {
    hide Tree, Target, Size, IsDir, Unused, Entry, IsBlock, InUse;
    EntryPlace(d, files, dir, i, 0);
    BlockSize(page);
    var j := 0;
    while j < BLKFILES
      invariant j <= BLKFILES && FindUnused(d, dir, i * BLKFILES) == FindUnused(d, dir, i * BLKFILES + j)
    {
      EntryPlace(d, files, dir, i, j);
      NameBytes(d, FilePtr(b, j * FILE_WORDS), []);
      if page[4 * (j * FILE_WORDS)] == 0 {
        return Some(FilePtr(b, j * FILE_WORDS));
      }
      j := j + 1;
    }
    file := None;
  }

  /** Once a component is not found, the rest of the path does not matter. */
  lemma {:induction false} NotFoundStays(d: Disk, names: seq<Name>, k: nat)
    requires k < |names| && !Walk(d, names[..k]).Found?
    ensures Walk(d, names) == match Walk(d, names[..k]) case Failed(r) => Failed(r) case _ => Failed(-E_NOT_FOUND)
    decreases |names|
  {
    hide Lookup, IsDir;
    if k < |names| - 1 {
      assert names[..|names| - 1][..k] == names[..k];
      NotFoundStays(d, names[..|names| - 1], k);
    }
  }

  /** skip_slash. */
  method SkipSlashes(path: seq<nat>) returns (rest: seq<nat>)
    ensures rest == SkipSlash(path) && |rest| <= |path| && (rest != [] ==> rest[0] != SLASH)
  {
    var i := 0;
    while i < |path| && path[i] == SLASH
      invariant i <= |path| && SkipSlash(path) == SkipSlash(path[i..])
    {
      assert path[i..][1..] == path[i + 1..];
      i := i + 1;
    }
    rest := path[i..];
  }

  /** The inner loop of walk_path: the end of the first component. */
  method FindSlash(path: seq<nat>) returns (n: nat)
    ensures n == WordLen(path) && n <= |path| && (path != [] && path[0] != SLASH ==> n > 0)
  {
    n := 0;
    while n < |path| && path[n] != SLASH
      invariant n <= |path| && WordLen(path) == n + WordLen(path[n..])
    {
      assert path[n..][1..] == path[n + 1..];
      n := n + 1;
    }
  }

  lemma {:induction false} WalkErrors(d: Disk, names: seq<Name>)
    requires Walk(d, names).Failed?
    ensures Walk(d, names).r < 0
  {
    hide Lookup, IsDir;
    if names != [] && Walk(d, names[..|names| - 1]).Failed? {
      WalkErrors(d, names[..|names| - 1]);
    }
  }

  lemma InUseInside(d: Disk, b: nat)
    requires InUse(d, b)
    ensures b < |d|
  {
  }

  /** The block of an entry is a block of its directory, which is small. */
  lemma EntryBlock(d: Disk, files: set<FilePtr>, dir: FilePtr, f: FilePtr)
    requires Tree(d, files) && dir in files && IsDir(d, dir) && IsEntry(d, dir, f)
    ensures exists n: nat :: n < MAXBLOCKS && Target(d, Slot(dir, n)) == f.block != 0
    ensures Size(d, dir) <= INT_LIMIT - BLKSIZE
  {
    hide FsInv, Target, Unused, HasName, IsDir;
    assert DirOk(d, files, dir);
    var k :| 0 <= k < Entries(d, dir) && Entry(d, dir, k) == f;
    assert Target(d, Slot(dir, k / BLKFILES)) != 0;
  }

  lemma InsideFile(d: Disk, dir: FilePtr, i: nat)
    requires i < DirBlocks(d, dir)
    ensures i < Blocks(Size(d, dir))
  {
  }

  lemma InvHome(d: Disk, files: set<FilePtr>, f: FilePtr)
    requires Tree(d, files) && f in files
    ensures InUse(d, f.block)
  {
    HomeAccess(d, files, f);
  }

  lemma TreeInv(d: Disk, files: set<FilePtr>)
    requires Tree(d, files)
    ensures FsInv(d, files)
  {
  }

  /** With its new size the directory may be given another block. */
  lemma GrowReady(d: Disk, files: set<FilePtr>, dir: FilePtr)
    requires Tree(d, files) && dir in files && IsDir(d, dir)
    ensures InUse(d, dir.block)
    ensures var d1 := PutSize(d, dir, Size(d, dir) + BLKSIZE);
            FsInv(d1, files) && DirBlocks(d, dir) < Blocks(Size(d1, dir))
  {
    HomeAccess(d, files, dir);
    GrowSize(d, files, dir);
  }

  lemma {:induction false} RestNames(path: seq<nat>, names: seq<Name>)
    requires names == Components(path)
    ensures names[0..] == Components(SkipSlash(path)) && names[..0] == []
    decreases |path|
  {
    SkipShorter(path);
    SkipTwice(path);
  }

  lemma {:induction false} SkipTwice(path: seq<nat>)
    ensures SkipSlash(SkipSlash(path)) == SkipSlash(path)
  {
    if path != [] && path[0] == SLASH {
      SkipTwice(path[1..]);
    }
  }

  /** The next word of the path is the next component. */
  lemma TakeName(names: seq<Name>, k: nat, rest: seq<nat>)
    requires k <= |names| && names[k..] == Components(rest) && rest != [] && rest[0] != SLASH && IsPath(names)
    ensures WordLen(rest) <= |rest| && k < |names| && names[k] == rest[..WordLen(rest)]
    ensures names[k + 1..] == Components(SkipSlash(rest[WordLen(rest)..]))
    ensures names[..k + 1][..k] == names[..k] && names[..k + 1][k] == names[k]
    ensures |names[k]| > 0 && forall j :: 0 <= j < |names[k]| ==> 0 < names[k][j] < 256 && names[k][j] != SLASH
    ensures IsPath(names[..k])
  {
    WordShorter(rest);
    var len := WordLen(rest);
    assert names[k..][0] == rest[..len] && names[k..][1..] == Components(rest[len..]);
    assert names[k..][1..] == names[k + 1..];
    RestNames(rest[len..], Components(rest[len..]));
    assert Components(rest[len..])[0..] == Components(rest[len..]);
  }

  lemma NoNames()
    ensures Components([]) == []
  {
  }

  lemma SomeNames(rest: seq<nat>)
    requires rest != [] && rest[0] != SLASH
    ensures Components(rest) != []
  {
  }

  lemma WalkFurther(d: Disk, files: set<FilePtr>, names: seq<Name>, k: nat)
    requires Tree(d, files) && k < |names| && IsPath(names)
    ensures Walk(d, names[..k]).Found? ==>
              Walk(d, names[..k + 1]) == Next(d, Found(None, Walk(d, names[..k]).file), names[k])
    ensures Walk(d, names[..k + 1]).Found? ==> Walk(d, names[..k + 1]).file in files
  {
    hide Tree, Walk, Lookup, IsDir;
    assert names[..k + 1][..k] == names[..k];
    WalkLast(d, names[..k + 1]);
    WalkStays(d, files, names[..k + 1]);
  }

  class NameSpace {
    const fs: FileSystem

    constructor (system: FileSystem)
      ensures fs == system
    {
      fs := system;
    }

    ghost predicate Ok()
      reads this, fs, fs.bc
    {
      fs.Valid() && Tree(fs.bc.View(), fs.files)
    }

    ghost function View(): Disk
      reads fs, fs.bc
    {
      fs.bc.View()
    }

    /** The content of a block of a directory. */
    method DirBlock(dir: FilePtr, i: nat) returns (b: nat, page: Block)
      requires Ok() && dir in fs.files && IsDir(View(), dir) && i < DirBlocks(View(), dir)
      modifies fs.bc
      ensures Ok() && View() == old(View()) && b == Target(View(), Slot(dir, i)) && b < |View()| && page == View()[b]
    {
      hide FsInv, Target, GetBlock, DirsOk, Size, IsDir;
      EntryPlace(View(), fs.files, dir, i, 0);
      GetBlockPresent(View(), dir, i);
      assert i < Blocks(Size(View(), dir)) by { InsideFile(View(), dir, i); }
      var r := fs.FileGetBlock(dir, i);
      b := r;
      page := fs.bc.Read(b);
    }

    /** dir_lookup. */
    method DirLookup(dir: FilePtr, name: Name) returns (r: int, file: FilePtr)
      requires Ok() && dir in fs.files && IsDir(View(), dir) && IsName(name)
      modifies fs.bc
      ensures Ok() && View() == old(View())
      ensures if r == 0 then Lookup(View(), dir, name) == Some(file)
                else r == -E_NOT_FOUND && Lookup(View(), dir, name) == None
    {
      hide FsInv, Target, DirsOk, Size, IsDir;
      ghost var d := View();
      OneDir(d, fs.files, dir);
      var size := fs.ReadSize(dir);
      assert size % BLKSIZE == 0;   // the assertion of the source
      file := ROOT;
      var i := 0;
      while i < size / BLKSIZE
        invariant i <= DirBlocks(d, dir) && Ok() && View() == d
        invariant Lookup(d, dir, name) == Find(d, dir, name, i * BLKFILES)
      {
        var b, page := DirBlock(dir, i);
        var found := ScanName(b, page, name, d, fs.files, dir, i);
        if found.Some? {
          return 0, found.value;
        }
        i := i + 1;
      }
      r := -E_NOT_FOUND;
    }

    /** The search of dir_alloc_file. */
    method FindFree(dir: FilePtr) returns (file: Option<FilePtr>)
      requires Ok() && dir in fs.files && IsDir(View(), dir)
      modifies fs.bc
      ensures Ok() && View() == old(View()) && file == FindUnused(View(), dir, 0)
    {
      hide FsInv, Target, DirsOk, Size, IsDir;
      ghost var d := View();
      OneDir(d, fs.files, dir);
      var size := fs.ReadSize(dir);
      assert size % BLKSIZE == 0;   // the assertion of the source
      var i := 0;
      while i < size / BLKSIZE
        invariant i <= DirBlocks(d, dir) && Ok() && View() == d
        invariant FindUnused(d, dir, 0) == FindUnused(d, dir, i * BLKFILES)
      {
        var b, page := DirBlock(dir, i);
        file := ScanUnused(b, page, d, fs.files, dir, i);
        if file.Some? {
          return;
        }
        i := i + 1;
      }
      file := None;
    }

    /** dir_alloc_file. */
    method DirAllocFile(dir: FilePtr) returns (r: int, file: FilePtr)
      requires Ok() && dir in fs.files && IsDir(View(), dir)
      modifies fs.bc, fs`files
      ensures var a := DirAlloc(old(View()), dir); View() == a.disk && r == a.r && (r >= 0 ==> r == 0 && file == a.file)
      ensures fs.Valid() && fs.files == FilesAfter(old(View()), old(fs.files), dir)
              && (if r >= 0 then Ok() else fs.files == old(fs.files))
    {
      hide FsInv, Target, DirsOk, Size, IsDir, GetBlock, PutAt, FindUnused, IsEntry, Unused, Lookup, SameBytes,
           IsName, Tree;
      ghost var d := View();
      ghost var all := FilesAfter(d, fs.files, dir);
      DirAllocCorrect(d, fs.files, dir);
      var found := FindFree(dir);
      if found.Some? {
        return 0, found.value;
      }
      GrowReady(d, fs.files, dir);
      var size := fs.ReadSize(dir);
      fs.bc.WriteWord(dir.block, dir.base + F_SIZE, size + BLKSIZE);
      r := fs.FileGetBlock(dir, size / BLKSIZE);
      if r < 0 {
        return r, ROOT;
      }
      file := FilePtr(r, 0);
      r := 0;
      fs.files := all;
      assert FsInv(View(), fs.files) by { TreeInv(View(), fs.files); }
    }

    /** walk_path. */
    method WalkPath(path: seq<nat>) returns (w: Walked)
      requires Ok() && forall i :: 0 <= i < |path| ==> 0 < path[i] < 256
      modifies fs.bc
      ensures Ok() && View() == old(View()) && w == Walk(View(), Components(path))
    {
      hide FsInv, DirsOk, IsDir, Lookup, IsEntry, HasName, IsName, Walk, Components, Next, IsPath, SkipSlash, WordLen;
      ghost var d := View();
      ghost var names := Components(path);
      ComponentsAreWords(path);
      var rest := SkipSlashes(path);
      ghost var k := 0;
      var dir, f := None, ROOT;
      RestNames(path, names);
      WalkEmpty(d);
      while rest != []
        invariant Ok() && View() == d && k <= |names| && names[k..] == Components(rest)
        invariant rest != [] ==> rest[0] != SLASH
        invariant Walk(d, names[..k]) == Found(dir, f) && f in fs.files
        decreases |rest|
      {
        TakeName(names, k, rest);
        var len := FindSlash(rest);
        var name := rest[..len];
        rest := SkipSlashes(rest[len..]);
        WalkFurther(d, fs.files, names, k);
        k := k + 1;
        w := WalkOne(f, name);
        if !w.Found? {
          if rest != [] {
            SomeNames(rest);
            NotFoundStays(d, names, k);
            w := Failed(if w.Failed? then w.r else -E_NOT_FOUND);
          } else {
            NoNames();
          }
          assert names[..|names|] == names;
          return;
        }
        dir, f := w.parent, w.file;
      }
      NoNames();
      w := Found(dir, f);
      assert names[..k] == names;
    }

    /** One component of walk_path. */
    method WalkOne(f: FilePtr, name: Name) returns (w: Walked)
      requires Ok() && f in fs.files && |name| > 0
               && forall j :: 0 <= j < |name| ==> 0 < name[j] < 256 && name[j] != SLASH
      modifies fs.bc
      ensures Ok() && View() == old(View()) && w == Next(View(), Found(None, f), name)
    {
      hide FsInv, DirsOk, Lookup;
      if |name| >= MAXNAMELEN {
        return Failed(-E_BAD_PATH);
      }
      InvHome(View(), fs.files, f);
      var kind := fs.bc.ReadWord(f.block, f.base + F_TYPE);
      if kind != FTYPE_DIR {
        return Failed(-E_NOT_FOUND);
      }
      var r, g := DirLookup(f, name);
      w := if r < 0 then Missing(f, name) else Found(Some(f), g);
    }

    /** file_open. */
    method FileOpen(path: seq<nat>) returns (r: int, file: FilePtr)
      requires Ok() && forall i :: 0 <= i < |path| ==> 0 < path[i] < 256
      modifies fs.bc
      ensures Ok() && View() == old(View())
      ensures match Walk(View(), Components(path))
              case Found(_, f) => r == 0 && file == f
              case Missing(_, _) => r == -E_NOT_FOUND
              case Failed(e) => r == e
    {
      hide FsInv, DirsOk, Walk;
      var w := WalkPath(path);
      match w
      case Found(_, f) => r, file := 0, f;
      case Missing(_, _) => r, file := -E_NOT_FOUND, ROOT;
      case Failed(e) => r, file := e, ROOT;
    }

    /** file_create; the directory with the new name is on disk afterwards. */
    method FileCreate(path: seq<nat>) returns (r: int, file: FilePtr)
      requires Ok() && forall i :: 0 <= i < |path| ==> 0 < path[i] < 256
      modifies fs.bc, fs`files
      ensures var m := Create(old(View()), Components(path));
              View() == m.disk && r == m.r && (r == 0 ==> file == m.file)
      ensures fs.Valid() && (!Walk(old(View()), Components(path)).Missing? || r == 0 ==> Ok())
      ensures r < 0 ==> fs.files == old(fs.files)
      ensures match Walk(old(View()), Components(path))
              case Found(_, f) => r == -E_FILE_EXISTS && View() == old(View())
              case Missing(_, _) => r == 0 || r == -E_NOT_FOUND
              case Failed(e) => r == e < 0 && View() == old(View())
      ensures r == 0 ==> Walk(old(View()), Components(path)).Missing? && fs.bc.Durable(file.block)
      ensures var w := Walk(old(View()), Components(path)); w.Missing? ==> (r < 0 <==> DirFull(old(View()), w.dir))
    {
      hide FsInv, DirsOk, Walk, IsEntry, IsName, DirAlloc, SetName, FilesAfter, SameBytes, Lookup, IsDir, DirFull;
      ghost var d := View();
      ghost var names := Components(path);
      ComponentsAreWords(path);
      WalkStays(d, fs.files, names);
      var w := WalkPath(path);
      match w {
        case Found(_, f) => return -E_FILE_EXISTS, f;
        case Failed(e) => WalkErrors(d, names); return e, ROOT;
        case Missing(dir, name) =>
          DirAllocCorrect(d, fs.files, dir);
          r, file := DirAllocFile(dir);
          if r < 0 {
            return -E_NOT_FOUND, ROOT;
          }
          CreateSucceeds(d, old(fs.files), names);
          CopyName(dir, file, name);
          WalkStays(View(), fs.files, names);
          EntryBlock(View(), fs.files, dir, file);
          fs.FileFlush(dir);
      }
    }

    /** `strcpy(f->f_name, name)` for an entry of a directory. */
    method CopyName(dir: FilePtr, f: FilePtr, name: Name)
      requires Ok() && dir in fs.files && IsDir(View(), dir) && IsEntry(View(), dir, f) && IsName(name)
      modifies fs.bc
      ensures fs.Valid() && View() == SetName(old(View()), f, name)
    {
      hide DirsOk, IsEntry, IsName, HasName, Splice, IsDir, InUse;
      EntryInFiles(View(), fs.files, dir, f);
      SetNameSound(View(), fs.files, f, name);
      InvHome(View(), fs.files, f);
      InUseInside(View(), f.block);
      var page := fs.bc.Read(f.block);
      fs.bc.Write(f.block, Splice(page, 4 * f.base, name + [0]));
    }

    /** file_remove, of regular files and of the root; with the root go the File
        structures in its blocks. */
    method FileRemovePath(path: seq<nat>) returns (r: int)
      requires Ok() && forall i :: 0 <= i < |path| ==> 0 < path[i] < 256
      requires var w := Walk(View(), Components(path)); w.Found? ==> (IsDir(View(), w.file) <==> w.file == ROOT)
      modifies fs.bc, fs`files
      ensures Ok() && View() == Remove(old(View()), Components(path)).disk
              && r == Remove(old(View()), Components(path)).r
      ensures match Walk(old(View()), Components(path))
              case Found(_, _) => r == 0
              case Missing(_, _) => r == -E_NOT_FOUND && View() == old(View())
              case Failed(e) => r == e < 0 && View() == old(View())
      ensures fs.files ==
              if Walk(old(View()), Components(path)) == Found(None, ROOT) then Outside(old(View()), old(fs.files), ROOT)
              else old(fs.files)
    {
      hide FsInv, DirsOk, Walk, IsEntry, IsName, RemoveFile, IsDir, HasName, Outside, Vacant;
      ghost var d := View();
      ghost var names := Components(path);
      ComponentsAreWords(path);
      WalkStays(d, fs.files, names);
      var w := WalkPath(path);
      match w {
        case Missing(_, _) => return -E_NOT_FOUND;
        case Failed(e) => WalkErrors(d, names); return e;
        case Found(parent, f) =>
          if parent == None {
            RemoveRootCorrect(d, fs.files);
            fs.files := Outside(d, fs.files, ROOT);
          } else {
            NotRoot(d, fs.files, parent.value, f);
            RemoveCorrect(d, fs.files, names);
            RegularVacant(d, fs.files, f);
          }
          fs.FileRemove(f);
          return 0;
      }
    }
  }

  lemma NotRoot(d: Disk, files: set<FilePtr>, dir: FilePtr, f: FilePtr)
    requires Tree(d, files) && dir in files && IsDir(d, dir) && IsEntry(d, dir, f)
    ensures f != ROOT
  {
    EntryOnce(d, files, dir, dir, f);
  }

  lemma CreatedWalk(d: Disk, files: set<FilePtr>, p: seq<Name>)
    requires Tree(d, files) && IsPath(p) && Create(d, p).r == 0
    ensures var m := Create(d, p);
            && Walk(m.disk, p).Found? && Walk(m.disk, p).file == m.file && p != [] && !IsDir(m.disk, m.file)
            && (forall q :: IsPath(q) && q != p && !GoesOn(p, q) ==> Walk(m.disk, q) == Walk(d, q))
  {
    hide Tree, FsInv, DirsOk, IsPath, FilesAfter, SameBytes, DirFull, IsDir, GoesOn, DirAlloc, SetName;
    CreateCorrect(d, files, p);
    WalkStays(d, files, p);
    if Walk(d, p).Failed? {
      WalkErrors(d, p);
    }
  }

  lemma WrittenPaths(d: Disk, d': Disk, files: set<FilePtr>, f: FilePtr, buf: seq<nat>, n: nat, exact: bool)
    requires Tree(d, files) && FsInv(d', files) && f in files && !IsDir(d, f)
    requires OthersKept(d, d', files, f) && WrittenUpTo(d, d', files, f, buf, 0, n, exact)
    ensures Tree(d', files) && forall q :: IsPath(q) ==> Walk(d', q) == Walk(d, q)
  {
    hide FsInv, Tree, IsPath, Walk, Raw, OthersKept, IsDir;
    DataKeepsPaths(d, d', files, f);
  }

  lemma ReadPaths(d: Disk, d': Disk, files: set<FilePtr>, f: FilePtr)
    requires Tree(d, files) && FsInv(d', files) && f in files && !IsDir(d, f)
    requires OthersKept(d, d', files, f) && SameContent(d, d', files)
    ensures Tree(d', files) && forall q :: IsPath(q) ==> Walk(d', q) == Walk(d, q)
  {
    hide FsInv, Tree, IsPath, Walk, Raw, OthersKept, IsDir;
    DataKeepsPaths(d, d', files, f);
  }

  /** What has been written can be read, and is what was written. */
  lemma ReadsBack(d: Disk, d': Disk, files: set<FilePtr>, f: FilePtr, buf: seq<nat>)
    requires f in files && !IsDir(d, f) && WrittenUpTo(d, d', files, f, buf, 0, |buf|, true)
             && Taken(d, d', f, 0, |buf|)
    ensures TransferBytes(d', f, 0, |buf|) == 0 && Clipped(Size(d', f), |buf|, 0) == |buf|
    ensures !IsDir(d', f) && |Content(d', f)| == Size(d', f) >= |buf| && Content(d', f)[..|buf|] == buf
  {
    hide WrittenUpTo, IsDir, Content, Allocated, SameOutside, Spare, TransferBytes, Size, Raw;
    WrittenReads(d, d', files, f, buf, 0);
    AllocatedTransfers(d', f, 0, |buf|, 0, |buf|);
    TransferInside(d', f, 0, |buf|);
  }

  /** What a client sees: a file that is created and written can be found by its
      path and read back, and no path but its own and those behind it leads
      anywhere else than before. */
  method CreateWriteOpenRead(space: NameSpace, path: seq<nat>, buf: seq<nat>)
    returns (made: int, written: int, found: int, read: int, bytes: seq<nat>)
    requires space.Ok() && |buf| < INT_LIMIT
    requires (forall i :: 0 <= i < |path| ==> 0 < path[i] < 256) && forall i :: 0 <= i < |buf| ==> buf[i] < 256
    modifies space.fs.bc, space.fs`files
    ensures made == 0 ==>
              && space.Ok()
              && (forall q :: IsPath(q) && q != Components(path) && !GoesOn(Components(path), q) ==>
                    Walk(space.View(), q) == Walk(old(space.View()), q))
              && (written >= 0 ==> found == 0 && read == |buf| && bytes == buf)
  {
    hide FsInv, DirsOk, Walk, IsPath, DirFull, IsDir, Content, WrittenUpTo, GoesOn, Taken, OthersKept, SameContent,
         TransferBytes, Create, Size;
    ghost var d, files, p := space.View(), space.fs.files, Components(path);
    ComponentsAreWords(path);
    written, found, read, bytes := -1, -1, -1, [];
    var file;
    made, file := space.FileCreate(path);
    if made != 0 {
      return;
    }
    ghost var d1 := space.View();
    CreatedWalk(d, files, p);
    WalkStays(d1, space.fs.files, p);
    written := space.fs.FileWrite(file, buf, 0);
    ghost var d2 := space.View();
    WrittenPaths(d1, d2, space.fs.files, file, buf, if written >= 0 then |buf| else 0, written >= 0);
    if written >= 0 {
      var again;
      found, again := space.FileOpen(path);
      ReadsBack(d1, d2, space.fs.files, file, buf);
      read, bytes := space.fs.FileRead(file, |buf|, 0);
      ReadPaths(d2, space.View(), space.fs.files, file);
    }
  }
}
