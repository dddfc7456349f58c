/** Disks on which the file system does what its comments do not say.  Every disk
    is made by fsformat and used through the operations of fs/fs.c. */
module FsExamples {
  import opened FsBytes
  import opened FsLayout
  import opened FsOps
  import opened FsResize
  import opened FsSpace
  import opened FsNames
  import opened FsDirs
  import opened FsFormat
  import opened Cache
  import opened Fs
  import opened FsPaths
  import opened Errors
  import opened Queue

  function Only(content: seq<nat>): seq<Source> { [Source([97], content)] }

  lemma OnlyFits(nblocks: nat, content: seq<nat>)
    requires |content| <= BLKSIZE && 6 <= nblocks + (if content == [] then 1 else 0)
    requires forall i :: 0 <= i < |content| ==> content[i] < 256
    ensures AreSources(Only(content)) && Fits(nblocks, Only(content))
    ensures First(Only(content), 0) == 3 && First(Only(content), 1) == (if content == [] then 3 else 4)
  {
    assert First(Only(content), 0) == 3;
    assert Blocks(|content|) == if content == [] then 0 else 1;
  }

  /** A fresh disk with one file `a`. */
  method OneFile(nblocks: nat, content: seq<nat>) returns (fs: FileSystem, f: FilePtr)
    requires |content| <= BLKSIZE && 6 <= nblocks + (if content == [] then 1 else 0) && nblocks <= 1024
    requires forall i :: 0 <= i < |content| ==> content[i] < 256
    ensures fresh(fs) && fresh(fs.bc) && fs.Valid() && f in fs.files
    ensures var d := fs.bc.View();
            && !IsDir(d, f) && Content(d, f) == content && Size(d, f) == |content|
            && (forall k :: 0 <= k < MAXBLOCKS ==> Target(d, Slot(f, k)) == if k < Blocks(|content|) then 3 else 0)
            && Target(d, Indirect(f)) == 0
            && (forall b :: b in FreeSet(d) <==> (if content == [] then 4 else 5) <= b < nblocks)
  {
    hide FsInv, IsDir, Content, Size, Target, FreeSet, Image, Fits, First, AreSources;
    var srcs := Only(content);
    OnlyFits(nblocks, content);
    var ok, image := Format(nblocks, srcs);
    var cache := new BlockCache(image);
    OnlyInv(image, nblocks, content);
    fs := new FileSystem(cache, ImageFiles(srcs));
    f := Ent(First(srcs, 1), 0);
  }

  lemma OnlyInv(d: Disk, nblocks: nat, content: seq<nat>)
    requires AreSources(Only(content)) && Image(d, nblocks, Only(content)) && |content| <= BLKSIZE
    requires First(Only(content), 0) == 3 && First(Only(content), 1) == (if content == [] then 3 else 4)
    ensures var srcs := Only(content); var f := Ent(First(srcs, 1), 0);
            && FsInv(d, ImageFiles(srcs)) && f in ImageFiles(srcs) && !IsDir(d, f) && Content(d, f) == content
            && Size(d, f) == |content|
            && (forall k :: 0 <= k < MAXBLOCKS ==> Target(d, Slot(f, k)) == if k < Blocks(|content|) then 3 else 0)
            && Target(d, Indirect(f)) == 0
            && (forall b :: b in FreeSet(d) <==> (if content == [] then 4 else 5) <= b < nblocks)
  {
    hide Word, First, AreSources, BitsFrom, IsBlock, HasName, DirectDone, DataDone, TableDone, FsInv, Target, Content,
         IsFree, ImageFiles;
    var srcs := Only(content);
    var f := Ent(First(srcs, 1), 0);
    ImageInv(d, nblocks, srcs);
    EntInImage(d, nblocks, srcs, 0);
    ImageContent(d, nblocks, srcs, 0);
    assert FileDone(d, f, srcs[0], 3);
    forall k | 0 <= k < MAXBLOCKS ensures Target(d, Slot(f, k)) == if k < Blocks(|content|) then 3 else 0 {
      DoneTargets(d, f, srcs[0], 3, k);
    }
    DoneTargets(d, f, srcs[0], 3, 0);
    forall b: nat ensures IsFree(d, b) <==> (if content == [] then 4 else 5) <= b < nblocks {
      ImageFree(d, nblocks, srcs, b);
    }
    ImageFree(d, nblocks, srcs, 0);
  }

  /** A read that is not inside the range just written can fail: the write takes the
      last free block, and the hole in front of it cannot be filled. */
  method FullDiskHole() returns (w: int, r: int)
    ensures w == 1 && r == -E_NO_DISK
  {
    hide FsInv, IsDir, Content, Size, Target, WrittenUpTo, Raw, IsFree;
    var fs, f := OneFile(5, []);
    ghost var d := fs.bc.View();
    assert EmptySlots(d, f, 1, 2) == {1} && FreeSet(d) == {4};
    var bytes;
    ghost var mid;
    w, r, bytes, mid := fs.WriteThenRead(f, [1], BLKSIZE, 1, 0);
    assert EmptySlots(mid, f, 0, 1) == {0};
  }

  lemma RegrownByte(d: Disk, files: set<FilePtr>, f: FilePtr)
    requires FsInv(d, files) && f in files && !IsDir(d, f) && Content(d, f) == [7, 8]
    ensures var d1 := SetSize(d, f, 1); var d2 := SetSize(d1, f, 2);
            && !IsDir(d1, f) && !IsDir(d2, f) && Size(d2, f) == 2 && |Content(d2, f)| == 2
            && Content(d2, f)[1..2] == [8]
            && TransferBytes(d2, f, 1, 1) == 0
  {
    hide FsInv, SetSize, Holes, FreeSet;
    assert Content(d, f)[1] == 8 == Raw(d, f, 1) && Size(d, f) == |Content(d, f)| == 2;
    RegrownTail(d, files, f, 1, 2);
    var d1 := SetSize(d, f, 1);
    RegularVacant(d, files, f);
    SetSizeCorrect(d, files, f, 1);
    assert Field(d1, f, F_TYPE) == Field(d, f, F_TYPE);
    RegularVacant(d1, files, f);
    SetSizeCorrect(d1, files, f, 2);
    var d2 := SetSize(d1, f, 2);
    assert Field(d2, f, F_TYPE) == Field(d1, f, F_TYPE);
    assert Raw(d2, f, 1) == 8;
    assert Target(d2, Slot(f, 0)) != 0;
    NoHoles(d2, f, 0, 1);
  }

  /** A gap need not read as zeros: shrinking and growing brings back old bytes. */
  method GapKeepsOldBytes() returns (r: int, bytes: seq<nat>)
    ensures r == 1 && bytes == [8]
  {
    hide FsInv, IsDir, Content, Size, Target, Raw, SetSize, TransferBytes;
    var fs, f := OneFile(6, [7, 8]);
    RegrownByte(fs.bc.View(), fs.files, f);
    RegularVacant(fs.bc.View(), fs.files, f);
    fs.FileSetSize(f, 1);
    RegularVacant(fs.bc.View(), fs.files, f);
    fs.FileSetSize(f, 2);
    r, bytes := fs.FileRead(f, 1, 1);
  }

  function Poke(b: Block, v: nat): Block
    requires b != []
  {
    b[0 := v]
  }

  /** Overwriting the first byte of a block that a file has. */
  lemma PokeKeeps(d: Disk, files: set<FilePtr>, f: FilePtr, v: nat)
    requires FsInv(d, files) && f in files && !IsDir(d, f) && Target(d, Slot(f, 0)) != 0 && v < 256
    ensures var t := Target(d, Slot(f, 0));
            && InUse(d, t) && t < |d| && IsBlock(d[t]) && t != f.block
            && d[t := Poke(d[t], v)] == WriteChunk(d, f, 0, 0, [v])
            && Sound(d, files) && Sound(WriteChunk(d, f, 0, 0, [v]), files)
            && FsInv(WriteChunk(d, f, 0, 0, [v]), files) && Size(WriteChunk(d, f, 0, 0, [v]), f) == Size(d, f)
            && Target(WriteChunk(d, f, 0, 0, [v]), Slot(f, 0)) == t
  {
    hide Word, Bit, Target, IsFree;
    var t := Target(d, Slot(f, 0));
    assert IsRef(files, Slot(f, 0));
    OwnedAccess(d, files, Slot(f, 0));
    DataApart(d, files, f, 0, f);
    WriteChunkCorrect(d, files, f, 0, 0, [v]);
    assert Splice(d[t], 0, [v]) == Poke(d[t], v);
  }

  /** file_flush of a file of 2^31 - 1 bytes leaves a written data block off the disk. */
  method FlushMisses() returns (fs: FileSystem, f: FilePtr)
    ensures fs.Valid() && f in fs.files && Size(fs.bc.View(), f) == 0x7fff_ffff
    ensures var t := Target(fs.bc.View(), Slot(f, 0)); t != 0 && !fs.bc.Durable(t)
  {
    hide FsInv, Sound, IsDir, Content, Size, Target, Raw, SetSize, WriteChunk, InUse, IsBlock, FreeSet, IsFree;
    fs, f := OneFile(6, [7]);
    ghost var d := fs.bc.View();
    GrownTargets(d, fs.files, f, 0x7fff_ffff);
    fs.FileSetSize(f, 0x7fff_ffff);
    ghost var d1 := fs.bc.View();
    PokeKeeps(d1, fs.files, f, 0);
    PokeKeeps(d1, fs.files, f, 1);
    var t := fs.ReadSlot(f, 0);
    var page := fs.bc.Read(t);
    BlockSize(page);
    var v := if fs.bc.disk[t] == Poke(page, 0) then 1 else 0;
    fs.bc.Write(t, Poke(page, v));
    assert Poke(page, 0)[0] == 0 && Poke(page, 1)[0] == 1;
    assert fs.bc.View()[t] == Poke(page, v) != fs.bc.disk[t];
    fs.FileFlush(f);
  }

  lemma GrownTargets(d: Disk, files: set<FilePtr>, f: FilePtr, size: nat)
    requires FsInv(d, files) && f in files && !IsDir(d, f) && Size(d, f) < size < INT_LIMIT
    ensures var d1 := SetSize(d, f, size);
            !IsDir(d1, f) && Size(d1, f) == size
              && forall k :: 0 <= k < MAXBLOCKS ==> Target(d1, Slot(f, k)) == Target(d, Slot(f, k))
  {
    hide FsInv, Target, Raw, PutAt;
    GrowSpare(d, files, f, 0, size);
    RegularVacant(d, files, f);
    SetSizeCorrect(d, files, f, size);
    assert Field(SetSize(d, f, size), f, F_TYPE) == Field(d, f, F_TYPE);
  }

  /** file_set_size takes a negative size and stores it. */
  method NegativeSize() returns (fs: FileSystem, f: FilePtr)
    ensures !fs.Valid() && fs.bc.Valid() && Size(fs.bc.View(), f) == WORD_LIMIT - 1
  {
    hide FsInv, IsDir, Content, Size, Target, SetSizeWord, FreeSet;
    fs, f := OneFile(6, [7]);
    RegularVacant(fs.bc.View(), fs.files, f);
    SetSizeWordCorrect(fs.bc.View(), fs.files, f, WORD_LIMIT - 1);
    fs.FileSetSize(f, WORD_LIMIT - 1);
  }

  // ---- Creating a file on a full disk ----

  /** Sixteen empty files, with names `a` to `p`. */
  function Sixteen(): seq<Source> { seq(16, e requires 0 <= e => Source([97 + e], [])) }

  lemma {:induction false} SixteenFirst(e: nat)
    requires e <= 16
    ensures First(Sixteen(), e) == 3
  {
    if e > 0 {
      SixteenFirst(e - 1);
    }
  }

  lemma SixteenFit()
    ensures AreSources(Sixteen()) && Fits(5, Sixteen()) && |Sixteen()| == 16 && First(Sixteen(), 16) == 3
    ensures forall e, k :: 0 <= e < k < 16 ==> Sixteen()[e].name != Sixteen()[k].name
  {
    hide First;
    SixteenFirst(16);
    assert forall e :: 0 <= e < 16 ==> Sixteen()[e] == Source([97 + e], []);
    forall e, k | 0 <= e < k < 16 ensures Sixteen()[e].name != Sixteen()[k].name {
      assert Sixteen()[e].name[0] != Sixteen()[k].name[0];
    }
  }

  /** Every entry of the root is taken, and block 4 is the only free one. */
  lemma SixteenImage(d: Disk)
    requires Image(d, 5, Sixteen())
    ensures Tree(d, ImageFiles(Sixteen()))
    ensures IsDir(d, ROOT) && DirBlocks(d, ROOT) == 1 && (forall b :: b in FreeSet(d) <==> b == 4)
    ensures forall g :: IsEntry(d, ROOT, g) ==> !Unused(d, g) && !HasName(d, g, [113])
  {
    hide First, Word, BitsFrom, IsBlock, FileDone, ZeroEntry, FsInv, IsFree, IsEntry, HasName, Unused, ImageFiles,
         DirsOk;
    var srcs := Sixteen();
    SixteenFit();
    ImageTree(d, 5, srcs);
    EntInImage(d, 5, srcs, 0);
    forall b: nat ensures IsFree(d, b) <==> 4 <= b < 5 {
      ImageFree(d, 5, srcs, b);
    }
    ImageFree(d, 5, srcs, 0);
    forall g | IsEntry(d, ROOT, g) ensures !Unused(d, g) && !HasName(d, g, [113]) {
      ImageEntries(d, 5, srcs, g);
      ImageNames(d, 5, srcs, g);
      ImageFile(srcs, g);
      var name := srcs[IndexOf(srcs, g)].name;
      NameUnique(d, g, name, name);
      assert name[0] != [113][0];
      if HasName(d, g, [113]) {
        NameUnique(d, g, name, [113]);
      }
    }
  }

  /** Taking the last free block of a disk leaves a full one with the same tree. */
  lemma LastBlock(d: Disk, files: set<FilePtr>)
    requires Tree(d, files) && DirBlocks(d, ROOT) == 1 && IsDir(d, ROOT) && (forall b :: b in FreeSet(d) <==> b == 4)
    requires forall g :: IsEntry(d, ROOT, g) ==> !Unused(d, g) && !HasName(d, g, [113])
    ensures var d' := AllocBlock(d).disk;
            Tree(d', files) && DirFull(d', ROOT) && Walk(d', [[113]]) == Missing(ROOT, [113])
  {
    hide FsInv, Sound, DirOk, IsFree, AllocBlock, IsEntry, HasName, Unused, Lookup, SameName, SameShape, Size, Shaped,
         Target;
    assert 4 in FreeSet(d);
    AllocatedTree(d, files);
    var d' := AllocBlock(d).disk;
    forall g | IsEntry(d', ROOT, g) ensures !Unused(d', g) && !HasName(d', g, [113]) {
      SameEntries(d, d', files, ROOT, g);
      EntryInFiles(d, files, ROOT, g);
      SameNames(d, d', g, [113]);
    }
    var found := Lookup(d', ROOT, [113]);
    if found.Some? {
      LookupIff(d', files, ROOT, [113], found.value);
    }
    OnePart(d');
    assert FreeSet(d') == {};
  }

  lemma OnePart(d: Disk)
    ensures Walk(d, [[113]]) == Next(d, Found(None, ROOT), [113])
  {
    hide Next;
    assert [[113]][..0] == [];
  }

  /** alloc_block changes no directory. */
  lemma AllocatedTree(d: Disk, files: set<FilePtr>)
    requires Tree(d, files) && FreeSet(d) != {}
    ensures var o := AllocBlock(d);
            && Tree(o.disk, files) && SameShape(d, o.disk, files) && FreeSet(o.disk) == FreeSet(d) - {o.r}
            && o.r in FreeSet(d)
            && (forall g :: g in files ==>
                  SameName(d, o.disk, g) && (IsDir(o.disk, g) <==> IsDir(d, g)) && Size(o.disk, g) == Size(d, g))
  {
    hide Sound, SlotsFit, DirsOk, IsFree, AllocBlock, Target, Shaped, Size, SameMeta;
    AllocBlockCorrect(d, files);
    var o := AllocBlock(d);
    FreeIsIn(d, o.r);
    KeepFits(d, o.disk, files);
    forall g | g in files
      ensures SameName(d, o.disk, g) && (IsDir(o.disk, g) <==> IsDir(d, g)) && Size(o.disk, g) == Size(d, g)
    {
      MetaOf(d, o.disk, files, g);
    }
    forall g, i | g in files && 0 <= i < MAXBLOCKS ensures Target(o.disk, Slot(g, i)) == Target(d, Slot(g, i)) {
      assert IsRef(files, Slot(g, i));
    }
    ShapeKeepsTree(d, o.disk, files);
  }

  lemma FreeIsIn(d: Disk, b: nat)
    requires IsFree(d, b)
    ensures b in FreeSet(d)
  {
  }

  lemma MetaOf(d: Disk, d': Disk, files: set<FilePtr>, g: FilePtr)
    requires SameMeta(d, d', files) && g in files
    ensures SameName(d, d', g) && (IsDir(d', g) <==> IsDir(d, g)) && Size(d', g) == Size(d, g)
  {
    assert Field(d', g, F_TYPE) == Field(d, g, F_TYPE) && Field(d', g, F_SIZE) == Field(d, g, F_SIZE);
  }

  /** A disk without a free block whose root has no unused entry. */
  method FullRoot() returns (space: NameSpace)
    ensures fresh(space) && fresh(space.fs) && fresh(space.fs.bc) && space.Ok()
    ensures DirFull(space.View(), ROOT) && Walk(space.View(), [[113]]) == Missing(ROOT, [113])
  {
    hide Image, Sound, SlotsFit, DirsOk, DirFull, IsEntry, AllocBlock, Walk, ImageFiles, AreSources, Fits, FreeSet,
         Unused, HasName, IsDir, DirBlocks, Content, First, Sixteen;
    var srcs := Sixteen();
    SixteenFit();
    var ok, image := Format(5, srcs);
    SixteenImage(image);
    var cache := new BlockCache(image);
    var fs := new FileSystem(cache, ImageFiles(srcs));
    LastBlock(image, fs.files);
    var last := fs.TakeBlock();
    space := new NameSpace(fs);
  }

  lemma Parsed()
    ensures Components([113]) == [[113]]
  {
    assert [113][..1] == [113] && [113][1..] == [];
  }

  /** file_create finds no space for a longer directory and leaves it with a hole. */
  method CreateOnFullDisk() returns (r: int, space: NameSpace)
    ensures space.fs.Valid() && r == -E_NOT_FOUND && !DirsOk(space.View(), space.fs.files)
  {
    hide FsInv, DirsOk, DirFull, Walk, Components, IsPath, Create, FilesAfter, SameBytes, GoesOn;
    space := FullRoot();
    Parsed();
    assert IsPath([[113]]) by { ComponentsAreWords([113]); }
    CreateCorrect(space.View(), space.fs.files, [[113]]);
    var file;
    r, file := space.FileCreate([113]);
  }
}
