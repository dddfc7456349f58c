/** The operations of fs/fs.c on the content of the disk, and what they mean. */
module FsOps {
  import opened FsBytes
  import opened FsLayout
  import opened Errors

  /** The disk afterwards, and the return value. */
  datatype Out = Out(disk: Disk, r: int)

  // ---- Allocation ----

  /** The first free block from `b` on; NBlocks if there is none. */
  function FirstFree(d: Disk, b: nat): nat
    decreases NBlocks(d) - b
  {
    if b >= NBlocks(d) then NBlocks(d) else if IsFree(d, b) then b else FirstFree(d, b + 1)
  }

  lemma {:induction false} FirstFreeCorrect(d: Disk, b: nat)
    requires b <= NBlocks(d)
    ensures var x := FirstFree(d, b);
            && b <= x <= NBlocks(d) && (x < NBlocks(d) ==> IsFree(d, x))
            && (forall y :: b <= y < x ==> !IsFree(d, y))
    decreases NBlocks(d) - b
  {
    hide IsFree, NBlocks;
    if b < NBlocks(d) && !IsFree(d, b) {
      FirstFreeCorrect(d, b + 1);
    }
  }

  /** alloc_block. */
  function AllocBlock(d: Disk): Out {
    var b := FirstFree(d, 0);
    if b < NBlocks(d) then Out(MarkUsed(d, b), b) else Out(d, -E_NO_DISK)
  }

  /** alloc_block, and the block cleared. */
  function AllocCleared(d: Disk): Out {
    var o := AllocBlock(d);
    if o.r < 0 || o.r >= |o.disk| then o else Out(o.disk[o.r := ZeroBlock()], o.r)
  }

  /** A block in use that belongs to nobody. */
  ghost predicate Unowned(d: Disk, files: set<FilePtr>, b: nat) {
    && Reserved(d) <= b < |d| && !IsFree(d, b)
    && (forall f :: f in files ==> f.block != b)
    && (forall r :: IsRef(files, r) ==> Target(d, r) != b)
  }

  /** All free blocks. */
  ghost function FreeSet(d: Disk): set<nat> {
    set b | 0 <= b < NBlocks(d) && IsFree(d, b)
  }

  /** A changed bitmap does not hurt as long as no block that matters is freed. */
  lemma BitmapKeepsSound(d: Disk, d': Disk, files: set<FilePtr>, b: nat)
    requires Sound(d, files) && NBlocks(d') == NBlocks(d) && Shaped(d')
    requires SameMeta(d, d', files) && SameTargets(d, d', files, {})
    requires forall x :: IsFree(d', x) ==> IsFree(d, x) || x == b
    requires b < Reserved(d) || IsFree(d, b) || Unowned(d, files, b)
    requires b < Reserved(d) ==> !IsFree(d', b)
    ensures Sound(d', files)
  {
  }

  lemma AllocBlockCorrect(d: Disk, files: set<FilePtr>)
    requires Sound(d, files)
    ensures var o := AllocBlock(d);
            if FreeSet(d) == {} then o == Out(d, -E_NO_DISK)
            else
              && 0 <= o.r < |d| && IsFree(d, o.r) && Sound(o.disk, files) && Unowned(o.disk, files, o.r)
              && NBlocks(o.disk) == NBlocks(d) && (forall x :: 0 <= x < o.r ==> !IsFree(d, x))
              && SameMeta(d, o.disk, files) && SameData(d, o.disk, files) && SameTargets(d, o.disk, files, {})
              && (forall x :: IsFree(o.disk, x) <==> IsFree(d, x) && x != o.r)
  {
    hide IsFree, SameData, SameMeta, Shaped;
    var b := FirstFree(d, 0);
    FirstFreeCorrect(d, 0);
    if b < NBlocks(d) {
      assert b in FreeSet(d);
      MarkUsedCorrect(d, files, b);
      BitmapKeepsSound(d, MarkUsed(d, b), files, b);
      FreeIsUnowned(d, files, b);
    }
  }

  lemma FreeIsUnowned(d: Disk, files: set<FilePtr>, b: nat)
    requires Sound(d, files) && IsFree(d, b)
    ensures Reserved(d) <= b < |d|
    ensures forall f :: f in files ==> f.block != b
    ensures forall r :: IsRef(files, r) ==> Target(d, r) != b
  {
    hide Bit;
  }

  lemma AllocClearedCorrect(d: Disk, files: set<FilePtr>)
    requires Sound(d, files)
    ensures var o := AllocCleared(d);
            if FreeSet(d) == {} then o == Out(d, -E_NO_DISK)
            else
              && 0 <= o.r < |o.disk| && IsFree(d, o.r) && Sound(o.disk, files) && Unowned(o.disk, files, o.r)
              && o.disk[o.r] == ZeroBlock() && NBlocks(o.disk) == NBlocks(d)
              && SameMeta(d, o.disk, files) && SameData(d, o.disk, files) && SameTargets(d, o.disk, files, {})
              && (forall x :: IsFree(o.disk, x) <==> IsFree(d, x) && x != o.r)
  {
    hide IsFree, Shaped, Unowned;
    AllocBlockCorrect(d, files);
    var o := AllocBlock(d);
    if o.r >= 0 {
      ClearUnowned(o.disk, files, o.r);
      SameDataChain(d, o.disk, AllocCleared(d).disk, files);
    }
  }

  /** Clearing a block nobody owns disturbs nothing. */
  lemma ClearUnowned(d: Disk, files: set<FilePtr>, b: nat)
    requires Sound(d, files) && Unowned(d, files, b)
    ensures b < |d|
    ensures var d' := d[b := ZeroBlock()];
            && Sound(d', files) && Unowned(d', files, b) && SameBitmap(d, d')
            && SameMeta(d, d', files) && SameData(d, d', files) && SameTargets(d, d', files, {})
  {
    hide IsFree, Word;
    var d' := d[b := ZeroBlock()];
    forall f | f in files ensures b != f.block && b != Target(d, Indirect(f)) {
      assert IsRef(files, Indirect(f));
    }
    StoreBlock(d, files, b, ZeroBlock());
    BitmapKeepsSound(d, d', files, b);
    assert forall g, n: nat :: g in files && n < MAXBLOCKS ==> IsRef(files, Slot(g, n));
  }

  lemma SameDataChain(d: Disk, d1: Disk, d2: Disk, files: set<FilePtr>)
    requires SameData(d, d1, files) && SameTargets(d, d1, files, {}) && SameMeta(d, d1, files)
    requires SameData(d1, d2, files)
    ensures SameData(d, d2, files)
  {
    forall g, n: nat | g in files && !IsDir(d, g) && n < MAXBLOCKS && Target(d, Slot(g, n)) != 0
      ensures BlockAt(d2, Target(d, Slot(g, n))) == BlockAt(d, Target(d, Slot(g, n)))
    {
      assert IsRef(files, Slot(g, n));
      assert Field(d1, g, F_TYPE) == Field(d, g, F_TYPE);
    }
  }

  // ---- Block pointers ----

  /** `*ppdiskbno = t` for the slot that file_block_walk has found. */
  function SetSlot(d: Disk, f: FilePtr, n: nat, t: nat): Disk {
    if n < NDIRECT then PutAt(d, f.block, f.base + (F_DIRECT + n), t)
    else PutAt(d, Target(d, Indirect(f)), n - NDIRECT, t)
  }

  lemma SetSlotCorrect(d: Disk, files: set<FilePtr>, f: FilePtr, n: nat, t: nat)
    requires Sound(d, files) && f in files && n < MAXBLOCKS && t < WORD_LIMIT
    requires n >= NDIRECT ==> Target(d, Indirect(f)) != 0
    ensures var d' := SetSlot(d, f, n, t);
            && SameBitmap(d, d') && Shaped(d') && SameMeta(d, d', files) && SameData(d, d', files)
            && SameTargets(d, d', files, {Slot(f, n)}) && Target(d', Slot(f, n)) == t
  {
    hide Sound, SameBitmap, Shaped, SameMeta, SameData, SameTargets, Target;
    if n < NDIRECT {
      StoreDirect(d, files, f, n, t);
    } else {
      StoreTable(d, files, f, n, t);
    }
  }

  /** Hooking an unowned block into an empty place keeps every file sound. */
  lemma AttachKeepsSound(d: Disk, d': Disk, files: set<FilePtr>, r: Ref, b: nat)
    requires Sound(d, files) && Unowned(d, files, b) && IsRef(files, r) && Target(d, r) == 0 && b != 0
    requires SameBitmap(d, d') && Shaped(d') && SameMeta(d, d', files)
    requires SameTargets(d, d', files, {r}) && Target(d', r) == b
    ensures Sound(d', files)
  {
    hide IsFree, Word;
  }

  /** file_block_walk: 0, or why there is no slot. */
  function BlockWalk(d: Disk, f: FilePtr, n: nat, alloc: bool): Out {
    if n >= MAXBLOCKS then Out(d, -E_INVAL)
    else if n < NDIRECT || Target(d, Indirect(f)) != 0 then Out(d, 0)
    else if !alloc then Out(d, -E_NOT_FOUND)
    else
      var o := AllocCleared(d);
      if o.r < 0 then o else Out(PutAt(o.disk, f.block, f.base + F_INDIRECT, o.r), 0)
  }

  /** file_get_block: the number of the block, or an error. */
  function GetBlock(d: Disk, f: FilePtr, n: nat): Out {
    var w := BlockWalk(d, f, n, true);
    if w.r < 0 then w
    else if Target(w.disk, Slot(f, n)) != 0 then Out(w.disk, Target(w.disk, Slot(f, n)))
    else
      var o := AllocCleared(w.disk);
      if o.r < 0 then o else Out(SetSlot(o.disk, f, n, o.r), o.r)
  }

  /** Nothing that can be read has changed: neither the bytes of a regular file,
      nor any size, type or name. */
  ghost predicate SameContent(d: Disk, d': Disk, files: set<FilePtr>) {
    && SameMeta(d, d', files)
    && forall g, pos: nat :: g in files && !IsDir(d, g) && pos < MAXBLOCKS * BLKSIZE ==>
          Raw(d', g, pos) == Raw(d, g, pos)
  }

  /** Every other file keeps its block numbers. */
  ghost predicate OthersKept(d: Disk, d': Disk, files: set<FilePtr>, f: FilePtr) {
    forall r :: IsRef(files, r) && r.f != f ==> Target(d', r) == Target(d, r)
  }

  lemma OthersChain(d: Disk, d1: Disk, d2: Disk, files: set<FilePtr>, f: FilePtr, rs: set<Ref>)
    requires OthersKept(d, d1, files, f) && SameTargets(d1, d2, files, rs) && forall r :: r in rs ==> r.f == f
    ensures OthersKept(d, d2, files, f)
  {
    hide Target;
  }

  lemma SameContentChain(d: Disk, d1: Disk, d2: Disk, files: set<FilePtr>)
    requires SameContent(d, d1, files) && SameContent(d1, d2, files)
    ensures SameContent(d, d2, files)
  {
    hide Raw;
    assert forall g :: g in files ==> Field(d1, g, F_TYPE) == Field(d, g, F_TYPE);
  }

  /** Same pointers to the same blocks: same content. */
  lemma ContentFrame(d: Disk, d': Disk, files: set<FilePtr>)
    requires Sound(d, files) && |d'| == |d| && SameTargets(d, d', files, {}) && SameMeta(d, d', files)
    requires SameData(d, d', files)
    ensures SameContent(d, d', files)
  {
    forall g, pos: nat | g in files && !IsDir(d, g) && pos < MAXBLOCKS * BLKSIZE
      ensures Raw(d', g, pos) == Raw(d, g, pos)
    {
      var n := pos / BLKSIZE;
      assert n < MAXBLOCKS && IsRef(files, Slot(g, n));
      if Target(d, Slot(g, n)) != 0 {
        assert BlockAt(d', Target(d, Slot(g, n))) == BlockAt(d, Target(d, Slot(g, n)));
      }
    }
  }

  /** Filling a hole with a cleared block: the file reads as before. */
  lemma ContentAttach(d: Disk, d': Disk, files: set<FilePtr>, f: FilePtr, n: nat, b: nat)
    requires Sound(d, files) && |d'| == |d| && SameTargets(d, d', files, {Slot(f, n)})
    requires SameMeta(d, d', files) && SameData(d, d', files)
    requires Target(d, Slot(f, n)) == 0 && Target(d', Slot(f, n)) == b < |d'| && d'[b] == ZeroBlock()
    ensures SameContent(d, d', files)
  {
    forall g, pos: nat | g in files && !IsDir(d, g) && pos < MAXBLOCKS * BLKSIZE
      ensures Raw(d', g, pos) == Raw(d, g, pos)
    {
      var m := pos / BLKSIZE;
      assert m < MAXBLOCKS && IsRef(files, Slot(g, m));
      if Target(d, Slot(g, m)) != 0 {
        assert BlockAt(d', Target(d, Slot(g, m))) == BlockAt(d, Target(d, Slot(g, m)));
      }
    }
  }

  /** The relation every pointer operation satisfies: sound, same content, and
      only blocks that were free have been taken. */
  ghost predicate Extends(d: Disk, d': Disk, files: set<FilePtr>) {
    && Sound(d', files) && |d'| == |d| && NBlocks(d') == NBlocks(d) && SameContent(d, d', files)
    && (forall x :: IsFree(d', x) ==> IsFree(d, x))
  }

  lemma ExtendsChain(d: Disk, d1: Disk, d2: Disk, files: set<FilePtr>)
    requires Extends(d, d1, files) && Extends(d1, d2, files)
    ensures Extends(d, d2, files)
  {
    hide IsFree, SameContent, Sound;
    SameContentChain(d, d1, d2, files);
  }

  lemma AllocClearedExtends(d: Disk, files: set<FilePtr>)
    requires Sound(d, files)
    ensures Extends(d, AllocCleared(d).disk, files)
  {
    hide IsFree, AllocCleared;
    AllocClearedCorrect(d, files);
    ContentFrame(d, AllocCleared(d).disk, files);
  }

  lemma WalkCorrect(d: Disk, files: set<FilePtr>, f: FilePtr, n: nat)
    requires Sound(d, files) && f in files && n < MAXBLOCKS
    ensures var o := BlockWalk(d, f, n, true);
            && Extends(d, o.disk, files) && SameTargets(d, o.disk, files, {Indirect(f)})
            && (if n >= NDIRECT && Target(d, Indirect(f)) == 0 && FreeSet(d) == {}
                then o == Out(d, -E_NO_DISK) && Target(d, Slot(f, n)) == 0
                else o.r == 0 && (n >= NDIRECT ==> Target(o.disk, Indirect(f)) != 0))
    ensures BlockWalk(d, f, n, false) ==
            Out(d, if n >= NDIRECT && Target(d, Indirect(f)) == 0 then -E_NOT_FOUND else 0)
  {
    hide IsFree, AllocCleared, Extends, Sound, SameContent, SameMeta, SameData, Shaped, Unowned, PutAt, WordAt;
    if n >= NDIRECT && Target(d, Indirect(f)) == 0 {
      AllocClearedCorrect(d, files);
      AllocClearedExtends(d, files);
      if FreeSet(d) != {} {
        var o := AllocCleared(d);
        assert IsRef(files, Indirect(f));
        HookIndirect(o.disk, files, f, o.r);
        ExtendsChain(d, o.disk, BlockWalk(d, f, n, true).disk, files);
      }
    } else {
      ExtendsRefl(d, files);
    }
  }

  /** Past the largest file there is no slot. */
  lemma NoSlotTooFar(d: Disk, f: FilePtr, n: nat, alloc: bool)
    requires n >= NDIRECT + NINDIRECT
    ensures BlockWalk(d, f, n, alloc) == Out(d, -E_INVAL) && GetBlock(d, f, n) == Out(d, -E_INVAL)
  {
  }

  lemma ExtendsRefl(d: Disk, files: set<FilePtr>)
    requires Sound(d, files)
    ensures Extends(d, d, files)
  {
  }

  /** A cleared block becomes the indirect block. */
  lemma HookIndirect(d: Disk, files: set<FilePtr>, f: FilePtr, b: nat)
    requires Sound(d, files) && f in files && Unowned(d, files, b) && d[b] == ZeroBlock() && Target(d, Indirect(f)) == 0
    ensures var d' := PutAt(d, f.block, f.base + F_INDIRECT, b);
            && Extends(d, d', files) && SameTargets(d, d', files, {Indirect(f)}) && Target(d', Indirect(f)) == b != 0
  {
    hide IsFree, SameContent, SameMeta, SameData, Word;
    var d' := PutAt(d, f.block, f.base + F_INDIRECT, b);
    StoreIndirect(d, files, f, b);
    ZeroWords();
    forall r | IsRef(files, r) && r != Indirect(f) ensures Target(d', r) == Target(d, r) {
    }
    AttachKeepsSound(d, d', files, Indirect(f), b);
    HookContent(d, d', files, f);
  }

  lemma HookContent(d: Disk, d': Disk, files: set<FilePtr>, f: FilePtr)
    requires Sound(d, files) && |d'| == |d| && SameTargets(d, d', files, {Indirect(f)})
    requires SameMeta(d, d', files) && SameData(d, d', files)
    ensures SameContent(d, d', files)
  {
    hide Target, Sound, IsDir;
    forall g, pos: nat | g in files && !IsDir(d, g) && pos < MAXBLOCKS * BLKSIZE
      ensures Raw(d', g, pos) == Raw(d, g, pos)
    {
      var n := pos / BLKSIZE;
      assert n < MAXBLOCKS && IsRef(files, Slot(g, n));
      if Target(d, Slot(g, n)) != 0 {
        assert BlockAt(d', Target(d, Slot(g, n))) == BlockAt(d, Target(d, Slot(g, n)));
      }
    }
  }

  /** A cleared block fills a hole. */
  lemma HookSlot(d: Disk, files: set<FilePtr>, f: FilePtr, n: nat, b: nat)
    requires Sound(d, files) && f in files && n < MAXBLOCKS && Unowned(d, files, b) && d[b] == ZeroBlock()
    requires Target(d, Slot(f, n)) == 0 && (n >= NDIRECT ==> Target(d, Indirect(f)) != 0)
    ensures var d' := SetSlot(d, f, n, b);
            && Extends(d, d', files) && SameTargets(d, d', files, {Slot(f, n)}) && Target(d', Slot(f, n)) == b != 0
  {
    hide IsFree, SameContent, SameMeta, SameData, Word;
    var d' := SetSlot(d, f, n, b);
    SetSlotCorrect(d, files, f, n, b);
    assert IsRef(files, Slot(f, n)) && IsRef(files, Indirect(f));
    AttachKeepsSound(d, d', files, Slot(f, n), b);
    assert d'[b] == d[b];
    ContentAttach(d, d', files, f, n, b);
  }

  /** file_get_block never changes what can be read, never leaves the files
      unsound, and fails only for want of space or past the largest file. */
  lemma GetBlockCorrect(d: Disk, files: set<FilePtr>, f: FilePtr, n: nat)
    requires FsInv(d, files) && f in files && n < Blocks(Size(d, f))
    ensures var o := GetBlock(d, f, n);
            && FsInv(o.disk, files) && Extends(d, o.disk, files)
            && (o.r < 0 ==> (o.r == -E_INVAL && n >= MAXBLOCKS && o.disk == d)
                            || (o.r == -E_NO_DISK && n < MAXBLOCKS && FreeSet(o.disk) == {}
                                  && Target(d, Slot(f, n)) == 0))
            && (o.r >= 0 ==> n < MAXBLOCKS && o.r == Target(o.disk, Slot(f, n)) != 0)
            && SameTargets(d, o.disk, files, {Indirect(f), Slot(f, n)})
  {
    hide IsFree, AllocCleared, Extends, Sound, SameContent, SameData, Shaped, Unowned, BlockWalk, SetSlot, Target;
    if n >= MAXBLOCKS {
      WalkTooFar(d, f, n);
      ExtendsRefl(d, files);
    } else {
      WalkCorrect(d, files, f, n);
      var w := BlockWalk(d, f, n, true);
      ExtendsSound(d, w.disk, files);
      assert IsRef(files, Slot(f, n)) && IsRef(files, Indirect(f));
      if w.r >= 0 && Target(w.disk, Slot(f, n)) == 0 {
        AllocClearedCorrect(w.disk, files);
        AllocClearedExtends(w.disk, files);
        var o := AllocCleared(w.disk);
        ExtendsChain(d, w.disk, o.disk, files);
        if o.r >= 0 {
          HookSlot(o.disk, files, f, n, o.r);
          ExtendsChain(d, o.disk, GetBlock(d, f, n).disk, files);
        }
      }
    }
    GetBlockFits(d, GetBlock(d, f, n).disk, files, f, n);
  }

  lemma WalkTooFar(d: Disk, f: FilePtr, n: nat)
    requires n >= MAXBLOCKS
    ensures BlockWalk(d, f, n, true) == Out(d, -E_INVAL)
  {
  }

  lemma ExtendsSound(d: Disk, d': Disk, files: set<FilePtr>)
    requires Extends(d, d', files)
    ensures Sound(d', files)
  {
  }

  lemma GetBlockFits(d: Disk, d': Disk, files: set<FilePtr>, f: FilePtr, n: nat)
    requires FsInv(d, files) && Extends(d, d', files) && SameTargets(d, d', files, {Indirect(f), Slot(f, n)})
    requires n < Blocks(Size(d, f))
    ensures FsInv(d', files)
  {
    hide Sound, Raw, Target, IsFree;
    forall g, m | g in files && Blocks(Size(d', g)) <= m < MAXBLOCKS ensures Target(d', Slot(g, m)) == 0 {
      assert IsRef(files, Slot(g, m));
      assert Size(d', g) == Size(d, g);
    }
  }
}
