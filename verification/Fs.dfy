/** The file operations of fs/fs.c over the block cache, in place. */
module Fs {
  import opened FsBytes
  import opened FsLayout
  import opened FsOps
  import opened FsResize
  import opened FsSpace
  import opened Cache
  import opened Errors

  lemma SuperAccess(d: Disk, files: set<FilePtr>, b: nat)
    requires Sound(d, files)
    ensures InUse(d, 1) && InUse(d, 2) && (b < NBlocks(d) ==> InUse(d, 2 + b / BLKBITSIZE)) && 2 < |d|
  {
    hide Word, Bit;
    ReservedAccess(d, files, 1);
    assert NBlocks(d) > 0 && Reserved(d) > 2;
  }

  lemma AllocBlockSize(d: Disk)
    ensures |AllocBlock(d).disk| == |d|
  {
  }

  lemma TakenAccess(d: Disk, files: set<FilePtr>, b: nat)
    requires Sound(d, files) && Unowned(d, files, b)
    ensures InUse(d, b)
  {
  }

  lemma WalkPastEnd(d: Disk, f: FilePtr, n: nat)
    ensures BlockWalk(d, f, n, true).r >= 0 ==> n < MAXBLOCKS
  {
  }

  /** The places of a file can be written after other blocks were taken. */
  lemma SlotAccess(d: Disk, d': Disk, files: set<FilePtr>, f: FilePtr, n: nat)
    requires Sound(d', files) && f in files && SameTargets(d, d', files, {})
    requires n >= NDIRECT ==> Target(d, Indirect(f)) != 0
    ensures InUse(d', f.block)
    ensures n >= NDIRECT ==> InUse(d', Target(d', Indirect(f)))
  {
    hide Word, Bit;
    HomeAccess(d', files, f);
    assert IsRef(files, Indirect(f));
    if n >= NDIRECT {
      OwnedAccess(d', files, Indirect(f));
    }
  }

  lemma SameContentRefl(d: Disk, files: set<FilePtr>)
    ensures SameContent(d, d, files)
  {
  }

  lemma MetaKept(d: Disk, d': Disk, files: set<FilePtr>, f: FilePtr)
    requires SameContent(d, d', files) && f in files
    ensures Size(d', f) == Size(d, f) && (IsDir(d', f) <==> IsDir(d, f))
  {
  }

  lemma BlockIsData(d: Disk, files: set<FilePtr>, f: FilePtr, n: nat)
    requires Sound(d, files) && f in files && n < MAXBLOCKS && Target(d, Slot(f, n)) != 0
    ensures InUse(d, Target(d, Slot(f, n))) && |d[Target(d, Slot(f, n))]| == BLKSIZE
  {
    hide Word, Bit, Target;
    assert IsRef(files, Slot(f, n));
    OwnedAccess(d, files, Slot(f, n));
  }

  /** One turn of the reading loop appends the next bytes of the content. */
  lemma ChunkRead(d: Disk, d1: Disk, files: set<FilePtr>, f: FilePtr, pos: nat, bn: nat, page: Block)
    requires Sound(d1, files) && SameContent(d, d1, files) && f in files && !IsDir(d, f) && pos / BLKSIZE < MAXBLOCKS
    requires Target(d1, Slot(f, pos / BLKSIZE)) != 0 && Target(d1, Slot(f, pos / BLKSIZE)) < |d1|
    requires page == d1[Target(d1, Slot(f, pos / BLKSIZE))] && |page| == BLKSIZE
    requires 0 < bn <= BLKSIZE - pos % BLKSIZE && pos + bn <= Size(d, f)
    ensures page[pos % BLKSIZE..pos % BLKSIZE + bn] == Content(d, f)[pos..pos + bn]
  {
    hide Sound, Target, Word, Raw, IsBlock, Size, SameContent, IsDir;
    var a, b := page[pos % BLKSIZE..pos % BLKSIZE + bn], Content(d, f)[pos..pos + bn];
    assert |a| == |b| == bn;
    forall i | 0 <= i < bn ensures a[i] == b[i] {
      SameBlock(pos, i);
      RawByte(d1, f, pos + i, page);
      RawKept(d, d1, files, f, pos + i);
    }
  }

  lemma SameBlock(pos: nat, i: nat)
    requires i < BLKSIZE - pos % BLKSIZE
    ensures (pos + i) / BLKSIZE == pos / BLKSIZE && (pos + i) % BLKSIZE == pos % BLKSIZE + i
  {
  }

  lemma RawByte(d: Disk, f: FilePtr, pos: nat, page: Block)
    requires var t := Target(d, Slot(f, pos / BLKSIZE)); t != 0 && t < |d| && page == d[t]
    requires |page| == BLKSIZE
    ensures Raw(d, f, pos) == page[pos % BLKSIZE]
  {
    hide Target;
  }

  lemma RawKept(d: Disk, d1: Disk, files: set<FilePtr>, f: FilePtr, pos: nat)
    requires SameContent(d, d1, files) && f in files && !IsDir(d, f) && pos / BLKSIZE < MAXBLOCKS
    ensures Raw(d1, f, pos) == Raw(d, f, pos)
  {
    hide Raw;
  }

  lemma InvSound(d: Disk, files: set<FilePtr>)
    requires FsInv(d, files)
    ensures Sound(d, files)
  {
  }

  /** `n` bytes of `buf` have been written at `offset`, and the file is long
      enough for all of them; nobody else reads anything different.  Without
      `exact`, any part of the range may have been written. */
  ghost predicate WrittenUpTo(d: Disk, d': Disk, files: set<FilePtr>, f: FilePtr, buf: seq<nat>, offset: nat, n: nat,
      exact: bool)
  {
    && n <= |buf|
    && Size(d', f) == (if offset + |buf| > Size(d, f) then offset + |buf| else Size(d, f))
    && (forall g, j: nat :: g in files && j < F_DIRECT && !(g == f && j == F_SIZE) ==>
          Field(d', g, j) == Field(d, g, j))
    && (forall g, pos: nat :: g in files && !IsDir(d, g) && pos < MAXBLOCKS * BLKSIZE ==>
          if g == f && offset <= pos < offset + n then Raw(d', g, pos) == buf[pos - offset]
          else if g == f && !exact && offset <= pos < offset + |buf|
            then Raw(d', g, pos) in [Raw(d, g, pos), buf[pos - offset]]
          else Raw(d', g, pos) == Raw(d, g, pos))
  }

  /** Making room writes nothing. */
  lemma Extended(d: Disk, d1: Disk, files: set<FilePtr>, f: FilePtr, buf: seq<nat>, offset: nat)
    requires FsInv(d, files) && f in files && !IsDir(d, f) && offset + |buf| < INT_LIMIT
    requires d1 == if offset + |buf| > Size(d, f) then SetSize(d, f, offset + |buf|) else d
    ensures WrittenUpTo(d, d1, files, f, buf, offset, 0, true)
  {
    hide Sound, SlotsFit, IsFree, Raw, SetSize, Surplus;
    if offset + |buf| > Size(d, f) {
      RegularVacant(d, files, f);
      SetSizeCorrect(d, files, f, offset + |buf|);
    }
  }

  lemma WrittenSize(d: Disk, d1: Disk, files: set<FilePtr>, f: FilePtr, buf: seq<nat>, offset: nat, n: nat)
    requires f in files && WrittenUpTo(d, d1, files, f, buf, offset, n, true)
    ensures Size(d1, f) >= offset + |buf| && (IsDir(d1, f) <==> IsDir(d, f))
  {
    hide Raw;
  }

  lemma WrittenSame(d: Disk, d0: Disk, d1: Disk, files: set<FilePtr>, f: FilePtr, buf: seq<nat>, offset: nat, n: nat)
    requires f in files && WrittenUpTo(d, d0, files, f, buf, offset, n, true) && SameContent(d0, d1, files)
    ensures WrittenUpTo(d, d1, files, f, buf, offset, n, true)
  {
    hide Raw;
    forall g | g in files ensures IsDir(d0, g) == IsDir(d, g) {
    }
  }

  lemma WrittenPart(d: Disk, d1: Disk, files: set<FilePtr>, f: FilePtr, buf: seq<nat>, offset: nat, n: nat)
    requires WrittenUpTo(d, d1, files, f, buf, offset, n, true)
    ensures WrittenUpTo(d, d1, files, f, buf, offset, 0, false)
  {
    hide Raw;
  }

  lemma WrittenChunk(d: Disk, d1: Disk, d2: Disk, files: set<FilePtr>, f: FilePtr, buf: seq<nat>, offset: nat, pos: nat,
      bn: nat)
    requires f in files && offset <= pos && bn <= offset + |buf| - pos && pos % BLKSIZE + bn <= BLKSIZE
    requires WrittenUpTo(d, d1, files, f, buf, offset, pos - offset, true)
    requires SameMeta(d1, d2, files)
    requires forall g, q: nat :: g in files && !IsDir(d1, g) && q < MAXBLOCKS * BLKSIZE ==>
               var start := pos / BLKSIZE * BLKSIZE + pos % BLKSIZE;
               Raw(d2, g, q) == if g == f && start <= q < start + bn
                                then buf[pos - offset..pos - offset + bn][q - start] else Raw(d1, g, q)
    ensures WrittenUpTo(d, d2, files, f, buf, offset, pos - offset + bn, true)
  {
    hide Raw;
    assert pos / BLKSIZE * BLKSIZE + pos % BLKSIZE == pos;
    forall g | g in files ensures IsDir(d1, g) == IsDir(d, g) {
    }
  }

  lemma WalkQuiet(d: Disk, f: FilePtr, n: nat)
    ensures BlockWalk(d, f, n, false).disk == d
    ensures BlockWalk(d, f, n, false).r >= 0 <==> n < MAXBLOCKS && (n < NDIRECT || Target(d, Indirect(f)) != 0)
    ensures BlockWalk(d, f, n, false).r <= 0
  {
    hide Target;
  }

  /** A block just given back is not where its number was stored. */
  lemma SlotAfterFree(d: Disk, files: set<FilePtr>, r: Ref, f: FilePtr, n: nat)
    requires Sound(d, files) && IsRef(files, r) && Target(d, r) != 0 && f in files && NoHome(d, files, r)
    requires r.f == f && n < MAXBLOCKS
    requires n >= NDIRECT ==> Target(d, Indirect(f)) != 0 && r.Slot?
    ensures var d' := MarkFree(d, Target(d, r));
            && |d'| == |d| && f.block < |d| && InUse(d', f.block)
            && (n >= NDIRECT ==> InUse(d', Target(d', Indirect(f))))
  {
    hide Word, Bit, SetBit, SameMeta, SameData;
    var t := Target(d, r);
    MarkFreeCorrect(d, files, t);
    HomeAccess(d, files, f);
    assert IsRef(files, Indirect(f));
    if n >= NDIRECT {
      OwnedAccess(d, files, Indirect(f));
    }
  }

  lemma FreeOneSound(d: Disk, files: set<FilePtr>, f: FilePtr, n: nat)
    requires Sound(d, files) && f in files && Vacant(d, files, f, n)
    ensures var d1 := FreeFileBlock(d, f, n).disk; Sound(d1, files) && Vacant(d1, files, f, n + 1)
  {
    hide Sound, RangeFreed;
    FreeOne(d, files, f, n);
    StillVacant(d, FreeFileBlock(d, f, n).disk, files, f, n);
  }

  /** With the counts of the source the same blocks are given up. */
  lemma VacantCounted(d: Disk, files: set<FilePtr>, f: FilePtr, newsize: nat)
    requires newsize < WORD_LIMIT && Vacant(d, files, f, KeptBlocks(newsize))
    ensures Vacant(d, files, f, UnsignedCount(newsize))
  {
    if newsize < INT_LIMIT {
      BlockCountExact(newsize);
    }
  }

  lemma ClearNameSound(d: Disk, files: set<FilePtr>, f: FilePtr)
    requires Sound(d, files) && f in files
    ensures Sound(ClearName(d, f), files)
  {
    hide Word, Bit, Raw, Sound, SameTargets, SameBitmap;
    FieldRange(d, files, f, 0);
    StoreMetaSound(d, files, f, 0, Field(d, f, 0) - Field(d, f, 0) % 256);
  }

  lemma SizeBound(d: Disk, files: set<FilePtr>, f: FilePtr)
    requires FsInv(d, files) && f in files
    ensures Size(d, f) < INT_LIMIT
  {
  }

  lemma DataBlockApart(d: Disk, files: set<FilePtr>, f: FilePtr, n: nat)
    requires FsInv(d, files) && f in files && n < MAXBLOCKS && Target(d, Slot(f, n)) != 0
    ensures n < Blocks(Size(d, f)) && Target(d, Slot(f, n)) != Target(d, Indirect(f))
  {
    hide Word, Bit, Target;
    assert IsRef(files, Slot(f, n)) && IsRef(files, Indirect(f));
  }

  lemma IndirectField(d: Disk, f: FilePtr)
    ensures Target(d, Indirect(f)) == WordAt(d, f.block, f.base + F_INDIRECT)
  {
  }

  /** `count` clipped to the end of a file. */
  function Clipped(size: nat, count: nat, offset: nat): nat {
    if offset >= size then 0 else if count < size - offset then count else size - offset
  }

  /** Exactly the holes of the range have been filled, with as many free blocks. */
  ghost predicate Taken(d: Disk, d': Disk, f: FilePtr, offset: nat, n: nat) {
    Allocated(d', f, offset, n) && SameOutside(d, d', f, offset, n) && |FreeSet(d')| == Spare(d, f, offset, n)
  }

  lemma NothingTaken(d: Disk, d1: Disk, f: FilePtr, offset: nat)
    requires forall k :: 0 <= k < MAXBLOCKS ==> Target(d1, Slot(f, k)) == Target(d, Slot(f, k))
    ensures Allocated(d1, f, offset, 0) && SameOutside(d, d1, f, offset, 0)
  {
    hide Target;
  }

  /** `done` of the `n` bytes are dealt with, and what is still to come is as it was
      to be expected at the start. */
  ghost predicate Progress(d: Disk, v: Disk, f: FilePtr, offset: nat, n: nat, done: nat) {
    && done <= n && Allocated(v, f, offset, done) && SameOutside(d, v, f, offset, done)
    && TransferBytes(v, f, offset + done, n - done) == TransferBytes(d, f, offset, n)
    && (n == 0 || offset + n <= MAXBLOCKS * BLKSIZE ==> Spare(v, f, offset + done, n - done) == Spare(d, f, offset, n))
  }

  lemma ProgressStart(d: Disk, d1: Disk, files: set<FilePtr>, f: FilePtr, offset: nat, n: nat)
    requires FsInv(d, files) && f in files && !IsDir(d, f) && offset + n < INT_LIMIT
    requires d1 == if offset + n > Size(d, f) then SetSize(d, f, offset + n) else d
    ensures Progress(d, d1, f, offset, n, 0)
  {
    hide FsInv, SetSize, Target, Spare, TransferBytes, Size, IsDir;
    if offset + n > Size(d, f) {
      GrowTransfer(d, files, f, offset, n);
      GrowSpare(d, files, f, offset, n);
    }
    NothingTaken(d, d1, f, offset);
  }

  lemma ProgressEnd(d: Disk, v: Disk, f: FilePtr, offset: nat, n: nat)
    requires Progress(d, v, f, offset, n, n)
    ensures Taken(d, v, f, offset, n) && TransferBytes(d, f, offset, n) == 0
  {
    hide Allocated, SameOutside, Transfer, Holes;
    TransferInside(d, f, offset, n);
  }

  lemma TransferNothing()
    ensures forall d: Disk, f: FilePtr, offset: nat :: TransferBytes(d, f, offset, 0) == 0
  {
  }

  /** A larger size needs no block yet. */
  lemma GrowTransfer(d: Disk, files: set<FilePtr>, f: FilePtr, offset: nat, n: nat)
    requires FsInv(d, files) && f in files && !IsDir(d, f) && Size(d, f) < offset + n < INT_LIMIT
    ensures TransferBytes(SetSize(d, f, offset + n), f, offset, n) == TransferBytes(d, f, offset, n)
  {
    hide Sound, Transfer, Raw, PutAt, SlotsFit;
    StoreMetaSound(d, files, f, F_SIZE, offset + n);
    SameFree(d, SetSize(d, f, offset + n));
    if n > 0 {
      TransferFrame(d, SetSize(d, f, offset + n), files, f, offset / BLKSIZE, (offset + n - 1) / BLKSIZE + 1);
    }
  }

  lemma GrowSpare(d: Disk, files: set<FilePtr>, f: FilePtr, offset: nat, n: nat)
    requires FsInv(d, files) && f in files && !IsDir(d, f) && Size(d, f) < offset + n < INT_LIMIT
    ensures var d1 := SetSize(d, f, offset + n);
            && (forall k :: 0 <= k < MAXBLOCKS ==> Target(d1, Slot(f, k)) == Target(d, Slot(f, k)))
            && (n == 0 || offset + n <= MAXBLOCKS * BLKSIZE ==> Spare(d1, f, offset, n) == Spare(d, f, offset, n))
  {
    hide Sound, Raw, PutAt, SlotsFit, Holes, Target;
    StoreMetaSound(d, files, f, F_SIZE, offset + n);
    SameFree(d, SetSize(d, f, offset + n));
    assert forall k :: 0 <= k < MAXBLOCKS ==> IsRef(files, Slot(f, k));
    if n > 0 && offset + n <= MAXBLOCKS * BLKSIZE {
      HolesFrame(d, SetSize(d, f, offset + n), files, f, offset / BLKSIZE, (offset + n - 1) / BLKSIZE + 1);
    }
  }

  lemma WrittenReads(d: Disk, d1: Disk, files: set<FilePtr>, f: FilePtr, buf: seq<nat>, offset: nat)
    requires f in files && !IsDir(d, f) && WrittenUpTo(d, d1, files, f, buf, offset, |buf|, true)
    ensures !IsDir(d1, f)
    ensures Size(d1, f) == if offset + |buf| > Size(d, f) then offset + |buf| else Size(d, f)
    ensures |Content(d1, f)| == Size(d1, f)
    ensures forall pos :: 0 <= pos < Size(d1, f) && pos < MAXBLOCKS * BLKSIZE ==>
              Content(d1, f)[pos] == if offset <= pos < offset + |buf| then buf[pos - offset] else Raw(d, f, pos)
  {
    hide Raw;
  }

  /** What a gap holds.  Shrinking to `a` bytes and growing to `b` again gives
      back the old bytes up to the end of the last block kept; only whole blocks
      past it read as zero. */
  lemma RegrownTail(d: Disk, files: set<FilePtr>, f: FilePtr, a: nat, b: nat)
    requires FsInv(d, files) && f in files && !IsDir(d, f) && a < Size(d, f) && a <= b < INT_LIMIT
    ensures var d' := SetSize(SetSize(d, f, a), f, b);
            && Size(d', f) == b
            && forall pos :: 0 <= pos < MAXBLOCKS * BLKSIZE ==>
                 Raw(d', f, pos) == if pos < Blocks(a) * BLKSIZE then Raw(d, f, pos) else 0
  {
    hide Raw, SetSize, Surplus, IsFree, Sound, SlotsFit;
    RegularVacant(d, files, f);
    SetSizeCorrect(d, files, f, a);
    var d1 := SetSize(d, f, a);
    assert !IsDir(d1, f) && Size(d1, f) == a;
    RegularVacant(d1, files, f);
    SetSizeCorrect(d1, files, f, b);
  }

  /** So a gap reads as zeros, as POSIX asks, exactly when the tail of the last
      block kept was zero already. */
  lemma GapIsZero(d: Disk, files: set<FilePtr>, f: FilePtr, a: nat, b: nat)
    requires FsInv(d, files) && f in files && !IsDir(d, f) && a < Size(d, f) && a <= b <= MAXBLOCKS * BLKSIZE
    ensures (forall pos :: a <= pos < b ==> Raw(SetSize(SetSize(d, f, a), f, b), f, pos) == 0) <==>
            (forall pos :: a <= pos < b && pos < Blocks(a) * BLKSIZE ==> Raw(d, f, pos) == 0)
  {
    hide Raw, SetSize, FsInv;
    RegrownTail(d, files, f, a, b);
    var d' := SetSize(SetSize(d, f, a), f, b);
    forall pos | a <= pos < b ensures Raw(d', f, pos) == if pos < Blocks(a) * BLKSIZE then Raw(d, f, pos) else 0 {
    }
  }

  class FileSystem {
    const bc: BlockCache
    ghost var files: set<FilePtr>   // every File structure on the disk

    ghost predicate Valid()
      reads this, bc
    {
      bc.Valid() && FsInv(bc.View(), files)
    }

    constructor (cache: BlockCache, ghost all: set<FilePtr>)
      requires cache.Valid() && FsInv(cache.View(), all)
      ensures Valid() && bc == cache && files == all
    {
      bc := cache;
      files := all;
    }

    // ---- Allocation ----

    /** block_is_free. */
    method BlockIsFree(b: nat) returns (free: bool)
      requires bc.Valid() && Sound(bc.View(), files)
      modifies bc
      ensures bc.Valid() && bc.View() == old(bc.View()) && bc.disk == old(bc.disk)
      ensures free == IsFree(bc.View(), b)
      ensures forall x :: old(bc.Durable(x)) ==> bc.Durable(x)
    {
      hide Bit, Word, Sound, FsInv;
      ghost var d := bc.View();
      SuperAccess(d, files, b);
      var nblocks := bc.ReadWord(1, 1);
      if b >= nblocks {
        return false;
      }
      var w := bc.ReadWord(2 + b / BLKBITSIZE, b / 32 % WORDS);
      free := Bit(w, b % 32);
    }

    /** alloc_block.  Only the first bitmap block is flushed. */
    method TakeBlock() returns (r: int)
      requires bc.Valid() && Sound(bc.View(), files)
      modifies bc
      ensures bc.Valid() && bc.View() == AllocBlock(old(bc.View())).disk && r == AllocBlock(old(bc.View())).r
      ensures r >= 0 ==> bc.Durable(2)
    {
      hide Bit, Word, Sound, IsFree, ClearBit;
      ghost var d := bc.View();
      var blockno := 0;
      SuperAccess(d, files, 0);
      var nblocks := bc.ReadWord(1, 1);
      while blockno < nblocks
        invariant 0 <= blockno <= nblocks == NBlocks(d)
        invariant bc.Valid() && bc.View() == d
        invariant FirstFree(d, 0) == FirstFree(d, blockno)
      {
        var free := BlockIsFree(blockno);
        if free {
          SuperAccess(d, files, blockno);
          var w := bc.ReadWord(2 + blockno / BLKBITSIZE, blockno / 32 % WORDS);
          bc.WriteWord(2 + blockno / BLKBITSIZE, blockno / 32 % WORDS, ClearBit(w, blockno % 32));
          bc.FlushBlock(2);
          return blockno;
        }
        blockno := blockno + 1;
      }
      r := -E_NO_DISK;
    }

    /** alloc_block, and clearing the block through the cache. */
    method TakeCleared() returns (r: int)
      requires bc.Valid() && Sound(bc.View(), files)
      modifies bc
      ensures bc.Valid() && bc.View() == AllocCleared(old(bc.View())).disk && r == AllocCleared(old(bc.View())).r
    {
      hide Bit, Word, Sound, IsFree, AllocBlock, FreeSet;
      ghost var d := bc.View();
      AllocBlockCorrect(d, files);
      AllocBlockSize(d);
      r := TakeBlock();
      if r >= 0 {
        TakenAccess(bc.View(), files, r);
        bc.Write(r, ZeroBlock());
        bc.FlushBlock(r);
      }
    }

    /** file_block_walk; the slot it finds is the one SetSlot writes. */
    method FileBlockWalk(f: FilePtr, n: nat, alloc: bool) returns (r: int)
      requires bc.Valid() && Sound(bc.View(), files) && f in files
      modifies bc
      ensures bc.Valid() && bc.View() == BlockWalk(old(bc.View()), f, n, alloc).disk
              && r == BlockWalk(old(bc.View()), f, n, alloc).r
      ensures !alloc ==> bc.disk == old(bc.disk) && forall x :: old(bc.Durable(x)) ==> bc.Durable(x)
    {
      hide Bit, Word, Sound, IsFree, AllocCleared, FreeSet, SameMeta, SameData, SameTargets;
      ghost var d := bc.View();
      if n >= MAXBLOCKS {
        return -E_INVAL;
      }
      if n >= NDIRECT {
        HomeAccess(d, files, f);
        var ind := bc.ReadWord(f.block, f.base + F_INDIRECT);
        if ind == 0 {
          if !alloc {
            return -E_NOT_FOUND;
          }
          AllocClearedCorrect(d, files);
          r := TakeCleared();
          if r < 0 {
            return;
          }
          HomeAccess(bc.View(), files, f);
          bc.WriteWord(f.block, f.base + F_INDIRECT, r);
          return 0;
        }
      }
      r := 0;
    }

    /** `*ppdiskbno`, for a slot that file_block_walk has found. */
    method ReadSlot(f: FilePtr, n: nat) returns (t: nat)
      requires bc.Valid() && Sound(bc.View(), files) && f in files && n < MAXBLOCKS
      requires n >= NDIRECT ==> Target(bc.View(), Indirect(f)) != 0
      modifies bc
      ensures bc.Valid() && bc.View() == old(bc.View()) && bc.disk == old(bc.disk)
      ensures t == Target(bc.View(), Slot(f, n))
      ensures forall x :: old(bc.Durable(x)) ==> bc.Durable(x)
    {
      hide Bit, Word, Sound, IsFree;
      HomeAccess(bc.View(), files, f);
      if n < NDIRECT {
        t := bc.ReadWord(f.block, f.base + (F_DIRECT + n));
      } else {
        var ind := bc.ReadWord(f.block, f.base + F_INDIRECT);
        assert IsRef(files, Indirect(f));
        OwnedAccess(bc.View(), files, Indirect(f));
        t := bc.ReadWord(ind, n - NDIRECT);
      }
    }

    /** `*ppdiskbno = t`. */
    method WriteSlot(f: FilePtr, n: nat, t: nat)
      requires bc.Valid() && f.block < |bc.disk| && n < MAXBLOCKS
      requires if n < NDIRECT then InUse(bc.View(), f.block)
               else InUse(bc.View(), f.block) && InUse(bc.View(), Target(bc.View(), Indirect(f)))
      modifies bc
      ensures bc.Valid() && bc.View() == SetSlot(old(bc.View()), f, n, t)
    {
      hide Bit, Word, IsFree, PutAt;
      if n < NDIRECT {
        bc.WriteWord(f.block, f.base + (F_DIRECT + n), t);
      } else {
        var ind := bc.ReadWord(f.block, f.base + F_INDIRECT);
        bc.WriteWord(ind, n - NDIRECT, t);
      }
    }

    /** file_get_block. */
    method FileGetBlock(f: FilePtr, n: nat) returns (r: int)
      requires Valid() && f in files && n < Blocks(Size(bc.View(), f))
      modifies bc
      ensures Valid() && bc.View() == GetBlock(old(bc.View()), f, n).disk && r == GetBlock(old(bc.View()), f, n).r
    {
      hide Bit, Word, Sound, IsFree, AllocCleared, FreeSet, SameMeta, SameData, SameTargets, Extends, SetSlot,
           BlockWalk, Target, SlotsFit;
      ghost var d := bc.View();
      GetBlockCorrect(d, files, f, n);
      if n < MAXBLOCKS {
        WalkCorrect(d, files, f, n);
        ExtendsSound(d, BlockWalk(d, f, n, true).disk, files);
      }
      WalkPastEnd(d, f, n);
      r := FileBlockWalk(f, n, true);
      if r < 0 {
        return;
      }
      var t := ReadSlot(f, n);
      if t != 0 {
        return t;
      }
      ghost var d1 := bc.View();
      AllocClearedCorrect(d1, files);
      r := TakeCleared();
      if r < 0 {
        return;
      }
      SlotAccess(d1, bc.View(), files, f, n);
      WriteSlot(f, n, r);
    }

    // ---- Reading and writing ----

    /** file_read: the bytes of the file from `offset`, as many as there are.
        It fails exactly when the holes of the range need more blocks than are
        free, or when the range lies past the largest file. */
    method FileRead(f: FilePtr, count: nat, offset: nat) returns (r: int, buf: seq<nat>)
      requires Valid() && f in files && !IsDir(bc.View(), f)
      modifies bc
      ensures Valid() && SameContent(old(bc.View()), bc.View(), files)
              && OthersKept(old(bc.View()), bc.View(), files, f)
      ensures var d := old(bc.View());
              var n := Clipped(Size(d, f), count, offset);
              var t := TransferBytes(d, f, offset, n);
              && r == (if t < 0 then t else n)
              && (r >= 0 ==> |buf| == n && (offset < Size(d, f) ==> buf == Content(d, f)[offset..offset + n]))
      ensures var size := Size(old(bc.View()), f);
              r >= 0 ==>
                if offset >= size then r == 0
                else r <= count && offset + r <= size && (r == count || offset + r == size)
    {
      hide Bit, Word, FsInv, IsFree, SameContent, Content, IsDir, Size, TransferBytes, Target;
      ghost var d := bc.View();
      SameContentRefl(d, files);
      InvSound(d, files);
      HomeAccess(d, files, f);
      TransferNothing();
      var size := ReadSize(f);
      if offset >= size {
        return 0, [];
      }
      var total := if count < size - offset then count else size - offset;
      TransferInside(d, f, offset, total);
      buf := [];
      var pos := offset;
      while pos < offset + total
        invariant offset <= pos <= offset + total && Valid() && SameContent(d, bc.View(), files)
        invariant OthersKept(d, bc.View(), files, f) && buf == Content(d, f)[offset..pos]
        invariant TransferBytes(bc.View(), f, pos, offset + total - pos) == TransferBytes(d, f, offset, total)
      {
        var bytes;
        r, bytes := ReadSome(f, pos, offset + total - pos, d);
        if r < 0 {
          return r, buf;
        }
        buf := buf + bytes;
        pos := pos + |bytes|;
      }
      r := total;
    }

    method ReadSize(f: FilePtr) returns (size: nat)
      requires Valid() && f in files
      modifies bc
      ensures Valid() && bc.View() == old(bc.View()) && size == Size(bc.View(), f) == |Content(bc.View(), f)|
      ensures bc.disk == old(bc.disk)
      ensures forall x :: old(bc.Durable(x)) ==> bc.Durable(x)
    {
      hide Bit, Word, Sound, IsFree;
      HomeAccess(bc.View(), files, f);
      size := bc.ReadWord(f.block, f.base + F_SIZE);
    }

    /** One turn of file_read's loop. */
    method ReadSome(f: FilePtr, pos: nat, left: nat, ghost d: Disk) returns (r: int, bytes: seq<nat>)
      requires Valid() && f in files && !IsDir(d, f) && SameContent(d, bc.View(), files)
      requires 0 < left && pos + left <= Size(d, f) == |Content(d, f)|
      modifies bc
      ensures Valid() && SameContent(d, bc.View(), files) && OthersKept(old(bc.View()), bc.View(), files, f)
      ensures r < 0 ==> TransferBytes(old(bc.View()), f, pos, left) == r
      ensures r >= 0 ==>
                && 0 < |bytes| <= left && bytes == Content(d, f)[pos..pos + |bytes|]
                && TransferBytes(bc.View(), f, pos + |bytes|, left - |bytes|)
                     == TransferBytes(old(bc.View()), f, pos, left)
    {
      hide Bit, Word, Sound, IsFree, GetBlock, SlotsFit, SameContent, Target, Raw, Size, IsDir, Content, Transfer;
      ghost var d0 := bc.View();
      bytes := [];
      MetaKept(d, d0, files, f);
      TransferStep(d0, files, f, pos / BLKSIZE, (pos + left - 1) / BLKSIZE + 1);
      r := FileGetBlockSame(f, pos / BLKSIZE);
      ghost var d1 := bc.View();
      OthersChain(d0, d0, d1, files, f, {Indirect(f), Slot(f, pos / BLKSIZE)});
      SameContentChain(d, d0, d1, files);
      if r < 0 {
        return;
      }
      var room := BLKSIZE - pos % BLKSIZE;
      var bn := if room < left then room else left;
      TransferRest(d0, d1, f, pos, left, bn);
      BlockIsData(d1, files, f, pos / BLKSIZE);
      var page := bc.Read(r);
      bytes := page[pos % BLKSIZE..pos % BLKSIZE + bn];
      ChunkRead(d, d1, files, f, pos, bn, page);
    }

    /** file_get_block, and what its caller may rely on: it runs out of space only
        for a hole, and only when the last free block is gone. */
    method FileGetBlockSame(f: FilePtr, n: nat) returns (r: int)
      requires Valid() && f in files && n < Blocks(Size(bc.View(), f))
      modifies bc
      ensures Valid() && SameContent(old(bc.View()), bc.View(), files)
      ensures bc.View() == GetBlock(old(bc.View()), f, n).disk && r == GetBlock(old(bc.View()), f, n).r
      ensures SameTargets(old(bc.View()), bc.View(), files, {Indirect(f), Slot(f, n)})
      ensures r >= 0 ==> n < MAXBLOCKS && r == Target(bc.View(), Slot(f, n)) != 0
      ensures r < 0 ==> if n >= MAXBLOCKS then r == -E_INVAL
                        else r == -E_NO_DISK && Target(old(bc.View()), Slot(f, n)) == 0 && FreeSet(bc.View()) == {}
    {
      hide Bit, Word, Sound, IsFree, GetBlock, SlotsFit, SameContent, Target;
      GetBlockCorrect(bc.View(), files, f, n);
      r := FileGetBlock(f, n);
    }

    /** file_write: afterwards the file reads as the old bytes overwritten at
        [offset, offset + |buf|), across block boundaries and the indirect block;
        every other regular file reads as before; and every block of the range is
        there.  It fails exactly when the holes of the range need more blocks than
        are free, or when the range goes past the largest file; then part of the
        range may have been written. */
    method FileWrite(f: FilePtr, buf: seq<nat>, offset: nat) returns (r: int)
      requires Valid() && f in files && !IsDir(bc.View(), f)
      requires offset + |buf| < INT_LIMIT && forall i :: 0 <= i < |buf| ==> buf[i] < 256
      modifies bc
      ensures Valid()
      ensures WrittenUpTo(old(bc.View()), bc.View(), files, f, buf, offset, if r >= 0 then |buf| else 0, r >= 0)
      ensures var t := TransferBytes(old(bc.View()), f, offset, |buf|); r == if t < 0 then t else |buf|
      ensures r >= 0 ==> Taken(old(bc.View()), bc.View(), f, offset, |buf|)
      ensures OthersKept(old(bc.View()), bc.View(), files, f)
    {
      hide Bit, Word, FsInv, IsFree, IsDir, Size, SetSize, WrittenUpTo, TransferBytes, Progress, Taken, Target;
      ghost var d := bc.View();
      InvSound(d, files);
      TransferInside(d, f, offset, |buf|);
      var size := ReadSize(f);
      if offset + |buf| > size {
        RegularVacant(d, files, f);
        SetSizeOthers(d, files, f, offset + |buf|);
        FileSetSize(f, offset + |buf|);
      }
      Extended(d, bc.View(), files, f, buf, offset);
      ProgressStart(d, bc.View(), files, f, offset, |buf|);
      var pos := offset;
      while pos < offset + |buf|
        invariant offset <= pos <= offset + |buf| && Valid()
        invariant WrittenUpTo(d, bc.View(), files, f, buf, offset, pos - offset, true)
        invariant Progress(d, bc.View(), f, offset, |buf|, pos - offset) && OthersKept(d, bc.View(), files, f)
      {
        var bn;
        r, bn := WriteSome(f, buf, offset, pos, d);
        if r < 0 {
          return;
        }
        pos := pos + bn;
      }
      ProgressEnd(d, bc.View(), f, offset, |buf|);
      r := |buf|;
    }

    /** One turn of file_write's loop. */
    method WriteSome(f: FilePtr, buf: seq<nat>, offset: nat, pos: nat, ghost d: Disk) returns (r: int, bn: nat)
      requires Valid() && f in files && !IsDir(d, f)
      requires offset <= pos < offset + |buf| < INT_LIMIT && forall i :: 0 <= i < |buf| ==> buf[i] < 256
      requires WrittenUpTo(d, bc.View(), files, f, buf, offset, pos - offset, true)
      requires Progress(d, bc.View(), f, offset, |buf|, pos - offset)
      modifies bc
      ensures Valid() && OthersKept(old(bc.View()), bc.View(), files, f)
      ensures r < 0 ==> WrittenUpTo(d, bc.View(), files, f, buf, offset, 0, false)
                        && TransferBytes(d, f, offset, |buf|) == r
      ensures r >= 0 ==>
                && 0 < bn <= offset + |buf| - pos
                && WrittenUpTo(d, bc.View(), files, f, buf, offset, pos - offset + bn, true)
                && Progress(d, bc.View(), f, offset, |buf|, pos - offset + bn)
    {
      hide Bit, Word, IsFree, IsDir, Size, GetBlock, SlotsFit, SameContent, Target, WrittenUpTo, Raw, Sound, SameMeta,
           Transfer, Allocated, SameTargets, SameOutside, Holes, FreeSet;
      bn := 0;
      ghost var d0 := bc.View();
      WrittenSize(d, d0, files, f, buf, offset, pos - offset);
      var left := offset + |buf| - pos;
      TransferStep(d0, files, f, pos / BLKSIZE, (pos + left - 1) / BLKSIZE + 1);
      if offset + |buf| <= MAXBLOCKS * BLKSIZE {
        SpareStep(d0, files, f, pos, left);
      }
      r := FileGetBlockSame(f, pos / BLKSIZE);
      ghost var d1 := bc.View();
      OthersChain(d0, d0, d1, files, f, {Indirect(f), Slot(f, pos / BLKSIZE)});
      WrittenSame(d, d0, d1, files, f, buf, offset, pos - offset);
      if r < 0 {
        WrittenPart(d, d1, files, f, buf, offset, pos - offset);
        return;
      }
      WrittenSize(d, d1, files, f, buf, offset, pos - offset);
      bn := PutChunk(f, buf, offset, pos, r, d);
      OthersChain(d0, d1, bc.View(), files, f, {});
      AllocatedStep(d0, d1, files, f, offset, pos - offset, bn);
      AllocatedFrame(d1, bc.View(), files, f, offset, pos - offset + bn);
      TransferFrame(d1, bc.View(), files, f, pos / BLKSIZE + 1, (pos + left - 1) / BLKSIZE + 1);
      TransferRest(d0, bc.View(), f, pos, left, bn);
      SameOutsideStep(d, d0, d1, bc.View(), files, f, offset, pos - offset, bn);
      if offset + |buf| <= MAXBLOCKS * BLKSIZE {
        HolesFrame(d1, bc.View(), files, f, pos / BLKSIZE + 1, (pos + left - 1) / BLKSIZE + 1);
        SpareRest(bc.View(), f, pos, left, bn);
      }
    }

    /** The copy in file_write's loop. */
    method PutChunk(f: FilePtr, buf: seq<nat>, offset: nat, pos: nat, b: nat, ghost d: Disk) returns (bn: nat)
      requires Valid() && f in files && !IsDir(bc.View(), f)
      requires offset <= pos < offset + |buf| && forall i :: 0 <= i < |buf| ==> buf[i] < 256
      requires WrittenUpTo(d, bc.View(), files, f, buf, offset, pos - offset, true)
      requires pos / BLKSIZE < MAXBLOCKS && b == Target(bc.View(), Slot(f, pos / BLKSIZE)) != 0
      modifies bc
      ensures Valid() && bn == (var room, left := BLKSIZE - pos % BLKSIZE, offset + |buf| - pos;
              if room < left then room else left)
      ensures WrittenUpTo(d, bc.View(), files, f, buf, offset, pos - offset + bn, true)
      ensures SameTargets(old(bc.View()), bc.View(), files, {}) && FreeSet(bc.View()) == FreeSet(old(bc.View()))
    {
      hide Bit, Word, IsFree, IsDir, SlotsFit, Target, WrittenUpTo, Raw, Sound, SameMeta;
      ghost var d1 := bc.View();
      var room, left := BLKSIZE - pos % BLKSIZE, offset + |buf| - pos;
      bn := if room < left then room else left;
      var bytes := buf[pos - offset..pos - offset + bn];
      BlockIsData(d1, files, f, pos / BLKSIZE);
      RegularVacant(d1, files, f);
      assert Vacant(d1, files, f, pos / BLKSIZE);
      WriteChunkCorrect(d1, files, f, pos / BLKSIZE, pos % BLKSIZE, bytes);
      var page := bc.Read(b);
      bc.Write(b, Splice(page, pos % BLKSIZE, bytes));
      SameFree(d1, bc.View());
      WrittenChunk(d, d1, bc.View(), files, f, buf, offset, pos, bn);
    }

    // ---- Resizing ----

    /** free_block. */
    method FreeBlock(b: nat)
      requires bc.Valid() && Sound(bc.View(), files) && 0 < b < NBlocks(bc.View())
      modifies bc
      ensures bc.Valid() && bc.View() == MarkFree(old(bc.View()), b)
    {
      hide Bit, Word, Sound, IsFree, SetBit;
      SuperAccess(bc.View(), files, b);
      var w := bc.ReadWord(2 + b / BLKBITSIZE, b / 32 % WORDS);
      bc.WriteWord(2 + b / BLKBITSIZE, b / 32 % WORDS, SetBit(w, b % 32));
    }

    /** file_free_block. */
    method FileFreeBlock(f: FilePtr, n: nat) returns (r: int)
      requires bc.Valid() && Sound(bc.View(), files) && f in files
      requires n < MAXBLOCKS ==> NoHome(bc.View(), files, Slot(f, n))
      modifies bc
      ensures bc.Valid() && bc.View() == FreeFileBlock(old(bc.View()), f, n).disk
              && r == FreeFileBlock(old(bc.View()), f, n).r
    {
      hide Bit, Word, Sound, IsFree, MarkFree, SetSlot, Target;
      ghost var d := bc.View();
      WalkQuiet(d, f, n);
      r := FileBlockWalk(f, n, false);
      if r < 0 {
        return;
      }
      var t := ReadSlot(f, n);
      if t != 0 {
        assert IsRef(files, Slot(f, n));
        OwnedAccess(d, files, Slot(f, n));
        FreeBlock(t);
        SlotAfterFree(d, files, Slot(f, n), f, n);
        WriteSlot(f, n, 0);
      }
    }

    /** file_truncate_blocks, also of a directory, once the File structures in the
        blocks given up do not count any more. */
    method FileTruncateBlocks(f: FilePtr, newsize: nat)
      requires Valid() && f in files && newsize < WORD_LIMIT && Vacant(bc.View(), files, f, KeptBlocks(newsize))
      modifies bc
      ensures bc.Valid() && bc.View() == TruncateWord(old(bc.View()), f, newsize)
    {
      hide Bit, Word, Sound, IsFree, MarkFree, Target, IsDir, Size, FreeFileBlock, RangeFreed, SlotsFit, FreeIndirect,
           UnsignedCount;
      ghost var d := bc.View();
      var size := ReadSize(f);
      SizeBound(d, files, f);
      TruncateCounted(d, f, newsize);
      VacantCounted(d, files, f, newsize);
      var oldN, newN := UnsignedCount(size), UnsignedCount(newsize);
      var bno := newN;
      while bno < oldN
        invariant newN <= bno && (bno <= oldN || bno == newN)
        invariant bc.Valid() && Sound(bc.View(), files) && Vacant(bc.View(), files, f, bno)
        invariant FreeRange(d, f, newN, oldN) == FreeRange(bc.View(), f, bno, oldN)
      {
        FreeOneSound(bc.View(), files, f, bno);
        var r := FileFreeBlock(f, bno);
        bno := bno + 1;
      }
      if newN <= NDIRECT {
        FreeTable(f);
      }
    }

    /** Giving back the indirect block. */
    method FreeTable(f: FilePtr)
      requires bc.Valid() && Sound(bc.View(), files) && f in files
      modifies bc
      ensures bc.Valid() && bc.View() == FreeIndirect(old(bc.View()), f)
    {
      hide Bit, Word, Sound, IsFree, MarkFree;
      ghost var d := bc.View();
      HomeAccess(d, files, f);
      var ind := bc.ReadWord(f.block, f.base + F_INDIRECT);
      if ind != 0 {
        assert IsRef(files, Indirect(f));
        OwnedAccess(d, files, Indirect(f));
        IndirectNoHome(d, files, f);
        FreeBlock(ind);
        SlotAfterFree(d, files, Indirect(f), f, 0);
        bc.WriteWord(f.block, f.base + F_INDIRECT, 0);
      }
    }

    /** file_set_size, for a size given by its 32 bits; the File structure is on
        disk afterwards.  The invariant is kept exactly for a size that is not
        negative. */
    method FileSetSize(f: FilePtr, newsize: nat)
      requires Valid() && f in files && newsize < WORD_LIMIT && Vacant(bc.View(), files, f, KeptBlocks(newsize))
      modifies bc
      ensures bc.Valid() && bc.View() == SetSizeWord(old(bc.View()), f, newsize) && bc.Durable(f.block)
      ensures Valid() <==> newsize < INT_LIMIT
    {
      hide Bit, Word, Sound, IsFree, IsDir, Size, Truncate, SlotsFit, Surplus, PutAt, UnsignedCount, IsBlock, InUse,
           Vacant;
      ghost var d := bc.View();
      SetSizeWordCorrect(d, files, f, newsize);
      SizeBound(d, files, f);
      var size := ReadSize(f);
      if newsize >= INT_LIMIT || size > newsize {
        FileTruncateBlocks(f, newsize);
      }
      HomeAccess(bc.View(), files, f);
      bc.WriteWord(f.block, f.base + F_SIZE, newsize);
      bc.FlushBlock(f.block);
    }

    /** file_remove once the path is resolved. */
    method FileRemove(f: FilePtr)
      requires Valid() && f in files && Vacant(bc.View(), files, f, 0)
      modifies bc
      ensures Valid() && bc.View() == RemoveFile(old(bc.View()), f) && bc.Durable(f.block)
    {
      hide Bit, Word, Sound, IsFree, IsDir, Size, Truncate, SlotsFit, Surplus, PutAt, Field;
      ghost var d := bc.View();
      RemoveFileCorrect(d, files, f);
      TruncateCorrect(d, files, f, 0);
      FileTruncateBlocks(f, 0);
      HomeAccess(bc.View(), files, f);
      ClearNameSound(bc.View(), files, f);
      WipeName(f);
      HomeAccess(bc.View(), files, f);
      bc.WriteWord(f.block, f.base + F_SIZE, 0);
      bc.FlushBlock(f.block);
    }

    method WipeName(f: FilePtr)
      requires bc.Valid() && InUse(bc.View(), f.block)
      modifies bc
      ensures bc.Valid() && bc.View() == ClearName(old(bc.View()), f)
    {
      hide Bit, Word, PutAt, IsFree;
      var w := bc.ReadWord(f.block, f.base);
      bc.WriteWord(f.block, f.base, w - w % 256);
    }

    // ---- Durability ----

    /** file_flush: the File structure and the indirect block are on disk, and so
        are the data blocks exactly if they were before or the size is at most
        2^31 - 4096.  For a larger size the number of blocks comes out negative,
        and no data block is written. */
    method FileFlush(f: FilePtr)
      requires Valid() && f in files
      modifies bc
      ensures Valid() && bc.View() == old(bc.View())
      ensures forall n: nat :: n < MAXBLOCKS && Target(bc.View(), Slot(f, n)) != 0 ==>
                var t := Target(bc.View(), Slot(f, n));
                bc.Durable(t) <==> t == f.block || Size(bc.View(), f) <= INT_LIMIT - BLKSIZE || old(bc.Durable(t))
      ensures Target(bc.View(), Indirect(f)) != 0 ==> bc.Durable(Target(bc.View(), Indirect(f)))
      ensures bc.Durable(f.block)
      ensures forall x :: old(bc.Durable(x)) ==> bc.Durable(x)
    {
      hide Bit, Word, Sound, IsFree, Target, Size, IsDir, SlotsFit, BlockCount;
      ghost var d := bc.View();
      var size := ReadSize(f);
      SizeBound(d, files, f);
      BlockCountExact(size);
      HomeAccess(d, files, f);
      FlushData(f, size);
      bc.FlushBlock(f.block);
      var ind := bc.ReadWord(f.block, f.base + F_INDIRECT);
      IndirectField(d, f);
      if ind != 0 {
        assert IsRef(files, Indirect(f));
        OwnedAccess(d, files, Indirect(f));
        bc.FlushBlock(ind);
      }
      forall n: nat | n < MAXBLOCKS && Target(d, Slot(f, n)) != 0
        ensures var t := Target(d, Slot(f, n));
                bc.Durable(t) <==> t == f.block || size <= INT_LIMIT - BLKSIZE || old(bc.Durable(t))
      {
        DataBlockApart(d, files, f, n);
      }
    }

    /** The loop of file_flush. */
    method FlushData(f: FilePtr, size: nat)
      requires Valid() && f in files && size == Size(bc.View(), f)
      modifies bc
      ensures Valid() && bc.View() == old(bc.View())
      ensures forall n: nat :: n < BlockCount(size) && n < MAXBLOCKS && Target(bc.View(), Slot(f, n)) != 0 ==>
                bc.Durable(Target(bc.View(), Slot(f, n)))
      ensures forall x :: old(bc.Durable(x)) ==> bc.Durable(x)
      ensures BlockCount(size) <= 0 ==> bc.disk == old(bc.disk)
    {
      hide Bit, Word, Sound, IsFree, Target, Size, IsDir, SlotsFit, BlockCount;
      ghost var d := bc.View();
      var i := 0;
      while i < BlockCount(size)
        invariant 0 <= i && (i <= BlockCount(size) || i == 0) && Valid() && bc.View() == d
        invariant forall n :: 0 <= n < i && n < MAXBLOCKS && Target(d, Slot(f, n)) != 0 ==>
                    bc.Durable(Target(d, Slot(f, n)))
        invariant forall x :: old(bc.Durable(x)) ==> bc.Durable(x)
        invariant i == 0 ==> bc.disk == old(bc.disk)
      {
        FlushOne(f, i);
        i := i + 1;
      }
    }

    /** One turn of file_flush's loop. */
    method FlushOne(f: FilePtr, i: nat)
      requires Valid() && f in files
      modifies bc
      ensures Valid() && bc.View() == old(bc.View())
      ensures i < MAXBLOCKS && Target(bc.View(), Slot(f, i)) != 0 ==> bc.Durable(Target(bc.View(), Slot(f, i)))
      ensures forall x :: old(bc.Durable(x)) ==> bc.Durable(x)
    {
      hide Bit, Word, Sound, IsFree, SlotsFit, Field;
      ghost var d := bc.View();
      WalkQuiet(d, f, i);
      var r := FileBlockWalk(f, i, false);
      if r < 0 {
        return;
      }
      var t := ReadSlot(f, i);
      if t != 0 {
        assert IsRef(files, Slot(f, i));
        OwnedAccess(d, files, Slot(f, i));
        bc.FlushBlock(t);
      }
    }

    /** fs_sync: every block but the boot block is on disk. */
    method FsSync()
      requires Valid()
      modifies bc
      ensures Valid() && bc.View() == old(bc.View())
      ensures forall b :: 1 <= b < NBlocks(bc.View()) ==> bc.Durable(b)
    {
      hide Bit, Word, IsFree, SlotsFit;
      ghost var d := bc.View();
      SuperAccess(d, files, 0);
      var nblocks := bc.ReadWord(1, 1);
      var i := 1;
      while i < nblocks
        invariant 1 <= i && Valid() && bc.View() == d && nblocks == NBlocks(d)
        invariant forall b :: 1 <= b < i && b < nblocks ==> bc.Durable(b)
      {
        bc.FlushBlock(i);
        i := i + 1;
      }
    }

    // ---- Read after write ----

    /** A read after a successful write returns the old bytes overwritten.  Within
        the range just written it cannot fail; elsewhere it fails exactly for want
        of blocks for holes, as file_read does on the disk `mid` between the two. */
    method WriteThenRead(f: FilePtr, buf: seq<nat>, offset: nat, count: nat, start: nat)
      returns (w: int, r: int, bytes: seq<nat>, ghost mid: Disk)
      requires Valid() && f in files && !IsDir(bc.View(), f)
      requires offset + |buf| < INT_LIMIT && forall i :: 0 <= i < |buf| ==> buf[i] < 256
      modifies bc
      ensures Valid()
      ensures var t := TransferBytes(old(bc.View()), f, offset, |buf|); w == if t < 0 then t else |buf|
      ensures w >= 0 ==>
                var size := if offset + |buf| > Size(old(bc.View()), f) then offset + |buf|
                  else Size(old(bc.View()), f);
                var n := Clipped(size, count, start);
                && WrittenUpTo(old(bc.View()), mid, files, f, buf, offset, |buf|, true)
                && Taken(old(bc.View()), mid, f, offset, |buf|)
                && r == (var t := TransferBytes(mid, f, start, n); if t < 0 then t else n)
                && (offset <= start && start + count <= offset + |buf| ==> r == count)
                && (r >= 0 ==>
                      if start >= size then r == 0
                      else r <= count && start + r <= size && (r == count || start + r == size))
                && (r >= 0 ==> |bytes| == r && forall i :: 0 <= i < r ==>
                      bytes[i] == if offset <= start + i < offset + |buf| then buf[start + i - offset]
                                  else Raw(old(bc.View()), f, start + i))
    {
      hide Bit, Word, FsInv, IsFree, IsDir, Size, Raw, WrittenUpTo, SameContent, TransferBytes, Allocated,
           SameOutside, Spare;
      ghost var d := bc.View();
      r, bytes := -1, [];
      w := FileWrite(f, buf, offset);
      mid := bc.View();
      if w >= 0 {
        WrittenReads(d, mid, files, f, buf, offset);
        if offset <= start && start + count <= offset + |buf| {
          AllocatedTransfers(mid, f, offset, |buf|, start, count);
        }
        TransferInside(mid, f, start, Clipped(Size(mid, f), count, start));
        r, bytes := FileRead(f, count, start);
      }
    }
  }
}
