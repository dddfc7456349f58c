/** Writing bytes, resizing, truncating and removing files (fs/fs.c). */
module FsResize {
  import opened FsBytes
  import opened FsLayout
  import opened FsOps
  import opened Errors

  // ---- Bytes ----

  /** memmove into the block of slot `n`. */
  function WriteChunk(d: Disk, f: FilePtr, n: nat, off: nat, bytes: seq<nat>): Disk {
    var t := Target(d, Slot(f, n));
    if t < |d| then d[t := Splice(d[t], off, bytes)] else d
  }

  /** The bytes land where they belong in this file and nowhere else. */
  lemma WriteChunkCorrect(d: Disk, files: set<FilePtr>, f: FilePtr, n: nat, off: nat, bytes: seq<nat>)
    requires FsInv(d, files) && f in files && n < MAXBLOCKS && Target(d, Slot(f, n)) != 0
             && NoHome(d, files, Slot(f, n))
    requires off + |bytes| <= BLKSIZE && forall i :: 0 <= i < |bytes| ==> bytes[i] < 256
    ensures var d' := WriteChunk(d, f, n, off, bytes);
            && FsInv(d', files) && SameMeta(d, d', files) && SameTargets(d, d', files, {}) && SameBitmap(d, d')
            && (forall g, pos: nat :: g in files && !IsDir(d, g) && pos < MAXBLOCKS * BLKSIZE ==>
                  Raw(d', g, pos) == if g == f && n * BLKSIZE + off <= pos < n * BLKSIZE + off + |bytes|
                                     then bytes[pos - (n * BLKSIZE + off)] else Raw(d, g, pos))
  {
    hide IsFree, Word;
    var t := Target(d, Slot(f, n));
    var d' := WriteChunk(d, f, n, off, bytes);
    assert IsRef(files, Slot(f, n));
    forall g | g in files ensures t != g.block && t != Target(d, Indirect(g)) {
      assert IsRef(files, Indirect(g));
    }
    StoreBlock(d, files, t, Splice(d[t], off, bytes));
    BitmapKeepsSound(d, d', files, 0);
    KeepFits(d, d', files);
    forall g, pos: nat | g in files && !IsDir(d, g) && pos < MAXBLOCKS * BLKSIZE
      ensures Raw(d', g, pos) == if g == f && n * BLKSIZE + off <= pos < n * BLKSIZE + off + |bytes|
                                 then bytes[pos - (n * BLKSIZE + off)] else Raw(d, g, pos)
    {
      RawAfterChunk(d, files, f, n, off, bytes, g, pos);
    }
  }

  lemma KeepFits(d: Disk, d': Disk, files: set<FilePtr>)
    requires SlotsFit(d, files) && SameMeta(d, d', files) && SameTargets(d, d', files, {})
    ensures SlotsFit(d', files)
  {
    hide Target;
    forall g, m | g in files && Blocks(Size(d', g)) <= m < MAXBLOCKS ensures Target(d', Slot(g, m)) == 0 {
      assert IsRef(files, Slot(g, m));
      assert Size(d', g) == Size(d, g);
    }
  }

  lemma RawAfterChunk(d: Disk, files: set<FilePtr>, f: FilePtr, n: nat, off: nat, bytes: seq<nat>, g: FilePtr, pos: nat)
    requires Sound(d, files) && f in files && n < MAXBLOCKS && Target(d, Slot(f, n)) != 0 && off + |bytes| <= BLKSIZE
    requires g in files && pos < MAXBLOCKS * BLKSIZE
    requires SameTargets(d, WriteChunk(d, f, n, off, bytes), files, {})
    ensures Raw(WriteChunk(d, f, n, off, bytes), g, pos) ==
            if g == f && n * BLKSIZE + off <= pos < n * BLKSIZE + off + |bytes|
            then bytes[pos - (n * BLKSIZE + off)] else Raw(d, g, pos)
  {
    hide IsFree, Word;
    var m := pos / BLKSIZE;
    assert IsRef(files, Slot(f, n)) && IsRef(files, Slot(g, m));
    assert m == n <==> n * BLKSIZE <= pos < n * BLKSIZE + BLKSIZE;
    if Slot(g, m) == Slot(f, n) {
      assert pos % BLKSIZE == pos - n * BLKSIZE;
    } else if Target(d, Slot(g, m)) != 0 {
      assert Target(d, Slot(g, m)) != Target(d, Slot(f, n));
    }
  }

  // ---- Size ----

  function PutSize(d: Disk, f: FilePtr, size: nat): Disk { PutAt(d, f.block, f.base + F_SIZE, size) }

  /** A store into a File structure that is not a pointer changes no content. */
  lemma StoreMetaSound(d: Disk, files: set<FilePtr>, f: FilePtr, i: nat, w: nat)
    requires Sound(d, files) && f in files && i < F_DIRECT && i != F_TYPE && w < WORD_LIMIT
    ensures var d' := PutAt(d, f.block, f.base + i, w);
            && Sound(d', files) && SameBitmap(d, d') && SameTargets(d, d', files, {})
            && (forall g, j: nat :: g in files && j < F_DIRECT ==>
                  Field(d', g, j) == if g == f && j == i then w else Field(d, g, j))
            && (forall g, pos: nat :: g in files && !IsDir(d, g) && pos < MAXBLOCKS * BLKSIZE ==>
                  Raw(d', g, pos) == Raw(d, g, pos))
  {
    hide Word, Bit;
    var d' := PutAt(d, f.block, f.base + i, w);
    StoreMeta(d, files, f, i, w);
    StoreMetaKeepsSound(d, d', files);
    forall g, pos: nat | g in files && !IsDir(d, g) && pos < MAXBLOCKS * BLKSIZE
      ensures Raw(d', g, pos) == Raw(d, g, pos)
    {
      var n := pos / BLKSIZE;
      assert n < MAXBLOCKS && IsRef(files, Slot(g, n));
      if Target(d, Slot(g, n)) != 0 {
        assert BlockAt(d', Target(d, Slot(g, n))) == BlockAt(d, Target(d, Slot(g, n)));
      }
    }
  }

  lemma StoreMetaKeepsSound(d: Disk, d': Disk, files: set<FilePtr>)
    requires Sound(d, files) && SameBitmap(d, d') && Shaped(d') && SameTargets(d, d', files, {})
    requires forall g :: g in files ==> Field(d', g, F_TYPE) == Field(d, g, F_TYPE)
    ensures Sound(d', files)
  {
    hide Target, Word, Bit;
  }

  // ---- Freeing blocks ----

  /** file_free_block. */
  function FreeFileBlock(d: Disk, f: FilePtr, n: nat): Out {
    var w := BlockWalk(d, f, n, false);
    if w.r < 0 then w
    else
      var t := Target(d, Slot(f, n));
      if t == 0 then Out(d, 0) else Out(SetSlot(MarkFree(d, t), f, n, 0), 0)
  }

  lemma PutAtCommute(d: Disk, b1: nat, k1: nat, w1: nat, b2: nat, k2: nat, w2: nat)
    requires b1 != b2
    ensures PutAt(PutAt(d, b1, k1, w1), b2, k2, w2) == PutAt(PutAt(d, b2, k2, w2), b1, k1, w1)
  {
    if b1 < |d| && b2 < |d| {
      assert d[b1 := PutWord(d[b1], k1, w1)][b2 := PutWord(d[b2], k2, w2)]
          == d[b2 := PutWord(d[b2], k2, w2)][b1 := PutWord(d[b1], k1, w1)];
    }
  }

  /** An owned block leaves its place; it belongs to nobody then. */
  lemma DetachKeepsSound(d: Disk, d': Disk, files: set<FilePtr>, r: Ref)
    requires Sound(d, files) && IsRef(files, r) && Target(d, r) != 0 && NoHome(d, files, r)
    requires SameBitmap(d, d') && Shaped(d') && SameMeta(d, d', files)
    requires SameTargets(d, d', files, {r}) && Target(d', r) == 0
    ensures Sound(d', files) && Unowned(d', files, Target(d, r))
  {
    hide Target, IsDir, Field, IsFree;
    assert forall g :: g in files ==> (IsDir(d', g) <==> IsDir(d, g)) by { SameKinds(d, d', files); }
  }

  lemma SameKinds(d: Disk, d': Disk, files: set<FilePtr>)
    requires SameMeta(d, d', files)
    ensures forall g :: g in files ==> (IsDir(d', g) <==> IsDir(d, g))
  {
    hide Field;
  }

  /** Giving the block back and clearing the slot may be done in either order. */
  lemma FreeThenClear(d: Disk, files: set<FilePtr>, f: FilePtr, n: nat, t: nat)
    requires Sound(d, files) && f in files && n < MAXBLOCKS && t < NBlocks(d)
    requires n >= NDIRECT ==> Target(d, Indirect(f)) != 0
    ensures SetSlot(MarkFree(d, t), f, n, 0) == MarkFree(SetSlot(d, f, n, 0), t)
  {
    hide Bit, SetBit, Word, SameData, SameMeta;
    var b := if n < NDIRECT then f.block else Target(d, Indirect(f));
    var k := if n < NDIRECT then f.base + (F_DIRECT + n) else n - NDIRECT;
    assert IsRef(files, Indirect(f));
    FilePlace(d, files, f, 0);
    assert BitmapBlock(t) < Reserved(d);
    assert b != BitmapBlock(t);
    SlotStoreApart(d, files, f, t, n);
    PutAtCommute(d, BitmapBlock(t), t / 32 % WORDS, SetBit(BitmapWord(d, t), t % 32), b, k, 0);
  }

  lemma SlotStoreApart(d: Disk, files: set<FilePtr>, f: FilePtr, t: nat, n: nat)
    requires Sound(d, files) && f in files && t < NBlocks(d) && n < MAXBLOCKS
    requires n >= NDIRECT ==> Target(d, Indirect(f)) != 0
    ensures Target(MarkFree(d, t), Indirect(f)) == Target(d, Indirect(f))
    ensures BitmapWord(SetSlot(d, f, n, 0), t) == BitmapWord(d, t)
    ensures BitmapWord(PutAt(d, f.block, f.base + F_INDIRECT, 0), t) == BitmapWord(d, t)
  {
    hide Bit, SetBit, Word, SameData, SameMeta;
    assert IsRef(files, Indirect(f));
    MarkFreeCorrect(d, files, t);
    FilePlace(d, files, f, 0);
    assert BitmapBlock(t) < Reserved(d);
  }

  /** Blocks a regular file still has keep their bytes. */
  ghost predicate KeptData(d: Disk, d': Disk, files: set<FilePtr>) {
    forall g, n: nat :: g in files && !IsDir(d', g) && n < MAXBLOCKS && Target(d', Slot(g, n)) != 0 ==>
      BlockAt(d', Target(d', Slot(g, n))) == BlockAt(d, Target(d', Slot(g, n)))
  }

  /** What giving back one place's block does. */
  ghost predicate Released(d: Disk, d': Disk, files: set<FilePtr>, r: Ref) {
    && Sound(d', files) && |d'| == |d| && NBlocks(d') == NBlocks(d)
    && SameMeta(d, d', files) && KeptData(d, d', files)
    && SameTargets(d, d', files, {r}) && Target(d', r) == 0
    && (forall x :: IsFree(d', x) <==> IsFree(d, x) || x == Target(d, r))
  }

  lemma FreeFileBlockCorrect(d: Disk, files: set<FilePtr>, f: FilePtr, n: nat)
    requires Sound(d, files) && f in files && n < MAXBLOCKS && NoHome(d, files, Slot(f, n))
    ensures var o := FreeFileBlock(d, f, n);
            if Target(d, Slot(f, n)) == 0 then
              o == Out(d, if n >= NDIRECT && Target(d, Indirect(f)) == 0 then -E_NOT_FOUND else 0)
            else o.r == 0 && !IsFree(d, Target(d, Slot(f, n))) && Released(d, o.disk, files, Slot(f, n))
  {
    hide Bit, Word, SetBit, SameMeta, SameData, SameTargets, SetSlot, MarkFree;
    var t := Target(d, Slot(f, n));
    var r := Slot(f, n);
    if t != 0 {
      assert IsRef(files, r) && IsRef(files, Indirect(f));
      FreeThenClear(d, files, f, n, t);
      var d1 := SetSlot(d, f, n, 0);
      SetSlotCorrect(d, files, f, n, 0);
      DetachKeepsSound(d, d1, files, r);
      MarkFreeCorrect(d1, files, t);
      ReleaseCorrect(d, d1, MarkFree(d1, t), files, r);
    }
  }

  /** Detaching a block and then marking it free releases it. */
  lemma ReleaseCorrect(d: Disk, d1: Disk, d2: Disk, files: set<FilePtr>, r: Ref)
    requires Sound(d, files) && IsRef(files, r) && Target(d, r) != 0
    requires Sound(d1, files) && Unowned(d1, files, Target(d, r)) && SameBitmap(d, d1) && SameMeta(d, d1, files)
    requires SameData(d, d1, files) && SameTargets(d, d1, files, {r}) && Target(d1, r) == 0
    requires NBlocks(d2) == NBlocks(d1) && Shaped(d2) && SameMeta(d1, d2, files) && SameData(d1, d2, files)
    requires SameTargets(d1, d2, files, {}) && forall x :: IsFree(d2, x) <==> IsFree(d1, x) || x == Target(d, r)
    ensures Released(d, d2, files, r)
  {
    hide Bit, Word, Target, IsFree;
    BitmapKeepsSound(d1, d2, files, Target(d, r));
    DataAfterDetach(d, d1, d2, files, r);
  }

  lemma DataAfterDetach(d: Disk, d1: Disk, d2: Disk, files: set<FilePtr>, r: Ref)
    requires SameData(d, d1, files) && SameTargets(d, d1, files, {r}) && Target(d1, r) == 0 && SameMeta(d, d1, files)
    requires SameData(d1, d2, files) && SameTargets(d1, d2, files, {}) && SameMeta(d1, d2, files)
    ensures KeptData(d, d2, files)
  {
    hide Target, Word;
    forall g, n: nat | g in files && !IsDir(d2, g) && n < MAXBLOCKS && Target(d2, Slot(g, n)) != 0
      ensures BlockAt(d2, Target(d2, Slot(g, n))) == BlockAt(d, Target(d2, Slot(g, n)))
    {
      assert IsRef(files, Slot(g, n));
      assert Field(d2, g, F_TYPE) == Field(d1, g, F_TYPE) == Field(d, g, F_TYPE);
      assert Target(d2, Slot(g, n)) == Target(d1, Slot(g, n));
      assert Slot(g, n) != r;
    }
  }

  /** The end of file_truncate_blocks: the indirect block goes too. */
  function FreeIndirect(d: Disk, f: FilePtr): Disk {
    var t := Target(d, Indirect(f));
    if t == 0 then d else PutAt(MarkFree(d, t), f.block, f.base + F_INDIRECT, 0)
  }

  lemma FreeIndirectCorrect(d: Disk, files: set<FilePtr>, f: FilePtr)
    requires Sound(d, files) && f in files && Target(d, Indirect(f)) != 0
    requires forall n :: NDIRECT <= n < MAXBLOCKS ==> Target(d, Slot(f, n)) == 0
    ensures !IsFree(d, Target(d, Indirect(f))) && Released(d, FreeIndirect(d, f), files, Indirect(f))
  {
    hide Bit, Word, SetBit, SameMeta, SameData;
    var t := Target(d, Indirect(f));
    var r := Indirect(f);
    assert IsRef(files, r);
    ClearThenFree(d, files, f, t);
    var d1 := PutAt(d, f.block, f.base + F_INDIRECT, 0);
    FilePlace(d, files, f, 0);
    StoreIndirect(d, files, f, 0);
    assert SameTargets(d, d1, files, {r});
    IndirectNoHome(d, files, f);
    DetachKeepsSound(d, d1, files, r);
    MarkFreeCorrect(d1, files, t);
    ReleaseCorrect(d, d1, MarkFree(d1, t), files, r);
  }

  lemma ClearThenFree(d: Disk, files: set<FilePtr>, f: FilePtr, t: nat)
    requires Sound(d, files) && f in files && t < NBlocks(d)
    ensures PutAt(MarkFree(d, t), f.block, f.base + F_INDIRECT, 0)
              == MarkFree(PutAt(d, f.block, f.base + F_INDIRECT, 0), t)
  {
    hide Bit, SetBit, Word;
    FilePlace(d, files, f, 0);
    assert BitmapBlock(t) < Reserved(d);
    SlotStoreApart(d, files, f, t, 0);
    PutAtCommute(d, BitmapBlock(t), t / 32 % WORDS, SetBit(BitmapWord(d, t), t % 32), f.block, f.base + F_INDIRECT, 0);
  }

  // ---- Truncation ----

  /** The loop of file_truncate_blocks; errors are only reported. */
  function FreeRange(d: Disk, f: FilePtr, from: nat, to: nat): Disk
    decreases if from < to then to - from else 0
  {
    if from >= to then d else FreeRange(FreeFileBlock(d, f, from).disk, f, from + 1, to)
  }

  /** The allocated slots of a range. */
  ghost function Used(d: Disk, f: FilePtr, from: nat, to: nat): set<nat> {
    set n | from <= n < to && n < MAXBLOCKS && Target(d, Slot(f, n)) != 0
  }

  ghost function BlocksIn(d: Disk, f: FilePtr, ns: set<nat>): set<nat> {
    set n | n in ns :: Target(d, Slot(f, n))
  }

  /** What the loop has done: exactly the slots of the range are empty, exactly
      their blocks are free again. */
  ghost predicate RangeFreed(d: Disk, d': Disk, files: set<FilePtr>, f: FilePtr, from: nat, to: nat) {
    && Sound(d', files) && |d'| == |d| && NBlocks(d') == NBlocks(d) && SameMeta(d, d', files) && KeptData(d, d', files)
    && (forall r :: IsRef(files, r) ==>
          Target(d', r) == if r.Slot? && r.f == f && from <= r.n < to then 0 else Target(d, r))
    && (forall x :: IsFree(d', x) <==> IsFree(d, x) || x in BlocksIn(d, f, Used(d, f, from, to)))
  }

  lemma {:induction false} FreeRangeCorrect(d: Disk, files: set<FilePtr>, f: FilePtr, from: nat, to: nat)
    requires Sound(d, files) && f in files && Vacant(d, files, f, from)
    ensures RangeFreed(d, FreeRange(d, f, from, to), files, f, from, to)
    decreases if from < to then to - from else 0
  {
    hide RangeFreed, Sound, Released, SameMeta, Target, IsFree;
    if from >= to {
      NothingFreed(d, files, f, from, to);
    } else {
      FreeOne(d, files, f, from);
      StillVacant(d, FreeFileBlock(d, f, from).disk, files, f, from);
      var d1 := FreeFileBlock(d, f, from).disk;
      FreeRangeCorrect(d1, files, f, from + 1, to);
      RangeChain(d, d1, FreeRange(d1, f, from + 1, to), files, f, from, to);
    }
  }

  lemma NothingFreed(d: Disk, files: set<FilePtr>, f: FilePtr, from: nat, to: nat)
    requires Sound(d, files) && from >= to
    ensures RangeFreed(d, d, files, f, from, to)
  {
    hide Sound, IsFree, Target;
    assert Used(d, f, from, to) == {};
  }

  lemma FreeOne(d: Disk, files: set<FilePtr>, f: FilePtr, n: nat)
    requires Sound(d, files) && f in files && Vacant(d, files, f, n)
    ensures var d1 := FreeFileBlock(d, f, n).disk; RangeFreed(d, d1, files, f, n, n + 1) && Sound(d1, files)
  {
    hide Sound, IsFree, Target, KeptData, Word;
    if n < MAXBLOCKS {
      FreeFileBlockCorrect(d, files, f, n);
      assert Used(d, f, n, n + 1) == if Target(d, Slot(f, n)) != 0 then {n} else {};
      assert IsRef(files, Slot(f, n));
      if Target(d, Slot(f, n)) == 0 {
        KeptRefl(d, files);
      }
    } else {
      FarWalk(d, f, n);
      KeptRefl(d, files);
      assert Used(d, f, n, n + 1) == {};
    }
  }

  lemma StillVacant(d: Disk, d1: Disk, files: set<FilePtr>, f: FilePtr, n: nat)
    requires Sound(d, files) && f in files && Vacant(d, files, f, n) && RangeFreed(d, d1, files, f, n, n + 1)
    ensures Vacant(d1, files, f, n + 1)
  {
    hide Target, Word, IsFree;
    forall m | n + 1 <= m < MAXBLOCKS ensures NoHome(d1, files, Slot(f, m)) {
      assert IsRef(files, Slot(f, m)) && NoHome(d, files, Slot(f, m));
    }
  }

  lemma FarWalk(d: Disk, f: FilePtr, n: nat)
    requires n >= MAXBLOCKS
    ensures FreeFileBlock(d, f, n).disk == d
  {
  }

  /** Slots that no file can have need not be freed. */
  lemma {:induction false} FreeRangeFar(d: Disk, f: FilePtr, from: nat, a: nat, b: nat)
    requires a >= MAXBLOCKS && b >= MAXBLOCKS
    ensures FreeRange(d, f, from, a) == FreeRange(d, f, from, b)
    decreases (if from < a then a - from else 0) + (if from < b then b - from else 0)
  {
    hide FreeFileBlock;
    if from < a || from < b {
      if from >= MAXBLOCKS {
        FarWalk(d, f, from);
      }
      FreeRangeFar(FreeFileBlock(d, f, from).disk, f, from + 1, a, b);
    }
  }

  /** With the counts of the source, wrapped around or not, the loop frees what it
      should. */
  lemma FreeCounted(d: Disk, f: FilePtr, newsize: nat, size: nat)
    requires newsize < INT_LIMIT && size < INT_LIMIT
    ensures FreeRange(d, f, UnsignedCount(newsize), UnsignedCount(size))
              == FreeRange(d, f, Blocks(newsize), Blocks(size))
    ensures UnsignedCount(newsize) <= NDIRECT <==> Blocks(newsize) <= NDIRECT
  {
    hide FreeFileBlock;
    BlockCountExact(newsize);
    BlockCountExact(size);
    if size > INT_LIMIT - BLKSIZE {
      FreeRangeFar(d, f, UnsignedCount(newsize), UnsignedCount(size), Blocks(size));
    }
    if newsize > INT_LIMIT - BLKSIZE {
      FreeNothing(d, f, UnsignedCount(newsize), Blocks(size));
      FreeNothing(d, f, Blocks(newsize), Blocks(size));
    }
  }

  /** The same for the 32 bits of any size. */
  lemma TruncateCounted(d: Disk, f: FilePtr, newsize: nat)
    requires newsize < WORD_LIMIT && Size(d, f) < INT_LIMIT
    ensures var d1 := FreeRange(d, f, UnsignedCount(newsize), UnsignedCount(Size(d, f)));
            TruncateWord(d, f, newsize) == if UnsignedCount(newsize) <= NDIRECT then FreeIndirect(d1, f) else d1
  {
    hide FreeFileBlock, FreeIndirect, FreeRange, Size, UnsignedCount, Blocks;
    if newsize < INT_LIMIT {
      FreeCounted(d, f, newsize, Size(d, f));
    } else {
      NegativeCount(newsize);
      CountOfZero();
      FreeCounted(d, f, 0, Size(d, f));
      if UnsignedCount(newsize) != 0 {
        FreeNothing(d, f, UnsignedCount(newsize), UnsignedCount(Size(d, f)));
      }
    }
  }

  lemma CountOfZero()
    ensures UnsignedCount(0) == 0 && Blocks(0) == 0
  {
  }

  lemma {:induction false} FreeNothing(d: Disk, f: FilePtr, from: nat, to: nat)
    requires from >= MAXBLOCKS
    ensures FreeRange(d, f, from, to) == d
    decreases if from < to then to - from else 0
  {
    hide FreeFileBlock;
    if from < to {
      FarWalk(d, f, from);
      FreeNothing(d, f, from + 1, to);
    }
  }

  lemma KeptRefl(d: Disk, files: set<FilePtr>)
    ensures KeptData(d, d, files)
  {
  }

  lemma RangeChain(d: Disk, d1: Disk, d2: Disk, files: set<FilePtr>, f: FilePtr, from: nat, to: nat)
    requires f in files && from < to
    requires RangeFreed(d, d1, files, f, from, from + 1) && RangeFreed(d1, d2, files, f, from + 1, to)
    ensures RangeFreed(d, d2, files, f, from, to)
  {
    hide Sound, IsFree, Target, Word;
    forall n: nat | n < MAXBLOCKS ensures Target(d1, Slot(f, n)) == if n == from then 0 else Target(d, Slot(f, n)) {
      assert IsRef(files, Slot(f, n));
    }
    KeptChain(d, d1, d2, files, f, from, to);
    assert Used(d, f, from, to) == Used(d, f, from, from + 1) + Used(d1, f, from + 1, to);
    forall x ensures x in BlocksIn(d, f, Used(d, f, from, to)) <==>
                     x in BlocksIn(d, f, Used(d, f, from, from + 1)) || x in BlocksIn(d1, f, Used(d1, f, from + 1, to))
    {
    }
  }

  lemma KeptChain(d: Disk, d1: Disk, d2: Disk, files: set<FilePtr>, f: FilePtr, from: nat, to: nat)
    requires f in files && from < to
    requires RangeFreed(d, d1, files, f, from, from + 1) && RangeFreed(d1, d2, files, f, from + 1, to)
    ensures KeptData(d, d2, files)
  {
    hide Sound, IsFree, Target, Word;
    forall g, n: nat | g in files && !IsDir(d2, g) && n < MAXBLOCKS && Target(d2, Slot(g, n)) != 0
      ensures BlockAt(d2, Target(d2, Slot(g, n))) == BlockAt(d, Target(d2, Slot(g, n)))
    {
      assert IsRef(files, Slot(g, n));
      assert Field(d2, g, F_TYPE) == Field(d1, g, F_TYPE);
    }
  }

  /** file_truncate_blocks. */
  function Truncate(d: Disk, f: FilePtr, newsize: nat): Disk {
    var d1 := FreeRange(d, f, Blocks(newsize), Blocks(Size(d, f)));
    if Blocks(newsize) <= NDIRECT then FreeIndirect(d1, f) else d1
  }

  /** The blocks that truncation to `newsize` gives back. */
  ghost function Surplus(d: Disk, f: FilePtr, newsize: nat): set<nat> {
    BlocksIn(d, f, Used(d, f, Blocks(newsize), MAXBLOCKS))
    + (if Blocks(newsize) <= NDIRECT && Target(d, Indirect(f)) != 0 then {Target(d, Indirect(f))} else {})
  }

  /** Truncation empties exactly the slots at or past the new end, and the
      indirect block when no more than the direct slots remain; it frees exactly
      their blocks; and no byte before the new end of blocks changes. */
  ghost predicate Truncated(d: Disk, d': Disk, files: set<FilePtr>, f: FilePtr, newsize: nat) {
    && Sound(d', files) && |d'| == |d| && NBlocks(d') == NBlocks(d) && SameMeta(d, d', files) && KeptData(d, d', files)
    && (forall r :: IsRef(files, r) ==>
          Target(d', r) == if r.f == f && (if r.Slot? then r.n >= Blocks(newsize) else Blocks(newsize) <= NDIRECT)
                           then 0 else Target(d, r))
    && (forall x :: IsFree(d', x) <==> IsFree(d, x) || x in Surplus(d, f, newsize))
  }

  lemma TruncateCorrect(d: Disk, files: set<FilePtr>, f: FilePtr, newsize: nat)
    requires FsInv(d, files) && f in files && Vacant(d, files, f, Blocks(newsize))
    ensures Truncated(d, Truncate(d, f, newsize), files, f, newsize)
  {
    hide Sound, IsFree, Target, Word, Released, KeptData, FreeRange, FreeIndirect, SlotsFit;
    var a, b := Blocks(newsize), Blocks(Size(d, f));
    var d1 := FreeRange(d, f, a, b);
    FreeRangeCorrect(d, files, f, a, b);
    UsedFits(d, files, f, a, b);
    forall r | IsRef(files, r)
      ensures Target(d1, r) == if r.Slot? && r.f == f && r.n >= a then 0 else Target(d, r)
    {
      if r.Slot? && r.f == f && r.n >= b {
        EmptyPastEnd(d, files, f, r.n);
      }
    }
    assert IsRef(files, Indirect(f));
    if a <= NDIRECT {
      forall n | NDIRECT <= n < MAXBLOCKS ensures Target(d1, Slot(f, n)) == 0 {
        assert IsRef(files, Slot(f, n));
      }
      if Target(d1, Indirect(f)) != 0 {
        FreeIndirectCorrect(d1, files, f);
        DropIndirect(d, d1, FreeIndirect(d1, f), files, f, newsize);
      } else {
        NoIndirect(d1, f);
      }
    }
  }

  lemma NoIndirect(d: Disk, f: FilePtr)
    requires Target(d, Indirect(f)) == 0
    ensures FreeIndirect(d, f) == d
  {
  }

  lemma EmptyPastEnd(d: Disk, files: set<FilePtr>, f: FilePtr, n: nat)
    requires SlotsFit(d, files) && f in files && Blocks(Size(d, f)) <= n < MAXBLOCKS
    ensures Target(d, Slot(f, n)) == 0
  {
  }

  lemma UsedFits(d: Disk, files: set<FilePtr>, f: FilePtr, a: nat, b: nat)
    requires SlotsFit(d, files) && f in files && b == Blocks(Size(d, f))
    ensures Used(d, f, a, b) == Used(d, f, a, MAXBLOCKS)
  {
    forall n | a <= n < MAXBLOCKS && n >= b ensures Target(d, Slot(f, n)) == 0 {
      EmptyPastEnd(d, files, f, n);
    }
  }

  lemma DropIndirect(d: Disk, d1: Disk, d2: Disk, files: set<FilePtr>, f: FilePtr, newsize: nat)
    requires f in files && Blocks(newsize) <= NDIRECT && Target(d, Indirect(f)) == Target(d1, Indirect(f)) != 0
    requires Released(d1, d2, files, Indirect(f))
    requires |d1| == |d| && NBlocks(d1) == NBlocks(d) && SameMeta(d, d1, files) && KeptData(d, d1, files)
    requires forall r :: IsRef(files, r) ==>
               Target(d1, r) == if r.Slot? && r.f == f && r.n >= Blocks(newsize) then 0 else Target(d, r)
    requires forall x :: IsFree(d1, x) <==> IsFree(d, x) || x in BlocksIn(d, f, Used(d, f, Blocks(newsize), MAXBLOCKS))
    ensures Truncated(d, d2, files, f, newsize)
  {
    hide Sound, IsFree, Target, Word;
    forall g, n: nat | g in files && !IsDir(d2, g) && n < MAXBLOCKS && Target(d2, Slot(g, n)) != 0
      ensures BlockAt(d2, Target(d2, Slot(g, n))) == BlockAt(d, Target(d2, Slot(g, n)))
    {
      assert IsRef(files, Slot(g, n));
      assert Field(d2, g, F_TYPE) == Field(d1, g, F_TYPE);
    }
  }

  /** The number of free blocks rises by exactly the number of blocks given up. */
  lemma TruncateCounts(d: Disk, files: set<FilePtr>, f: FilePtr, newsize: nat)
    requires FsInv(d, files) && f in files && Vacant(d, files, f, Blocks(newsize))
    ensures var slots := |Used(d, f, Blocks(newsize), MAXBLOCKS)|;
            var table := if Blocks(newsize) <= NDIRECT && Target(d, Indirect(f)) != 0 then 1 else 0;
            |FreeSet(Truncate(d, f, newsize))| == |FreeSet(d)| + slots + table
  {
    hide IsFree, Word, Truncate;
    TruncateCorrect(d, files, f, newsize);
    var d' := Truncate(d, f, newsize);
    var ns := Used(d, f, Blocks(newsize), MAXBLOCKS);
    var t := Target(d, Indirect(f));
    assert IsRef(files, Indirect(f));
    forall n | n in ns ensures IsRef(files, Slot(f, n)) && Target(d, Slot(f, n)) != t {
      assert IsRef(files, Slot(f, n));
    }
    DistinctBlocks(d, files, f, ns);
    forall x | x in Surplus(d, f, newsize) ensures x < NBlocks(d) && !IsFree(d, x) {
    }
    assert FreeSet(d') == FreeSet(d) + Surplus(d, f, newsize);
    assert FreeSet(d) !! Surplus(d, f, newsize);
  }

  /** Different slots hold different blocks, so there are as many blocks as slots. */
  lemma {:induction false} DistinctBlocks(d: Disk, files: set<FilePtr>, f: FilePtr, ns: set<nat>)
    requires OwnedOnce(d, files) && f in files && forall n :: n in ns ==> n < MAXBLOCKS && Target(d, Slot(f, n)) != 0
    ensures |BlocksIn(d, f, ns)| == |ns|
    decreases |ns|
  {
    hide Target;
    if ns != {} {
      var n :| n in ns;
      DistinctBlocks(d, files, f, ns - {n});
      assert IsRef(files, Slot(f, n));
      forall m | m in ns - {n} ensures Target(d, Slot(f, m)) != Target(d, Slot(f, n)) {
        assert IsRef(files, Slot(f, m));
      }
      assert BlocksIn(d, f, ns) == BlocksIn(d, f, ns - {n}) + {Target(d, Slot(f, n))};
    }
  }

  // ---- Resizing ----

  /** file_set_size. */
  function SetSize(d: Disk, f: FilePtr, newsize: nat): Disk {
    PutSize(if Size(d, f) > newsize then Truncate(d, f, newsize) else d, f, newsize)
  }

  /** file_truncate_blocks for a size given by its 32 bits: a small negative one
      counts as zero, any other as more than every file has. */
  function TruncateWord(d: Disk, f: FilePtr, newsize: nat): Disk {
    if newsize < INT_LIMIT then Truncate(d, f, newsize)
    else if UnsignedCount(newsize) == 0 then Truncate(d, f, 0)
    else d
  }

  /** file_set_size for such a size. */
  function SetSizeWord(d: Disk, f: FilePtr, newsize: nat): Disk {
    if newsize < INT_LIMIT then SetSize(d, f, newsize) else PutSize(TruncateWord(d, f, newsize), f, newsize)
  }

  /** The blocks kept. */
  function KeptBlocks(newsize: nat): nat { if newsize < INT_LIMIT then Blocks(newsize) else 0 }

  lemma NegativeSizeCorrect(d: Disk, files: set<FilePtr>, f: FilePtr, newsize: nat)
    requires FsInv(d, files) && f in files && INT_LIMIT <= newsize < WORD_LIMIT && Vacant(d, files, f, 0)
    ensures Sound(TruncateWord(d, f, newsize), files) && Sound(SetSizeWord(d, f, newsize), files)
    ensures Size(SetSizeWord(d, f, newsize), f) == newsize
    ensures forall r :: IsRef(files, r) ==>
              Target(SetSizeWord(d, f, newsize), r) ==
              if r.f == f && WORD_LIMIT - newsize < 2 * BLKSIZE - 1 then 0 else Target(d, r)
  {
    hide Target, IsFree, Surplus, Truncate, Shaped, Raw, Vacant, SlotsFit;
    TruncateCorrect(d, files, f, 0);
    NegativeCount(newsize);
    StoreMetaSound(TruncateWord(d, f, newsize), files, f, F_SIZE, newsize);
  }

  /** A size that is negative breaks the invariant, and no other does. */
  lemma SetSizeWordCorrect(d: Disk, files: set<FilePtr>, f: FilePtr, newsize: nat)
    requires FsInv(d, files) && f in files && newsize < WORD_LIMIT && Vacant(d, files, f, KeptBlocks(newsize))
    ensures Sound(TruncateWord(d, f, newsize), files) && Sound(SetSizeWord(d, f, newsize), files)
    ensures Size(SetSizeWord(d, f, newsize), f) == newsize
    ensures FsInv(SetSizeWord(d, f, newsize), files) <==> newsize < INT_LIMIT
    ensures newsize >= INT_LIMIT ==>
              forall r :: IsRef(files, r) ==>
                Target(SetSizeWord(d, f, newsize), r) ==
                if r.f == f && WORD_LIMIT - newsize < 2 * BLKSIZE - 1 then 0 else Target(d, r)
  {
    hide Target, IsFree, Surplus, Truncate, Shaped, Raw;
    if newsize < INT_LIMIT {
      SetSizeCorrect(d, files, f, newsize);
      TruncateCorrect(d, files, f, newsize);
    } else {
      NegativeSizeCorrect(d, files, f, newsize);
    }
  }

  lemma SetSizeOthers(d: Disk, files: set<FilePtr>, f: FilePtr, newsize: nat)
    requires FsInv(d, files) && f in files && newsize < INT_LIMIT && Vacant(d, files, f, Blocks(newsize))
    ensures OthersKept(d, SetSize(d, f, newsize), files, f)
  {
    hide Sound, IsFree, Target, Word, Truncate, SlotsFit, Surplus, Raw;
    TruncateCorrect(d, files, f, newsize);
    var d1 := if Size(d, f) > newsize then Truncate(d, f, newsize) else d;
    StoreMetaSound(d1, files, f, F_SIZE, newsize);
  }

  /** The bytes of a file after resizing.  Within its blocks nothing changes,
      not even past the new end; what lies in blocks given up reads as zero. */
  function RawResized(d: Disk, f: FilePtr, newsize: nat, pos: nat): nat {
    if Size(d, f) > newsize && pos >= Blocks(newsize) * BLKSIZE then 0 else Raw(d, f, pos)
  }

  lemma SetSizeCorrect(d: Disk, files: set<FilePtr>, f: FilePtr, newsize: nat)
    requires FsInv(d, files) && f in files && newsize < INT_LIMIT && Vacant(d, files, f, Blocks(newsize))
    ensures var d' := SetSize(d, f, newsize);
            && FsInv(d', files) && |d'| == |d| && NBlocks(d') == NBlocks(d)
            && (forall g, j: nat :: g in files && j < F_DIRECT ==>
                  Field(d', g, j) == if g == f && j == F_SIZE then newsize else Field(d, g, j))
            && (forall g, pos: nat :: g in files && !IsDir(d, g) && pos < MAXBLOCKS * BLKSIZE ==>
                  Raw(d', g, pos) == if g == f then RawResized(d, f, newsize, pos) else Raw(d, g, pos))
            && (forall x :: IsFree(d', x) <==> IsFree(d, x) || (Size(d, f) > newsize && x in Surplus(d, f, newsize)))
  {
    hide Sound, IsFree, Target, Word, Truncate, SlotsFit, Surplus, Raw;
    TruncateCorrect(d, files, f, newsize);
    var d1 := if Size(d, f) > newsize then Truncate(d, f, newsize) else d;
    StoreMetaSound(d1, files, f, F_SIZE, newsize);
    ResizedFits(d, d1, SetSize(d, f, newsize), files, f, newsize);
    forall g, pos: nat | g in files && !IsDir(d, g) && pos < MAXBLOCKS * BLKSIZE
      ensures Raw(SetSize(d, f, newsize), g, pos) == if g == f then RawResized(d, f, newsize, pos) else Raw(d, g, pos)
    {
      assert Field(d1, g, F_TYPE) == Field(d, g, F_TYPE);
      if Size(d, f) > newsize {
        RawAfterTruncate(d, files, f, newsize, g, pos);
      }
    }
  }

  lemma ResizedFits(d: Disk, d1: Disk, d2: Disk, files: set<FilePtr>, f: FilePtr, newsize: nat)
    requires SlotsFit(d, files) && f in files && newsize < INT_LIMIT
    requires if Size(d, f) > newsize then Truncated(d, d1, files, f, newsize) else d1 == d
    requires SameTargets(d1, d2, files, {})
    requires forall g, j: nat :: g in files && j < F_DIRECT ==>
               Field(d2, g, j) == if g == f && j == F_SIZE then newsize else Field(d1, g, j)
    ensures SlotsFit(d2, files)
  {
    hide Sound, IsFree, Target, Word, Surplus;
    assert forall g :: g in files ==>
             Size(d2, g) == (if g == f then newsize else Size(d1, g)) && Size(d1, g) == Size(d, g);
    forall g, m | g in files && Blocks(Size(d2, g)) <= m < MAXBLOCKS ensures Target(d2, Slot(g, m)) == 0 {
      assert IsRef(files, Slot(g, m));
      assert Size(d2, g) == if g == f then newsize else Size(d1, g);
      assert Size(d1, g) == Size(d, g);
      if g == f && Size(d, f) <= newsize {
        assert Blocks(Size(d, f)) <= Blocks(newsize);
      }
    }
  }

  lemma RawAfterTruncate(d: Disk, files: set<FilePtr>, f: FilePtr, newsize: nat, g: FilePtr, pos: nat)
    requires Truncated(d, Truncate(d, f, newsize), files, f, newsize)
    requires g in files && !IsDir(d, g) && pos < MAXBLOCKS * BLKSIZE
    ensures Raw(Truncate(d, f, newsize), g, pos) ==
            if g == f && pos >= Blocks(newsize) * BLKSIZE then 0 else Raw(d, g, pos)
  {
    hide Sound, IsFree, Target, Word, Truncate, Surplus;
    var n := pos / BLKSIZE;
    var d' := Truncate(d, f, newsize);
    assert IsRef(files, Slot(g, n));
    assert Field(d', g, F_TYPE) == Field(d, g, F_TYPE);
    assert n >= Blocks(newsize) <==> pos >= Blocks(newsize) * BLKSIZE;
    if Target(d', Slot(g, n)) != 0 {
      assert BlockAt(d', Target(d', Slot(g, n))) == BlockAt(d, Target(d', Slot(g, n)));
    }
  }

  // ---- Removal ----

  /** `f->f_name[0] = '\0'`. */
  function ClearName(d: Disk, f: FilePtr): Disk {
    PutAt(d, f.block, f.base, Field(d, f, 0) - Field(d, f, 0) % 256)
  }

  /** file_remove once the path is resolved. */
  function RemoveFile(d: Disk, f: FilePtr): Disk {
    PutSize(ClearName(Truncate(d, f, 0), f), f, 0)
  }

  /** Removal frees everything the file had, empties its structure, and leaves
      every other file alone. */
  lemma RemoveFileCorrect(d: Disk, files: set<FilePtr>, f: FilePtr)
    requires FsInv(d, files) && f in files && Vacant(d, files, f, 0)
    ensures var d' := RemoveFile(d, f);
            && FsInv(d', files) && |d'| == |d| && NBlocks(d') == NBlocks(d)
            && Size(d', f) == 0 && Field(d', f, 0) == Field(d, f, 0) - Field(d, f, 0) % 256
            && (forall r :: IsRef(files, r) ==> Target(d', r) == if r.f == f then 0 else Target(d, r))
            && (forall g, j: nat :: g in files && j < F_DIRECT && !(g == f && j in {0, F_SIZE}) ==>
                  Field(d', g, j) == Field(d, g, j))
            && (forall g, pos: nat :: g in files && g != f && !IsDir(d, g) && pos < MAXBLOCKS * BLKSIZE ==>
                  Raw(d', g, pos) == Raw(d, g, pos))
            && (forall x :: IsFree(d', x) <==> IsFree(d, x) || x in Surplus(d, f, 0))
  {
    hide Sound, IsFree, Target, Word, Truncate, SlotsFit, Surplus, Raw, PutAt, KeptData;
    TruncateCorrect(d, files, f, 0);
    var d1 := Truncate(d, f, 0);
    FieldRange(d1, files, f, 0);
    StoreMetaSound(d1, files, f, 0, Field(d1, f, 0) - Field(d1, f, 0) % 256);
    var d2 := ClearName(d1, f);
    StoreMetaSound(d2, files, f, F_SIZE, 0);
    var d' := RemoveFile(d, f);
    RemovedFits(d, d1, d', files, f);
    forall g, pos: nat | g in files && g != f && !IsDir(d, g) && pos < MAXBLOCKS * BLKSIZE
      ensures Raw(d', g, pos) == Raw(d, g, pos)
    {
      assert Field(d2, g, F_TYPE) == Field(d1, g, F_TYPE) == Field(d, g, F_TYPE);
      RawAfterTruncate(d, files, f, 0, g, pos);
    }
    forall r | IsRef(files, r) ensures Target(d', r) == if r.f == f then 0 else Target(d, r) {
      assert Target(d', r) == Target(d2, r) == Target(d1, r);
    }
  }

  lemma FieldRange(d: Disk, files: set<FilePtr>, f: FilePtr, i: nat)
    requires Sound(d, files) && f in files && i < FILE_WORDS
    ensures Field(d, f, i) < WORD_LIMIT
  {
    FilePlace(d, files, f, i);
    WordRange(d[f.block], f.base + i);
  }

  lemma RemovedFits(d: Disk, d1: Disk, d2: Disk, files: set<FilePtr>, f: FilePtr)
    requires SlotsFit(d, files) && f in files && Truncated(d, d1, files, f, 0) && Size(d2, f) == 0
    requires forall r :: IsRef(files, r) ==> Target(d2, r) == Target(d1, r)
    requires forall g, j: nat :: g in files && g != f && j < F_DIRECT ==> Field(d2, g, j) == Field(d1, g, j)
    ensures SlotsFit(d2, files)
  {
    hide Sound, IsFree, Target, Word, Surplus;
    assert forall g :: g in files && g != f ==> Size(d2, g) == Size(d1, g) == Size(d, g);
    forall g, m | g in files && Blocks(Size(d2, g)) <= m < MAXBLOCKS ensures Target(d2, Slot(g, m)) == 0 {
      assert IsRef(files, Slot(g, m));
      if g != f {
        assert Size(d2, g) == Size(d1, g) == Size(d, g);
      }
    }
  }
}
