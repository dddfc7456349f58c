/** How many free blocks reading and writing need (fs/fs.c): when file_get_block,
    file_read and file_write run out of space. */
module FsSpace {
  import opened FsBytes
  import opened FsLayout
  import opened FsOps
  import opened Errors

  /** The blocks that file_get_block has to take for slot `n`. */
  function Lacks(d: Disk, f: FilePtr, n: nat): nat {
    if Target(d, Slot(f, n)) != 0 then 0
    else if n >= NDIRECT && Target(d, Indirect(f)) == 0 then 2
    else 1
  }

  ghost function EmptySlots(d: Disk, f: FilePtr, a: nat, b: nat): set<nat> {
    set n | a <= n < b && Target(d, Slot(f, n)) == 0
  }

  /** The blocks missing in the slots a..b, with the indirect block. */
  ghost function Holes(d: Disk, f: FilePtr, a: nat, b: nat): nat {
    |EmptySlots(d, f, a, b)| + if a < b && b > NDIRECT && Target(d, Indirect(f)) == 0 then 1 else 0
  }

  /** What a loop over the slots a..b that gets every block returns: zero, or the
      error it stops with. */
  ghost function Transfer(d: Disk, f: FilePtr, a: nat, b: nat): int {
    if a >= b then 0
    else if a < MAXBLOCKS && Holes(d, f, a, if b < MAXBLOCKS then b else MAXBLOCKS) > |FreeSet(d)| then -E_NO_DISK
    else if b > MAXBLOCKS then -E_INVAL
    else 0
  }

  /** The same for the bytes [offset, offset + n). */
  ghost function TransferBytes(d: Disk, f: FilePtr, offset: nat, n: nat): int {
    if n == 0 then 0 else Transfer(d, f, offset / BLKSIZE, (offset + n - 1) / BLKSIZE + 1)
  }

  lemma FreeAfterAlloc(d: Disk, files: set<FilePtr>)
    requires Sound(d, files)
    ensures var o := AllocCleared(d);
            if FreeSet(d) == {} then o == Out(d, -E_NO_DISK)
            else o.r >= 0 && |FreeSet(o.disk)| == |FreeSet(d)| - 1
  {
    hide IsFree, AllocCleared;
    AllocClearedCorrect(d, files);
    if FreeSet(d) != {} {
      var o := AllocCleared(d);
      assert o.r in FreeSet(d) && FreeSet(o.disk) == FreeSet(d) - {o.r};
    }
  }

  lemma SameFree(d: Disk, d': Disk)
    requires SameBitmap(d, d')
    ensures FreeSet(d') == FreeSet(d)
  {
    hide IsFree;
  }

  /** Hooking up the new indirect block or the new data block frees nothing. */
  lemma HookFree(d: Disk, files: set<FilePtr>, f: FilePtr, n: nat, b: nat)
    requires Sound(d, files) && f in files && n < MAXBLOCKS && Unowned(d, files, b)
    ensures FreeSet(PutAt(d, f.block, f.base + F_INDIRECT, b)) == FreeSet(d)
    ensures n < NDIRECT || Target(d, Indirect(f)) != 0 ==> FreeSet(SetSlot(d, f, n, b)) == FreeSet(d)
  {
    hide Sound, IsFree, SetSlot, PutAt, Target;
    BlockRange(d, files, f, b);
    StoreIndirect(d, files, f, b);
    SameFree(d, PutAt(d, f.block, f.base + F_INDIRECT, b));
    if n < NDIRECT || Target(d, Indirect(f)) != 0 {
      SetSlotCorrect(d, files, f, n, b);
      SameFree(d, SetSlot(d, f, n, b));
    }
  }

  lemma BlockRange(d: Disk, files: set<FilePtr>, f: FilePtr, b: nat)
    requires Sound(d, files) && f in files && Unowned(d, files, b)
    ensures b < WORD_LIMIT && b != f.block && b < |d|
  {
    hide IsFree, Target;
  }

  /** The walk takes a block exactly for a missing indirect block. */
  lemma WalkSpace(d: Disk, files: set<FilePtr>, f: FilePtr, n: nat)
    requires Sound(d, files) && f in files && n < MAXBLOCKS
    ensures var w := BlockWalk(d, f, n, true); var more := if n >= NDIRECT && Target(d, Indirect(f)) == 0 then 1 else 0;
            if more > |FreeSet(d)| then w == Out(d, -E_NO_DISK)
              else w.r == 0 && |FreeSet(w.disk)| == |FreeSet(d)| - more
    ensures var w := BlockWalk(d, f, n, true);
            w.r == 0 ==> (Target(w.disk, Indirect(f)) == 0 <==> n < NDIRECT && Target(d, Indirect(f)) == 0)
  {
    hide Sound, IsFree, AllocCleared, PutAt, Target, Unowned;
    WalkCorrect(d, files, f, n);
    FreeAfterAlloc(d, files);
    if n >= NDIRECT && Target(d, Indirect(f)) == 0 && FreeSet(d) != {} {
      AllocClearedCorrect(d, files);
      var o := AllocCleared(d);
      HookFree(o.disk, files, f, n, o.r);
    }
  }

  /** file_get_block succeeds exactly when there are enough free blocks, and takes
      exactly those. */
  lemma GetBlockSpace(d: Disk, files: set<FilePtr>, f: FilePtr, n: nat)
    requires FsInv(d, files) && f in files && n < Blocks(Size(d, f)) && n < MAXBLOCKS
    ensures var o := GetBlock(d, f, n);
            if Lacks(d, f, n) > |FreeSet(d)| then o.r == -E_NO_DISK
            else o.r >= 0 && |FreeSet(o.disk)| == |FreeSet(d)| - Lacks(d, f, n)
    ensures var o := GetBlock(d, f, n);
            o.r >= 0 ==> (Target(o.disk, Indirect(f)) == 0 <==> n < NDIRECT && Target(d, Indirect(f)) == 0)
  {
    hide Sound, IsFree, AllocCleared, SetSlot, BlockWalk, Target, Extends, Unowned;
    WalkCorrect(d, files, f, n);
    WalkSpace(d, files, f, n);
    var w := BlockWalk(d, f, n, true);
    assert IsRef(files, Slot(f, n)) && IsRef(files, Indirect(f));
    if w.r == 0 && Target(w.disk, Slot(f, n)) == 0 {
      ExtendsSound(d, w.disk, files);
      FreeAfterAlloc(w.disk, files);
      AllocClearedCorrect(w.disk, files);
      if FreeSet(w.disk) != {} {
        var o := AllocCleared(w.disk);
        HookFree(o.disk, files, f, n, o.r);
        SlotKeepsTable(o.disk, files, f, n, o.r);
      }
    }
    SlotNeedsTable(d, f, n);
  }

  lemma SlotNeedsTable(d: Disk, f: FilePtr, n: nat)
    ensures n >= NDIRECT && Target(d, Indirect(f)) == 0 ==> Target(d, Slot(f, n)) == 0
  {
  }

  lemma SlotKeepsTable(d: Disk, files: set<FilePtr>, f: FilePtr, n: nat, b: nat)
    requires Sound(d, files) && f in files && n < MAXBLOCKS && Unowned(d, files, b)
    requires n < NDIRECT || Target(d, Indirect(f)) != 0
    ensures Target(SetSlot(d, f, n, b), Indirect(f)) == Target(d, Indirect(f))
  {
    hide Sound, IsFree, SetSlot, Target;
    BlockRange(d, files, f, b);
    SetSlotCorrect(d, files, f, n, b);
    assert IsRef(files, Indirect(f));
  }

  /** Getting slot `a` fills exactly its part of the holes. */
  lemma HolesStep(d: Disk, files: set<FilePtr>, f: FilePtr, a: nat, b: nat)
    requires FsInv(d, files) && f in files && a < Blocks(Size(d, f)) && a < b <= MAXBLOCKS
    ensures var o := GetBlock(d, f, a);
            o.r >= 0 ==>
              Target(o.disk, Slot(f, a)) != 0 && Holes(o.disk, f, a + 1, b) == Holes(d, f, a, b) - Lacks(d, f, a)
  {
    hide FsInv, FreeSet, GetBlock, Target, Extends, Lacks, Holes;
    GetBlockCorrect(d, files, f, a);
    GetBlockSpace(d, files, f, a);
    var d' := GetBlock(d, f, a).disk;
    if GetBlock(d, f, a).r >= 0 {
      assert forall n :: 0 <= n < MAXBLOCKS ==> IsRef(files, Slot(f, n));
      HolesAfter(d, d', f, a, b);
    }
  }

  lemma HolesAfter(d: Disk, d': Disk, f: FilePtr, a: nat, b: nat)
    requires a < b <= MAXBLOCKS && forall n :: a < n < b ==> Target(d', Slot(f, n)) == Target(d, Slot(f, n))
    requires Target(d', Indirect(f)) == 0 <==> a < NDIRECT && Target(d, Indirect(f)) == 0
    ensures Holes(d', f, a + 1, b) == Holes(d, f, a, b) - Lacks(d, f, a)
  {
    hide Target;
    SlotNeedsTable(d, f, a);
    var rest := EmptySlots(d, f, a + 1, b);
    assert EmptySlots(d', f, a + 1, b) == rest;
    assert EmptySlots(d, f, a, b) == rest + if Target(d, Slot(f, a)) == 0 then {a} else {};
  }

  /** What follows a block that has been got is what was expected before. */
  lemma TransferStep(d: Disk, files: set<FilePtr>, f: FilePtr, a: nat, b: nat)
    requires FsInv(d, files) && f in files && a < Blocks(Size(d, f)) && a < b
    ensures var o := GetBlock(d, f, a);
            if o.r < 0 then Transfer(d, f, a, b) == o.r else Transfer(o.disk, f, a + 1, b) == Transfer(d, f, a, b)
  {
    hide Sound, IsFree, GetBlock, Target, Extends, SlotsFit, Lacks;
    GetBlockCorrect(d, files, f, a);
    if a < MAXBLOCKS {
      var e := if b < MAXBLOCKS then b else MAXBLOCKS;
      GetBlockSpace(d, files, f, a);
      HolesStep(d, files, f, a, e);
      LacksPart(d, f, a, e);
      assert EmptySlots(GetBlock(d, f, a).disk, f, e, e) == {};
    }
  }

  lemma LacksPart(d: Disk, f: FilePtr, a: nat, b: nat)
    requires a < b
    ensures Lacks(d, f, a) <= Holes(d, f, a, b)
  {
    hide Target;
    if Target(d, Slot(f, a)) == 0 {
      assert a in EmptySlots(d, f, a, b);
    }
  }

  /** Where every slot has its block, every transfer succeeds. */
  lemma NoHoles(d: Disk, f: FilePtr, a: nat, b: nat)
    requires b <= MAXBLOCKS && forall n :: a <= n < b ==> Target(d, Slot(f, n)) != 0
    ensures Transfer(d, f, a, b) == 0
  {
    hide Target;
    if a < b {
      assert EmptySlots(d, f, a, b) == {};
      SlotNeedsTable(d, f, b - 1);
      assert Target(d, Slot(f, b - 1)) != 0;
    }
  }

  /** A change that moves no block and frees none changes no transfer. */
  lemma TransferFrame(d: Disk, d': Disk, files: set<FilePtr>, f: FilePtr, a: nat, b: nat)
    requires f in files && SameTargets(d, d', files, {}) && FreeSet(d') == FreeSet(d)
    ensures Transfer(d', f, a, b) == Transfer(d, f, a, b)
  {
    hide Target;
    var e := if b < MAXBLOCKS then b else MAXBLOCKS;
    assert IsRef(files, Indirect(f)) && forall n :: 0 <= n < MAXBLOCKS ==> IsRef(files, Slot(f, n));
    assert EmptySlots(d', f, a, e) == EmptySlots(d, f, a, e);
  }

  /** Every block that holds one of the bytes [offset, offset + n) is there. */
  predicate Allocated(d: Disk, f: FilePtr, offset: nat, n: nat) {
    n > 0 ==>
      && (offset + n - 1) / BLKSIZE < MAXBLOCKS
      && forall k :: offset / BLKSIZE <= k <= (offset + n - 1) / BLKSIZE ==> Target(d, Slot(f, k)) != 0
  }

  lemma AllocatedTransfers(d: Disk, f: FilePtr, offset: nat, n: nat, start: nat, count: nat)
    requires Allocated(d, f, offset, n) && offset <= start && start + count <= offset + n
    ensures TransferBytes(d, f, start, count) == 0
  {
    hide Target, Transfer;
    if count > 0 {
      var a, b := start / BLKSIZE, (start + count - 1) / BLKSIZE + 1;
      assert offset / BLKSIZE <= a <= b - 1 <= (offset + n - 1) / BLKSIZE;
      assert Target(d, Slot(f, b - 1)) != 0;
      NoHoles(d, f, a, b);
    }
  }

  /** A transfer that succeeds stays within the largest file. */
  lemma TransferInside(d: Disk, f: FilePtr, offset: nat, n: nat)
    ensures TransferBytes(d, f, offset, n) in {0, -E_NO_DISK, -E_INVAL}
    ensures TransferBytes(d, f, offset, n) == 0 && n > 0 ==> offset + n <= MAXBLOCKS * BLKSIZE
  {
    hide Holes, FreeSet;
  }

  /** The part of a transfer behind the `bn` bytes of its first block. */
  lemma TransferRest(d: Disk, d': Disk, f: FilePtr, pos: nat, left: nat, bn: nat)
    requires 0 < left && bn == (if BLKSIZE - pos % BLKSIZE < left then BLKSIZE - pos % BLKSIZE else left)
    requires Transfer(d', f, pos / BLKSIZE + 1, (pos + left - 1) / BLKSIZE + 1)
               == Transfer(d, f, pos / BLKSIZE, (pos + left - 1) / BLKSIZE + 1)
    ensures TransferBytes(d', f, pos + bn, left - bn) == TransferBytes(d, f, pos, left)
  {
    hide Holes, FreeSet;
    if bn < left {
      assert (pos + bn) / BLKSIZE == pos / BLKSIZE + 1;
    } else {
      assert (pos + left - 1) / BLKSIZE == pos / BLKSIZE;
    }
  }

  /** Getting the block at `pos` keeps the bytes before it allocated and adds those
      up to the end of the block. */
  lemma AllocatedStep(d: Disk, d': Disk, files: set<FilePtr>, f: FilePtr, offset: nat, n: nat, bn: nat)
    requires f in files && Allocated(d, f, offset, n) && 0 < bn <= BLKSIZE - (offset + n) % BLKSIZE
    requires var k := (offset + n) / BLKSIZE;
             k < MAXBLOCKS && Target(d', Slot(f, k)) != 0 && SameTargets(d, d', files, {Indirect(f), Slot(f, k)})
    ensures Allocated(d', f, offset, n + bn)
  {
    hide Target;
    var last := (offset + n) / BLKSIZE;
    assert (offset + n + bn - 1) / BLKSIZE == last;
    forall k | offset / BLKSIZE <= k <= last ensures Target(d', Slot(f, k)) != 0 {
      assert IsRef(files, Slot(f, k));
    }
  }

  lemma AllocatedFrame(d: Disk, d': Disk, files: set<FilePtr>, f: FilePtr, offset: nat, n: nat)
    requires f in files && Allocated(d, f, offset, n) && SameTargets(d, d', files, {})
    ensures Allocated(d', f, offset, n)
  {
    hide Target;
    forall k | n > 0 && offset / BLKSIZE <= k <= (offset + n - 1) / BLKSIZE ensures Target(d', Slot(f, k)) != 0 {
      assert Target(d, Slot(f, k)) != 0 && IsRef(files, Slot(f, k));
    }
  }

  // ---- What a transfer takes ----

  /** The free blocks left over once every block of [offset, offset + n) is there. */
  ghost function Spare(d: Disk, f: FilePtr, offset: nat, n: nat): int {
    |FreeSet(d)| - if n == 0 then 0 else Holes(d, f, offset / BLKSIZE, (offset + n - 1) / BLKSIZE + 1)
  }

  /** Slots outside the range hold the same blocks. */
  predicate SameOutside(d: Disk, d': Disk, f: FilePtr, offset: nat, n: nat) {
    forall k :: 0 <= k < MAXBLOCKS && !(n > 0 && offset / BLKSIZE <= k <= (offset + n - 1) / BLKSIZE) ==>
      Target(d', Slot(f, k)) == Target(d, Slot(f, k))
  }

  /** Getting the first block of the range takes nothing from what is left over. */
  lemma SpareStep(d: Disk, files: set<FilePtr>, f: FilePtr, pos: nat, left: nat)
    requires FsInv(d, files) && f in files && 0 < left && pos + left <= MAXBLOCKS * BLKSIZE
             && pos / BLKSIZE < Blocks(Size(d, f))
    ensures var o := GetBlock(d, f, pos / BLKSIZE);
            o.r >= 0 ==>
              |FreeSet(o.disk)| - Holes(o.disk, f, pos / BLKSIZE + 1, (pos + left - 1) / BLKSIZE + 1)
                == Spare(d, f, pos, left)
  {
    hide FsInv, FreeSet, GetBlock, Target, Holes, Lacks;
    var a, b := pos / BLKSIZE, (pos + left - 1) / BLKSIZE + 1;
    assert a < b <= MAXBLOCKS;
    GetBlockSpace(d, files, f, a);
    HolesStep(d, files, f, a, b);
  }

  lemma SpareRest(d: Disk, f: FilePtr, pos: nat, left: nat, bn: nat)
    requires 0 < left && bn == (if BLKSIZE - pos % BLKSIZE < left then BLKSIZE - pos % BLKSIZE else left)
    ensures Spare(d, f, pos + bn, left - bn)
              == |FreeSet(d)| - Holes(d, f, pos / BLKSIZE + 1, (pos + left - 1) / BLKSIZE + 1)
  {
    hide FreeSet, Target;
    if bn < left {
      assert (pos + bn) / BLKSIZE == pos / BLKSIZE + 1;
    } else {
      assert (pos + left - 1) / BLKSIZE == pos / BLKSIZE;
      assert EmptySlots(d, f, pos / BLKSIZE + 1, pos / BLKSIZE + 1) == {};
    }
  }

  lemma HolesFrame(d: Disk, d': Disk, files: set<FilePtr>, f: FilePtr, a: nat, b: nat)
    requires f in files && SameTargets(d, d', files, {}) && b <= MAXBLOCKS
    ensures Holes(d', f, a, b) == Holes(d, f, a, b)
  {
    hide Target;
    assert IsRef(files, Indirect(f)) && forall n :: 0 <= n < MAXBLOCKS ==> IsRef(files, Slot(f, n));
    assert EmptySlots(d', f, a, b) == EmptySlots(d, f, a, b);
  }

  lemma SameOutsideStep(d: Disk, d0: Disk, d1: Disk, d2: Disk, files: set<FilePtr>, f: FilePtr, offset: nat, n: nat,
      bn: nat)
    requires f in files && SameOutside(d, d0, f, offset, n) && 0 < bn <= BLKSIZE - (offset + n) % BLKSIZE
    requires SameTargets(d0, d1, files, {Indirect(f), Slot(f, (offset + n) / BLKSIZE)})
             && SameTargets(d1, d2, files, {})
    ensures SameOutside(d, d2, f, offset, n + bn)
  {
    hide Target;
    assert (offset + n + bn - 1) / BLKSIZE == (offset + n) / BLKSIZE;
    assert forall k :: 0 <= k < MAXBLOCKS ==> IsRef(files, Slot(f, k));
  }
}
