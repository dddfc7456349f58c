/** The file system on disk (inc/fs.h, fs/fs.c): super block, free bitmap, File
    structures, direct and indirect block pointers, all as bytes of blocks.

    A value of type Disk is the content of every block as the file system sees
    it through its block cache.
 */
module FsLayout {
  import opened FsBytes

  type Disk = seq<Block>

  const NDIRECT: nat := 10
  const NINDIRECT: nat := 1024
  const MAXBLOCKS: nat := 1034
  const BLKBITSIZE: nat := 32768
  const MAXDISK: nat := 0xC0000        // DISKSIZE / BLKSIZE
  const FILE_WORDS: nat := 64          // sizeof(struct File) / 4
  const F_SIZE: nat := 32
  const F_TYPE: nat := 33
  const F_DIRECT: nat := 34
  const F_INDIRECT: nat := 44
  const FTYPE_REG: nat := 0
  const FTYPE_DIR: nat := 1
  const INT_LIMIT: nat := 0x8000_0000

  /** A pointer to a File structure: its block and the index of its first word. */
  datatype FilePtr = FilePtr(block: nat, base: nat)

  const ROOT: FilePtr := FilePtr(1, 2) // &super->s_root

  function BlockAt(d: Disk, b: nat): Block { if b < |d| then d[b] else [] }

  function WordAt(d: Disk, b: nat, k: nat): nat { Word(BlockAt(d, b), k) }

  function PutAt(d: Disk, b: nat, k: nat, w: nat): Disk {
    if b < |d| then d[b := PutWord(d[b], k, w)] else d
  }

  /** super->s_nblocks. */
  function NBlocks(d: Disk): nat { WordAt(d, 1, 1) }

  /** Blocks 0, 1 and the bitmap. */
  function Reserved(d: Disk): nat { 2 + (NBlocks(d) + BLKBITSIZE - 1) / BLKBITSIZE }

  /** The bitmap has a bit for every block, and no block that it does not need. */
  lemma ReservedExactly(d: Disk, b: nat)
    ensures b < NBlocks(d) ==> 2 + b / BLKBITSIZE < Reserved(d)
    ensures NBlocks(d) > 0 ==> Reserved(d) == 3 + (NBlocks(d) - 1) / BLKBITSIZE
    ensures NBlocks(d) == 0 ==> Reserved(d) == 2
  {
    hide NBlocks;
  }

  /** block_is_free: `bitmap[blockno / 32] & (1 << (blockno % 32))`. */
  predicate IsFree(d: Disk, b: nat) {
    b < NBlocks(d) && Bit(WordAt(d, 2 + b / BLKBITSIZE, b / 32 % WORDS), b % 32)
  }

  function Field(d: Disk, f: FilePtr, i: nat): nat { WordAt(d, f.block, f.base + i) }

  function Size(d: Disk, f: FilePtr): nat { Field(d, f, F_SIZE) }

  predicate IsDir(d: Disk, f: FilePtr) { Field(d, f, F_TYPE) == FTYPE_DIR }

  /** Blocks needed for `size` bytes. */
  function Blocks(size: nat): nat { (size + BLKSIZE - 1) / BLKSIZE }

  /** `(size + BLKSIZE - 1) / BLKSIZE` as the source computes it, on signed 32-bit
      numbers that wrap around and divide towards zero. */
  function BlockCount(size: nat): int {
    var sum := (size + BLKSIZE - 1) % WORD_LIMIT;
    if sum < INT_LIMIT then sum / BLKSIZE else -((WORD_LIMIT - sum) / BLKSIZE)
  }

  /** The same number stored in a uint32_t. */
  function UnsignedCount(size: nat): nat {
    if BlockCount(size) < 0 then BlockCount(size) + WORD_LIMIT else BlockCount(size)
  }

  /** The count is right exactly up to a size of 2^31 - 4096; beyond, it is negative,
      or far more than a file can have. */
  lemma BlockCountExact(size: nat)
    requires size < INT_LIMIT
    ensures if size <= INT_LIMIT - BLKSIZE then BlockCount(size) == UnsignedCount(size) == Blocks(size)
            else BlockCount(size) < 0 && UnsignedCount(size) > MAXBLOCKS && Blocks(size) > MAXBLOCKS
  {
  }

  /** For a negative size, given by its 32 bits, the count is zero, or far more than
      a file can have. */
  lemma NegativeCount(size: nat)
    requires INT_LIMIT <= size < WORD_LIMIT
    ensures if size > WORD_LIMIT - 2 * BLKSIZE + 1 then UnsignedCount(size) == 0 else UnsignedCount(size) > INT_LIMIT
  {
  }

  /** The places that hold the numbers of a file's blocks. */
  datatype Ref = Indirect(f: FilePtr) | Slot(f: FilePtr, n: nat)

  predicate IsRef(files: set<FilePtr>, r: Ref) {
    r.f in files && (r.Slot? ==> r.n < MAXBLOCKS)
  }

  /** The block number at a place; zero is the null block. */
  function Target(d: Disk, r: Ref): nat {
    match r
    case Indirect(f) => Field(d, f, F_INDIRECT)
    case Slot(f, n) =>
      if n < NDIRECT then Field(d, f, F_DIRECT + n)
      else if Field(d, f, F_INDIRECT) == 0 then 0
      else WordAt(d, Field(d, f, F_INDIRECT), n - NDIRECT)
  }

  // ---- The invariant ----

  ghost predicate Shaped(d: Disk) {
    && |d| == NBlocks(d) && Reserved(d) <= |d| <= MAXDISK
    && forall b :: 0 <= b < |d| ==> IsBlock(d[b])
  }

  ghost predicate ReservedInUse(d: Disk) {
    forall b :: 0 <= b < Reserved(d) ==> !IsFree(d, b)
  }

  /** Every File structure lies in the super block or in a block in use. */
  ghost predicate Placed(d: Disk, files: set<FilePtr>) {
    forall f :: f in files ==>
      f == ROOT || (f.base % FILE_WORDS == 0 && f.base < WORDS && Reserved(d) <= f.block < |d| && !IsFree(d, f.block))
  }

  /** Every block of a file is a block in use, and not a reserved one. */
  ghost predicate OwnedInUse(d: Disk, files: set<FilePtr>) {
    forall r :: IsRef(files, r) && Target(d, r) != 0 ==>
      Reserved(d) <= Target(d, r) < |d| && !IsFree(d, Target(d, r))
  }

  /** No block is owned twice. */
  ghost predicate OwnedOnce(d: Disk, files: set<FilePtr>) {
    forall r, s :: IsRef(files, r) && IsRef(files, s) && Target(d, r) != 0 && Target(d, r) == Target(d, s) ==> r == s
  }

  /** A block that holds File structures is nobody's block, or a data block of
      a directory. */
  ghost predicate HomesApart(d: Disk, files: set<FilePtr>) {
    forall r, g :: IsRef(files, r) && g in files && Target(d, r) == g.block ==> r.Slot? && IsDir(d, r.f)
  }

  /** Sizes are not negative as 32-bit numbers, and slots past the end of a file
      are empty. */
  ghost predicate SlotsFit(d: Disk, files: set<FilePtr>) {
    && (forall f :: f in files ==> Size(d, f) < INT_LIMIT)
    && (forall f, n :: f in files && Blocks(Size(d, f)) <= n < MAXBLOCKS ==> Target(d, Slot(f, n)) == 0)
  }

  ghost predicate Sound(d: Disk, files: set<FilePtr>) {
    && Shaped(d) && ReservedInUse(d) && Placed(d, files) && OwnedInUse(d, files)
    && OwnedOnce(d, files) && HomesApart(d, files)
  }

  ghost predicate FsInv(d: Disk, files: set<FilePtr>) {
    Sound(d, files) && SlotsFit(d, files)
  }

  // ---- Content ----

  /** The byte at `pos`, whether or not the file reaches that far; a hole reads
      as zero. */
  function Raw(d: Disk, f: FilePtr, pos: nat): nat {
    var t := Target(d, Slot(f, pos / BLKSIZE));
    if t == 0 || t >= |d| || |d[t]| != BLKSIZE then 0 else d[t][pos % BLKSIZE]
  }

  /** The content of a file. */
  function Content(d: Disk, f: FilePtr): seq<nat> {
    seq(Size(d, f), pos requires 0 <= pos => Raw(d, f, pos))
  }

  // ---- Blocks that may be accessed ----

  /** diskaddr accepts the number, and the page fault handler accepts the block. */
  predicate InUse(d: Disk, b: nat) {
    0 < b < |d| && |d| == NBlocks(d) && !IsFree(d, b)
  }

  /** Every access the file system makes is to such a block: the panics in
      diskaddr and bc_pgfault are unreachable. */
  lemma ReservedAccess(d: Disk, files: set<FilePtr>, b: nat)
    requires Sound(d, files) && 0 < b < Reserved(d)
    ensures InUse(d, b)
  {
  }

  lemma HomeAccess(d: Disk, files: set<FilePtr>, f: FilePtr)
    requires Sound(d, files) && f in files
    ensures InUse(d, f.block)
  {
  }

  lemma OwnedAccess(d: Disk, files: set<FilePtr>, r: Ref)
    requires Sound(d, files) && IsRef(files, r) && Target(d, r) != 0
    ensures InUse(d, Target(d, r))
  {
  }

  // ---- What a store does ----

  /** The places of every file but those in `rs` hold the same. */
  ghost predicate SameTargets(d: Disk, d': Disk, files: set<FilePtr>, rs: set<Ref>) {
    forall r :: IsRef(files, r) && r !in rs ==> Target(d', r) == Target(d, r)
  }

  /** The data blocks of regular files keep their bytes. */
  ghost predicate SameData(d: Disk, d': Disk, files: set<FilePtr>) {
    forall g, n: nat :: g in files && !IsDir(d, g) && n < MAXBLOCKS && Target(d, Slot(g, n)) != 0 ==>
      BlockAt(d', Target(d, Slot(g, n))) == BlockAt(d, Target(d, Slot(g, n)))
  }

  /** Sizes, types and names: everything in a File structure but its pointers. */
  ghost predicate SameMeta(d: Disk, d': Disk, files: set<FilePtr>) {
    forall f, i: nat :: f in files && i < F_DIRECT ==> Field(d', f, i) == Field(d, f, i)
  }

  ghost predicate SameBitmap(d: Disk, d': Disk) {
    NBlocks(d') == NBlocks(d) && |d'| == |d| && forall b :: IsFree(d', b) == IsFree(d, b)
  }

  lemma PutAtWords(d: Disk, b: nat, k: nat, w: nat)
    requires b < |d| && IsBlock(d[b]) && k < WORDS && w < WORD_LIMIT
    ensures var d' := PutAt(d, b, k, w);
            && |d'| == |d| && IsBlock(d'[b])
            && (forall x: nat, j: nat :: WordAt(d', x, j) == if x == b && j == k then w else WordAt(d, x, j))
  {
    PutWordCorrect(d[b], k, w);
  }

  lemma FilePlace(d: Disk, files: set<FilePtr>, f: FilePtr, i: nat)
    requires Sound(d, files) && f in files && i < FILE_WORDS
    ensures f.block < |d| && f.base + i < WORDS && f.block != 0
    ensures !(2 <= f.block < Reserved(d)) && !(f.block == 1 && f.base + i == 1)
  {
  }

  lemma FilesApart(d: Disk, files: set<FilePtr>, f: FilePtr, i: nat, g: FilePtr, j: nat)
    requires Sound(d, files) && f in files && g in files && i < FILE_WORDS && j < FILE_WORDS
    requires f.block == g.block && f.base + i == g.base + j
    ensures f == g && i == j
  {
  }

  /** A store into a field of a File structure reaches that field only. */
  lemma StoreField(d: Disk, files: set<FilePtr>, f: FilePtr, i: nat, w: nat)
    requires Sound(d, files) && f in files && i < FILE_WORDS && w < WORD_LIMIT
    ensures var d' := PutAt(d, f.block, f.base + i, w);
            && SameBitmap(d, d') && Shaped(d')
            && (forall x: nat, j: nat :: x != f.block ==> WordAt(d', x, j) == WordAt(d, x, j))
            && (forall g, j: nat :: g in files && j < FILE_WORDS ==>
                  Field(d', g, j) == if g == f && j == i then w else Field(d, g, j))
            && (forall r: Ref, n: nat :: IsRef(files, r) && r.Indirect? && Target(d, r) != 0 ==>
                  WordAt(d', Target(d, r), n) == WordAt(d, Target(d, r), n))
  {
    hide Word, Bit;
    FilePlace(d, files, f, i);
    PutAtWords(d, f.block, f.base + i, w);
    var d' := PutAt(d, f.block, f.base + i, w);
    forall b: nat | b < NBlocks(d) ensures IsFree(d', b) == IsFree(d, b) {
      assert 2 + b / BLKBITSIZE < Reserved(d);
    }
    forall g, j: nat | g in files && j < FILE_WORDS
      ensures Field(d', g, j) == if g == f && j == i then w else Field(d, g, j)
    {
      if g.block == f.block && g.base + j == f.base + i {
        FilesApart(d, files, f, i, g, j);
      }
    }
    forall r: Ref, n: nat | IsRef(files, r) && r.Indirect? && Target(d, r) != 0
      ensures WordAt(d', Target(d, r), n) == WordAt(d, Target(d, r), n)
    {
      assert Target(d, r) != f.block;
    }
  }

  /** Fewer File structures: what was owned by the others is merely in use. */
  lemma FewerFiles(d: Disk, files: set<FilePtr>, some: set<FilePtr>)
    requires FsInv(d, files) && some <= files
    ensures FsInv(d, some)
  {
    hide Target, IsFree, Shaped, IsDir, Size;
    forall r | IsRef(some, r) ensures IsRef(files, r) {
    }
    forall f, n | f in some && Blocks(Size(d, f)) <= n < MAXBLOCKS ensures Target(d, Slot(f, n)) == 0 {
      assert f in files;
    }
  }

  /** No File structure lies in the block that a place holds. */
  ghost predicate NoHome(d: Disk, files: set<FilePtr>, r: Ref) {
    forall g :: g in files ==> g.block != Target(d, r)
  }

  /** None lies in the blocks of `f` from the `a`-th on. */
  ghost predicate Vacant(d: Disk, files: set<FilePtr>, f: FilePtr, a: nat) {
    forall n :: a <= n < MAXBLOCKS ==> NoHome(d, files, Slot(f, n))
  }

  /** No indirect block holds File structures, and no block of a regular file. */
  lemma IndirectNoHome(d: Disk, files: set<FilePtr>, f: FilePtr)
    requires Sound(d, files) && f in files
    ensures NoHome(d, files, Indirect(f))
  {
    hide Target, Shaped, IsFree, IsDir;
    assert IsRef(files, Indirect(f)) && HomesApart(d, files);
  }

  lemma RegularVacant(d: Disk, files: set<FilePtr>, f: FilePtr)
    requires FsInv(d, files) && f in files && !IsDir(d, f)
    ensures forall a: nat :: Vacant(d, files, f, a)
  {
    hide Target, Shaped, IsFree, IsDir, SlotsFit;
    forall n: nat, g | n < MAXBLOCKS && g in files ensures g.block != Target(d, Slot(f, n)) {
      assert IsRef(files, Slot(f, n)) && HomesApart(d, files);
    }
  }

  /** A data block of a regular file holds no metadata. */
  lemma DataApart(d: Disk, files: set<FilePtr>, g: FilePtr, n: nat, f: FilePtr)
    requires Sound(d, files) && g in files && f in files && !IsDir(d, g) && n < MAXBLOCKS && Target(d, Slot(g, n)) != 0
    ensures var t := Target(d, Slot(g, n));
            Reserved(d) <= t < |d| && !IsFree(d, t) && t != f.block && t != Target(d, Indirect(f))
  {
    assert IsRef(files, Slot(g, n)) && IsRef(files, Indirect(f));
  }

  /** A store of one word into a block that holds metadata leaves all data alone. */
  lemma MetaStoreKeepsData(d: Disk, files: set<FilePtr>, b: nat, k: nat, w: nat)
    requires Sound(d, files)
    requires b < Reserved(d) || (exists f :: f in files && (b == f.block || b == Target(d, Indirect(f))))
    ensures SameData(d, PutAt(d, b, k, w), files)
  {
    forall g, n: nat | g in files && !IsDir(d, g) && n < MAXBLOCKS && Target(d, Slot(g, n)) != 0
      ensures Target(d, Slot(g, n)) != b
    {
      DataApart(d, files, g, n, g);
      if b >= Reserved(d) {
        var f :| f in files && (b == f.block || b == Target(d, Indirect(f)));
        DataApart(d, files, g, n, f);
      }
    }
  }

  /** `f->f_direct[n] = t`. */
  lemma StoreDirect(d: Disk, files: set<FilePtr>, f: FilePtr, n: nat, t: nat)
    requires Sound(d, files) && f in files && n < NDIRECT && t < WORD_LIMIT
    ensures var d' := PutAt(d, f.block, f.base + (F_DIRECT + n), t);
            && SameBitmap(d, d') && Shaped(d') && SameMeta(d, d', files) && SameData(d, d', files)
            && SameTargets(d, d', files, {Slot(f, n)}) && Target(d', Slot(f, n)) == t
  {
    hide Shaped, ReservedInUse, Placed, OwnedInUse, OwnedOnce, HomesApart, PutAt, SameBitmap, SameData, Word;
    var d' := PutAt(d, f.block, f.base + (F_DIRECT + n), t);
    StoreField(d, files, f, F_DIRECT + n, t);
    MetaStoreKeepsData(d, files, f.block, f.base + (F_DIRECT + n), t);
    forall r | IsRef(files, r) && r != Slot(f, n) ensures Target(d', r) == Target(d, r) {
      assert IsRef(files, Indirect(r.f));
      assert Target(d', Indirect(r.f)) == Target(d, Indirect(r.f));
    }
  }

  /** `f->f_indirect = t`: the slots behind the indirect block come and go with it. */
  lemma StoreIndirect(d: Disk, files: set<FilePtr>, f: FilePtr, t: nat)
    requires Sound(d, files) && f in files && t < WORD_LIMIT && t != f.block
    ensures var d' := PutAt(d, f.block, f.base + F_INDIRECT, t);
            && SameBitmap(d, d') && Shaped(d') && SameMeta(d, d', files) && SameData(d, d', files)
            && Target(d', Indirect(f)) == t
            && (forall r :: IsRef(files, r) && r != Indirect(f) && !(r.f == f && r.Slot? && r.n >= NDIRECT) ==>
                  Target(d', r) == Target(d, r))
            && (forall n :: NDIRECT <= n < MAXBLOCKS ==>
                  Target(d', Slot(f, n)) == if t == 0 then 0 else WordAt(d, t, n - NDIRECT))
  {
    hide Shaped, ReservedInUse, Placed, OwnedInUse, OwnedOnce, HomesApart, PutAt, SameBitmap, SameData, Word;
    var d' := PutAt(d, f.block, f.base + F_INDIRECT, t);
    StoreField(d, files, f, F_INDIRECT, t);
    MetaStoreKeepsData(d, files, f.block, f.base + F_INDIRECT, t);
    assert forall j: nat :: WordAt(d', t, j) == WordAt(d, t, j);
    forall r | IsRef(files, r) && r != Indirect(f) && !(r.f == f && r.Slot? && r.n >= NDIRECT)
      ensures Target(d', r) == Target(d, r)
    {
      assert IsRef(files, Indirect(r.f));
      if r.f != f {
        assert Target(d', Indirect(r.f)) == Target(d, Indirect(r.f));
      }
    }
  }

  /** A store into a field that is not a pointer. */
  lemma StoreMeta(d: Disk, files: set<FilePtr>, f: FilePtr, i: nat, w: nat)
    requires Sound(d, files) && f in files && i < F_DIRECT && w < WORD_LIMIT
    ensures var d' := PutAt(d, f.block, f.base + i, w);
            && SameBitmap(d, d') && Shaped(d') && SameData(d, d', files) && SameTargets(d, d', files, {})
            && (forall g, j: nat :: g in files && j < F_DIRECT ==>
                  Field(d', g, j) == if g == f && j == i then w else Field(d, g, j))
  {
    hide Shaped, ReservedInUse, Placed, OwnedInUse, OwnedOnce, HomesApart, PutAt, SameBitmap, SameData, Word;
    var d' := PutAt(d, f.block, f.base + i, w);
    StoreField(d, files, f, i, w);
    MetaStoreKeepsData(d, files, f.block, f.base + i, w);
    forall r | IsRef(files, r) ensures Target(d', r) == Target(d, r) {
      assert IsRef(files, Indirect(r.f));
      assert Target(d', Indirect(r.f)) == Target(d, Indirect(r.f));
    }
  }

  /** A store into an indirect block. */
  lemma StoreTable(d: Disk, files: set<FilePtr>, f: FilePtr, n: nat, t: nat)
    requires Sound(d, files) && f in files && NDIRECT <= n < MAXBLOCKS && t < WORD_LIMIT && Target(d, Indirect(f)) != 0
    ensures Target(d, Indirect(f)) < |d|
    ensures var d' := PutAt(d, Target(d, Indirect(f)), n - NDIRECT, t);
            && SameBitmap(d, d') && Shaped(d') && SameMeta(d, d', files) && SameData(d, d', files)
            && SameTargets(d, d', files, {Slot(f, n)}) && Target(d', Slot(f, n)) == t
  {
    hide Shaped, ReservedInUse, Placed, OwnedInUse, OwnedOnce, HomesApart, PutAt, SameBitmap, SameData, Word;
    var d' := PutAt(d, Target(d, Indirect(f)), n - NDIRECT, t);
    StoreTableWord(d, files, f, n, t);
    forall r | IsRef(files, r) && r != Slot(f, n) ensures Target(d', r) == Target(d, r) {
      assert IsRef(files, Indirect(r.f));
      if r.f != f {
        TablesApart(d, files, r.f, f);
      }
    }
  }

  lemma TablesApart(d: Disk, files: set<FilePtr>, g: FilePtr, f: FilePtr)
    requires Sound(d, files) && f in files && g in files && f != g && Target(d, Indirect(f)) != 0
    ensures Field(d, g, F_INDIRECT) != Field(d, f, F_INDIRECT)
  {
    assert IsRef(files, Indirect(f)) && IsRef(files, Indirect(g));
    assert Target(d, Indirect(g)) != Target(d, Indirect(f));
  }

  lemma StoreTableWord(d: Disk, files: set<FilePtr>, f: FilePtr, n: nat, t: nat)
    requires Sound(d, files) && f in files && NDIRECT <= n < MAXBLOCKS && t < WORD_LIMIT && Target(d, Indirect(f)) != 0
    ensures Target(d, Indirect(f)) < |d|
    ensures var b := Target(d, Indirect(f));
            var d' := PutAt(d, b, n - NDIRECT, t);
            && SameBitmap(d, d') && Shaped(d') && SameData(d, d', files)
            && (forall g, i: nat :: g in files ==> Field(d', g, i) == Field(d, g, i))
            && (forall x: nat, j: nat :: WordAt(d', x, j) == if x == b && j == n - NDIRECT then t else WordAt(d, x, j))
  {
    assert IsRef(files, Indirect(f));
    var b := Target(d, Indirect(f));
    var d' := PutAt(d, b, n - NDIRECT, t);
    PutAtWords(d, b, n - NDIRECT, t);
    MetaStoreKeepsData(d, files, b, n - NDIRECT, t);
    forall x: nat | x < NBlocks(d) ensures IsFree(d', x) == IsFree(d, x) {
      assert 2 + x / BLKBITSIZE < Reserved(d);
    }
    forall g, i: nat | g in files ensures Field(d', g, i) == Field(d, g, i) {
      assert g.block != b;
    }
  }

  /** Overwriting a block that holds no metadata: data of a regular file, or a
      block that nobody owns. */
  lemma StoreBlock(d: Disk, files: set<FilePtr>, b: nat, content: Block)
    requires Sound(d, files) && Reserved(d) <= b < |d| && IsBlock(content)
    requires forall f :: f in files ==> b != f.block && b != Target(d, Indirect(f))
    ensures var d' := d[b := content];
            SameBitmap(d, d') && Shaped(d') && SameMeta(d, d', files) && SameTargets(d, d', files, {})
  {
    var d' := d[b := content];
    forall x: nat | x < NBlocks(d) ensures IsFree(d', x) == IsFree(d, x) {
      assert 2 + x / BLKBITSIZE < Reserved(d);
    }
    forall r | IsRef(files, r) ensures Target(d', r) == Target(d, r) {
      assert b != Target(d, Indirect(r.f)) && Field(d', r.f, F_INDIRECT) == Field(d, r.f, F_INDIRECT);
    }
  }

  // ---- The bitmap ----

  function BitmapBlock(b: nat): nat { 2 + b / BLKBITSIZE }

  function BitmapWord(d: Disk, b: nat): nat { WordAt(d, BitmapBlock(b), b / 32 % WORDS) }

  /** `bitmap[blockno/32] &= ~(1<<(blockno%32))`. */
  function MarkUsed(d: Disk, b: nat): Disk {
    PutAt(d, BitmapBlock(b), b / 32 % WORDS, ClearBit(BitmapWord(d, b), b % 32))
  }

  /** `bitmap[blockno/32] |= 1<<(blockno%32)`. */
  function MarkFree(d: Disk, b: nat): Disk {
    PutAt(d, BitmapBlock(b), b / 32 % WORDS, SetBit(BitmapWord(d, b), b % 32))
  }

  lemma BitmapStore(d: Disk, files: set<FilePtr>, b: nat, w: nat)
    requires Sound(d, files) && b < NBlocks(d) && w < WORD_LIMIT
    ensures BitmapBlock(b) < Reserved(d)
    ensures var d' := PutAt(d, BitmapBlock(b), b / 32 % WORDS, w);
            && NBlocks(d') == NBlocks(d) && Shaped(d') && SameMeta(d, d', files) && SameData(d, d', files)
            && SameTargets(d, d', files, {})
            && (forall x: nat :: BitmapBlock(x) != BitmapBlock(b) || x / 32 % WORDS != b / 32 % WORDS ==>
                  BitmapWord(d', x) == BitmapWord(d, x))
            && BitmapWord(d', b) == w
  {
    var d' := PutAt(d, BitmapBlock(b), b / 32 % WORDS, w);
    PutAtWords(d, BitmapBlock(b), b / 32 % WORDS, w);
    MetaStoreKeepsData(d, files, BitmapBlock(b), b / 32 % WORDS, w);
    forall g, i: nat | g in files && i < FILE_WORDS ensures Field(d', g, i) == Field(d, g, i) {
      FilePlace(d, files, g, i);
    }
    forall r | IsRef(files, r) ensures Target(d', r) == Target(d, r) {
      assert IsRef(files, Indirect(r.f));
      assert Field(d', r.f, F_INDIRECT) == Field(d, r.f, F_INDIRECT);
    }
  }

  /** Two blocks share a bit only if they are the same block. */
  lemma SameBit(b: nat, x: nat)
    requires BitmapBlock(x) == BitmapBlock(b) && x / 32 % WORDS == b / 32 % WORDS && x % 32 == b % 32
    ensures x == b
  {
    assert x / 32 == x / BLKBITSIZE * WORDS + x / 32 % WORDS;
    assert b / 32 == b / BLKBITSIZE * WORDS + b / 32 % WORDS;
  }

  lemma MarkUsedCorrect(d: Disk, files: set<FilePtr>, b: nat)
    requires Sound(d, files) && b < NBlocks(d)
    ensures var d' := MarkUsed(d, b);
            && NBlocks(d') == NBlocks(d) && Shaped(d') && SameMeta(d, d', files) && SameData(d, d', files)
            && SameTargets(d, d', files, {})
            && (forall x :: IsFree(d', x) <==> IsFree(d, x) && x != b)
  {
    hide Bit, ClearBit;
    var w := BitmapWord(d, b);
    BitmapStoreRange(d, files, b);
    BitmapStore(d, files, b, ClearBit(w, b % 32));
    var d' := MarkUsed(d, b);
    forall x: nat ensures IsFree(d', x) <==> IsFree(d, x) && x != b {
      if BitmapBlock(x) == BitmapBlock(b) && x / 32 % WORDS == b / 32 % WORDS {
        ClearBitCorrect(w, b % 32, 32, x % 32);
        if x % 32 == b % 32 {
          SameBit(b, x);
        }
      }
    }
  }

  lemma BitmapStoreRange(d: Disk, files: set<FilePtr>, b: nat)
    requires Sound(d, files) && b < NBlocks(d)
    ensures var w := BitmapWord(d, b);
            w < Pow2(32) == WORD_LIMIT && ClearBit(w, b % 32) < WORD_LIMIT && SetBit(w, b % 32) < WORD_LIMIT
  {
    WordBits();
    assert BitmapBlock(b) < Reserved(d);
    WordRange(d[BitmapBlock(b)], b / 32 % WORDS);
    ClearBitCorrect(BitmapWord(d, b), b % 32, 32, 0);
    SetBitCorrect(BitmapWord(d, b), b % 32, 32, 0);
  }

  lemma MarkFreeCorrect(d: Disk, files: set<FilePtr>, b: nat)
    requires Sound(d, files) && b < NBlocks(d)
    ensures var d' := MarkFree(d, b);
            && NBlocks(d') == NBlocks(d) && Shaped(d') && SameMeta(d, d', files) && SameData(d, d', files)
            && SameTargets(d, d', files, {})
            && (forall x :: IsFree(d', x) <==> IsFree(d, x) || x == b)
  {
    hide Bit, SetBit;
    var w := BitmapWord(d, b);
    BitmapStoreRange(d, files, b);
    BitmapStore(d, files, b, SetBit(w, b % 32));
    var d' := MarkFree(d, b);
    forall x: nat ensures IsFree(d', x) <==> IsFree(d, x) || x == b {
      if BitmapBlock(x) == BitmapBlock(b) && x / 32 % WORDS == b / 32 % WORDS {
        SetBitCorrect(w, b % 32, 32, x % 32);
        if x % 32 == b % 32 {
          SameBit(b, x);
        }
      }
    }
  }
}
