/** The initial file system that fsformat writes (fs/fsformat.c).

    Its memory is one sequence of blocks: the mapped disk image, followed by the
    buffer in which it builds the directory entries.
 */
module FsFormat {
  import opened FsBytes
  import opened FsLayout
  import opened FsNames
  import opened FsDirs
  import opened Queue

  const MAX_DIR_ENTS: nat := 128
  const ENT_BLOCKS: nat := 8
  const MAXFILESIZE: nat := MAXBLOCKS * BLKSIZE
  const FS_MAGIC: nat := 0x4A05_30AE
  const ONES: nat := 0xffff_ffff

  /** A file to be put into the image. */
  datatype Source = Source(name: Name, content: seq<nat>)

  predicate IsSource(s: Source) {
    IsName(s.name) && forall i :: 0 <= i < |s.content| ==> s.content[i] < 256
  }

  predicate AreSources(srcs: seq<Source>) { forall e :: 0 <= e < |srcs| ==> IsSource(srcs[e]) }

  // ---- Where everything goes ----

  /** The blocks of a file, with its indirect block, which is allocated as soon as
      all direct slots are taken. */
  function Extent(s: Source): nat {
    var n := Blocks(|s.content|);
    if n >= NDIRECT then n + 1 else n
  }

  /** The first block of file `e`. */
  function First(srcs: seq<Source>, e: nat): nat
    requires e <= |srcs|
  {
    if e == 0 then 3 else First(srcs, e - 1) + Extent(srcs[e - 1])
  }

  lemma {:induction false} FirstOrder(srcs: seq<Source>, e: nat, k: nat)
    requires e <= k <= |srcs|
    ensures 3 <= First(srcs, e) <= First(srcs, k)
    decreases k
  {
    if e < k {
      FirstOrder(srcs, e, k - 1);
    } else if e > 0 {
      FirstOrder(srcs, e - 1, e - 1);
    }
  }

  /** The blocks that finishdir allocates for `n` entries. */
  function DirExtent(n: nat): nat { (n + BLKFILES - 1) / BLKFILES }

  /** fsformat does not panic. */
  predicate Fits(nblocks: nat, srcs: seq<Source>) {
    && |srcs| <= MAX_DIR_ENTS && (forall e :: 0 <= e < |srcs| ==> |srcs[e].content| < MAXFILESIZE)
    && First(srcs, |srcs|) + DirExtent(|srcs|) < nblocks
  }

  /** Block `j` of a file's content, padded with zeros. */
  function Chunk(content: seq<nat>, j: nat): Block {
    seq(BLKSIZE, i requires 0 <= i => if j * BLKSIZE + i < |content| then content[j * BLKSIZE + i] else 0)
  }

  /** The block number in slot `i` of a file whose blocks start at `first`. */
  function SlotOf(s: Source, first: nat, i: nat): nat { if i < Blocks(|s.content|) then first + i else 0 }

  ghost predicate DirectDone(m: Disk, f: FilePtr, s: Source, first: nat) {
    forall k :: F_DIRECT <= k < F_INDIRECT ==> Field(m, f, k) == SlotOf(s, first, k - F_DIRECT)
  }

  ghost predicate TableDone(m: Disk, ind: nat, s: Source, first: nat) {
    forall k :: 0 <= k < NINDIRECT ==> WordAt(m, ind, k) == SlotOf(s, first, NDIRECT + k)
  }

  ghost predicate DataDone(m: Disk, s: Source, first: nat) {
    forall b :: first <= b < first + Blocks(|s.content|) ==> BlockAt(m, b) == Chunk(s.content, b - first)
  }

  /** The File structure at `f` describes `s`, whose blocks start at `first`. */
  ghost predicate FileDone(m: Disk, f: FilePtr, s: Source, first: nat) {
    var n := Blocks(|s.content|);
    && HasName(m, f, s.name) && Size(m, f) == |s.content| && Field(m, f, F_TYPE) == FTYPE_REG
    && DirectDone(m, f, s, first) && DataDone(m, s, first)
    && Field(m, f, F_INDIRECT) == (if n >= NDIRECT then first + n else 0)
    && (n >= NDIRECT ==> TableDone(m, first + n, s, first))
  }

  /** A description stays one wherever its structure is copied, as long as the
      blocks of the file are left alone. */
  lemma FileDoneKept(m: Disk, m': Disk, f: FilePtr, f': FilePtr, s: Source, first: nat)
    requires FileDone(m, f, s, first) && IsName(s.name)
    requires forall j: nat :: j < FILE_WORDS ==> Field(m', f', j) == Field(m, f, j)
    requires forall b: nat :: first <= b < first + Extent(s) ==> BlockAt(m', b) == BlockAt(m, b)
    ensures FileDone(m', f', s, first)
  {
    hide Word, Field, BlockAt, Chunk, ByteOf, SlotOf;
    assert forall i: nat :: i < MAXNAMELEN ==> NameByte(m', f', i) == NameByte(m, f, i);
    assert Field(m', f', F_TYPE) == Field(m, f, F_TYPE) && Field(m', f', F_SIZE) == Field(m, f, F_SIZE);
    assert Field(m', f', F_INDIRECT) == Field(m, f, F_INDIRECT);
    var n := Blocks(|s.content|);
    assert HasName(m', f', s.name);
    assert DirectDone(m', f', s, first);
    assert DataDone(m', s, first);
    if n >= NDIRECT {
      var ind := first + n;
      assert BlockAt(m', ind) == BlockAt(m, ind);
      assert forall k: nat :: WordAt(m', ind, k) == WordAt(m, ind, k);
    }
  }

  /** So its block pointers are these. */
  lemma DoneTargets(m: Disk, f: FilePtr, s: Source, first: nat, i: nat)
    requires FileDone(m, f, s, first) && i < MAXBLOCKS && first > 0
    ensures Target(m, Slot(f, i)) == SlotOf(s, first, i)
    ensures Target(m, Indirect(f)) == if Blocks(|s.content|) >= NDIRECT then first + Blocks(|s.content|) else 0
  {
    hide Word, WordAt, Field, BlockAt, Chunk, HasName, Size, DataDone;
    if i < NDIRECT {
      assert Field(m, f, F_DIRECT + i) == SlotOf(s, first, F_DIRECT + i - F_DIRECT);
    } else if Blocks(|s.content|) >= NDIRECT {
      assert WordAt(m, first + Blocks(|s.content|), i - NDIRECT) == SlotOf(s, first, NDIRECT + (i - NDIRECT));
    }
  }

  /** Behind its content, its last block is filled with zeros. */
  lemma DoneTail(m: Disk, f: FilePtr, s: Source, first: nat, pos: nat)
    requires FileDone(m, f, s, first) && first > 0 && first + Blocks(|s.content|) <= |m| && |s.content| <= MAXFILESIZE
    requires |s.content| <= pos < Blocks(|s.content|) * BLKSIZE
    ensures Raw(m, f, pos) == 0
  {
    hide Word, Field, HasName, Target;
    DoneTargets(m, f, s, first, pos / BLKSIZE);
    assert BlockAt(m, first + pos / BLKSIZE) == Chunk(s.content, pos / BLKSIZE);
  }

  /** And it reads as its content. */
  lemma DoneContent(m: Disk, f: FilePtr, s: Source, first: nat)
    requires FileDone(m, f, s, first) && first > 0 && first + Blocks(|s.content|) <= |m| && |s.content| <= MAXFILESIZE
    ensures Content(m, f) == s.content
  {
    hide Word, Field, HasName, Target;
    forall pos | 0 <= pos < |s.content| ensures Raw(m, f, pos) == s.content[pos] {
      DoneTargets(m, f, s, first, pos / BLKSIZE);
      assert BlockAt(m, first + pos / BLKSIZE) == Chunk(s.content, pos / BLKSIZE);
    }
  }

  // ---- finishfile ----

  /** Word `k` of block `x` after finishfile has filled in `n` slots. */
  function FinishedWord(m: Disk, f: FilePtr, start: nat, len: nat, n: nat, ind: Option<nat>, x: nat, k: nat): nat {
    if x == f.block && k == f.base + F_SIZE then len
    else if x == f.block && f.base + F_DIRECT <= k < f.base + F_INDIRECT && k < f.base + F_DIRECT + n
      then start + (k - f.base - F_DIRECT)
    else if x == f.block && k == f.base + F_INDIRECT && ind.Some? then ind.value
    else if ind == Some(x) && NDIRECT + k < n then start + NDIRECT + k
    else WordAt(m, x, k)
  }

  ghost predicate AllBlocks(m: Disk) { forall b :: 0 <= b < |m| ==> IsBlock(m[b]) }

  lemma PutAtAll(m: Disk, b: nat, k: nat, w: nat)
    requires AllBlocks(m) && b < |m| && k < WORDS && w < WORD_LIMIT
    ensures var m' := PutAt(m, b, k, w);
            && AllBlocks(m') && |m'| == |m| && (forall x :: 0 <= x < |m| && x != b ==> m'[x] == m[x])
            && (forall x: nat, j: nat :: WordAt(m', x, j) == if x == b && j == k then w else WordAt(m, x, j))
  {
    hide Word;
    PutAtWords(m, b, k, w);
  }

  /** Entry `e` of the directory, where the directory starts at block `b`. */
  function Ent(b: nat, e: nat): FilePtr { FilePtr(b + e / BLKFILES, e % BLKFILES * FILE_WORDS) }

  /** The super block and the bitmap as opendisk leaves them. */
  ghost predicate SuperDone(m: Disk, nblocks: nat) {
    && WordAt(m, 1, 0) == FS_MAGIC && Field(m, ROOT, 0) == SLASH
    && WordAt(m, 1, 1) == nblocks && Field(m, ROOT, F_TYPE) == FTYPE_DIR && Field(m, ROOT, F_SIZE) == 0
    && (forall k :: F_DIRECT <= k <= F_INDIRECT ==> Field(m, ROOT, k) == 0)
    && BitmapOnes(m)
  }

  /** Entries from `n` on are all zero. */
  ghost predicate EntsZero(m: Disk, nblocks: nat, n: nat) {
    forall b: nat, j: nat ::
      nblocks <= b < nblocks + ENT_BLOCKS && j < WORDS && (b - nblocks) * WORDS + j >= n * FILE_WORDS ==>
        WordAt(m, b, j) == 0
  }

  /** The memory after `n` files. */
  ghost predicate Filled(m: Disk, nblocks: nat, srcs: seq<Source>, n: nat) {
    && n <= |srcs| && n <= MAX_DIR_ENTS && |m| == nblocks + ENT_BLOCKS && AllBlocks(m)
    && First(srcs, n) < nblocks <= 1024
    && SuperDone(m, nblocks) && EntsZero(m, nblocks, n)
    && (forall b :: First(srcs, n) <= b < nblocks ==> m[b] == ZeroBlock())
    && (forall e :: 0 <= e < n ==>
          FileDone(m, Ent(nblocks, e), srcs[e], First(srcs, e)) && |srcs[e].content| < MAXFILESIZE)
  }

  /** Different entries do not overlap. */
  lemma EntsApart(b: nat, e: nat, k: nat)
    requires e != k && Ent(b, e).block == Ent(b, k).block
    ensures Ent(b, e).base + FILE_WORDS <= Ent(b, k).base || Ent(b, k).base + FILE_WORDS <= Ent(b, e).base
  {
    assert e == BLKFILES * (e / BLKFILES) + e % BLKFILES && k == BLKFILES * (k / BLKFILES) + k % BLKFILES;
  }

  lemma EntPlace(b: nat, e: nat)
    requires e < MAX_DIR_ENTS
    ensures b <= Ent(b, e).block < b + ENT_BLOCKS && Ent(b, e).base + FILE_WORDS <= WORDS
    ensures (Ent(b, e).block - b) * WORDS + Ent(b, e).base == e * FILE_WORDS
  {
  }

  /** Only the blocks of file `n` and its entry have changed. */
  ghost predicate OnlyFile(m: Disk, m': Disk, nblocks: nat, srcs: seq<Source>, n: nat)
    requires n < |srcs|
  {
    var f := Ent(nblocks, n);
    && |m'| == |m| && AllBlocks(m')
    && (forall b :: 0 <= b < |m| && b != f.block && !(First(srcs, n) <= b < First(srcs, n + 1)) ==> m'[b] == m[b])
    && (forall k: nat :: !(f.base <= k < f.base + FILE_WORDS) ==> WordAt(m', f.block, k) == WordAt(m, f.block, k))
  }

  lemma FilledStep(m: Disk, m': Disk, nblocks: nat, srcs: seq<Source>, n: nat)
    requires AreSources(srcs) && Filled(m, nblocks, srcs, n) && n < |srcs| && n < MAX_DIR_ENTS
    requires First(srcs, n + 1) < nblocks
    requires OnlyFile(m, m', nblocks, srcs, n) && FileDone(m', Ent(nblocks, n), srcs[n], First(srcs, n))
    requires |srcs[n].content| < MAXFILESIZE
    ensures Filled(m', nblocks, srcs, n + 1)
  {
    hide Word, FileDone, Chunk, Extent, First, ZeroBlock, IsBlock, IsName;
    FirstOrder(srcs, n, n + 1);
    FirstOrder(srcs, 0, n);
    EntPlace(nblocks, n);
    var f := Ent(nblocks, n);
    forall e | 0 <= e < n ensures FileDone(m', Ent(nblocks, e), srcs[e], First(srcs, e)) {
      FileUntouched(m, m', nblocks, srcs, n, e);
    }
    forall b: nat, j: nat | nblocks <= b < nblocks + ENT_BLOCKS && j < WORDS
      && (b - nblocks) * WORDS + j >= (n + 1) * FILE_WORDS
      ensures WordAt(m', b, j) == 0
    {
      assert WordAt(m, b, j) == 0;
      if b == f.block {
        assert j >= f.base + FILE_WORDS;
      }
    }
    SuperKept(m, m', nblocks);
  }

  lemma SuperKept(m: Disk, m': Disk, nblocks: nat)
    requires SuperDone(m, nblocks) && BlockAt(m', 1) == BlockAt(m, 1) && BlockAt(m', 2) == BlockAt(m, 2)
    ensures SuperDone(m', nblocks)
  {
    hide Word, BlockAt;
    assert forall k: nat :: Field(m', ROOT, k) == Field(m, ROOT, k);
    assert forall k: nat :: WordAt(m', 2, k) == WordAt(m, 2, k);
  }

  lemma FileUntouched(m: Disk, m': Disk, nblocks: nat, srcs: seq<Source>, n: nat, e: nat)
    requires AreSources(srcs) && e < n < |srcs| && n < MAX_DIR_ENTS && |m| == nblocks + ENT_BLOCKS
    requires First(srcs, n + 1) < nblocks
    requires OnlyFile(m, m', nblocks, srcs, n) && FileDone(m, Ent(nblocks, e), srcs[e], First(srcs, e))
    ensures FileDone(m', Ent(nblocks, e), srcs[e], First(srcs, e))
  {
    hide Word, FileDone, Chunk, IsBlock, IsName, Blocks;
    FirstOrder(srcs, e + 1, n);
    EntPlace(nblocks, n);
    EntPlace(nblocks, e);
    var f, g := Ent(nblocks, n), Ent(nblocks, e);
    if f.block == g.block {
      EntsApart(nblocks, e, n);
    }
    forall j: nat | j < FILE_WORDS ensures Field(m', g, j) == Field(m, g, j) {
      assert BlockAt(m', g.block) == BlockAt(m, g.block) || g.block == f.block;
    }
    FileDoneKept(m, m', g, g, srcs[e], First(srcs, e));
  }

  /** The root in the super block: `blocks` blocks from `at` on. */
  ghost predicate RootDone(m: Disk, nblocks: nat, at: nat, blocks: nat) {
    && WordAt(m, 1, 0) == FS_MAGIC && Field(m, ROOT, 0) == SLASH
    && WordAt(m, 1, 1) == nblocks && Field(m, ROOT, F_TYPE) == FTYPE_DIR && Size(m, ROOT) == blocks * BLKSIZE
    && (forall k :: F_DIRECT <= k <= F_INDIRECT ==>
          Field(m, ROOT, k) == if k < F_DIRECT + blocks then at + (k - F_DIRECT) else 0)
  }

  ghost predicate BitmapOnes(m: Disk) { forall k :: 0 <= k < WORDS ==> WordAt(m, 2, k) == ONES }

  /** finishdir rounds the length as an int: no entries make one block. */
  function RootBlocks(n: nat): nat { if n == 0 then 1 else DirExtent(n) }

  /** The finished directory: the root points at its blocks, and they hold the
      entries of all files, and zeros. */
  ghost predicate Rooted(m: Disk, nblocks: nat, srcs: seq<Source>) {
    var at, n := First(srcs, |srcs|), |srcs|;
    && AllBlocks(m) && at + DirExtent(n) < nblocks <= |m| && nblocks <= 1024 && n <= MAX_DIR_ENTS
    && RootDone(m, nblocks, at, RootBlocks(n))
    && (forall e :: 0 <= e < n ==> FileDone(m, Ent(at, e), srcs[e], First(srcs, e)) && |srcs[e].content| < MAXFILESIZE)
    && (forall e :: n <= e < DirExtent(n) * BLKFILES ==> ZeroEntry(m, Ent(at, e)))
  }

  ghost predicate ZeroEntry(m: Disk, f: FilePtr) {
    forall k :: 0 <= k < FILE_WORDS ==> Field(m, f, k) == 0
  }

  /** What the memmove of finishdir has done after `j` blocks. */
  ghost predicate Moved(m: Disk, m': Disk, nblocks: nat, at: nat, j: nat) {
    |m'| == |m| == nblocks + ENT_BLOCKS && j <= ENT_BLOCKS &&
    forall b {:trigger m'[b]} :: 0 <= b < |m| ==> m'[b] == if at <= b < at + j then m[nblocks + (b - at)] else m[b]
  }

  lemma EntBlockCopied(m: Disk, nblocks: nat, n: nat, b: nat, j: nat, count: nat)
    requires |m| == nblocks + ENT_BLOCKS && AllBlocks(m) && EntsZero(m, nblocks, n) && j < ENT_BLOCKS
    requires b < nblocks && m[b] == ZeroBlock()
    requires count == BLKSIZE || count == n * (4 * FILE_WORDS) - j * BLKSIZE < BLKSIZE
    ensures m[nblocks + j][..count] + m[b][count..] == m[nblocks + j]
  {
    var e := m[nblocks + j];
    assert IsBlock(e);
    forall i | count <= i < BLKSIZE ensures e[i] == 0 {
      assert WordAt(m, nblocks + j, i / 4) == 0;
      WordBytes(e, i / 4, i % 4);
    }
  }

  /** What finishdir has written. */
  lemma RootWritten(m: Disk, m1: Disk, m2: Disk, nblocks: nat, srcs: seq<Source>)
    requires AreSources(srcs) && Filled(m, nblocks, srcs, |srcs|) && First(srcs, |srcs|) + DirExtent(|srcs|) < nblocks
    requires Moved(m, m1, nblocks, First(srcs, |srcs|), DirExtent(|srcs|))
    requires Finished(m1, m2, ROOT, First(srcs, |srcs|), RootBlocks(|srcs|) * BLKSIZE, RootBlocks(|srcs|))
    ensures Rooted(m2, nblocks, srcs) && BitmapOnes(m2)
  {
    hide FileDone, Word, SuperDone, RootDone, BitmapOnes, Field, Moved, FinishedWord, First, ZeroEntry, AreSources,
         EntsZero, IsBlock;
    var at, n := First(srcs, |srcs|), |srcs|;
    FirstOrder(srcs, 0, n);
    MovedSize(m, m1, nblocks, at, DirExtent(n));
    MovedSuper(m, m1, nblocks, at, DirExtent(n));
    SuperFinished(m1, m2, nblocks, at, RootBlocks(n));
    forall e | 0 <= e < n ensures FileDone(m2, Ent(at, e), srcs[e], First(srcs, e)) {
      EntryMoved(m, m1, m2, nblocks, srcs, e);
    }
    forall e | n <= e < DirExtent(n) * BLKFILES ensures ZeroEntry(m2, Ent(at, e)) {
      ZeroMoved(m, m1, m2, nblocks, srcs, e);
    }
  }

  lemma BlockMoved(m: Disk, m1: Disk, m2: Disk, nblocks: nat, at: nat, j: nat, len: nat, blocks: nat, b: nat)
    requires Moved(m, m1, nblocks, at, j) && Finished(m1, m2, ROOT, at, len, blocks) && blocks < NDIRECT
    requires at + j < nblocks && 3 <= b < at + j
    ensures BlockAt(m2, b) == if b >= at then BlockAt(m, nblocks + (b - at)) else BlockAt(m, b)
  {
    hide FinishedWord, IsBlock;
    assert m2[b] == m1[b];
  }

  lemma EntryMoved(m: Disk, m1: Disk, m2: Disk, nblocks: nat, srcs: seq<Source>, e: nat)
    requires AreSources(srcs) && Filled(m, nblocks, srcs, |srcs|) && e < |srcs|
    requires First(srcs, |srcs|) + DirExtent(|srcs|) < nblocks
    requires Moved(m, m1, nblocks, First(srcs, |srcs|), DirExtent(|srcs|))
    requires Finished(m1, m2, ROOT, First(srcs, |srcs|), RootBlocks(|srcs|) * BLKSIZE, RootBlocks(|srcs|))
    ensures FileDone(m2, Ent(First(srcs, |srcs|), e), srcs[e], First(srcs, e))
  {
    hide Word, FileDone, Filled, Finished, Moved, IsName, Extent, BlockAt, First, DirExtent, RootBlocks;
    var at, n := First(srcs, |srcs|), |srcs|;
    FilledAt(m, nblocks, srcs, e);
    var f, g := Ent(nblocks, e), Ent(at, e);
    assert e / BLKFILES < DirExtent(n) by { EntInside(n, e); }
    BlockMoved(m, m1, m2, nblocks, at, DirExtent(n), RootBlocks(n) * BLKSIZE, RootBlocks(n), g.block);
    SameFields(m, m2, f, g);
    forall b: nat | First(srcs, e) <= b < First(srcs, e) + Extent(srcs[e]) ensures BlockAt(m2, b) == BlockAt(m, b) {
      BlockMoved(m, m1, m2, nblocks, at, DirExtent(n), RootBlocks(n) * BLKSIZE, RootBlocks(n), b);
    }
    FileDoneKept(m, m2, f, g, srcs[e], First(srcs, e));
  }

  lemma FilledAt(m: Disk, nblocks: nat, srcs: seq<Source>, e: nat)
    requires Filled(m, nblocks, srcs, |srcs|) && AreSources(srcs) && e < |srcs|
    ensures FileDone(m, Ent(nblocks, e), srcs[e], First(srcs, e)) && IsName(srcs[e].name)
    ensures 3 <= First(srcs, e) && First(srcs, e) + Extent(srcs[e]) <= First(srcs, |srcs|)
    ensures |srcs| <= MAX_DIR_ENTS && RootBlocks(|srcs|) < NDIRECT
  {
    hide FileDone, SuperDone, EntsZero, AllBlocks, First, Extent, IsName;
    FirstNext(srcs, e);
    FirstOrder(srcs, e + 1, |srcs|);
    FirstOrder(srcs, 0, e);
  }

  lemma EntInside(n: nat, e: nat)
    requires e < n
    ensures e / BLKFILES < DirExtent(n)
  {
  }

  lemma SameFields(m: Disk, m': Disk, f: FilePtr, g: FilePtr)
    requires BlockAt(m', g.block) == BlockAt(m, f.block) && f.base == g.base
    ensures forall k: nat :: Field(m', g, k) == Field(m, f, k)
  {
  }

  lemma ZeroMoved(m: Disk, m1: Disk, m2: Disk, nblocks: nat, srcs: seq<Source>, e: nat)
    requires Filled(m, nblocks, srcs, |srcs|) && |srcs| <= e < DirExtent(|srcs|) * BLKFILES
    requires First(srcs, |srcs|) + DirExtent(|srcs|) < nblocks && 3 <= First(srcs, |srcs|)
    requires Moved(m, m1, nblocks, First(srcs, |srcs|), DirExtent(|srcs|))
    requires Finished(m1, m2, ROOT, First(srcs, |srcs|), RootBlocks(|srcs|) * BLKSIZE, RootBlocks(|srcs|))
    ensures ZeroEntry(m2, Ent(First(srcs, |srcs|), e))
  {
    hide Word, FileDone, IsBlock, SuperDone, Finished, Moved, First, BlockAt;
    var at, n := First(srcs, |srcs|), |srcs|;
    EntPlace(nblocks, e);
    var f, g := Ent(nblocks, e), Ent(at, e);
    BlockMoved(m, m1, m2, nblocks, at, DirExtent(n), RootBlocks(n) * BLKSIZE, RootBlocks(n), g.block);
    forall k | 0 <= k < FILE_WORDS ensures Field(m2, g, k) == 0 {
      assert WordAt(m, f.block, f.base + k) == 0;
    }
  }

  lemma MovedSize(m: Disk, m1: Disk, nblocks: nat, at: nat, j: nat)
    requires Moved(m, m1, nblocks, at, j)
    ensures |m1| == nblocks + ENT_BLOCKS
  {
  }

  lemma MovedSuper(m: Disk, m1: Disk, nblocks: nat, at: nat, j: nat)
    requires SuperDone(m, nblocks) && Moved(m, m1, nblocks, at, j) && 3 <= at < nblocks
    ensures SuperDone(m1, nblocks)
  {
    assert m1[1] == m[1] && m1[2] == m[2];
    SuperKept(m, m1, nblocks);
  }

  lemma SuperFinished(m: Disk, m': Disk, nblocks: nat, at: nat, blocks: nat)
    requires SuperDone(m, nblocks) && blocks < NDIRECT && Finished(m, m', ROOT, at, blocks * BLKSIZE, blocks)
    ensures RootDone(m', nblocks, at, blocks) && BitmapOnes(m')
  {
    hide Word, IsBlock;
    assert forall k: nat :: WordAt(m', 2, k) == WordAt(m, 2, k);
    forall k | F_DIRECT <= k <= F_INDIRECT
      ensures Field(m', ROOT, k) == if k < F_DIRECT + blocks then at + (k - F_DIRECT) else 0
    {
      assert Field(m, ROOT, k) == 0;
    }
  }

  /** What diradd does to a zero entry. */
  ghost predicate Named(m: Disk, m': Disk, f: FilePtr, name: Name) {
    && |m'| == |m| && HasName(m', f, name) && (forall x :: 0 <= x < |m| && x != f.block ==> m'[x] == m[x])
    && forall k: nat :: !(f.base <= k < f.base + NAME_WORDS) ==>
         WordAt(m', f.block, k) == if k == f.base + F_TYPE then FTYPE_REG else WordAt(m, f.block, k)
  }

  /** What readn does. */
  ghost predicate Loaded(m: Disk, m': Disk, at: nat, c: seq<nat>) {
    |m'| == |m| && forall b :: 0 <= b < |m| ==> m'[b] == if at <= b < at + Blocks(|c|) then Chunk(c, b - at) else m[b]
  }

  function TableAt(at: nat, blocks: nat): Option<nat> { if blocks >= NDIRECT then Some(at + blocks) else None }

  /** What finishfile does. */
  ghost predicate Finished(m: Disk, m': Disk, f: FilePtr, at: nat, len: nat, blocks: nat) {
    && |m'| == |m| && AllBlocks(m')
    && (forall x: nat, k: nat :: WordAt(m', x, k) == FinishedWord(m, f, at, len, blocks, TableAt(at, blocks), x, k))
    && forall x :: 0 <= x < |m| && x != f.block && TableAt(at, blocks) != Some(x) ==> m'[x] == m[x]
  }

  /** The place of the next file: its entry is zero, and so are its blocks. */
  ghost predicate Fresh(m: Disk, f: FilePtr, at: nat, s: Source) {
    && at + Extent(s) <= f.block < |m| && 3 <= at && f.base + FILE_WORDS <= WORDS
    && (forall k :: f.base <= k < f.base + FILE_WORDS ==> WordAt(m, f.block, k) == 0)
    && (forall b :: at <= b < at + Extent(s) ==> m[b] == ZeroBlock())
  }

  lemma FreshEntry(m: Disk, nblocks: nat, srcs: seq<Source>, n: nat)
    requires Filled(m, nblocks, srcs, n) && n < |srcs| && n < MAX_DIR_ENTS && First(srcs, n + 1) < nblocks
    ensures Fresh(m, Ent(nblocks, n), First(srcs, n), srcs[n])
  {
    hide Word, FileDone, SuperDone, IsBlock, ZeroBlock, Extent;
    EntPlace(nblocks, n);
    FirstOrder(srcs, 0, n);
  }

  lemma WrittenOnly(m: Disk, m1: Disk, m2: Disk, m3: Disk, f: FilePtr, at: nat, s: Source)
    requires Fresh(m, f, at, s) && Named(m, m1, f, s.name) && Loaded(m1, m2, at, s.content)
    requires Finished(m2, m3, f, at, |s.content|, Blocks(|s.content|))
    ensures forall b :: 0 <= b < |m| && b != f.block && !(at <= b < at + Extent(s)) ==> m3[b] == m[b]
    ensures forall k: nat :: !(f.base <= k < f.base + FILE_WORDS) ==> WordAt(m3, f.block, k) == WordAt(m, f.block, k)
  {
    hide Word, Chunk, HasName, IsBlock, Blocks;
    assert m2[f.block] == m1[f.block];
    assert forall k: nat :: WordAt(m2, f.block, k) == WordAt(m1, f.block, k);
  }

  lemma WrittenEntry(m: Disk, m1: Disk, m2: Disk, m3: Disk, f: FilePtr, at: nat, s: Source)
    requires IsName(s.name) && Fresh(m, f, at, s) && Named(m, m1, f, s.name) && Loaded(m1, m2, at, s.content)
    requires Finished(m2, m3, f, at, |s.content|, Blocks(|s.content|))
    ensures HasName(m3, f, s.name) && Size(m3, f) == |s.content| && Field(m3, f, F_TYPE) == FTYPE_REG
    ensures DirectDone(m3, f, s, at)
    ensures Field(m3, f, F_INDIRECT) == if Blocks(|s.content|) >= NDIRECT then at + Blocks(|s.content|) else 0
  {
    hide Word, Chunk, IsBlock, ByteOf, Blocks, AllBlocks;
    assert m2[f.block] == m1[f.block];
    assert forall k: nat :: WordAt(m2, f.block, k) == WordAt(m1, f.block, k);
    forall i: nat | i < MAXNAMELEN ensures NameByte(m3, f, i) == NameByte(m1, f, i) {
      assert WordAt(m3, f.block, f.base + i / 4) == WordAt(m2, f.block, f.base + i / 4);
    }
  }

  lemma WrittenBlocks(m: Disk, m1: Disk, m2: Disk, m3: Disk, f: FilePtr, at: nat, s: Source)
    requires Fresh(m, f, at, s) && Named(m, m1, f, s.name) && Loaded(m1, m2, at, s.content)
    requires Finished(m2, m3, f, at, |s.content|, Blocks(|s.content|))
    ensures DataDone(m3, s, at)
    ensures Blocks(|s.content|) >= NDIRECT ==> TableDone(m3, at + Blocks(|s.content|), s, at)
  {
    hide Word, Chunk, IsBlock, HasName, Blocks, AllBlocks;
    if Blocks(|s.content|) >= NDIRECT {
      ZeroTable(m2, at + Blocks(|s.content|));
    }
  }

  /** What diradd, readn and finishfile together have written. */
  lemma FileWritten(m: Disk, m1: Disk, m2: Disk, m3: Disk, nblocks: nat, srcs: seq<Source>, n: nat)
    requires AreSources(srcs) && Filled(m, nblocks, srcs, n) && n < |srcs| && n < MAX_DIR_ENTS
    requires First(srcs, n + 1) < nblocks
    requires Named(m, m1, Ent(nblocks, n), srcs[n].name) && Loaded(m1, m2, First(srcs, n), srcs[n].content)
    requires Finished(m2, m3, Ent(nblocks, n), First(srcs, n), |srcs[n].content|, Blocks(|srcs[n].content|))
    ensures OnlyFile(m, m3, nblocks, srcs, n) && FileDone(m3, Ent(nblocks, n), srcs[n], First(srcs, n))
  {
    FreshEntry(m, nblocks, srcs, n);
    var f, at, s := Ent(nblocks, n), First(srcs, n), srcs[n];
    WrittenOnly(m, m1, m2, m3, f, at, s);
    hide Word, Chunk, IsBlock, HasName, Blocks, AllBlocks, IsName, Named, Loaded, Fresh, DirectDone, DataDone,
         TableDone, Ent, FileDone;
    WrittenEntry(m, m1, m2, m3, f, at, s);
    WrittenBlocks(m, m1, m2, m3, f, at, s);
    AllDone(m3, f, s, at);
  }

  lemma AllDone(m: Disk, f: FilePtr, s: Source, at: nat)
    requires HasName(m, f, s.name) && Size(m, f) == |s.content| && Field(m, f, F_TYPE) == FTYPE_REG
    requires DirectDone(m, f, s, at) && DataDone(m, s, at)
    requires Field(m, f, F_INDIRECT) == if Blocks(|s.content|) >= NDIRECT then at + Blocks(|s.content|) else 0
    requires Blocks(|s.content|) >= NDIRECT ==> TableDone(m, at + Blocks(|s.content|), s, at)
    ensures FileDone(m, f, s, at)
  {
    hide HasName, Size, Field, DirectDone, DataDone, TableDone, Blocks;
  }

  lemma ZeroTable(m: Disk, b: nat)
    requires b < |m| && m[b] == ZeroBlock()
    ensures forall k: nat :: WordAt(m, b, k) == 0
  {
    ZeroWords();
  }

  /** A bit of the bitmap is set exactly from position `pos` on. */
  ghost predicate BitsFrom(m: Disk, pos: nat) {
    forall b: nat :: b < BLKBITSIZE ==> (Bit(WordAt(m, 2, b / 32), b % 32) <==> b >= pos)
  }

  lemma {:induction false} OnesHaveBits(n: nat, i: nat)
    requires i < n
    ensures Pow2(n) >= 2 && Bit(Pow2(n) - 1, i)
  {
    assert Pow2(n) == 2 * Pow2(n - 1);
    if i > 0 {
      OnesHaveBits(n - 1, i - 1);
      assert (Pow2(n) - 1) / 2 == Pow2(n - 1) - 1;
    } else {
      Pow2Positive(n - 1);
    }
  }

  lemma {:induction false} Pow2Positive(n: nat)
    ensures Pow2(n) >= 1
  {
    if n > 0 {
      Pow2Positive(n - 1);
    }
  }

  lemma OnesBits(m: Disk)
    requires BitmapOnes(m)
    ensures BitsFrom(m, 0)
  {
    WordBits();
    forall b: nat | b < BLKBITSIZE ensures Bit(WordAt(m, 2, b / 32), b % 32) {
      OnesHaveBits(32, b % 32);
    }
  }

  lemma ClearOne(m: Disk, i: nat)
    requires AllBlocks(m) && |m| > 2 && i < BLKBITSIZE && BitsFrom(m, i)
    ensures var w := WordAt(m, 2, i / 32); ClearBit(w, i % 32) < WORD_LIMIT
    ensures var m' := PutAt(m, 2, i / 32, ClearBit(WordAt(m, 2, i / 32), i % 32));
            AllBlocks(m') && |m'| == |m| && BitsFrom(m', i + 1) && forall x :: 0 <= x < |m| && x != 2 ==> m'[x] == m[x]
  {
    hide Word, Bit, ClearBit, PutAt;
    WordBits();
    WordRange(m[2], i / 32);
    var w := WordAt(m, 2, i / 32);
    ClearBitCorrect(w, i % 32, 32, 0);
    PutAtAll(m, 2, i / 32, ClearBit(w, i % 32));
    var m' := PutAt(m, 2, i / 32, ClearBit(w, i % 32));
    forall b: nat | b < BLKBITSIZE ensures Bit(WordAt(m', 2, b / 32), b % 32) <==> b >= i + 1 {
      if b / 32 == i / 32 {
        ClearBitCorrect(w, i % 32, 32, b % 32);
        assert Bit(w, b % 32) <==> b >= i;
      }
    }
  }

  // ---- opendisk ----

  function SuperBlock(blocks: nat): Block {
    PutWord(PutWord(PutWord(PutWord(ZeroBlock(), 0, FS_MAGIC), 1, blocks), ROOT.base + F_TYPE, FTYPE_DIR),
            ROOT.base, SLASH)
  }

  function Ones(): Block { seq(BLKSIZE, _ => 0xff) }

  function InitialMem(blocks: nat): Disk {
    seq(blocks + ENT_BLOCKS, b => if b == 1 then SuperBlock(blocks) else if b == 2 then Ones() else ZeroBlock())
  }

  lemma SuperWords(blocks: nat)
    requires blocks < WORD_LIMIT
    ensures var b := SuperBlock(blocks);
            && IsBlock(b)
            && forall k: nat :: Word(b, k) == if k == 0 then FS_MAGIC else if k == 1 then blocks
                                   else if k == ROOT.base + F_TYPE then FTYPE_DIR
                                   else if k == ROOT.base then SLASH else 0
  {
    hide PutWord, Word;
    var b0 := ZeroBlock();
    ZeroWords();
    var b1 := PutWord(b0, 0, FS_MAGIC);
    PutWordCorrect(b0, 0, FS_MAGIC);
    var b2 := PutWord(b1, 1, blocks);
    PutWordCorrect(b1, 1, blocks);
    var b3 := PutWord(b2, ROOT.base + F_TYPE, FTYPE_DIR);
    PutWordCorrect(b2, ROOT.base + F_TYPE, FTYPE_DIR);
    PutWordCorrect(b3, ROOT.base, SLASH);
  }

  lemma InitialFilled(blocks: nat)
    requires 3 < blocks <= 1024
    ensures forall srcs :: Filled(InitialMem(blocks), blocks, srcs, 0)
  {
    hide PutWord;
    var m := InitialMem(blocks);
    SuperWords(blocks);
    ZeroWords();
    hide Word;
    assert m[1] == SuperBlock(blocks) && m[2] == Ones();
  }

  lemma BlockLength(m: Disk, b: nat)
    requires AllBlocks(m) && b < |m|
    ensures |m[b]| == BLKSIZE
  {
  }

  lemma FileRange(s: Source)
    ensures |s.content| < MAXFILESIZE ==> Blocks(|s.content|) <= MAXBLOCKS && |s.content| < WORD_LIMIT
    ensures Extent(s) == Blocks(|s.content|) + if Blocks(|s.content|) >= NDIRECT then 1 else 0
  {
  }

  lemma ChunkIsBlock(content: seq<nat>, j: nat)
    requires forall i :: 0 <= i < |content| ==> content[i] < 256
    ensures IsBlock(Chunk(content, j))
  {
  }

  // ---- The image ----

  ghost predicate Image(d: Disk, nblocks: nat, srcs: seq<Source>) {
    Rooted(d, nblocks, srcs) && |d| == nblocks && BitsFrom(d, First(srcs, |srcs|) + DirExtent(|srcs|))
  }

  lemma ImageCut(m: Disk, m': Disk, nblocks: nat, srcs: seq<Source>)
    requires AreSources(srcs) && Rooted(m, nblocks, srcs) && nblocks <= |m'| == |m| && AllBlocks(m')
    requires forall x :: 0 <= x < |m| && x != 2 ==> m'[x] == m[x]
    requires BitsFrom(m', First(srcs, |srcs|) + DirExtent(|srcs|))
    ensures Image(m'[..nblocks], nblocks, srcs)
  {
    hide Word, FileDone, RootDone, ZeroEntry, First, IsBlock, Bit, IsName;
    var d := m'[..nblocks];
    var at, n := First(srcs, |srcs|), |srcs|;
    FirstOrder(srcs, 0, n);
    RootKept(m, d, nblocks, at, RootBlocks(n));
    forall e | 0 <= e < n ensures FileDone(d, Ent(at, e), srcs[e], First(srcs, e)) {
      CutFile(m, d, nblocks, srcs, e);
    }
    forall e | n <= e < DirExtent(n) * BLKFILES ensures ZeroEntry(d, Ent(at, e)) {
      CutZero(m, d, Ent(at, e));
    }
    assert forall k: nat :: WordAt(d, 2, k) == WordAt(m', 2, k);
    assert BitsFrom(d, at + DirExtent(n));
  }

  lemma RootKept(m: Disk, m': Disk, nblocks: nat, at: nat, blocks: nat)
    requires RootDone(m, nblocks, at, blocks) && BlockAt(m', 1) == BlockAt(m, 1)
    ensures RootDone(m', nblocks, at, blocks)
  {
    hide Word, BlockAt;
    assert forall k: nat :: Field(m', ROOT, k) == Field(m, ROOT, k);
  }

  lemma CutFile(m: Disk, d: Disk, nblocks: nat, srcs: seq<Source>, e: nat)
    requires AreSources(srcs) && Rooted(m, nblocks, srcs) && e < |srcs| && |d| == nblocks <= |m|
    requires forall x :: 0 <= x < nblocks && x != 2 ==> d[x] == m[x]
    ensures FileDone(d, Ent(First(srcs, |srcs|), e), srcs[e], First(srcs, e))
  {
    hide Word, FileDone, Rooted, IsName, Extent, First, DirExtent;
    RootedAt(m, nblocks, srcs, e);
    var g := Ent(First(srcs, |srcs|), e);
    SameFields(m, d, g, g);
    FileDoneKept(m, d, g, g, srcs[e], First(srcs, e));
  }

  lemma RootedAt(m: Disk, nblocks: nat, srcs: seq<Source>, e: nat)
    requires Rooted(m, nblocks, srcs) && AreSources(srcs) && e < |srcs|
    ensures var at := First(srcs, |srcs|);
            && FileDone(m, Ent(at, e), srcs[e], First(srcs, e)) && IsName(srcs[e].name)
            && 3 <= First(srcs, e) && First(srcs, e) + Extent(srcs[e]) <= at < nblocks
            && 3 <= Ent(at, e).block < nblocks
  {
    hide FileDone, RootDone, ZeroEntry, AllBlocks, Extent, First, DirExtent, IsName;
    EntInside(|srcs|, e);
    FirstNext(srcs, e);
    FirstOrder(srcs, e + 1, |srcs|);
    FirstOrder(srcs, 0, e);
  }

  lemma FirstNext(srcs: seq<Source>, e: nat)
    requires e < |srcs|
    ensures First(srcs, e + 1) == First(srcs, e) + Extent(srcs[e])
  {
  }

  lemma CutZero(m: Disk, d: Disk, f: FilePtr)
    requires ZeroEntry(m, f) && 3 <= f.block < |d| <= |m| && d[f.block] == m[f.block]
    ensures ZeroEntry(d, f)
  {
    hide Word;
    SameFields(m, d, f, f);
  }

  /** The File structures of the image. */
  ghost function ImageFiles(srcs: seq<Source>): set<FilePtr> {
    {ROOT} + set e | 0 <= e < DirExtent(|srcs|) * BLKFILES :: Ent(First(srcs, |srcs|), e)
  }

  /** The number of the source behind a File structure; the root comes last. */
  function IndexOf(srcs: seq<Source>, f: FilePtr): int {
    if f == ROOT then |srcs| else (f.block - First(srcs, |srcs|)) * BLKFILES + f.base / FILE_WORDS
  }

  lemma ImageFile(srcs: seq<Source>, f: FilePtr)
    requires f in ImageFiles(srcs)
    ensures f != ROOT ==>
              0 <= IndexOf(srcs, f) < DirExtent(|srcs|) * BLKFILES && f == Ent(First(srcs, |srcs|), IndexOf(srcs, f))
    ensures f != ROOT ==>
              First(srcs, |srcs|) <= f.block < First(srcs, |srcs|) + DirExtent(|srcs|) && f.base % FILE_WORDS == 0
                && f.base < WORDS
  {
    hide First;
    if f != ROOT {
      var e :| 0 <= e < DirExtent(|srcs|) * BLKFILES && f == Ent(First(srcs, |srcs|), e);
      assert e == e / BLKFILES * BLKFILES + e % BLKFILES;
    }
  }

  /** Where the blocks of source `e`, or of the root, begin and end. */
  function Begin(srcs: seq<Source>, e: nat): nat { if e <= |srcs| then First(srcs, e) else 0 }

  function End(srcs: seq<Source>, e: nat): nat {
    if e < |srcs| then First(srcs, e + 1) else if e == |srcs| then First(srcs, |srcs|) + DirExtent(|srcs|) else 0
  }

  /** The offset of a place among the blocks of its file. */
  function Offset(srcs: seq<Source>, r: Ref): nat {
    match r
    case Slot(_, n) => n
    case Indirect(f) => var e := IndexOf(srcs, f); if 0 <= e < |srcs| then Blocks(|srcs[e].content|) else 0
  }

  /** Every block number in the image lies among the blocks of its file, at the
      place that belongs to it. */
  lemma ImageTarget(d: Disk, nblocks: nat, srcs: seq<Source>, r: Ref)
    requires AreSources(srcs) && Image(d, nblocks, srcs) && srcs != [] && IsRef(ImageFiles(srcs), r)
    requires Target(d, r) != 0
    ensures var e := IndexOf(srcs, r.f);
            && 0 <= e <= |srcs| && Begin(srcs, e) <= Target(d, r) < End(srcs, e)
            && Target(d, r) == Begin(srcs, e) + Offset(srcs, r)
    ensures var e := IndexOf(srcs, r.f);
            r.Slot? && 0 <= e < |srcs| ==> r.n < Blocks(|srcs[e].content|)
    ensures r.f == ROOT ==> r.Slot?
  {
    hide Word, FileDone, ZeroEntry, IsBlock, Bit, IsName, BitsFrom;
    ImageFile(srcs, r.f);
    var e := IndexOf(srcs, r.f);
    FirstOrder(srcs, 0, |srcs|);
    if r.f == ROOT {
      RootTarget(d, nblocks, First(srcs, |srcs|), RootBlocks(|srcs|), r);
    } else if e < |srcs| {
      FirstOrder(srcs, 0, e);
      DoneTargets(d, r.f, srcs[e], First(srcs, e), if r.Slot? then r.n else 0);
    } else {
      ZeroTarget(d, r);
    }
  }

  lemma RootTarget(d: Disk, nblocks: nat, at: nat, blocks: nat, r: Ref)
    requires RootDone(d, nblocks, at, blocks) && r.f == ROOT && blocks < NDIRECT && at > 0
    ensures Target(d, r) == if r.Slot? && r.n < blocks then at + r.n else 0
  {
    hide Word, WordAt;
    assert Field(d, ROOT, F_INDIRECT) == 0;
    if r.Slot? && r.n < NDIRECT {
      assert F_DIRECT <= F_DIRECT + r.n <= F_INDIRECT;
    }
  }

  lemma ZeroTarget(d: Disk, r: Ref)
    requires ZeroEntry(d, r.f)
    ensures Target(d, r) == 0
  {
    hide Word, WordAt;
    assert Field(d, r.f, F_INDIRECT) == 0;
    if r.Slot? && r.n < NDIRECT {
      assert Field(d, r.f, F_DIRECT + r.n) == 0;
    }
  }

  /** Free are exactly the blocks from the last position on. */
  lemma ImageFree(d: Disk, nblocks: nat, srcs: seq<Source>, b: nat)
    requires Image(d, nblocks, srcs)
    ensures NBlocks(d) == nblocks && Reserved(d) == 3
    ensures IsFree(d, b) <==> First(srcs, |srcs|) + DirExtent(|srcs|) <= b < nblocks
  {
    hide Word, FileDone, ZeroEntry, IsBlock, Bit, First;
    if b < nblocks {
      assert b / BLKBITSIZE == 0 && b / 32 % WORDS == b / 32;
    }
  }

  lemma RangesApart(srcs: seq<Source>, e: nat, k: nat)
    requires e < k <= |srcs|
    ensures 3 <= Begin(srcs, e) && End(srcs, e) <= Begin(srcs, k) && Begin(srcs, k) <= End(srcs, k)
    ensures End(srcs, e) <= First(srcs, |srcs|) && End(srcs, k) <= First(srcs, |srcs|) + DirExtent(|srcs|)
  {
    hide First, DirExtent;
    FirstOrder(srcs, 0, e);
    FirstOrder(srcs, e + 1, k);
    FirstOrder(srcs, k, |srcs|);
    if k < |srcs| {
      FirstOrder(srcs, k, k + 1);
      FirstOrder(srcs, k + 1, |srcs|);
    }
  }

  /** The image that fsformat writes for at least one file satisfies the invariant
      of the file system. */
  lemma ImageInv(d: Disk, nblocks: nat, srcs: seq<Source>)
    requires AreSources(srcs) && Image(d, nblocks, srcs) && srcs != []
    ensures FsInv(d, ImageFiles(srcs))
  {
    hide Word, FileDone, ZeroEntry, IsBlock, Bit, IsName, BitsFrom, IsFree, Target, First, Begin, End, IndexOf,
         ImageFiles, Offset, BlockAt, RootDone;
    var files := ImageFiles(srcs);
    forall b: nat ensures IsFree(d, b) <==> First(srcs, |srcs|) + DirExtent(|srcs|) <= b < nblocks {
      ImageFree(d, nblocks, srcs, b);
    }
    ImageFree(d, nblocks, srcs, 0);
    FirstOrder(srcs, 0, |srcs|);
    forall f | f in files
      ensures f == ROOT || (f.base % FILE_WORDS == 0 && f.base < WORDS && 3 <= f.block < nblocks && !IsFree(d, f.block))
    {
      ImageFile(srcs, f);
    }
    assert Shaped(d) by { ImageShaped(d, nblocks, srcs); }
    forall r | IsRef(files, r) && Target(d, r) != 0 ensures 3 <= Target(d, r) < nblocks && !IsFree(d, Target(d, r)) {
      InRange(d, nblocks, srcs, r);
    }
    forall r, s | IsRef(files, r) && IsRef(files, s) && Target(d, r) != 0 && Target(d, r) == Target(d, s)
      ensures r == s
    {
      ImageOnce(d, nblocks, srcs, r, s);
    }
    forall r, g | IsRef(files, r) && g in files && Target(d, r) == g.block ensures r.Slot? && IsDir(d, r.f) {
      ImageHomes(d, nblocks, srcs, r, g);
    }
    forall f | f in files ensures Size(d, f) < INT_LIMIT {
      ImageSize(d, nblocks, srcs, f);
    }
    forall f, n | f in files && Blocks(Size(d, f)) <= n < MAXBLOCKS ensures Target(d, Slot(f, n)) == 0 {
      ImageFits(d, nblocks, srcs, f, n);
    }
  }

  lemma ImageShaped(d: Disk, nblocks: nat, srcs: seq<Source>)
    requires Image(d, nblocks, srcs)
    ensures Shaped(d)
  {
    hide Word, FileDone, ZeroEntry, IsBlock, Bit, BitsFrom;
    ImageFree(d, nblocks, srcs, 0);
    FirstOrder(srcs, 0, |srcs|);
  }

  lemma InRange(d: Disk, nblocks: nat, srcs: seq<Source>, r: Ref)
    requires AreSources(srcs) && Image(d, nblocks, srcs) && srcs != [] && IsRef(ImageFiles(srcs), r)
    requires Target(d, r) != 0
    ensures 3 <= Target(d, r) < First(srcs, |srcs|) + DirExtent(|srcs|) <= nblocks
    ensures r.f != ROOT ==> Target(d, r) < First(srcs, |srcs|)
  {
    hide Word, FileDone, ZeroEntry, IsBlock, Bit, BitsFrom, Target, First, ImageFiles, AreSources, RootDone;
    ImageTarget(d, nblocks, srcs, r);
    ImageFile(srcs, r.f);
    var e := IndexOf(srcs, r.f);
    FirstOrder(srcs, 0, |srcs|);
    if e < |srcs| {
      RangesApart(srcs, e, |srcs|);
    } else {
      assert r.f == ROOT by { LastIsRoot(d, nblocks, srcs, r); }
    }
  }

  /** An entry without a file has no blocks, so this one is the root. */
  lemma LastIsRoot(d: Disk, nblocks: nat, srcs: seq<Source>, r: Ref)
    requires Image(d, nblocks, srcs) && IsRef(ImageFiles(srcs), r) && Target(d, r) != 0 && IndexOf(srcs, r.f) >= |srcs|
    ensures r.f == ROOT
  {
    hide Word, FileDone, IsBlock, Bit, BitsFrom, First, RootDone;
    ImageFile(srcs, r.f);
    if r.f != ROOT {
      ZeroTarget(d, r);
    }
  }

  lemma ImageOnce(d: Disk, nblocks: nat, srcs: seq<Source>, r: Ref, s: Ref)
    requires AreSources(srcs) && Image(d, nblocks, srcs) && srcs != []
    requires IsRef(ImageFiles(srcs), r) && IsRef(ImageFiles(srcs), s) && Target(d, r) != 0
    requires Target(d, r) == Target(d, s)
    ensures r == s
  {
    hide Image, Target, Begin, End, ImageFiles, AreSources, First;
    ImageTarget(d, nblocks, srcs, r);
    ImageTarget(d, nblocks, srcs, s);
    var e, k := IndexOf(srcs, r.f), IndexOf(srcs, s.f);
    if e < k {
      RangesApart(srcs, e, k);
    } else if k < e {
      RangesApart(srcs, k, e);
    } else {
      ImageFile(srcs, r.f);
      ImageFile(srcs, s.f);
      if e == |srcs| {
        LastIsRoot(d, nblocks, srcs, r);
        LastIsRoot(d, nblocks, srcs, s);
      }
    }
  }

  lemma ImageHomes(d: Disk, nblocks: nat, srcs: seq<Source>, r: Ref, g: FilePtr)
    requires AreSources(srcs) && Image(d, nblocks, srcs) && srcs != []
    requires IsRef(ImageFiles(srcs), r) && g in ImageFiles(srcs) && Target(d, r) == g.block
    ensures r.Slot? && IsDir(d, r.f)
  {
    hide Word, FileDone, ZeroEntry, IsBlock, Bit, BitsFrom, Target, First, ImageFiles, AreSources;
    FirstOrder(srcs, 0, |srcs|);
    ImageFile(srcs, g);
    InRange(d, nblocks, srcs, r);
    ImageTarget(d, nblocks, srcs, r);
  }

  lemma ImageSize(d: Disk, nblocks: nat, srcs: seq<Source>, f: FilePtr)
    requires Image(d, nblocks, srcs) && srcs != [] && f in ImageFiles(srcs)
    ensures Size(d, f) < INT_LIMIT
  {
    hide Word, IsBlock, BitsFrom, HasName, DirectDone, DataDone, TableDone, First;
    ImageFile(srcs, f);
    if f != ROOT && IndexOf(srcs, f) >= |srcs| {
      assert Field(d, f, F_SIZE) == 0;
    }
  }

  lemma ImageFits(d: Disk, nblocks: nat, srcs: seq<Source>, f: FilePtr, n: nat)
    requires AreSources(srcs) && Image(d, nblocks, srcs) && srcs != [] && f in ImageFiles(srcs)
    requires Blocks(Size(d, f)) <= n < MAXBLOCKS
    ensures Target(d, Slot(f, n)) == 0
  {
    hide Word, ZeroEntry, IsBlock, Bit, BitsFrom, Target, HasName, DirectDone, DataDone, TableDone, First, IsName;
    ImageFile(srcs, f);
    FirstOrder(srcs, 0, |srcs|);
    var e := IndexOf(srcs, f);
    if f == ROOT {
      RootTarget(d, nblocks, First(srcs, |srcs|), RootBlocks(|srcs|), Slot(f, n));
    } else if e < |srcs| {
      FirstOrder(srcs, 0, e);
      DoneTargets(d, f, srcs[e], First(srcs, e), n);
    } else {
      ZeroTarget(d, Slot(f, n));
    }
  }

  /** For no files at all the root directory gets a block that is left free, so
      that the invariant does not hold. */
  lemma EmptyImage(d: Disk, nblocks: nat, files: set<FilePtr>)
    requires Image(d, nblocks, []) && ROOT in files
    ensures IsFree(d, Target(d, Slot(ROOT, 0))) && !FsInv(d, files)
  {
    hide Word, FileDone, ZeroEntry, IsBlock, Bit, BitsFrom, Target;
    ImageFree(d, nblocks, [], 3);
    RootTarget(d, nblocks, 3, 1, Slot(ROOT, 0));
    assert IsRef(files, Slot(ROOT, 0));
  }

  /** The root directory has exactly the entries of the image. */
  lemma ImageEntries(d: Disk, nblocks: nat, srcs: seq<Source>, g: FilePtr)
    requires Image(d, nblocks, srcs) && srcs != []
    ensures IsEntry(d, ROOT, g) <==> g in ImageFiles(srcs) && g != ROOT
  {
    hide Word, FileDone, ZeroEntry, IsBlock, BitsFrom, Target, First;
    FirstOrder(srcs, 0, |srcs|);
    var at, n := First(srcs, |srcs|), DirExtent(|srcs|);
    assert Entries(d, ROOT) == n * BLKFILES by { hide Field; }
    forall k | 0 <= k < n * BLKFILES ensures Entry(d, ROOT, k) == Ent(at, k) {
      RootTarget(d, nblocks, at, n, Slot(ROOT, k / BLKFILES));
    }
    if g in ImageFiles(srcs) && g != ROOT {
      ImageFile(srcs, g);
      assert Entry(d, ROOT, IndexOf(srcs, g)) == g;
    }
  }

  lemma ImageNames(d: Disk, nblocks: nat, srcs: seq<Source>, f: FilePtr)
    requires AreSources(srcs) && Image(d, nblocks, srcs) && f in ImageFiles(srcs) && f != ROOT
    ensures var e := IndexOf(srcs, f);
            && !IsDir(d, f) && e >= 0 && (if e < |srcs| then HasName(d, f, srcs[e].name) && IsName(srcs[e].name)
                  else Unused(d, f))
  {
    hide Word, IsBlock, BitsFrom, First, DirectDone, DataDone, TableDone, HasName, IsName;
    ImageFile(srcs, f);
    if IndexOf(srcs, f) >= |srcs| {
      assert Field(d, f, 0) == 0 && Field(d, f, F_TYPE) == 0;
    }
  }

  /** With different names the image is a tree, every name leads to its file, and
      every file reads as what was put in. */
  lemma ImageTree(d: Disk, nblocks: nat, srcs: seq<Source>)
    requires AreSources(srcs) && Image(d, nblocks, srcs) && srcs != []
    requires forall e, k :: 0 <= e < k < |srcs| ==> srcs[e].name != srcs[k].name
    ensures Tree(d, ImageFiles(srcs))
    ensures forall e :: 0 <= e < |srcs| ==> Lookup(d, ROOT, srcs[e].name) == Some(Ent(First(srcs, |srcs|), e))
  {
    hide Word, FileDone, ZeroEntry, IsBlock, BitsFrom, Target, First, HasName, IsName, Unused, IndexOf, ImageFiles,
         FsInv, IsEntry, Lookup, Ent;
    var files := ImageFiles(srcs);
    ImageInv(d, nblocks, srcs);
    forall dir | dir in files && IsDir(d, dir) ensures DirOk(d, files, dir) {
      if dir != ROOT {
        ImageNames(d, nblocks, srcs, dir);
      }
      ImageDir(d, nblocks, srcs);
    }
    assert ROOT in files by { RootInImage(srcs); }
    forall e | 0 <= e < |srcs| ensures Lookup(d, ROOT, srcs[e].name) == Some(Ent(First(srcs, |srcs|), e)) {
      var g := Ent(First(srcs, |srcs|), e);
      EntInImage(d, nblocks, srcs, e);
      ImageEntries(d, nblocks, srcs, g);
      ImageNames(d, nblocks, srcs, g);
      LookupIff(d, files, ROOT, srcs[e].name, g);
    }
  }

  lemma RootInImage(srcs: seq<Source>)
    ensures ROOT in ImageFiles(srcs)
  {
  }

  lemma EntInImage(d: Disk, nblocks: nat, srcs: seq<Source>, e: nat)
    requires Image(d, nblocks, srcs) && e < |srcs|
    ensures var g := Ent(First(srcs, |srcs|), e);
            g in ImageFiles(srcs) && g != ROOT && IndexOf(srcs, g) == e && IsDir(d, ROOT)
  {
    hide Word, FileDone, ZeroEntry, IsBlock, BitsFrom, First;
    FirstOrder(srcs, 0, |srcs|);
    EntInside(|srcs|, e);
    assert e == e / BLKFILES * BLKFILES + e % BLKFILES;
  }

  lemma ImageDir(d: Disk, nblocks: nat, srcs: seq<Source>)
    requires AreSources(srcs) && Image(d, nblocks, srcs) && srcs != []
    requires forall e, k :: 0 <= e < k < |srcs| ==> srcs[e].name != srcs[k].name
    ensures DirOk(d, ImageFiles(srcs), ROOT)
  {
    hide Word, FileDone, ZeroEntry, IsBlock, BitsFrom, Target, First, HasName, IsName, Unused, ImageFiles, IsEntry,
         IndexOf;
    var files, at, n := ImageFiles(srcs), First(srcs, |srcs|), DirExtent(|srcs|);
    FirstOrder(srcs, 0, |srcs|);
    forall i | 0 <= i < DirBlocks(d, ROOT) ensures Target(d, Slot(ROOT, i)) != 0 {
      RootTarget(d, nblocks, at, n, Slot(ROOT, i));
    }
    forall g | IsEntry(d, ROOT, g) ensures g in files && (Unused(d, g) ==> !IsDir(d, g)) {
      ImageEntries(d, nblocks, srcs, g);
      ImageNames(d, nblocks, srcs, g);
    }
    forall g, h, m | IsEntry(d, ROOT, g) && IsEntry(d, ROOT, h) && IsName(m) && HasName(d, g, m) && HasName(d, h, m)
      ensures g == h
    {
      ImageEntries(d, nblocks, srcs, g);
      ImageEntries(d, nblocks, srcs, h);
      SameSource(d, nblocks, srcs, g, h, m);
    }
  }

  lemma SameSource(d: Disk, nblocks: nat, srcs: seq<Source>, g: FilePtr, h: FilePtr, m: Name)
    requires AreSources(srcs) && Image(d, nblocks, srcs) && IsName(m) && HasName(d, g, m) && HasName(d, h, m)
    requires g in ImageFiles(srcs) && h in ImageFiles(srcs) && g != ROOT && h != ROOT
    requires forall e, k :: 0 <= e < k < |srcs| ==> srcs[e].name != srcs[k].name
    ensures g == h
  {
    hide Image, AreSources, HasName, IsName, Unused, ImageFiles, First;
    ImageNames(d, nblocks, srcs, g);
    ImageNames(d, nblocks, srcs, h);
    NameUnique(d, g, m, m);
    NameUnique(d, h, m, m);
    var e, k := IndexOf(srcs, g), IndexOf(srcs, h);
    NameUnique(d, g, m, srcs[e].name);
    NameUnique(d, h, m, srcs[k].name);
    ImageFile(srcs, g);
    ImageFile(srcs, h);
    assert e == k;
  }

  /** The file server takes the image for a file system: the super block has the
      magic number and the size of the disk, and the root is a directory named "/". */
  lemma ImageSuper(d: Disk, nblocks: nat, srcs: seq<Source>)
    requires Image(d, nblocks, srcs)
    ensures WordAt(d, 1, 0) == 0x4A05_30AE && WordAt(d, 1, 1) == |d|
    ensures NameByte(d, ROOT, 0) == '/' as nat && NameByte(d, ROOT, 1) == 0
    ensures IsDir(d, ROOT) && Size(d, ROOT) % BLKSIZE == 0 && Size(d, ROOT) >= |srcs| * 256
    ensures Size(d, ROOT) - BLKSIZE < |srcs| * 256 || Size(d, ROOT) == BLKSIZE
  {
    hide Word, FileDone, ZeroEntry, AllBlocks, First, BitsFrom;
  }

  lemma ImageContent(d: Disk, nblocks: nat, srcs: seq<Source>, e: nat)
    requires AreSources(srcs) && Image(d, nblocks, srcs) && e < |srcs| && |srcs[e].content| < MAXFILESIZE
    ensures Content(d, Ent(First(srcs, |srcs|), e)) == srcs[e].content
  {
    hide Rooted, BitsFrom, FileDone, Content, First, IsName;
    RootedAt(d, nblocks, srcs, e);
    DoneContent(d, Ent(First(srcs, |srcs|), e), srcs[e], First(srcs, e));
  }

  /** So a file of the image can grow without old bytes appearing in the gap. */
  lemma ImageTail(d: Disk, nblocks: nat, srcs: seq<Source>, e: nat, pos: nat)
    requires AreSources(srcs) && Image(d, nblocks, srcs) && e < |srcs| && |srcs[e].content| < MAXFILESIZE
    requires |srcs[e].content| <= pos && pos / BLKSIZE * BLKSIZE < |srcs[e].content|
    ensures Raw(d, Ent(First(srcs, |srcs|), e), pos) == 0
  {
    hide Rooted, BitsFrom, FileDone, Raw, First, IsName;
    RootedAt(d, nblocks, srcs, e);
    DoneTail(d, Ent(First(srcs, |srcs|), e), srcs[e], First(srcs, e), pos);
  }

  lemma FirstBounds(srcs: seq<Source>, e: nat)
    requires e <= |srcs|
    ensures 3 <= First(srcs, e) <= First(srcs, |srcs|) && First(srcs, 0) == 3
  {
    FirstOrder(srcs, 0, e);
    FirstOrder(srcs, e, |srcs|);
  }

  lemma FilledShort(m: Disk, nblocks: nat, srcs: seq<Source>)
    requires Filled(m, nblocks, srcs, |srcs|)
    ensures |srcs| <= MAX_DIR_ENTS
  {
  }

  class Formatter {
    const nblocks: nat
    var mem: Disk       // diskmap, then the entries that startdir allocates
    var diskpos: nat    // in blocks
    var n: nat          // entries in use

    ghost predicate Shape()
      reads this
    {
      |mem| == nblocks + ENT_BLOCKS && AllBlocks(mem) && nblocks <= 1024 && diskpos < nblocks
    }

    /** alloc, in blocks; false is the panic. */
    method Alloc(blocks: nat) returns (ok: bool, start: nat)
      modifies this`diskpos
      ensures start == old(diskpos) && diskpos == old(diskpos) + blocks && (ok <==> diskpos < nblocks)
    {
      start := diskpos;
      diskpos := diskpos + blocks;
      ok := diskpos < nblocks;
    }

    /** finishfile, for a length of `blocks` blocks after rounding. */
    method FinishFile(f: FilePtr, start: nat, len: nat, blocks: nat) returns (ok: bool)
      requires Shape() && f.block < |mem| && f.base + FILE_WORDS <= WORDS && !(diskpos <= f.block < nblocks)
      requires start + blocks <= nblocks && (blocks >= NDIRECT ==> start + blocks == diskpos) && blocks <= MAXBLOCKS
               && len < WORD_LIMIT
      modifies this`mem, this`diskpos
      ensures diskpos == old(diskpos) + (if blocks >= NDIRECT then 1 else 0) && (ok <==> diskpos < nblocks)
      ensures ok ==> Shape() && Finished(old(mem), mem, f, start, len, blocks)
    {
      hide Word, WordAt, PutAt;
      ghost var m := mem;
      ghost var pos := diskpos;
      PutAtAll(mem, f.block, f.base + F_SIZE, len);
      mem := PutAt(mem, f.block, f.base + F_SIZE, len);
      var i := 0;
      while i < blocks && i < NDIRECT
        invariant i <= blocks && i <= NDIRECT && diskpos == pos && Shape()
        invariant forall x: nat, k: nat :: WordAt(mem, x, k) == FinishedWord(m, f, start, len, i, None, x, k)
        invariant forall x :: 0 <= x < |mem| && x != f.block ==> mem[x] == m[x]
      {
        PutAtAll(mem, f.block, f.base + F_DIRECT + i, start + i);
        mem := PutAt(mem, f.block, f.base + F_DIRECT + i, start + i);
        i := i + 1;
      }
      ok := true;
      if i == NDIRECT {
        var ind;
        ok, ind := Alloc(1);
        if !ok {
          return;
        }
        PutAtAll(mem, f.block, f.base + F_INDIRECT, ind);
        mem := PutAt(mem, f.block, f.base + F_INDIRECT, ind);
        while i < blocks
          invariant NDIRECT <= i <= blocks && diskpos == pos + 1 && Shape()
          invariant forall x: nat, k: nat :: WordAt(mem, x, k) == FinishedWord(m, f, start, len, i, Some(pos), x, k)
          invariant forall x :: 0 <= x < |mem| && x != f.block && x != pos ==> mem[x] == m[x]
        {
          PutAtAll(mem, ind, i - NDIRECT, start + i);
          mem := PutAt(mem, ind, i - NDIRECT, start + i);
          i := i + 1;
        }
      }
    }

    /** diradd: the name and the type of the next entry. */
    method DirAdd(name: Name) returns (ok: bool, f: FilePtr)
      requires Shape() && IsName(name) && n <= MAX_DIR_ENTS
      modifies this`mem, this`n
      ensures n == old(n) + 1 && (ok <==> n <= MAX_DIR_ENTS) && f == Ent(nblocks, old(n))
      ensures ok ==> Shape() && Named(old(mem), mem, f, name)
    {
      hide Word, ByteOf, PutAt, Splice;
      ghost var m := mem;
      f := Ent(nblocks, n);
      n := n + 1;
      if n > MAX_DIR_ENTS {
        return false, f;
      }
      NameSplice(mem[f.block], f.base, name);
      mem := mem[f.block := Splice(mem[f.block], 4 * f.base, name + [0])];
      assert forall i: nat :: i <= |name| ==> NameByte(mem, f, i) == (name + [0])[i];
      ghost var m1 := mem;
      PutAtAll(mem, f.block, f.base + F_TYPE, FTYPE_REG);
      mem := PutAt(mem, f.block, f.base + F_TYPE, FTYPE_REG);
      assert forall i: nat :: i <= |name| ==> NameByte(mem, f, i) == NameByte(m1, f, i);
      ok := true;
    }

    /** readn into the image: the content in whole blocks. */
    method ReadIn(start: nat, content: seq<nat>)
      requires Shape() && start + Blocks(|content|) <= nblocks
      requires forall i :: 0 <= i < |content| ==> content[i] < 256
      modifies this`mem
      ensures Shape() && Loaded(old(mem), mem, start, content)
    {
      hide Chunk;
      var j := 0;
      while j < Blocks(|content|)
        invariant j <= Blocks(|content|) && Shape() && |mem| == |old(mem)|
        invariant forall b :: 0 <= b < |mem| ==>
                    mem[b] == if start <= b < start + j then Chunk(content, b - start) else old(mem)[b]
      {
        ChunkIsBlock(content, j);
        mem := mem[start + j := Chunk(content, j)];
        j := j + 1;
      }
    }

    /** writefile, once the file is open. */
    method WriteFile(ghost srcs: seq<Source>, s: Source) returns (ok: bool)
      requires AreSources(srcs) && n < |srcs| && srcs[n] == s && diskpos == First(srcs, n)
      requires Filled(mem, nblocks, srcs, n)
      modifies this`mem, this`diskpos, this`n
      ensures ok ==>
                n == old(n) + 1 && diskpos == First(srcs, n) && Filled(mem, nblocks, srcs, n)
                  && |s.content| < MAXFILESIZE
      ensures !ok ==> old(n) == MAX_DIR_ENTS || |s.content| >= MAXFILESIZE || First(srcs, old(n) + 1) >= nblocks
    {
      hide Word, FileDone, Chunk, SuperDone, EntsZero, Named, Loaded, Finished, IsName, OnlyFile, Blocks;
      FileRange(s);
      if |s.content| >= MAXFILESIZE {
        return false;
      }
      ghost var m := mem;
      ghost var k := n;
      var f, start;
      ok, f := DirAdd(s.name);
      if !ok {
        return;
      }
      ghost var m1 := mem;
      ok, start := Alloc(Blocks(|s.content|));
      if !ok {
        return;
      }
      ReadIn(start, s.content);
      ghost var m2 := mem;
      EntPlace(nblocks, k);
      ok := FinishFile(f, start, |s.content|, Blocks(|s.content|));
      if !ok {
        return;
      }
      FileWritten(m, m1, m2, mem, nblocks, srcs, k);
      FilledStep(m, mem, nblocks, srcs, k);
    }

    /** opendisk: boot block, super block and bitmap. */
    constructor (blocks: nat)
      requires 3 < blocks <= 1024
      ensures nblocks == blocks && n == 0 && diskpos == 3 && forall srcs :: Filled(mem, blocks, srcs, 0)
    {
      nblocks := blocks;
      mem := InitialMem(blocks);
      diskpos := 3;
      n := 0;
      new;
      InitialFilled(blocks);
    }

    /** The memmove of finishdir, block by block. */
    method MoveEnts(start: nat)
      requires Shape() && EntsZero(mem, nblocks, n) && n <= MAX_DIR_ENTS && start + DirExtent(n) < nblocks
      requires forall b :: start <= b < start + DirExtent(n) ==> mem[b] == ZeroBlock()
      modifies this`mem
      ensures Shape() && Moved(old(mem), mem, nblocks, start, DirExtent(n))
    {
      hide Word, EntsZero, ZeroBlock, IsBlock;
      ghost var m := mem;
      var size := n * (4 * FILE_WORDS);
      var j := 0;
      while j < DirExtent(n)
        invariant j <= DirExtent(n) && Shape() && Moved(m, mem, nblocks, start, j)
      {
        var count := if size - j * BLKSIZE < BLKSIZE then size - j * BLKSIZE else BLKSIZE;
        assert mem[start + j] == m[start + j] && mem[nblocks + j] == m[nblocks + j];
        EntBlockCopied(m, nblocks, n, start + j, j, count);
        assert |m[nblocks + j]| == |m[start + j]| == BLKSIZE by {
          BlockLength(m, nblocks + j);
          BlockLength(m, start + j);
        }
        mem := mem[start + j := mem[nblocks + j][..count] + mem[start + j][count..]];
        j := j + 1;
      }
    }

    /** finishdir: the entries go to the disk, and the root directory to the super
        block.  Its length is rounded as an int, so that an empty directory gets
        one block, which has not been allocated. */
    method FinishDir(ghost srcs: seq<Source>) returns (ok: bool)
      requires n == |srcs| && diskpos == First(srcs, n) && Filled(mem, nblocks, srcs, n) && AreSources(srcs)
      modifies this`mem, this`diskpos
      ensures ok <==> First(srcs, n) + DirExtent(n) < nblocks
      ensures ok ==>
                diskpos == First(srcs, n) + DirExtent(n) && Shape() && Rooted(mem, nblocks, srcs) && BitmapOnes(mem)
    {
      hide Word, FileDone, IsName, FinishedWord, Moved, SuperDone, EntsZero, Rooted, BitmapOnes, IsBlock;
      ghost var m := mem;
      var start;
      ok, start := Alloc(DirExtent(n));
      if !ok {
        return;
      }
      FirstOrder(srcs, 0, n);
      MoveEnts(start);
      ghost var m1 := mem;
      MovedSize(m, m1, nblocks, start, DirExtent(n));
      ok := FinishFile(ROOT, start, RootBlocks(n) * BLKSIZE, RootBlocks(n));
      RootWritten(m, m1, mem, nblocks, srcs);
    }

    /** finishdisk: everything up to the position reached is in use. */
    method FinishDisk()
      requires Shape() && 3 <= diskpos && BitmapOnes(mem)
      modifies this`mem
      ensures Shape() && |mem| == |old(mem)| && (forall x :: 0 <= x < |mem| && x != 2 ==> mem[x] == old(mem)[x])
      ensures BitsFrom(mem, diskpos)
    {
      hide Word, Bit, ClearBit, PutAt;
      OnesBits(mem);
      var i := 0;
      while i < diskpos
        invariant i <= diskpos && Shape() && |mem| == |old(mem)| && BitsFrom(mem, i)
        invariant forall x :: 0 <= x < |mem| && x != 2 ==> mem[x] == old(mem)[x]
      {
        ClearOne(mem, i);
        mem := PutAt(mem, 2, i / 32, ClearBit(WordAt(mem, 2, i / 32), i % 32));
        i := i + 1;
      }
    }
  }

  /** fsformat: it writes an image exactly when everything fits, and then the image
      satisfies the file system invariant if and only if there is a file in it. */
  method Format(nblocks: nat, srcs: seq<Source>) returns (ok: bool, image: Disk)
    requires AreSources(srcs) && 2 <= nblocks <= 1024
    ensures ok <==> Fits(nblocks, srcs)
    ensures ok ==> Image(image, nblocks, srcs) && (FsInv(image, ImageFiles(srcs)) <==> srcs != [])
    ensures ok ==> forall e :: 0 <= e < |srcs| ==> Content(image, Ent(First(srcs, |srcs|), e)) == srcs[e].content
  {
    hide Filled, FsInv, Content, Rooted, IsName, BitmapOnes, BitsFrom, ImageFiles, Ent, AllBlocks, Extent, First,
         DirExtent;
    image := [];
    FirstBounds(srcs, 0);
    if nblocks <= 3 {
      return false, image;
    }
    var disk := new Formatter(nblocks);
    var i := 0;
    while i < |srcs|
      invariant i <= |srcs| && disk.n == i && disk.nblocks == nblocks && disk.diskpos == First(srcs, i)
                && Filled(disk.mem, nblocks, srcs, i)
      invariant forall e :: 0 <= e < i ==> |srcs[e].content| < MAXFILESIZE
    {
      FirstBounds(srcs, i + 1);
      FirstBounds(srcs, i);
      ok := disk.WriteFile(srcs, srcs[i]);
      if !ok {
        return;
      }
      i := i + 1;
    }
    FilledShort(disk.mem, nblocks, srcs);
    ok := disk.FinishDir(srcs);
    if !ok {
      return;
    }
    FirstBounds(srcs, |srcs|);
    ghost var m := disk.mem;
    disk.FinishDisk();
    ImageCut(m, disk.mem, nblocks, srcs);
    image := disk.mem[..nblocks];
    if srcs == [] {
      EmptyImage(image, nblocks, ImageFiles(srcs)) by { RootInImage(srcs); }
    } else {
      ImageInv(image, nblocks, srcs);
    }
    forall e | 0 <= e < |srcs| ensures Content(image, Ent(First(srcs, |srcs|), e)) == srcs[e].content {
      ImageContent(image, nblocks, srcs, e);
    }
  }
}
