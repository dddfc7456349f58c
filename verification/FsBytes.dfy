/** Bytes, 32-bit words and bits of a disk block. */
module FsBytes {

  const BLKSIZE: nat := 4096
  const WORDS: nat := 1024           // words of a block
  const WORD_LIMIT: nat := 0x1_0000_0000

  type Block = seq<nat>

  predicate IsBlock(b: Block) {
    |b| == BLKSIZE && forall i :: 0 <= i < |b| ==> b[i] < 256
  }

  function ZeroBlock(): (b: Block)
    ensures IsBlock(b)
  {
    seq(BLKSIZE, _ => 0)
  }

  /** The little-endian word at index `k`. */
  function Word(b: Block, k: nat): nat {
    if 4 * k + 3 < |b| then b[4 * k] + 0x100 * b[4 * k + 1] + 0x1_0000 * b[4 * k + 2] + 0x100_0000 * b[4 * k + 3] else 0
  }

  function PutWord(b: Block, k: nat, w: nat): (r: Block)
    ensures |r| == |b|
  {
    if 4 * k + 3 < |b| then
      b[4 * k := w % 0x100][4 * k + 1 := w / 0x100 % 0x100]
       [4 * k + 2 := w / 0x1_0000 % 0x100][4 * k + 3 := w / 0x100_0000 % 0x100]
    else b
  }

  lemma WordRange(b: Block, k: nat)
    requires IsBlock(b)
    ensures Word(b, k) < WORD_LIMIT
  {
  }

  lemma Digits(w: nat)
    requires w < WORD_LIMIT
    ensures w == w % 0x100 + 0x100 * (w / 0x100 % 0x100) + 0x1_0000 * (w / 0x1_0000 % 0x100)
                 + 0x100_0000 * (w / 0x100_0000 % 0x100)
  {
    var a := w / 0x100;
    var c := a / 0x100;
    assert c == w / 0x1_0000;
    assert c / 0x100 == w / 0x100_0000;
  }

  /** A stored word reads back; every other word, and every byte outside it, stays. */
  lemma PutWordCorrect(b: Block, k: nat, w: nat)
    requires IsBlock(b) && k < WORDS && w < WORD_LIMIT
    ensures IsBlock(PutWord(b, k, w))
    ensures forall j: nat :: Word(PutWord(b, k, w), j) == if j == k then w else Word(b, j)
    ensures forall i :: 0 <= i < BLKSIZE && i / 4 != k ==> PutWord(b, k, w)[i] == b[i]
  {
    Digits(w);
  }

  lemma ZeroWords()
    ensures forall k: nat :: Word(ZeroBlock(), k) == 0
  {
  }

  // ---- Bytes ----

  /** `s` copied to offset `at`. */
  function Splice(b: Block, at: int, s: seq<nat>): Block {
    if 0 <= at && at + |s| <= |b| then b[..at] + s + b[at + |s|..] else b
  }

  lemma SpliceCorrect(b: Block, at: nat, s: seq<nat>)
    requires IsBlock(b) && at + |s| <= BLKSIZE && forall i :: 0 <= i < |s| ==> s[i] < 256
    ensures var r := Splice(b, at, s);
            && IsBlock(r) && r[at..at + |s|] == s
            && (forall i :: 0 <= i < at || at + |s| <= i < BLKSIZE ==> r[i] == b[i])
            && (forall k: nat :: 4 * k + 4 <= at ==> Word(r, k) == Word(b, k))
  {
  }

  /** Byte `i` of a word. */
  function ByteOf(w: nat, i: nat): nat {
    if i == 0 then w % 0x100
    else if i == 1 then w / 0x100 % 0x100
    else if i == 2 then w / 0x1_0000 % 0x100
    else w / 0x100_0000 % 0x100
  }

  /** Words outside the stretch are as before. */
  lemma SpliceKeepsWords(b: Block, base: nat, n: nat, s: seq<nat>)
    requires IsBlock(b) && |s| <= 4 * n && 4 * base + |s| <= BLKSIZE
    ensures forall k: nat :: !(base <= k < base + n) ==> Word(Splice(b, 4 * base, s), k) == Word(b, k)
  {
  }

  lemma LowByte(x: nat, rest: nat)
    requires x < 256
    ensures (x + 0x100 * rest) % 0x100 == x && (x + 0x100 * rest) / 0x100 == rest
  {
  }

  lemma Shifts(v: nat)
    ensures v / 0x1_0000 == v / 0x100 / 0x100 && v / 0x100_0000 == v / 0x100 / 0x100 / 0x100
  {
  }

  lemma WordBytes(b: Block, k: nat, i: nat)
    requires IsBlock(b) && k < WORDS && i < 4
    ensures ByteOf(Word(b, k), i) == b[4 * k + i]
  {
    var x, y, z, w := b[4 * k], b[4 * k + 1], b[4 * k + 2], b[4 * k + 3];
    var v := Word(b, k);
    assert v == x + 0x100 * (y + 0x100 * (z + 0x100 * w));
    LowByte(x, y + 0x100 * (z + 0x100 * w));
    LowByte(y, z + 0x100 * w);
    LowByte(z, w);
    Shifts(v);
  }

  // ---- Bits ----

  function Pow2(n: nat): nat { if n == 0 then 1 else 2 * Pow2(n - 1) }

  /** `w & (1 << i)`. */
  predicate Bit(w: nat, i: nat) { if i == 0 then w % 2 == 1 else Bit(w / 2, i - 1) }

  /** `w | (1 << i)`. */
  function SetBit(w: nat, i: nat): nat {
    if i == 0 then w - w % 2 + 1 else 2 * SetBit(w / 2, i - 1) + w % 2
  }

  /** `w & ~(1 << i)`. */
  function ClearBit(w: nat, i: nat): nat {
    if i == 0 then w - w % 2 else 2 * ClearBit(w / 2, i - 1) + w % 2
  }

  lemma {:induction false} SetBitCorrect(w: nat, i: nat, n: nat, j: nat)
    requires i < n && w < Pow2(n)
    ensures SetBit(w, i) < Pow2(n)
    ensures Bit(SetBit(w, i), j) <==> j == i || Bit(w, j)
    decreases i, j
  {
    if i > 0 {
      SetBitCorrect(w / 2, i - 1, n - 1, if j > 0 then j - 1 else 0);
    } else if j > 0 {
      assert (w - w % 2 + 1) / 2 == w / 2;
    }
  }

  lemma {:induction false} ClearBitCorrect(w: nat, i: nat, n: nat, j: nat)
    requires i < n && w < Pow2(n)
    ensures ClearBit(w, i) < Pow2(n)
    ensures Bit(ClearBit(w, i), j) <==> j != i && Bit(w, j)
    decreases i, j
  {
    if i > 0 {
      ClearBitCorrect(w / 2, i - 1, n - 1, if j > 0 then j - 1 else 0);
    } else if j > 0 {
      assert (w - w % 2) / 2 == w / 2;
    }
  }

  lemma WordBits()
    ensures Pow2(32) == WORD_LIMIT
  {
    assert Pow2(8) == 256;
    assert Pow2(16) == 256 * Pow2(8);
    assert Pow2(24) == 256 * Pow2(16);
  }
}
