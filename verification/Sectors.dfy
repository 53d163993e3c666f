/**
 The file system device: an array of 512-byte sectors (devices/block.h). A sector that holds an index block or an
 on-disk inode is 128 little-endian 32-bit words.
 */
module Sectors {
  import opened Basics

  const SECTOR_SIZE: int := 512
  const WORDS: int := 128

  /** The logical sector that holds byte `pos` of a file, and the place of the byte there. */
  function SectorNo(pos: int): (j: int)
    ensures pos >= 0 ==> j >= 0
  {
    pos / SECTOR_SIZE
  }

  function SectorOfs(pos: int): (o: int)
    ensures 0 <= o < SECTOR_SIZE
  {
    pos % SECTOR_SIZE
  }

  ghost predicate AllWords(s: seq<int>) {
    forall i | 0 <= i < |s| :: IsWord(s[i])
  }

  /** Byte `k` of a word, the low byte first. */
  function ByteOf(w: int, k: int): int {
    if k == 0 then w % 256
    else if k == 1 then w / 0x100 % 256
    else if k == 2 then w / 0x1_0000 % 256
    else w / 0x100_0000 % 256
  }

  /** Byte `i` of 32-bit words laid end to end. */
  function PackAt(words: seq<int>, i: int): int
    requires 0 <= i < 4 * |words|
  {
    ByteOf(words[i / 4], i % 4)
  }

  function Pack(words: seq<int>): (b: seq<int>)
    ensures |b| == 4 * |words|
  {
    seq(4 * |words|, i requires 0 <= i < 4 * |words| => PackAt(words, i))
  }

  function Word(b: seq<int>, i: int): int
    requires 0 <= i && 4 * i + 4 <= |b|
  {
    b[4 * i] + 0x100 * b[4 * i + 1] + 0x1_0000 * b[4 * i + 2] + 0x100_0000 * b[4 * i + 3]
  }

  /** A word written to a sector is read back. */
  lemma {:induction false} PackWord(words: seq<int>, i: int)
    requires 0 <= i < |words| && IsWord(words[i])
    ensures Word(Pack(words), i) == words[i]
  {
    hide ByteOf;
    PackByte(words, i, 0);
    PackByte(words, i, 1);
    PackByte(words, i, 2);
    PackByte(words, i, 3);
    WordBytes(words[i]);
  }

  lemma {:induction false} PackByte(words: seq<int>, i: int, k: int)
    requires 0 <= i < |words| && 0 <= k < 4
    ensures Pack(words)[4 * i + k] == ByteOf(words[i], k)
  {
    hide ByteOf;
    assert (4 * i + k) / 4 == i && (4 * i + k) % 4 == k;
    assert Pack(words)[4 * i + k] == PackAt(words, 4 * i + k);
  }

  lemma {:induction false} WordBytes(w: int)
    requires IsWord(w)
    ensures w == ByteOf(w, 0) + 0x100 * ByteOf(w, 1) + 0x1_0000 * ByteOf(w, 2) + 0x100_0000 * ByteOf(w, 3)
  {
    var x := w / 0x100;
    var y := x / 0x100;
    var z := y / 0x100;
    assert w / 0x1_0000 == y && w / 0x100_0000 == z && 0 <= z < 256;
  }

  ghost predicate Formatted(blocks: seq<seq<int>>) {
    forall i | 0 <= i < |blocks| :: |blocks[i]| == SECTOR_SIZE
  }

  class Device {
    var blocks: seq<seq<int>>

    ghost predicate Valid()
      reads this
    {
      Formatted(blocks)
    }

    /** block_read. */
    method Read(sector: int) returns (b: seq<int>)
      requires Valid() && 0 <= sector < |blocks|
      ensures b == blocks[sector] && |b| == SECTOR_SIZE
    {
      b := blocks[sector];
    }

    /** block_write. */
    method Write(sector: int, b: seq<int>)
      requires Valid() && 0 <= sector < |blocks| && |b| == SECTOR_SIZE
      modifies this
      ensures Valid() && blocks == old(blocks)[sector := b]
    {
      blocks := blocks[sector := b];
    }
  }
}
