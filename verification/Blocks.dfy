// Disk blocks as the kernel sees them: 512 bytes, read either byte by byte or as
// 128 little-endian 32-bit words (the log header and the indirect block are
// arrays of words, fs.h and log.c).
module Blocks {
  const BSIZE: nat := 512
  const NWORDS: nat := 128

  type Byte = x: int | 0 <= x < 0x100
  type Word = x: int | 0 <= x < 0x1_0000_0000
  type Block = b: seq<Byte> | |b| == BSIZE witness seq(BSIZE, _ => 0)

  const ZeroBlock: Block := seq(BSIZE, _ => 0)

  function WordAt(b: Block, j: nat): Word
    requires j < NWORDS
  {
    var b0: int, b1: int, b2: int, b3: int := b[4 * j], b[4 * j + 1], b[4 * j + 2], b[4 * j + 3];
    b0 + 0x100 * b1 + 0x1_0000 * b2 + 0x100_0000 * b3
  }

  function SetWord(b: Block, j: nat, v: Word): Block
    requires j < NWORDS
  {
    b[4 * j := v % 0x100]
     [4 * j + 1 := v / 0x100 % 0x100]
     [4 * j + 2 := v / 0x1_0000 % 0x100]
     [4 * j + 3 := v / 0x100_0000]
  }

  // A stored word reads back, and no other word changes.
  lemma SetWordThenRead(b: Block, j: nat, v: Word)
    requires j < NWORDS
    ensures WordAt(SetWord(b, j, v), j) == v
    ensures forall k: nat | k < NWORDS && k != j :: WordAt(SetWord(b, j, v), k) == WordAt(b, k)
  {
    BytesOfWord(v);
  }

  // Little-endian: byte 4 * j + m of a block is digit m, to the base 256, of its word j.
  lemma WordDigits(b: Block, j: nat)
    requires j < NWORDS
    ensures
      var v: int := WordAt(b, j);
      v % 0x100 == b[4 * j] && v / 0x100 % 0x100 == b[4 * j + 1] && v / 0x1_0000 % 0x100 == b[4 * j + 2] &&
      v / 0x100_0000 == b[4 * j + 3]
  {
    var b0: int, b1: int, b2: int, b3: int := b[4 * j], b[4 * j + 1], b[4 * j + 2], b[4 * j + 3];
    Digits(b0, b1, b2, b3);
  }

  lemma Digits(b0: int, b1: int, b2: int, b3: int)
    requires 0 <= b0 < 0x100 && 0 <= b1 < 0x100 && 0 <= b2 < 0x100 && 0 <= b3 < 0x100
    ensures
      var v := b0 + 0x100 * b1 + 0x1_0000 * b2 + 0x100_0000 * b3;
      v % 0x100 == b0 && v / 0x100 % 0x100 == b1 && v / 0x1_0000 % 0x100 == b2 && v / 0x100_0000 == b3
  {
    var v := b0 + 0x100 * b1 + 0x1_0000 * b2 + 0x100_0000 * b3;
    assert v / 0x100 == b1 + 0x100 * b2 + 0x1_0000 * b3;
    assert v / 0x1_0000 == b2 + 0x100 * b3;
  }

  lemma BytesOfWord(v: Word)
    ensures v == v % 0x100 + 0x100 * (v / 0x100 % 0x100) + 0x1_0000 * (v / 0x1_0000 % 0x100)
                 + 0x100_0000 * (v / 0x100_0000)
  {
    var q, r := v / 0x100, v / 0x1_0000;
    assert r == q / 0x100;
    assert v / 0x100_0000 == r / 0x100;
  }

  // Every word of a zeroed block is zero.
  lemma ZeroBlockWords()
    ensures forall j: nat | j < NWORDS :: WordAt(ZeroBlock, j) == 0
  {
  }
}
