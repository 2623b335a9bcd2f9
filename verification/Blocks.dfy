/** Disk blocks: 512 bytes, read either as bytes or as 128 little-endian 32-bit words
    (the log header and an indirect block are arrays of words inside a block). */
module Blocks {
  import opened Common

  const BSIZE: nat := 512
  const WORDS: nat := 128

  type Block = b: seq<Byte> | |b| == BSIZE witness seq(BSIZE, _ => 0)

  function ZeroBlock(): (b: Block)
    ensures forall i :: 0 <= i < BSIZE ==> b[i] == 0
  {
    seq(BSIZE, i => 0)
  }

  /** Word j of a block. */
  function Word(b: Block, j: nat): (w: Uint)
    requires j < WORDS
  {
    (b[4*j] as int) + 0x100 * (b[4*j+1] as int) + 0x1_0000 * (b[4*j+2] as int) + 0x100_0000 * (b[4*j+3] as int)
  }

  /** The block with word j replaced: the stored word reads back and no other word changes. */
  function SetWord(b: Block, j: nat, v: Uint): (r: Block)
    requires j < WORDS
    ensures forall k: nat :: k < WORDS ==> Word(r, k) == if k == j then v else Word(b, k)
  {
    Digits(v);
    b[4*j := v % 0x100][4*j+1 := v / 0x100 % 0x100][4*j+2 := v / 0x1_0000 % 0x100][4*j+3 := v / 0x100_0000]
  }

  lemma ZeroWords()
    ensures forall k: nat :: k < WORDS ==> Word(ZeroBlock(), k) == 0
  {}
}
