/** A disk block read as 4096 bits, the low bit of each byte first. */
module Bitmap {
  import opened Blocks

  const BPB: nat := BSIZE * 8

  /** 1 << k. */
  function Mask(k: nat): (m: nat)
    ensures m >= 1
  {
    if k == 0 then 1 else 2 * Mask(k - 1)
  }

  predicate HasBit(x: nat, k: nat) {
    if k == 0 then x % 2 == 1 else HasBit(x / 2, k - 1)
  }

  /** x | m when the bit is clear, x & ~m when it is set: an n-bit number stays one. */
  function Flipped(x: nat, k: nat, n: nat): (r: nat)
    requires k < n && x < Mask(n)
    ensures r < Mask(n) && r == if HasBit(x, k) then x - Mask(k) else x + Mask(k)
  {
    if k == 0 then (if x % 2 == 1 then x - 1 else x + 1) else 2 * Flipped(x / 2, k - 1, n - 1) + x % 2
  }

  /** No other bit moves. */
  lemma {:induction false} FlippedBits(x: nat, k: nat, n: nat, j: nat)
    requires k < n && x < Mask(n) && j < n
    ensures HasBit(Flipped(x, k, n), j) <==> if j == k then !HasBit(x, k) else HasBit(x, j)
  {
    var r := Flipped(x, k, n);
    if k == 0 {
      assert r / 2 == x / 2;
    } else {
      assert r / 2 == Flipped(x / 2, k - 1, n - 1) && r % 2 == x % 2;
      if j > 0 {
        FlippedBits(x / 2, k - 1, n - 1, j - 1);
      }
    }
  }

  predicate Bit(b: Block, i: nat)
    requires i < BPB
  {
    HasBit(b[i / 8], i % 8)
  }

  function SetBit(b: Block, i: nat, v: bool): (r: Block)
    requires i < BPB
  {
    assert Mask(8) == 256;
    if Bit(b, i) == v then b
    else b[i / 8 := Flipped(b[i / 8], i % 8, 8)]
  }

  /** Exactly one bit of the block changes. */
  lemma SetBitBits(b: Block, i: nat, v: bool)
    requires i < BPB
    ensures forall j: nat :: j < BPB ==> (Bit(SetBit(b, i, v), j) <==> if j == i then v else Bit(b, j))
  {
    assert Mask(8) == 256;
    forall j: nat | j < BPB ensures Bit(SetBit(b, i, v), j) <==> if j == i then v else Bit(b, j) {
      FlippedBits(b[i / 8], i % 8, 8, j % 8);
    }
  }
}
