/** How many blocks files take and how many are left. */
module FsSpace {
  import opened Blocks
  import opened Common
  import opened FsSpec
  import opened FsWrite

  /** The blocks a file without holes takes: its data and, past NDIRECT blocks, the indirect one. */
  function BlocksOf(size: nat): (n: nat) { (size + BSIZE - 1) / BSIZE + if size > NDIRECT * BSIZE then 1 else 0 }

  lemma NoBlocks()
    ensures BlocksOf(0) == 0
  {}

  lemma MoreBlocks(a: nat, b: nat)
    requires a <= b
    ensures BlocksOf(a) <= BlocksOf(b)
  {}

  /** What bytes within one block add to the end of a file of size off. */
  lemma PartBlocks(off: nat, n: nat)
    requires 0 < n <= BSIZE - off % BSIZE
    ensures BlocksOf(off + n) - BlocksOf(off) ==
      (if off % BSIZE == 0 then 1 else 0) + (if off / BSIZE >= NDIRECT && off <= NDIRECT * BSIZE then 1 else 0)
  {
    var bn, r := off / BSIZE, off % BSIZE;
    assert off == bn * BSIZE + r;
    assert (off + n + BSIZE - 1) / BSIZE == bn + 1;
    assert (off + BSIZE - 1) / BSIZE == if r == 0 then bn else bn + 1;
  }

  /** What bmap has to allocate for block bn of a file. */
  ghost function Missing(g: Geo, fs: Fs, i: nat, bn: nat): (n: nat)
    requires Shape(g, fs) && i < |fs.inodes| && bn < MAXFILE
  {
    (if BlockOf(g, fs, i, bn) == 0 then 1 else 0) + if bn >= NDIRECT && Ref(g, fs, i, NDIRECT) == 0 then 1 else 0
  }

  lemma MissingSlots(g: Geo, fs: Fs, i: nat, bn: nat)
    requires Shape(g, fs) && i < |fs.inodes| && bn < MAXFILE
    ensures bn < NDIRECT ==> BlockOf(g, fs, i, bn) == Ref(g, fs, i, bn) && Missing(g, fs, i, bn) == if Ref(g, fs, i, bn) == 0 then 1 else 0
    ensures bn >= NDIRECT ==> BlockOf(g, fs, i, bn) == Ref(g, fs, i, bn + 1) && (Ref(g, fs, i, NDIRECT) == 0 ==> Ref(g, fs, i, bn + 1) == 0)
    ensures bn >= NDIRECT ==> Missing(g, fs, i, bn) == (if Ref(g, fs, i, bn + 1) == 0 then 1 else 0) + if Ref(g, fs, i, NDIRECT) == 0 then 1 else 0
  {}

  /** The blocks a file of the given size still needs to reach end. */
  function Growth(size: nat, end: nat): (n: nat)
    ensures n == BlocksOf(Max(size, end)) - BlocksOf(size)
  {
    MoreBlocks(size, Max(size, end));
    BlocksOf(Max(size, end)) - BlocksOf(size)
  }

  /** One turn of writei's loop allocates what the file grows by. */
  lemma MissingIsGrowth(g: Geo, fs: Fs, i: nat, reach: nat, off: nat, n: nat)
    requires Shape(g, fs) && i < |fs.inodes| && Reaches(g, fs, i, reach)
    requires off <= reach && off / BSIZE < MAXFILE && 0 < n <= BSIZE - off % BSIZE
    ensures Missing(g, fs, i, off / BSIZE) == Growth(reach, off + n)
  {
    hide Ref, BlocksOf;
    assert off / BSIZE * BSIZE + off % BSIZE == off;
    if reach == off {
      PartBlocks(off, n);
    } else {
      SameBlocks(off, n, reach);
    }
  }

  lemma TurnGrowth(g: Geo, fs0: Fs, fs: Fs, owner: map<nat, Owner>, i: nat, off0: nat, src: seq<Byte>, off: nat, n: nat)
    requires Writing(g, fs0, fs, owner, i, off0, src, off) && off0 <= fs0.inodes[i].size
    requires off / BSIZE < MAXFILE && 0 < n <= BSIZE - off % BSIZE
    ensures Shape(g, fs) && i < |fs.inodes| && Missing(g, fs, i, off / BSIZE) == Growth(Max(fs0.inodes[i].size, off), off + n)
  {
    hide Ref, OwnedSlots, Reaches, Bytes, OthersKept, Growth, Missing;
    MissingIsGrowth(g, fs, i, Max(fs0.inodes[i].size, off), off, n);
  }

  /** A part of a block that the file reaches into already. */
  lemma SameBlocks(off: nat, n: nat, reach: nat)
    requires off < reach && 0 < n <= BSIZE - off % BSIZE
    ensures BlocksOf(Max(reach, off + n)) == BlocksOf(reach)
  {
    var bn := off / BSIZE;
    assert off == bn * BSIZE + off % BSIZE;
    if reach < off + n {
      assert (reach + BSIZE - 1) / BSIZE == bn + 1 == (off + n + BSIZE - 1) / BSIZE;
    }
  }

  /** Growing to off and then by n is growing to off + n. */
  lemma GrowthSteps(size: nat, off: nat, n: nat)
    ensures Growth(size, off + n) == Growth(size, off) + Growth(Max(size, off), off + n)
    ensures off <= size ==> Growth(size, off) == 0
  {
    hide BlocksOf;
    assert Max(Max(size, off), off + n) == Max(size, off + n);
  }

  lemma GrowthPart(size: nat, off: nat, n: nat, end: nat)
    requires off + n <= end
    ensures Growth(size, off + n) == Growth(size, off) + Growth(Max(size, off), off + n)
    ensures Growth(size, off + n) <= Growth(size, end)
  {
    hide Growth, Max;
    GrowthSteps(size, off, n);
    GrowthSteps(size, off + n, end - off - n);
  }

  // ---------------------------------------------------------------- free blocks

  /** The blocks that the bitmap shows as free. */
  ghost function FreeBlocks(g: Geo, disk: seq<Block>): (n: nat)
    requires GoodGeo(g) && |disk| == g.size
  {
    |set c: nat | c < g.size && !Used(g, disk, c)|
  }

  /** Every block is metadata, owned or free. */
  lemma FreeIs(g: Geo, fs: Fs, owner: map<nat, Owner>)
    requires Owned(g, fs, owner)
    ensures FreeBlocks(g, fs.disk) == g.size - g.nmeta - |owner|
    ensures FreeBlocks(g, fs.disk) == 0 <==> forall c: nat :: c < g.size ==> Used(g, fs.disk, c)
  {
    hide Used, Ref;
    var free := set c: nat | c < g.size && !Used(g, fs.disk, c);
    assert Numbers(g.nmeta, g.size) == free + owner.Keys;
    assert |free + owner.Keys| == |free| + |owner.Keys|;
    assert |owner| == |owner.Keys|;
    if c: nat :| c < g.size && !Used(g, fs.disk, c) {
      assert c in free;
    }
  }

  // ---------------------------------------------------------------- every block accounted for

  /** A file without holes fills its slots in order, the indirect block's among them. */
  lemma SlotsFilled(g: Geo, fs: Fs, i: nat, s: nat)
    requires Shape(g, fs) && i < |fs.inodes| && Sized(g, fs, i) && s < SLOTS
    ensures Ref(g, fs, i, s) != 0 <==> s < BlocksOf(fs.inodes[i].size)
  {
    hide Ref;
    var size := fs.inodes[i].size;
    if s != NDIRECT {
      var bn := if s < NDIRECT then s else s - 1;
      assert SlotOf(bn) == s;
      assert BlockOf(g, fs, i, bn) == Ref(g, fs, i, s);
      assert bn * BSIZE < size <==> bn < (size + BSIZE - 1) / BSIZE;
    }
  }

  ghost function OwnedBy(owner: map<nat, Owner>, i: nat, k: nat): (bs: set<nat>) {
    set b | b in owner && owner[b].inode == i && owner[b].slot < k
  }

  lemma {:induction false} OwnedCount(g: Geo, fs: Fs, owner: map<nat, Owner>, i: nat, k: nat)
    requires Owned(g, fs, owner) && i < |fs.inodes| && Sized(g, fs, i) && k <= SLOTS
    ensures |OwnedBy(owner, i, k)| == if k <= BlocksOf(fs.inodes[i].size) then k else BlocksOf(fs.inodes[i].size)
  {
    hide Ref, Sized, Used, BlocksOf, Shape;
    if k == 0 {
      assert OwnedBy(owner, i, 0) == {};
    } else {
      OwnedCount(g, fs, owner, i, k - 1);
      SlotsFilled(g, fs, i, k - 1);
      OneSlot(g, fs, owner, i, k - 1);
    }
  }

  lemma OneSlot(g: Geo, fs: Fs, owner: map<nat, Owner>, i: nat, s: nat)
    requires Owned(g, fs, owner) && i < |fs.inodes| && s < SLOTS
    ensures Ref(g, fs, i, s) == 0 ==> OwnedBy(owner, i, s + 1) == OwnedBy(owner, i, s)
    ensures Ref(g, fs, i, s) != 0 ==> OwnedBy(owner, i, s + 1) == OwnedBy(owner, i, s) + {Ref(g, fs, i, s)} && Ref(g, fs, i, s) !in OwnedBy(owner, i, s)
  {
    hide Ref, Used;
    forall b | b in OwnedBy(owner, i, s + 1) && b !in OwnedBy(owner, i, s) ensures b == Ref(g, fs, i, s) && b != 0 {
      assert owner[b].slot == s;
    }
  }

  /** The blocks that files of these sizes take. */
  function InFiles(inodes: seq<Inode>): (n: nat) {
    if inodes == [] then 0 else InFiles(inodes[..|inodes| - 1]) + BlocksOf(inodes[|inodes| - 1].size)
  }

  ghost function OwnedUpTo(owner: map<nat, Owner>, k: nat): (bs: set<nat>) {
    set b | b in owner && owner[b].inode < k
  }

  lemma {:induction false} OwnedUpToCount(g: Geo, fs: Fs, owner: map<nat, Owner>, k: nat)
    requires Owned(g, fs, owner) && AllSized(g, fs) && k <= |fs.inodes|
    ensures |OwnedUpTo(owner, k)| == InFiles(fs.inodes[..k])
  {
    hide Ref, Sized, Used, BlocksOf;
    if k == 0 {
      assert OwnedUpTo(owner, 0) == {};
    } else {
      OwnedUpToCount(g, fs, owner, k - 1);
      OwnedCount(g, fs, owner, k - 1, SLOTS);
      SizeFits(g, fs, k - 1);
      assert fs.inodes[..k][..k - 1] == fs.inodes[..k - 1];
      assert OwnedUpTo(owner, k) == OwnedUpTo(owner, k - 1) + OwnedBy(owner, k - 1, SLOTS);
    }
  }

  lemma SizeFits(g: Geo, fs: Fs, i: nat)
    requires Shape(g, fs) && i < |fs.inodes| && Sized(g, fs, i)
    ensures BlocksOf(fs.inodes[i].size) <= SLOTS
  {
    MoreBlocks(fs.inodes[i].size, MAXFILE * BSIZE);
  }

  /** No block is lost: in every sound file system the free blocks and those that the sizes of the
      files call for are together all blocks behind the metadata. */
  lemma FreePlusFiles(g: Geo, fs: Fs, owner: map<nat, Owner>)
    requires Owned(g, fs, owner) && AllSized(g, fs)
    ensures FreeBlocks(g, fs.disk) + InFiles(fs.inodes) == g.size - g.nmeta
  {
    hide Ref, Used, Sized, FreeBlocks, BlocksOf;
    FreeIs(g, fs, owner);
    OwnedUpToCount(g, fs, owner, |fs.inodes|);
    assert fs.inodes[..|fs.inodes|] == fs.inodes;
    assert OwnedUpTo(owner, |fs.inodes|) == owner.Keys;
    assert |owner| == |owner.Keys|;
  }
}
