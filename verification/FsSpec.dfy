/** The file layer as a value: disk blocks (bitmap, indirect and data blocks), inodes, who owns
    which block, and the bytes of each file. */
module FsSpec {
  import opened Blocks
  import opened Common
  import opened Bitmap

  const NDIRECT: nat := 12
  const NINDIRECT: nat := WORDS
  const MAXFILE: nat := NDIRECT + NINDIRECT
  /** Places in an inode that can hold a block number: the direct ones, the indirect block, and
      the entries of the indirect block. */
  const SLOTS: nat := NDIRECT + 1 + NINDIRECT
  const IPB: nat := 8

  /** Block counts and positions from the superblock; the first nmeta blocks are metadata. */
  datatype Geo = Geo(size: nat, nmeta: nat, bmapstart: nat, inodestart: nat)

  datatype Inode = Inode(kind: int, major: int, minor: int, nlink: int, size: nat, addrs: seq<Uint>)

  datatype Fs = Fs(disk: seq<Block>, inodes: seq<Inode>)

  /** What sets one file apart from another besides its bytes. */
  predicate SameFields(a: Inode, b: Inode) {
    b.kind == a.kind && b.major == a.major && b.minor == a.minor && b.nlink == a.nlink
  }

  predicate GoodGeo(g: Geo) {
    0 < g.nmeta <= g.size <= UINT && g.bmapstart + (g.size - 1) / BPB < g.nmeta
  }

  predicate Shape(g: Geo, fs: Fs) {
    GoodGeo(g) && |fs.disk| == g.size && forall i :: 0 <= i < |fs.inodes| ==> |fs.inodes[i].addrs| == NDIRECT + 1
  }

  function BBlock(g: Geo, b: nat): (r: nat) { b / BPB + g.bmapstart }

  function IBlock(g: Geo, i: nat): (r: nat) { i / IPB + g.inodestart }

  /** The bitmap says that block b is in use. */
  predicate Used(g: Geo, disk: seq<Block>, b: nat)
    requires GoodGeo(g) && |disk| == g.size && b < g.size
  {
    Bit(disk[BBlock(g, b)], b % BPB)
  }

  /** The block number in slot s of inode i, 0 when there is none. */
  function Ref(g: Geo, fs: Fs, i: nat, s: nat): (b: nat)
    requires Shape(g, fs) && i < |fs.inodes| && s < SLOTS
  {
    if s <= NDIRECT then fs.inodes[i].addrs[s]
    else if 0 < fs.inodes[i].addrs[NDIRECT] < g.size then Word(fs.disk[fs.inodes[i].addrs[NDIRECT]], s - NDIRECT - 1)
    else 0
  }

  function SlotOf(bn: nat): (s: nat)
    requires bn < MAXFILE
  {
    if bn < NDIRECT then bn else bn + 1
  }

  function BlockOf(g: Geo, fs: Fs, i: nat, bn: nat): (b: nat)
    requires Shape(g, fs) && i < |fs.inodes| && bn < MAXFILE
  {
    Ref(g, fs, i, SlotOf(bn))
  }

  // ---------------------------------------------------------------- ownership

  datatype Owner = Owner(inode: nat, slot: nat)

  /** Every block is exactly one of metadata, free in the bitmap, or owned by one slot of one
      inode; owner names that slot. */
  ghost predicate Owned(g: Geo, fs: Fs, owner: map<nat, Owner>) {
    Shape(g, fs) && OwnedSlots(g, fs, owner)
  }

  ghost predicate OwnedSlots(g: Geo, fs: Fs, owner: map<nat, Owner>)
    requires Shape(g, fs)
  {
    && (forall i: nat, s: nat :: i < |fs.inodes| && s < SLOTS && Ref(g, fs, i, s) != 0 ==>
          Ref(g, fs, i, s) in owner && owner[Ref(g, fs, i, s)] == Owner(i, s))
    && (forall b :: b in owner ==>
          && g.nmeta <= b < g.size && owner[b].inode < |fs.inodes| && owner[b].slot < SLOTS
          && Ref(g, fs, owner[b].inode, owner[b].slot) == b)
    && (forall b: nat :: b < g.size ==> (Used(g, fs.disk, b) <==> b < g.nmeta || b in owner))
  }

  /** What balloc does to the disk: mark the block, then zero it. */
  function Allocated(g: Geo, disk: seq<Block>, b: nat): (r: seq<Block>)
    requires GoodGeo(g) && |disk| == g.size && g.nmeta <= b < g.size
    ensures |r| == g.size
  {
    disk[BBlock(g, b) := SetBit(disk[BBlock(g, b)], b % BPB, true)][b := ZeroBlock()]
  }

  function WithAddr(ip: Inode, s: nat, b: Uint): (r: Inode)
    requires s < |ip.addrs|
    ensures |r.addrs| == |ip.addrs|
  {
    Inode(ip.kind, ip.major, ip.minor, ip.nlink, ip.size, ip.addrs[s := b])
  }

  /** Entry k of an indirect block replaced. */
  function WithEntry(g: Geo, disk: seq<Block>, ind: nat, k: nat, b: Uint): (r: seq<Block>)
    requires k < NINDIRECT && |disk| == g.size
    ensures |r| == g.size
  {
    if 0 < ind < g.size then disk[ind := SetWord(disk[ind], k, b)] else disk
  }

  /** Record block b in slot s of inode i. */
  function Linked(g: Geo, fs: Fs, i: nat, s: nat, b: Uint): (r: Fs)
    requires Shape(g, fs) && i < |fs.inodes| && s < SLOTS
    ensures Shape(g, r) && |r.inodes| == |fs.inodes|
  {
    if s <= NDIRECT then Fs(fs.disk, fs.inodes[i := WithAddr(fs.inodes[i], s, b)])
    else Fs(WithEntry(g, fs.disk, fs.inodes[i].addrs[NDIRECT], s - NDIRECT - 1, b), fs.inodes)
  }

  lemma AllocatedUsed(g: Geo, disk: seq<Block>, b: nat, c: nat)
    requires GoodGeo(g) && |disk| == g.size && g.nmeta <= b < g.size && c < g.size
    ensures Used(g, Allocated(g, disk, b), c) <==> c == b || Used(g, disk, c)
  {
    SetBitBits(disk[BBlock(g, b)], b % BPB, true);
    hide Bit, SetBit;
    var m := BBlock(g, b);
    assert m < g.nmeta && BBlock(g, c) < g.nmeta;
    assert b / BPB == c / BPB && b % BPB == c % BPB ==> b == c;
  }

  /** Taking a free block disturbs no reference. */
  lemma AllocatedRefs(g: Geo, fs: Fs, owner: map<nat, Owner>, b: nat, i: nat, s: nat)
    requires Owned(g, fs, owner) && g.nmeta <= b < g.size && b !in owner
    requires i < |fs.inodes| && s < SLOTS
    ensures Ref(g, Fs(Allocated(g, fs.disk, b), fs.inodes), i, s) == Ref(g, fs, i, s)
  {
    hide OwnedSlots, Bit, SetBit, Word;
    IndirectOwned(g, fs, owner, i);
    assert BBlock(g, b) < g.nmeta;
  }

  lemma IndirectOwned(g: Geo, fs: Fs, owner: map<nat, Owner>, i: nat)
    requires Owned(g, fs, owner) && i < |fs.inodes|
    ensures Ref(g, fs, i, NDIRECT) != 0 ==> Ref(g, fs, i, NDIRECT) in owner && g.nmeta <= Ref(g, fs, i, NDIRECT) < g.size
  {}

  /** A block number recorded in one slot shows in that slot and in no other. */
  lemma LinkedRefs(g: Geo, fs: Fs, i: nat, s: nat, b: Uint, i': nat, s': nat)
    requires Shape(g, fs) && i < |fs.inodes| && s < SLOTS && i' < |fs.inodes| && s' < SLOTS
    requires s > NDIRECT ==> 0 < fs.inodes[i].addrs[NDIRECT] < g.size
    requires s > NDIRECT && i' != i ==> fs.inodes[i'].addrs[NDIRECT] != fs.inodes[i].addrs[NDIRECT]
    requires s == NDIRECT ==> fs.inodes[i].addrs[NDIRECT] == 0 < b < g.size && fs.disk[b] == ZeroBlock()
    ensures Ref(g, Linked(g, fs, i, s, b), i', s') == if i' == i && s' == s then b else Ref(g, fs, i', s')
  {
    ZeroWords();
    hide Word, SetWord;
  }

  /** Two inodes never share an indirect block. */
  lemma IndirectDistinct(g: Geo, fs: Fs, owner: map<nat, Owner>, i: nat, i': nat)
    requires Owned(g, fs, owner) && i < |fs.inodes| && i' < |fs.inodes| && i != i'
    ensures Ref(g, fs, i, NDIRECT) == Ref(g, fs, i', NDIRECT) ==> Ref(g, fs, i, NDIRECT) == 0
  {}

  /** Recording a reference changes no bitmap bit. */
  lemma LinkedUsed(g: Geo, fs: Fs, i: nat, s: nat, b: Uint, c: nat)
    requires Shape(g, fs) && i < |fs.inodes| && s < SLOTS && c < g.size
    requires s > NDIRECT ==> fs.inodes[i].addrs[NDIRECT] >= g.nmeta
    ensures Used(g, Linked(g, fs, i, s, b).disk, c) <==> Used(g, fs.disk, c)
  {
    hide Bit, SetWord;
    assert BBlock(g, c) < g.nmeta;
  }

  /** A free block allocated into a slot. */
  function Taken(g: Geo, fs: Fs, b: nat, i: nat, s: nat): (r: Fs)
    requires Shape(g, fs) && g.nmeta <= b < g.size && i < |fs.inodes| && s < SLOTS
    ensures Shape(g, r) && |r.inodes| == |fs.inodes|
  {
    Linked(g, Fs(Allocated(g, fs.disk, b), fs.inodes), i, s, b)
  }

  lemma TakenRefs(g: Geo, fs: Fs, owner: map<nat, Owner>, b: nat, i: nat, s: nat, i': nat, s': nat)
    requires Owned(g, fs, owner) && g.nmeta <= b < g.size && b !in owner
    requires i < |fs.inodes| && s < SLOTS && Ref(g, fs, i, s) == 0 && i' < |fs.inodes| && s' < SLOTS
    requires s > NDIRECT ==> Ref(g, fs, i, NDIRECT) != 0
    ensures Ref(g, Taken(g, fs, b, i, s), i', s') == if i' == i && s' == s then b else Ref(g, fs, i', s')
  {
    var f1 := Fs(Allocated(g, fs.disk, b), fs.inodes);
    AllocatedRefs(g, fs, owner, b, i', s');
    AllocatedRefs(g, fs, owner, b, i, NDIRECT);
    if i' != i {
      IndirectDistinct(g, fs, owner, i, i');
    }
    assert Ref(g, fs, i, NDIRECT) != 0 ==> Ref(g, fs, i, NDIRECT) in owner;
    LinkedRefs(g, f1, i, s, b, i', s');
  }

  lemma TakenUsed(g: Geo, fs: Fs, owner: map<nat, Owner>, b: nat, i: nat, s: nat, c: nat)
    requires Owned(g, fs, owner) && g.nmeta <= b < g.size && i < |fs.inodes| && s < SLOTS && c < g.size
    requires s > NDIRECT ==> Ref(g, fs, i, NDIRECT) != 0
    ensures Used(g, Taken(g, fs, b, i, s).disk, c) <==> c == b || Used(g, fs.disk, c)
  {
    AllocatedUsed(g, fs.disk, b, c);
    assert s > NDIRECT ==> Ref(g, fs, i, NDIRECT) in owner;
    LinkedUsed(g, Fs(Allocated(g, fs.disk, b), fs.inodes), i, s, b, c);
  }

  /** Allocating a free block into an empty slot: the block is owned by that slot, every other
      reference and every other block's state is as before. */
  lemma TakenKeeps(g: Geo, fs: Fs, owner: map<nat, Owner>, b: nat, i: nat, s: nat)
    requires Owned(g, fs, owner) && b < g.size && !Used(g, fs.disk, b)
    requires i < |fs.inodes| && s < SLOTS && Ref(g, fs, i, s) == 0
    requires s > NDIRECT ==> Ref(g, fs, i, NDIRECT) != 0
    ensures g.nmeta <= b && b !in owner
    ensures Owned(g, Taken(g, fs, b, i, s), owner[b := Owner(i, s)])
    ensures Extends(g, fs, owner, Taken(g, fs, b, i, s), i)
  {
    hide Ref, Used, Taken;
    var r := Taken(g, fs, b, i, s);
    TakenDisk(g, fs, owner, b, i, s);
    forall i': nat, s': nat | i' < |fs.inodes| && s' < SLOTS
      ensures Ref(g, r, i', s') == if i' == i && s' == s then b else Ref(g, fs, i', s')
    {
      TakenRefs(g, fs, owner, b, i, s, i', s');
    }
    forall c: nat | c < g.size ensures Used(g, r.disk, c) <==> c == b || Used(g, fs.disk, c) {
      TakenUsed(g, fs, owner, b, i, s, c);
    }
  }

  /** Everything inode i had stays in place, other inodes are untouched, and no data block
      changes: what bmap may do while it makes room for one more block. */
  ghost predicate Extends(g: Geo, fs: Fs, owner: map<nat, Owner>, r: Fs, i: nat)
    requires Shape(g, fs) && Shape(g, r)
  {
    && |r.inodes| == |fs.inodes|
    && (forall j :: 0 <= j < |fs.inodes| ==>
          (j != i ==> r.inodes[j] == fs.inodes[j]) &&
          r.inodes[j] == Inode(fs.inodes[j].kind, fs.inodes[j].major, fs.inodes[j].minor,
                               fs.inodes[j].nlink, fs.inodes[j].size, r.inodes[j].addrs))
    && (forall j: nat, s: nat :: j < |fs.inodes| && s < SLOTS && (j != i || Ref(g, fs, j, s) != 0) ==> Ref(g, r, j, s) == Ref(g, fs, j, s))
    && (forall c :: c in owner && c < g.size && owner[c].slot != NDIRECT ==> r.disk[c] == fs.disk[c])
  }

  /** The indirect block of inode i, if it has one. */
  function Indirect(g: Geo, fs: Fs, i: nat): (bs: set<nat>)
    requires Shape(g, fs) && i < |fs.inodes|
  {
    if Ref(g, fs, i, NDIRECT) == 0 then {} else {Ref(g, fs, i, NDIRECT)}
  }

  /** What bmap promises about block bn of inode i: it is at addr now, nothing that was there has
      moved, and besides addr and the indirect block only bitmap blocks were dirtied, one for
      each block allocated. */
  ghost predicate Mapped(g: Geo, fs: Fs, owner: map<nat, Owner>, dirty: set<nat>, r: Fs, dirty': set<nat>,
                         i: nat, bn: nat, addr: nat, maps: set<nat>)
    requires Shape(g, fs) && Shape(g, r) && |r.inodes| == |fs.inodes| && i < |fs.inodes| && bn < MAXFILE
  {
    && Extends(g, fs, owner, r, i)
    && addr == BlockOf(g, r, i, bn) && addr != 0
    && (forall s: nat :: s < SLOTS && s != SlotOf(bn) && (s != NDIRECT || bn < NDIRECT) ==> Ref(g, r, i, s) == Ref(g, fs, i, s))
    && (bn >= NDIRECT ==> Ref(g, r, i, NDIRECT) != 0)
    && dirty' <= dirty + maps + {addr} + Indirect(g, r, i)
    && |maps| <= (if BlockOf(g, fs, i, bn) == 0 then 1 else 0) +
                 (if bn >= NDIRECT && Ref(g, fs, i, NDIRECT) == 0 then 1 else 0)
  }

  /** The same promise for one slot, where the indirect block is slot NDIRECT. */
  ghost predicate Placed(g: Geo, fs: Fs, owner: map<nat, Owner>, dirty: set<nat>, r: Fs, owner': map<nat, Owner>, dirty': set<nat>,
                         i: nat, s: nat, addr: nat, maps: set<nat>)
    requires Shape(g, fs) && Shape(g, r) && |r.inodes| == |fs.inodes| && i < |fs.inodes| && s < SLOTS
  {
    && Extends(g, fs, owner, r, i) && (forall c :: c in owner ==> c in owner' && owner'[c] == owner[c])
    && addr == Ref(g, r, i, s) && addr != 0
    && (forall s': nat :: s' < SLOTS && s' != s ==> Ref(g, r, i, s') == Ref(g, fs, i, s'))
    && dirty' <= dirty + maps + {addr} + Indirect(g, r, i)
    && |maps| <= (if Ref(g, fs, i, s) == 0 then 1 else 0)
  }

  lemma PlacedOthers(g: Geo, fs: Fs, owner: map<nat, Owner>, dirty: set<nat>, r: Fs, owner': map<nat, Owner>, dirty': set<nat>,
                     i: nat, s: nat, addr: nat, maps: set<nat>, s': nat)
    requires Shape(g, fs) && Shape(g, r) && |r.inodes| == |fs.inodes| && i < |fs.inodes| && s < SLOTS && s' < SLOTS && s' != s
    requires Placed(g, fs, owner, dirty, r, owner', dirty', i, s, addr, maps)
    ensures Ref(g, r, i, s') == Ref(g, fs, i, s')
  {
    hide Ref, Extends;
  }

  lemma PlacedDirect(g: Geo, fs: Fs, owner: map<nat, Owner>, dirty: set<nat>, r: Fs, owner': map<nat, Owner>, dirty': set<nat>,
                     i: nat, bn: nat, addr: nat, maps: set<nat>)
    requires Shape(g, fs) && Shape(g, r) && |r.inodes| == |fs.inodes| && i < |fs.inodes| && bn < NDIRECT
    requires Placed(g, fs, owner, dirty, r, owner', dirty', i, bn, addr, maps)
    ensures Mapped(g, fs, owner, dirty, r, dirty', i, bn, addr, maps)
  {
    hide Ref, Extends;
  }

  lemma PlacedIndirect(g: Geo, fs: Fs, owner: map<nat, Owner>, dirty: set<nat>,
                       f1: Fs, owner1: map<nat, Owner>, dirty1: set<nat>, ind: nat, maps: set<nat>,
                       r: Fs, owner2: map<nat, Owner>, dirty2: set<nat>, addr: nat, more: set<nat>, i: nat, bn: nat)
    requires Shape(g, fs) && Shape(g, f1) && Shape(g, r) && |r.inodes| == |f1.inodes| == |fs.inodes| && i < |fs.inodes|
    requires NDIRECT <= bn < MAXFILE
    requires Placed(g, fs, owner, dirty, f1, owner1, dirty1, i, NDIRECT, ind, maps)
    requires Placed(g, f1, owner1, dirty1, r, owner2, dirty2, i, bn + 1, addr, more)
    ensures Mapped(g, fs, owner, dirty, r, dirty2, i, bn, addr, maps + more)
  {
    ExtendsTrans(g, fs, owner, f1, owner1, r, i);
    hide Ref, Extends;
    assert |maps + more| <= |maps| + |more|;
  }

  lemma ExtendsTrans(g: Geo, fs: Fs, owner: map<nat, Owner>, f1: Fs, owner1: map<nat, Owner>, f2: Fs, i: nat)
    requires Shape(g, fs) && Shape(g, f1) && Shape(g, f2)
    requires Extends(g, fs, owner, f1, i) && Extends(g, f1, owner1, f2, i)
    requires forall c :: c in owner ==> c in owner1 && owner1[c] == owner[c]
    ensures Extends(g, fs, owner, f2, i)
  {
    hide Ref;
  }

  lemma TakenDisk(g: Geo, fs: Fs, owner: map<nat, Owner>, b: nat, i: nat, s: nat)
    requires Owned(g, fs, owner) && g.nmeta <= b < g.size && b !in owner
    requires i < |fs.inodes| && s < SLOTS
    ensures forall c :: c in owner && owner[c].slot != NDIRECT ==> Taken(g, fs, b, i, s).disk[c] == fs.disk[c]
    ensures forall j :: 0 <= j < |fs.inodes| ==>
      (j != i ==> Taken(g, fs, b, i, s).inodes[j] == fs.inodes[j]) &&
      Taken(g, fs, b, i, s).inodes[j] == Inode(fs.inodes[j].kind, fs.inodes[j].major, fs.inodes[j].minor,
        fs.inodes[j].nlink, fs.inodes[j].size, Taken(g, fs, b, i, s).inodes[j].addrs)
  {
    hide OwnedSlots, SetBit, SetWord, Word;
    DataBlocks(g, fs, owner, i);
    assert BBlock(g, b) < g.nmeta;
  }

  lemma DataBlocks(g: Geo, fs: Fs, owner: map<nat, Owner>, i: nat)
    requires Owned(g, fs, owner) && i < |fs.inodes|
    ensures forall c :: c in owner ==> g.nmeta <= c < g.size && (owner[c].slot != NDIRECT ==> c != fs.inodes[i].addrs[NDIRECT])
  {
    var ind := Ref(g, fs, i, NDIRECT);
    assert ind != 0 ==> ind in owner && owner[ind].slot == NDIRECT;
    hide Ref, Used;
  }

  // ---------------------------------------------------------------- file contents

  /** Files have no holes: exactly the blocks below the size are present, and the indirect block
      exactly when one of them needs it. */
  ghost predicate Sized(g: Geo, fs: Fs, i: nat)
    requires Shape(g, fs) && i < |fs.inodes|
  {
    && fs.inodes[i].size <= MAXFILE * BSIZE
    && (forall bn: nat :: bn < MAXFILE ==> (BlockOf(g, fs, i, bn) != 0 <==> bn * BSIZE < fs.inodes[i].size))
    && (Ref(g, fs, i, NDIRECT) != 0 <==> NDIRECT * BSIZE < fs.inodes[i].size)
  }

  /** Byte k of a file. */
  ghost function ByteAt(g: Geo, fs: Fs, i: nat, k: nat): (x: Byte)
    requires Shape(g, fs) && i < |fs.inodes| && k < MAXFILE * BSIZE
  {
    if BlockOf(g, fs, i, k / BSIZE) < g.size then fs.disk[BlockOf(g, fs, i, k / BSIZE)][k % BSIZE] else 0
  }

  ghost function Content(g: Geo, fs: Fs, i: nat): (s: seq<Byte>)
    requires Shape(g, fs) && i < |fs.inodes|
    ensures |s| == fs.inodes[i].size
  {
    seq(fs.inodes[i].size, k requires 0 <= k < fs.inodes[i].size => if k < MAXFILE * BSIZE then ByteAt(g, fs, i, k) else 0)
  }

  /** Making room keeps every byte that was there. */
  lemma ExtendsBytes(g: Geo, fs: Fs, owner: map<nat, Owner>, r: Fs, i: nat, j: nat, k: nat)
    requires Owned(g, fs, owner) && Shape(g, r) && Extends(g, fs, owner, r, i)
    requires j < |fs.inodes| && k < MAXFILE * BSIZE && BlockOf(g, fs, j, k / BSIZE) != 0
    ensures ByteAt(g, r, j, k) == ByteAt(g, fs, j, k)
  {
    var s := SlotOf(k / BSIZE);
    assert Ref(g, fs, j, s) in owner && Ref(g, r, j, s) == Ref(g, fs, j, s);
  }

  lemma OverwriteRef(g: Geo, fs: Fs, owner: map<nat, Owner>, i: nat, bn: nat, data: Block, j: nat, s: nat)
    requires Owned(g, fs, owner) && i < |fs.inodes| && bn < MAXFILE && BlockOf(g, fs, i, bn) != 0
    requires j < |fs.inodes| && s < SLOTS
    ensures g.nmeta <= BlockOf(g, fs, i, bn) < g.size
    ensures Ref(g, Fs(fs.disk[BlockOf(g, fs, i, bn) := data], fs.inodes), j, s) == Ref(g, fs, j, s)
  {
    var b := BlockOf(g, fs, i, bn);
    assert b in owner && owner[b] == Owner(i, SlotOf(bn));
    assert Ref(g, fs, j, NDIRECT) != b;
    hide OwnedSlots, Word;
  }

  lemma OverwriteUsed(g: Geo, disk: seq<Block>, b: nat, data: Block, c: nat)
    requires GoodGeo(g) && |disk| == g.size && g.nmeta <= b < g.size && c < g.size
    ensures Used(g, disk[b := data], c) <==> Used(g, disk, c)
  {
    assert BBlock(g, c) < g.nmeta;
  }

  /** Overwriting one data block of inode i. */
  lemma OverwriteKeeps(g: Geo, fs: Fs, owner: map<nat, Owner>, i: nat, bn: nat, data: Block)
    requires Owned(g, fs, owner) && i < |fs.inodes| && bn < MAXFILE && BlockOf(g, fs, i, bn) != 0
    ensures g.nmeta <= BlockOf(g, fs, i, bn) < g.size
    ensures var r := Fs(fs.disk[BlockOf(g, fs, i, bn) := data], fs.inodes);
      && Owned(g, r, owner)
      && (forall j: nat, s: nat :: j < |fs.inodes| && s < SLOTS ==> Ref(g, r, j, s) == Ref(g, fs, j, s))
  {
    var b := BlockOf(g, fs, i, bn);
    assert b in owner;
    var r := Fs(fs.disk[b := data], fs.inodes);
    assert Shape(g, r);
    forall j: nat, s: nat | j < |fs.inodes| && s < SLOTS ensures Ref(g, r, j, s) == Ref(g, fs, j, s) {
      OverwriteRef(g, fs, owner, i, bn, data, j, s);
    }
    forall c: nat | c < g.size ensures Used(g, r.disk, c) <==> Used(g, fs.disk, c) {
      OverwriteUsed(g, fs.disk, b, data, c);
    }
    hide Ref, Used, BlockOf;
  }

  lemma OverwriteBytes(g: Geo, fs: Fs, owner: map<nat, Owner>, i: nat, bn: nat, data: Block, j: nat, k: nat)
    requires Owned(g, fs, owner) && i < |fs.inodes| && bn < MAXFILE && BlockOf(g, fs, i, bn) != 0
    requires j < |fs.inodes| && k < MAXFILE * BSIZE && BlockOf(g, fs, j, k / BSIZE) != 0
    ensures g.nmeta <= BlockOf(g, fs, i, bn) < g.size
    ensures ByteAt(g, Fs(fs.disk[BlockOf(g, fs, i, bn) := data], fs.inodes), j, k) ==
      if j == i && k / BSIZE == bn then data[k % BSIZE] else ByteAt(g, fs, j, k)
  {
    OverwriteKeeps(g, fs, owner, i, bn, data);
    assert owner[BlockOf(g, fs, i, bn)] == Owner(i, SlotOf(bn));
    assert owner[BlockOf(g, fs, j, k / BSIZE)] == Owner(j, SlotOf(k / BSIZE));
  }

  /** Allocating into an empty slot keeps the promise. */
  lemma TakenPlaced(g: Geo, fs: Fs, owner: map<nat, Owner>, dirty: set<nat>, b: nat, i: nat, s: nat)
    requires Owned(g, fs, owner) && b < g.size && !Used(g, fs.disk, b)
    requires i < |fs.inodes| && s < SLOTS && Ref(g, fs, i, s) == 0
    requires s > NDIRECT ==> Ref(g, fs, i, NDIRECT) != 0
    ensures g.nmeta <= b && b !in owner && Owned(g, Taken(g, fs, b, i, s), owner[b := Owner(i, s)])
    ensures Placed(g, fs, owner, dirty, Taken(g, fs, b, i, s), owner[b := Owner(i, s)],
      dirty + {BBlock(g, b), b} + (if s > NDIRECT then Indirect(g, Taken(g, fs, b, i, s), i) else {}), i, s, b, {BBlock(g, b)})
  {
    TakenKeeps(g, fs, owner, b, i, s);
    forall s': nat | s' < SLOTS ensures Ref(g, Taken(g, fs, b, i, s), i, s') == if s' == s then b else Ref(g, fs, i, s') {
      TakenRefs(g, fs, owner, b, i, s, i, s');
    }
    hide Ref, Extends, OwnedSlots, Taken;
  }

  lemma NothingPlaced(g: Geo, fs: Fs, owner: map<nat, Owner>, dirty: set<nat>, i: nat, s: nat)
    requires Shape(g, fs) && i < |fs.inodes| && s < SLOTS && Ref(g, fs, i, s) != 0
    ensures Placed(g, fs, owner, dirty, fs, owner, dirty, i, s, Ref(g, fs, i, s), {})
  {}

  // ---------------------------------------------------------------- a sound file system

  /** An inode that owns nothing. */
  predicate Vacant(ip: Inode) { ip.size == 0 && ip.addrs == seq(NDIRECT + 1, s => 0) }

  /** Ownership, no holes, and nothing left in free inodes. */
  ghost predicate Whole(g: Geo, fs: Fs, owner: map<nat, Owner>) {
    Owned(g, fs, owner) && AllSized(g, fs) && FreesVacant(fs)
  }

  ghost predicate AllSized(g: Geo, fs: Fs)
    requires Shape(g, fs)
  {
    forall i: nat :: i < |fs.inodes| ==> Sized(g, fs, i)
  }

  ghost predicate FreesVacant(fs: Fs) { forall i: nat :: i < |fs.inodes| && fs.inodes[i].kind == 0 ==> Vacant(fs.inodes[i]) }
}
