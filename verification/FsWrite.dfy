/** What the loop of writei keeps: how far the file reaches, which bytes it holds, and how many
    blocks have been dirtied. */
module FsWrite {
  import opened Blocks
  import opened Common
  import opened FsSpec
  import LogSpec

  /** A block with part of it replaced. */
  function Patched(b: Block, at: nat, bytes: seq<Byte>): (r: Block)
    requires at + |bytes| <= BSIZE
    ensures forall k :: 0 <= k < BSIZE ==> r[k] == if at <= k < at + |bytes| then bytes[k - at] else b[k]
  {
    b[..at] + bytes + b[at + |bytes|..]
  }

  function Max(a: nat, b: nat): (m: nat) { if a < b then b else a }

  /** The file's reach: blocks exist exactly below it. */
  ghost predicate Reaches(g: Geo, fs: Fs, i: nat, reach: nat)
    requires Shape(g, fs) && i < |fs.inodes|
  {
    && reach <= MAXFILE * BSIZE
    && (forall bn: nat :: bn < MAXFILE ==> (BlockOf(g, fs, i, bn) != 0 <==> bn * BSIZE < reach))
    && (Ref(g, fs, i, NDIRECT) != 0 <==> NDIRECT * BSIZE < reach)
  }

  /** Inodes other than i are exactly as they were, in blocks and bytes. */
  ghost predicate OthersKept(g: Geo, fs0: Fs, fs: Fs, i: nat)
    requires Shape(g, fs0) && Shape(g, fs)
  {
    && |fs.inodes| == |fs0.inodes|
    && forall j: nat :: j < |fs0.inodes| && j != i ==>
         && fs.inodes[j] == fs0.inodes[j]
         && (forall s: nat :: s < SLOTS ==> Ref(g, fs, j, s) == Ref(g, fs0, j, s))
         && (forall k: nat :: k < MAXFILE * BSIZE && BlockOf(g, fs0, j, k / BSIZE) != 0 ==> ByteAt(g, fs, j, k) == ByteAt(g, fs0, j, k))
  }

  /** After writing src[..off - off0] at off0: the bytes in that range are new, the rest old. */
  ghost predicate Bytes(g: Geo, fs0: Fs, fs: Fs, i: nat, off0: nat, src: seq<Byte>, off: nat)
    requires Shape(g, fs0) && Shape(g, fs) && i < |fs0.inodes| && i < |fs.inodes| && off0 <= off <= off0 + |src|
  {
    forall k: nat :: k < Max(fs0.inodes[i].size, off) && k < MAXFILE * BSIZE ==>
      ByteAt(g, fs, i, k) == if off0 <= k < off then src[k - off0] else ByteAt(g, fs0, i, k)
  }

  ghost predicate SameButAddrs(a: Inode, b: Inode) {
    b == Inode(a.kind, a.major, a.minor, a.nlink, a.size, b.addrs)
  }

  ghost predicate Writing(g: Geo, fs0: Fs, fs: Fs, owner: map<nat, Owner>, i: nat, off0: nat, src: seq<Byte>, off: nat) {
    && Shape(g, fs0) && Owned(g, fs, owner) && OthersKept(g, fs0, fs, i) && i < |fs0.inodes|
    && off0 <= off <= off0 + |src| && |fs.inodes| == |fs0.inodes|
    && SameButAddrs(fs0.inodes[i], fs.inodes[i])
    && Reaches(g, fs, i, Max(fs0.inodes[i].size, off))
    && Bytes(g, fs0, fs, i, off0, src, off)
    && (off <= fs0.inodes[i].size ==> fs.inodes == fs0.inodes)
  }

  // ---------------------------------------------------------------- one turn of the loop

  lemma StepReach(g: Geo, fs: Fs, owner: map<nat, Owner>, dirty: set<nat>, f1: Fs, dirty1: set<nat>,
                  i: nat, reach: nat, off: nat, m: nat, addr: nat, maps: set<nat>)
    requires Shape(g, fs) && Shape(g, f1) && |f1.inodes| == |fs.inodes| && i < |fs.inodes|
    requires Reaches(g, fs, i, reach) && off <= reach && 0 < m <= BSIZE - off % BSIZE && off + m <= MAXFILE * BSIZE
    requires off / BSIZE < MAXFILE && Mapped(g, fs, owner, dirty, f1, dirty1, i, off / BSIZE, addr, maps)
    ensures Reaches(g, f1, i, Max(reach, off + m))
  {
    var bn := off / BSIZE;
    hide Ref, Extends;
    forall c: nat | c < MAXFILE ensures BlockOf(g, f1, i, c) != 0 <==> c * BSIZE < Max(reach, off + m) {
      if c != bn {
        assert BlockOf(g, f1, i, c) == BlockOf(g, fs, i, c);
      }
    }
  }

  /** The state after one turn: the block is mapped, then patched with the next bytes. */
  ghost function Turned(f1: Fs, addr: nat, at: nat, bytes: seq<Byte>): (r: Fs)
    requires addr < |f1.disk| && at + |bytes| <= BSIZE
  {
    Fs(f1.disk[addr := Patched(f1.disk[addr], at, bytes)], f1.inodes)
  }

  /** The facts one turn starts from. */
  ghost predicate Turn(g: Geo, fs: Fs, owner: map<nat, Owner>, dirty: set<nat>, f1: Fs, owner1: map<nat, Owner>, dirty1: set<nat>,
                       i: nat, off: nat, m: nat, addr: nat, maps: set<nat>) {
    && Owned(g, fs, owner) && Owned(g, f1, owner1) && |f1.inodes| == |fs.inodes| && i < |fs.inodes|
    && 0 < m <= BSIZE - off % BSIZE && off + m <= MAXFILE * BSIZE && off / BSIZE < MAXFILE
    && Mapped(g, fs, owner, dirty, f1, dirty1, i, off / BSIZE, addr, maps)
  }

  /** One byte of any file across one turn. */
  lemma TurnByte(g: Geo, fs: Fs, owner: map<nat, Owner>, dirty: set<nat>, f1: Fs, owner1: map<nat, Owner>, dirty1: set<nat>,
                 i: nat, off: nat, bytes: seq<Byte>, addr: nat, maps: set<nat>, j: nat, k: nat)
    requires Turn(g, fs, owner, dirty, f1, owner1, dirty1, i, off, |bytes|, addr, maps)
    requires j < |fs.inodes| && k < MAXFILE * BSIZE
    requires BlockOf(g, fs, j, k / BSIZE) != 0 || (j == i && off <= k < off + |bytes|)
    ensures addr < g.size
    ensures Shape(g, Turned(f1, addr, off % BSIZE, bytes))
    ensures ByteAt(g, Turned(f1, addr, off % BSIZE, bytes), j, k) ==
      if j == i && off <= k < off + |bytes| then bytes[k - off] else ByteAt(g, fs, j, k)
  {
    hide Ref, OwnedSlots, Patched;
    var bn := off / BSIZE;
    SamePart(off, |bytes|, k);
    if BlockOf(g, fs, j, k / BSIZE) != 0 {
      ExtendsBytes(g, fs, owner, f1, i, j, k);
      ExtendsBlock(g, fs, owner, f1, i, j, k / BSIZE);
    } else {
      assert k / BSIZE == bn;
    }
    OverwriteKeeps(g, f1, owner1, i, bn, f1.disk[0]);
    OverwriteBytes(g, f1, owner1, i, bn, Patched(f1.disk[addr], off % BSIZE, bytes), j, k);
    assert j == i && k / BSIZE == bn ==> ByteAt(g, f1, j, k) == f1.disk[addr][k % BSIZE];
  }

  /** Positions in the part of one block that starts at off. */
  lemma SamePart(off: nat, n: nat, k: nat)
    requires 0 < n <= BSIZE - off % BSIZE
    ensures off <= k < off + n ==> k / BSIZE == off / BSIZE && k % BSIZE == off % BSIZE + (k - off)
    ensures k / BSIZE == off / BSIZE ==> (off <= k < off + n <==> off % BSIZE <= k % BSIZE < off % BSIZE + n)
  {}

  lemma ExtendsBlock(g: Geo, fs: Fs, owner: map<nat, Owner>, r: Fs, i: nat, j: nat, bn: nat)
    requires Shape(g, fs) && Shape(g, r) && Extends(g, fs, owner, r, i) && |r.inodes| == |fs.inodes|
    requires j < |fs.inodes| && bn < MAXFILE && BlockOf(g, fs, j, bn) != 0
    ensures BlockOf(g, r, j, bn) == BlockOf(g, fs, j, bn)
  {
    hide Ref;
  }

  lemma TurnOthers(g: Geo, fs0: Fs, fs: Fs, owner: map<nat, Owner>, dirty: set<nat>, f1: Fs, owner1: map<nat, Owner>, dirty1: set<nat>,
                   i: nat, off: nat, bytes: seq<Byte>, addr: nat, maps: set<nat>)
    requires Turn(g, fs, owner, dirty, f1, owner1, dirty1, i, off, |bytes|, addr, maps)
    requires Shape(g, fs0) && OthersKept(g, fs0, fs, i)
    ensures addr < g.size
    ensures Shape(g, Turned(f1, addr, off % BSIZE, bytes)) && OthersKept(g, fs0, Turned(f1, addr, off % BSIZE, bytes), i)
  {
    var data := Patched(f1.disk[0], 0, []);
    OverwriteKeeps(g, f1, owner1, i, off / BSIZE, data);
    OverwriteKeeps(g, f1, owner1, i, off / BSIZE, Patched(f1.disk[addr], off % BSIZE, bytes));
    var r := Turned(f1, addr, off % BSIZE, bytes);
    forall j: nat, k: nat | j < |fs0.inodes| && j != i && k < MAXFILE * BSIZE && BlockOf(g, fs0, j, k / BSIZE) != 0
      ensures ByteAt(g, r, j, k) == ByteAt(g, fs0, j, k)
    {
      TurnByte(g, fs, owner, dirty, f1, owner1, dirty1, i, off, bytes, addr, maps, j, k);
    }
    hide Ref, ByteAt, OwnedSlots, Patched;
  }

  lemma TurnBytes(g: Geo, fs0: Fs, fs: Fs, owner: map<nat, Owner>, dirty: set<nat>, f1: Fs, owner1: map<nat, Owner>, dirty1: set<nat>,
                  i: nat, off0: nat, src: seq<Byte>, off: nat, m: nat, addr: nat, maps: set<nat>)
    requires Turn(g, fs, owner, dirty, f1, owner1, dirty1, i, off, m, addr, maps)
    requires Writing(g, fs0, fs, owner, i, off0, src, off) && off + m <= off0 + |src|
    ensures addr < g.size
    ensures Shape(g, Turned(f1, addr, off % BSIZE, src[off - off0..off - off0 + m]))
    ensures Bytes(g, fs0, Turned(f1, addr, off % BSIZE, src[off - off0..off - off0 + m]), i, off0, src, off + m)
  {
    var bytes := src[off - off0..off - off0 + m];
    TurnByte(g, fs, owner, dirty, f1, owner1, dirty1, i, off, bytes, addr, maps, i, off);
    var r := Turned(f1, addr, off % BSIZE, bytes);
    var size := fs0.inodes[i].size;
    forall k: nat | k < Max(size, off + m) && k < MAXFILE * BSIZE
      ensures ByteAt(g, r, i, k) == if off0 <= k < off + m then src[k - off0] else ByteAt(g, fs0, i, k)
    {
      assert k / BSIZE * BSIZE <= k;
      TurnByte(g, fs, owner, dirty, f1, owner1, dirty1, i, off, bytes, addr, maps, i, k);
    }
  }

  /** One turn keeps everything the loop keeps. */
  lemma TurnKeeps(g: Geo, fs0: Fs, fs: Fs, owner: map<nat, Owner>, dirty: set<nat>, f1: Fs, owner1: map<nat, Owner>, dirty1: set<nat>,
                  i: nat, off0: nat, src: seq<Byte>, off: nat, m: nat, addr: nat, maps: set<nat>)
    requires Turn(g, fs, owner, dirty, f1, owner1, dirty1, i, off, m, addr, maps)
    requires Writing(g, fs0, fs, owner, i, off0, src, off) && off + m <= off0 + |src|
    requires BlockOf(g, fs, i, off / BSIZE) != 0 ==> f1 == fs
    ensures addr < g.size
    ensures Writing(g, fs0, Turned(f1, addr, off % BSIZE, src[off - off0..off - off0 + m]), owner1, i, off0, src, off + m)
    ensures Indirect(g, Turned(f1, addr, off % BSIZE, src[off - off0..off - off0 + m]), i) == Indirect(g, f1, i)
  {
    var bytes := src[off - off0..off - off0 + m];
    var size := fs0.inodes[i].size;
    TurnBytes(g, fs0, fs, owner, dirty, f1, owner1, dirty1, i, off0, src, off, m, addr, maps);
    TurnOthers(g, fs0, fs, owner, dirty, f1, owner1, dirty1, i, off, bytes, addr, maps);
    StepReach(g, fs, owner, dirty, f1, dirty1, i, Max(size, off), off, m, addr, maps);
    TurnOwned(g, f1, owner1, i, off, bytes, addr, Max(Max(size, off), off + m));
    assert Max(Max(size, off), off + m) == Max(size, off + m);
    assert off + m <= size ==> off / BSIZE * BSIZE < size;
    hide Ref, Bytes, OthersKept, OwnedSlots;
  }

  lemma TurnOwned(g: Geo, f1: Fs, owner1: map<nat, Owner>, i: nat, off: nat, bytes: seq<Byte>, addr: nat, reach: nat)
    requires Owned(g, f1, owner1) && i < |f1.inodes| && off / BSIZE < MAXFILE && off % BSIZE + |bytes| <= BSIZE
    requires addr == BlockOf(g, f1, i, off / BSIZE) && addr != 0 && Reaches(g, f1, i, reach)
    ensures addr < g.size && Owned(g, Turned(f1, addr, off % BSIZE, bytes), owner1)
    ensures Reaches(g, Turned(f1, addr, off % BSIZE, bytes), i, reach)
    ensures Indirect(g, Turned(f1, addr, off % BSIZE, bytes), i) == Indirect(g, f1, i)
  {
    hide Ref, OwnedSlots, Patched;
    OverwriteKeeps(g, f1, owner1, i, off / BSIZE, f1.disk[0]);
    OverwriteKeeps(g, f1, owner1, i, off / BSIZE, Patched(f1.disk[addr], off % BSIZE, bytes));
    var r := Turned(f1, addr, off % BSIZE, bytes);
    assert forall c: nat :: c < MAXFILE ==> BlockOf(g, r, i, c) == BlockOf(g, f1, i, c);
  }

  // ---------------------------------------------------------------- blocks dirtied

  /** How many blocks the range [off0, off) touches. */
  function Spanned(off0: nat, off: nat): (n: nat)
    requires off0 <= off
  {
    if off == off0 then 0 else (off - 1) / BSIZE - off0 / BSIZE + 1
  }

  /** The blocks dirtied so far: one data block per turn, a bitmap block for each block that had
      to be allocated (never for an unaligned first block), and the indirect block. */
  ghost predicate Budget(g: Geo, fs0: Fs, fs: Fs, i: nat, off0: nat, off: nat, dirty0: set<nat>, dirty: set<nat>, data: set<nat>, maps: set<nat>)
    requires Shape(g, fs0) && Shape(g, fs) && i < |fs0.inodes| && i < |fs.inodes| && off0 <= off
  {
    && dirty <= dirty0 + data + maps + Indirect(g, fs, i)
    && |data| <= Spanned(off0, off)
    && |maps| <= Spanned(off0, off) - (if off0 % BSIZE != 0 && off0 < off then 1 else 0)
                 + (if Ref(g, fs0, i, NDIRECT) == 0 && Ref(g, fs, i, NDIRECT) != 0 then 1 else 0)
    && (Ref(g, fs0, i, NDIRECT) != 0 ==> Ref(g, fs, i, NDIRECT) == Ref(g, fs0, i, NDIRECT))
  }

  lemma SpannedStep(off0: nat, off: nat, m: nat)
    requires off0 <= off && (off == off0 || off % BSIZE == 0) && 0 < m <= BSIZE - off % BSIZE
    ensures Spanned(off0, off + m) == Spanned(off0, off) + 1
  {
    assert (off + m - 1) / BSIZE == off / BSIZE;
  }

  lemma IndirectStays(g: Geo, fs: Fs, owner: map<nat, Owner>, f1: Fs, i: nat)
    requires Shape(g, fs) && Shape(g, f1) && |f1.inodes| == |fs.inodes| && i < |fs.inodes| && Extends(g, fs, owner, f1, i)
    ensures Ref(g, fs, i, NDIRECT) != 0 ==> Ref(g, f1, i, NDIRECT) == Ref(g, fs, i, NDIRECT)
  {}

  lemma BudgetStep(g: Geo, fs0: Fs, fs: Fs, owner: map<nat, Owner>, dirty: set<nat>, f1: Fs, owner1: map<nat, Owner>, dirty1: set<nat>,
                   f2: Fs, i: nat, off0: nat, off: nat, m: nat, addr: nat, more: set<nat>,
                   dirty0: set<nat>, data: set<nat>, maps: set<nat>, dirty2: set<nat>)
    requires Turn(g, fs, owner, dirty, f1, owner1, dirty1, i, off, m, addr, more) && Shape(g, fs0) && i < |fs0.inodes|
    requires off0 <= off && (off == off0 || off % BSIZE == 0)
    requires Budget(g, fs0, fs, i, off0, off, dirty0, dirty, data, maps)
    requires off == off0 && off0 % BSIZE != 0 ==> BlockOf(g, fs, i, off / BSIZE) != 0
    requires Shape(g, f2) && i < |f2.inodes| && Ref(g, f2, i, NDIRECT) == Ref(g, f1, i, NDIRECT) && dirty2 == dirty1 + {addr}
    ensures Budget(g, fs0, f2, i, off0, off + m, dirty0, dirty2, data + {addr}, maps + more)
  {
    hide Ref, OwnedSlots, Extends, Spanned;
    SpannedStep(off0, off, m);
    EntryImplies(g, fs, i, off / BSIZE);
    IndirectStays(g, fs, owner, f1, i);
    assert |maps + more| <= |maps| + |more|;
    assert |data + {addr}| <= |data| + 1;
  }

  lemma EntryImplies(g: Geo, fs: Fs, i: nat, bn: nat)
    requires Shape(g, fs) && i < |fs.inodes| && bn < MAXFILE
    ensures bn >= NDIRECT && BlockOf(g, fs, i, bn) != 0 ==> Ref(g, fs, i, NDIRECT) != 0
  {}

  /** A write of at most three blocks' worth of bytes dirties at most ten blocks, inode included. */
  lemma ChunkFits(g: Geo, fs0: Fs, fs: Fs, i: nat, off0: nat, off: nat, dirty: set<nat>, data: set<nat>, maps: set<nat>, ib: nat)
    requires Shape(g, fs0) && Shape(g, fs) && i < |fs0.inodes| && i < |fs.inodes| && off0 <= off <= off0 + 3 * BSIZE
    requires Budget(g, fs0, fs, i, off0, off, {}, dirty, data, maps)
    ensures |dirty + {ib}| <= LogSpec.MAXOPBLOCKS
  {
    hide Ref;
    var all := data + maps + Indirect(g, fs, i) + {ib};
    assert |data + maps| <= |data| + |maps|;
    assert |Indirect(g, fs, i)| <= 1;
    assert |all| <= |data| + |maps| + 2;
    Within(dirty + {ib}, all);
  }

  lemma {:induction false} Within(a: set<nat>, b: set<nat>)
    requires a <= b
    ensures |a| <= |b|
  {
    assert b == a + (b - a);
  }

  // ---------------------------------------------------------------- a whole write

  /** A byte sequence with src written at off, extending it when src reaches past the end. */
  function Overwritten(c: seq<Byte>, off: nat, src: seq<Byte>): (r: seq<Byte>)
    requires off <= |c|
    ensures |r| == Max(|c|, off + |src|)
    ensures forall k :: 0 <= k < |r| ==> r[k] == if off <= k < off + |src| then src[k - off] else c[k]
  {
    c[..off] + src + if off + |src| < |c| then c[off + |src|..] else []
  }

  function Resized(fs: Fs, i: nat, size: nat): (r: Fs)
    requires i < |fs.inodes|
  {
    var ip := fs.inodes[i];
    Fs(fs.disk, fs.inodes[i := Inode(ip.kind, ip.major, ip.minor, ip.nlink, size, ip.addrs)])
  }

  /** The size plays no part in who owns what. */
  lemma ResizedOwned(g: Geo, fs: Fs, owner: map<nat, Owner>, i: nat, size: nat)
    requires Owned(g, fs, owner) && i < |fs.inodes|
    ensures Owned(g, Resized(fs, i, size), owner)
    ensures forall j: nat, s: nat :: j < |fs.inodes| && s < SLOTS ==> Ref(g, Resized(fs, i, size), j, s) == Ref(g, fs, j, s)
  {
    var r := Resized(fs, i, size);
    assert Shape(g, r);
    assert forall j: nat, s: nat :: j < |fs.inodes| && s < SLOTS ==> Ref(g, r, j, s) == Ref(g, fs, j, s);
    hide Ref, Used;
  }

  lemma ResizedByte(g: Geo, fs: Fs, i: nat, size: nat, j: nat, k: nat)
    requires Shape(g, fs) && i < |fs.inodes| && j < |fs.inodes| && k < MAXFILE * BSIZE
    ensures Shape(g, Resized(fs, i, size))
    ensures ByteAt(g, Resized(fs, i, size), j, k) == ByteAt(g, fs, j, k)
  {}

  /** The file after a complete write, as its readers see it. */
  ghost predicate Written(g: Geo, fs0: Fs, fs: Fs, i: nat, off: nat, src: seq<Byte>)
    requires Shape(g, fs0) && Shape(g, fs) && |fs.inodes| == |fs0.inodes| && i < |fs.inodes|
    requires off <= fs0.inodes[i].size
  {
    && Content(g, fs, i) == Overwritten(Content(g, fs0, i), off, src) && SameFields(fs0.inodes[i], fs.inodes[i])
    && forall j: nat :: j < |fs.inodes| && j != i ==> fs.inodes[j] == fs0.inodes[j] && Content(g, fs, j) == Content(g, fs0, j)
  }

  lemma WriteDone(g: Geo, fs0: Fs, fs: Fs, owner: map<nat, Owner>, i: nat, off: nat, src: seq<Byte>)
    requires Writing(g, fs0, fs, owner, i, off, src, off + |src|)
    requires forall j: nat :: j < |fs0.inodes| ==> Sized(g, fs0, j)
    requires off <= fs0.inodes[i].size && off + |src| <= MAXFILE * BSIZE
    ensures var r := Resized(fs, i, Max(fs0.inodes[i].size, off + |src|));
      && Owned(g, r, owner) && |r.inodes| == |fs0.inodes| && (forall j: nat :: j < |r.inodes| ==> Sized(g, r, j))
      && Written(g, fs0, r, i, off, src)
  {
    var size := Max(fs0.inodes[i].size, off + |src|);
    var r := Resized(fs, i, size);
    ResizedOwned(g, fs, owner, i, size);
    hide Ref, OwnedSlots, ByteAt;
    forall j: nat | j < |r.inodes| ensures Sized(g, r, j) {
      assert forall bn: nat :: bn < MAXFILE ==> BlockOf(g, r, j, bn) == BlockOf(g, fs, j, bn);
      if j != i {
        OtherSized(g, fs0, fs, i, j);
      }
    }
    WriteContent(g, fs0, fs, owner, i, off, src);
  }

  lemma WriteContent(g: Geo, fs0: Fs, fs: Fs, owner: map<nat, Owner>, i: nat, off: nat, src: seq<Byte>)
    requires Writing(g, fs0, fs, owner, i, off, src, off + |src|)
    requires forall j: nat :: j < |fs0.inodes| ==> Sized(g, fs0, j)
    requires off <= fs0.inodes[i].size && off + |src| <= MAXFILE * BSIZE
    ensures Shape(g, Resized(fs, i, Max(fs0.inodes[i].size, off + |src|)))
    ensures Written(g, fs0, Resized(fs, i, Max(fs0.inodes[i].size, off + |src|)), i, off, src)
  {
    hide Ref, OwnedSlots, Sized, Reaches, Bytes, OthersKept, Content;
    var size := Max(fs0.inodes[i].size, off + |src|);
    var r := Resized(fs, i, size);
    assert Shape(g, r);
    forall j: nat | j < |r.inodes| && j != i ensures r.inodes[j] == fs0.inodes[j] && Content(g, r, j) == Content(g, fs0, j) {
      OtherContent(g, fs0, fs, i, j);
      ResizedContent(g, fs, i, size, j);
    }
    SelfContent(g, fs0, fs, i, off, src);
  }

  lemma ResizedContent(g: Geo, fs: Fs, i: nat, size: nat, j: nat)
    requires Shape(g, fs) && i < |fs.inodes| && j < |fs.inodes| && j != i
    ensures Shape(g, Resized(fs, i, size)) && Content(g, Resized(fs, i, size), j) == Content(g, fs, j)
  {
    hide Ref, ByteAt;
    var r := Resized(fs, i, size);
    ResizedByte(g, fs, i, size, j, 0);
    forall k: nat | k < fs.inodes[j].size ensures Content(g, r, j)[k] == Content(g, fs, j)[k] {
      if k < MAXFILE * BSIZE { ResizedByte(g, fs, i, size, j, k); }
    }
  }

  lemma SelfContent(g: Geo, fs0: Fs, fs: Fs, i: nat, off: nat, src: seq<Byte>)
    requires Shape(g, fs0) && Shape(g, fs) && i < |fs0.inodes| && i < |fs.inodes| && Sized(g, fs0, i)
    requires Bytes(g, fs0, fs, i, off, src, off + |src|)
    requires off <= fs0.inodes[i].size && off + |src| <= MAXFILE * BSIZE
    ensures var r := Resized(fs, i, Max(fs0.inodes[i].size, off + |src|));
      Shape(g, r) && Content(g, r, i) == Overwritten(Content(g, fs0, i), off, src)
  {
    hide Ref, ByteAt;
    var size := Max(fs0.inodes[i].size, off + |src|);
    var r := Resized(fs, i, size);
    ResizedByte(g, fs, i, size, i, 0);
    forall k: nat | k < size ensures Content(g, r, i)[k] == Overwritten(Content(g, fs0, i), off, src)[k] {
      ResizedByte(g, fs, i, size, i, k);
    }
  }

  lemma OtherSized(g: Geo, fs0: Fs, fs: Fs, i: nat, j: nat)
    requires Shape(g, fs0) && Shape(g, fs) && OthersKept(g, fs0, fs, i) && j < |fs0.inodes| && j != i && Sized(g, fs0, j)
    ensures Sized(g, fs, j)
  {
    hide Ref;
    assert forall bn: nat :: bn < MAXFILE ==> BlockOf(g, fs, j, bn) == BlockOf(g, fs0, j, bn);
  }

  lemma OtherContent(g: Geo, fs0: Fs, fs: Fs, i: nat, j: nat)
    requires Shape(g, fs0) && Shape(g, fs) && OthersKept(g, fs0, fs, i) && j < |fs0.inodes| && j != i && Sized(g, fs0, j)
    ensures fs.inodes[j] == fs0.inodes[j] && Content(g, fs, j) == Content(g, fs0, j)
  {
    hide Ref, ByteAt;
    forall k: nat | k < fs0.inodes[j].size ensures ByteAt(g, fs, j, k) == ByteAt(g, fs0, j, k) {
      assert k / BSIZE * BSIZE <= k;
      assert BlockOf(g, fs0, j, k / BSIZE) != 0;
    }
  }

  lemma WriteStarts(g: Geo, fs: Fs, owner: map<nat, Owner>, i: nat, off: nat, src: seq<Byte>, dirty: set<nat>)
    requires Owned(g, fs, owner) && i < |fs.inodes| && Sized(g, fs, i) && off <= fs.inodes[i].size
    ensures Writing(g, fs, fs, owner, i, off, src, off)
    ensures Budget(g, fs, fs, i, off, off, dirty, dirty, {}, {})
  {
    hide Ref, OwnedSlots, ByteAt;
  }
}
