/** mkfs.c: the first file system. Blocks and inodes are handed out in order; the bitmap is written
    at the end. None and false, whose exact conditions are stated, stand for a failed assertion, and for running past the last inode or
    the end of the image, which mkfs does not notice. */
module Mkfs {
  import opened Blocks
  import opened Common
  import opened Bitmap
  import opened FsSpec
  import opened FsSpace
  import opened FsWrite
  import FileSystem
  import LogSpec

  const FSSIZE: nat := 1000
  const NINODES: nat := 200
  const NMETA: nat := 2 + LogSpec.LOGSIZE + (NINODES / IPB + 1) + (FSSIZE / BPB + 1)
  const T_DIR: int := 1
  const T_FILE: int := 2
  const ROOTINO: nat := 1
  const DIRSIZ: nat := 14

  function Layout(): (g: Geo)
    ensures GoodGeo(g) && g.size == FSSIZE < BPB && g.nmeta == NMETA
  {
    Geo(FSSIZE, NMETA, NMETA - 1, 2 + LogSpec.LOGSIZE)
  }

  /** Inode blocks lie between the log and the bitmap, and two inodes share one exactly if they are in
      the same group of IPB. */
  lemma InodeBlocks(i: nat, j: nat)
    requires i < NINODES && j < NINODES
    ensures 2 + LogSpec.LOGSIZE <= IBlock(Layout(), i) < BBlock(Layout(), 0)
    ensures IBlock(Layout(), i) == IBlock(Layout(), j) <==> i / IPB == j / IPB
    ensures i < j ==> IBlock(Layout(), i) <= IBlock(Layout(), j) <= IBlock(Layout(), i) + (j - i)
  {}

  function Zeroed(): (ip: Inode) { Inode(0, 0, 0, 0, 0, seq(NDIRECT + 1, s => 0)) }

  // ---------------------------------------------------------------- the bitmap

  /** A bitmap block whose first used bits are set. */
  function Marks(used: nat): (b: Block)
    requires used <= BPB
  {
    if used == 0 then ZeroBlock() else SetBit(Marks(used - 1), used - 1, true)
  }

  lemma {:induction false} MarksBits(used: nat, j: nat)
    requires used <= BPB && j < BPB
    ensures Bit(Marks(used), j) <==> j < used
  {
    hide Bit, SetBit;
    if used == 0 {
      NoBit(j);
    } else {
      MarksBits(used - 1, j);
      SetBitBits(Marks(used - 1), used - 1, true);
    }
  }

  lemma NoBit(j: nat)
    requires j < BPB
    ensures !Bit(ZeroBlock(), j)
  {
    ZeroHasNone(j % 8);
  }

  lemma {:induction false} ZeroHasNone(k: nat)
    ensures !HasBit(0, k)
  {
    if k > 0 {
      ZeroHasNone(k - 1);
    }
  }

  /** The image as it will be once the bitmap is written. */
  function Marked(disk: seq<Block>, used: nat): (r: seq<Block>)
    requires |disk| == FSSIZE && used <= FSSIZE
    ensures |r| == FSSIZE
  {
    disk[Layout().bmapstart := Marks(used)]
  }

  lemma MarkedUsed(disk: seq<Block>, used: nat, c: nat)
    requires |disk| == FSSIZE && used <= FSSIZE && c < FSSIZE
    ensures Used(Layout(), Marked(disk, used), c) <==> c < used
  {
    hide Bit, Marks;
    MarksBits(used, c);
    assert BBlock(Layout(), c) == Layout().bmapstart;
  }

  /** Marking one more block of the image, still zero, is what balloc does. */
  lemma AllocatedMarked(disk: seq<Block>, b: nat)
    requires |disk| == FSSIZE && NMETA <= b < FSSIZE && disk[b] == ZeroBlock()
    ensures Allocated(Layout(), Marked(disk, b), b) == Marked(disk, b + 1)
  {
    hide SetBit;
    var r := Allocated(Layout(), Marked(disk, b), b);
    assert BBlock(Layout(), b) == Layout().bmapstart && b % BPB == b;
  }

  /** An entry in an indirect block does not touch the bitmap. */
  lemma LinkedMarked(fs: Fs, used: nat, i: nat, s: nat, b: Uint)
    requires Shape(Layout(), fs) && used <= FSSIZE && i < |fs.inodes| && s < SLOTS
    requires s > NDIRECT ==> fs.inodes[i].addrs[NDIRECT] >= NMETA
    ensures var l := Linked(Layout(), fs, i, s, b);
      Linked(Layout(), Fs(Marked(fs.disk, used), fs.inodes), i, s, b) == Fs(Marked(l.disk, used), l.inodes)
  {
    hide Marks, SetWord;
  }

  /** Blocks not handed out are zero. */
  ghost predicate FreshBlocks(disk: seq<Block>, freeblock: nat) {
    |disk| == FSSIZE && NMETA <= freeblock <= FSSIZE && forall b :: freeblock <= b < FSSIZE ==> disk[b] == ZeroBlock()
  }

  /** Inodes not handed out are zero, the others have a type. */
  ghost predicate FreshInodes(inodes: seq<Inode>, freeinode: nat) {
    && |inodes| == NINODES && 1 <= freeinode <= NINODES && inodes[0] == Zeroed()
    && (forall i :: freeinode <= i < NINODES ==> inodes[i] == Zeroed())
    && (forall i :: 1 <= i < freeinode ==> inodes[i].kind != 0)
  }

  ghost predicate OnlyAddrs(before: seq<Inode>, after: seq<Inode>, i: nat) {
    && |after| == |before| && i < |before| && SameButAddrs(before[i], after[i])
    && forall j :: 0 <= j < |before| && j != i ==> after[j] == before[j]
  }

  ghost function Viewed(disk: seq<Block>, inodes: seq<Inode>, freeblock: nat): (fs: Fs)
    requires |disk| == FSSIZE && freeblock <= FSSIZE
  {
    Fs(Marked(disk, freeblock), inodes)
  }

  lemma OwnedBelow(disk: seq<Block>, inodes: seq<Inode>, freeblock: nat, owner: map<nat, Owner>, i: nat, s: nat)
    requires |disk| == FSSIZE && freeblock <= FSSIZE && Owned(Layout(), Viewed(disk, inodes, freeblock), owner) && i < |inodes| && s < SLOTS
    ensures var b := Ref(Layout(), Viewed(disk, inodes, freeblock), i, s); b != 0 ==> NMETA <= b < freeblock && b in owner
  {
    hide Used, Marked, Ref;
    var b := Ref(Layout(), Viewed(disk, inodes, freeblock), i, s);
    if b != 0 {
      assert b in owner && b < FSSIZE;
      MarkedUsed(disk, freeblock, b);
    }
  }

  /** The unwritten bitmap hides no reference. */
  lemma SameRefs(disk: seq<Block>, inodes: seq<Inode>, freeblock: nat, owner: map<nat, Owner>, i: nat, s: nat)
    requires |disk| == FSSIZE && freeblock <= FSSIZE && Owned(Layout(), Viewed(disk, inodes, freeblock), owner) && i < |inodes| && s < SLOTS
    ensures Shape(Layout(), Fs(disk, inodes)) && Ref(Layout(), Fs(disk, inodes), i, s) == Ref(Layout(), Viewed(disk, inodes, freeblock), i, s)
  {
    OwnedBelow(disk, inodes, freeblock, owner, i, NDIRECT);
    hide OwnedSlots, Word, Marks;
  }

  lemma TakenMarked(disk: seq<Block>, inodes: seq<Inode>, owner: map<nat, Owner>, b: nat, i: nat, s: nat)
    requires FreshBlocks(disk, b) && b < FSSIZE && Owned(Layout(), Viewed(disk, inodes, b), owner) && i < |inodes| && s < SLOTS
    requires s > NDIRECT ==> Ref(Layout(), Viewed(disk, inodes, b), i, NDIRECT) != 0
    ensures Shape(Layout(), Fs(disk, inodes))
    ensures var l := Linked(Layout(), Fs(disk, inodes), i, s, b);
      && Taken(Layout(), Viewed(disk, inodes, b), b, i, s) == Viewed(l.disk, l.inodes, b + 1)
      && FreshBlocks(l.disk, b + 1) && OnlyAddrs(inodes, l.inodes, i)
  {
    OwnedBelow(disk, inodes, b, owner, i, NDIRECT);
    hide OwnedSlots, Marks, SetWord, Allocated;
    AllocatedMarked(disk, b);
    LinkedMarked(Fs(disk, inodes), b + 1, i, s, b);
  }

  lemma LessDirty(g: Geo, fs: Fs, owner: map<nat, Owner>, r: Fs, owner': map<nat, Owner>, dirty: set<nat>, i: nat, s: nat, addr: nat, maps: set<nat>)
    requires Shape(g, fs) && Shape(g, r) && |r.inodes| == |fs.inodes| && i < |fs.inodes| && s < SLOTS
    requires Placed(g, fs, owner, {}, r, owner', dirty, i, s, addr, maps)
    ensures Placed(g, fs, owner, {}, r, owner', {}, i, s, addr, maps)
  {
    hide Ref, Extends;
  }

  /** The next free block goes to slot s. */
  lemma PlaceNext(disk: seq<Block>, inodes: seq<Inode>, owner: map<nat, Owner>, b: nat, i: nat, s: nat)
    requires FreshBlocks(disk, b) && b < FSSIZE && Owned(Layout(), Viewed(disk, inodes, b), owner) && i < |inodes| && s < SLOTS
    requires Ref(Layout(), Viewed(disk, inodes, b), i, s) == 0 && (s > NDIRECT ==> Ref(Layout(), Viewed(disk, inodes, b), i, NDIRECT) != 0)
    ensures Shape(Layout(), Fs(disk, inodes))
    ensures var l := Linked(Layout(), Fs(disk, inodes), i, s, b);
      && FreshBlocks(l.disk, b + 1) && OnlyAddrs(inodes, l.inodes, i) && Owned(Layout(), Viewed(l.disk, l.inodes, b + 1), owner[b := Owner(i, s)])
      && Placed(Layout(), Viewed(disk, inodes, b), owner, {}, Viewed(l.disk, l.inodes, b + 1), owner[b := Owner(i, s)], {}, i, s, b, {BBlock(Layout(), b)})
  {
    hide OwnedSlots, Ref, Placed, Marked, Linked, Used, Taken;
    var fs0 := Viewed(disk, inodes, b);
    MarkedUsed(disk, b, b);
    TakenPlaced(Layout(), fs0, owner, {}, b, i, s);
    var t := Taken(Layout(), fs0, b, i, s);
    LessDirty(Layout(), fs0, owner, t, owner[b := Owner(i, s)],
      {} + {BBlock(Layout(), b), b} + (if s > NDIRECT then Indirect(Layout(), t, i) else {}), i, s, b, {BBlock(Layout(), b)});
    TakenMarked(disk, inodes, owner, b, i, s);
  }

  /** At the end of a file without holes. */
  lemma MissingAtEnd(fs0: Fs, fs: Fs, owner: map<nat, Owner>, i: nat, p: seq<Byte>, off: nat, n: nat)
    requires i < |fs0.inodes| && Writing(Layout(), fs0, fs, owner, i, fs0.inodes[i].size, p, off)
    requires off / BSIZE < MAXFILE && 0 < n <= BSIZE - off % BSIZE
    ensures Shape(Layout(), fs) && i < |fs.inodes| && Missing(Layout(), fs, i, off / BSIZE) == BlocksOf(off + n) - BlocksOf(off)
  {
    hide OwnedSlots, Bytes, OthersKept, Ref, BlocksOf;
    PartBlocks(off, n);
    assert off / BSIZE * BSIZE + off % BSIZE == off;
  }

  lemma StillFreshInodes(before: seq<Inode>, after: seq<Inode>, freeinode: nat, i: nat)
    requires FreshInodes(before, freeinode) && OnlyAddrs(before, after, i) && 1 <= i < freeinode
    ensures FreshInodes(after, freeinode)
  {}

  lemma PatchMarked(disk: seq<Block>, inodes: seq<Inode>, freeblock: nat, x: nat, at: nat, bytes: seq<Byte>)
    requires FreshBlocks(disk, freeblock) && NMETA <= x < freeblock && at + |bytes| <= BSIZE
    ensures var d := disk[x := Patched(disk[x], at, bytes)];
      && Viewed(d, inodes, freeblock) == Turned(Viewed(disk, inodes, freeblock), x, at, bytes) && FreshBlocks(d, freeblock)
  {
    hide Marks, Patched;
  }

  lemma WithinFile(off: nat, n: nat)
    requires off / BSIZE < MAXFILE && n <= BSIZE - off % BSIZE
    ensures off + n <= MAXFILE * BSIZE
  {}

  lemma {:induction false} NothingOwned(disk: seq<Block>, inodes: seq<Inode>)
    requires |disk| == FSSIZE && |inodes| == NINODES && forall i :: 0 <= i < NINODES ==> inodes[i] == Zeroed()
    ensures Owned(Layout(), Viewed(disk, inodes, NMETA), map[]) && AllSized(Layout(), Viewed(disk, inodes, NMETA))
  {
    hide Used, Marked;
    var fs := Viewed(disk, inodes, NMETA);
    assert Shape(Layout(), fs);
    assert forall i: nat, s: nat :: i < |fs.inodes| && s < SLOTS ==> Ref(Layout(), fs, i, s) == 0;
    forall c: nat | c < FSSIZE ensures Used(Layout(), fs.disk, c) <==> c < NMETA {
      MarkedUsed(disk, NMETA, c);
    }
  }

  // ---------------------------------------------------------------- the image

  class Image {
    var disk: seq<Block>
    var inodes: seq<Inode>
    var freeinode: nat
    var freeblock: nat
    ghost var owner: map<nat, Owner>

    ghost predicate Loose()
      reads this
    {
      FreshBlocks(disk, freeblock) && FreshInodes(inodes, freeinode) && Owned(Layout(), View(), owner)
    }

    /** The file system that writing the bitmap would complete. */
    ghost function View(): (fs: Fs)
      reads this
    {
      if |disk| == FSSIZE && freeblock <= FSSIZE then Viewed(disk, inodes, freeblock) else Fs(disk, inodes)
    }

    ghost predicate Valid()
      reads this
    {
      Loose() && AllSized(Layout(), View())
    }

    constructor ()
      ensures Valid() && freeinode == 1 && freeblock == NMETA
    {
      disk, inodes := seq(FSSIZE, _ => ZeroBlock()), seq(NINODES, _ => Zeroed());
      freeinode, freeblock, owner := 1, NMETA, map[];
      new;
      NothingOwned(disk, inodes);
    }

    /** ialloc: the next inode, with one link. */
    method Ialloc(kind: int) returns (r: Option<nat>)
      requires Valid() && kind != 0
      modifies this`inodes, this`freeinode
      ensures Valid() && (r.None? <==> old(freeinode) == NINODES)
      ensures r.None? ==> inodes == old(inodes) && freeinode == old(freeinode)
      ensures r.Some? ==> r.value == old(freeinode) && freeinode == r.value + 1
      ensures r.Some? ==> inodes == old(inodes)[r.value := Zeroed().(kind := kind, nlink := 1)]
      ensures forall j: nat :: j < |inodes| ==> Content(Layout(), View(), j) == Content(Layout(), old(View()), j)
    {
      hide OwnedSlots, Sized, Content, Marked;
      if freeinode == NINODES {
        return None;
      }
      var inum := freeinode;
      FileSystem.FieldsKeep(Layout(), View(), owner, inum, Zeroed().(kind := kind, nlink := 1));
      inodes := inodes[inum := Zeroed().(kind := kind, nlink := 1)];
      freeinode := freeinode + 1;
      return Some(inum);
    }

    /** A slot's block, the next free one if it has none. */
    method Place(i: nat, s: nat) returns (r: Option<nat>, ghost maps: set<nat>)
      requires Loose() && 1 <= i < freeinode && s < SLOTS && (s > NDIRECT ==> Ref(Layout(), View(), i, NDIRECT) != 0)
      modifies this`disk, this`inodes, this`freeblock, this`owner
      ensures Loose() && OnlyAddrs(old(inodes), inodes, i)
      ensures r.Some? ==> Placed(Layout(), old(View()), old(owner), {}, View(), owner, {}, i, s, r.value, maps)
      ensures r.None? ==> View() == old(View()) && owner == old(owner)
      ensures old(Ref(Layout(), View(), i, s)) != 0 ==> r.Some? && View() == old(View()) && owner == old(owner)
      ensures r.None? <==> old(Ref(Layout(), View(), i, s)) == 0 && old(freeblock) == FSSIZE
      ensures r.Some? ==> freeblock == old(freeblock) + if old(Ref(Layout(), View(), i, s)) == 0 then 1 else 0
    {
      hide OwnedSlots, Ref, Placed, Marked, Linked, Used, Taken;
      ghost var fs0 := View();
      SameRefs(disk, inodes, freeblock, owner, i, s);
      var addr := Ref(Layout(), Fs(disk, inodes), i, s);
      if addr != 0 {
        NothingPlaced(Layout(), fs0, owner, {}, i, s);
        return Some(addr), {};
      }
      if freeblock == FSSIZE {
        return None, {};
      }
      var b := freeblock;
      PlaceNext(disk, inodes, owner, b, i, s);
      var fs := Linked(Layout(), Fs(disk, inodes), i, s, b);
      StillFreshInodes(inodes, fs.inodes, freeinode, i);
      disk, inodes := fs.disk, fs.inodes;
      freeblock := freeblock + 1;
      owner := owner[b := Owner(i, s)];
      return Some(b), {BBlock(Layout(), b)};
    }

    /** iappend's block for block fbn of the file. */
    method BlockFor(i: nat, fbn: nat) returns (r: Option<nat>, ghost maps: set<nat>)
      requires Loose() && 1 <= i < freeinode && fbn < MAXFILE
      modifies this`disk, this`inodes, this`freeblock, this`owner
      ensures Loose() && OnlyAddrs(old(inodes), inodes, i)
      ensures r.Some? ==> Mapped(Layout(), old(View()), old(owner), {}, View(), {}, i, fbn, r.value, maps)
      ensures r.Some? && old(BlockOf(Layout(), View(), i, fbn)) != 0 ==> View() == old(View()) && owner == old(owner)
      ensures r.Some? <==> old(freeblock) + Missing(Layout(), old(View()), i, fbn) <= FSSIZE
      ensures r.Some? ==> freeblock == old(freeblock) + Missing(Layout(), old(View()), i, fbn)
    {
      hide OwnedSlots, Ref, Placed, Mapped, Marked, FreshBlocks;
      BlockBounds(disk, freeblock);
      ghost var fs0, owner0 := View(), owner;
      if fbn < NDIRECT {
        r, maps := Place(i, fbn);
        if r.Some? {
          PlacedDirect(Layout(), fs0, owner0, {}, View(), owner, {}, i, fbn, r.value, maps);
        }
      } else {
        FileSystem.EntryNeedsIndirect(Layout(), fs0, i, fbn + 1);
        r, maps := Place(i, NDIRECT);
        if r.Some? {
          ghost var fs1, owner1, ind := View(), owner, r.value;
          FileSystem.PlacedNonzero(Layout(), fs0, owner0, {}, fs1, owner1, {}, i, NDIRECT, ind, maps);
          PlacedOthers(Layout(), fs0, owner0, {}, fs1, owner1, {}, i, NDIRECT, ind, maps, fbn + 1);
          ghost var more;
          r, more := Place(i, fbn + 1);
          if r.Some? {
            PlacedIndirect(Layout(), fs0, owner0, {}, fs1, owner1, {}, ind, maps, View(), owner, {}, r.value, more, i, fbn);
          }
          maps := maps + more;
        }
      }
      BlockBounds(disk, freeblock);
    }

    /** One turn of iappend's loop. */
    method AppendPart(i: nat, off0: nat, p: seq<Byte>, off: nat, n1: nat, ghost fs0: Fs) returns (ok: bool)
      requires Loose() && 1 <= i < freeinode && Writing(Layout(), fs0, View(), owner, i, off0, p, off)
      requires 0 < n1 <= BSIZE - off % BSIZE && off + n1 <= off0 + |p| && off / BSIZE < MAXFILE
      requires i < |fs0.inodes| && off0 == fs0.inodes[i].size
      modifies this`disk, this`inodes, this`freeblock, this`owner
      ensures ok <==> old(freeblock) + BlocksOf(off + n1) - BlocksOf(off) <= FSSIZE
      ensures ok ==> freeblock == old(freeblock) + BlocksOf(off + n1) - BlocksOf(off)
      ensures ok ==> Loose() && OnlyAddrs(old(inodes), inodes, i) && Writing(Layout(), fs0, View(), owner, i, off0, p, off + n1)
    {
      hide OwnedSlots, Ref, Mapped, Marked, Writing, FreshInodes, Patched, Turned, BlocksOf, Missing;
      WritingRange(Layout(), fs0, View(), owner, i, off0, p, off);
      MissingAtEnd(fs0, View(), owner, i, p, off, n1);
      ghost var fs, owner1 := View(), owner;
      var rb: Option<nat>;
      ghost var maps;
      rb, maps := BlockFor(i, off / BSIZE);
      if rb.None? {
        return false;
      }
      var x := rb.value;
      WithinFile(off, n1);
      ghost var f1 := View();
      assert Turn(Layout(), fs, owner1, {}, f1, owner, {}, i, off, n1, x, maps);
      TurnKeeps(Layout(), fs0, fs, owner1, {}, f1, owner, {}, i, off0, p, off, n1, x, maps);
      FileSystem.MappedAddr(Layout(), fs, owner1, {}, f1, {}, i, off / BSIZE, x, maps);
      OwnedBelow(disk, inodes, freeblock, owner, i, SlotOf(off / BSIZE));
      PatchMarked(disk, inodes, freeblock, x, off % BSIZE, p[off - off0..off - off0 + n1]);
      disk := disk[x := Patched(disk[x], off % BSIZE, p[off - off0..off - off0 + n1])];
      WritingRange(Layout(), fs0, View(), owner, i, off0, p, off + n1);
      ok := true;
    }

    /** iappend: the bytes go to the end of the file; no other file changes. */
    method Iappend(i: nat, p: seq<Byte>) returns (ok: bool)
      requires Valid() && 1 <= i < freeinode
      modifies this`disk, this`inodes, this`freeblock, this`owner
      ensures ok <==> AppendFits(old(inodes)[i].size, |p|, old(freeblock))
      ensures ok ==> freeblock == old(freeblock) + BlocksOf(old(inodes)[i].size + |p|) - BlocksOf(old(inodes)[i].size)
      ensures ok ==> Valid() && i < |inodes| == |old(inodes)| && SameFields(old(inodes)[i], inodes[i])
      ensures ok ==> Content(Layout(), View(), i) == Content(Layout(), old(View()), i) + p
      ensures ok ==> forall j: nat :: j < |inodes| && j != i ==> inodes[j] == old(inodes)[j] && Content(Layout(), View(), j) == Content(Layout(), old(View()), j)
    {
      hide OwnedSlots, Ref, Marked, Writing, FreshBlocks, Sized, Content, BlocksOf;
      ghost var fs0 := View();
      var off0, n := inodes[i].size, |p|;
      WriteStarts(Layout(), fs0, owner, i, off0, p, {});
      var off := off0;
      SelfAddrs(inodes, i);
      while off < off0 + n
        invariant off0 <= off <= off0 + n && Loose() && OnlyAddrs(old(inodes), inodes, i)
        invariant freeblock == old(freeblock) + BlocksOf(off) - BlocksOf(off0)
        invariant Writing(Layout(), fs0, View(), owner, i, off0, p, off)
      {
        var fbn := off / BSIZE;
        if fbn >= MAXFILE {
          return false;
        }
        var n1 := if off0 + n - off < (fbn + 1) * BSIZE - off then off0 + n - off else (fbn + 1) * BSIZE - off;
        MoreBlocks(off + n1, off0 + n);
        ok := AppendPart(i, off0, p, off, n1, fs0);
        if !ok {
          return;
        }
        off := off + n1;
      }
      WritingRange(Layout(), fs0, View(), owner, i, off0, p, off);
      WriteDone(Layout(), fs0, View(), owner, i, off0, p);
      BlockBounds(disk, freeblock);
      inodes := Resized(Fs(disk, inodes), i, off).inodes;
      AppendContent(Layout(), fs0, View(), i, off0, p);
      ok := true;
    }

    /** mkfs copies a file a block at a time. */
    method CopyFile(i: nat, data: seq<Byte>) returns (ok: bool)
      requires Valid() && 1 <= i < freeinode && inodes[i].size == 0
      modifies this`disk, this`inodes, this`freeblock, this`owner
      ensures ok <==> |data| <= MAXFILE * BSIZE && old(freeblock) + BlocksOf(|data|) <= FSSIZE
      ensures ok ==> freeblock == old(freeblock) + BlocksOf(|data|)
      ensures ok ==> Valid() && i < |inodes| == |old(inodes)| && SameFields(old(inodes)[i], inodes[i]) && Content(Layout(), View(), i) == data
      ensures ok ==> forall j: nat :: j < |inodes| && j != i ==> inodes[j] == old(inodes)[j] && Content(Layout(), View(), j) == Content(Layout(), old(View()), j)
    {
      hide OwnedSlots, AllSized, Content, Marked, FreshBlocks, BlocksOf;
      NoBlocks();
      var pos := 0;
      while pos < |data|
        invariant 0 <= pos <= |data| && Valid() && i < |inodes| == |old(inodes)| && SameFields(old(inodes)[i], inodes[i])
        invariant Content(Layout(), View(), i) == data[..pos] && inodes[i].size == pos
        invariant freeblock == old(freeblock) + BlocksOf(pos) && pos <= MAXFILE * BSIZE
        invariant forall j: nat :: j < |inodes| && j != i ==> inodes[j] == old(inodes)[j] && Content(Layout(), View(), j) == Content(Layout(), old(View()), j)
      {
        var cc := if |data| - pos < BSIZE then |data| - pos else BSIZE;
        MoreBlocks(pos + cc, |data|);
        ok := Iappend(i, data[pos..pos + cc]);
        if !ok {
          return;
        }
        assert data[..pos] + data[pos..pos + cc] == data[..pos + cc];
        pos := pos + cc;
      }
      assert data[..pos] == data;
      BlockBounds(disk, freeblock);
      ok := true;
    }

    /** balloc: the bitmap block, bit by bit. */
    method Balloc(used: nat)
      requires Loose() && used == freeblock
      modifies this`disk
      ensures Loose() && View() == old(View()) == Fs(disk, inodes)
    {
      hide OwnedSlots, SetBit;
      var buf, i := ZeroBlock(), 0;
      while i < used
        invariant 0 <= i <= used <= BPB && buf == Marks(i)
      {
        buf := SetBit(buf, i, true);
        i := i + 1;
      }
      disk := disk[Layout().bmapstart := buf];
      assert disk == Marked(old(disk), freeblock) == Marked(disk, freeblock);
      assert Layout().bmapstart < NMETA;
    }
  }

  /** iappend of n bytes to a file of the given size finds blocks and slots for them. */
  predicate AppendFits(size: nat, n: nat, freeblock: nat) {
    size + n <= MAXFILE * BSIZE && freeblock + BlocksOf(size + n) - BlocksOf(size) <= FSSIZE
  }

  lemma BlockBounds(disk: seq<Block>, freeblock: nat)
    requires FreshBlocks(disk, freeblock)
    ensures freeblock <= FSSIZE
  {}

  lemma SelfAddrs(inodes: seq<Inode>, i: nat)
    requires i < |inodes|
    ensures OnlyAddrs(inodes, inodes, i)
  {}

  lemma WritingRange(g: Geo, fs0: Fs, fs: Fs, owner: map<nat, Owner>, i: nat, off0: nat, src: seq<Byte>, off: nat)
    requires Writing(g, fs0, fs, owner, i, off0, src, off)
    ensures Owned(g, fs, owner) && off0 <= off <= off0 + |src| && i < |fs.inodes| == |fs0.inodes|
    ensures off <= MAXFILE * BSIZE && Shape(g, fs0)
  {
    hide OwnedSlots, Bytes, OthersKept;
  }

  lemma AppendContent(g: Geo, fs0: Fs, fs: Fs, i: nat, off: nat, src: seq<Byte>)
    requires Shape(g, fs0) && Shape(g, fs) && |fs.inodes| == |fs0.inodes| && i < |fs.inodes| && off == fs0.inodes[i].size
    requires Written(g, fs0, fs, i, off, src)
    ensures Content(g, fs, i) == Content(g, fs0, i) + src && SameFields(fs0.inodes[i], fs.inodes[i])
    ensures forall j: nat :: j < |fs.inodes| && j != i ==> fs.inodes[j] == fs0.inodes[j] && Content(g, fs, j) == Content(g, fs0, j)
  {
    hide Content;
  }

  // ---------------------------------------------------------------- the whole program

  datatype File = File(name: seq<Byte>, data: seq<Byte>)

  /** A directory entry; strncpy cuts or pads the name. */
  function Dirent(inum: nat, name: seq<Byte>): (d: seq<Byte>)
    ensures |d| == 16
  {
    [inum % 256, inum / 256 % 256] + if |name| >= DIRSIZ then name[..DIRSIZ] else name + seq(DIRSIZ - |name|, _ => 0)
  }

  /** The root directory with k files. */
  ghost function Entries(files: seq<File>, k: nat): (d: seq<Byte>)
    requires k <= |files|
    ensures |d| == 16 * (k + 2)
  {
    if k == 0 then Dirent(ROOTINO, [46]) + Dirent(ROOTINO, [46, 46]) else Entries(files, k - 1) + Dirent(k + 1, files[k - 1].name)
  }

  /** The first k files are on the image, from inode 2 on, and the root directory lists them. */
  ghost predicate Holds(fs: Fs, files: seq<File>, k: nat) {
    && Shape(Layout(), fs) && |fs.inodes| == NINODES && k <= |files| && k + 2 <= NINODES
    && fs.inodes[ROOTINO].kind == T_DIR && fs.inodes[ROOTINO].nlink == 1 && Entries(files, k) <= Content(Layout(), fs, ROOTINO)
    && forall j: nat :: j < k ==> FileAt(fs, j + 2, files[j].data)
  }

  ghost predicate FileAt(fs: Fs, i: nat, data: seq<Byte>)
    requires Shape(Layout(), fs)
  {
    i < |fs.inodes| && fs.inodes[i].kind == T_FILE && fs.inodes[i].nlink == 1 && Content(Layout(), fs, i) == data
  }

  /** One more file: its inode, its entry, its bytes. */
  lemma HoldsNext(fs0: Fs, fs1: Fs, fs2: Fs, fs3: Fs, files: seq<File>, k: nat)
    requires Holds(fs0, files, k) && k < |files| && k + 3 <= NINODES && fs0.inodes[ROOTINO].size == 16 * (k + 2)
    requires Shape(Layout(), fs1) && Shape(Layout(), fs2) && Shape(Layout(), fs3) && |fs1.inodes| == |fs2.inodes| == |fs3.inodes| == NINODES
    requires fs1.inodes == fs0.inodes[k + 2 := fs1.inodes[k + 2]] && fs1.inodes[k + 2].kind == T_FILE && fs1.inodes[k + 2].nlink == 1
    requires forall j: nat :: j < NINODES ==> Content(Layout(), fs1, j) == Content(Layout(), fs0, j)
    requires SameFields(fs1.inodes[ROOTINO], fs2.inodes[ROOTINO])
    requires Content(Layout(), fs2, ROOTINO) == Content(Layout(), fs1, ROOTINO) + Dirent(k + 2, files[k].name)
    requires forall j: nat :: j < NINODES && j != ROOTINO ==> fs2.inodes[j] == fs1.inodes[j] && Content(Layout(), fs2, j) == Content(Layout(), fs1, j)
    requires SameFields(fs2.inodes[k + 2], fs3.inodes[k + 2]) && Content(Layout(), fs3, k + 2) == files[k].data
    requires forall j: nat :: j < NINODES && j != k + 2 ==> fs3.inodes[j] == fs2.inodes[j] && Content(Layout(), fs3, j) == Content(Layout(), fs2, j)
    ensures Holds(fs3, files, k + 1) && fs3.inodes[ROOTINO].size == 16 * (k + 3)
  {
    hide Content, Dirent;
    assert Content(Layout(), fs0, ROOTINO) == Entries(files, k);
    forall j: nat | j < k + 1 ensures FileAt(fs3, j + 2, files[j].data) {
      if j < k {
        assert FileAt(fs0, j + 2, files[j].data);
      }
    }
  }

  /** Rounding the size of a file up past its last block leaves no hole if and only if the size was not
      a whole number of blocks. */
  lemma RoundedIff(g: Geo, fs: Fs, owner: map<nat, Owner>, i: nat)
    requires Owned(g, fs, owner) && AllSized(g, fs) && i < |fs.inodes|
    ensures var r := Resized(fs, i, (fs.inodes[i].size / BSIZE + 1) * BSIZE);
      && Owned(g, r, owner) && (AllSized(g, r) <==> fs.inodes[i].size % BSIZE != 0)
      && Content(g, fs, i) <= Content(g, r, i)
      && forall j: nat :: j < |fs.inodes| && j != i ==> Content(g, r, j) == Content(g, fs, j)
  {
    hide OwnedSlots, Ref, Sized, Content;
    var size, size' := fs.inodes[i].size, (fs.inodes[i].size / BSIZE + 1) * BSIZE;
    var r := Resized(fs, i, size');
    ResizedOwned(g, fs, owner, i, size');
    RoundedSized(g, fs, r, i);
    forall j: nat | j < |fs.inodes| && j != i ensures Sized(g, r, j) && Content(g, r, j) == Content(g, fs, j) {
      ResizedContent(g, fs, i, size', j);
      OtherSizes(g, fs, r, j);
    }
    RoundedContent(g, fs, i, size');
  }

  lemma OtherSizes(g: Geo, fs: Fs, r: Fs, j: nat)
    requires Shape(g, fs) && Shape(g, r) && j < |fs.inodes| == |r.inodes| && r.inodes[j].size == fs.inodes[j].size && Sized(g, fs, j)
    requires forall s: nat :: s < SLOTS ==> Ref(g, r, j, s) == Ref(g, fs, j, s)
    ensures Sized(g, r, j)
  {
    hide Ref;
    assert forall bn: nat :: bn < MAXFILE ==> BlockOf(g, r, j, bn) == BlockOf(g, fs, j, bn);
  }

  lemma RoundedSized(g: Geo, fs: Fs, r: Fs, i: nat)
    requires Shape(g, fs) && Shape(g, r) && i < |fs.inodes| == |r.inodes| && Sized(g, fs, i)
    requires r.inodes[i].size == (fs.inodes[i].size / BSIZE + 1) * BSIZE
    requires forall s: nat :: s < SLOTS ==> Ref(g, r, i, s) == Ref(g, fs, i, s)
    ensures Sized(g, r, i) <==> fs.inodes[i].size % BSIZE != 0
  {
    hide Ref;
    var size, last := fs.inodes[i].size, fs.inodes[i].size / BSIZE;
    assert forall bn: nat :: bn < MAXFILE ==> BlockOf(g, r, i, bn) == BlockOf(g, fs, i, bn);
    if size % BSIZE == 0 {
      if last < MAXFILE {
        assert BlockOf(g, r, i, last) == 0 && last * BSIZE < r.inodes[i].size;
      }
    } else {
      forall bn: nat | bn < MAXFILE ensures BlockOf(g, r, i, bn) != 0 <==> bn * BSIZE < r.inodes[i].size {
        assert bn * BSIZE < size <==> bn <= last;
      }
    }
  }

  lemma RoundedContent(g: Geo, fs: Fs, i: nat, size: nat)
    requires Shape(g, fs) && i < |fs.inodes| && fs.inodes[i].size <= size
    ensures Shape(g, Resized(fs, i, size)) && Content(g, fs, i) <= Content(g, Resized(fs, i, size), i)
  {
    hide ByteAt, Ref;
    var r := Resized(fs, i, size);
    assert Shape(g, r);
    forall k: nat | k < fs.inodes[i].size ensures Content(g, r, i)[k] == Content(g, fs, i)[k] {
      if k < MAXFILE * BSIZE {
        ResizedByte(g, fs, i, size, i, k);
      }
    }
  }

  /** The blocks in use once the first k files are in. */
  ghost function Total(files: seq<File>, k: nat): (n: nat)
    requires k <= |files|
  {
    if k == 0 then NMETA + BlocksOf(32)
    else Total(files, k - 1) - BlocksOf(16 * (k + 1)) + BlocksOf(16 * (k + 2)) + BlocksOf(|files[k - 1].data|)
  }

  lemma {:induction false} TotalGrows(files: seq<File>, j: nat, k: nat)
    requires j <= k <= |files|
    ensures Total(files, j) <= Total(files, k)
    decreases k
  {
    if j < k {
      TotalGrows(files, j, k - 1);
      MoreBlocks(16 * (k + 1), 16 * (k + 2));
    }
  }

  /** The files are not too many, none is too long, and their blocks and the directory's fit. */
  ghost predicate FilesFit(files: seq<File>) {
    && |files| + 2 <= NINODES && (forall j :: 0 <= j < |files| ==> |files[j].data| <= MAXFILE * BSIZE)
    && Total(files, |files|) <= FSSIZE
  }

  method Root(img: Image, files: seq<File>) returns (ok: bool)
    requires img.Valid() && img.freeinode == 1 && img.freeblock == NMETA
    modifies img
    ensures ok && img.freeblock == Total(files, 0)
    ensures img.Valid() && img.freeinode == 2 && Holds(img.View(), files, 0) && img.inodes[ROOTINO].size == 32
  {
    hide OwnedSlots, AllSized, Content, Marked, FreshBlocks, Dirent;
    var r := img.Ialloc(T_DIR);
    ok := img.Iappend(ROOTINO, Dirent(ROOTINO, [46]));
    if ok {
      ok := img.Iappend(ROOTINO, Dirent(ROOTINO, [46, 46]));
    }
  }

  method AddFile(img: Image, files: seq<File>, k: nat) returns (ok: bool)
    requires img.Valid() && k < |files| && img.freeinode == k + 2 && Holds(img.View(), files, k) && img.inodes[ROOTINO].size == 16 * (k + 2)
    requires img.freeblock == Total(files, k)
    modifies img
    ensures ok <==> k + 3 <= NINODES && |files[k].data| <= MAXFILE * BSIZE && Total(files, k + 1) <= FSSIZE
    ensures ok ==> img.freeblock == Total(files, k + 1)
    ensures ok ==> img.Valid() && img.freeinode == k + 3 && Holds(img.View(), files, k + 1) && img.inodes[ROOTINO].size == 16 * (k + 3)
  {
    hide OwnedSlots, AllSized, Content, Marked, FreshBlocks, Dirent, Holds, BlocksOf;
    MoreBlocks(16 * (k + 2), 16 * (k + 3));
    ghost var fs0 := img.View();
    var r := img.Ialloc(T_FILE);
    if r.None? {
      return false;
    }
    ghost var fs1 := img.View();
    ok := img.Iappend(ROOTINO, Dirent(r.value, files[k].name));
    if !ok {
      return;
    }
    ghost var fs2 := img.View();
    ok := img.CopyFile(r.value, files[k].data);
    if ok {
      HoldsNext(fs0, fs1, fs2, img.View(), files, k);
    }
  }

  /** The size of the root directory and the bitmap. */
  method Finish(img: Image, files: seq<File>)
    requires img.Valid() && Holds(img.View(), files, |files|) && img.inodes[ROOTINO].size == 16 * (|files| + 2)
    modifies img
    ensures Holds(Fs(img.disk, img.inodes), files, |files|)
    ensures Owned(Layout(), Fs(img.disk, img.inodes), img.owner) && FreesVacant(Fs(img.disk, img.inodes))
    ensures Whole(Layout(), Fs(img.disk, img.inodes), img.owner) <==> (|files| + 2) % 32 != 0
  {
    hide OwnedSlots, AllSized, Content, Marked, FreshBlocks, Dirent, Holds;
    ghost var fs0 := img.View();
    RootUsed(fs0, files, img.freeinode);
    RoundedIff(Layout(), fs0, img.owner, ROOTINO);
    var off := img.inodes[ROOTINO].size;
    img.inodes := Resized(Fs(img.disk, img.inodes), ROOTINO, (off / BSIZE + 1) * BSIZE).inodes;
    StillHolds(fs0, img.View(), files);
    StillTyped(fs0.inodes, img.inodes, img.freeinode);
    img.Balloc(img.freeblock);
    FreshVacant(img.inodes, img.freeinode);
  }

  lemma RootUsed(fs: Fs, files: seq<File>, freeinode: nat)
    requires Holds(fs, files, |files|) && FreshInodes(fs.inodes, freeinode)
    ensures 1 < freeinode && ROOTINO < |fs.inodes|
  {}

  lemma StillHolds(fs: Fs, r: Fs, files: seq<File>)
    requires Holds(fs, files, |files|) && Shape(Layout(), r) && |r.inodes| == |fs.inodes|
    requires SameFields(fs.inodes[ROOTINO], r.inodes[ROOTINO]) && Content(Layout(), fs, ROOTINO) <= Content(Layout(), r, ROOTINO)
    requires forall j: nat :: j < |fs.inodes| && j != ROOTINO ==> r.inodes[j] == fs.inodes[j] && Content(Layout(), r, j) == Content(Layout(), fs, j)
    ensures Holds(r, files, |files|)
  {
    hide Content, Entries;
    forall j: nat | j < |files| ensures FileAt(r, j + 2, files[j].data) {
      assert FileAt(fs, j + 2, files[j].data);
    }
  }

  lemma StillTyped(before: seq<Inode>, after: seq<Inode>, freeinode: nat)
    requires FreshInodes(before, freeinode) && 1 < freeinode && |after| == |before| && SameFields(before[ROOTINO], after[ROOTINO])
    requires forall j :: 0 <= j < |before| && j != ROOTINO ==> after[j] == before[j]
    ensures FreshInodes(after, freeinode)
  {}

  lemma FreshVacant(inodes: seq<Inode>, freeinode: nat)
    requires FreshInodes(inodes, freeinode)
    ensures forall disk :: FreesVacant(Fs(disk, inodes))
  {}

  /** mkfs succeeds if and only if the files fit. Then every block is metadata, free, or owned by one slot of one inode; the root directory lists
      the files, and each file holds its bytes. The image is one that fs.c starts from without a hole if
      and only if the directory does not end on a block boundary, where its rounded size makes one. */
  method Make(files: seq<File>) returns (img: Image, ok: bool)
    ensures ok <==> FilesFit(files)
    ensures ok ==> Holds(Fs(img.disk, img.inodes), files, |files|)
    ensures ok ==> Owned(Layout(), Fs(img.disk, img.inodes), img.owner) && FreesVacant(Fs(img.disk, img.inodes))
    ensures ok ==> (Whole(Layout(), Fs(img.disk, img.inodes), img.owner) <==> (|files| + 2) % 32 != 0)
  {
    hide OwnedSlots, AllSized, Content, Marked, FreshBlocks, Holds, FreesVacant, BlocksOf, Total;
    img := new Image();
    ok := Root(img, files);
    BlockBounds(img.disk, img.freeblock);
    var k := 0;
    while k < |files|
      invariant 0 <= k <= |files| && k + 2 <= NINODES && fresh(img) && img.Valid() && img.freeinode == k + 2 && Holds(img.View(), files, k)
      invariant ok && img.freeblock == Total(files, k) <= FSSIZE && forall j :: 0 <= j < k ==> |files[j].data| <= MAXFILE * BSIZE
      invariant img.inodes[ROOTINO].size == 16 * (k + 2)
    {
      ok := AddFile(img, files, k);
      if !ok {
        TotalGrows(files, k + 1, |files|);
        return;
      }
      k := k + 1;
    }
    Finish(img, files);
  }
}
