/** fs.c and file.c in place: block allocation, the block map, reading, writing and truncating
    files. dirty collects the block numbers an operation passes to log_write. A result of None
    stands for the source's panic. */
module FileSystem {
  import opened Blocks
  import opened Common
  import opened Bitmap
  import opened FsSpace
  import opened FsSpec
  import opened FsWrite
  import opened FsTrunc
  import LogSpec

  class FileSystem {
    const g: Geo
    /** Every block as the buffer cache shows it. */
    var disk: seq<Block>
    /** In-memory inodes, and the copies in the inode blocks. */
    var inodes: seq<Inode>
    var dinodes: seq<Inode>
    var dirty: set<nat>
    /** The inode cache: references to each inode, and whether its entry has been read in. */
    var refs: seq<nat>
    var loaded: seq<bool>
    ghost var owner: map<nat, Owner>

    ghost function St(): (fs: Fs)
      reads this
    {
      Fs(disk, inodes)
    }

    ghost predicate Consistent()
      reads this
    {
      Owned(g, St(), owner)
    }

    /** The blocks that are neither metadata nor owned by a file, which are those free in the bitmap. */
    ghost function Room(): (n: int)
      reads this
    {
      g.size - g.nmeta - |owner|
    }

    lemma RoomIsFree()
      requires Consistent()
      ensures Room() == FreeBlocks(g, disk)
      ensures Room() == 0 <==> forall c: nat :: c < g.size ==> Used(g, disk, c)
    {
      FreeIs(g, St(), owner);
    }

    /** Between operations: ownership, write-through inodes, and no holes. */
    ghost predicate Sound()
      reads this
    {
      Consistent() && dinodes == inodes && AllSized(g, St())
    }

    /** And free inodes own nothing, and none is in the cache as read in. */
    ghost predicate Valid()
      reads this
    {
      Sound() && FreesVacant(St()) && Cached()
    }

    ghost predicate Cached()
      reads this
    {
      |refs| == |loaded| == |inodes| && forall i :: 0 <= i < |inodes| && loaded[i] ==> inodes[i].kind != 0
    }

    /** A file system found on disk, such as the one mkfs makes. */
    constructor (g: Geo, disk: seq<Block>, inodes: seq<Inode>, ghost owner: map<nat, Owner>)
      requires Whole(g, Fs(disk, inodes), owner)
      ensures Valid() && this.g == g && St() == Fs(disk, inodes) && this.owner == owner
      ensures |refs| == |inodes| && forall i :: 0 <= i < |refs| ==> refs[i] == 0
    {
      this.g, this.disk, this.inodes, this.dinodes, this.owner := g, disk, inodes, inodes, owner;
      dirty, refs, loaded := {}, seq(|inodes|, _ => 0), seq(|inodes|, _ => false);
    }

    /** balloc's inner branch: mark the block in its bitmap block and zero it. */
    method TakeBlock(b: nat, bi: nat)
      requires GoodGeo(g) && |disk| == g.size && b % BPB == 0 && bi < BPB && g.nmeta <= b + bi < g.size
      modifies this`disk, this`dirty
      ensures disk == Allocated(g, old(disk), b + bi) && dirty == old(dirty) + {BBlock(g, b + bi), b + bi}
    {
      hide Bit, SetBit;
      SameMap(g, b, bi);
      disk := disk[BBlock(g, b) := SetBit(disk[BBlock(g, b)], bi, true)];
      dirty := dirty + {BBlock(g, b)};
      disk := disk[b + bi := ZeroBlock()];
      dirty := dirty + {b + bi};
    }

    /** balloc's inner loop over one bitmap block: stops at the first clear bit. */
    method ScanMap(b: nat) returns (bi: nat)
      requires GoodGeo(g) && |disk| == g.size && b % BPB == 0 && b < g.size
      requires forall c: nat :: c < b ==> Used(g, disk, c)
      ensures bi <= BPB && forall c: nat :: c < b + bi && c < g.size ==> Used(g, disk, c)
      ensures bi < BPB && b + bi < g.size ==> !Used(g, disk, b + bi)
    {
      hide Bit;
      bi := 0;
      while bi < BPB && b + bi < g.size
        invariant 0 <= bi <= BPB
        invariant forall c: nat :: c < b + bi && c < g.size ==> Used(g, disk, c)
      {
        SameMap(g, b, bi);
        if !Bit(disk[BBlock(g, b)], bi) {
          assert !Used(g, disk, b + bi);
          return;
        }
        bi := bi + 1;
      }
    }

    lemma MetaUsed(c: nat)
      requires GoodGeo(g) && |disk| == g.size && c < g.size && !Used(g, disk, c)
      requires forall m: nat :: m < g.nmeta ==> Used(g, disk, m)
      ensures g.nmeta <= c
    {}

    /** The lowest free block, marked and zeroed; None exactly when every block is in use. */
    method Balloc() returns (r: Option<nat>)
      requires GoodGeo(g) && |disk| == g.size && forall c: nat :: c < g.nmeta ==> Used(g, disk, c)
      modifies this`disk, this`dirty
      ensures r.None? ==> disk == old(disk) && dirty == old(dirty) && forall c: nat :: c < g.size ==> Used(g, disk, c)
      ensures r.Some? ==>
        && g.nmeta <= r.value < g.size && !Used(g, old(disk), r.value)
        && (forall c: nat :: c < r.value ==> Used(g, old(disk), c))
        && disk == Allocated(g, old(disk), r.value)
        && dirty == old(dirty) + {BBlock(g, r.value), r.value}
    {
      hide Used, BBlock, Allocated, GoodGeo;
      var b := 0;
      while b < g.size
        invariant 0 <= b && b % BPB == 0 && disk == old(disk) && dirty == old(dirty)
        invariant forall c: nat :: c < b && c < g.size ==> Used(g, disk, c)
      {
        var bi := ScanMap(b);
        if bi < BPB && b + bi < g.size {
          MetaUsed(b + bi);
          TakeBlock(b, bi);
          return Some(b + bi);
        }
        b := b + BPB;
      }
      return None;
    }

    /** The disk address of block bn of inode i, allocating it (and the indirect block) when it is
        absent. maps holds the bitmap blocks dirtied: one per allocation. */
    method Bmap(i: nat, bn: nat) returns (r: Option<nat>, ghost maps: set<nat>)
      requires Consistent() && i < |inodes|
      modifies this`disk, this`inodes, this`dirty, this`owner
      ensures Consistent() && |inodes| == old(|inodes|)
      ensures r.Some? ==> bn < MAXFILE && Mapped(g, old(St()), old(owner), old(dirty), St(), dirty, i, bn, r.value, maps)
      ensures r.None? ==> bn >= MAXFILE || forall c: nat :: c < g.size ==> Used(g, disk, c)
      ensures bn < MAXFILE ==> (r.Some? <==> Missing(g, old(St()), i, bn) <= old(Room()))
      ensures r.Some? ==> Room() == old(Room()) - Missing(g, old(St()), i, bn)
      ensures bn < MAXFILE && old(BlockOf(g, St(), i, bn)) != 0 ==>
        r.Some? && St() == old(St()) && dirty == old(dirty) && owner == old(owner)
    {
      hide OwnedSlots, Ref, Placed, Mapped, Shape, Missing, Used, BlockOf, FreeBlocks;
      RoomIsFree();
      if bn < NDIRECT {
        ghost var fs0, owner0, dirty0 := St(), owner, dirty;
        MissingSlots(g, fs0, i, bn);
        r, maps := Place(i, bn);
        if r.Some? {
          PlacedDirect(g, fs0, owner0, dirty0, St(), owner, dirty, i, bn, r.value, maps);
        }
      } else if bn < MAXFILE {
        r, maps := BmapIndirect(i, bn);
      } else {
        r, maps := None, {};
      }
    }

    method BmapIndirect(i: nat, bn: nat) returns (r: Option<nat>, ghost maps: set<nat>)
      requires Consistent() && i < |inodes| && NDIRECT <= bn < MAXFILE
      modifies this`disk, this`inodes, this`dirty, this`owner
      ensures Consistent() && |inodes| == old(|inodes|)
      ensures r.Some? ==> Mapped(g, old(St()), old(owner), old(dirty), St(), dirty, i, bn, r.value, maps)
      ensures r.None? ==> forall c: nat :: c < g.size ==> Used(g, disk, c)
      ensures r.Some? <==> Missing(g, old(St()), i, bn) <= old(Room())
      ensures r.Some? ==> Room() == old(Room()) - Missing(g, old(St()), i, bn)
      ensures old(BlockOf(g, St(), i, bn)) != 0 ==>
        r.Some? && St() == old(St()) && dirty == old(dirty) && owner == old(owner)
    {
      hide OwnedSlots, Ref, Placed, Mapped, Shape, Missing, Used, BlockOf, FreeBlocks;
      RoomIsFree();
      MissingSlots(g, St(), i, bn);
      ghost var fs0, owner0, dirty0 := St(), owner, dirty;
      r, maps := Place(i, NDIRECT);
      if r.Some? {
        ghost var fs1, owner1, dirty1, ind := St(), owner, dirty, r.value;
        assert Ref(g, fs1, i, NDIRECT) != 0 by { PlacedNonzero(g, fs0, owner0, dirty0, fs1, owner1, dirty1, i, NDIRECT, ind, maps); }
        PlacedOthers(g, fs0, owner0, dirty0, fs1, owner1, dirty1, i, NDIRECT, ind, maps, bn + 1);
        ghost var more;
        r, more := Place(i, bn + 1);
        if r.Some? {
          PlacedIndirect(g, fs0, owner0, dirty0, fs1, owner1, dirty1, ind, maps, St(), owner, dirty, r.value, more, i, bn);
        }
        maps := maps + more;
      }
    }

    /** Load slot s of inode i, allocating a block into it when it is empty. */
    method Place(i: nat, s: nat) returns (r: Option<nat>, ghost maps: set<nat>)
      requires Consistent() && i < |inodes| && s < SLOTS
      requires s > NDIRECT ==> Ref(g, St(), i, NDIRECT) != 0
      modifies this`disk, this`inodes, this`dirty, this`owner
      ensures Consistent() && |inodes| == old(|inodes|)
      ensures r.Some? ==> Placed(g, old(St()), old(owner), old(dirty), St(), owner, dirty, i, s, r.value, maps)
      ensures r.None? ==> St() == old(St()) && owner == old(owner) && forall c: nat :: c < g.size ==> Used(g, disk, c)
      ensures r.None? <==> old(Ref(g, St(), i, s)) == 0 && old(Room()) == 0
      ensures r.Some? ==> Room() == old(Room()) - if old(Ref(g, St(), i, s)) == 0 then 1 else 0
      ensures old(Ref(g, St(), i, s)) != 0 ==> r.Some? && St() == old(St()) && dirty == old(dirty) && owner == old(owner)
    {
      hide OwnedSlots, Ref, Allocated, Used, Placed;
      MetadataUsed(g, St(), owner);
      RoomIsFree();
      ghost var fs0, dirty0 := St(), dirty;
      var addr := Ref(g, Fs(disk, inodes), i, s);
      if addr != 0 {
        NothingPlaced(g, fs0, owner, dirty, i, s);
        return Some(addr), {};
      }
      var nb := Balloc();
      if nb.None? {
        return None, {};
      }
      var b := nb.value;
      TakenPlaced(g, fs0, owner, dirty0, b, i, s);
      var fs := Linked(g, Fs(disk, inodes), i, s, b);
      disk, inodes := fs.disk, fs.inodes;
      assert St() == Taken(g, fs0, b, i, s);
      if s > NDIRECT {
        dirty := dirty + Indirect(g, Fs(disk, inodes), i);
      }
      assert dirty == dirty0 + {BBlock(g, b), b} + (if s > NDIRECT then Indirect(g, St(), i) else {});
      owner := owner[b := Owner(i, s)];
      return Some(b), {BBlock(g, b)};
    }

    /** iupdate: copy the in-memory inode to its inode block. */
    method Iupdate(i: nat)
      requires i < |inodes| == |dinodes|
      modifies this`dinodes, this`dirty
      ensures dinodes == old(dinodes)[i := inodes[i]]
      ensures dirty == old(dirty) + {IBlock(g, i)}
    {
      dinodes := dinodes[i := inodes[i]];
      dirty := dirty + {IBlock(g, i)};
    }

    /** bfree: false is the panic on a block that is already free. */
    method Bfree(b: nat) returns (ok: bool)
      requires GoodGeo(g) && |disk| == g.size && b < g.size
      modifies this`disk, this`dirty
      ensures ok <==> Used(g, old(disk), b)
      ensures ok ==> disk == Cleared(g, old(disk), b) && dirty == old(dirty) + {BBlock(g, b)}
      ensures !ok ==> disk == old(disk) && dirty == old(dirty)
    {
      var bi := b % BPB;
      if !Bit(disk[BBlock(g, b)], bi) {
        return false;
      }
      disk := disk[BBlock(g, b) := SetBit(disk[BBlock(g, b)], bi, false)];
      dirty := dirty + {BBlock(g, b)};
      ok := true;
    }

    /** Free the block of one slot, if there is one; bfree never finds it free. */
    method FreeSlot(ghost fs0: Fs, i: nat, s: nat, b: nat, ghost done: set<nat>)
      requires Owned(g, fs0, owner) && |disk| == g.size && Freed(g, fs0.disk, owner, disk, i, done)
      requires i < |fs0.inodes| && s < SLOTS && s !in done && b == Ref(g, fs0, i, s)
      modifies this`disk, this`dirty
      ensures |disk| == g.size && Freed(g, fs0.disk, owner, disk, i, done + {s})
    {
      hide OwnedSlots, Ref, Freed;
      if b != 0 {
        FreeStep(g, fs0, owner, disk, i, done, s);
        var ok := Bfree(b);
        assert ok;
      } else {
        FreeNothing(g, fs0, owner, disk, i, done, s);
      }
    }

    /** itrunc frees exactly the blocks of inode i and leaves the file empty. */
    method Itrunc(i: nat)
      requires Sound() && i < |inodes|
      modifies this`disk, this`inodes, this`dinodes, this`dirty, this`owner
      ensures Sound() && inodes == old(inodes)[i := Emptied(old(inodes)[i])]
      ensures owner == Without(old(owner), i) && Content(g, St(), i) == []
      ensures forall j: nat :: j < |inodes| && j != i ==> Content(g, St(), j) == Content(g, old(St()), j)
      ensures forall c: nat :: c < g.size ==>
        (Used(g, disk, c) <==> Used(g, old(disk), c) && !(c in old(owner) && old(owner)[c].inode == i))
    {
      hide OwnedSlots, Ref, Freed, Sized, Used, Content, Below, GoodGeo;
      ghost var fs0 := St();
      ghost var done: set<nat> := {};
      NothingFreed(g, fs0, owner, i);
      var k := 0;
      while k < NDIRECT
        invariant 0 <= k <= NDIRECT && done == Below(k) && |disk| == g.size
        invariant Freed(g, fs0.disk, owner, disk, i, done)
        invariant |inodes| == |fs0.inodes| && |inodes[i].addrs| == NDIRECT + 1 && owner == old(owner) && dinodes == old(dinodes)
        invariant inodes == fs0.inodes[i := inodes[i]] && SameButAddrs(fs0.inodes[i], inodes[i])
        invariant forall s :: k <= s <= NDIRECT ==> inodes[i].addrs[s] == fs0.inodes[i].addrs[s]
        invariant forall s :: 0 <= s < k ==> inodes[i].addrs[s] == 0
      {
        DirectRef(g, fs0, i, k);
        FreeSlot(fs0, i, k, inodes[i].addrs[k], done);
        inodes := inodes[i := WithAddr(inodes[i], k, 0)];
        done := done + {k};
        k := k + 1;
      }
      DirectRef(g, fs0, i, NDIRECT);
      TruncIndirect(fs0, i, inodes[i].addrs[NDIRECT]);
      inodes := inodes[i := WithAddr(inodes[i], NDIRECT, 0)];
      inodes := Resized(Fs(disk, inodes), i, 0).inodes;
      assert inodes[i].addrs == seq(NDIRECT + 1, s => 0);
      assert inodes == fs0.inodes[i := Emptied(fs0.inodes[i])];
      Iupdate(i);
      assert dinodes == inodes;
      TruncDone(g, fs0, owner, disk, i, Below(SLOTS));
      owner := Without(owner, i);
    }

    /** The indirect half of itrunc: its entries, then the indirect block itself. */
    method TruncIndirect(ghost fs0: Fs, i: nat, ind: nat)
      requires Owned(g, fs0, owner) && |disk| == g.size && i < |fs0.inodes| && ind == Ref(g, fs0, i, NDIRECT)
      requires Freed(g, fs0.disk, owner, disk, i, Below(NDIRECT))
      modifies this`disk, this`dirty
      ensures |disk| == g.size && Freed(g, fs0.disk, owner, disk, i, Below(SLOTS))
    {
      hide OwnedSlots, Ref, Freed, Below;
      ghost var done := Below(NDIRECT);
      if ind != 0 {
        IndirectBlock(g, fs0, owner, disk, i, done);
        BelowStart();
        var a := disk[ind];
        var j := 0;
        while j < NINDIRECT
          invariant 0 <= j <= NINDIRECT && |disk| == g.size && a == fs0.disk[ind]
          invariant done == Below(NDIRECT + 1 + j) - {NDIRECT}
          invariant Freed(g, fs0.disk, owner, disk, i, done)
        {
          EntryRef(g, fs0, owner, i, j);
          BelowWithout(j);
          FreeSlot(fs0, i, NDIRECT + 1 + j, Word(a, j), done);
          done := done + {NDIRECT + 1 + j};
          j := j + 1;
        }
        FreeSlot(fs0, i, NDIRECT, ind, done);
        done := done + {NDIRECT};
        BelowAll();
      } else {
        NoIndirect(g, fs0, owner, disk, i, done);
        done := Below(SLOTS);
      }
    }

    /** iget: one more reference, with a fresh entry when there was none; None is the panic when every
        entry of the cache is in use. */
    method Iget(i: nat) returns (ok: bool)
      requires Valid() && i < |inodes|
      modifies this`refs, this`loaded
      ensures Valid() && (ok <==> old(refs)[i] > 0 || InUse(old(refs)) < NINODE)
      ensures ok ==> refs == old(refs)[i := old(refs)[i] + 1]
      ensures loaded == if ok && old(refs)[i] == 0 then old(loaded)[i := false] else old(loaded)
      ensures !ok ==> refs == old(refs)
    {
      if refs[i] == 0 {
        if InUse(refs) >= NINODE {
          return false;
        }
        loaded := loaded[i := false];
      }
      refs := refs[i := refs[i] + 1];
      ok := true;
    }

    /** ilock reads the inode in when that has not been done; false is the panic on a free one. */
    method Ilock(i: nat) returns (ok: bool)
      requires Valid() && i < |inodes| && refs[i] >= 1
      modifies this`loaded
      ensures Valid() && (ok <==> inodes[i].kind != 0) && (ok ==> loaded == old(loaded)[i := true])
      ensures !ok ==> loaded == old(loaded)
    {
      if loaded[i] {
        assert loaded[i := true] == loaded;
        return true;
      }
      if dinodes[i].kind == 0 {
        return false;
      }
      loaded := loaded[i := true];
      ok := true;
    }

    /** iput: one reference less; the last reference to an inode that has been read in and has no
        links frees its blocks and the inode itself. */
    method Iput(i: nat) returns (freed: bool)
      requires Valid() && i < |inodes| && refs[i] >= 1
      modifies this`disk, this`inodes, this`dinodes, this`dirty, this`owner, this`refs, this`loaded
      ensures Valid() && refs == old(refs)[i := old(refs)[i] - 1]
      ensures freed == (old(loaded)[i] && old(inodes)[i].nlink == 0 && old(refs)[i] == 1)
      ensures !freed ==> St() == old(St()) && owner == old(owner) && dirty == old(dirty) && loaded == old(loaded)
      ensures freed ==> inodes == old(inodes)[i := Emptied(old(inodes)[i]).(kind := 0)] && loaded == old(loaded)[i := false]
      ensures freed ==> owner == Without(old(owner), i)
      ensures freed ==> forall j: nat :: j < |inodes| && j != i ==> Content(g, St(), j) == Content(g, old(St()), j)
      ensures freed ==> forall c: nat :: c < g.size ==>
        (Used(g, disk, c) <==> Used(g, old(disk), c) && !(c in old(owner) && old(owner)[c].inode == i))
    {
      hide OwnedSlots, Ref, Sized, Used, Content;
      freed := false;
      if loaded[i] && inodes[i].nlink == 0 {
        if refs[i] == 1 {
          Itrunc(i);
          FieldsKeep(g, St(), owner, i, inodes[i].(kind := 0));
          inodes := inodes[i := inodes[i].(kind := 0)];
          Iupdate(i);
          loaded := loaded[i := false];
          freed := true;
        }
      }
      refs := refs[i := refs[i] - 1];
    }

    /** A change of the link count, as link and unlink make it. */
    method SetLinks(i: nat, nlink: int)
      requires Valid() && i < |inodes|
      modifies this`inodes, this`dinodes, this`dirty
      ensures Valid() && inodes == old(inodes)[i := old(inodes)[i].(nlink := nlink)]
      ensures forall j: nat :: j < |inodes| ==> Content(g, St(), j) == Content(g, old(St()), j)
    {
      hide OwnedSlots, Ref, Sized, Used, Content;
      FieldsKeep(g, St(), owner, i, inodes[i].(nlink := nlink));
      inodes := inodes[i := inodes[i].(nlink := nlink)];
      Iupdate(i);
    }

    /** ialloc: the first free inode after 0, cleared and given a type, with a reference for the caller.
        None exactly when there is none, or when the cache has no entry left for it; the inode is then
        marked all the same. */
    method Ialloc(kind: int) returns (r: Option<nat>)
      requires Valid() && kind != 0
      modifies this`inodes, this`dinodes, this`dirty, this`refs, this`loaded
      ensures Valid() && |inodes| == old(|inodes|)
      ensures r.None? && inodes == old(inodes) ==> dirty == old(dirty) && refs == old(refs) && forall j: nat :: 1 <= j < |inodes| ==> inodes[j].kind != 0
      ensures r.None? && inodes != old(inodes) ==> InUse(old(refs)) >= NINODE && refs == old(refs) && exists j: nat :: Allotted(old(inodes), inodes, j, kind) && refs[j] == 0
      ensures r.Some? ==> Allotted(old(inodes), inodes, r.value, kind) && dirty == old(dirty) + {IBlock(g, r.value)}
      ensures r.Some? ==> refs == old(refs)[r.value := old(refs)[r.value] + 1] && (old(refs)[r.value] > 0 || InUse(old(refs)) < NINODE)
      ensures r.Some? ==> loaded == if old(refs)[r.value] == 0 then old(loaded)[r.value := false] else old(loaded)
      ensures forall j: nat :: j < |inodes| ==> Content(g, St(), j) == Content(g, old(St()), j)
    {
      hide OwnedSlots, Ref, Sized, Used, Content, InUse;
      var inum := 1;
      while inum < |inodes|
        invariant 1 <= inum && Valid() && St() == old(St()) && dinodes == old(dinodes) && dirty == old(dirty) && refs == old(refs) && loaded == old(loaded)
        invariant forall j: nat :: 1 <= j < inum && j < |inodes| ==> inodes[j].kind != 0
      {
        if dinodes[inum].kind == 0 {
          var cleared := Inode(kind, 0, 0, 0, 0, seq(NDIRECT + 1, s => 0));
          assert inodes[inum].addrs == cleared.addrs;
          FieldsKeep(g, St(), owner, inum, cleared);
          inodes := inodes[inum := cleared];
          Iupdate(inum);
          assert Allotted(old(inodes), inodes, inum, kind);
          var ok := Iget(inum);
          return if ok then Some(inum) else None;
        }
        inum := inum + 1;
      }
      return None;
    }

    /** readi on a regular file: exactly the bytes of the file from off, at most n of them; it
        never allocates, because files have no holes. */
    method Readi(i: nat, off: Uint, n: Uint) returns (r: int, dst: seq<Byte>)
      requires Sound() && i < |inodes|
      modifies this`disk, this`inodes, this`dirty, this`owner
      ensures St() == old(St()) && dirty == old(dirty) && owner == old(owner)
      ensures r == -1 <==> off > inodes[i].size || off + n >= UINT
      ensures ReadRefused(inodes[i].size, off, n) ==> r == -1 && dst == []
      ensures !ReadRefused(inodes[i].size, off, n) ==>
        && r == |dst| && off <= inodes[i].size
        && dst == Content(g, St(), i)[off..if off + n < inodes[i].size then off + n else inodes[i].size]
    {
      hide OwnedSlots, Ref, ByteAt, Mapped, Sized, Content;
      var size := inodes[i].size;
      if off > size || (off + n) % UINT < off {
        return -1, [];
      }
      var m: nat := if (off + n) % UINT > size then size - off else n;
      dst := ReadLoop(i, off, m);
      r := m;
    }

    method ReadLoop(i: nat, off0: nat, n: nat) returns (dst: seq<Byte>)
      requires Sound() && i < |inodes| && off0 + n <= inodes[i].size
      modifies this`disk, this`inodes, this`dirty, this`owner
      ensures St() == old(St()) && dirty == old(dirty) && owner == old(owner)
      ensures dst == Content(g, St(), i)[off0..off0 + n]
    {
      hide OwnedSlots, Ref, ByteAt, Mapped, Sized, Content, Shape;
      dst := [];
      ghost var fs0 := St();
      var off, tot := off0, 0;
      while tot < n
        invariant 0 <= tot <= n && off == off0 + tot
        invariant Sound() && St() == fs0 && dirty == old(dirty) && owner == old(owner)
        invariant dst == Content(g, fs0, i)[off0..off0 + tot]
      {
        var m := if n - tot < BSIZE - off % BSIZE then n - tot else BSIZE - off % BSIZE;
        var part := ReadPart(i, off, m);
        Appended(Content(g, fs0, i), off0, off, m);
        dst := dst + part;
        tot, off := tot + m, off + m;
      }
    }

    /** One turn of readi's loop. */
    method ReadPart(i: nat, off: nat, m: nat) returns (part: seq<Byte>)
      requires Sound() && i < |inodes| && off + m <= inodes[i].size && 0 < m <= BSIZE - off % BSIZE
      modifies this`disk, this`inodes, this`dirty, this`owner
      ensures St() == old(St()) && dirty == old(dirty) && owner == old(owner)
      ensures part == Content(g, St(), i)[off..off + m]
    {
      hide OwnedSlots, Ref, ByteAt, Mapped, Sized, Content, Shape;
      ghost var fs0 := St();
      ReadPlace(g, fs0, i, off);
      var rb: Option<nat>;
      ghost var maps;
      rb, maps := Bmap(i, off / BSIZE);
      MappedAddr(g, fs0, owner, dirty, fs0, dirty, i, off / BSIZE, rb.value, maps);
      OwnedInDisk(g, fs0, owner, i, off / BSIZE);
      ReadBlock(g, fs0, i, off, m);
      part := disk[rb.value][off % BSIZE..off % BSIZE + m];
    }

    /** writei on a regular file: the bytes replace [off, off + n) of the file and extend it when
        they reach past its end; no other file changes; ownership, write-through inodes and the
        absence of holes are kept; and a write of at most three blocks' worth of bytes dirties
        at most ten blocks. None only when the disk is full. */
    method Writei(i: nat, src: seq<Byte>, off: Uint) returns (r: Option<int>)
      requires Sound() && i < |inodes| && |src| < UINT
      modifies this`disk, this`inodes, this`dinodes, this`dirty, this`owner
      ensures WriteRefused(old(inodes[i].size), off, |src|) ==>
        r == Some(-1) && St() == old(St()) && dinodes == old(dinodes) && dirty == old(dirty) && owner == old(owner)
      ensures !WriteRefused(old(inodes[i].size), off, |src|) && r.Some? ==>
        && r.value == |src| && Sound() && |inodes| == old(|inodes|)
        && Written(g, old(St()), St(), i, off, src) && (old(Valid()) && old(inodes)[i].kind != 0 ==> Valid())
        && (|src| <= 3 * BSIZE && old(dirty) == {} ==> |dirty| <= LogSpec.MAXOPBLOCKS)
      ensures r.None? ==> Consistent() && |inodes| == old(|inodes|) && forall c: nat :: c < g.size ==> Used(g, disk, c)
      ensures r.None? <==> !WriteRefused(old(inodes[i].size), off, |src|) && Growth(old(inodes[i].size), off + |src|) > FreeBlocks(g, old(disk))
      ensures !WriteRefused(old(inodes[i].size), off, |src|) && r.Some? ==>
        FreeBlocks(g, disk) == FreeBlocks(g, old(disk)) - Growth(old(inodes[i].size), off + |src|)
    {
      hide OwnedSlots, Ref, ByteAt, Mapped, Used, Written, Sized, Shape, Growth, FreeBlocks;
      RoomIsFree();
      var n := |src|;
      if off > inodes[i].size || (off + n) % UINT < off {
        return Some(-1);
      }
      if (off + n) % UINT > MAXFILE * BSIZE {
        return Some(-1);
      }
      var ok := WriteFile(i, src, off);
      if ok {
        WrittenKinds(g, old(St()), St(), i, off, src);
        RoomIsFree();
      }
      r := if ok then Some(n) else None;
    }

    /** writei once its range is accepted: the loop, then the size. */
    method WriteFile(i: nat, src: seq<Byte>, off: nat) returns (ok: bool)
      requires Sound() && i < |inodes| && off <= inodes[i].size && off + |src| <= MAXFILE * BSIZE
      modifies this`disk, this`inodes, this`dinodes, this`dirty, this`owner
      ensures ok ==>
        && Sound() && |inodes| == old(|inodes|)
        && Written(g, old(St()), St(), i, off, src)
        && (|src| <= 3 * BSIZE && old(dirty) == {} ==> |dirty| <= LogSpec.MAXOPBLOCKS)
      ensures !ok ==> Consistent() && |inodes| == old(|inodes|) && forall c: nat :: c < g.size ==> Used(g, disk, c)
      ensures ok <==> Growth(old(inodes[i].size), off + |src|) <= old(Room())
      ensures ok ==> Room() == old(Room()) - Growth(old(inodes[i].size), off + |src|)
    {
      hide OwnedSlots, Ref, ByteAt, Mapped, Used, Written, Sized, Writing, Budget, Shape, Growth;
      ghost var fs0, dirty0 := St(), dirty;
      ghost var data, maps;
      ok, data, maps := WriteLoop(i, src, off);
      if ok {
        WriteDone(g, fs0, St(), owner, i, off, src);
        if |src| <= 3 * BSIZE && dirty0 == {} {
          ChunkFits(g, fs0, St(), i, off, off + |src|, dirty, data, maps, IBlock(g, i));
          Within(dirty, dirty + {IBlock(g, i)});
        }
        ResizedSame(g, fs0, St(), owner, i, off, src, off + |src|);
        if |src| > 0 && off + |src| > inodes[i].size {
          inodes := Resized(Fs(disk, inodes), i, off + |src|).inodes;
          Iupdate(i);
          assert dinodes == inodes;
        }
      }
    }

    method WriteLoop(i: nat, src: seq<Byte>, off0: nat) returns (ok: bool, ghost data: set<nat>, ghost maps: set<nat>)
      requires Sound() && i < |inodes| && off0 <= inodes[i].size && off0 + |src| <= MAXFILE * BSIZE
      modifies this`disk, this`inodes, this`dirty, this`owner
      ensures Consistent() && |inodes| == old(|inodes|)
      ensures ok ==> Writing(g, old(St()), St(), owner, i, off0, src, off0 + |src|)
      ensures ok ==> Budget(g, old(St()), St(), i, off0, off0 + |src|, old(dirty), dirty, data, maps)
      ensures !ok ==> forall c: nat :: c < g.size ==> Used(g, disk, c)
      ensures ok <==> Growth(old(inodes[i].size), off0 + |src|) <= old(Room())
      ensures ok ==> Room() == old(Room()) - Growth(old(inodes[i].size), off0 + |src|)
    {
      hide OwnedSlots, Ref, ByteAt, Mapped, Used, Sized, Writing, Budget, Shape, Growth, FreeBlocks, Max;
      var n := |src|;
      ghost var fs0, dirty0, size := St(), dirty, inodes[i].size;
      GrowthSteps(size, off0, 0);
      RoomIsFree();
      data, maps, ok := {}, {}, true;
      WriteStarts(g, fs0, owner, i, off0, src, dirty);
      var off, tot := off0, 0;
      while tot < n
        invariant 0 <= tot <= n && off == off0 + tot && |inodes| == old(|inodes|)
        invariant Writing(g, fs0, St(), owner, i, off0, src, off) && Consistent()
        invariant Budget(g, fs0, St(), i, off0, off, dirty0, dirty, data, maps)
        invariant off == off0 || off % BSIZE == 0 || tot == n
        invariant Room() == old(Room()) - Growth(size, off) >= 0
      {
        var m := if n - tot < BSIZE - off % BSIZE then n - tot else BSIZE - off % BSIZE;
        GrowthPart(size, off, m, off0 + n);
        ok, data, maps := WriteBlock(i, off0, src, off, m, fs0, dirty0, data, maps);
        if !ok {
          return;
        }
        tot, off := tot + m, off + m;
      }
    }

    /** One transaction of filewrite. */
    method WriteChunk(i: nat, src: seq<Byte>, off: Uint) returns (w: Option<int>)
      requires Sound() && i < |inodes| && |src| <= MAXWRITE
      modifies this`disk, this`inodes, this`dinodes, this`dirty, this`owner
      ensures w == Some(-1) <==> off > old(inodes[i].size) || off + |src| > MAXFILE * BSIZE
      ensures w == Some(-1) ==> St() == old(St()) && dinodes == old(dinodes) && owner == old(owner) && Sound() && (old(Valid()) ==> Valid())
      ensures w.None? ==> Consistent() && Growth(old(inodes[i].size), off + |src|) > old(Room()) && forall c: nat :: c < g.size ==> Used(g, disk, c)
      ensures w.Some? && w.value != -1 ==>
        && w.value == |src| && Sound() && |inodes| == old(|inodes|) && (old(Valid()) && old(inodes)[i].kind != 0 ==> Valid())
        && Written(g, old(St()), St(), i, off, src) && |dirty| <= LogSpec.MAXOPBLOCKS
        && inodes[i].kind == old(inodes)[i].kind && inodes[i].size == Max(old(inodes)[i].size, off + |src|)
        && Room() == old(Room()) - Growth(old(inodes[i].size), off + |src|) >= 0
    {
      hide OwnedSlots, Ref, Sized, Written, Used, Shape, Growth, FreeBlocks, WriteRefused;
      SizeBound(g, St(), i);
      RoomIsFree();
      RefusedIff(inodes[i].size, off, |src|);
      dirty := {};
      w := Writei(i, src, off);
      if w.Some? && w.value != -1 {
        RoomIsFree();
        WrittenKinds(g, old(St()), St(), i, off, src);
        WrittenSize(g, old(St()), St(), i, off, src);
      }
    }

    /** filewrite on an inode file at offset f.off: the buffer goes out in transactions of at most
        three blocks' worth of bytes, each of which dirties at most MAXOPBLOCKS blocks. It returns the
        length of the buffer exactly if writei's range checks let all of it through; otherwise it has
        written the longest run of full chunks that they let through. It panics exactly if the disk has
        too few blocks for what they let through. */
    method Filewrite(i: nat, addr: seq<Byte>, off0: Uint) returns (r: int, done: nat, panicked: bool, ghost ops: seq<set<nat>>)
      requires Sound() && i < |inodes| && |addr| < UINT
      modifies this`disk, this`inodes, this`dinodes, this`dirty, this`owner
      ensures forall k :: 0 <= k < |ops| ==> |ops[k]| <= LogSpec.MAXOPBLOCKS
      ensures !panicked ==>
        && Sound() && (old(Valid()) && old(inodes)[i].kind != 0 ==> Valid())
        && |inodes| == old(|inodes|) && done <= |addr| && r == (if done == |addr| then |addr| else -1)
        && (done > 0 ==> off0 <= old(inodes[i].size) && Written(g, old(St()), St(), i, off0, addr[..done]))
        && (done == 0 ==> St() == old(St()))
      ensures !panicked ==> (r == |addr| <==> addr == [] || (off0 <= old(inodes[i].size) && off0 + |addr| <= MAXFILE * BSIZE))
      ensures !panicked && done < |addr| ==>
        && done % MAXWRITE == 0 && (off0 > old(inodes[i].size) ==> done == 0)
        && (off0 <= old(inodes[i].size) ==> off0 + done <= MAXFILE * BSIZE < off0 + done + MAXWRITE)
      ensures panicked ==> Consistent() && forall c: nat :: c < g.size ==> Used(g, disk, c)
      ensures panicked <==>
        && off0 <= old(inodes[i].size)
        && Growth(old(inodes[i].size), off0 + Accepted(off0, |addr|)) > FreeBlocks(g, old(disk))
    {
      hide OwnedSlots, Ref, Sized, Written, Used, Shape, Growth, FreeBlocks, Accepted, AllSized, FreesVacant;
      SizeBound(g, St(), i);
      RoomIsFree();
      AcceptedIff(off0, |addr|);
      done, panicked, ops := WriteChunks(i, addr, off0);
      r := if done == |addr| then |addr| else -1;
    }

    /** The loop of filewrite. */
    method WriteChunks(i: nat, addr: seq<Byte>, off0: Uint) returns (done: nat, panicked: bool, ghost ops: seq<set<nat>>)
      requires Sound() && i < |inodes| && |addr| < UINT
      modifies this`disk, this`inodes, this`dinodes, this`dirty, this`owner
      ensures forall k :: 0 <= k < |ops| ==> |ops[k]| <= LogSpec.MAXOPBLOCKS
      ensures !panicked ==>
        && Sound() && (old(Valid()) && old(inodes)[i].kind != 0 ==> Valid())
        && |inodes| == old(|inodes|) && done <= |addr|
        && (done > 0 ==> off0 <= old(inodes[i].size) && Written(g, old(St()), St(), i, off0, addr[..done]))
        && (done == 0 ==> St() == old(St()))
      ensures !panicked ==> done == if off0 <= old(inodes[i].size) then Accepted(off0, |addr|) else 0
      ensures panicked ==> Consistent() && forall c: nat :: c < g.size ==> Used(g, disk, c)
      ensures panicked <==> off0 <= old(inodes[i].size) && Growth(old(inodes[i].size), off0 + Accepted(off0, |addr|)) > old(Room())
    {
      hide OwnedSlots, Ref, Sized, Written, Used, Shape, Growth, FreeBlocks, Accepted, AllSized, FreesVacant, Progress, Max, Cached, WriteRefused;
      ghost var size, room := inodes[i].size, Room();
      SizeBound(g, St(), i);
      RoomIsFree();
      done, panicked, ops := 0, false, [];
      var n := |addr|;
      ProgressStarts(size, off0, n, room);
      while done < n
        invariant 0 <= done <= n && Sound() && |inodes| == old(|inodes|)
        invariant inodes[i].kind == old(inodes)[i].kind && (old(Valid()) && old(inodes)[i].kind != 0 ==> Valid())
        invariant forall k :: 0 <= k < |ops| ==> |ops[k]| <= LogSpec.MAXOPBLOCKS
        invariant done == 0 ==> St() == old(St())
        invariant done > 0 ==> off0 <= size && Written(g, old(St()), St(), i, off0, addr[..done])
        invariant Progress(size, off0, n, done, inodes[i].size, room, Room())
        decreases n - done
      {
        var n1 := if n - done > MAXWRITE then MAXWRITE else n - done;
        ghost var fs1 := St();
        ProgressTurn(size, off0, n, done, inodes[i].size, room, Room(), n1);
        var w := WriteChunk(i, addr[done..done + n1], off0 + done);
        if w.None? {
          return done, true, ops;
        }
        if w.value < 0 {
          break;
        }
        ops := ops + [dirty];
        WrittenTwice(g, old(St()), fs1, St(), i, off0, addr, done, n1);
        done := done + n1;
      }
      ProgressEnds(size, off0, n, done, inodes[i].size, room, Room());
    }

    /** One turn of writei's loop. */
    method WriteBlock(i: nat, off0: nat, src: seq<Byte>, off: nat, m: nat, ghost fs0: Fs,
                      ghost dirty0: set<nat>, ghost data: set<nat>, ghost maps: set<nat>)
      returns (ok: bool, ghost data': set<nat>, ghost maps': set<nat>)
      requires Consistent() && Writing(g, fs0, St(), owner, i, off0, src, off) && i < |inodes|
      requires 0 < m <= BSIZE - off % BSIZE && off + m <= off0 + |src| && off0 + |src| <= MAXFILE * BSIZE
      requires off0 <= fs0.inodes[i].size && (off == off0 || off % BSIZE == 0)
      requires Budget(g, fs0, St(), i, off0, off, dirty0, dirty, data, maps)
      modifies this`disk, this`inodes, this`dirty, this`owner
      ensures Consistent() && |inodes| == old(|inodes|)
      ensures ok ==> Writing(g, fs0, St(), owner, i, off0, src, off + m)
      ensures ok ==> Budget(g, fs0, St(), i, off0, off + m, dirty0, dirty, data', maps')
      ensures !ok ==> forall c: nat :: c < g.size ==> Used(g, disk, c)
      ensures ok <==> Growth(Max(fs0.inodes[i].size, off), off + m) <= old(Room())
      ensures ok ==> Room() == old(Room()) - Growth(Max(fs0.inodes[i].size, off), off + m)
    {
      hide OwnedSlots, Ref, Mapped, Used, Budget, Reaches, Bytes, OthersKept, Growth, Missing;
      TurnGrowth(g, fs0, St(), owner, i, off0, src, off, m);
      ghost var fs, owner1, dirty1 := St(), owner, dirty;
      var rb: Option<nat>;
      ghost var more;
      rb, more := Bmap(i, off / BSIZE);
      if rb.None? {
        return false, data, maps;
      }
      ghost var f1, dirty2, addr := St(), dirty, rb.value;
      assert Turn(g, fs, owner1, dirty1, f1, owner, dirty2, i, off, m, addr, more);
      TurnKeeps(g, fs0, fs, owner1, dirty1, f1, owner, dirty2, i, off0, src, off, m, addr, more);
      disk := disk[rb.value := Patched(disk[rb.value], off % BSIZE, src[off - off0..off - off0 + m])];
      dirty := dirty + {rb.value};
      FirstMapped(g, fs0, fs, owner1, i, off0, src, off);
      BudgetStep(g, fs0, fs, owner1, dirty1, f1, owner, dirty2, St(), i, off0, off, m, addr, more, dirty0, data, maps, dirty);
      return true, data + {addr}, maps + more;
    }
  }

  /** The first free inode after 0, number i, has been cleared and given a type. */
  predicate Allotted(before: seq<Inode>, after: seq<Inode>, i: nat, kind: int) {
    && 1 <= i < |before| && before[i].kind == 0 && (forall j: nat :: 1 <= j < i ==> before[j].kind != 0)
    && after == before[i := Inode(kind, 0, 0, 0, 0, seq(NDIRECT + 1, s => 0))]
  }

  const NINODE: nat := 50

  /** How many entries of the inode cache are in use. */
  function InUse(refs: seq<nat>): (n: nat) {
    if refs == [] then 0 else InUse(refs[..|refs| - 1]) + if refs[|refs| - 1] > 0 then 1 else 0
  }

  /** A write to a file in use leaves free inodes as they were. */
  lemma WrittenKinds(g: Geo, fs0: Fs, fs: Fs, i: nat, off: nat, src: seq<Byte>)
    requires Shape(g, fs0) && Shape(g, fs) && |fs.inodes| == |fs0.inodes| && i < |fs.inodes|
    requires off <= fs0.inodes[i].size && Written(g, fs0, fs, i, off, src)
    ensures fs0.inodes[i].kind != 0 && FreesVacant(fs0) ==> FreesVacant(fs)
    ensures forall j :: 0 <= j < |fs.inodes| ==> fs.inodes[j].kind == fs0.inodes[j].kind
  {
    hide Content;
  }

  /** The most filewrite hands to writei at once. */
  const MAXWRITE: nat := (LogSpec.MAXOPBLOCKS - 1 - 1 - 2) / 2 * 512

  /** How much of n bytes at offset off, taken in full chunks, lies below the largest size a file can have. */
  function Accepted(off: nat, n: nat): (k: nat) {
    if off + n <= MAXFILE * BSIZE then n else if off > MAXFILE * BSIZE then 0 else (MAXFILE * BSIZE - off) / MAXWRITE * MAXWRITE
  }

  /** writei's 32-bit checks refuse exactly the ranges that start past the end of the file or end past
      the largest size. */
  lemma RefusedIff(size: nat, off: Uint, n: nat)
    requires size <= MAXFILE * BSIZE && n < UINT
    ensures WriteRefused(size, off, n) <==> off > size || off + n > MAXFILE * BSIZE
  {}

  lemma SizeBound(g: Geo, fs: Fs, i: nat)
    requires Shape(g, fs) && AllSized(g, fs) && i < |fs.inodes|
    ensures fs.inodes[i].size <= MAXFILE * BSIZE
  {
    assert Sized(g, fs, i);
  }

  lemma WrittenSize(g: Geo, fs0: Fs, fs: Fs, i: nat, off: nat, src: seq<Byte>)
    requires Shape(g, fs0) && Shape(g, fs) && |fs.inodes| == |fs0.inodes| && i < |fs.inodes|
    requires off <= fs0.inodes[i].size && Written(g, fs0, fs, i, off, src)
    ensures fs.inodes[i].size == Max(fs0.inodes[i].size, off + |src|)
  {
    hide Content, Overwritten;
    assert |Content(g, fs, i)| == |Overwritten(Content(g, fs0, i), off, src)|;
  }

  lemma ChunkEnd(n: nat, done: nat, n1: nat)
    requires done < n && done % MAXWRITE == 0 && n1 == if n - done > MAXWRITE then MAXWRITE else n - done
    ensures (done + n1) % MAXWRITE == 0 || done + n1 == n
  {}

  lemma AcceptedChunk(off: nat, n: nat, done: nat, n1: nat)
    requires done < n && done % MAXWRITE == 0 && n1 == if n - done > MAXWRITE then MAXWRITE else n - done
    requires off + done + n1 <= MAXFILE * BSIZE
    ensures done + n1 <= Accepted(off, n)
  {
    ChunkEnd(n, done, n1);
    if off + n > MAXFILE * BSIZE {
      FullChunks(MAXFILE * BSIZE - off, done + n1, MAXWRITE);
    }
  }

  /** done of n bytes written at off to a file of the given size, which now has size now; of the blocks
      that were free, room are left. */
  ghost predicate Progress(size: nat, off: nat, n: nat, done: nat, now: nat, room0: int, room: int) {
    && done <= n && size <= MAXFILE * BSIZE && (done == n || done % MAXWRITE == 0)
    && (off > size ==> done == 0 && now == size)
    && (off <= size ==> off + done <= MAXFILE * BSIZE && now == Max(size, off + done) && room == room0 - Growth(size, off + done) >= 0)
  }

  lemma ProgressStarts(size: nat, off: nat, n: nat, room: int)
    requires size <= MAXFILE * BSIZE && room >= 0
    ensures Progress(size, off, n, 0, size, room, room)
  {
    GrowthSteps(size, off, 0);
  }

  /** The next chunk is refused, runs out of blocks, or is a step forward. */
  lemma ProgressTurn(size: nat, off: Uint, n: nat, done: nat, now: nat, room0: int, room: int, n1: nat)
    requires Progress(size, off, n, done, now, room0, room) && done < n && n1 == if n - done > MAXWRITE then MAXWRITE else n - done
    ensures off + done < UINT
    ensures off + done > now <==> off > size
    ensures off + done <= now && off + done + n1 <= MAXFILE * BSIZE ==>
      if Growth(now, off + done + n1) > room then Growth(size, off + Accepted(off, n)) > room0
      else Progress(size, off, n, done + n1, Max(now, off + done + n1), room0, room - Growth(now, off + done + n1))
  {
    hide Growth, Accepted;
    ChunkEnd(n, done, n1);
    if off <= size && off + done + n1 <= MAXFILE * BSIZE {
      AcceptedChunk(off, n, done, n1);
      GrowthPart(size, off + done, n1, off + Accepted(off, n));
    }
  }

  lemma ProgressEnds(size: nat, off: nat, n: nat, done: nat, now: nat, room0: int, room: int)
    requires Progress(size, off, n, done, now, room0, room)
    requires done < n ==> off > size || off + done + (if n - done > MAXWRITE then MAXWRITE else n - done) > MAXFILE * BSIZE
    ensures done == if off <= size then Accepted(off, n) else 0
    ensures off <= size ==> Growth(size, off + Accepted(off, n)) <= room0
  {
    hide Growth, Accepted;
    if off <= size {
      AcceptedAll(size, off, n, done);
    }
  }

  /** The largest multiple of w up to room. */
  lemma FullChunks(room: nat, x: nat, w: nat)
    requires w > 0 && x % w == 0 && x <= room
    ensures x <= room / w * w
    ensures room < x + w ==> x == room / w * w
  {
    var q, k := x / w, room / w;
    assert x == q * w && room == k * w + room % w;
    if q > k {
      assert q * w >= (k + 1) * w;
    } else if q < k {
      assert k * w >= (q + 1) * w;
    }
  }

  lemma Floor(room: nat)
    ensures var k := room / MAXWRITE * MAXWRITE; k % MAXWRITE == 0 && k <= room < k + MAXWRITE
  {
    assert MAXWRITE == 1536;
    var q := room / 1536;
    assert room == q * 1536 + room % 1536;
    assert (q * 1536) % 1536 == 0;
  }

  lemma AcceptedIff(off: nat, n: nat)
    ensures Accepted(off, n) <= n && (Accepted(off, n) == n <==> n == 0 || off + n <= MAXFILE * BSIZE)
    ensures off <= MAXFILE * BSIZE && Accepted(off, n) < n ==>
      Accepted(off, n) % MAXWRITE == 0 && off + Accepted(off, n) <= MAXFILE * BSIZE < off + Accepted(off, n) + MAXWRITE
  {
    if off <= MAXFILE * BSIZE < off + n {
      Floor(MAXFILE * BSIZE - off);
    }
  }

  lemma AcceptedAll(size: nat, off: nat, n: nat, done: nat)
    requires done <= n && (done == n || done % MAXWRITE == 0) && off <= size <= MAXFILE * BSIZE && off + done <= MAXFILE * BSIZE
    requires done < n ==> off + done + (if n - done > MAXWRITE then MAXWRITE else n - done) > MAXFILE * BSIZE
    ensures done == Accepted(off, n) && (done < n ==> off + n > MAXFILE * BSIZE)
  {
    if done < n {
      FullChunks(MAXFILE * BSIZE - off, done, MAXWRITE);
    }
  }

  /** readi's range check, with the 32-bit sum. */
  predicate ReadRefused(size: nat, off: Uint, n: Uint) {
    off > size || (off + n) % UINT < off
  }

  predicate WriteRefused(size: nat, off: Uint, n: nat) {
    off > size || (off + n) % UINT < off || (off + n) % UINT > MAXFILE * BSIZE
  }

  lemma ReadPlace(g: Geo, fs: Fs, i: nat, off: nat)
    requires Shape(g, fs) && i < |fs.inodes| && Sized(g, fs, i) && off < fs.inodes[i].size
    ensures off / BSIZE < MAXFILE && BlockOf(g, fs, i, off / BSIZE) != 0
  {
    assert off / BSIZE * BSIZE <= off;
  }

  lemma MappedAddr(g: Geo, fs: Fs, owner: map<nat, Owner>, dirty: set<nat>, r: Fs, dirty': set<nat>, i: nat, bn: nat, addr: nat, maps: set<nat>)
    requires Shape(g, fs) && Shape(g, r) && |r.inodes| == |fs.inodes| && i < |fs.inodes| && bn < MAXFILE
    requires Mapped(g, fs, owner, dirty, r, dirty', i, bn, addr, maps)
    ensures addr == BlockOf(g, r, i, bn) && addr != 0
  {}

  lemma OwnedInDisk(g: Geo, fs: Fs, owner: map<nat, Owner>, i: nat, bn: nat)
    requires Owned(g, fs, owner) && i < |fs.inodes| && bn < MAXFILE && BlockOf(g, fs, i, bn) != 0
    ensures g.nmeta <= BlockOf(g, fs, i, bn) < g.size == |fs.disk|
  {}

  /** Consecutive bytes of a file inside one block are consecutive in the block. */
  lemma ReadBlock(g: Geo, fs: Fs, i: nat, off: nat, m: nat)
    requires Shape(g, fs) && i < |fs.inodes| && Sized(g, fs, i) && off + m <= fs.inodes[i].size && 0 < m <= BSIZE - off % BSIZE
    requires off / BSIZE < MAXFILE && BlockOf(g, fs, i, off / BSIZE) < g.size
    ensures Content(g, fs, i)[off..off + m] == fs.disk[BlockOf(g, fs, i, off / BSIZE)][off % BSIZE..off % BSIZE + m]
  {
    hide Ref;
    var b := fs.disk[BlockOf(g, fs, i, off / BSIZE)];
    var part, chunk := Content(g, fs, i)[off..off + m], b[off % BSIZE..off % BSIZE + m];
    forall k | 0 <= k < m ensures part[k] == chunk[k] {
      assert (off + k) / BSIZE == off / BSIZE && (off + k) % BSIZE == off % BSIZE + k;
    }
  }

  /** An unaligned first block lies below the end of the file, so it exists already. */
  lemma FirstMapped(g: Geo, fs0: Fs, fs: Fs, owner: map<nat, Owner>, i: nat, off0: nat, src: seq<Byte>, off: nat)
    requires Writing(g, fs0, fs, owner, i, off0, src, off) && off0 <= fs0.inodes[i].size && off / BSIZE < MAXFILE
    ensures off % BSIZE != 0 ==> BlockOf(g, fs, i, off / BSIZE) != 0
  {
    hide Ref, OwnedSlots, Bytes, OthersKept;
    assert off % BSIZE != 0 ==> off / BSIZE * BSIZE < off;
  }

  /** Fields other than size and addresses do not matter to blocks and contents. */
  lemma FieldsKeep(g: Geo, fs: Fs, owner: map<nat, Owner>, i: nat, ip: Inode)
    requires Owned(g, fs, owner) && i < |fs.inodes| && ip.size == fs.inodes[i].size && ip.addrs == fs.inodes[i].addrs
    requires forall j: nat :: j < |fs.inodes| ==> Sized(g, fs, j)
    ensures var r := Fs(fs.disk, fs.inodes[i := ip]);
      && Owned(g, r, owner)
      && (forall j: nat :: j < |fs.inodes| ==> Sized(g, r, j) && Content(g, r, j) == Content(g, fs, j))
  {
    hide Ref, Used, Sized, Content;
    var r := Fs(fs.disk, fs.inodes[i := ip]);
    forall j: nat, s: nat | j < |fs.inodes| && s < SLOTS ensures Ref(g, r, j, s) == Ref(g, fs, j, s) {
      FieldsRef(g, fs, i, ip, j, s);
    }
    assert Owned(g, r, owner);
    hide OwnedSlots;
    forall j: nat | j < |fs.inodes| ensures Sized(g, r, j) && Content(g, r, j) == Content(g, fs, j) {
      SameRefsContent(g, fs, r, j);
    }
  }

  lemma FieldsRef(g: Geo, fs: Fs, i: nat, ip: Inode, j: nat, s: nat)
    requires Shape(g, fs) && i < |fs.inodes| && ip.addrs == fs.inodes[i].addrs && j < |fs.inodes| && s < SLOTS
    ensures Shape(g, Fs(fs.disk, fs.inodes[i := ip])) && Ref(g, Fs(fs.disk, fs.inodes[i := ip]), j, s) == Ref(g, fs, j, s)
  {}

  lemma SameRefsContent(g: Geo, fs: Fs, r: Fs, j: nat)
    requires Shape(g, fs) && Shape(g, r) && r.disk == fs.disk && j < |fs.inodes| && j < |r.inodes| && r.inodes[j].size == fs.inodes[j].size
    requires Sized(g, fs, j) && forall s: nat :: s < SLOTS ==> Ref(g, r, j, s) == Ref(g, fs, j, s)
    ensures Sized(g, r, j) && Content(g, r, j) == Content(g, fs, j)
  {
    hide Ref;
    assert forall bn: nat :: bn < MAXFILE ==> BlockOf(g, r, j, bn) == BlockOf(g, fs, j, bn);
    hide BlockOf;
    forall k: nat | k < fs.inodes[j].size ensures Content(g, r, j)[k] == Content(g, fs, j)[k] {
      assert k / BSIZE < MAXFILE;
    }
  }

  lemma ResizedSame(g: Geo, fs0: Fs, fs: Fs, owner: map<nat, Owner>, i: nat, off0: nat, src: seq<Byte>, off: nat)
    requires Writing(g, fs0, fs, owner, i, off0, src, off)
    ensures i < |fs.inodes| && fs.inodes[i].size == fs0.inodes[i].size && |fs.inodes| == |fs0.inodes|
    ensures off <= fs0.inodes[i].size ==> Resized(fs, i, Max(fs0.inodes[i].size, off)) == fs && fs.inodes == fs0.inodes
    ensures forall j :: 0 <= j < |fs.inodes| && j != i ==> fs.inodes[j] == fs0.inodes[j]
  {
    hide Ref, OwnedSlots, Bytes, Reaches;
    assert fs.inodes[i := fs.inodes[i]] == fs.inodes;
  }

  lemma NothingFreed(g: Geo, fs: Fs, owner: map<nat, Owner>, i: nat)
    requires Owned(g, fs, owner)
    ensures Freed(g, fs.disk, owner, fs.disk, i, {})
  {}

  lemma DirectRef(g: Geo, fs: Fs, i: nat, s: nat)
    requires Shape(g, fs) && i < |fs.inodes| && s <= NDIRECT
    ensures Ref(g, fs, i, s) == fs.inodes[i].addrs[s]
  {}

  lemma EntryRef(g: Geo, fs: Fs, owner: map<nat, Owner>, i: nat, j: nat)
    requires Owned(g, fs, owner) && i < |fs.inodes| && j < NINDIRECT && Ref(g, fs, i, NDIRECT) != 0
    ensures Ref(g, fs, i, NDIRECT) < |fs.disk| && Ref(g, fs, i, NDIRECT + 1 + j) == Word(fs.disk[Ref(g, fs, i, NDIRECT)], j)
  {
    hide Word;
    assert Ref(g, fs, i, NDIRECT) in owner;
  }

  lemma IndirectBlock(g: Geo, fs: Fs, owner: map<nat, Owner>, disk: seq<Block>, i: nat, done: set<nat>)
    requires Owned(g, fs, owner) && |disk| == g.size && i < |fs.inodes| && Ref(g, fs, i, NDIRECT) != 0
    requires Freed(g, fs.disk, owner, disk, i, done)
    ensures Ref(g, fs, i, NDIRECT) < g.size && disk[Ref(g, fs, i, NDIRECT)] == fs.disk[Ref(g, fs, i, NDIRECT)]
  {
    assert Ref(g, fs, i, NDIRECT) in owner;
  }

  lemma BelowStart()
    ensures Below(NDIRECT + 1) - {NDIRECT} == Below(NDIRECT)
  {}

  lemma BelowWithout(j: nat)
    ensures NDIRECT + 1 + j !in Below(NDIRECT + 1 + j) - {NDIRECT}
    ensures Below(NDIRECT + 1 + j) - {NDIRECT} + {NDIRECT + 1 + j} == Below(NDIRECT + 1 + (j + 1)) - {NDIRECT}
  {}

  lemma BelowAll()
    ensures Below(SLOTS) - {NDIRECT} + {NDIRECT} == Below(SLOTS)
  {}

  lemma NoIndirect(g: Geo, fs: Fs, owner: map<nat, Owner>, disk: seq<Block>, i: nat, done: set<nat>)
    requires Owned(g, fs, owner) && |disk| == g.size && i < |fs.inodes| && Ref(g, fs, i, NDIRECT) == 0
    requires Freed(g, fs.disk, owner, disk, i, done) && done == Below(NDIRECT)
    ensures Freed(g, fs.disk, owner, disk, i, Below(SLOTS))
  {
    hide Used;
    forall c: nat | c < g.size && c in owner && owner[c].inode == i ensures owner[c].slot < NDIRECT {
      assert Ref(g, fs, owner[c].inode, owner[c].slot) == c;
    }
  }

  lemma TruncDone(g: Geo, fs0: Fs, owner: map<nat, Owner>, disk: seq<Block>, i: nat, done: set<nat>)
    requires Owned(g, fs0, owner) && |disk| == g.size && Freed(g, fs0.disk, owner, disk, i, done) && i < |fs0.inodes|
    requires (forall s: nat :: s < SLOTS ==> s in done) && forall j: nat :: j < |fs0.inodes| ==> Sized(g, fs0, j)
    ensures var r := Fs(disk, fs0.inodes[i := Emptied(fs0.inodes[i])]);
      && Owned(g, r, Without(owner, i))
      && (forall j: nat :: j < |fs0.inodes| ==> Sized(g, r, j) && Content(g, r, j) == if j == i then [] else Content(g, fs0, j))
      && (forall c: nat :: c < g.size ==> (Used(g, disk, c) <==> Used(g, fs0.disk, c) && !(c in owner && owner[c].inode == i)))
  {
    TruncKeeps(g, fs0, owner, disk, i, done);
    var r := Fs(disk, fs0.inodes[i := Emptied(fs0.inodes[i])]);
    forall j: nat | j < |fs0.inodes| ensures Sized(g, r, j) && Content(g, r, j) == if j == i then [] else Content(g, fs0, j) {
      if j != i {
        TruncOther(g, fs0, owner, r, j);
      } else {
        TruncSelf(g, r, i);
      }
    }
    hide Used, Ref, OwnedSlots, Sized, Content;
    forall c: nat | c in owner && owner[c].inode == i ensures owner[c].slot in done {
      OwnerSlot(g, fs0, owner, c);
    }
  }

  lemma OwnerSlot(g: Geo, fs: Fs, owner: map<nat, Owner>, c: nat)
    requires Owned(g, fs, owner) && c in owner
    ensures owner[c].slot < SLOTS
  {}

  lemma TruncSelf(g: Geo, r: Fs, i: nat)
    requires Shape(g, r) && i < |r.inodes| && r.inodes[i].size == 0 && forall s: nat :: s < SLOTS ==> Ref(g, r, i, s) == 0
    ensures Sized(g, r, i) && Content(g, r, i) == []
  {
    hide Ref;
  }

  lemma TruncOther(g: Geo, fs0: Fs, owner: map<nat, Owner>, r: Fs, j: nat)
    requires Owned(g, fs0, owner) && Shape(g, r) && j < |fs0.inodes| == |r.inodes| && r.inodes[j] == fs0.inodes[j] && Sized(g, fs0, j)
    requires forall s: nat :: s < SLOTS ==> Ref(g, r, j, s) == Ref(g, fs0, j, s)
    requires forall c: nat :: g.nmeta <= c < g.size ==> r.disk[c] == fs0.disk[c]
    ensures Sized(g, r, j) && Content(g, r, j) == Content(g, fs0, j)
  {
    hide Ref;
    assert forall bn: nat :: bn < MAXFILE ==> BlockOf(g, r, j, bn) == BlockOf(g, fs0, j, bn);
    forall k: nat | k < fs0.inodes[j].size ensures ByteAt(g, r, j, k) == ByteAt(g, fs0, j, k) {
      assert k / BSIZE * BSIZE <= k;
      OwnedInDisk(g, fs0, owner, j, k / BSIZE);
    }
  }

  /** Two writes one after the other are one write of both. */
  lemma WrittenTwice(g: Geo, fs0: Fs, fs1: Fs, fs2: Fs, i: nat, off: nat, addr: seq<Byte>, done: nat, n1: nat)
    requires Shape(g, fs0) && Shape(g, fs1) && Shape(g, fs2) && |fs0.inodes| == |fs1.inodes| == |fs2.inodes| && i < |fs0.inodes|
    requires done + n1 <= |addr| && 0 < n1
    requires done == 0 ==> fs1 == fs0
    requires done > 0 ==> off <= fs0.inodes[i].size && Written(g, fs0, fs1, i, off, addr[..done])
    requires off + done <= fs1.inodes[i].size && Written(g, fs1, fs2, i, off + done, addr[done..done + n1])
    ensures off <= fs0.inodes[i].size && Written(g, fs0, fs2, i, off, addr[..done + n1])
  {
    hide Content;
    var c := Content(g, fs0, i);
    if done == 0 {
      assert addr[..done + n1] == addr[done..done + n1];
    } else {
      assert Overwritten(Overwritten(c, off, addr[..done]), off + done, addr[done..done + n1]) == Overwritten(c, off, addr[..done + n1]);
    }
  }

  lemma MetadataUsed(g: Geo, fs: Fs, owner: map<nat, Owner>)
    requires Owned(g, fs, owner)
    ensures GoodGeo(g) && |fs.disk| == g.size && forall c: nat :: c < g.nmeta ==> Used(g, fs.disk, c)
  {}

  lemma SameMap(g: Geo, b: nat, bi: nat)
    requires b % BPB == 0 && bi < BPB
    ensures BBlock(g, b + bi) == BBlock(g, b) && (b + bi) % BPB == bi
  {}

  lemma PlacedNonzero(g: Geo, fs: Fs, owner: map<nat, Owner>, dirty: set<nat>, r: Fs, owner': map<nat, Owner>, dirty': set<nat>,
                      i: nat, s: nat, addr: nat, maps: set<nat>)
    requires Shape(g, fs) && Shape(g, r) && |r.inodes| == |fs.inodes| && i < |fs.inodes| && s < SLOTS
    requires Placed(g, fs, owner, dirty, r, owner', dirty', i, s, addr, maps)
    ensures Ref(g, r, i, s) != 0
  {}

  lemma EntryNeedsIndirect(g: Geo, fs: Fs, i: nat, s: nat)
    requires Shape(g, fs) && i < |fs.inodes| && NDIRECT < s < SLOTS
    ensures Ref(g, fs, i, s) != 0 ==> Ref(g, fs, i, NDIRECT) != 0
  {}

  lemma Appended(c: seq<Byte>, off0: nat, off: nat, m: nat)
    requires off0 <= off && off + m <= |c|
    ensures c[off0..off] + c[off..off + m] == c[off0..off + m]
  {}
}
