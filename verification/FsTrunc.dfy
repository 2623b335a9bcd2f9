/** What itrunc keeps while it frees the blocks of an inode one slot at a time. */
module FsTrunc {
  import opened Blocks
  import opened Bitmap
  import opened FsSpec

  /** The slots below n. */
  ghost function Below(n: nat): (s: set<nat>)
    ensures forall k: nat :: k in s <==> k < n
  {
    if n == 0 then {} else Below(n - 1) + {n - 1}
  }

  /** bfree: clear one bit of the bitmap. */
  function Cleared(g: Geo, disk: seq<Block>, b: nat): (r: seq<Block>)
    requires GoodGeo(g) && |disk| == g.size && b < g.size
    ensures |r| == g.size
  {
    disk[BBlock(g, b) := SetBit(disk[BBlock(g, b)], b % BPB, false)]
  }

  lemma MapBlock(g: Geo, b: nat)
    requires GoodGeo(g) && b < g.size
    ensures BBlock(g, b) < g.size
  {}

  lemma ClearedUsed(g: Geo, disk: seq<Block>, b: nat, c: nat)
    requires GoodGeo(g) && |disk| == g.size && b < g.size && c < g.size
    ensures Used(g, Cleared(g, disk, b), c) <==> c != b && Used(g, disk, c)
  {
    hide Bit, SetBit, GoodGeo;
    MapBlock(g, b);
    MapBlock(g, c);
    SetBitBits(disk[BBlock(g, b)], b % BPB, false);
    assert b / BPB == c / BPB && b % BPB == c % BPB ==> b == c;
  }

  lemma ClearedData(g: Geo, disk: seq<Block>, b: nat)
    requires GoodGeo(g) && |disk| == g.size && b < g.size
    ensures forall c: nat :: g.nmeta <= c < g.size ==> Cleared(g, disk, b)[c] == disk[c]
  {
    assert BBlock(g, b) < g.nmeta;
  }

  /** The blocks of inode i in the given slots are free, every other bit is as it was, and only
      bitmap blocks have changed. */
  ghost predicate Freed(g: Geo, disk0: seq<Block>, owner: map<nat, Owner>, disk: seq<Block>, i: nat, done: set<nat>)
    requires GoodGeo(g) && |disk0| == g.size && |disk| == g.size
  {
    && (forall c: nat :: c < g.size ==>
          (Used(g, disk, c) <==> Used(g, disk0, c) && !(c in owner && owner[c].inode == i && owner[c].slot in done)))
    && (forall c: nat :: g.nmeta <= c < g.size ==> disk[c] == disk0[c])
  }

  /** Freeing the block in one more slot. The block is in use, so bfree does not panic. */
  lemma FreeStep(g: Geo, fs0: Fs, owner: map<nat, Owner>, disk: seq<Block>, i: nat, done: set<nat>, s: nat)
    requires Owned(g, fs0, owner) && |disk| == g.size && Freed(g, fs0.disk, owner, disk, i, done)
    requires i < |fs0.inodes| && s < SLOTS && s !in done && Ref(g, fs0, i, s) != 0
    ensures Ref(g, fs0, i, s) < g.size && Used(g, disk, Ref(g, fs0, i, s))
    ensures Freed(g, fs0.disk, owner, Cleared(g, disk, Ref(g, fs0, i, s)), i, done + {s})
  {
    hide Used, Ref, Cleared;
    var b := Ref(g, fs0, i, s);
    assert b in owner && owner[b] == Owner(i, s) && g.nmeta <= b;
    var r := Cleared(g, disk, b);
    ClearedData(g, disk, b);
    forall c: nat | c < g.size
      ensures Used(g, r, c) <==> Used(g, fs0.disk, c) && !(c in owner && owner[c].inode == i && owner[c].slot in done + {s})
    {
      ClearedUsed(g, disk, b, c);
      if c in owner && owner[c] == Owner(i, s) {
        assert Ref(g, fs0, owner[c].inode, owner[c].slot) == c;
      }
    }
  }

  /** An empty slot needs nothing. */
  lemma FreeNothing(g: Geo, fs0: Fs, owner: map<nat, Owner>, disk: seq<Block>, i: nat, done: set<nat>, s: nat)
    requires Owned(g, fs0, owner) && |disk| == g.size && Freed(g, fs0.disk, owner, disk, i, done)
    requires i < |fs0.inodes| && s < SLOTS && Ref(g, fs0, i, s) == 0
    ensures Freed(g, fs0.disk, owner, disk, i, done + {s})
  {
    hide Used;
    forall c: nat | c < g.size && c in owner && owner[c].inode == i ensures owner[c].slot != s {
      assert Ref(g, fs0, owner[c].inode, owner[c].slot) == c;
    }
  }

  /** The inode after truncation: no addresses, size 0. */
  function Emptied(ip: Inode): (r: Inode) {
    Inode(ip.kind, ip.major, ip.minor, ip.nlink, 0, seq(NDIRECT + 1, s => 0))
  }

  function Without(owner: map<nat, Owner>, i: nat): (r: map<nat, Owner>) {
    map b | b in owner && owner[b].inode != i :: owner[b]
  }

  /** Once every slot is done, exactly the inode's blocks have become free; ownership of every
      other block, and every other file, is as before. */
  lemma TruncKeeps(g: Geo, fs0: Fs, owner: map<nat, Owner>, disk: seq<Block>, i: nat, done: set<nat>)
    requires Owned(g, fs0, owner) && |disk| == g.size && Freed(g, fs0.disk, owner, disk, i, done) && i < |fs0.inodes|
    requires forall s: nat :: s < SLOTS ==> s in done
    ensures var r := Fs(disk, fs0.inodes[i := Emptied(fs0.inodes[i])]);
      && Shape(g, r) && Owned(g, r, Without(owner, i))
      && forall j: nat, s: nat :: j < |fs0.inodes| && s < SLOTS ==> Ref(g, r, j, s) == if j == i then 0 else Ref(g, fs0, j, s)
  {
    hide Used, Ref;
    var r := Fs(disk, fs0.inodes[i := Emptied(fs0.inodes[i])]);
    assert Shape(g, r);
    forall j: nat, s: nat | j < |fs0.inodes| && s < SLOTS ensures Ref(g, r, j, s) == if j == i then 0 else Ref(g, fs0, j, s) {
      TruncRef(g, fs0, owner, disk, i, j, s);
    }
  }

  lemma TruncRef(g: Geo, fs0: Fs, owner: map<nat, Owner>, disk: seq<Block>, i: nat, j: nat, s: nat)
    requires Owned(g, fs0, owner) && |disk| == g.size && i < |fs0.inodes| && j < |fs0.inodes| && s < SLOTS
    requires forall c: nat :: g.nmeta <= c < g.size ==> disk[c] == fs0.disk[c]
    ensures var r := Fs(disk, fs0.inodes[i := Emptied(fs0.inodes[i])]);
      Shape(g, r) && Ref(g, r, j, s) == if j == i then 0 else Ref(g, fs0, j, s)
  {
    var ind := Ref(g, fs0, j, NDIRECT);
    assert ind != 0 ==> ind in owner && g.nmeta <= ind;
    hide Word;
  }
}
