/** umalloc.c in place: headers in memory, relinked by free and malloc. st is the ghost view of
    the same memory: which blocks are free, which are live, and which units they cover. */
module Heap {
  import opened Common
  import opened HeapSpec

  /** How many header units a request takes, with the 32-bit sum of the source. */
  function NUnits(nbytes: nat): (n: nat)
    requires nbytes < UINT
    ensures n >= 1
  {
    (nbytes + 7) % UINT / 8 + 1
  }

  /** The block is large enough for the request exactly when the sum does not wrap. */
  lemma RoomIff(nbytes: nat)
    requires nbytes < UINT
    ensures (NUnits(nbytes) - 1) * 8 >= nbytes <==> nbytes <= UINT - 8
  {}

  const INTMAX: int := 0x7fff_ffff

  /** The bytes morecore asks sbrk for: a 32-bit product, read as a signed number. */
  function SbrkArg(nunits: nat): (n: int) {
    var bytes := Wanted(nunits) * 8 % UINT;
    if bytes > INTMAX then bytes - UINT else bytes
  }

  function Wanted(nunits: nat): (n: nat) { if nunits < 4096 then 4096 else nunits }

  /** sbrk is asked for the memory morecore counts on if and only if the request is below half the
      address space; otherwise it is asked for nothing or to take memory away. */
  lemma SbrkIff(nbytes: nat)
    requires nbytes <= UINT - 8
    ensures SbrkArg(NUnits(nbytes)) == Wanted(NUnits(nbytes)) * 8 <==> nbytes <= INTMAX - 15
    ensures SbrkArg(NUnits(nbytes)) > 0 <==> nbytes <= INTMAX - 15
  {
    var n := NUnits(nbytes);
    assert n == (nbytes + 7) / 8 + 1;
    if nbytes <= INTMAX - 15 {
      assert Wanted(n) * 8 <= INTMAX;
    } else {
      assert INTMAX < n * 8 <= UINT;
    }
  }

  lemma SbrkFails()
    ensures SbrkArg(NUnits(UINT - 8)) == 0 && SbrkArg(NUnits(INTMAX - 14)) == -INTMAX - 1
  {}

  /** A free block of at least n units. */
  ghost predicate HasBlock(h: HeapSpec.Heap, n: nat) { exists i: nat :: BigAt(h, i, n) }

  /** Wild: morecore goes on with memory that sbrk did not provide. */
  datatype More = Refused | Added | Wild

  datatype Grant = NoMemory | Block(ap: int) | Astray

  class Allocator {
    const base: int
    var mem: map<int, Header>
    /** Null until the first call of malloc. */
    var freep: Option<int>
    ghost var st: HeapSpec.Heap

    ghost predicate Inv()
      reads this
    {
      && freep.Some? && Valid(st) && st.base == base && st.mem == mem
      && st.at < |st.ring| && freep.value == st.ring[st.at]
    }

    /** Before the first malloc there is nothing to keep. */
    ghost predicate Unstarted()
      reads this
    {
      freep.None? && st == HeapSpec.Heap(base, map[], [], 0, {}, map[], map[])
    }

    constructor (base: int)
      ensures Unstarted() && this.base == base
    {
      this.base := base;
      mem := map[];
      freep := None;
      st := HeapSpec.Heap(base, map[], [], 0, {}, map[], map[]);
    }

    /** free(ap): the block before ap stops being live, its units stay with the allocator, and
        the ring stays ordered, circular and coalesced. */
    method Free(ap: int)
      requires Inv() && ap - 1 in st.live
      modifies this`mem, this`freep, this`st
      ensures Inv() && st.live == old(st.live) - {ap - 1} && st.owner.Keys == old(st.owner.Keys)
      ensures BigAt(st, st.at, old(st.live[ap - 1])) || BigAt(st, st.at + 1, old(st.live[ap - 1]))
    {
      hide Ring, Sizes, Tiled, Coalesced, Freed;
      var bp := ap - 1;
      LiveBlock(st, bp);
      ghost var k := FindPlace(st, bp);
      var p := freep.value;
      ghost var i: nat := st.at;
      RingStep(st, i);
      while !(bp > p && bp < mem[p].ptr)
        invariant i < |st.ring| && p == st.ring[i] && p in mem && mem[p].ptr == NextOf(st.ring, i)
        invariant Inv() && st == old(st)
        decreases if i <= k then k - i else |st.ring| - i + k
      {
        if p >= mem[p].ptr && (bp > p || bp < mem[p].ptr) {
          break;
        }
        NotPlace(st, bp, k, i);
        p := mem[p].ptr;
        i := if i + 1 < |st.ring| then i + 1 else 0;
        RingStep(st, i);
      }
      IsPlace(st, bp, k, i);
      Link(bp, p, k);
    }

    /** The pointer surgery of free, with p the ring entry below bp. */
    method Link(bp: int, p: int, ghost k: nat)
      requires Inv() && bp in st.live && PlaceOf(st, bp, k) && p == st.ring[k]
      modifies this`mem, this`freep, this`st
      ensures Inv() && st.live == old(st.live) - {bp} && st.owner.Keys == old(st.owner.Keys)
      ensures BigAt(st, st.at, old(st.live[bp])) || BigAt(st, st.at + 1, old(st.live[bp]))
    {
      hide Ring, Sizes, Tiled, Coalesced, Freed;
      ghost var h := st;
      LiveBlock(h, bp);
      FreedKeeps(h, bp, k);
      RingStep(h, k);
      NextInMem(h, k);
      FreedMem(h, bp, k);
      var nx := mem[p].ptr;
      if bp + mem[bp].size == nx {
        mem := mem[bp := Header(mem[nx].ptr, mem[bp].size + mem[nx].size)];
      } else {
        mem := mem[bp := Header(nx, mem[bp].size)];
      }
      if p + mem[p].size == bp {
        mem := mem[p := Header(mem[bp].ptr, mem[p].size + mem[bp].size)];
      } else {
        mem := mem[p := Header(bp, mem[p].size)];
      }
      freep := Some(p);
      st := Freed(h, bp, k);
    }

    /** morecore: ask sbrk for at least 4096 units and free them into the ring. brk is where sbrk
        puts new memory, None when it fails; a call that asks for nothing or less succeeds without
        providing any. */
    method Morecore(nu: nat, brk: Option<int>) returns (r: More)
      requires Inv() && nu >= 1 && (brk.Some? ==> Above(st, brk.value))
      modifies this`mem, this`freep, this`st
      ensures (r.Refused? <==> brk.None?) && (r.Wild? <==> brk.Some? && SbrkArg(nu) <= 0)
      ensures Inv() && st.live == old(st.live) && (!r.Added? ==> st == old(st) && freep == old(freep))
      ensures r.Added? ==> BigAt(st, st.at, nu) || BigAt(st, st.at + 1, nu)
      ensures r.Added? ==> st.owner.Keys == old(st.owner.Keys) + Range(brk.value, if nu < 4096 then 4096 else nu).Keys
    {
      hide Ring, Sizes, Tiled, Coalesced, Range;
      var n := if nu < 4096 then 4096 else nu;
      if brk.None? {
        return Refused;
      }
      if SbrkArg(nu) <= 0 {
        return Wild;
      }
      var hp := brk.value;
      GrownKeeps(st, hp, n, 0);
      mem := mem[hp := Header(0, n)];
      st := Grown(st, hp, n, 0);
      Free(hp + 1);
      return Added;
    }

    /** malloc: a block that was not live becomes live with NUnits(nbytes) units, overlapping no
        other block; nothing else changes hands, and at most one call of morecore is made. The caller
        gets a block if and only if a free one is large enough, in which case it is the end of the first
        such one and sbrk is not asked, or sbrk provides it; when sbrk succeeds,
        the block has nbytes bytes if and only if that is at most 2^31 - 16 or a free block was large
        enough for a request whose size does not wrap. */
    method Malloc(nbytes: nat, brk: Option<int>) returns (r: Grant)
      requires nbytes < UINT && (Inv() || Unstarted())
      requires brk.Some? ==> brk.value > base && forall u :: u in st.owner ==> u < brk.value
      modifies this`mem, this`freep, this`st
      ensures Inv()
      ensures r.Block? ==> r.ap - 1 !in old(st.live) && st.live == old(st.live)[r.ap - 1 := NUnits(nbytes)]
      ensures !r.Block? ==> st.live == old(st.live)
      ensures r.NoMemory? <==> brk.None? && !HasBlock(old(st), NUnits(nbytes))
      ensures r.Astray? <==> brk.Some? && SbrkArg(NUnits(nbytes)) <= 0 && !HasBlock(old(st), NUnits(nbytes))
      ensures brk.Some? ==> (r.Block? && (NUnits(nbytes) - 1) * 8 >= nbytes
        <==> nbytes <= INTMAX - 15 || (nbytes <= UINT - 8 && HasBlock(old(st), NUnits(nbytes))))
      ensures st.owner.Keys == old(st.owner.Keys) ||
        (r.Block? && brk.Some? && st.owner.Keys == old(st.owner.Keys) + Range(brk.value, Wanted(NUnits(nbytes))).Keys)
      ensures HasBlock(old(st), NUnits(nbytes)) ==> st.owner.Keys == old(st.owner.Keys) && r.Block? && FirstFit(old(st), NUnits(nbytes), r.ap - 1)
    {
      hide Ring, Sizes, Tiled, Coalesced, Range, SbrkArg, Wanted, NUnits, BigAt;
      if freep.None? {
        NoBlocks(st, NUnits(nbytes));
        mem := map[base := Header(base, 0)];
        freep := Some(base);
        st := HeapSpec.Heap(base, mem, [base], 0, {}, map[], map[]);
        FirstRing(st);
        NoBlocks(st, NUnits(nbytes));
      }
      RoomIff(nbytes);
      if nbytes <= UINT - 8 {
        SbrkIff(nbytes);
      }
      r := Search(NUnits(nbytes), brk);
    }

    /** The scan of malloc. */
    method Search(nunits: nat, brk: Option<int>) returns (r: Grant)
      requires Inv() && nunits >= 1 && (brk.Some? ==> Above(st, brk.value))
      modifies this`mem, this`freep, this`st
      ensures Inv()
      ensures r.Block? ==> r.ap - 1 !in old(st.live) && st.live == old(st.live)[r.ap - 1 := nunits]
      ensures !r.Block? ==> st.live == old(st.live)
      ensures r.NoMemory? <==> brk.None? && !HasBlock(old(st), nunits)
      ensures r.Astray? <==> brk.Some? && SbrkArg(nunits) <= 0 && !HasBlock(old(st), nunits)
      ensures st.owner.Keys == old(st.owner.Keys) ||
        (r.Block? && brk.Some? && st.owner.Keys == old(st.owner.Keys) + Range(brk.value, Wanted(nunits)).Keys)
      ensures HasBlock(old(st), nunits) ==> st.owner.Keys == old(st.owner.Keys) && r.Block? && FirstFit(old(st), nunits, r.ap - 1)
    {
      hide Ring, Sizes, Tiled, Coalesced, Range, SbrkArg, BigAt, SmallTo, HasBlock, Ahead, FirstFit;
      NoneYet(st, nunits);
      var prevp := freep.value;
      ghost var i: nat := st.at;
      RingStep(st, i);
      var p := mem[prevp].ptr;
      ghost var grown, goal: nat := false, 0;
      while true
        invariant Inv() && i < |st.ring| && prevp == st.ring[i] && p == NextOf(st.ring, i) && st.live == old(st.live)
        invariant !grown ==> st == old(st) && SmallTo(st, nunits, Ahead(|st.ring|, Succ(|st.ring|, st.at), Succ(|st.ring|, i)))
        invariant grown ==> BigAt(st, goal, nunits) && goal < |st.ring| && Ahead(|st.ring|, Succ(|st.ring|, i), goal) <= Ahead(|st.ring|, Succ(|st.ring|, i), st.at)
        invariant grown ==> !HasBlock(old(st), nunits) && brk.Some? && SbrkArg(nunits) > 0 && st.owner.Keys == old(st.owner.Keys) + Range(brk.value, Wanted(nunits)).Keys
        decreases !grown, Ahead(|st.ring|, Succ(|st.ring|, i), if grown then goal else st.at)
      {
        RingStep(st, i);
        RingStep(st, Succ(|st.ring|, i));
        IsBig(st, Succ(|st.ring|, i), nunits);
        if mem[p].size >= nunits {
          if !grown {
            Fits(st, nunits, Succ(|st.ring|, i));
          }
          var ap := Take(prevp, p, nunits, i);
          return Block(ap);
        }
        if p == freep.value {
          Distinct(st, Succ(|st.ring|, i), st.at);
          if grown {
            // the search found goal before coming back to freep
            Passed(|st.ring|, st.at, goal);
            assert false;
          }
          AllSmall(st, nunits, i);
          var more := Morecore(nunits, brk);
          if more.Refused? {
            return NoMemory;
          }
          if more.Wild? {
            return Astray;
          }
          p := freep.value;
          grown, i := true, st.at;
          goal := if BigAt(st, st.at, nunits) then st.at else st.at + 1;
          FirstBehind(st, goal, nunits);
          RingStep(st, i);
        } else {
          if grown {
            Nearer(|st.ring|, i, goal, st.at);
          } else {
            Distinct(st, Succ(|st.ring|, i), st.at);
            OneMoreSmall(st, nunits, i);
            Nearer(|st.ring|, i, st.at, st.at);
          }
          i := Succ(|st.ring|, i);
        }
        prevp := p;
        p := mem[p].ptr;
      }
    }

    /** Take nunits from the block p behind prevp. */
    method Take(prevp: int, p: int, nunits: nat, ghost i: nat) returns (ap: int)
      requires Inv() && i < |st.ring| && prevp == st.ring[i] && p == NextOf(st.ring, i) && p in mem && mem[p].size >= nunits >= 1
      modifies this`mem, this`freep, this`st
      ensures Inv() && ap - 1 !in old(st.live) && st.live == old(st.live)[ap - 1 := nunits]
      ensures ap - 1 + nunits == p + old(mem)[p].size
      ensures st.owner.Keys == old(st.owner.Keys)
    {
      hide Ring, Sizes, Tiled, Coalesced, Valid;
      NotBase(st, i, nunits);
      if mem[p].size == nunits {
        ap := TakeWhole(prevp, p, nunits, i);
      } else {
        ap := TakeTail(prevp, p, nunits, i);
      }
    }

    method TakeWhole(prevp: int, p: int, nunits: nat, ghost i: nat) returns (ap: int)
      requires Inv() && i + 1 < |st.ring| && prevp == st.ring[i] && p == st.ring[i + 1] && p in mem && mem[p].size == nunits >= 1
      modifies this`mem, this`freep, this`st
      ensures ap - 1 == p
      ensures Inv() && ap - 1 !in old(st.live) && st.live == old(st.live)[ap - 1 := nunits]
      ensures st.owner.Keys == old(st.owner.Keys)
    {
      hide Ring, Sizes, Tiled, Coalesced;
      RingStep(st, i);
      RingEntry(st, i + 1);
      UnlinkedKeeps(st, i + 1);
      FreeNotLive(st, p);
      SkipKeeps(st.ring, i + 1, i);
      mem := mem[prevp := Header(mem[p].ptr, mem[prevp].size)];
      freep := Some(prevp);
      st := Unlinked(st, i + 1);
      ap := p + 1;
    }

    method TakeTail(prevp: int, p: int, nunits: nat, ghost i: nat) returns (ap: int)
      requires Inv() && i + 1 < |st.ring| && prevp == st.ring[i] && p == st.ring[i + 1] && p in mem && mem[p].size > nunits >= 1
      modifies this`mem, this`freep, this`st
      ensures ap - 1 + nunits == p + old(mem)[p].size
      ensures Inv() && ap - 1 !in old(st.live) && st.live == old(st.live)[ap - 1 := nunits]
      ensures st.owner.Keys == old(st.owner.Keys)
    {
      hide Ring, Sizes, Tiled, Coalesced, Carved;
      var size := mem[p].size - nunits;
      var q := p + size;
      ghost var junk := if q in mem then mem[q].ptr else 0;
      SplitKeeps(st, i + 1, nunits, junk);
      FreeInMem(st, q);
      mem := mem[p := Header(mem[p].ptr, size)];
      mem := mem[q := Header(if q in mem then mem[q].ptr else 0, nunits)];
      freep := Some(prevp);
      st := SplitOff(st, i + 1, nunits, junk);
      ap := q + 1;
    }
  }

  /** A block with units is not base, so it is not the one that the ring ends on. */
  lemma NotBase(h: HeapSpec.Heap, i: nat, n: nat)
    requires Valid(h) && i < |h.ring| && n >= 1 && NextOf(h.ring, i) in h.mem && h.mem[NextOf(h.ring, i)].size >= n
    ensures i + 1 < |h.ring|
  {
    hide Sizes, Tiled, Coalesced;
    BaseEmpty(h);
  }

  /** Positions in the ring, counted around it. */
  function Succ(n: nat, i: nat): (j: nat) { if i + 1 < n then i + 1 else 0 }

  function Ahead(n: nat, j: nat, goal: nat): (d: int) { if j <= goal then goal - j else n - j + goal }

  lemma FirstBehind(h: HeapSpec.Heap, goal: nat, n: nat)
    requires h.at < |h.ring| && BigAt(h, goal, n) && (goal == h.at || goal == h.at + 1)
    ensures goal < |h.ring| && Ahead(|h.ring|, Succ(|h.ring|, h.at), goal) <= Ahead(|h.ring|, Succ(|h.ring|, h.at), h.at)
  {}

  lemma Passed(n: nat, at: nat, goal: nat)
    requires at < n && goal < n && goal != at
    ensures Ahead(n, at, goal) > Ahead(n, at, at)
  {}

  lemma Nearer(n: nat, i: nat, goal: nat, at: nat)
    requires i < n && goal < n && at < n && Succ(n, i) != goal && Succ(n, i) != at
    requires Ahead(n, Succ(n, i), goal) <= Ahead(n, Succ(n, i), at)
    ensures Ahead(n, Succ(n, Succ(n, i)), goal) <= Ahead(n, Succ(n, Succ(n, i)), at)
    ensures 0 <= Ahead(n, Succ(n, Succ(n, i)), goal) < Ahead(n, Succ(n, i), goal)
  {}

  /** None of the first d blocks behind freep has n units. */
  ghost predicate SmallTo(h: HeapSpec.Heap, n: nat, d: int) {
    forall j: nat :: j < |h.ring| && Ahead(|h.ring|, Succ(|h.ring|, h.at), j) < d ==> !BigAt(h, j, n)
  }

  /** a is the start of the last n units of the first block that is large enough, going round from
      behind freep. */
  ghost predicate FirstFit(h: HeapSpec.Heap, n: nat, a: int) {
    h.at < |h.ring| && exists j: nat :: FitsAt(h, n, a, j)
  }

  ghost predicate FitsAt(h: HeapSpec.Heap, n: nat, a: int, j: nat)
    requires h.at < |h.ring|
  {
    && BigAt(h, j, n) && SmallTo(h, n, Ahead(|h.ring|, Succ(|h.ring|, h.at), j))
    && h.ring[j] in h.mem && a + n == h.ring[j] + h.mem[h.ring[j]].size
  }

  lemma Fits(h: HeapSpec.Heap, n: nat, j: nat)
    requires h.at < |h.ring| && BigAt(h, j, n) && j < |h.ring| && SmallTo(h, n, Ahead(|h.ring|, Succ(|h.ring|, h.at), j)) && h.ring[j] in h.mem
    ensures forall a :: a + n == h.ring[j] + h.mem[h.ring[j]].size ==> FirstFit(h, n, a)
  {
    forall a | a + n == h.ring[j] + h.mem[h.ring[j]].size ensures FirstFit(h, n, a) {
      assert FitsAt(h, n, a, j);
    }
  }

  lemma OneMoreSmall(h: HeapSpec.Heap, n: nat, i: nat)
    requires h.at < |h.ring| && i < |h.ring| && Succ(|h.ring|, i) != h.at
    requires SmallTo(h, n, Ahead(|h.ring|, Succ(|h.ring|, h.at), Succ(|h.ring|, i))) && !BigAt(h, Succ(|h.ring|, i), n)
    ensures SmallTo(h, n, Ahead(|h.ring|, Succ(|h.ring|, h.at), Succ(|h.ring|, Succ(|h.ring|, i))))
  {
    hide BigAt;
    var m := |h.ring|;
    forall j: nat | j < m && Ahead(m, Succ(m, h.at), j) < Ahead(m, Succ(m, h.at), Succ(m, Succ(m, i))) ensures !BigAt(h, j, n) {
      if j != Succ(m, i) {
        assert Ahead(m, Succ(m, h.at), j) < Ahead(m, Succ(m, h.at), Succ(m, i));
      }
    }
  }

  lemma AllSmall(h: HeapSpec.Heap, n: nat, i: nat)
    requires h.at < |h.ring| && i < |h.ring| && Succ(|h.ring|, i) == h.at
    requires SmallTo(h, n, Ahead(|h.ring|, Succ(|h.ring|, h.at), Succ(|h.ring|, i))) && !BigAt(h, h.at, n)
    ensures !HasBlock(h, n)
  {
    var m := |h.ring|;
    forall j: nat | j < m ensures !BigAt(h, j, n) {
      if j != h.at {
        assert Ahead(m, Succ(m, h.at), j) < Ahead(m, Succ(m, h.at), h.at);
      }
    }
  }

  lemma IsBig(h: HeapSpec.Heap, j: nat, n: nat)
    requires Ring(h) && j < |h.ring| && n >= 1 && h.ring[j] in h.mem
    ensures BigAt(h, j, n) <==> h.mem[h.ring[j]].size >= n
    ensures BigAt(h, j, n) ==> HasBlock(h, n)
  {}

  lemma NoneYet(h: HeapSpec.Heap, n: nat)
    requires h.at < |h.ring|
    ensures SmallTo(h, n, Ahead(|h.ring|, Succ(|h.ring|, h.at), Succ(|h.ring|, h.at)))
  {}

  lemma NoBlocks(h: HeapSpec.Heap, n: nat)
    requires |h.ring| <= 1
    ensures !HasBlock(h, n)
  {}

  lemma FirstRing(h: HeapSpec.Heap)
    requires h == HeapSpec.Heap(h.base, map[h.base := Header(h.base, 0)], [h.base], 0, {}, map[], map[])
    ensures Valid(h)
  {}

  lemma Distinct(h: HeapSpec.Heap, i: nat, j: nat)
    requires Ring(h) && i < |h.ring| && j < |h.ring|
    ensures h.ring[i] == h.ring[j] <==> i == j
  {}

  lemma FreeNotLive(h: HeapSpec.Heap, p: int)
    requires Sizes(h) && p in h.free
    ensures p !in h.live
  {}

  lemma SkipKeeps(ring: seq<int>, k: nat, i: nat)
    requires i < k < |ring|
    ensures Skip(ring, k)[i] == ring[i]
  {}

  /** Every address above base has a place in the ring. */
  lemma {:induction false} FindPlace(h: HeapSpec.Heap, bp: int) returns (k: nat)
    requires Ring(h) && bp > h.base && bp !in h.free
    ensures PlaceOf(h, bp, k)
  {
    hide Ring;
    BaseEmpty(h);
    k := 0;
    while k + 1 < |h.ring| && h.ring[k + 1] < bp
      invariant k < |h.ring| && h.ring[k] < bp
    {
      k := k + 1;
    }
    if k + 1 < |h.ring| {
      RingEntry(h, k + 1);
    }
  }

  lemma IsPlace(h: HeapSpec.Heap, bp: int, k: nat, i: nat)
    requires Ring(h) && bp > h.base && PlaceOf(h, bp, k) && i < |h.ring|
    requires (bp > h.ring[i] && bp < NextOf(h.ring, i)) || (h.ring[i] >= NextOf(h.ring, i) && (bp > h.ring[i] || bp < NextOf(h.ring, i)))
    ensures i == k
  {}

  lemma NotPlace(h: HeapSpec.Heap, bp: int, k: nat, i: nat)
    requires Ring(h) && bp > h.base && PlaceOf(h, bp, k) && i < |h.ring|
    requires !(bp > h.ring[i] && bp < NextOf(h.ring, i))
    requires !(h.ring[i] >= NextOf(h.ring, i) && (bp > h.ring[i] || bp < NextOf(h.ring, i)))
    ensures i != k
  {}

  lemma NextInMem(h: HeapSpec.Heap, k: nat)
    requires Ring(h) && k < |h.ring|
    ensures NextOf(h.ring, k) in h.mem
  {}

  /** The headers that free leaves behind are those of Freed, and freep is still in the ring. */
  lemma FreedMem(h: HeapSpec.Heap, bp: int, k: nat)
    requires Valid(h) && bp in h.live && PlaceOf(h, bp, k)
    ensures bp in h.mem && bp !in h.free && h.ring[k] in h.mem && NextOf(h.ring, k) in h.mem
    ensures var p, nx := h.ring[k], NextOf(h.ring, k);
      var b' := if bp + h.mem[bp].size == nx then Header(h.mem[nx].ptr, h.mem[bp].size + h.mem[nx].size) else Header(nx, h.mem[bp].size);
      var p' := if p + h.mem[p].size == bp then Header(b'.ptr, h.mem[p].size + b'.size) else Header(bp, h.mem[p].size);
      && Freed(h, bp, k).mem == h.mem[bp := b'][p := p']
      && k < |Freed(h, bp, k).ring| && Freed(h, bp, k).ring[k] == p
  {
    hide Sizes, Tiled, Coalesced, Ring, With, Skip, Ascending;
    LiveBlock(h, bp);
    RingStep(h, k);
    NextInMem(h, k);
    InsertedRing(h, bp, k);
    UpperMem(h, bp, k);
    BaseEmpty(h);
    var r2 := JoinUpper(Inserted(h, bp, k), k);
    LowerMem(r2, k);
  }

  lemma BaseEmpty(h: HeapSpec.Heap)
    requires Ring(h)
    ensures 0 < |h.ring| && h.ring[0] == h.base && h.base in h.mem && h.mem[h.base].size == 0
  {}

  lemma UpperMem(h: HeapSpec.Heap, bp: int, k: nat)
    requires Ring(h) && bp in h.mem && bp !in h.free && bp > h.base && PlaceOf(h, bp, k)
    ensures Ring(Inserted(h, bp, k)) && h.ring[k] in h.mem && NextOf(h.ring, k) in h.mem
    ensures var p, nx := h.ring[k], NextOf(h.ring, k);
      var b' := if bp + h.mem[bp].size == nx then Header(h.mem[nx].ptr, h.mem[bp].size + h.mem[nx].size) else Header(nx, h.mem[bp].size);
      var r := JoinUpper(Inserted(h, bp, k), k);
      && r.mem == h.mem[bp := b'][p := Header(bp, h.mem[p].size)]
      && k + 1 < |r.ring| && r.ring[k] == p && r.ring[k + 1] == bp
  {
    hide With, Skip, Ring, Ascending;
    RingStep(h, k);
    NextInMem(h, k);
    BaseEmpty(h);
    InsertedRing(h, bp, k);
    var r1 := Inserted(h, bp, k);
    assert r1.ring[k] == h.ring[k] && r1.ring[k + 1] == bp;
    if k + 2 < |r1.ring| {
      assert r1.ring[k + 2] == NextOf(h.ring, k);
    }
  }

  lemma LowerMem(h: HeapSpec.Heap, k: nat)
    requires Ring(h) && h.at == k && k + 1 < |h.ring|
    ensures h.ring[k] in h.mem && h.ring[k + 1] in h.mem
    ensures var p, q := h.ring[k], h.ring[k + 1];
      var p' := if p + h.mem[p].size == q then Header(h.mem[q].ptr, h.mem[p].size + h.mem[q].size) else h.mem[p];
      && JoinLower(h, k).mem == h.mem[p := p']
      && k < |JoinLower(h, k).ring| && JoinLower(h, k).ring[k] == p
  {
    hide Ring, Skip, Reowned;
    Neighbours(h, k);
  }

  lemma Neighbours(h: HeapSpec.Heap, k: nat)
    requires Ring(h) && k + 1 < |h.ring|
    ensures h.ring[k] in h.mem && h.ring[k + 1] in h.mem && h.ring[k] < h.ring[k + 1]
    ensures k == 0 ==> h.mem[h.ring[k]].size == 0
  {}
}
