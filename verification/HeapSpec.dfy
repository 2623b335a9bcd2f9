/** umalloc.c as a value. Addresses count 8-byte header units. The free blocks form a ring in
    address order that starts at base; owner says, for every unit obtained from sbrk, which block
    (free or live) it belongs to. */
module HeapSpec {

  datatype Header = Header(ptr: int, size: nat)

  /** at is the ring position of freep; free holds the ring's entries other than base. */
  datatype Heap = Heap(base: int, mem: map<int, Header>, ring: seq<int>, at: nat,
                       free: set<int>, live: map<int, nat>, owner: map<int, int>)

  function NextOf(ring: seq<int>, i: nat): (a: int)
    requires i < |ring|
  {
    if i + 1 < |ring| then ring[i + 1] else ring[0]
  }

  ghost predicate Ascending(ring: seq<int>) { forall i, j :: 0 <= i < j < |ring| ==> ring[i] < ring[j] }

  /** The ring: base first with size 0, strictly ascending addresses, each header pointing to the
      next and the last one back to base; no free block is missing from it. */
  ghost predicate Ring(h: Heap) {
    && 0 < |h.ring| && h.ring[0] == h.base && Ascending(h.ring) && h.at < |h.ring|
    && (forall i :: 0 <= i < |h.ring| ==> h.ring[i] in h.mem && h.mem[h.ring[i]].ptr == NextOf(h.ring, i))
    && (forall i :: 1 <= i < |h.ring| ==> h.ring[i] in h.free)
    && |h.free| == |h.ring| - 1
    && h.mem[h.base].size == 0
  }

  /** Every block has a header with its size, lies above base, and is free or live, not both. */
  ghost predicate Sizes(h: Heap) {
    && (forall a :: a in h.live ==> a in h.mem && h.mem[a].size == h.live[a])
    && (forall a :: a in h.free ==> a in h.mem && a !in h.live)
    && (forall a :: IsBlock(h, a) ==> a > h.base && h.mem[a].size >= 1)
  }

  ghost predicate IsBlock(h: Heap, a: int) { a in h.mem && (a in h.free || a in h.live) }

  ghost predicate Covers(h: Heap, a: int) {
    a in h.mem && forall u :: a <= u < a + h.mem[a].size ==> u in h.owner && h.owner[u] == a
  }

  /** Blocks never overlap, and together they are exactly the units obtained. */
  ghost predicate Tiled(h: Heap) {
    && (forall u :: u in h.owner ==> IsBlock(h, h.owner[u]) && h.owner[u] <= u < h.owner[u] + h.mem[h.owner[u]].size)
    && (forall a :: IsBlock(h, a) ==> Covers(h, a))
  }

  /** No two neighbouring free blocks touch, except possibly at the positions in open. */
  ghost predicate Coalesced(h: Heap, open: set<nat>)
    requires Ring(h)
  {
    forall i :: 1 <= i < |h.ring| - 1 && i !in open ==> h.ring[i] + h.mem[h.ring[i]].size < h.ring[i + 1]
  }

  ghost predicate Loose(h: Heap) { Ring(h) && Sizes(h) && Tiled(h) }

  ghost predicate Valid(h: Heap) { Loose(h) && Coalesced(h, {}) }

  /** Two blocks in address order do not overlap. */
  lemma BlocksApart(h: Heap, a: int, b: int)
    requires Sizes(h) && Tiled(h) && IsBlock(h, a) && IsBlock(h, b) && a < b
    ensures a + h.mem[a].size <= b
  {
    assert Covers(h, a) && Covers(h, b);
    assert h.owner[b] == b;
  }

  // ---------------------------------------------------------------- freeing

  function With(ring: seq<int>, k: nat, a: int): (r: seq<int>)
    requires k < |ring|
    ensures |r| == |ring| + 1 && r[k + 1] == a
    ensures (forall i :: 0 <= i <= k ==> r[i] == ring[i]) && (forall i :: k + 1 < i < |r| ==> r[i] == ring[i - 1])
  {
    ring[..k + 1] + [a] + ring[k + 1..]
  }

  function Skip(ring: seq<int>, k: nat): (r: seq<int>)
    requires k < |ring|
    ensures |r| == |ring| - 1
    ensures (forall i :: 0 <= i < k ==> r[i] == ring[i]) && (forall i :: k <= i < |r| ==> r[i] == ring[i + 1])
  {
    ring[..k] + ring[k + 1..]
  }

  /** A live block joins the ring behind position k. */
  ghost function Inserted(h: Heap, bp: int, k: nat): (r: Heap)
    requires k < |h.ring| && bp in h.mem && h.ring[k] in h.mem
  {
    Heap(h.base, h.mem[bp := Header(h.mem[h.ring[k]].ptr, h.mem[bp].size)][h.ring[k] := Header(bp, h.mem[h.ring[k]].size)],
         With(h.ring, k, bp), k, h.free + {bp}, h.live - {bp}, h.owner)
  }

  /** The units of block q now belong to block p. */
  ghost function Reowned(owner: map<int, int>, q: int, p: int): (r: map<int, int>)
    ensures r.Keys == owner.Keys
    ensures forall u :: u in owner ==> (owner[u] == q ==> r[u] == p) && (owner[u] != q ==> r[u] == owner[u])
  {
    map u | u in owner :: if owner[u] == q then p else owner[u]
  }

  /** Position k absorbs its neighbour. */
  ghost function Merged(h: Heap, k: nat): (r: Heap)
    requires k + 1 < |h.ring| && h.ring[k] in h.mem && h.ring[k + 1] in h.mem
  {
    Heap(h.base, h.mem[h.ring[k] := Header(h.mem[h.ring[k + 1]].ptr, h.mem[h.ring[k]].size + h.mem[h.ring[k + 1]].size)],
         Skip(h.ring, k + 1), h.at, h.free - {h.ring[k + 1]}, h.live, Reowned(h.owner, h.ring[k + 1], h.ring[k]))
  }

  /** Where free puts a block: behind the last ring entry below it. */
  ghost predicate PlaceOf(h: Heap, bp: int, k: nat) {
    && k < |h.ring| && h.ring[k] < bp && (k + 1 < |h.ring| ==> bp < h.ring[k + 1])
  }

  /** Entry i of the ring after an insertion. */
  lemma InsertedAt(h: Heap, bp: int, k: nat, i: nat)
    requires Ring(h) && bp in h.mem && PlaceOf(h, bp, k) && i <= |h.ring|
    ensures var r := Inserted(h, bp, k);
      && r.ring[i] in r.mem && r.mem[r.ring[i]].ptr == NextOf(r.ring, i)
      && r.mem[r.ring[i]].size == h.mem[r.ring[i]].size
  {
    hide With, Ring;
    PlaceNotOn(h, bp, k, k);
    PlaceNotOn(h, bp, k, if i <= k then i else i - 1);
  }

  lemma PlaceNotOn(h: Heap, bp: int, k: nat, j: nat)
    requires Ring(h) && PlaceOf(h, bp, k) && j < |h.ring|
    ensures h.ring[j] in h.mem && h.mem[h.ring[j]].ptr == NextOf(h.ring, j)
    ensures h.ring[j] != bp && (h.ring[j] == h.ring[k] ==> j == k)
  {}

  lemma InsertedOrder(ring: seq<int>, bp: int, k: nat)
    requires Ascending(ring) && k < |ring| && ring[k] < bp && (k + 1 < |ring| ==> bp < ring[k + 1])
    ensures Ascending(With(ring, k, bp))
  {
    hide With;
  }

  lemma InsertedRing(h: Heap, bp: int, k: nat)
    requires Ring(h) && bp in h.mem && bp !in h.free && PlaceOf(h, bp, k)
    ensures Ring(Inserted(h, bp, k))
  {
    hide With, NextOf;
    var r := Inserted(h, bp, k);
    forall i | 0 <= i < |r.ring|
      ensures r.ring[i] in r.mem && r.mem[r.ring[i]].ptr == NextOf(r.ring, i) && r.mem[r.ring[i]].size == h.mem[r.ring[i]].size
    {
      InsertedAt(h, bp, k, i);
    }
    InsertedOrder(h.ring, bp, k);
    hide Ascending;
  }

  lemma InsertedGap(h: Heap, bp: int, k: nat, i: nat)
    requires Ring(h) && Coalesced(h, {}) && bp in h.mem && PlaceOf(h, bp, k)
    requires 1 <= i < |h.ring| && i != k && i != k + 1
    ensures var r := Inserted(h, bp, k);
      r.ring[i] in r.mem && r.ring[i] + r.mem[r.ring[i]].size < r.ring[i + 1]
  {
    InsertedAt(h, bp, k, i);
    hide With, Ring;
    var j := if i <= k then i else i - 1;
    assert h.ring[j] + h.mem[h.ring[j]].size < h.ring[j + 1];
  }

  lemma InsertedTiled(h: Heap, r: Heap, bp: int, p: int)
    requires Sizes(h) && Tiled(h) && bp in h.live && p in h.mem && p != bp
    requires r.base == h.base && r.free == h.free + {bp} && r.live == h.live - {bp} && r.owner == h.owner
    requires r.mem == h.mem[bp := Header(h.mem[p].ptr, h.mem[bp].size)][p := Header(bp, h.mem[p].size)]
    ensures Sizes(r) && Tiled(r)
  {
    assert forall a :: IsBlock(r, a) <==> IsBlock(h, a);
    assert forall a :: IsBlock(h, a) ==> r.mem[a].size == h.mem[a].size;
    forall a | IsBlock(r, a) ensures Covers(r, a) {
      assert Covers(h, a);
    }
  }

  lemma NotEntry(h: Heap, bp: int, k: nat)
    requires Ring(h) && bp > h.base && bp !in h.free && k < |h.ring|
    ensures h.ring[k] != bp
  {}

  lemma InsertedKeeps(h: Heap, bp: int, k: nat)
    requires Valid(h) && bp in h.live && PlaceOf(h, bp, k)
    ensures Loose(Inserted(h, bp, k)) && Coalesced(Inserted(h, bp, k), {k, k + 1})
  {
    hide With, Tiled, Sizes, Ring;
    LiveBlock(h, bp);
    RingStep(h, k);
    var r := Inserted(h, bp, k);
    InsertedRing(h, bp, k);
    NotEntry(h, bp, k);
    InsertedTiled(h, r, bp, h.ring[k]);
    forall i | 1 <= i < |r.ring| - 1 && i !in {k, k + 1}
      ensures r.ring[i] in r.mem && r.ring[i] + r.mem[r.ring[i]].size < r.ring[i + 1]
    {
      InsertedGap(h, bp, k, i);
    }
  }

  /** Entry i of the ring after a merge. */
  lemma MergedAt(h: Heap, k: nat, i: nat)
    requires Ring(h) && 1 <= k && k + 1 < |h.ring| && i < |h.ring| - 1
    ensures var r := Merged(h, k);
      && r.ring[i] in r.mem && r.mem[r.ring[i]].ptr == NextOf(r.ring, i)
      && (i <= k ==> r.ring[i] == h.ring[i]) && (i > k ==> r.ring[i] == h.ring[i + 1])
      && (i == k ==> r.mem[r.ring[i]].size == h.mem[h.ring[k]].size + h.mem[h.ring[k + 1]].size)
      && (i != k ==> r.mem[r.ring[i]].size == h.mem[r.ring[i]].size)
  {
    hide Skip;
    var j := if i <= k then i else i + 1;
    assert h.mem[h.ring[j]].ptr == NextOf(h.ring, j) && h.mem[h.ring[k + 1]].ptr == NextOf(h.ring, k + 1);
    assert h.ring[j] == h.ring[k] ==> j == k;
  }

  lemma SkipOrder(ring: seq<int>, k: nat)
    requires Ascending(ring) && k < |ring|
    ensures Ascending(Skip(ring, k))
    ensures forall i :: 0 <= i < |ring| - 1 ==> Skip(ring, k)[i] != ring[k]
  {
    hide Skip;
  }

  lemma MergedRing(h: Heap, k: nat)
    requires Ring(h) && 1 <= k && k + 1 < |h.ring| && h.at <= k
    ensures Ring(Merged(h, k))
  {
    hide NextOf, Skip;
    var r := Merged(h, k);
    SkipOrder(h.ring, k + 1);
    forall i | 0 <= i < |r.ring| ensures r.ring[i] in r.mem && r.mem[r.ring[i]].ptr == NextOf(r.ring, i) && (i > 0 ==> r.ring[i] in r.free) {
      MergedAt(h, k, i);
    }
    assert h.ring[0] < h.ring[k];
    assert h.ring[k + 1] in h.free;
    hide Ascending;
  }

  lemma MergedTiled(h: Heap, r: Heap, p: int, q: int)
    requires Tiled(h) && Sizes(h) && p in h.free && q in h.free && p != q && p + h.mem[p].size == q
    requires r.mem == h.mem[p := Header(h.mem[q].ptr, h.mem[p].size + h.mem[q].size)]
    requires r.owner == Reowned(h.owner, q, p)
    requires r.base == h.base && r.live == h.live && r.free == h.free - {q}
    ensures Sizes(r) && Tiled(r)
  {
    hide Reowned, Covers;
    MergedSizes(h, r, p, q);
    forall a | IsBlock(r, a) ensures Covers(r, a) {
      MergedCovers(h, r, p, q, a);
    }
    hide Sizes;
    forall u | u in r.owner ensures IsBlock(r, r.owner[u]) && r.owner[u] <= u < r.owner[u] + r.mem[r.owner[u]].size {
      assert IsBlock(h, h.owner[u]);
    }
  }

  lemma MergedSizes(h: Heap, r: Heap, p: int, q: int)
    requires Sizes(h) && p in h.free && q in h.free
    requires r.mem == h.mem[p := Header(h.mem[q].ptr, h.mem[p].size + h.mem[q].size)]
    requires r.base == h.base && r.live == h.live && r.free == h.free - {q}
    ensures Sizes(r)
  {}

  lemma MergedCovers(h: Heap, r: Heap, p: int, q: int, a: int)
    requires Tiled(h) && IsBlock(h, p) && IsBlock(h, q) && p != q && p + h.mem[p].size == q
    requires r.mem == h.mem[p := Header(h.mem[q].ptr, h.mem[p].size + h.mem[q].size)]
    requires r.owner == Reowned(h.owner, q, p)
    requires IsBlock(h, a) && a != q
    ensures Covers(r, a)
  {
    hide Reowned;
    assert Covers(h, a) && Covers(h, p) && Covers(h, q);
  }

  /** Merging position k with its neighbour settles position k. */
  lemma MergedKeeps(h: Heap, k: nat, open: set<nat>)
    requires Loose(h) && 1 <= k && k + 1 < |h.ring| && h.at <= k && h.ring[k] + h.mem[h.ring[k]].size == h.ring[k + 1]
    requires Coalesced(h, open) && k in open && (forall i :: i in open ==> i <= k)
    requires k + 2 < |h.ring| ==> h.ring[k + 1] + h.mem[h.ring[k + 1]].size < h.ring[k + 2]
    ensures Loose(Merged(h, k)) && Coalesced(Merged(h, k), open - {k})
  {
    hide Ring, Ascending, Skip, Tiled, Sizes, Reowned;
    RingEntry(h, k);
    RingEntry(h, k + 1);
    var r := Merged(h, k);
    MergedRing(h, k);
    MergedTiled(h, r, h.ring[k], h.ring[k + 1]);
    forall i | 1 <= i < |r.ring| - 1 && i !in open - {k} ensures r.ring[i] in r.mem && r.ring[i] + r.mem[r.ring[i]].size < r.ring[i + 1] {
      MergedGap(h, k, open, i);
    }
  }

  lemma RingEntry(h: Heap, k: nat)
    requires Ring(h) && 1 <= k < |h.ring|
    ensures h.ring[k] in h.mem && h.ring[k] in h.free && h.base < h.ring[k]
    ensures k + 1 < |h.ring| ==> h.ring[k] < h.ring[k + 1]
    ensures h.mem[h.ring[k]].ptr == NextOf(h.ring, k)
  {}

  lemma MergedGap(h: Heap, k: nat, open: set<nat>, i: nat)
    requires Ring(h) && 1 <= k && k + 1 < |h.ring| && h.ring[k] + h.mem[h.ring[k]].size == h.ring[k + 1]
    requires Coalesced(h, open) && (forall i :: i in open ==> i <= k)
    requires k + 2 < |h.ring| ==> h.ring[k + 1] + h.mem[h.ring[k + 1]].size < h.ring[k + 2]
    requires 1 <= i < |h.ring| - 2 && i !in open - {k}
    ensures var r := Merged(h, k); r.ring[i] in r.mem && r.ring[i] + r.mem[r.ring[i]].size < r.ring[i + 1]
  {
    MergedAt(h, k, i);
    MergedAt(h, k, i + 1);
    hide Skip, Ring, Reowned;
  }

  /** free: insert behind position k, then join with the upper and the lower neighbour. */
  ghost function Freed(h: Heap, bp: int, k: nat): (r: Heap)
    requires Ring(h) && bp in h.mem && bp !in h.free && PlaceOf(h, bp, k)
  {
    InsertedRing(h, bp, k);
    JoinLower(JoinUpper(Inserted(h, bp, k), k), k)
  }

  ghost function JoinUpper(h: Heap, k: nat): (r: Heap)
    requires Ring(h) && h.at == k
    ensures Ring(r) && r.at == k
  {
    if k + 2 < |h.ring| && h.ring[k + 1] + h.mem[h.ring[k + 1]].size == h.ring[k + 2] then
      MergedRing(h, k + 1);
      Merged(h, k + 1)
    else h
  }

  ghost function JoinLower(h: Heap, k: nat): (r: Heap)
    requires Ring(h) && h.at == k
    ensures Ring(r) && r.at == k
  {
    if 1 <= k < |h.ring| - 1 && h.ring[k] + h.mem[h.ring[k]].size == h.ring[k + 1] then
      MergedRing(h, k);
      Merged(h, k)
    else h
  }

  /** Ring position i holds a block of at least n units. */
  ghost predicate BigAt(h: Heap, i: nat, n: nat) {
    1 <= i < |h.ring| && h.ring[i] in h.mem && h.mem[h.ring[i]].size >= n
  }

  ghost predicate SameUnits(h: Heap, r: Heap) {
    r.base == h.base && r.live == h.live && r.owner.Keys == h.owner.Keys
  }

  lemma JoinUpperKeeps(h: Heap, k: nat, n: nat)
    requires Loose(h) && Coalesced(h, {k, k + 1}) && h.at == k && BigAt(h, k + 1, n)
    ensures Loose(JoinUpper(h, k)) && Coalesced(JoinUpper(h, k), {k}) && SameUnits(h, JoinUpper(h, k))
    ensures BigAt(JoinUpper(h, k), k + 1, n)
  {
    hide Ring, Ascending, Skip, Tiled, Sizes, Reowned;
    RingEntry(h, k + 1);
    if k + 2 < |h.ring| && h.ring[k + 1] + h.mem[h.ring[k + 1]].size == h.ring[k + 2] {
      MergedKeeps(h, k + 1, {k, k + 1});
      MergedAt(h, k + 1, k + 1);
      RingEntry(h, k + 2);
      assert BigAt(Merged(h, k + 1), k + 1, n);
      assert {k, k + 1} - {k + 1} == {k};
    } else {
      NotAdjacent(h, k + 1);
    }
  }

  lemma JoinLowerKeeps(h: Heap, k: nat, n: nat)
    requires Loose(h) && Coalesced(h, {k}) && h.at == k && BigAt(h, k + 1, n)
    ensures Valid(JoinLower(h, k)) && SameUnits(h, JoinLower(h, k))
    ensures BigAt(JoinLower(h, k), k, n) || BigAt(JoinLower(h, k), k + 1, n)
  {
    hide Ring, Ascending, Skip, Tiled, Sizes, Reowned;
    if k >= 1 {
      RingEntry(h, k);
    }
    if 1 <= k && h.ring[k] + h.mem[h.ring[k]].size == h.ring[k + 1] {
      MergedKeeps(h, k, {k});
      MergedAt(h, k, k);
    } else {
      NotAdjacent(h, k);
    }
  }

  lemma FreedKeeps(h: Heap, bp: int, k: nat)
    requires Valid(h) && bp in h.live && PlaceOf(h, bp, k)
    ensures bp in h.mem && bp !in h.free
    ensures var r := Freed(h, bp, k);
      && Valid(r) && r.base == h.base && r.live == h.live - {bp} && r.owner.Keys == h.owner.Keys && r.at == k
      && (BigAt(r, k, h.mem[bp].size) || BigAt(r, k + 1, h.mem[bp].size))
  {
    LiveBlock(h, bp);
    hide Ring, Sizes, Tiled;
    InsertedKeeps(h, bp, k);
    var r1 := Inserted(h, bp, k);
    InsertedBig(h, bp, k);
    JoinUpperKeeps(r1, k, h.mem[bp].size);
    JoinLowerKeeps(JoinUpper(r1, k), k, h.mem[bp].size);
  }

  lemma LiveBlock(h: Heap, bp: int)
    requires Sizes(h) && bp in h.live
    ensures bp in h.mem && bp !in h.free && h.mem[bp].size == h.live[bp] >= 1 && bp > h.base
  {
    assert IsBlock(h, bp);
  }

  lemma InsertedBig(h: Heap, bp: int, k: nat)
    requires Ring(h) && bp in h.mem && PlaceOf(h, bp, k)
    ensures BigAt(Inserted(h, bp, k), k + 1, h.mem[bp].size) && Inserted(h, bp, k).at == k
  {
    InsertedAt(h, bp, k, k + 1);
  }

  lemma NotAdjacent(h: Heap, k: nat)
    requires Loose(h) && k < |h.ring|
    requires k >= 1 && k + 1 < |h.ring| ==> h.ring[k] + h.mem[h.ring[k]].size != h.ring[k + 1]
    ensures k >= 1 && k + 1 < |h.ring| ==> h.ring[k] + h.mem[h.ring[k]].size < h.ring[k + 1]
  {
    hide Tiled, Sizes;
    if k >= 1 && k + 1 < |h.ring| {
      BlocksApart(h, h.ring[k], h.ring[k + 1]);
    }
  }

  // ---------------------------------------------------------------- allocating

  /** malloc takes a whole block off the ring. */
  ghost function Unlinked(h: Heap, k: nat): (r: Heap)
    requires 1 <= k < |h.ring| && h.ring[k - 1] in h.mem && h.ring[k] in h.mem
  {
    Heap(h.base, h.mem[h.ring[k - 1] := Header(h.mem[h.ring[k]].ptr, h.mem[h.ring[k - 1]].size)],
         Skip(h.ring, k), k - 1, h.free - {h.ring[k]}, h.live[h.ring[k] := h.mem[h.ring[k]].size], h.owner)
  }

  lemma UnlinkedAt(h: Heap, k: nat, i: nat)
    requires Ring(h) && 1 <= k < |h.ring| && i < |h.ring| - 1
    ensures var r := Unlinked(h, k);
      && r.ring[i] in r.mem && r.mem[r.ring[i]].ptr == NextOf(r.ring, i)
      && (i < k ==> r.ring[i] == h.ring[i]) && (i >= k ==> r.ring[i] == h.ring[i + 1])
      && r.mem[r.ring[i]].size == h.mem[r.ring[i]].size
  {
    hide Skip;
    var j := if i < k then i else i + 1;
    assert h.mem[h.ring[j]].ptr == NextOf(h.ring, j) && h.mem[h.ring[k]].ptr == NextOf(h.ring, k);
    assert h.ring[j] == h.ring[k - 1] ==> j == k - 1;
  }

  lemma UnlinkedRing(h: Heap, k: nat)
    requires Ring(h) && 1 <= k < |h.ring|
    ensures Ring(Unlinked(h, k))
  {
    hide NextOf, Skip;
    var r := Unlinked(h, k);
    SkipOrder(h.ring, k);
    forall i | 0 <= i < |r.ring| ensures r.ring[i] in r.mem && r.mem[r.ring[i]].ptr == NextOf(r.ring, i) && (i > 0 ==> r.ring[i] in r.free) {
      UnlinkedAt(h, k, i);
    }
    assert h.ring[k] in h.free;
    hide Ascending;
  }

  lemma UnlinkedTiled(h: Heap, r: Heap, p: int, q: int)
    requires Tiled(h) && Sizes(h) && p in h.mem && q in h.free && p != q
    requires r.mem == h.mem[p := Header(h.mem[q].ptr, h.mem[p].size)]
    requires r.base == h.base && r.live == h.live[q := h.mem[q].size] && r.free == h.free - {q} && r.owner == h.owner
    ensures Sizes(r) && Tiled(r)
  {
    assert forall a :: IsBlock(r, a) <==> IsBlock(h, a);
    forall a | IsBlock(r, a) ensures Covers(r, a) {
      assert Covers(h, a);
    }
  }

  lemma UnlinkedKeeps(h: Heap, k: nat)
    requires Valid(h) && 1 <= k < |h.ring|
    ensures h.ring[k - 1] in h.mem && h.ring[k] in h.mem && h.ring[k] in h.free && Valid(Unlinked(h, k))
  {
    hide Ring, Ascending, Skip, Tiled, Sizes;
    RingEntry(h, k);
    RingStep(h, k - 1);
    UnlinkedRing(h, k);
    var r := Unlinked(h, k);
    UnlinkedTiled(h, r, h.ring[k - 1], h.ring[k]);
    forall i | 1 <= i < |r.ring| - 1 ensures r.ring[i] in r.mem && r.ring[i] + r.mem[r.ring[i]].size < r.ring[i + 1] {
      UnlinkedGap(h, k, i);
    }
  }

  lemma RingStep(h: Heap, k: nat)
    requires Ring(h) && k < |h.ring|
    ensures h.ring[k] in h.mem && h.mem[h.ring[k]].ptr == NextOf(h.ring, k) && (k + 1 < |h.ring| ==> h.ring[k] < h.ring[k + 1])
    ensures h.base <= h.ring[k]
  {}

  lemma UnlinkedGap(h: Heap, k: nat, i: nat)
    requires Valid(h) && 1 <= k < |h.ring| && 1 <= i < |h.ring| - 2
    ensures var r := Unlinked(h, k); r.ring[i] in r.mem && r.ring[i] + r.mem[r.ring[i]].size < r.ring[i + 1]
  {
    UnlinkedAt(h, k, i);
    UnlinkedAt(h, k, i + 1);
    hide Skip, Tiled, Sizes;
    if i == k - 1 {
      assert h.ring[i] + h.mem[h.ring[i]].size < h.ring[i + 1] < h.ring[i + 2];
    }
  }

  /** The units from q on of block p now belong to block q. */
  ghost function Carved(owner: map<int, int>, p: int, q: int): (r: map<int, int>)
    ensures r.Keys == owner.Keys
    ensures forall u :: u in owner ==> (owner[u] == p && u >= q ==> r[u] == q) && (!(owner[u] == p && u >= q) ==> r[u] == owner[u])
  {
    map u | u in owner :: if owner[u] == p && u >= q then q else owner[u]
  }

  /** malloc cuts n units off the end of the block at position k; junk is what the cut-off
      header's pointer happens to hold. */
  ghost function SplitOff(h: Heap, k: nat, n: nat, junk: int): (r: Heap)
    requires 1 <= k < |h.ring| && h.ring[k] in h.mem && n < h.mem[h.ring[k]].size
  {
    var p, size := h.ring[k], h.mem[h.ring[k]].size - n;
    Heap(h.base, h.mem[p := Header(h.mem[p].ptr, size)][p + size := Header(junk, n)],
         h.ring, k - 1, h.free, h.live[p + size := n], Carved(h.owner, p, p + size))
  }

  /** What splitting n units off the end of the free block p does, except to the ring. */
  ghost predicate Splits(h: Heap, r: Heap, p: int, q: int, n: nat, junk: int) {
    && p in h.free && p in h.mem && 0 < n < h.mem[p].size && q == p + h.mem[p].size - n
    && r.mem == h.mem[p := Header(h.mem[p].ptr, h.mem[p].size - n)][q := Header(junk, n)]
    && r.base == h.base && r.live == h.live[q := n] && r.free == h.free && r.owner == Carved(h.owner, p, q)
  }

  lemma SplitNew(h: Heap, p: int, q: int)
    requires Tiled(h) && Sizes(h) && p in h.free && p in h.mem && p < q < p + h.mem[p].size
    ensures !IsBlock(h, q) && q > h.base && q in h.owner && h.owner[q] == p
  {
    assert IsBlock(h, p) && Covers(h, p);
    assert h.owner[q] == p;
    assert IsBlock(h, q) ==> Covers(h, q);
  }

  lemma SplitSizes(h: Heap, r: Heap, p: int, q: int, n: nat, junk: int)
    requires Sizes(h) && Splits(h, r, p, q, n, junk) && !IsBlock(h, q) && q > h.base
    ensures Sizes(r)
  {
    hide Carved;
  }

  lemma SplitCovers(h: Heap, r: Heap, p: int, q: int, n: nat, junk: int, a: int)
    requires Tiled(h) && Sizes(h) && Splits(h, r, p, q, n, junk) && !IsBlock(h, q) && IsBlock(r, a)
    ensures Covers(r, a)
  {
    assert IsBlock(h, p) && Covers(h, p);
    if a != q {
      assert IsBlock(h, a) && Covers(h, a);
    }
  }

  lemma SplitOwner(h: Heap, r: Heap, p: int, q: int, n: nat, junk: int, u: int)
    requires Tiled(h) && Splits(h, r, p, q, n, junk) && !IsBlock(h, q) && u in r.owner
    ensures IsBlock(r, r.owner[u]) && r.owner[u] <= u < r.owner[u] + r.mem[r.owner[u]].size
  {
    assert IsBlock(h, h.owner[u]);
  }

  lemma SplitTiled(h: Heap, r: Heap, p: int, q: int, n: nat, junk: int)
    requires Tiled(h) && Sizes(h) && Splits(h, r, p, q, n, junk)
    ensures !IsBlock(h, q) && Sizes(r) && Tiled(r)
  {
    hide Carved, Sizes, Covers;
    SplitNew(h, p, q);
    SplitSizes(h, r, p, q, n, junk);
    forall a | IsBlock(r, a) ensures Covers(r, a) {
      SplitCovers(h, r, p, q, n, junk, a);
    }
    forall u | u in r.owner ensures IsBlock(r, r.owner[u]) && r.owner[u] <= u < r.owner[u] + r.mem[r.owner[u]].size {
      SplitOwner(h, r, p, q, n, junk, u);
    }
  }

  lemma SplitRing(h: Heap, k: nat, n: nat, junk: int)
    requires Ring(h) && Coalesced(h, {}) && 1 <= k < |h.ring| && 0 < n < h.mem[h.ring[k]].size
    requires h.ring[k] + h.mem[h.ring[k]].size - n !in h.free && h.ring[k] + h.mem[h.ring[k]].size - n > h.base
    ensures Ring(SplitOff(h, k, n, junk)) && Coalesced(SplitOff(h, k, n, junk), {})
  {
    hide Carved, NextOf;
    var r := SplitOff(h, k, n, junk);
    var q := h.ring[k] + h.mem[h.ring[k]].size - n;
    assert forall i :: 0 <= i < |h.ring| ==> h.ring[i] != q;
    assert h.base != h.ring[k];
  }

  lemma SplitKeeps(h: Heap, k: nat, n: nat, junk: int)
    requires Valid(h) && 1 <= k < |h.ring| && h.ring[k] in h.mem && 0 < n < h.mem[h.ring[k]].size
    ensures Valid(SplitOff(h, k, n, junk))
    ensures !IsBlock(h, h.ring[k] + h.mem[h.ring[k]].size - n)
  {
    hide Ring, Ascending, Tiled, Sizes, Carved;
    RingEntry(h, k);
    var r := SplitOff(h, k, n, junk);
    SplitTiled(h, r, h.ring[k], h.ring[k] + h.mem[h.ring[k]].size - n, n, junk);
    FreeInMem(h, h.ring[k] + h.mem[h.ring[k]].size - n);
    SplitRing(h, k, n, junk);
  }

  lemma FreeInMem(h: Heap, q: int)
    requires Sizes(h) && !IsBlock(h, q)
    ensures q !in h.free && q !in h.live
  {}

  // ---------------------------------------------------------------- growing

  /** The n units from a on, all belonging to one block. */
  ghost function Range(a: int, n: nat): (r: map<int, int>)
    ensures forall u :: u in r <==> a <= u < a + n
    ensures forall u :: a <= u < a + n ==> r[u] == a
  {
    if n == 0 then map[] else Range(a, n - 1)[a + n - 1 := a]
  }

  /** sbrk returned n new units at a: one live block until it is freed. */
  ghost function Grown(h: Heap, a: int, n: nat, junk: int): (r: Heap) {
    Heap(h.base, h.mem[a := Header(junk, n)], h.ring, h.at, h.free, h.live[a := n], h.owner + Range(a, n))
  }

  /** Memory from sbrk lies above everything the allocator has. */
  ghost predicate Above(h: Heap, a: int) { a > h.base && forall u :: u in h.owner ==> u < a }

  lemma GrownKeeps(h: Heap, a: int, n: nat, junk: int)
    requires Valid(h) && Above(h, a) && n >= 1
    ensures Valid(Grown(h, a, n, junk)) && a !in h.live
  {
    hide Ring, Ascending, Sizes, Tiled, Range;
    AboveBlocks(h, a);
    GrownRing(h, a, n, junk);
    GrownTiled(h, a, n, junk);
  }

  lemma GrownRing(h: Heap, a: int, n: nat, junk: int)
    requires Ring(h) && Coalesced(h, {}) && forall i :: 0 <= i < |h.ring| ==> h.ring[i] < a
    ensures Ring(Grown(h, a, n, junk)) && Coalesced(Grown(h, a, n, junk), {})
  {
    hide NextOf, Range, Ascending;
  }

  lemma GrownSizes(h: Heap, a: int, n: nat, junk: int)
    requires Sizes(h) && a > h.base && n >= 1 && a !in h.free && a !in h.live
    ensures Sizes(Grown(h, a, n, junk))
  {
    hide Range;
  }

  lemma GrownCovers(h: Heap, a: int, n: nat, junk: int, b: int)
    requires Tiled(h) && Above(h, a) && a !in h.free && a !in h.live && IsBlock(Grown(h, a, n, junk), b)
    ensures Covers(Grown(h, a, n, junk), b)
  {
    hide Range;
    if b != a {
      assert IsBlock(h, b) && Covers(h, b);
    }
  }

  lemma GrownTiled(h: Heap, a: int, n: nat, junk: int)
    requires Sizes(h) && Tiled(h) && Above(h, a) && n >= 1 && !IsBlock(h, a) && a !in h.free && a !in h.live
    ensures Sizes(Grown(h, a, n, junk)) && Tiled(Grown(h, a, n, junk))
  {
    hide Range, Covers, Sizes;
    var r := Grown(h, a, n, junk);
    GrownSizes(h, a, n, junk);
    forall b | IsBlock(r, b) ensures Covers(r, b) {
      GrownCovers(h, a, n, junk, b);
    }
  }

  lemma BlockOwned(h: Heap, a: int)
    requires Sizes(h) && Tiled(h) && IsBlock(h, a)
    ensures a in h.owner
  {
    assert Covers(h, a);
  }

  lemma AboveBlocks(h: Heap, a: int)
    requires Loose(h) && Above(h, a)
    ensures !IsBlock(h, a) && a !in h.free && a !in h.live && forall i :: 0 <= i < |h.ring| ==> h.ring[i] < a
  {
    hide NextOf, Ascending;
    if IsBlock(h, a) {
      BlockOwned(h, a);
    }
    forall i | 0 <= i < |h.ring| ensures h.ring[i] < a {
      if i > 0 {
        assert IsBlock(h, h.ring[i]) && Covers(h, h.ring[i]);
        assert h.ring[i] in h.owner;
      }
    }
  }
}
