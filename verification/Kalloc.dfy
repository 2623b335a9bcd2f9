/** kalloc.c in place: the free list threaded through the first words of the free pages. Pages are
    physical page numbers, pointers the kernel's virtual addresses. */
module Kalloc {
  import opened VmSpec

  const PHYSTOP: nat := 0x2000_0000

  /** P2V of a page. */
  function Address(f: nat): (v: nat) { KERNBASE + f * PGSIZE }

  /** V2P of a page-aligned address, as a page number. */
  function PageOf(v: nat): (f: nat)
    requires v >= KERNBASE
  {
    (v - KERNBASE) / PGSIZE
  }

  /** Following the links from head visits exactly these pages. */
  ghost predicate Chain(pages: seq<Page>, head: Word, list: seq<nat>)
    decreases |list|
  {
    if list == [] then head == 0
    else list[0] < |pages| && head == Address(list[0]) && Chain(pages, pages[list[0]][0], list[1..])
  }

  ghost predicate Apart(list: seq<nat>) { forall i, j :: 0 <= i < j < |list| ==> list[i] != list[j] }

  /** Writing to a page that is not on the list does not break it. */
  lemma {:induction false} ChainFrame(pages: seq<Page>, head: Word, list: seq<nat>, f: nat, page: Page)
    requires Chain(pages, head, list) && f < |pages| && forall i :: 0 <= i < |list| ==> list[i] != f
    ensures Chain(pages[f := page], head, list)
    decreases |list|
  {
    if list != [] {
      ChainFrame(pages, pages[list[0]][0], list[1..], f, page);
    }
  }

  /** k pages from lo on have been put in front of the list was, the last one first. */
  ghost predicate InFront(list: seq<nat>, was: seq<nat>, lo: nat, k: nat) {
    |list| == k + |was| && list[k..] == was && forall i :: 0 <= i < k ==> list[i] == lo + (k - 1 - i)
  }

  lemma NoneInFront(was: seq<nat>, lo: nat)
    ensures InFront(was, was, lo, 0)
  {}

  lemma AllInFront(list: seq<nat>, was: seq<nat>, lo: nat, k: nat)
    requires InFront(list, was, lo, k)
    ensures |list| == k + |was| && list[k..] == was && forall i :: 0 <= i < k ==> list[i] == lo + (k - 1 - i)
  {}

  lemma PushOne(list: seq<nat>, was: seq<nat>, lo: nat, k: nat)
    requires InFront(list, was, lo, k)
    ensures InFront([lo + k] + list, was, lo, k + 1)
  {
    assert ([lo + k] + list)[k + 1..] == list[k..];
  }

  /** The next page of the range is not on the list yet. */
  lemma NotListed(list: seq<nat>, was: seq<nat>, vstart: Word, vend: Word, lo: nat, k: nat)
    requires InFront(list, was, lo, k) && vstart <= Address(lo) && Address(lo + k) < vend
    requires forall i :: 0 <= i < |was| ==> Address(was[i]) < vstart || vend <= Address(was[i])
    ensures forall i :: 0 <= i < |list| ==> list[i] != lo + k
  {
    forall i | 0 <= i < |list| ensures list[i] != lo + k {
      if i >= k {
        assert list[k..][i - k] == was[i - k];
      }
    }
  }

  lemma RoundedUp(v: Word)
    requires KERNBASE < v
    ensures var p := (v + PGSIZE - 1) / PGSIZE * PGSIZE; p == Address((v - KERNBASE + PGSIZE - 1) / PGSIZE) && v <= p
  {}

  lemma PageAddress(f: nat)
    ensures PageOf(Address(f)) == f && Address(f) % PGSIZE == 0 && Address(f + 1) == Address(f) + PGSIZE
  {}

  /** The loop of freerange has gone through the whole pages below vend. */
  lemma LastPage(vend: Word, lo: nat, k: nat)
    requires Address(lo + k) + PGSIZE > vend && (k > 0 ==> Address(lo + k) <= vend)
    ensures var hi := if vend < KERNBASE then lo else (vend - KERNBASE) / PGSIZE;
      k == if hi < lo then 0 else hi - lo
  {}

  class Kmem {
    const end: nat
    var pages: seq<Page>
    var freelist: Word
    ghost var list: seq<nat>

    ghost predicate Valid()
      reads this
    {
      |pages| == PHYSTOP / PGSIZE && KERNBASE < end && Apart(list) && Chain(pages, freelist, list)
    }

    /** kfree; false is the panic. Freeing a page twice is the caller's mistake. */
    method Kfree(v: Word) returns (ok: bool)
      requires Valid() && (v >= KERNBASE ==> forall i :: 0 <= i < |list| ==> list[i] != PageOf(v))
      modifies this
      ensures Valid() && ok == (v % PGSIZE == 0 && v >= end && v - KERNBASE < PHYSTOP)
      ensures ok ==> list == [PageOf(v)] + old(list) && forall f :: 0 <= f < |pages| && f != PageOf(v) ==> pages[f] == old(pages)[f]
      ensures ok ==> PageOf(v) < |pages| && forall i :: 1 <= i < ENTRIES ==> pages[PageOf(v)][i] == 0x0101_0101
      ensures !ok ==> list == old(list) && pages == old(pages) && freelist == old(freelist)
    {
      if v % PGSIZE != 0 || v < end || v - KERNBASE >= PHYSTOP {
        return false;
      }
      var f := PageOf(v);
      ChainFrame(pages, freelist, list, f, JunkPage()[0 := freelist]);
      pages := pages[f := JunkPage()[0 := freelist]];
      freelist := v;
      list := [f] + list;
      assert list[1..] == old(list);
      return true;
    }

    /** kalloc; 0 when there is no page left. */
    method Kalloc() returns (v: Word)
      requires Valid()
      modifies this`freelist, this`list
      ensures Valid()
      ensures v == 0 <==> old(list) == []
      ensures v == 0 ==> list == old(list) && freelist == old(freelist)
      ensures v != 0 ==> v == Address(old(list)[0]) && list == old(list)[1..] && forall i :: 0 <= i < |list| ==> list[i] != old(list)[0]
    {
      v := freelist;
      if v != 0 {
        freelist := pages[PageOf(v)][0];
        list := list[1..];
      }
    }

    lemma EndAbove()
      requires Valid()
      ensures KERNBASE < end
    {}

    /** freerange puts every whole page of the range on the list, the last one first. */
    method Freerange(vstart: Word, vend: Word) returns (ok: bool)
      requires Valid() && end <= vstart && vend <= KERNBASE + PHYSTOP
      requires forall i :: 0 <= i < |list| ==> Address(list[i]) < vstart || vend <= Address(list[i])
      modifies this
      ensures ok && Valid()
      ensures var lo := (vstart - KERNBASE + PGSIZE - 1) / PGSIZE;
        var hi := if vend < KERNBASE then lo else (vend - KERNBASE) / PGSIZE;
        var n := if hi < lo then 0 else hi - lo;
        |list| == n + |old(list)| && list[n..] == old(list) && forall i :: 0 <= i < n ==> list[i] == lo + (n - 1 - i)
    {
      hide Chain, Apart, Valid, InFront, Address, PageOf;
      EndAbove();
      var p := (vstart + PGSIZE - 1) / PGSIZE * PGSIZE;
      ghost var lo, k := (vstart - KERNBASE + PGSIZE - 1) / PGSIZE, 0;
      NoneInFront(list, lo);
      RoundedUp(vstart);
      ok := true;
      while p + PGSIZE <= vend
        invariant ok && Valid() && p == Address(lo + k) && vstart <= p && (k > 0 ==> p <= vend) && vstart <= Address(lo)
        invariant InFront(list, old(list), lo, k)
      {
        NotListed(list, old(list), vstart, vend, lo, k);
        PageAddress(lo + k);
        ok := Kfree(p);
        PushOne(list[1..], old(list), lo, k);
        p := p + PGSIZE;
        k := k + 1;
      }
      LastPage(vend, lo, k);
      AllInFront(list, old(list), lo, k);
    }
  }
}
