/** How many page tables a directory has, and how many a range of virtual pages calls for. */
module VmCount {
  import opened Common
  import opened VmSpec

  /** The entries of directory d that have a page table. */
  ghost function Has(m: Mem, d: nat): (s: set<nat>)
    requires d < |m.pages|
  {
    set i: nat | i < ENTRIES && Present(Pde(m, d, i))
  }

  /** The directory entries that cover the virtual pages [lo, hi). */
  ghost function Span(lo: nat, hi: nat): (s: set<nat>)
    ensures forall i: nat :: i in s <==> lo < hi && lo / ENTRIES <= i <= (hi - 1) / ENTRIES
  {
    if lo < hi then Numbers(lo / ENTRIES, (hi - 1) / ENTRIES + 1) else {}
  }

  /** The tables that the pages [lo, hi) still need. */
  ghost function Lacking(m: Mem, d: nat, lo: nat, hi: nat): (n: nat)
    requires d < |m.pages|
  {
    |Span(lo, hi) - Has(m, d)|
  }

  lemma SpanStep(lo: nat, hi: nat)
    requires lo <= hi
    ensures Span(lo, hi + 1) == Span(lo, hi) + {hi / ENTRIES}
  {
    if lo < hi {
      assert (hi - 1) / ENTRIES <= hi / ENTRIES <= (hi - 1) / ENTRIES + 1;
    }
  }

  lemma WithTableHas(m: Mem, role: map<nat, Role>, d: nat, i: nat)
    requires Forward(m, role) && FreeOk(m, role) && m.free != [] && IsDir(role, d) && i < ENTRIES && !Present(Pde(m, d, i))
    ensures Has(WithTable(m, d, i), d) == Has(m, d) + {i}
  {
    forall j: nat | j < ENTRIES
      ensures Present(Pde(WithTable(m, d, i), d, j)) <==> j == i || Present(Pde(m, d, j))
    {
      WithTableAt(m, role, d, i, d, j, 0);
    }
  }

  lemma SetPteHas(m: Mem, role: map<nat, Role>, d: nat, vp: nat, x: Word)
    requires Forward(m, role) && IsDir(role, d) && vp < VPAGES && Present(Pde(m, d, vp / ENTRIES))
    ensures Frame(Pde(m, d, vp / ENTRIES)) < |m.pages| && Has(SetPte(m, d, vp, x), d) == Has(m, d)
  {
    SetPteAt(m, role, d, vp, x, d, 0, 0);
    forall j: nat | j < ENTRIES ensures Pde(SetPte(m, d, vp, x), d, j) == Pde(m, d, j) {
      SetPteAt(m, role, d, vp, x, d, j, 0);
    }
  }

  /** Free pages turn into page tables one for one, so the tables can be had if and only if there are
      enough free pages. */
  lemma EnoughTables(before: set<nat>, span: set<nat>, after: set<nat>, free0: nat, free: nat)
    requires before <= after <= before + span && free + |after| == free0 + |before|
    ensures span <= after ==> free == free0 - |span - before|
    ensures !(span <= after) && free == 0 ==> free0 < |span - before|
  {
    assert after == before + (after - before) && |after| == |before| + |after - before|;
    assert after - before <= span - before;
    assert span - before == (after - before) + (span - before - after);
    if !(span <= after) {
      var i :| i in span && i !in after;
      assert i in span - before - after;
    } else {
      assert span - before - after == {};
    }
  }

  /** The directory has gained the tables of span, each from a free page. */
  ghost predicate Tabled(m: Mem, d: nat, r: Mem, span: set<nat>) {
    && d < |m.pages| && d < |r.pages| && Has(r, d) == Has(m, d) + span
    && |r.free| + |Has(r, d)| == |m.free| + |Has(m, d)|
  }

  /** The free pages have run out before all tables of span were there. */
  ghost predicate TablesShort(m: Mem, d: nat, r: Mem, span: set<nat>) {
    && d < |m.pages| && d < |r.pages| && Has(m, d) <= Has(r, d) <= Has(m, d) + span && !(span <= Has(r, d))
    && r.free == [] && |Has(r, d)| == |m.free| + |Has(m, d)|
  }

  lemma TabledStart(m: Mem, d: nat, vp: nat)
    requires d < |m.pages|
    ensures Tabled(m, d, m, Span(vp, vp))
  {}

  lemma TabledNext(m: Mem, d: nat, m1: Mem, r: Mem, lo: nat, vp: nat)
    requires Tabled(m, d, m1, Span(lo, vp)) && lo <= vp && d < |r.pages|
    requires Has(r, d) == Has(m1, d) + {vp / ENTRIES} && |r.free| == |m1.free| - if vp / ENTRIES in Has(m1, d) then 0 else 1
    ensures Tabled(m, d, r, Span(lo, vp + 1))
  {
    hide Has, Span;
    SpanStep(lo, vp);
  }

  lemma NoTableAt(m: Mem, d: nat, r: Mem, lo: nat, vp: nat, hi: nat)
    requires Tabled(m, d, r, Span(lo, vp)) && lo <= vp < hi && r.free == [] && vp / ENTRIES !in Has(r, d)
    ensures TablesShort(m, d, r, Span(lo, hi)) && Lacking(m, d, lo, hi) > |m.free|
  {
    hide Has;
    assert vp / ENTRIES in Span(lo, hi);
    EnoughTables(Has(m, d), Span(lo, hi), Has(r, d), |m.free|, 0);
  }

  lemma TabledAll(m: Mem, d: nat, r: Mem, lo: nat, hi: nat)
    requires Tabled(m, d, r, Span(lo, hi))
    ensures |r.free| == |m.free| - Lacking(m, d, lo, hi)
  {
    hide Has, Span;
    EnoughTables(Has(m, d), Span(lo, hi), Has(r, d), |m.free|, |r.free|);
  }
}
