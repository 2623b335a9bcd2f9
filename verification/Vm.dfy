/** vm.c in place: walking, mapping, growing, shrinking, freeing and copying address spaces.
    Addresses are counted in pages; sizes in bytes. */
module Vm {
  import opened Common
  import opened VmCount
  import opened VmSpec

  /** PGROUNDUP, in pages. */
  function PagesUp(sz: nat): (n: nat) { (sz + PGSIZE - 1) / PGSIZE }

  class AddressSpaces {
    var m: Mem
    ghost var role: map<nat, Role>

    ghost predicate Ok()
      reads this
    {
      Wf(m, role)
    }

    /** No page is lost: the pages that are free or have a role are always the same ones. */
    ghost function Pages(): (s: set<nat>)
      reads this
    {
      All(m, role)
    }

    /** Take a page off the free list; it is held until it gets a role. */
    method Kalloc() returns (r: Option<nat>)
      requires Ok()
      modifies this
      ensures Ok() && Pages() == old(Pages())
      ensures r.None? <==> old(m.free) == []
      ensures r.None? ==> m == old(m) && role == old(role)
      ensures r.Some? ==> m.pages == old(m.pages) && |m.free| == |old(m.free)| - 1
      ensures r.Some? ==> r.value !in old(role) && r.value < |m.pages| && role == old(role)[r.value := Other]
      ensures r.Some? ==> Elsewhere(old(m), m, old(role), 0, 0, 0) && SameData(old(m), m, old(role))
    {
      if m.free == [] {
        return None;
      }
      var f := m.free[0];
      HoldKeeps(m, role, m.pages[f]);
      HoldFrame(m, role, m.pages[f]);
      m := Mem(m.pages[f := m.pages[f]], m.free[1..]);
      role := role[f := Other];
      return Some(f);
    }

    /** Put a held page back. */
    method Kfree(f: nat)
      requires Ok() && f in role && role[f] == Other
      modifies this
      ensures Ok() && Pages() == old(Pages()) && role == old(role) - {f} && m.free == [f] + old(m.free)
      ensures Elsewhere(old(m), m, old(role), 0, 0, 0) && SameData(old(m), m, role)
      ensures forall g :: 0 <= g < |m.pages| && g != f ==> g < |old(m.pages)| && m.pages[g] == old(m.pages)[g]
    {
      ReleaseKeeps(m, role, f);
      ReleaseFrame(m, role, f);
      m := Mem(m.pages[f := JunkPage()], [f] + m.free);
      role := role - {f};
    }

    /** memset or memmove to a held page. */
    method Fill(f: nat, contents: Page)
      requires Ok() && f in role && role[f] == Other
      modifies this`m
      ensures Ok() && Pages() == old(Pages()) && f < |m.pages| && m.pages[f] == contents
      ensures m.free == old(m.free) && |m.pages| == |old(m.pages)| && forall d :: 0 <= d < |m.pages| && d != f ==> m.pages[d] == old(m.pages)[d]
      ensures Elsewhere(old(m), m, role, 0, 0, 0) && SameData(old(m), m, role - {f})
    {
      FillKeeps(m, role, f, contents);
      m := Mem(m.pages[f := contents], m.free);
    }

    /** walkpgdir: make sure the page table for vp exists; false when it does not and either
        alloc is false or no page is left. */
    method Walkpgdir(d: nat, vp: nat, alloc: bool) returns (ok: bool)
      requires Ok() && IsDir(role, d) && vp < VPAGES
      modifies this
      ensures Ok() && Pages() == old(Pages()) && IsDir(role, d)
      ensures MoreTables(old(role), role, d) && Elsewhere(old(m), m, old(role), d, 0, 0) && SameData(old(m), m, old(role))
      ensures ok ==> Present(Pde(m, d, vp / ENTRIES))
      ensures !ok || !alloc ==> m == old(m) && role == old(role)
      ensures !ok ==> !Present(Pde(m, d, vp / ENTRIES)) && (alloc ==> m.free == [])
      ensures ok ==> d < |old(m).pages| && Has(m, d) == Has(old(m), d) + {vp / ENTRIES}
      ensures ok ==> |m.free| == |old(m).free| - if Present(Pde(old(m), d, vp / ENTRIES)) then 0 else 1
    {
      DirIsPage(m, role, d);
      var i := vp / ENTRIES;
      if Present(m.pages[d][i]) {
        return true;
      }
      if !alloc || m.free == [] {
        return false;
      }
      WithTableKeeps(m, role, d, i);
      WithTableFrame(m, role, d, i);
      WithTableHas(m, role, d, i);
      var f := m.free[0];
      m := Mem(m.pages[f := ZeroPage()], m.free[1..]);
      m := Mem(m.pages[d := m.pages[d][i := Entry(f, PTE_P + PTE_W + PTE_U)]], m.free);
      role := role[f := Table(d, i)];
      return true;
    }

    /** One page of mappages. A user page must be held; a kernel mapping owns nothing. */
    method MapPage(d: nat, vp: nat, f: nat, perm: nat) returns (ok: bool)
      requires Ok() && IsDir(role, d) && vp < VPAGES && f < VPAGES && perm < 4096
      requires !Present(Pte(m, d, vp)) && (vp < USER ==> f in role && role[f] == Other)
      modifies this
      ensures Ok() && Pages() == old(Pages()) && IsDir(role, d)
      ensures Elsewhere(old(m), m, old(role), d, vp, vp + 1) && SameData(old(m), m, old(role))
      ensures ok ==> Pte(m, d, vp) == Entry(f, perm) && MoreTables(Assigned(old(role), d, vp, f), role, d)
      ensures !ok ==> m == old(m) && role == old(role) && m.free == []
      ensures d < |old(m).pages| && d < |m.pages| && (!ok ==> vp / ENTRIES !in Has(old(m), d))
      ensures ok ==> Has(m, d) == Has(old(m), d) + {vp / ENTRIES} && |m.free| == |old(m).free| - if vp / ENTRIES in Has(old(m), d) then 0 else 1
    {
      hide Forward, Backward, FreeOk, Pte, Entry, Has;
      DirIsPage(m, role, d);
      TableInHas(m, d, vp / ENTRIES);
      ok := Walkpgdir(d, vp, true);
      if ok {
        DirIsPage(m, role, d);
        SetPteHas(m, role, d, vp, Entry(f, perm));
        ghost var m1, role1 := m, role;
        PteSame(old(m), m1, old(role), role1, d, vp);
        MapEntry(m1, role1, d, vp, f, perm);
        var t := Frame(m.pages[d][vp / ENTRIES]);
        m := Mem(m.pages[t := m.pages[t][vp % ENTRIES := Entry(f, perm)]], m.free);
        role := Assigned(role, d, vp, f);
        MapCompose(old(m), m1, m, old(role), role1, d, vp, f);
      }
    }

    /** mappages over n pages starting at vp. */
    method Mappages(d: nat, vp: nat, n: nat, pf: nat, perm: nat) returns (ok: bool)
      requires Ok() && IsDir(role, d) && 0 < n && vp + n <= VPAGES && pf + n <= VPAGES && perm < 4096
      requires MappedTo(m, d, vp, vp, vp + n, pf, perm)
      requires vp >= USER || (n == 1 && pf in role && role[pf] == Other)
      modifies this
      ensures Ok() && Pages() == old(Pages()) && IsDir(role, d)
      ensures Elsewhere(old(m), m, old(role), d, vp, vp + n) && SameData(old(m), m, old(role))
      ensures ok ==> MoreTables(Assigned(old(role), d, vp, pf), role, d) && MappedTo(m, d, vp, vp + n, vp + n, pf, perm)
      ensures !ok ==> MoreTables(old(role), role, d) && m.free == []
      ensures !ok && n == 1 ==> m == old(m) && role == old(role)
      ensures d < |old(m).pages| && (ok <==> Lacking(old(m), d, vp, vp + n) <= |old(m).free|)
      ensures if ok then Tabled(old(m), d, m, Span(vp, vp + n)) else TablesShort(old(m), d, m, Span(vp, vp + n))
    {
      hide Wf, All, Pde, Present, IsDir, Pte, Entry, Elsewhere, SameData, MoreTables, MappedTo, Assigned, Has, Span, Tabled, TablesShort, Lacking;
      StartMapping(m, role, d, vp);
      FirstUnmapped(m, d, vp, vp, vp + n, pf, perm);
      TabledStart(m, d, vp);
      ok := MapPage(d, vp, pf, perm);
      DirIsPage(m, role, d);
      if !ok {
        WidenTo(old(m), m, old(role), d, vp, vp + 1, vp + n);
        NoTableAt(old(m), d, old(m), vp, vp, vp + n);
        return;
      }
      TabledNext(old(m), d, old(m), m, vp, vp);
      MapNext(old(m), m, old(role), d, vp, vp, vp + n, pf, perm);
      ghost var goal := Assigned(old(role), d, vp, pf);
      KernelOwnsNothing(old(role), d, vp, pf);
      KernelOwnsNothing(old(role), d, vp + 1, pf);
      var k := 1;
      while k < n
        invariant 1 <= k <= n && Ok() && Pages() == old(Pages()) && IsDir(role, d) && MoreTables(goal, role, d)
        invariant Elsewhere(old(m), m, old(role), d, vp, vp + k) && SameData(old(m), m, old(role))
        invariant MappedTo(m, d, vp, vp + k, vp + n, pf, perm)
        invariant Tabled(old(m), d, m, Span(vp, vp + k))
      {
        ghost var m1, role1 := m, role;
        FirstUnmapped(m, d, vp, vp + k, vp + n, pf, perm);
        ok := MapPage(d, vp + k, pf + k, perm);
        if !ok {
          WidenTo(old(m), m, old(role), d, vp, vp + k, vp + n);
          NoTableAt(old(m), d, m, vp, vp + k, vp + n);
          return;
        }
        TabledNext(old(m), d, m1, m, vp, vp + k);
        DirIsPage(m, role, d);
        MapNext(m1, m, role1, d, vp, vp + k, vp + n, pf, perm);
        MoreMapping(old(m), m1, m, old(role), role1, role, d, vp, vp + k, pf);
        k := k + 1;
      }
      TabledAll(old(m), d, m, vp, vp + n);
    }

    /** The body of deallocuvm's loop: free the page, then clear its entry. */
    method FreeUserPage(d: nat, vp: nat)
      requires Ok() && IsDir(role, d) && vp < USER && d < |m.pages| && Present(Pte(m, d, vp))
      modifies this
      ensures Ok() && Pages() == old(Pages()) && IsDir(role, d) && role == old(role) - {old(Frame(Pte(m, d, vp)))}
      ensures Elsewhere(old(m), m, old(role), d, vp, vp + 1) && SameData(old(m), m, role) && d < |m.pages| && Pte(m, d, vp) == 0
      ensures forall i: nat :: i < ENTRIES ==> Pde(m, d, i) == Pde(old(m), d, i)
    {
      UnmapKeeps(m, role, d, vp);
      UnmapFrame(m, role, d, vp);
      var f, t := Frame(Pte(m, d, vp)), Frame(Pde(m, d, vp / ENTRIES));
      assert role[f] == User(d, vp) && role[t] == Table(d, vp / ENTRIES);
      m := Mem(m.pages[f := JunkPage()], [f] + m.free);
      m := Mem(m.pages[t := m.pages[t][vp % ENTRIES := 0]], m.free);
      role := role - {f};
    }

    /** deallocuvm: user pages from PGROUNDUP(newsz) up to oldsz are freed and unmapped, and
        nothing else changes. Skipping a whole absent page table gives the same result as going
        page by page, because Shrunk does not say how the range was walked. */
    method Deallocuvm(d: nat, oldsz: nat, newsz: nat) returns (sz: nat)
      requires Ok() && IsDir(role, d) && oldsz <= KERNBASE
      modifies this
      ensures Ok() && Pages() == old(Pages()) && IsDir(role, d)
      ensures sz == if newsz >= oldsz then oldsz else newsz
      ensures newsz >= oldsz ==> m == old(m) && role == old(role)
      ensures Shrunk(old(m), old(role), m, role, d, PagesUp(newsz), PagesUp(oldsz))
    {
      hide Forward, Backward, FreeOk, Pte, Shrunk;
      if newsz >= oldsz {
        NothingShrunk(m, role, d, PagesUp(newsz), PagesUp(oldsz));
        return oldsz;
      }
      var lo, a := PagesUp(newsz), PagesUp(newsz);
      NothingShrunk(m, role, d, lo, a);
      while a * PGSIZE < oldsz
        invariant lo <= a <= USER && Ok() && Pages() == old(Pages()) && IsDir(role, d)
        invariant Shrunk(old(m), old(role), m, role, d, lo, a)
        invariant PagesUp(oldsz) <= a ==> Shrunk(old(m), old(role), m, role, d, lo, PagesUp(oldsz))
      {
        var pte := Walkpgdir(d, a, false);
        DirIsPage(m, role, d);
        if !pte {
          ghost var next := (a / ENTRIES + 1) * ENTRIES;
          ShrinkSkip(old(m), old(role), m, role, d, lo, a, next);
          if PagesUp(oldsz) <= next {
            ShrinkSkip(old(m), old(role), m, role, d, lo, a, PagesUp(oldsz));
          }
          a := (a / ENTRIES + 1) * ENTRIES - 1;
        } else {
          if Present(Pte(m, d, a)) {
            ghost var m1, role1 := m, role;
            ShrinkRole(old(m), old(role), m1, role1, d, lo, a);
            FreeUserPage(d, a);
            ShrinkStep(old(m), old(role), m1, role1, m, role, d, lo, a);
          } else {
            ShrinkSkip(old(m), old(role), m, role, d, lo, a, a + 1);
          }
        }
        a := a + 1;
      }
      return newsz;
    }

    /** One entry of freevm's loop over the directory. */
    method FreeTable(d: nat, i: nat, ghost m1: Mem, ghost role1: map<nat, Role>)
      requires Ok() && Wf(m1, role1) && IsDir(role1, d) && i < ENTRIES && d < |m1.pages| && d < |m.pages|
      requires m.pages[d] == m1.pages[d] && Undone(role1, role, d, i) && Untouched(m1, m, role1, d)
      modifies this
      ensures Ok() && Pages() == old(Pages()) && d < |m.pages|
      ensures m.pages[d] == m1.pages[d] && Undone(role1, role, d, i + 1) && Untouched(m1, m, role1, d)
    {
      hide Forward, Backward, FreeOk, Pte, Pde, Undone, Elsewhere, SameData, WithoutDir, Belongs, Untouched;
      if Present(m.pages[d][i]) {
        ghost var m2, role2 := m, role;
        DirPage(m1, role1, role, d, i);
        Kfree(Frame(m.pages[d][i]));
        UndoStep(m1, m2, m, role1, role2, role, d, i);
      } else {
        DirNoPage(m1, role1, role, d, i);
      }
    }

    /** freevm returns every page of the address space, and no other, to the free list. */
    method Freevm(d: nat)
      requires Ok() && IsDir(role, d)
      modifies this
      ensures Ok() && Pages() == old(Pages()) && role == WithoutDir(old(role), d)
      ensures Elsewhere(old(m), m, role, 0, 0, 0) && SameData(old(m), m, role)
    {
      hide Forward, Backward, FreeOk, Pte, Pde, Shrunk, Dismantled, Undone, Elsewhere, SameData, WithoutDir, WithoutUsers, Belongs, Untouched;
      var sz := Deallocuvm(d, KERNBASE, 0);
      ShrunkAll(old(m), old(role), m, role, d);
      ghost var role1, m1 := role, m;
      DismantleKeeps(m, role, d);
      role := Dismantled(role, d);
      DirPages(m1, role1, d);
      var i := 0;
      while i < ENTRIES
        invariant 0 <= i <= ENTRIES && Ok() && Pages() == old(Pages()) && d < |m1.pages| && d < |m.pages|
        invariant m.pages[d] == m1.pages[d] && Undone(role1, role, d, i) && Untouched(m1, m, role1, d)
      {
        FreeTable(d, i, m1, role1);
        i := i + 1;
      }
      ghost var m3, role3 := m, role;
      DirHeld(role1, role, d);
      Kfree(d);
      UndoLast(m1, m3, m, role1, role3, role, d);
      FreedDir(old(m), m1, m, old(role), role1, role, d);
    }

    /** kalloc, fill, mappages of one user page, as allocuvm and copyuvm do it. When the mapping
        fails the page is still held and the caller frees it. */
    method NewPage(d: nat, vp: nat, contents: Page, perm: nat) returns (ok: bool, f: Option<nat>)
      requires Ok() && IsDir(role, d) && vp < USER && perm < 4096 && d < |m.pages| && !Present(Pte(m, d, vp))
      modifies this
      ensures Ok() && Pages() == old(Pages()) && IsDir(role, d)
      ensures f.Some? ==> f.value !in old(role)
      ensures ok ==> f.Some? && PageAdded(old(m), old(role), m, role, d, vp, f.value, contents, perm)
      ensures !ok ==> Elsewhere(old(m), m, old(role), 0, 0, 0) && SameData(old(m), m, old(role))
      ensures !ok ==> role == if f.Some? then old(role)[f.value := Other] else old(role)
      ensures d < |old(m).pages| && d < |m.pages| && (ok <==> 1 + (if vp / ENTRIES in Has(old(m), d) then 0 else 1) <= |old(m).free|)
      ensures ok ==> Has(m, d) == Has(old(m), d) + {vp / ENTRIES} && |m.free| == |old(m).free| - 1 - if vp / ENTRIES in Has(old(m), d) then 0 else 1
    {
      hide Forward, Backward, FreeOk, Pte, Entry, Span, Has, Tabled, TablesShort, Lacking;
      StartMapping(m, role, d, vp);
      f := Kalloc();
      if f.None? {
        return false, f;
      }
      ghost var m1, role1 := m, role;
      Fill(f.value, contents);
      ghost var m2 := m;
      SameHas(old(m), m2, d);
      OneLacking(m2, d, vp);
      HeldFilled(old(m), m1, m2, old(role), role1, d, vp, f.value);
      ok := Mappages(d, vp, 1, f.value, perm);
      DirIsPage(m, role, d);
      if ok {
        PageIn(old(m), m2, m, old(role), role1, role, d, vp, f.value, contents, perm);
        TabledOne(m2, d, m, vp);
      }
    }

    /** allocuvm: pages of zeros, writable by the user, up to newsz; or nothing but page tables
        gained, and 0. */
    method Allocuvm(d: nat, oldsz: nat, newsz: nat) returns (sz: nat)
      requires Ok() && IsDir(role, d) && d < |m.pages|
      requires forall vp: nat :: PagesUp(oldsz) <= vp < PagesUp(newsz) && vp < USER ==> !Present(Pte(m, d, vp))
      modifies this
      ensures Ok() && Pages() == old(Pages()) && IsDir(role, d)
      ensures newsz >= KERNBASE ==> sz == 0 && m == old(m) && role == old(role)
      ensures newsz < KERNBASE && newsz < oldsz ==> sz == oldsz && m == old(m) && role == old(role)
      ensures oldsz <= newsz < KERNBASE ==>
        || (sz == newsz && Grown(old(m), old(role), m, role, d, PagesUp(oldsz), PagesUp(newsz)))
        || (sz == 0 && GaveUp(old(m), old(role), m, role, d, PagesUp(oldsz), PagesUp(newsz)))
      ensures oldsz <= newsz < KERNBASE ==>
        if GrowNeed(old(m), d, PagesUp(oldsz), PagesUp(newsz)) <= |old(m).free| then
          && sz == newsz && Grown(old(m), old(role), m, role, d, PagesUp(oldsz), PagesUp(newsz))
          && |m.free| == |old(m).free| - GrowNeed(old(m), d, PagesUp(oldsz), PagesUp(newsz))
        else sz == 0 && GaveUp(old(m), old(role), m, role, d, PagesUp(oldsz), PagesUp(newsz))
    {
      hide Forward, Backward, FreeOk, Pte, Shrunk, Grown, GaveUp, PageAdded, Has, Span, GrowNeed;
      if newsz >= KERNBASE {
        return 0;
      }
      if newsz < oldsz {
        return oldsz;
      }
      var lo, hi, a := PagesUp(oldsz), PagesUp(newsz), PagesUp(oldsz);
      NothingGrown(m, role, d, lo);
      NoneNeeded(m, d, lo);
      while a * PGSIZE < newsz
        invariant lo <= a <= hi <= USER && Ok() && Pages() == old(Pages()) && IsDir(role, d)
        invariant Grown(old(m), old(role), m, role, d, lo, a)
        invariant d < |m.pages| && Has(m, d) == Has(old(m), d) + Span(lo, a) && |m.free| == |old(m).free| - GrowNeed(old(m), d, lo, a)
      {
        StillUnmapped(old(m), old(role), m, role, d, lo, a, hi);
        OneMoreNeeded(old(m), d, lo, a, hi);
        SpanStep(lo, a);
        ghost var m1, role1 := m, role;
        var ok, f := NewPage(d, a, ZeroPage(), PTE_W + PTE_U);
        if !ok {
          ghost var m2, role2 := m, role;
          var _ := Deallocuvm(d, newsz, oldsz);
          ghost var m3, role3 := m, role;
          GiveUp(old(m), old(role), m1, role1, m2, role2, m3, role3, d, lo, a, hi, f);
          if f.Some? {
            Kfree(f.value);
            GiveBack(old(m), old(role), m3, role3, m, role, d, lo, hi, f.value);
          }
          return 0;
        }
        GrowStep(old(m), old(role), m1, role1, m, role, d, lo, a, f.value);
        a := a + 1;
      }
      return newsz;
    }

    /** setupkvm: a new directory with exactly the kernel's mappings, or nothing. data is the page
        of the kernel's data segment. */
    method Setupkvm(data: nat) returns (r: Option<nat>)
      requires Ok() && KERNLINK < data < PHYSTOP_V
      modifies this
      ensures Ok() && Pages() == old(Pages())
      ensures Elsewhere(old(m), m, old(role), 0, 0, 0) && SameData(old(m), m, old(role))
      ensures r.None? ==> role == old(role)
      ensures r.Some? ==> r.value !in old(role) && MoreTables(old(role)[r.value := Dir], role, r.value)
      ensures r.Some? ==> KernelUpTo(m, r.value, data, VPAGES)
      ensures r.Some? <==> 1 + KTABLES <= |old(m).free|
      ensures r.Some? ==> r.value < |m.pages| && Has(m, r.value) == KernelTables(VPAGES) && |m.free| == |old(m).free| - 1 - KTABLES
    {
      hide Forward, Backward, FreeOk, Pte, Entry, Elsewhere, SameData, MoreTables, MappedTo, KernelUpTo, ZeroPage, WithoutDir, Kept, Has, Span, Tabled, TablesShort, KernelTables, Lacking;
      var f := Kalloc();
      if f.None? {
        StartMapping(m, role, 0, 0);
        return None;
      }
      var d := f.value;
      ghost var m1, role1 := m, role;
      Fill(d, ZeroPage());
      NewDir(old(m), m1, m, old(role), role1, d, data);
      role := old(role)[d := Dir];
      NoTables(m, d);
      var ok := MapKernel(d, data, old(m), old(role));
      if !ok {
        ghost var m4, role4 := m, role;
        OnlyNewDir(old(role), role4, d);
        Freevm(d);
        DirGone(old(m), m4, m, old(role), role4, d);
        return None;
      }
      return Some(d);
    }

    /** setupkvm's loop over kmap. */
    method MapKernel(d: nat, data: nat, ghost m0: Mem, ghost role0: map<nat, Role>) returns (ok: bool)
      requires Ok() && KERNLINK < data < PHYSTOP_V && d !in role0 && role == role0[d := Dir]
      requires Elsewhere(m0, m, role0, 0, 0, 0) && SameData(m0, m, role0)
      requires KernelUpTo(m, d, data, Bound(data, 0)) && Has(m, d) == {}
      modifies this
      ensures Ok() && Pages() == old(Pages()) && MoreTables(role0[d := Dir], role, d) && IsDir(role, d)
      ensures Elsewhere(m0, m, role0, 0, 0, 0) && SameData(m0, m, role0)
      ensures ok <==> KTABLES <= |old(m).free|
      ensures ok ==> KernelUpTo(m, d, data, VPAGES) && d < |m.pages| && Has(m, d) == KernelTables(VPAGES) && |m.free| == |old(m).free| - KTABLES
    {
      hide Wf, All, Pte, Entry, Elsewhere, SameData, MoreTables, MappedTo, KernelUpTo, WithoutDir, Kept, Has, Span, Tabled, TablesShort, KernelTables, Lacking;
      AllKernelTables();
      TablesSame(role, d);
      DirIsPage(m, role, d);
      var kmap := Kmap(data);
      ok := true;
      var k := 0;
      while k < |kmap|
        invariant 0 <= k <= |kmap| && Ok() && Pages() == old(Pages()) && IsDir(role, d) && MoreTables(old(role), role, d)
        invariant Elsewhere(m0, m, role0, 0, 0, 0) && SameData(m0, m, role0)
        invariant KernelUpTo(m, d, data, Bound(data, k))
        invariant d < |m.pages| && Has(m, d) == KernelTables(Bound(data, k)) && |m.free| + |Has(m, d)| == |old(m).free|
      {
        ghost var m3, role3 := m, role;
        RegionFree(m, d, data, k);
        RegionTables(data, k);
        ok := Mappages(d, kmap[k].virt, kmap[k].n, kmap[k].phys, kmap[k].perm);
        KernelOwnsNothing(role3, d, kmap[k].virt, kmap[k].phys);
        NotInD(m0, m3, m, role0, old(role), role3, d, kmap[k].virt, kmap[k].virt + kmap[k].n);
        TablesThen(old(role), role3, role, d);
        if !ok {
          KernelShort(m3, d, m, Bound(data, k), Span(kmap[k].virt, kmap[k].virt + kmap[k].n));
          return;
        }
        RegionDone(m3, m, role3, d, data, k);
        TabledFacts(m3, d, m, Span(kmap[k].virt, kmap[k].virt + kmap[k].n));
        k := k + 1;
      }
    }

    /** copyuvm: a second address space with the same user pages, flags and contents on different
        physical pages; or nothing. The parent is not changed. */
    method Copyuvm(pgdir: nat, sz: nat, data: nat) returns (r: Option<nat>)
      requires Ok() && IsDir(role, pgdir) && pgdir < |m.pages| && sz <= KERNBASE && KERNLINK < data < PHYSTOP_V
      requires forall vp: nat :: vp < PagesUp(sz) && vp < USER ==> Present(Pte(m, pgdir, vp))
      modifies this
      ensures Ok() && Pages() == old(Pages())
      ensures Elsewhere(old(m), m, old(role), 0, 0, 0) && SameData(old(m), m, old(role))
      ensures r.None? ==> role == old(role)
      ensures r.Some? ==> r.value !in old(role) && Copied(old(m), old(role), m, role, pgdir, r.value, data, PagesUp(sz))
      ensures r.Some? <==> CopyNeed(PagesUp(sz)) <= |old(m).free|
      ensures r.Some? ==> |m.free| == |old(m).free| - CopyNeed(PagesUp(sz))
    {
      hide Forward, Backward, FreeOk, Pte, Entry, Elsewhere, SameData, MoreTables, KernelUpTo, WithoutDir, Kept, Copied, PageAdded, Belongs, Pde, All, WithP, Has, Span, KernelTables, CopyNeed;
      MoreToCopy(0, PagesUp(sz));
      r := Setupkvm(data);
      if r.None? {
        return;
      }
      var d := r.value;
      StartCopy(old(m), old(role), m, role, pgdir, d, data);
      var i := 0;
      while i * PGSIZE < sz
        invariant 0 <= i <= PagesUp(sz) && Ok() && Pages() == old(Pages()) && d !in old(role)
        invariant Elsewhere(old(m), m, old(role), 0, 0, 0) && SameData(old(m), m, old(role))
        invariant Copied(old(m), old(role), m, role, pgdir, d, data, i)
        invariant d < |m.pages| && Has(m, d) == KernelTables(VPAGES) + Span(0, i) && |m.free| == |old(m).free| - CopyNeed(i)
      {
        ghost var m1, role1 := m, role;
        MoreToCopy(i, PagesUp(sz));
        SpanStep(0, i);
        NextPage(old(m), old(role), m, role, pgdir, d, data, i);
        var pte := Walkpgdir(pgdir, i, false);
        assert pte by { NoTable(m, pgdir, i); }
        var x := Pte(m, pgdir, i);
        var ok, f := NewPage(d, i, m.pages[Frame(x)], Flags(x));
        if !ok {
          ghost var m2 := m;
          if f.Some? {
            Kfree(f.value);
            CopyUndone(old(m), old(role), m1, role1, m2, m, d, f.value);
          } else {
            CopyKept(old(m), old(role), m1, role1, m, d);
          }
          ghost var m3 := m;
          Freevm(d);
          DirGone(old(m), m3, m, old(role), role1, d);
          return None;
        }
        CopyStep(old(m), old(role), m1, role1, m, role, pgdir, d, data, i, f.value);
        i := i + 1;
      }
    }
  }

  lemma OneSpan(vp: nat, has: set<nat>)
    ensures Span(vp, vp + 1) == {vp / ENTRIES}
    ensures |Span(vp, vp + 1) - has| == if vp / ENTRIES in has then 0 else 1
  {
    if vp / ENTRIES in has {
      assert Span(vp, vp + 1) - has == {};
    } else {
      assert Span(vp, vp + 1) - has == {vp / ENTRIES};
    }
  }

  lemma OneLacking(m: Mem, d: nat, vp: nat)
    requires d < |m.pages|
    ensures Lacking(m, d, vp, vp + 1) == if vp / ENTRIES in Has(m, d) then 0 else 1
  {
    OneSpan(vp, Has(m, d));
  }

  lemma TabledOne(m: Mem, d: nat, r: Mem, vp: nat)
    requires Tabled(m, d, r, Span(vp, vp + 1))
    ensures Has(r, d) == Has(m, d) + {vp / ENTRIES} && |r.free| == |m.free| - if vp / ENTRIES in Has(m, d) then 0 else 1
  {
    OneSpan(vp, Has(m, d));
  }

  lemma SameHas(m: Mem, r: Mem, d: nat)
    requires d < |m.pages| && d < |r.pages| && r.pages[d] == m.pages[d]
    ensures Has(r, d) == Has(m, d)
  {}

  lemma TableInHas(m: Mem, d: nat, i: nat)
    requires d < |m.pages| && i < ENTRIES
    ensures i in Has(m, d) <==> Present(Pde(m, d, i))
  {}

  /** The roles once a mapping is in place. */
  ghost function Assigned(role: map<nat, Role>, d: nat, vp: nat, f: nat): (r: map<nat, Role>) {
    if vp < USER then role[f := User(d, vp)] else role
  }

  lemma HoldFrame(m: Mem, role: map<nat, Role>, contents: Page)
    requires Wf(m, role) && m.free != []
    ensures Elsewhere(m, Popped(m, contents), role, 0, 0, 0) && SameData(m, Popped(m, contents), role)
  {
    assert m.free[0] !in role;
    forall e: nat, vp: nat | IsDir(role, e) && vp < VPAGES ensures Pte(Popped(m, contents), e, vp) == Pte(m, e, vp) {
      PoppedAt(m, role, contents, e, 0, vp);
    }
  }

  lemma FillKeeps(m: Mem, role: map<nat, Role>, f: nat, contents: Page)
    requires Wf(m, role) && f in role && role[f] == Other
    ensures f < |m.pages| && Wf(Mem(m.pages[f := contents], m.free), role)
    ensures Elsewhere(m, Mem(m.pages[f := contents], m.free), role, 0, 0, 0) && SameData(m, Mem(m.pages[f := contents], m.free), role - {f})
  {
    OverwriteSame(m, role, f, contents, m.free);
    hide Pte, Pde, Present, Frame;
    assert Forward(Mem(m.pages[f := contents], m.free), role);
  }

  lemma PteSame(m: Mem, m1: Mem, role: map<nat, Role>, role1: map<nat, Role>, d: nat, vp: nat)
    requires Forward(m, role) && Forward(m1, role1) && IsDir(role, d) && vp < VPAGES && |m1.pages| == |m.pages|
    requires Elsewhere(m, m1, role, d, 0, 0)
    ensures d < |m.pages| && Pte(m1, d, vp) == Pte(m, d, vp)
  {}

  /** Setting the entry once the page table is there. */
  lemma MapEntry(m: Mem, role: map<nat, Role>, d: nat, vp: nat, f: nat, perm: nat)
    requires Wf(m, role) && IsDir(role, d) && vp < VPAGES && f < VPAGES && perm < 4096
    requires Present(Pde(m, d, vp / ENTRIES)) && !Present(Pte(m, d, vp)) && (vp < USER ==> f in role && role[f] == Other)
    ensures Frame(Pde(m, d, vp / ENTRIES)) < |m.pages|
    ensures var r := SetPte(m, d, vp, Entry(f, perm));
      && Wf(r, Assigned(role, d, vp, f)) && All(r, Assigned(role, d, vp, f)) == All(m, role)
      && Elsewhere(m, r, role, d, vp, vp + 1) && SameData(m, r, role) && Pte(r, d, vp) == Entry(f, perm) && r.free == m.free
  {
    hide Forward, Backward, FreeOk, Entry;
    SetPteFrame(m, role, d, vp, Entry(f, perm));
    if vp < USER {
      MapKeeps(m, role, d, vp, f, perm);
    } else {
      KernelMapKeeps(m, role, d, vp, Entry(f, perm));
    }
  }

  lemma MapCompose(m: Mem, m1: Mem, m2: Mem, role: map<nat, Role>, role1: map<nat, Role>, d: nat, vp: nat, f: nat)
    requires Forward(m, role) && Forward(m1, role1) && |m1.pages| == |m.pages| && |m2.pages| == |m.pages|
    requires MoreTables(role, role1, d) && IsDir(role, d) && (vp < USER ==> f in role)
    requires Elsewhere(m, m1, role, d, 0, 0) && SameData(m, m1, role)
    requires Elsewhere(m1, m2, role1, d, vp, vp + 1) && SameData(m1, m2, role1)
    ensures Elsewhere(m, m2, role, d, vp, vp + 1) && SameData(m, m2, role)
    ensures MoreTables(Assigned(role, d, vp, f), Assigned(role1, d, vp, f), d)
  {
    hide Pte;
    forall e: nat | IsDir(role, e) ensures IsDir(role1, e) {}
  }

  // ---------------------------------------------------------------- mapping a range

  lemma StartMapping(m: Mem, role: map<nat, Role>, d: nat, vp: nat)
    requires Wf(m, role)
    ensures Elsewhere(m, m, role, d, vp, vp) && SameData(m, m, role) && MoreTables(role, role, d)
    ensures IsDir(role, d) ==> d < |m.pages|
  {}

  /** The entries of a range that is mapped up to page vp. */
  ghost predicate MappedTo(m: Mem, d: nat, lo: nat, vp: nat, hi: nat, pf: nat, perm: nat)
    requires lo <= vp <= hi <= VPAGES && pf + (hi - lo) <= VPAGES && perm < 4096
  {
    && d < |m.pages|
    && (forall v: nat :: lo <= v < vp ==> Pte(m, d, v) == Entry(pf + (v - lo), perm))
    && (forall v: nat :: vp <= v < hi ==> !Present(Pte(m, d, v)))
  }

  lemma MapNext(m1: Mem, m2: Mem, role: map<nat, Role>, d: nat, lo: nat, vp: nat, hi: nat, pf: nat, perm: nat)
    requires lo <= vp < hi <= VPAGES && pf + (hi - lo) <= VPAGES && perm < 4096 && IsDir(role, d)
    requires MappedTo(m1, d, lo, vp, hi, pf, perm) && Elsewhere(m1, m2, role, d, vp, vp + 1)
    requires d < |m2.pages| && Pte(m2, d, vp) == Entry(pf + (vp - lo), perm)
    ensures MappedTo(m2, d, lo, vp + 1, hi, pf, perm)
  {
    hide Pte, Entry;
  }

  lemma DirIsPage(m: Mem, role: map<nat, Role>, d: nat)
    requires Wf(m, role) && IsDir(role, d)
    ensures d < |m.pages|
  {}

  ghost predicate Kept(role: map<nat, Role>, role': map<nat, Role>) {
    forall f :: f in role ==> f in role' && role'[f] == role[f]
  }

  lemma ElsewhereThen(m: Mem, m1: Mem, r: Mem, role: map<nat, Role>, role1: map<nat, Role>, d: nat, lo: nat, hi: nat)
    requires Kept(role, role1) && Elsewhere(m, m1, role, d, lo, hi) && Elsewhere(m1, r, role1, d, lo, hi)
    ensures Elsewhere(m, r, role, d, lo, hi)
  {
    hide Pte;
    assert forall e: nat :: IsDir(role, e) ==> IsDir(role1, e);
  }

  lemma SameDataThen(m: Mem, m1: Mem, r: Mem, role: map<nat, Role>, role1: map<nat, Role>)
    requires Kept(role, role1) && SameData(m, m1, role) && SameData(m1, r, role1)
    ensures SameData(m, r, role)
  {}

  /** A change outside every directory is one outside a range of d. */
  lemma Nowhere(m: Mem, r: Mem, role: map<nat, Role>, d: nat, lo: nat, hi: nat)
    requires Elsewhere(m, r, role, 0, 0, 0)
    ensures Elsewhere(m, r, role, d, lo, hi)
  {
    hide Pte;
  }

  lemma WidenFrom(m: Mem, r: Mem, role: map<nat, Role>, d: nat, lo: nat, mid: nat, hi: nat)
    requires Elsewhere(m, r, role, d, mid, hi) && lo <= mid
    ensures Elsewhere(m, r, role, d, lo, hi)
  {
    hide Pte;
  }

  lemma WidenTo(m: Mem, r: Mem, role: map<nat, Role>, d: nat, lo: nat, hi: nat, hi': nat)
    requires Elsewhere(m, r, role, d, lo, hi) && hi <= hi'
    ensures Elsewhere(m, r, role, d, lo, hi')
  {
    hide Pte;
  }

  lemma FirstUnmapped(m: Mem, d: nat, lo: nat, vp: nat, hi: nat, pf: nat, perm: nat)
    requires lo <= vp < hi <= VPAGES && pf + (hi - lo) <= VPAGES && perm < 4096 && MappedTo(m, d, lo, vp, hi, pf, perm)
    ensures d < |m.pages| && !Present(Pte(m, d, vp))
  {}

  lemma KernelOwnsNothing(role: map<nat, Role>, d: nat, vp: nat, f: nat)
    ensures vp >= USER ==> Assigned(role, d, vp, f) == role
  {}

  lemma MoreMapping(m: Mem, m1: Mem, m2: Mem, role: map<nat, Role>, role1: map<nat, Role>, role2: map<nat, Role>, d: nat, lo: nat, vp: nat, pf: nat)
    requires Wf(m, role) && USER <= lo <= vp && IsDir(role, d)
    requires MoreTables(role, role1, d) && MoreTables(Assigned(role1, d, vp, pf + (vp - lo)), role2, d)
    requires Elsewhere(m, m1, role, d, lo, vp) && SameData(m, m1, role)
    requires Elsewhere(m1, m2, role1, d, vp, vp + 1) && SameData(m1, m2, role1)
    ensures Elsewhere(m, m2, role, d, lo, vp + 1) && SameData(m, m2, role) && MoreTables(role, role2, d)
  {
    DirsIn(m, role);
    hide Pte, Forward;
    assert forall e: nat :: IsDir(role, e) ==> IsDir(role1, e);
  }

  // ---------------------------------------------------------------- shrinking

  ghost predicate InRange(r: Role, d: nat, lo: nat, hi: nat) { r.User? && r.dir == d && lo <= r.vp < hi }

  ghost function WithoutUsers(role: map<nat, Role>, d: nat, lo: nat, hi: nat): (r: map<nat, Role>)
    ensures forall f :: f in r <==> f in role && !InRange(role[f], d, lo, hi)
    ensures forall f :: f in r ==> r[f] == role[f]
  {
    map f | f in role && !InRange(role[f], d, lo, hi) :: role[f]
  }

  /** The user pages [lo, hi) of d are gone: unmapped and free. Everything else is as it was. */
  ghost predicate Shrunk(m: Mem, role: map<nat, Role>, r: Mem, role': map<nat, Role>, d: nat, lo: nat, hi: nat) {
    && Elsewhere(m, r, role, d, lo, hi) && SameData(m, r, role') && role' == WithoutUsers(role, d, lo, hi)
    && d < |r.pages| && d < |m.pages| && (forall i: nat :: i < ENTRIES ==> Pde(r, d, i) == Pde(m, d, i))
    && (forall vp: nat :: lo <= vp < hi && vp < VPAGES ==> !Present(Pte(r, d, vp)))
  }

  lemma NothingShrunk(m: Mem, role: map<nat, Role>, d: nat, lo: nat, hi: nat)
    requires Wf(m, role) && IsDir(role, d) && hi <= lo
    ensures Shrunk(m, role, m, role, d, lo, hi)
  {
    assert WithoutUsers(role, d, lo, hi) == role;
  }

  /** Pages that are not mapped need nothing, whether one of them or a whole absent table. */
  lemma ShrinkSkip(m: Mem, role: map<nat, Role>, r: Mem, role': map<nat, Role>, d: nat, lo: nat, a: nat, next: nat)
    requires Wf(r, role') && IsDir(role', d) && Shrunk(m, role, r, role', d, lo, a) && lo <= a < next <= USER
    requires (next <= (a / ENTRIES + 1) * ENTRIES && !Present(Pde(r, d, a / ENTRIES))) || (next == a + 1 && !Present(Pte(r, d, a)))
    ensures Shrunk(m, role, r, role', d, lo, next)
  {
    forall vp: nat | a <= vp < next ensures !Present(Pte(r, d, vp)) {
      if vp != a {
        assert vp / ENTRIES == a / ENTRIES;
      }
    }
    assert role' == WithoutUsers(role, d, lo, next) by {
      forall f | f in role' && role'[f].User? && role'[f].dir == d ensures role'[f].vp < a || next <= role'[f].vp {
        assert Plays(r, role', f);
      }
    }
    hide Pte;
    assert Elsewhere(m, r, role, d, lo, next);
  }

  lemma ShrinkStep(m: Mem, role: map<nat, Role>, r: Mem, role': map<nat, Role>, z: Mem, role'': map<nat, Role>, d: nat, lo: nat, a: nat)
    requires Shrunk(m, role, r, role', d, lo, a) && lo <= a < USER && IsDir(role', d)
    requires forall e: nat :: IsDir(role', e) ==> e < |r.pages|
    requires Elsewhere(r, z, role', d, a, a + 1) && SameData(r, z, role'') && d < |z.pages| && Pte(z, d, a) == 0
    requires forall i: nat :: i < ENTRIES ==> Pde(z, d, i) == Pde(r, d, i)
    requires role'' == WithoutUsers(role, d, lo, a + 1)
    ensures Shrunk(m, role, z, role'', d, lo, a + 1)
  {
    hide Pte, Pde;
    assert forall e: nat :: IsDir(role, e) ==> IsDir(role', e);
    assert Elsewhere(m, z, role, d, lo, a + 1);
    assert forall f :: f in role'' ==> f in role';
  }

  lemma ShrinkRole(m: Mem, role: map<nat, Role>, r: Mem, role': map<nat, Role>, d: nat, lo: nat, a: nat)
    requires Wf(r, role') && IsDir(role', d) && Shrunk(m, role, r, role', d, lo, a) && lo <= a < USER && Present(Pte(r, d, a))
    ensures role' - {Frame(Pte(r, d, a))} == WithoutUsers(role, d, lo, a + 1)
    ensures forall e: nat :: IsDir(role', e) ==> e < |r.pages|
  {
    var f := Frame(Pte(r, d, a));
    assert role'[f] == User(d, a);
    forall g | g in role' && role'[g].User? && role'[g].dir == d && role'[g].vp == a ensures g == f {
      assert Plays(r, role', g);
    }
    DropUser(role, role', d, lo, a, f);
  }

  lemma DropUser(role: map<nat, Role>, role': map<nat, Role>, d: nat, lo: nat, a: nat, f: nat)
    requires role' == WithoutUsers(role, d, lo, a) && f in role' && role'[f] == User(d, a) && lo <= a
    requires forall g :: g in role' && role'[g].User? && role'[g].dir == d && role'[g].vp == a ==> g == f
    ensures role' - {f} == WithoutUsers(role, d, lo, a + 1)
  {}

  lemma ShrunkAll(m: Mem, role: map<nat, Role>, r: Mem, role': map<nat, Role>, d: nat)
    requires Shrunk(m, role, r, role', d, PagesUp(0), PagesUp(KERNBASE))
    ensures forall vp: nat :: vp < USER ==> d < |r.pages| && !Present(Pte(r, d, vp))
    ensures role' == WithoutUsers(role, d, 0, USER) && Elsewhere(m, r, role, d, 0, USER) && SameData(m, r, role')
  {
    hide Pte;
  }

  // ---------------------------------------------------------------- freeing an address space

  /** While freevm frees page tables: those below entry i are gone, the rest are held. */
  ghost predicate Undone(role1: map<nat, Role>, role: map<nat, Role>, d: nat, i: nat) {
    && (forall f :: f in role <==> f in role1 && !(role1[f].Table? && role1[f].dir == d && role1[f].i < i))
    && (forall f :: f in role ==> (Belongs(role1, f, d) ==> role[f] == Other) && (!Belongs(role1, f, d) ==> role[f] == role1[f]))
  }

  /** What does not belong to d is as it was. */
  ghost predicate Untouched(m: Mem, r: Mem, role: map<nat, Role>, d: nat) {
    Elsewhere(m, r, WithoutDir(role, d), 0, 0, 0) && SameData(m, r, WithoutDir(role, d))
  }

  lemma DirPages(m: Mem, role: map<nat, Role>, d: nat)
    requires Wf(m, role) && IsDir(role, d)
    ensures Undone(role, Dismantled(role, d), d, 0) && d < |m.pages|
    ensures Untouched(m, m, role, d)
  {}

  lemma DirPage(m1: Mem, role1: map<nat, Role>, role: map<nat, Role>, d: nat, i: nat)
    requires Wf(m1, role1) && IsDir(role1, d) && i < ENTRIES && Present(m1.pages[d][i]) && Undone(role1, role, d, i)
    ensures Frame(m1.pages[d][i]) in role1 && role1[Frame(m1.pages[d][i])] == Table(d, i) && Frame(m1.pages[d][i]) != d
    ensures Frame(m1.pages[d][i]) in role && role[Frame(m1.pages[d][i])] == Other
  {
    assert Present(Pde(m1, d, i));
  }

  lemma DirNoPage(m1: Mem, role1: map<nat, Role>, role: map<nat, Role>, d: nat, i: nat)
    requires Wf(m1, role1) && IsDir(role1, d) && i < ENTRIES && !Present(m1.pages[d][i]) && Undone(role1, role, d, i)
    ensures Undone(role1, role, d, i + 1)
  {
    forall f | f in role1 && role1[f].Table? && role1[f].dir == d ensures role1[f].i != i {
      assert Plays(m1, role1, f);
    }
  }

  lemma UndoStep(m1: Mem, m2: Mem, m: Mem, role1: map<nat, Role>, role2: map<nat, Role>, role: map<nat, Role>, d: nat, i: nat)
    requires Wf(m1, role1) && IsDir(role1, d) && i < ENTRIES && Present(m1.pages[d][i]) && Undone(role1, role2, d, i)
    requires role == role2 - {Frame(m1.pages[d][i])}
    requires Untouched(m1, m2, role1, d)
    requires Elsewhere(m2, m, role2, 0, 0, 0) && SameData(m2, m, role)
    ensures Undone(role1, role, d, i + 1)
    ensures Untouched(m1, m, role1, d)
  {
    hide Pte, Pde, Wf;
    DirPage(m1, role1, role2, d, i);
    OneTable(m1, role1, d, i);
    StillOutside(role1, role, d, i + 1);
    StillOutside(role1, role2, d, i);
  }

  lemma OneTable(m: Mem, role: map<nat, Role>, d: nat, i: nat)
    requires Wf(m, role) && IsDir(role, d) && i < ENTRIES
    ensures d < |m.pages| && forall f :: f in role && role[f] == Table(d, i) ==> f == Frame(m.pages[d][i])
  {
    forall f | f in role && role[f] == Table(d, i) ensures f == Frame(m.pages[d][i]) {
      assert Plays(m, role, f);
    }
  }

  lemma DirHeld(role1: map<nat, Role>, role: map<nat, Role>, d: nat)
    requires Undone(role1, role, d, ENTRIES) && IsDir(role1, d)
    ensures d in role && role[d] == Other
  {}

  lemma StillOutside(role1: map<nat, Role>, role: map<nat, Role>, d: nat, i: nat)
    requires Undone(role1, role, d, i)
    ensures forall f :: f in WithoutDir(role1, d) ==> f in role && role[f] == role1[f]
    ensures forall e: nat :: IsDir(WithoutDir(role1, d), e) ==> IsDir(role, e)
  {}

  lemma UndoLast(m1: Mem, m3: Mem, m: Mem, role1: map<nat, Role>, role3: map<nat, Role>, role: map<nat, Role>, d: nat)
    requires Wf(m1, role1) && IsDir(role1, d) && Undone(role1, role3, d, ENTRIES) && role == role3 - {d}
    requires forall f :: Belongs(role1, f, d) ==> !role1[f].User?
    requires Untouched(m1, m3, role1, d)
    requires Elsewhere(m3, m, role3, 0, 0, 0) && SameData(m3, m, role)
    ensures role == WithoutDir(role1, d)
    ensures Elsewhere(m1, m, role, 0, 0, 0) && SameData(m1, m, role)
  {
    StillOutside(role1, role3, d, ENTRIES);
    forall f | f in role1 && role1[f].Table? && role1[f].dir == d ensures role1[f].i < ENTRIES {
      assert Plays(m1, role1, f);
    }
    hide Pte, Pde;
    assert role == WithoutDir(role1, d);
  }

  lemma FreedDir(m0: Mem, m1: Mem, m: Mem, role0: map<nat, Role>, role1: map<nat, Role>, role: map<nat, Role>, d: nat)
    requires role1 == WithoutUsers(role0, d, 0, USER) && role == WithoutDir(role1, d)
    requires Wf(m0, role0) && IsDir(role0, d)
    requires Elsewhere(m0, m1, role0, d, 0, USER) && SameData(m0, m1, role1)
    requires Elsewhere(m1, m, role, 0, 0, 0) && SameData(m1, m, role)
    ensures role == WithoutDir(role0, d) && Elsewhere(m0, m, role, 0, 0, 0) && SameData(m0, m, role)
  {
    hide Pte, Pde, Elsewhere, SameData;
    SameDir(m0, role0, d);
    assert Kept(role, role0) && Kept(role, role1) && d !in role;
    OutsideD(m0, m1, role0, role, d, 0, USER);
    FewerSame(m0, m1, role1, role);
    ElsewhereThen(m0, m1, m, role, role, 0, 0, 0);
    SameDataThen(m0, m1, m, role, role);
  }

  lemma SameDir(m0: Mem, role0: map<nat, Role>, d: nat)
    requires Wf(m0, role0)
    ensures WithoutDir(WithoutUsers(role0, d, 0, USER), d) == WithoutDir(role0, d)
  {
    UsersBelow(m0, role0, d);
    hide Wf;
    var a, b := WithoutDir(WithoutUsers(role0, d, 0, USER), d), WithoutDir(role0, d);
    assert forall f :: f in a <==> f in b;
    assert forall f :: f in a ==> a[f] == b[f];
  }

  lemma UsersBelow(m0: Mem, role0: map<nat, Role>, d: nat)
    requires Wf(m0, role0)
    ensures forall f :: f in role0 && role0[f].User? && role0[f].dir == d ==> role0[f].vp < USER
  {
    forall f | f in role0 && role0[f].User? && role0[f].dir == d ensures role0[f].vp < USER {
      assert Plays(m0, role0, f);
    }
  }

  /** What happened to the entries of d does not concern other directories. */
  lemma OutsideD(m: Mem, r: Mem, role: map<nat, Role>, role': map<nat, Role>, d: nat, lo: nat, hi: nat)
    requires Kept(role', role) && d !in role' && Elsewhere(m, r, role, d, lo, hi)
    ensures Elsewhere(m, r, role', 0, 0, 0)
  {
    hide Pte;
    assert forall e: nat :: IsDir(role', e) ==> IsDir(role, e) && e != d;
  }

  lemma FewerSame(m: Mem, r: Mem, role: map<nat, Role>, role': map<nat, Role>)
    requires Kept(role', role) && SameData(m, r, role)
    ensures SameData(m, r, role')
  {}

  // ---------------------------------------------------------------- growing

  /** Virtual page vp of d is now the page f, with the given contents; page tables may be new. */
  ghost predicate PageAdded(m: Mem, role: map<nat, Role>, r: Mem, role': map<nat, Role>, d: nat, vp: nat, f: nat, contents: Page, perm: nat)
    requires perm < 4096 && vp < VPAGES
  {
    && Elsewhere(m, r, role, d, vp, vp + 1) && SameData(m, r, role) && MoreTables(role[f := User(d, vp)], role', d)
    && f < |r.pages| && f < VPAGES && d < |r.pages| && Pte(r, d, vp) == Entry(f, perm) && r.pages[f] == contents
  }

  lemma HeldFilled(m: Mem, m1: Mem, m2: Mem, role: map<nat, Role>, role1: map<nat, Role>, d: nat, vp: nat, f: nat)
    requires Forward(m, role) && Wf(m2, role1) && f !in role && role1 == role[f := Other] && IsDir(role, d) && vp < VPAGES
    requires Elsewhere(m, m1, role, 0, 0, 0) && SameData(m, m1, role)
    requires Elsewhere(m1, m2, role1, 0, 0, 0) && SameData(m1, m2, role1 - {f})
    ensures f < |m2.pages| <= VPAGES && Elsewhere(m, m2, role, 0, 0, 0) && SameData(m, m2, role)
    ensures d < |m.pages| && d < |m2.pages| && Pte(m2, d, vp) == Pte(m, d, vp)
  {
    assert f in role1;
    hide Pte;
    assert forall e: nat :: IsDir(role, e) <==> IsDir(role1, e);
  }

  lemma PageIn(m: Mem, m2: Mem, r: Mem, role: map<nat, Role>, role1: map<nat, Role>, role': map<nat, Role>, d: nat, vp: nat, f: nat, contents: Page, perm: nat)
    requires Forward(m, role) && f !in role && role1 == role[f := Other] && IsDir(role, d) && vp < USER && f < VPAGES && perm < 4096
    requires Elsewhere(m, m2, role, 0, 0, 0) && SameData(m, m2, role) && f < |m2.pages| && m2.pages[f] == contents
    requires Elsewhere(m2, r, role1, d, vp, vp + 1) && SameData(m2, r, role1) && MoreTables(Assigned(role1, d, vp, f), role', d)
    requires d < |r.pages| && Pte(r, d, vp) == Entry(f, perm)
    ensures PageAdded(m, role, r, role', d, vp, f, contents, perm)
  {
    hide Pte;
    assert forall e: nat :: IsDir(role, e) <==> IsDir(role1, e);
    assert Assigned(role1, d, vp, f) == role[f := User(d, vp)];
  }

  /** The pages [lo, hi) of d are new pages of zeros with user and write permission. */
  ghost predicate Grown(m: Mem, role: map<nat, Role>, r: Mem, role': map<nat, Role>, d: nat, lo: nat, hi: nat) {
    && Elsewhere(m, r, role, d, lo, hi) && SameData(m, r, role) && d < |r.pages|
    && (forall vp: nat :: lo <= vp < hi && vp < VPAGES ==> Present(Pte(r, d, vp)) && Flags(Pte(r, d, vp)) == PTE_P + PTE_W + PTE_U)
    && (forall vp: nat :: lo <= vp < hi && vp < VPAGES ==> Frame(Pte(r, d, vp)) !in role && Frame(Pte(r, d, vp)) < |r.pages| && r.pages[Frame(Pte(r, d, vp))] == ZeroPage())
    && (forall f :: f in role ==> f in role' && role'[f] == role[f])
    && (forall f :: f in role' && f !in role ==> (role'[f].Table? && role'[f].dir == d) || InRange(role'[f], d, lo, hi))
  }

  /** Nothing is mapped that was not before, and no page is lost but to page tables of d. */
  ghost predicate GaveUp(m: Mem, role: map<nat, Role>, r: Mem, role': map<nat, Role>, d: nat, lo: nat, hi: nat) {
    && Elsewhere(m, r, role, d, lo, hi) && SameData(m, r, role) && MoreTables(role, role', d) && d < |r.pages|
    && (forall vp: nat :: lo <= vp < hi && vp < VPAGES ==> !Present(Pte(r, d, vp)))
  }

  lemma NothingGrown(m: Mem, role: map<nat, Role>, d: nat, lo: nat)
    requires Wf(m, role) && IsDir(role, d)
    ensures Grown(m, role, m, role, d, lo, lo)
  {}

  lemma StillUnmapped(m: Mem, role: map<nat, Role>, r: Mem, role': map<nat, Role>, d: nat, lo: nat, a: nat, hi: nat)
    requires Wf(m, role) && IsDir(role, d) && d < |m.pages| && Grown(m, role, r, role', d, lo, a) && lo <= a < hi <= USER
    requires forall vp: nat :: lo <= vp < hi && vp < USER ==> !Present(Pte(m, d, vp))
    ensures d < |r.pages| && !Present(Pte(r, d, a))
  {
    hide Pte;
  }

  lemma GrowStep(m: Mem, role: map<nat, Role>, m1: Mem, role1: map<nat, Role>, r: Mem, role': map<nat, Role>, d: nat, lo: nat, a: nat, f: nat)
    requires Wf(m, role) && Wf(m1, role1) && IsDir(role, d) && Grown(m, role, m1, role1, d, lo, a) && lo <= a < USER && f !in role1
    requires PageAdded(m1, role1, r, role', d, a, f, ZeroPage(), PTE_W + PTE_U)
    ensures Grown(m, role, r, role', d, lo, a + 1)
  {
    hide Pte, Forward, Backward, FreeOk, ZeroPage, Elsewhere, SameData;
    UserPages(m1, role1, d);
    DirsIn(m, role);
    assert Kept(role, role1);
    WidenTo(m, m1, role, d, lo, a, a + 1);
    WidenFrom(m1, r, role1, d, lo, a, a + 1);
    ElsewhereThen(m, m1, r, role, role1, d, lo, a + 1);
    SameDataThen(m, m1, r, role, role1);
    GrowEntries(m, role, m1, role1, r, role', d, lo, a, f);
  }

  lemma UserPages(m: Mem, role: map<nat, Role>, d: nat)
    requires Wf(m, role) && IsDir(role, d)
    ensures d < |m.pages|
    ensures forall vp: nat :: vp < USER && Present(Pte(m, d, vp)) ==> Frame(Pte(m, d, vp)) in role && role[Frame(Pte(m, d, vp))] == User(d, vp)
  {}

  lemma GrowEntries(m: Mem, role: map<nat, Role>, m1: Mem, role1: map<nat, Role>, r: Mem, role': map<nat, Role>, d: nat, lo: nat, a: nat, f: nat)
    requires IsDir(role, d) && IsDir(role1, d) && Grown(m, role, m1, role1, d, lo, a) && lo <= a < USER && f !in role1 && d < |m1.pages|
    requires forall vp: nat :: vp < USER && Present(Pte(m1, d, vp)) ==> Frame(Pte(m1, d, vp)) in role1 && role1[Frame(Pte(m1, d, vp))] == User(d, vp)
    requires PageAdded(m1, role1, r, role', d, a, f, ZeroPage(), PTE_W + PTE_U)
    ensures forall vp: nat :: lo <= vp < a + 1 && vp < VPAGES ==> Present(Pte(r, d, vp)) && Flags(Pte(r, d, vp)) == PTE_P + PTE_W + PTE_U
    ensures forall vp: nat :: lo <= vp < a + 1 && vp < VPAGES ==> Frame(Pte(r, d, vp)) !in role && Frame(Pte(r, d, vp)) < |r.pages| && r.pages[Frame(Pte(r, d, vp))] == ZeroPage()
  {
    hide Pte, ZeroPage;
  }

  lemma DirsIn(m: Mem, role: map<nat, Role>)
    requires Forward(m, role)
    ensures forall e: nat :: IsDir(role, e) ==> e < |m.pages|
  {}

  lemma GiveUp(m: Mem, role: map<nat, Role>, m1: Mem, role1: map<nat, Role>, m2: Mem, role2: map<nat, Role>, r: Mem, role': map<nat, Role>, d: nat, lo: nat, a: nat, hi: nat, f: Option<nat>)
    requires Wf(m, role) && IsDir(role, d) && Grown(m, role, m1, role1, d, lo, a) && lo <= a < hi <= USER
    requires forall vp: nat :: lo <= vp < hi ==> d < |m.pages| && !Present(Pte(m, d, vp))
    requires f.Some? ==> f.value !in role1
    requires role2 == if f.Some? then role1[f.value := Other] else role1
    requires Elsewhere(m1, m2, role1, 0, 0, 0) && SameData(m1, m2, role1) && Shrunk(m2, role2, r, role', d, lo, hi)
    ensures f.None? ==> GaveUp(m, role, r, role', d, lo, hi)
    ensures f.Some? ==> f.value in role' && role'[f.value] == Other && GaveUp(m, role, r, role' - {f.value}, d, lo, hi)
  {
    hide Pte, Pde, Forward, Backward, FreeOk, WithoutUsers, Elsewhere, SameData, MoreTables, InRange;
    DirsIn(m, role);
    NoUsersIn(m, role, d, lo, hi);
    GiveUpRoles(role, role1, role2, role', d, lo, a, hi, f);
    WidenTo(m, m1, role, d, lo, a, hi);
    Nowhere(m1, m2, role1, d, lo, hi);
    ElsewhereThen(m, m1, m2, role, role1, d, lo, hi);
    ElsewhereThen(m, m2, r, role, role2, d, lo, hi);
    SameDataThen(m, m1, m2, role, role1);
    SameDataThen(m, m2, r, role, role');
  }

  lemma GiveUpRoles(role: map<nat, Role>, role1: map<nat, Role>, role2: map<nat, Role>, role': map<nat, Role>, d: nat, lo: nat, a: nat, hi: nat, f: Option<nat>)
    requires Kept(role, role1) && lo <= a < hi && (f.Some? ==> f.value !in role1)
    requires forall g :: g in role1 && g !in role ==> (role1[g].Table? && role1[g].dir == d) || InRange(role1[g], d, lo, a)
    requires role2 == (if f.Some? then role1[f.value := Other] else role1) && role' == WithoutUsers(role2, d, lo, hi)
    requires forall g :: g in role && role[g].User? && role[g].dir == d ==> role[g].vp < lo || hi <= role[g].vp
    ensures Kept(role, role2) && Kept(role, role')
    ensures f.None? ==> MoreTables(role, role', d)
    ensures f.Some? ==> f.value in role' && role'[f.value] == Other && MoreTables(role, role' - {f.value}, d)
  {}

  lemma NoUsersIn(m: Mem, role: map<nat, Role>, d: nat, lo: nat, hi: nat)
    requires Wf(m, role) && hi <= USER && d < |m.pages| && forall vp: nat :: lo <= vp < hi ==> !Present(Pte(m, d, vp))
    ensures forall g :: g in role && role[g].User? && role[g].dir == d ==> role[g].vp < lo || hi <= role[g].vp
  {
    forall g | g in role && role[g].User? && role[g].dir == d ensures role[g].vp < lo || hi <= role[g].vp {
      assert Plays(m, role, g);
    }
  }

  lemma GiveBack(m: Mem, role: map<nat, Role>, m3: Mem, role3: map<nat, Role>, r: Mem, role': map<nat, Role>, d: nat, lo: nat, hi: nat, f: nat)
    requires Wf(m, role) && IsDir(role, d) && role' == role3 - {f} && GaveUp(m, role, m3, role', d, lo, hi) && hi <= USER
    requires Elsewhere(m3, r, role3, 0, 0, 0) && SameData(m3, r, role')
    ensures GaveUp(m, role, r, role', d, lo, hi)
  {
    DirsIn(m, role);
    hide Pte, Pde, Forward, Backward, FreeOk;
    assert forall e: nat :: IsDir(role, e) ==> IsDir(role3, e);
  }

  // ---------------------------------------------------------------- the kernel's mappings

  const KERNLINK: nat := USER + 0x100
  /** P2V(PHYSTOP), in pages. */
  const PHYSTOP_V: nat := 0xA0000
  const DEVSPACE: nat := 0xFE000

  datatype Region = Region(virt: nat, phys: nat, n: nat, perm: nat)

  /** The table kmap. */
  function Kmap(data: nat): (r: seq<Region>)
    requires KERNLINK < data < PHYSTOP_V
  {
    [ Region(USER, 0, 0x100, PTE_W),
      Region(KERNLINK, 0x100, data - KERNLINK, 0),
      Region(data, data - USER, PHYSTOP_V - data, PTE_W),
      Region(DEVSPACE, DEVSPACE, VPAGES - DEVSPACE, PTE_W) ]
  }

  /** What setupkvm maps a virtual page to: physical memory at KERNBASE, read-only below the
      kernel's data, and device space at itself. */
  function KernelPte(data: nat, v: nat): (x: Word)
    requires KERNLINK < data < PHYSTOP_V && v < VPAGES
  {
    if USER <= v < PHYSTOP_V then Entry(v - USER, if KERNLINK <= v < data then 0 else PTE_W)
    else if DEVSPACE <= v then Entry(v, PTE_W)
    else 0
  }

  /** Where the first k regions end. */
  ghost function Bound(data: nat, k: nat): (b: nat)
    requires KERNLINK < data < PHYSTOP_V && k <= 4
    ensures k < 4 ==> b <= Kmap(data)[k].virt && Bound(data, k + 1) == Kmap(data)[k].virt + Kmap(data)[k].n
    ensures USER <= b <= VPAGES
    decreases 4 - k
  {
    var next := if k < 4 then Bound(data, k + 1) else 0;
    if k == 0 then USER else if k == 1 then KERNLINK else if k == 2 then data else if k == 3 then PHYSTOP_V else VPAGES
  }

  /** Kernel mappings below page b, nothing from there on. */
  ghost predicate KernelUpTo(m: Mem, d: nat, data: nat, b: nat)
    requires KERNLINK < data < PHYSTOP_V
  {
    && d < |m.pages|
    && (forall v: nat :: v < b && v < VPAGES ==> Pte(m, d, v) == KernelPte(data, v))
    && (forall v: nat :: b <= v < VPAGES ==> Pte(m, d, v) == 0)
  }

  /** A page of zeros is an empty directory. */
  lemma NewDir(m: Mem, m1: Mem, r: Mem, role: map<nat, Role>, role1: map<nat, Role>, d: nat, data: nat)
    requires Wf(m, role) && Wf(r, role1) && d !in role && role1 == role[d := Other] && KERNLINK < data < PHYSTOP_V
    requires Elsewhere(m, m1, role, 0, 0, 0) && SameData(m, m1, role)
    requires Elsewhere(m1, r, role1, 0, 0, 0) && SameData(m1, r, role1 - {d}) && d < |r.pages| && r.pages[d] == ZeroPage()
    ensures Wf(r, role[d := Dir]) && All(r, role[d := Dir]) == All(r, role1) && MoreTables(role[d := Dir], role[d := Dir], d)
    ensures Elsewhere(m, r, role, 0, 0, 0) && SameData(m, r, role) && KernelUpTo(r, d, data, Bound(data, 0))
  {
    EmptyDir(r, role, d);
    EmptyDirEntries(r, d, data);
    hide Pte, Pde, Forward, Backward, FreeOk, KernelUpTo;
    assert role[d := Dir].Keys == role1.Keys;
    assert Kept(role, role1) && Kept(role, role1 - {d});
    ElsewhereThen(m, m1, r, role, role1, 0, 0, 0);
    SameDataThen(m, m1, r, role, role1 - {d});
  }

  lemma EmptyDirEntries(r: Mem, d: nat, data: nat)
    requires d < |r.pages| && r.pages[d] == ZeroPage() && KERNLINK < data < PHYSTOP_V
    ensures forall v: nat :: v < VPAGES ==> Pte(r, d, v) == 0
    ensures KernelUpTo(r, d, data, Bound(data, 0))
  {
    forall v: nat | v < VPAGES ensures Pte(r, d, v) == 0 {
      assert Pde(r, d, v / ENTRIES) == 0;
    }
    hide Pte;
  }

  lemma EmptyDir(r: Mem, role: map<nat, Role>, d: nat)
    requires Wf(r, role[d := Other]) && d !in role && d < |r.pages| && r.pages[d] == ZeroPage()
    ensures Wf(r, role[d := Dir])
  {
    var held, role' := role[d := Other], role[d := Dir];
    forall i: nat | i < ENTRIES ensures !Present(Pde(r, d, i)) {}
    forall vp: nat | vp < VPAGES ensures !Present(Pte(r, d, vp)) {
      assert !Present(Pde(r, d, vp / ENTRIES));
    }
    hide Pde, Pte, Present, Frame;
    assert forall e: nat :: IsDir(role', e) <==> e == d || IsDir(held, e);
    assert Forward(r, role');
    forall f | f in role' ensures f < |r.pages| && Plays(r, role', f) {
      assert f in held && Plays(r, held, f);
    }
  }

  lemma RegionFree(m: Mem, d: nat, data: nat, k: nat)
    requires KERNLINK < data < PHYSTOP_V && k < 4 && KernelUpTo(m, d, data, Bound(data, k))
    ensures var g := Kmap(data)[k];
      && 0 < g.n && USER <= g.virt && g.virt + g.n <= VPAGES && g.phys + g.n <= VPAGES && g.perm < 4096
      && MappedTo(m, d, g.virt, g.virt, g.virt + g.n, g.phys, g.perm)
  {
    hide Pte;
  }

  lemma RegionDone(m: Mem, r: Mem, role: map<nat, Role>, d: nat, data: nat, k: nat)
    requires KERNLINK < data < PHYSTOP_V && k < 4 && KernelUpTo(m, d, data, Bound(data, k)) && IsDir(role, d)
    requires var g := Kmap(data)[k];
      && USER <= g.virt && g.virt + g.n <= VPAGES && g.phys + g.n <= VPAGES && g.perm < 4096
      && MappedTo(r, d, g.virt, g.virt + g.n, g.virt + g.n, g.phys, g.perm) && Elsewhere(m, r, role, d, g.virt, g.virt + g.n)
    ensures KernelUpTo(r, d, data, Bound(data, k + 1))
  {
    hide Pte, Entry;
  }

  /** Changes to d's own entries leave the directories of before alone. */
  lemma NotInD(m: Mem, m1: Mem, r: Mem, role: map<nat, Role>, role1: map<nat, Role>, role2: map<nat, Role>, d: nat, lo: nat, hi: nat)
    requires d !in role && role1 == role[d := Dir] && MoreTables(role1, role2, d)
    requires Elsewhere(m, m1, role, 0, 0, 0) && SameData(m, m1, role) && Elsewhere(m1, r, role2, d, lo, hi) && SameData(m1, r, role2)
    ensures Elsewhere(m, r, role, 0, 0, 0) && SameData(m, r, role)
  {
    hide Pte;
    assert Kept(role, role2);
    assert forall e: nat :: IsDir(role, e) ==> e != d && IsDir(role2, e);
  }

  lemma TablesSame(role: map<nat, Role>, d: nat)
    ensures MoreTables(role, role, d)
  {}

  lemma TablesThen(role: map<nat, Role>, role1: map<nat, Role>, role2: map<nat, Role>, d: nat)
    requires MoreTables(role, role1, d) && MoreTables(role1, role2, d)
    ensures MoreTables(role, role2, d)
  {}

  /** Freeing a directory made since leaves what there was before it. */
  lemma DirGone(m: Mem, m1: Mem, r: Mem, role: map<nat, Role>, role1: map<nat, Role>, d: nat)
    requires Wf(m, role) && d !in role && Kept(role, role1)
    requires forall f :: f in role1 && f !in role ==> Belongs(role1, f, d)
    requires Elsewhere(m, m1, role, 0, 0, 0) && SameData(m, m1, role)
    requires Elsewhere(m1, r, WithoutDir(role1, d), 0, 0, 0) && SameData(m1, r, WithoutDir(role1, d))
    ensures WithoutDir(role1, d) == role && Elsewhere(m, r, role, 0, 0, 0) && SameData(m, r, role)
  {
    forall f | f in role ensures !Belongs(role1, f, d) {
      assert Plays(m, role, f);
    }
    hide Pte, Forward, Backward, FreeOk;
    assert WithoutDir(role1, d) == role;
    ElsewhereThen(m, m1, r, role, role, 0, 0, 0);
  }

  // ---------------------------------------------------------------- pages needed

  /** The page tables that the kernel's mappings take. */
  const KTABLES: nat := (PHYSTOP_V - USER) / ENTRIES + (VPAGES - DEVSPACE) / ENTRIES

  predicate KernelTable(b: nat, i: nat) {
    USER <= i * ENTRIES < b && (i * ENTRIES < PHYSTOP_V || DEVSPACE <= i * ENTRIES)
  }

  /** The tables for the kernel's mappings below page b. */
  ghost function KernelTables(b: nat): (s: set<nat>) { set i: nat | i < ENTRIES && KernelTable(b, i) }

  lemma AllKernelTables()
    ensures |KernelTables(VPAGES)| == KTABLES && forall b: nat :: b <= VPAGES ==> KernelTables(b) <= KernelTables(VPAGES)
    ensures KernelTables(USER) == {}
  {
    var memory, devices := Numbers(USER / ENTRIES, PHYSTOP_V / ENTRIES), Numbers(DEVSPACE / ENTRIES, ENTRIES);
    assert KernelTables(VPAGES) == memory + devices && memory !! devices;
  }

  lemma RegionTables(data: nat, k: nat)
    requires KERNLINK < data < PHYSTOP_V && k < 4
    ensures KernelTables(Bound(data, k)) + Span(Kmap(data)[k].virt, Kmap(data)[k].virt + Kmap(data)[k].n) == KernelTables(Bound(data, k + 1))
  {
    var g := Kmap(data)[k];
    var a, b := KernelTables(Bound(data, k)) + Span(g.virt, g.virt + g.n), KernelTables(Bound(data, k + 1));
    hide KernelTables, Span;
    forall i: nat ensures i in a <==> i in b {
      RegionTable(data, k, i);
    }
  }

  lemma RegionTable(data: nat, k: nat, i: nat)
    requires KERNLINK < data < PHYSTOP_V && k < 4
    ensures var g := Kmap(data)[k];
      i in KernelTables(Bound(data, k + 1)) <==> i in KernelTables(Bound(data, k)) || i in Span(g.virt, g.virt + g.n)
  {
    var g := Kmap(data)[k];
    assert i in Span(g.virt, g.virt + g.n) <==> g.virt < (i + 1) * ENTRIES && i * ENTRIES < g.virt + g.n;
  }

  lemma NoTables(m: Mem, d: nat)
    requires d < |m.pages| && m.pages[d] == ZeroPage()
    ensures Has(m, d) == {}
  {}

  lemma TabledFacts(m: Mem, d: nat, r: Mem, span: set<nat>)
    requires Tabled(m, d, r, span)
    ensures d < |r.pages| && Has(r, d) == Has(m, d) + span && |r.free| + |Has(r, d)| == |m.free| + |Has(m, d)|
  {}

  lemma KernelShort(m: Mem, d: nat, r: Mem, b: nat, span: set<nat>)
    requires TablesShort(m, d, r, span) && Has(m, d) == KernelTables(b) && KernelTables(b) + span <= KernelTables(VPAGES)
    ensures |m.free| + |Has(m, d)| < KTABLES
  {
    hide Has, KernelTables;
    AllKernelTables();
    var i :| i in span && i !in Has(r, d);
    var rest := KernelTables(VPAGES) - Has(r, d);
    assert i in rest && KernelTables(VPAGES) == Has(r, d) + rest;
    assert |KernelTables(VPAGES)| == |Has(r, d)| + |rest|;
  }

  /** What allocuvm needs to map the pages [lo, hi): those pages and the tables that are absent. */
  ghost function GrowNeed(m: Mem, d: nat, lo: nat, hi: nat): (n: int)
    requires d < |m.pages|
  {
    hi - lo + Lacking(m, d, lo, hi)
  }

  lemma NoneNeeded(m: Mem, d: nat, lo: nat)
    requires d < |m.pages|
    ensures GrowNeed(m, d, lo, lo) == 0 && Has(m, d) + Span(lo, lo) == Has(m, d)
  {}

  lemma OneMoreNeeded(m: Mem, d: nat, lo: nat, a: nat, hi: nat)
    requires d < |m.pages| && lo <= a < hi
    ensures GrowNeed(m, d, lo, a + 1) == GrowNeed(m, d, lo, a) + 1 + if a / ENTRIES in Has(m, d) + Span(lo, a) then 0 else 1
    ensures GrowNeed(m, d, lo, a + 1) <= GrowNeed(m, d, lo, hi)
  {
    hide Has, Span;
    SpanStep(lo, a);
    SpanGrows(lo, a + 1, hi);
    OneMore(Span(lo, a), a / ENTRIES, Has(m, d));
    FewerLeft(Span(lo, a + 1), Span(lo, hi), Has(m, d));
  }

  lemma OneMore(s: set<nat>, i: nat, h: set<nat>)
    ensures |s + {i} - h| == |s - h| + if i in h + s then 0 else 1
  {
    if i in h + s {
      assert s + {i} - h == s - h;
    } else {
      assert s + {i} - h == (s - h) + {i};
    }
  }

  lemma FewerLeft(s: set<nat>, t: set<nat>, h: set<nat>)
    requires s <= t
    ensures |s - h| <= |t - h|
  {
    assert t - h == (s - h) + (t - h - s);
  }

  lemma SpanGrows(lo: nat, mid: nat, hi: nat)
    requires lo <= mid <= hi
    ensures Span(lo, mid) <= Span(lo, hi)
  {}

  /** What copyuvm needs for n user pages: the directory, the kernel's tables, the user tables and the
      pages. */
  function CopyNeed(n: nat): (k: nat) { 1 + KTABLES + (n + ENTRIES - 1) / ENTRIES + n }

  lemma MoreToCopy(i: nat, n: nat)
    requires i <= n <= USER
    ensures Span(0, 0) == {} && CopyNeed(0) == 1 + KTABLES && CopyNeed(i) <= CopyNeed(n)
    ensures i < n ==> CopyNeed(i + 1) <= CopyNeed(n)
    ensures i < n ==> CopyNeed(i + 1) == CopyNeed(i) + 1 + if i / ENTRIES in KernelTables(VPAGES) + Span(0, i) then 0 else 1
  {
    assert i < n ==> i / ENTRIES * ENTRIES < USER;
    assert i / ENTRIES in Span(0, i) <==> i % ENTRIES != 0;
    assert (i + ENTRIES) / ENTRIES == (i + ENTRIES - 1) / ENTRIES + if i % ENTRIES == 0 then 1 else 0;
  }

  // ---------------------------------------------------------------- copying

  /** The first n user pages of pgdir are copied to d; the rest of d is the kernel's. */
  ghost predicate Copied(m: Mem, role: map<nat, Role>, r: Mem, role': map<nat, Role>, pgdir: nat, d: nat, data: nat, n: nat)
    requires KERNLINK < data < PHYSTOP_V
  {
    && pgdir < |m.pages| && d < |r.pages| && IsDir(role', d) && Kept(role, role')
    && (forall f :: f in role' && f !in role ==> Belongs(role', f, d))
    && (forall vp: nat :: vp < n && vp < VPAGES ==> Present(Pte(r, d, vp)) && Flags(Pte(r, d, vp)) == Flags(Pte(m, pgdir, vp)))
    && (forall vp: nat :: vp < n && vp < VPAGES ==> SameContents(m, r, Frame(Pte(m, pgdir, vp)), Frame(Pte(r, d, vp))) && Frame(Pte(r, d, vp)) !in role)
    && (forall vp: nat :: n <= vp < VPAGES ==> Pte(r, d, vp) == KernelPte(data, vp))
  }

  ghost predicate SameContents(m: Mem, r: Mem, f: nat, g: nat) {
    f < |m.pages| && g < |r.pages| && r.pages[g] == m.pages[f]
  }

  lemma StartCopy(m: Mem, role: map<nat, Role>, r: Mem, role': map<nat, Role>, pgdir: nat, d: nat, data: nat)
    requires KERNLINK < data < PHYSTOP_V && pgdir < |m.pages| && d !in role
    requires MoreTables(role[d := Dir], role', d) && KernelUpTo(r, d, data, VPAGES)
    ensures Copied(m, role, r, role', pgdir, d, data, 0)
  {
    hide Pte;
    OnlyNewDir(role, role', d);
  }

  lemma OnlyNewDir(role: map<nat, Role>, role': map<nat, Role>, d: nat)
    requires d !in role && MoreTables(role[d := Dir], role', d)
    ensures Kept(role, role') && IsDir(role', d) && forall f :: f in role' && f !in role ==> Belongs(role', f, d)
  {
    assert forall f :: f in role[d := Dir] ==> f in role' && role'[f] == role[d := Dir][f];
    assert d in role[d := Dir];
  }

  /** The parent's next page is there, and the child's is not. */
  lemma NextPage(m: Mem, role: map<nat, Role>, r: Mem, role': map<nat, Role>, pgdir: nat, d: nat, data: nat, i: nat)
    requires KERNLINK < data < PHYSTOP_V && Wf(m, role) && Wf(r, role') && IsDir(role, pgdir) && i < USER
    requires Copied(m, role, r, role', pgdir, d, data, i) && Elsewhere(m, r, role, 0, 0, 0) && SameData(m, r, role)
    requires Present(Pte(m, pgdir, i))
    ensures Kept(role, role') && forall f :: f in role' && f !in role ==> Belongs(role', f, d)
    ensures IsDir(role', pgdir) && IsDir(role', d) && pgdir < |r.pages| && d < |r.pages| && !Present(Pte(r, d, i))
    ensures Pte(r, pgdir, i) == Pte(m, pgdir, i) && SameContents(m, r, Frame(Pte(m, pgdir, i)), Frame(Pte(m, pgdir, i)))
  {
    UserPages(m, role, pgdir);
    DirsIn(r, role');
    assert Frame(Pte(m, pgdir, i)) < |m.pages| by {
      assert Frame(Pte(m, pgdir, i)) in role;
    }
    hide Pte, Forward, Backward, FreeOk;
  }

  lemma CopyStep(m: Mem, role: map<nat, Role>, m1: Mem, role1: map<nat, Role>, r: Mem, role': map<nat, Role>, pgdir: nat, d: nat, data: nat, i: nat, f: nat)
    requires KERNLINK < data < PHYSTOP_V && Wf(m1, role1) && i < USER && d !in role && f !in role1
    requires Copied(m, role, m1, role1, pgdir, d, data, i) && Elsewhere(m, m1, role, 0, 0, 0) && SameData(m, m1, role)
    requires Frame(Pte(m, pgdir, i)) < |m.pages| && Present(Pte(m, pgdir, i))
    requires PageAdded(m1, role1, r, role', d, i, f, m.pages[Frame(Pte(m, pgdir, i))], Flags(Pte(m, pgdir, i)))
    ensures Copied(m, role, r, role', pgdir, d, data, i + 1) && Elsewhere(m, r, role, 0, 0, 0) && SameData(m, r, role)
  {
    hide Pte, Forward, Backward, FreeOk, KernelPte, Elsewhere, SameData, MoreTables, Kept, Belongs, SameContents;
    UserPages(m1, role1, d);
    PresentFlags(Pte(m, pgdir, i));
    CopyRoles(role, role1, role', d, i, f);
    SameDataThen(m, m1, r, role, role1);
    CopyEntries(m, role, m1, role1, r, role', pgdir, d, data, i, f);
    CopyElsewhere(m, m1, r, role, role1, d, i);
  }

  lemma CopyElsewhere(m: Mem, m1: Mem, r: Mem, role: map<nat, Role>, role1: map<nat, Role>, d: nat, i: nat)
    requires d !in role && Kept(role, role1) && Elsewhere(m, m1, role, 0, 0, 0) && Elsewhere(m1, r, role1, d, i, i + 1)
    ensures Elsewhere(m, r, role, 0, 0, 0)
  {
    hide Pte;
    assert forall e: nat :: IsDir(role, e) ==> e != d && IsDir(role1, e);
  }

  lemma PresentFlags(x: Word)
    requires Present(x)
    ensures WithP(Flags(x)) == Flags(x)
  {
    assert x % 4096 % 2 == x % 2;
  }

  lemma CopyRoles(role: map<nat, Role>, role1: map<nat, Role>, role': map<nat, Role>, d: nat, i: nat, f: nat)
    requires Kept(role, role1) && IsDir(role1, d) && f !in role1 && MoreTables(role1[f := User(d, i)], role', d)
    requires forall g :: g in role1 && g !in role ==> Belongs(role1, g, d)
    ensures Kept(role, role') && IsDir(role', d) && forall g :: g in role' && g !in role ==> Belongs(role', g, d)
  {
    assert f in role1[f := User(d, i)] && d in role1[f := User(d, i)];
    assert forall g :: g in role1 ==> g in role1[f := User(d, i)] && g != f;
  }

  lemma CopyEntries(m: Mem, role: map<nat, Role>, m1: Mem, role1: map<nat, Role>, r: Mem, role': map<nat, Role>, pgdir: nat, d: nat, data: nat, i: nat, f: nat)
    requires KERNLINK < data < PHYSTOP_V && i < USER && f !in role1
    requires Copied(m, role, m1, role1, pgdir, d, data, i)
    requires forall vp: nat :: vp < USER && Present(Pte(m1, d, vp)) ==> Frame(Pte(m1, d, vp)) in role1 && role1[Frame(Pte(m1, d, vp))] == User(d, vp)
    requires Frame(Pte(m, pgdir, i)) < |m.pages| && WithP(Flags(Pte(m, pgdir, i))) == Flags(Pte(m, pgdir, i))
    requires PageAdded(m1, role1, r, role', d, i, f, m.pages[Frame(Pte(m, pgdir, i))], Flags(Pte(m, pgdir, i)))
    ensures forall vp: nat :: vp < i + 1 && vp < VPAGES ==> Present(Pte(r, d, vp)) && Flags(Pte(r, d, vp)) == Flags(Pte(m, pgdir, vp))
    ensures forall vp: nat :: vp < i + 1 && vp < VPAGES ==> SameContents(m, r, Frame(Pte(m, pgdir, vp)), Frame(Pte(r, d, vp))) && Frame(Pte(r, d, vp)) !in role
    ensures forall vp: nat :: i + 1 <= vp < VPAGES ==> Pte(r, d, vp) == KernelPte(data, vp)
  {
    hide Pte, KernelPte, MoreTables;
  }

  /** A failed copy: the page it still held, if any, is free again. */
  lemma CopyUndone(m: Mem, role: map<nat, Role>, m1: Mem, role1: map<nat, Role>, m2: Mem, r: Mem, d: nat, f: nat)
    requires Kept(role, role1) && f !in role1
    requires Elsewhere(m, m1, role, 0, 0, 0) && SameData(m, m1, role)
    requires Elsewhere(m1, m2, role1, 0, 0, 0) && SameData(m1, m2, role1)
    requires Elsewhere(m2, r, role1[f := Other], 0, 0, 0) && SameData(m2, r, role1)
    ensures Elsewhere(m, r, role, 0, 0, 0) && SameData(m, r, role) && role1[f := Other] - {f} == role1
  {
    assert Kept(role, role1[f := Other]);
    ElsewhereThen(m, m1, m2, role, role1, 0, 0, 0);
    ElsewhereThen(m, m2, r, role, role1[f := Other], 0, 0, 0);
    SameDataThen(m, m1, m2, role, role1);
    SameDataThen(m, m2, r, role, role1);
  }

  lemma CopyKept(m: Mem, role: map<nat, Role>, m1: Mem, role1: map<nat, Role>, r: Mem, d: nat)
    requires Kept(role, role1) && Elsewhere(m, m1, role, 0, 0, 0) && SameData(m, m1, role)
    requires Elsewhere(m1, r, role1, 0, 0, 0) && SameData(m1, r, role1)
    ensures Elsewhere(m, r, role, 0, 0, 0) && SameData(m, r, role)
  {
    ElsewhereThen(m, m1, r, role, role1, 0, 0, 0);
    SameDataThen(m, m1, r, role, role1);
  }

  lemma NoTable(m: Mem, d: nat, vp: nat)
    requires d < |m.pages| && vp < VPAGES && Present(Pte(m, d, vp))
    ensures Present(Pde(m, d, vp / ENTRIES))
  {}
}
