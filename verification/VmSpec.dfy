/** Page tables and physical pages as a value: every page is 1024 words; role says what each
    allocated page is for; the free list holds the rest. */
module VmSpec {
  import opened Common

  const ENTRIES: nat := 1024
  /** KERNBASE in pages: virtual pages below it are user pages. */
  const USER: nat := 0x80000
  const VPAGES: nat := 0x10_0000
  const PGSIZE: nat := 4096
  const KERNBASE: nat := USER * PGSIZE

  const PTE_P: nat := 1
  const PTE_W: nat := 2
  const PTE_U: nat := 4

  type Word = x: int | 0 <= x < UINT
  type Page = p: seq<Word> | |p| == ENTRIES witness seq(ENTRIES, _ => 0)

  function ZeroPage(): (p: Page)
    ensures forall i :: 0 <= i < ENTRIES ==> p[i] == 0
  {
    seq(ENTRIES, i => 0)
  }

  /** What kfree writes over a page. */
  function JunkPage(): (p: Page) { seq(ENTRIES, i => 0x0101_0101) }

  // ---------------------------------------------------------------- entries

  predicate Present(x: Word) { x % 2 == 1 }
  function Frame(x: Word): (f: nat) { x / 4096 }
  function Flags(x: Word): (n: nat) { x % 4096 }

  /** perm | PTE_P. */
  function WithP(perm: nat): (r: nat)
    requires perm < 4096
    ensures r % 2 == 1 && r < 4096
  {
    if perm % 2 == 0 then perm + 1 else perm
  }

  /** pa | perm | PTE_P for a page-aligned pa. */
  function Entry(f: nat, perm: nat): (x: Word)
    requires f < VPAGES && perm < 4096
    ensures Present(x) && Frame(x) == f && Flags(x) == WithP(perm)
  {
    f * 4096 + WithP(perm)
  }

  // ---------------------------------------------------------------- memory

  datatype Mem = Mem(pages: seq<Page>, free: seq<nat>)

  datatype Role = Dir | Table(dir: nat, i: nat) | User(dir: nat, vp: nat) | Other

  ghost function SetOf(free: seq<nat>): (s: set<nat>) {
    if free == [] then {} else {free[0]} + SetOf(free[1..])
  }

  function Pde(m: Mem, d: nat, i: nat): (x: Word)
    requires d < |m.pages| && i < ENTRIES
  {
    m.pages[d][i]
  }

  /** The page-table entry of a virtual page, 0 when there is no page table. */
  function Pte(m: Mem, d: nat, vp: nat): (x: Word)
    requires d < |m.pages| && vp < VPAGES
  {
    if Present(Pde(m, d, vp / ENTRIES)) && Frame(Pde(m, d, vp / ENTRIES)) < |m.pages|
    then m.pages[Frame(Pde(m, d, vp / ENTRIES))][vp % ENTRIES] else 0
  }

  ghost predicate IsDir(role: map<nat, Role>, d: nat) { d in role && role[d] == Dir }

  /** Present directory entries point to page tables of that entry, present user entries to pages
      of that virtual page. */
  ghost predicate Forward(m: Mem, role: map<nat, Role>) {
    && (forall d: nat :: IsDir(role, d) ==> d < |m.pages|)
    && (forall d: nat, i: nat :: IsDir(role, d) && i < ENTRIES && Present(Pde(m, d, i)) ==>
          Frame(Pde(m, d, i)) in role && role[Frame(Pde(m, d, i))] == Table(d, i) && Frame(Pde(m, d, i)) < |m.pages|)
    && (forall d: nat, vp: nat :: IsDir(role, d) && vp < USER && Present(Pte(m, d, vp)) ==>
          Frame(Pte(m, d, vp)) in role && role[Frame(Pte(m, d, vp))] == User(d, vp))
  }

  ghost predicate Plays(m: Mem, role: map<nat, Role>, f: nat)
    requires Forward(m, role) && f in role
  {
    match role[f]
    case Dir => true
    case Other => true
    case Table(d, i) => IsDir(role, d) && i < ENTRIES && Present(Pde(m, d, i)) && Frame(Pde(m, d, i)) == f
    case User(d, vp) => IsDir(role, d) && vp < USER && Present(Pte(m, d, vp)) && Frame(Pte(m, d, vp)) == f
  }

  /** Every page with a role plays it, and no page plays two. */
  ghost predicate Backward(m: Mem, role: map<nat, Role>)
    requires Forward(m, role)
  {
    forall f :: f in role ==> f < |m.pages| && Plays(m, role, f)
  }

  /** The free list holds distinct pages without a role. */
  ghost predicate FreeOk(m: Mem, role: map<nat, Role>) {
    && |m.pages| <= VPAGES
    && (forall k :: 0 <= k < |m.free| ==> m.free[k] < |m.pages| && m.free[k] !in role)
    && (forall j, k :: 0 <= j < k < |m.free| ==> m.free[j] != m.free[k])
  }

  ghost predicate Wf(m: Mem, role: map<nat, Role>) { Forward(m, role) && Backward(m, role) && FreeOk(m, role) }

  /** Every page the allocator has ever managed. */
  ghost function All(m: Mem, role: map<nat, Role>): (s: set<nat>) { SetOf(m.free) + role.Keys }

  // ---------------------------------------------------------------- allocating and freeing pages

  /** kalloc hands out the page at the head of the list. */
  function Popped(m: Mem, contents: Page): (r: Mem)
    requires m.free != [] && m.free[0] < |m.pages|
  {
    Mem(m.pages[m.free[0] := contents], m.free[1..])
  }

  /** kfree fills the page with junk and puts it at the head of the list. */
  function Pushed(m: Mem, f: nat): (r: Mem)
    requires f < |m.pages|
  {
    Mem(m.pages[f := JunkPage()], [f] + m.free)
  }

  /** A page-table entry replaced. */
  function SetPte(m: Mem, d: nat, vp: nat, x: Word): (r: Mem)
    requires d < |m.pages| && vp < VPAGES && Frame(Pde(m, d, vp / ENTRIES)) < |m.pages|
  {
    Mem(m.pages[Frame(Pde(m, d, vp / ENTRIES)) := m.pages[Frame(Pde(m, d, vp / ENTRIES))][vp % ENTRIES := x]], m.free)
  }

  /** A page-table page taken from the free list for directory entry i. */
  function WithTable(m: Mem, d: nat, i: nat): (r: Mem)
    requires m.free != [] && m.free[0] < |m.pages| <= VPAGES && d < |m.pages| && i < ENTRIES
  {
    Mem(m.pages[m.free[0] := ZeroPage()][d := m.pages[d][i := Entry(m.free[0], PTE_P + PTE_W + PTE_U)]], m.free[1..])
  }

  // ---------------------------------------------------------------- what each change leaves alone

  /** Writing one entry changes that entry of that directory and nothing else. */
  lemma SetPteAt(m: Mem, role: map<nat, Role>, d: nat, vp: nat, x: Word, d': nat, i': nat, vp': nat)
    requires Forward(m, role) && IsDir(role, d) && vp < VPAGES && Present(Pde(m, d, vp / ENTRIES))
    requires IsDir(role, d') && i' < ENTRIES && vp' < VPAGES
    ensures Frame(Pde(m, d, vp / ENTRIES)) < |m.pages|
    ensures Pde(SetPte(m, d, vp, x), d', i') == Pde(m, d', i')
    ensures d' == d && vp' == vp ==> Pte(SetPte(m, d, vp, x), d', vp') == x
    ensures d' != d || vp' != vp ==> Pte(SetPte(m, d, vp, x), d', vp') == Pte(m, d', vp')
  {
    var t := Frame(Pde(m, d, vp / ENTRIES));
    assert role[t] == Table(d, vp / ENTRIES);
    assert Pde(SetPte(m, d, vp, x), d', vp' / ENTRIES) == Pde(m, d', vp' / ENTRIES);
    if Present(Pde(m, d', vp' / ENTRIES)) && Frame(Pde(m, d', vp' / ENTRIES)) == t {
      assert role[t] == Table(d', vp' / ENTRIES);
    }
    assert vp == vp / ENTRIES * ENTRIES + vp % ENTRIES && vp' == vp' / ENTRIES * ENTRIES + vp' % ENTRIES;
  }

  /** Taking a page from the free list, whatever is written to it, changes no entry. */
  lemma PoppedAt(m: Mem, role: map<nat, Role>, contents: Page, d: nat, i: nat, vp: nat)
    requires Forward(m, role) && FreeOk(m, role) && m.free != [] && IsDir(role, d) && i < ENTRIES && vp < VPAGES
    ensures Pde(Popped(m, contents), d, i) == Pde(m, d, i)
    ensures Pte(Popped(m, contents), d, vp) == Pte(m, d, vp)
  {
    assert m.free[0] !in role;
    assert Pde(Popped(m, contents), d, vp / ENTRIES) == Pde(m, d, vp / ENTRIES);
  }

  /** A new page table fills one directory entry; every virtual page keeps its entry. */
  lemma WithTableAt(m: Mem, role: map<nat, Role>, d: nat, i: nat, d': nat, i': nat, vp': nat)
    requires Forward(m, role) && FreeOk(m, role) && m.free != [] && IsDir(role, d) && i < ENTRIES && !Present(Pde(m, d, i))
    requires IsDir(role, d') && i' < ENTRIES && vp' < VPAGES
    ensures d' == d && i' == i ==> Pde(WithTable(m, d, i), d', i') == Entry(m.free[0], PTE_P + PTE_W + PTE_U)
    ensures d' != d || i' != i ==> Pde(WithTable(m, d, i), d', i') == Pde(m, d', i')
    ensures Pte(WithTable(m, d, i), d', vp') == Pte(m, d', vp')
  {
    var f := m.free[0];
    assert f !in role && f != d && f != d';
    var r := WithTable(m, d, i);
    assert d' != d || vp' / ENTRIES != i ==> Pde(r, d', vp' / ENTRIES) == Pde(m, d', vp' / ENTRIES);
    if Present(Pde(m, d', vp' / ENTRIES)) {
      assert Frame(Pde(m, d', vp' / ENTRIES)) in role;
      assert role[Frame(Pde(m, d', vp' / ENTRIES))] == Table(d', vp' / ENTRIES);
    }
    hide Entry;
  }

  // ---------------------------------------------------------------- what keeps the invariant

  lemma PopSet(m: Mem)
    requires m.free != []
    ensures SetOf(m.free) == {m.free[0]} + SetOf(m.free[1..])
  {}

  lemma PushSet(f: nat, free: seq<nat>)
    ensures SetOf([f] + free) == {f} + SetOf(free)
  {
    assert ([f] + free)[1..] == free;
  }

  /** A page with any role leaves the free list. */
  lemma PopFree(m: Mem, role: map<nat, Role>, pages: seq<Page>, r: Role)
    requires FreeOk(m, role) && m.free != [] && |pages| == |m.pages|
    ensures FreeOk(Mem(pages, m.free[1..]), role[m.free[0] := r])
    ensures All(Mem(pages, m.free[1..]), role[m.free[0] := r]) == All(m, role)
  {
    PopSet(m);
  }

  lemma PushFree(m: Mem, role: map<nat, Role>, pages: seq<Page>, f: nat)
    requires FreeOk(m, role) && |pages| == |m.pages| && f in role && f < |m.pages|
    ensures FreeOk(Mem(pages, [f] + m.free), role - {f})
    ensures All(Mem(pages, [f] + m.free), role - {f}) == All(m, role)
  {
    PushSet(f, m.free);
    var g := [f] + m.free;
    assert forall k :: 0 < k < |g| ==> g[k] == m.free[k - 1];
  }

  /** walkpgdir adds a page table. */
  lemma WithTableKeeps(m: Mem, role: map<nat, Role>, d: nat, i: nat)
    requires Wf(m, role) && m.free != [] && IsDir(role, d) && i < ENTRIES && !Present(Pde(m, d, i))
    ensures Wf(WithTable(m, d, i), role[m.free[0] := Table(d, i)])
    ensures All(WithTable(m, d, i), role[m.free[0] := Table(d, i)]) == All(m, role)
  {
    var f, r := m.free[0], WithTable(m, d, i);
    var role' := role[f := Table(d, i)];
    PopFree(m, role, r.pages, Table(d, i));
    assert f !in role;
    forall d': nat, i': nat | IsDir(role, d') && i' < ENTRIES
      ensures (d' == d && i' == i ==> Pde(r, d', i') == Entry(f, 7)) && (d' != d || i' != i ==> Pde(r, d', i') == Pde(m, d', i'))
    {
      WithTableAt(m, role, d, i, d', i', 0);
    }
    forall d': nat, vp': nat | IsDir(role, d') && vp' < VPAGES ensures Pte(r, d', vp') == Pte(m, d', vp') {
      WithTableAt(m, role, d, i, d', 0, vp');
    }
    hide Pde, Pte, Entry, Present, Frame;
    assert forall d': nat :: IsDir(role', d') <==> IsDir(role, d');
    assert Forward(r, role');
  }

  /** A page taken from the free list and held outside the page tables. */
  lemma HoldKeeps(m: Mem, role: map<nat, Role>, contents: Page)
    requires Wf(m, role) && m.free != []
    ensures Wf(Popped(m, contents), role[m.free[0] := Other])
    ensures All(Popped(m, contents), role[m.free[0] := Other]) == All(m, role)
  {
    var f, r := m.free[0], Popped(m, contents);
    var role' := role[f := Other];
    PopFree(m, role, r.pages, Other);
    assert f !in role;
    forall d: nat, i: nat | IsDir(role, d) && i < ENTRIES ensures Pde(r, d, i) == Pde(m, d, i) {
      PoppedAt(m, role, contents, d, i, 0);
    }
    forall d: nat, vp: nat | IsDir(role, d) && vp < VPAGES ensures Pte(r, d, vp) == Pte(m, d, vp) {
      PoppedAt(m, role, contents, d, 0, vp);
    }
    hide Pde, Pte, Present, Frame;
    assert forall d: nat :: IsDir(role', d) <==> IsDir(role, d);
    assert Forward(r, role');
  }

  /** All entries of all directories are the same. */
  ghost predicate SameEntries(m: Mem, r: Mem, role: map<nat, Role>)
    requires forall d: nat :: IsDir(role, d) ==> d < |m.pages| && d < |r.pages|
  {
    && (forall d: nat, i: nat :: IsDir(role, d) && i < ENTRIES ==> Pde(r, d, i) == Pde(m, d, i))
    && (forall d: nat, vp: nat :: IsDir(role, d) && vp < VPAGES ==> Pte(r, d, vp) == Pte(m, d, vp))
  }

  /** Overwriting a page that is neither a directory nor a page table changes no entry. */
  lemma OverwriteSame(m: Mem, role: map<nat, Role>, f: nat, contents: Page, free: seq<nat>)
    requires Forward(m, role) && f < |m.pages| && (f in role ==> !role[f].Dir? && !role[f].Table?)
    ensures SameEntries(m, Mem(m.pages[f := contents], free), role)
  {
    var r := Mem(m.pages[f := contents], free);
    assert forall d: nat, i: nat :: IsDir(role, d) && i < ENTRIES ==> Pde(r, d, i) == Pde(m, d, i);
    forall d: nat, vp: nat | IsDir(role, d) && vp < VPAGES ensures Pte(r, d, vp) == Pte(m, d, vp) {
      assert Pde(r, d, vp / ENTRIES) == Pde(m, d, vp / ENTRIES);
    }
  }

  /** kfree of a held page. */
  lemma ReleaseKeeps(m: Mem, role: map<nat, Role>, f: nat)
    requires Wf(m, role) && f in role && role[f] == Other
    ensures f < |m.pages| && Wf(Pushed(m, f), role - {f}) && All(Pushed(m, f), role - {f}) == All(m, role)
    ensures SameEntries(m, Pushed(m, f), role)
  {
    var r := Pushed(m, f);
    PushFree(m, role, r.pages, f);
    OverwriteSame(m, role, f, JunkPage(), r.free);
    hide Pde, Pte, Present, Frame;
    var role' := role - {f};
    assert forall d: nat :: IsDir(role', d) <==> IsDir(role, d);
    assert Forward(r, role');
  }

  /** mappages installs a held page at a free user address. */
  lemma MapKeeps(m: Mem, role: map<nat, Role>, d: nat, vp: nat, f: nat, perm: nat)
    requires Wf(m, role) && IsDir(role, d) && vp < USER && f in role && role[f] == Other && perm < 4096
    requires Present(Pde(m, d, vp / ENTRIES)) && !Present(Pte(m, d, vp))
    ensures f < VPAGES && Frame(Pde(m, d, vp / ENTRIES)) < |m.pages|
    ensures var r := SetPte(m, d, vp, Entry(f, perm));
      Wf(r, role[f := User(d, vp)]) && All(r, role[f := User(d, vp)]) == All(m, role)
  {
    SetPteAll(m, role, d, vp, Entry(f, perm));
    var r := SetPte(m, d, vp, Entry(f, perm));
    var role' := role[f := User(d, vp)];
    assert forall d': nat :: IsDir(role', d') <==> IsDir(role, d');
    assert role'.Keys == role.Keys;
    hide Pde, Pte, Entry, Present, Frame, SetPte;
    assert Forward(r, role');
  }

  lemma SetPteAll(m: Mem, role: map<nat, Role>, d: nat, vp: nat, x: Word)
    requires Wf(m, role) && IsDir(role, d) && vp < VPAGES && Present(Pde(m, d, vp / ENTRIES))
    ensures Frame(Pde(m, d, vp / ENTRIES)) < |m.pages|
    ensures var r := SetPte(m, d, vp, x);
      && r.free == m.free && |r.pages| == |m.pages|
      && (forall d': nat, i': nat :: IsDir(role, d') && i' < ENTRIES ==> Pde(r, d', i') == Pde(m, d', i'))
      && Pte(r, d, vp) == x
      && (forall d': nat, vp': nat :: IsDir(role, d') && vp' < VPAGES && (d' != d || vp' != vp) ==> Pte(r, d', vp') == Pte(m, d', vp'))
  {
    SetPteAt(m, role, d, vp, x, d, 0, vp);
    var r := SetPte(m, d, vp, x);
    forall d': nat, i': nat | IsDir(role, d') && i' < ENTRIES ensures Pde(r, d', i') == Pde(m, d', i') {
      SetPteAt(m, role, d, vp, x, d', i', 0);
    }
    forall d': nat, vp': nat | IsDir(role, d') && vp' < VPAGES && (d' != d || vp' != vp) ensures Pte(r, d', vp') == Pte(m, d', vp') {
      SetPteAt(m, role, d, vp, x, d', 0, vp');
    }
  }

  /** Kernel mappings own nothing. */
  lemma KernelMapKeeps(m: Mem, role: map<nat, Role>, d: nat, vp: nat, x: Word)
    requires Wf(m, role) && IsDir(role, d) && USER <= vp < VPAGES && Present(Pde(m, d, vp / ENTRIES))
    ensures Frame(Pde(m, d, vp / ENTRIES)) < |m.pages| && Wf(SetPte(m, d, vp, x), role)
  {
    SetPteAll(m, role, d, vp, x);
    hide Pde, Pte, Present, Frame, SetPte;
    assert Forward(SetPte(m, d, vp, x), role);
  }

  /** deallocuvm removes a user page: its entry becomes 0 and the page is free. */
  lemma UnmapKeeps(m: Mem, role: map<nat, Role>, d: nat, vp: nat)
    requires Wf(m, role) && IsDir(role, d) && vp < USER && Present(Pte(m, d, vp))
    ensures Present(Pde(m, d, vp / ENTRIES)) && Frame(Pte(m, d, vp)) < |m.pages| && Frame(Pte(m, d, vp)) in role
    ensures Frame(Pde(m, d, vp / ENTRIES)) < |m.pages|
    ensures var f := Frame(Pte(m, d, vp));
      var r := Unmapped(m, d, vp);
      Wf(r, role - {f}) && All(r, role - {f}) == All(m, role)
  {
    var f := Frame(Pte(m, d, vp));
    assert role[f] == User(d, vp);
    var z := SetPte(m, d, vp, 0);
    SetPteAll(m, role, d, vp, 0);
    // with the entry cleared, the page is only held
    var held := role[f := Other];
    UnmapHeld(m, role, d, vp);
    ReleaseKeeps(z, held, f);
    assert held - {f} == role - {f};
    assert held.Keys == role.Keys;
    UnmapOrder(m, d, vp);
  }

  lemma UnmapHeld(m: Mem, role: map<nat, Role>, d: nat, vp: nat)
    requires Wf(m, role) && IsDir(role, d) && vp < USER && Present(Pte(m, d, vp))
    ensures Present(Pde(m, d, vp / ENTRIES)) && Frame(Pde(m, d, vp / ENTRIES)) < |m.pages| && Frame(Pte(m, d, vp)) in role
    ensures Wf(SetPte(m, d, vp, 0), role[Frame(Pte(m, d, vp)) := Other])
  {
    SetPteAll(m, role, d, vp, 0);
    var r := SetPte(m, d, vp, 0);
    var f := Frame(Pte(m, d, vp));
    assert role[f] == User(d, vp) && !Present(0);
    var role' := role[f := Other];
    assert forall d': nat :: IsDir(role', d') <==> IsDir(role, d');
    hide Pde, Pte, Present, Frame, SetPte;
    assert Forward(r, role');
  }

  /** The source frees the page first and clears the entry after. */
  function Unmapped(m: Mem, d: nat, vp: nat): (r: Mem)
    requires d < |m.pages| && vp < VPAGES && Frame(Pde(m, d, vp / ENTRIES)) < |m.pages| && Frame(Pte(m, d, vp)) < |m.pages|
  {
    var freed := Pushed(m, Frame(Pte(m, d, vp)));
    if Frame(Pde(freed, d, vp / ENTRIES)) < |freed.pages| then SetPte(freed, d, vp, 0) else freed
  }

  lemma UnmapOrder(m: Mem, d: nat, vp: nat)
    requires d < |m.pages| && vp < VPAGES && Frame(Pde(m, d, vp / ENTRIES)) < |m.pages| && Frame(Pte(m, d, vp)) < |m.pages|
    requires Frame(Pte(m, d, vp)) != d && Frame(Pte(m, d, vp)) != Frame(Pde(m, d, vp / ENTRIES))
    ensures Unmapped(m, d, vp) == Pushed(SetPte(m, d, vp, 0), Frame(Pte(m, d, vp)))
  {
    var f, t := Frame(Pte(m, d, vp)), Frame(Pde(m, d, vp / ENTRIES));
    assert Pde(Pushed(m, f), d, vp / ENTRIES) == Pde(m, d, vp / ENTRIES);
  }

  // ---------------------------------------------------------------- relations between states

  /** Entries of virtual pages other than [lo, hi) of directory d are as before. */
  ghost predicate Elsewhere(m: Mem, r: Mem, role: map<nat, Role>, d: nat, lo: nat, hi: nat) {
    |r.pages| == |m.pages| &&
    forall e: nat, vp: nat :: IsDir(role, e) && e < |m.pages| && vp < VPAGES && (e != d || vp < lo || hi <= vp) ==> Pte(r, e, vp) == Pte(m, e, vp)
  }

  /** Contents of user and held pages are as before. */
  ghost predicate SameData(m: Mem, r: Mem, role: map<nat, Role>) {
    |r.pages| == |m.pages| &&
    forall f :: f in role && f < |m.pages| && (role[f].User? || role[f].Other?) ==> r.pages[f] == m.pages[f]
  }

  /** The roles now: those before, plus page tables of directory d. */
  ghost predicate MoreTables(role: map<nat, Role>, role': map<nat, Role>, d: nat) {
    && (forall f :: f in role ==> f in role' && role'[f] == role[f])
    && (forall f :: f in role' && f !in role ==> role'[f].Table? && role'[f].dir == d)
  }

  /** Everything that belongs to directory d. */
  ghost predicate Belongs(role: map<nat, Role>, f: nat, d: nat) {
    f in role && (f == d || (role[f].Table? && role[f].dir == d) || (role[f].User? && role[f].dir == d))
  }

  ghost function WithoutDir(role: map<nat, Role>, d: nat): (r: map<nat, Role>)
    ensures forall f :: f in r <==> f in role && !Belongs(role, f, d)
    ensures forall f :: f in r ==> r[f] == role[f]
  {
    map f | f in role && !Belongs(role, f, d) :: role[f]
  }

  /** walkpgdir's new table: what it leaves alone. */
  lemma WithTableFrame(m: Mem, role: map<nat, Role>, d: nat, i: nat)
    requires Wf(m, role) && m.free != [] && IsDir(role, d) && i < ENTRIES && !Present(Pde(m, d, i))
    ensures var r := WithTable(m, d, i);
      && Elsewhere(m, r, role, d, 0, 0) && SameData(m, r, role) && Present(Pde(r, d, i))
      && MoreTables(role, role[m.free[0] := Table(d, i)], d)
  {
    var f, r := m.free[0], WithTable(m, d, i);
    assert f !in role;
    forall e: nat, vp: nat | IsDir(role, e) && vp < VPAGES ensures Pte(r, e, vp) == Pte(m, e, vp) {
      WithTableAt(m, role, d, i, e, 0, vp);
    }
    WithTableAt(m, role, d, i, d, i, 0);
  }

  lemma SetPteFrame(m: Mem, role: map<nat, Role>, d: nat, vp: nat, x: Word)
    requires Wf(m, role) && IsDir(role, d) && vp < VPAGES && Present(Pde(m, d, vp / ENTRIES))
    ensures Frame(Pde(m, d, vp / ENTRIES)) < |m.pages|
    ensures var r := SetPte(m, d, vp, x);
      && Elsewhere(m, r, role, d, vp, vp + 1) && SameData(m, r, role) && Pte(r, d, vp) == x && r.free == m.free
  {
    SetPteAll(m, role, d, vp, x);
    assert role[Frame(Pde(m, d, vp / ENTRIES))].Table?;
    hide Pte, Pde;
  }

  lemma UnmapFrame(m: Mem, role: map<nat, Role>, d: nat, vp: nat)
    requires Wf(m, role) && IsDir(role, d) && vp < USER && Present(Pte(m, d, vp))
    ensures Frame(Pte(m, d, vp)) < |m.pages| && Frame(Pde(m, d, vp / ENTRIES)) < |m.pages| && Frame(Pte(m, d, vp)) in role
    ensures var r := Unmapped(m, d, vp);
      var f := Frame(Pte(m, d, vp));
      && Elsewhere(m, r, role, d, vp, vp + 1) && SameData(m, r, role - {f}) && Pte(r, d, vp) == 0
      && (forall i: nat :: i < ENTRIES ==> Pde(r, d, i) == Pde(m, d, i))
  {
    var f := Frame(Pte(m, d, vp));
    assert role[f] == User(d, vp);
    SetPteFrame(m, role, d, vp, 0);
    SetPteAll(m, role, d, vp, 0);
    UnmapHeld(m, role, d, vp);
    UnmapOrder(m, d, vp);
    var z := SetPte(m, d, vp, 0);
    var held := role[f := Other];
    OverwriteSame(z, held, f, JunkPage(), [f] + z.free);
    assert forall e: nat :: IsDir(held, e) <==> IsDir(role, e);
    hide Pte, Pde;
  }

  /** Releasing a held page: what it leaves alone. */
  lemma ReleaseFrame(m: Mem, role: map<nat, Role>, f: nat)
    requires Wf(m, role) && f in role && role[f] == Other
    ensures f < |m.pages| && Elsewhere(m, Pushed(m, f), role, 0, 0, 0) && SameData(m, Pushed(m, f), role - {f})
  {
    ReleaseKeeps(m, role, f);
    hide Pte, Pde;
  }

  // ---------------------------------------------------------------- taking a directory apart

  /** A directory without user pages: it and its page tables can be regarded as held pages. */
  ghost function Dismantled(role: map<nat, Role>, d: nat): (r: map<nat, Role>)
    ensures r.Keys == role.Keys
    ensures forall f :: f in role ==> (Belongs(role, f, d) ==> r[f] == Other) && (!Belongs(role, f, d) ==> r[f] == role[f])
  {
    map f | f in role :: if Belongs(role, f, d) then Other else role[f]
  }

  lemma DismantleKeeps(m: Mem, role: map<nat, Role>, d: nat)
    requires Wf(m, role) && IsDir(role, d) && forall vp: nat :: vp < USER ==> !Present(Pte(m, d, vp))
    ensures Wf(m, Dismantled(role, d)) && All(m, Dismantled(role, d)) == All(m, role)
    ensures forall f :: Belongs(role, f, d) ==> !role[f].User?
  {
    hide Dismantled, Pte, Pde, Present, Frame;
    var role' := Dismantled(role, d);
    assert forall e: nat :: IsDir(role', e) <==> IsDir(role, e) && e != d;
    forall f | Belongs(role, f, d) ensures !role[f].User? {
      assert Plays(m, role, f);
    }
    assert Forward(m, role');
    forall f | f in role' ensures f < |m.pages| && Plays(m, role', f) {
      assert Plays(m, role, f);
    }
  }
}
