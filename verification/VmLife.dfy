/** The life of an address space: set up, resized and copied any number of times, freed. */
module VmLife {
  import opened Common
  import opened VmCount
  import opened VmSpec
  import opened Vm

  /** User pages from sz on are not mapped. */
  ghost predicate FreeFrom(m: Mem, d: nat, sz: nat) {
    d < |m.pages| && forall vp: nat :: PagesUp(sz) <= vp < USER ==> !Present(Pte(m, d, vp))
  }

  /** Every user page below sz is mapped: what copyuvm insists on. */
  ghost predicate FullBelow(m: Mem, d: nat, sz: nat) {
    d < |m.pages| && forall vp: nat :: vp < PagesUp(sz) && vp < USER ==> Present(Pte(m, d, vp))
  }

  /** The first page is gone although the size says otherwise: copyuvm panics at once. */
  ghost predicate Hollow(m: Mem, d: nat, sz: nat) { sz > 0 && d < |m.pages| && !Present(Pte(m, d, 0)) }

  /** What the address space d leaves alone: roles, entries and contents of everything else. */
  ghost predicate Apart(m: Mem, role: map<nat, Role>, r: Mem, role': map<nat, Role>, d: nat) {
    WithoutDir(role', d) == role && Elsewhere(m, r, role, 0, 0, 0) && SameData(m, r, role)
  }

  lemma SetUp(m: Mem, role: map<nat, Role>, r: Mem, role': map<nat, Role>, d: nat, data: nat)
    requires Wf(m, role) && d !in role && KERNLINK < data < PHYSTOP_V
    requires Elsewhere(m, r, role, 0, 0, 0) && SameData(m, r, role) && MoreTables(role[d := Dir], role', d) && KernelUpTo(r, d, data, VPAGES)
    ensures Apart(m, role, r, role', d) && FreeFrom(r, d, 0) && IsDir(role', d)
  {
    OnlyNewDir(role, role', d);
    NoneBelongs(m, role, d);
    hide Pte, Wf;
    assert WithoutDir(role', d) == role;
  }

  lemma NoneBelongs(m: Mem, role: map<nat, Role>, d: nat)
    requires Wf(m, role) && d !in role
    ensures forall f :: f in role ==> !(role[f].Table? && role[f].dir == d) && !(role[f].User? && role[f].dir == d)
  {
    forall f | f in role ensures !(role[f].Table? && role[f].dir == d) && !(role[f].User? && role[f].dir == d) {
      assert Plays(m, role, f);
    }
  }

  /** Whatever changes only entries and pages of d. */
  lemma StaysApart(m: Mem, role: map<nat, Role>, m1: Mem, role1: map<nat, Role>, r: Mem, role': map<nat, Role>, d: nat, lo: nat, hi: nat)
    requires d !in role && Apart(m, role, m1, role1, d) && WithoutDir(role', d) == WithoutDir(role1, d)
    requires Elsewhere(m1, r, role1, d, lo, hi) && SameData(m1, r, WithoutDir(role1, d))
    ensures Apart(m, role, r, role', d)
  {
    hide Pte, Elsewhere, SameData, WithoutDir;
    assert Kept(role, role1);
    OutsideD(m1, r, role1, role, d, lo, hi);
    ElsewhereThen(m, m1, r, role, role, 0, 0, 0);
    SameDataThen(m, m1, r, role, role);
  }

  lemma GrownApart(m: Mem, role: map<nat, Role>, r: Mem, role': map<nat, Role>, d: nat, sz: nat, t: nat)
    requires Wf(m, role) && IsDir(role, d) && FreeFrom(m, d, sz) && sz <= t < KERNBASE && Grown(m, role, r, role', d, PagesUp(sz), PagesUp(t))
    ensures WithoutDir(role', d) == WithoutDir(role, d) && FreeFrom(r, d, t)
    ensures Elsewhere(m, r, role, d, PagesUp(sz), PagesUp(t)) && SameData(m, r, WithoutDir(role, d))
  {
    hide Pte, Wf;
    FewerSame(m, r, role, WithoutDir(role, d));
    assert WithoutDir(role', d) == WithoutDir(role, d);
  }

  lemma GaveUpApart(m: Mem, role: map<nat, Role>, r: Mem, role': map<nat, Role>, d: nat, sz: nat, t: nat)
    requires Wf(m, role) && IsDir(role, d) && FreeFrom(m, d, sz) && sz <= t < KERNBASE && GaveUp(m, role, r, role', d, PagesUp(sz), PagesUp(t))
    ensures WithoutDir(role', d) == WithoutDir(role, d) && FreeFrom(r, d, sz)
    ensures Elsewhere(m, r, role, d, PagesUp(sz), PagesUp(t)) && SameData(m, r, WithoutDir(role, d))
  {
    hide Pte, Wf;
    FewerSame(m, r, role, WithoutDir(role, d));
    assert WithoutDir(role', d) == WithoutDir(role, d);
  }

  lemma ShrunkApart(m: Mem, role: map<nat, Role>, r: Mem, role': map<nat, Role>, d: nat, sz: nat, t: nat)
    requires Wf(m, role) && IsDir(role, d) && FreeFrom(m, d, sz) && t <= sz <= KERNBASE && Shrunk(m, role, r, role', d, PagesUp(t), PagesUp(sz))
    ensures WithoutDir(role', d) == WithoutDir(role, d) && FreeFrom(r, d, t)
    ensures Elsewhere(m, r, role, d, PagesUp(t), PagesUp(sz)) && SameData(m, r, WithoutDir(role, d))
  {
    hide Pte, Wf;
    assert WithoutDir(role', d) == WithoutDir(role, d);
    FewerSame(m, r, role', WithoutDir(role, d));
  }

  /** The free pages are those without a role. */
  lemma FreeIsRest(m: Mem, role: map<nat, Role>)
    requires Wf(m, role)
    ensures SetOf(m.free) == All(m, role) - role.Keys && |m.free| == |SetOf(m.free)|
  {
    CountFree(m.free);
    forall f | f in SetOf(m.free) ensures f !in role {
      InFree(m.free, f);
    }
  }

  lemma {:induction false} CountFree(free: seq<nat>)
    requires forall j, k :: 0 <= j < k < |free| ==> free[j] != free[k]
    ensures |SetOf(free)| == |free|
  {
    if free != [] {
      CountFree(free[1..]);
      NotIn(free[1..], free[0]);
    }
  }

  lemma {:induction false} NotIn(free: seq<nat>, f: nat)
    requires forall k :: 0 <= k < |free| ==> free[k] != f
    ensures f !in SetOf(free)
  {
    if free != [] {
      NotIn(free[1..], f);
    }
  }

  lemma {:induction false} InFree(free: seq<nat>, f: nat)
    requires f in SetOf(free)
    ensures exists k :: 0 <= k < |free| && free[k] == f
  {
    if f != free[0] {
      InFree(free[1..], f);
      var k :| 0 <= k < |free[1..]| && free[1..][k] == f;
      assert free[k + 1] == f;
    }
  }

  lemma GrownFull(m: Mem, role: map<nat, Role>, r: Mem, role': map<nat, Role>, d: nat, sz: nat, t: nat)
    requires IsDir(role, d) && d < |m.pages| && sz <= t < KERNBASE && Grown(m, role, r, role', d, PagesUp(sz), PagesUp(t))
    ensures FullBelow(m, d, sz) ==> FullBelow(r, d, t)
    ensures Hollow(m, d, sz) ==> Hollow(r, d, t)
  {
    hide Pte, Present;
  }

  lemma GaveUpFull(m: Mem, role: map<nat, Role>, r: Mem, role': map<nat, Role>, d: nat, sz: nat, t: nat)
    requires IsDir(role, d) && d < |m.pages| && sz <= t < KERNBASE && GaveUp(m, role, r, role', d, PagesUp(sz), PagesUp(t))
    ensures FullBelow(m, d, sz) ==> FullBelow(r, d, sz)
    ensures Hollow(m, d, sz) ==> Hollow(r, d, sz)
  {
    hide Pte, Present;
  }

  lemma ShrunkFull(m: Mem, role: map<nat, Role>, r: Mem, role': map<nat, Role>, d: nat, sz: nat, t: nat)
    requires IsDir(role, d) && d < |m.pages| && t <= sz <= KERNBASE && Shrunk(m, role, r, role', d, PagesUp(t), PagesUp(sz))
    ensures t > 0 && FullBelow(m, d, sz) ==> FullBelow(r, d, t)
    ensures t > 0 && Hollow(m, d, sz) ==> Hollow(r, d, t)
    ensures t == 0 && sz > 0 ==> Hollow(r, d, sz)
  {
    hide Pte, Present;
  }

  lemma FreeMore(m: Mem, d: nat, t: nat, sz: nat)
    requires FreeFrom(m, d, t) && t <= sz
    ensures FreeFrom(m, d, sz)
  {}

  const INTMIN: int := -0x8000_0000

  /** growproc(n) for a process of size sz; false is the -1. A change below 0 wraps, and deallocuvm
      then changes nothing. A change to exactly 0 frees every page, is reported as a failure and leaves
      the size: the only one after which a page below the size may be missing. */
  method Growproc(v: AddressSpaces, d: nat, sz: nat, n: int, ghost m0: Mem, ghost role0: map<nat, Role>) returns (ok: bool, sz': nat)
    requires v.Ok() && IsDir(v.role, d) && sz < KERNBASE && FreeFrom(v.m, d, sz) && INTMIN <= n < -INTMIN
    requires d !in role0 && Apart(m0, role0, v.m, v.role, d)
    modifies v
    ensures v.Ok() && v.Pages() == old(v.Pages()) && IsDir(v.role, d) && sz' < KERNBASE && FreeFrom(v.m, d, sz') && Apart(m0, role0, v.m, v.role, d)
    ensures sz' == if ok && sz + n >= 0 then sz + n else sz
    ensures n == 0 || (n < 0 < sz && sz + n != 0) ==> ok
    ensures n > 0 ==> d < |old(v.m).pages| && (ok <==> sz + n < KERNBASE && GrowNeed(old(v.m), d, PagesUp(sz), PagesUp(sz + n)) <= |old(v.m).free|)
    ensures n < 0 && (sz == 0 || sz + n == 0) ==> !ok
    ensures n == 0 || sz + n < 0 ==> v.m == old(v.m) && v.role == old(v.role)
    ensures sz + n != 0 || n == 0 ==> (old(FullBelow(v.m, d, sz)) ==> FullBelow(v.m, d, sz'))
    ensures sz + n == 0 && sz > 0 ==> FreeFrom(v.m, d, 0) && Hollow(v.m, d, sz')
    ensures old(Hollow(v.m, d, sz)) ==> Hollow(v.m, d, sz')
  {
    hide Wf, Pte, Apart, FreeFrom, Elsewhere, SameData, WithoutDir, Grown, GaveUp, Shrunk, FullBelow, Hollow, GrowNeed;
    if n > 0 {
      ok, sz' := Grow(v, d, sz, sz + n, m0, role0);
    } else if n < 0 {
      sz' := Shrink(v, d, sz, (sz + n) % UINT, m0, role0);
      ok := sz' != 0;
      if !ok {
        if sz + n == 0 {
          FreeMore(v.m, d, 0, sz);
        }
        sz' := sz;
      }
    } else {
      ok, sz' := true, sz;
    }
  }

  method Grow(v: AddressSpaces, d: nat, sz: nat, t: nat, ghost m0: Mem, ghost role0: map<nat, Role>) returns (ok: bool, sz': nat)
    requires v.Ok() && IsDir(v.role, d) && sz < KERNBASE && sz < t && FreeFrom(v.m, d, sz) && d !in role0 && Apart(m0, role0, v.m, v.role, d)
    modifies v
    ensures v.Ok() && v.Pages() == old(v.Pages()) && IsDir(v.role, d) && sz' < KERNBASE && FreeFrom(v.m, d, sz') && Apart(m0, role0, v.m, v.role, d)
    ensures sz' == if ok then t else sz
    ensures d < |old(v.m).pages| && (ok <==> t < KERNBASE && GrowNeed(old(v.m), d, PagesUp(sz), PagesUp(t)) <= |old(v.m).free|)
    ensures old(FullBelow(v.m, d, sz)) ==> FullBelow(v.m, d, sz')
    ensures old(Hollow(v.m, d, sz)) ==> Hollow(v.m, d, sz')
  {
    hide Wf, Pte, Apart, FreeFrom, Elsewhere, SameData, WithoutDir, Grown, GaveUp, Shrunk, FullBelow, Hollow, GrowNeed;
    ghost var m1, role1 := v.m, v.role;
    FreeAbove(v.m, d, sz, t);
    var r := v.Allocuvm(d, sz, t);
    if r == 0 {
      if t < KERNBASE {
        GaveUpApart(m1, role1, v.m, v.role, d, sz, t);
        StaysApart(m0, role0, m1, role1, v.m, v.role, d, PagesUp(sz), PagesUp(t));
        GaveUpFull(m1, role1, v.m, v.role, d, sz, t);
      }
      return false, sz;
    }
    GrownApart(m1, role1, v.m, v.role, d, sz, t);
    StaysApart(m0, role0, m1, role1, v.m, v.role, d, PagesUp(sz), PagesUp(t));
    GrownFull(m1, role1, v.m, v.role, d, sz, t);
    return true, t;
  }

  method Shrink(v: AddressSpaces, d: nat, sz: nat, t: nat, ghost m0: Mem, ghost role0: map<nat, Role>) returns (sz': nat)
    requires v.Ok() && IsDir(v.role, d) && sz < KERNBASE && FreeFrom(v.m, d, sz) && d !in role0 && Apart(m0, role0, v.m, v.role, d)
    modifies v
    ensures v.Ok() && v.Pages() == old(v.Pages()) && IsDir(v.role, d) && FreeFrom(v.m, d, sz') && Apart(m0, role0, v.m, v.role, d)
    ensures sz' == if t < sz then t else sz
    ensures t >= sz ==> v.m == old(v.m) && v.role == old(v.role)
    ensures sz' > 0 && old(FullBelow(v.m, d, sz)) ==> FullBelow(v.m, d, sz')
    ensures sz' > 0 && old(Hollow(v.m, d, sz)) ==> Hollow(v.m, d, sz')
    ensures t == 0 && sz > 0 ==> Hollow(v.m, d, sz)
  {
    hide Wf, Pte, Apart, FreeFrom, Elsewhere, SameData, WithoutDir, Grown, GaveUp, Shrunk, FullBelow, Hollow;
    ghost var m1, role1 := v.m, v.role;
    FreeAbove(v.m, d, sz, t);
    sz' := v.Deallocuvm(d, sz, t);
    if t < sz {
      ShrunkApart(m1, role1, v.m, v.role, d, sz, t);
      StaysApart(m0, role0, m1, role1, v.m, v.role, d, PagesUp(t), PagesUp(sz));
      ShrunkFull(m1, role1, v.m, v.role, d, sz, t);
    }
  }

  lemma FreeAbove(m: Mem, d: nat, sz: nat, t: nat)
    requires FreeFrom(m, d, sz)
    ensures d < |m.pages| && forall vp: nat :: PagesUp(sz) <= vp < PagesUp(t) && vp < USER ==> !Present(Pte(m, d, vp))
  {}

  /** copyuvm, which works exactly if there are pages enough, and, when the child is done, freevm: the
      parent's address space is as it was, and so are the free pages. */
  method Fork(v: AddressSpaces, d: nat, sz: nat, data: nat, ghost m0: Mem, ghost role0: map<nat, Role>) returns (ok: bool)
    requires v.Ok() && IsDir(v.role, d) && sz < KERNBASE && FreeFrom(v.m, d, sz) && FullBelow(v.m, d, sz) && KERNLINK < data < PHYSTOP_V
    requires d !in role0 && Apart(m0, role0, v.m, v.role, d)
    modifies v
    ensures v.Ok() && v.Pages() == old(v.Pages()) && v.role == old(v.role)
    ensures ok <==> CopyNeed(PagesUp(sz)) <= |old(v.m.free)|
    ensures SetOf(v.m.free) == old(SetOf(v.m.free)) && |v.m.free| == |old(v.m.free)|
    ensures FreeFrom(v.m, d, sz) && FullBelow(v.m, d, sz) && Apart(m0, role0, v.m, v.role, d)
  {
    hide Wf, Pte, Apart, FreeFrom, Elsewhere, SameData, WithoutDir, Copied, FullBelow, CopyNeed, All, SetOf;
    ghost var m1, role1 := v.m, v.role;
    FreeIsRest(v.m, v.role);
    Pageful(v.m, d, sz);
    var r := v.Copyuvm(d, sz, data);
    ok := r.Some?;
    ghost var m2, role2 := v.m, v.role;
    if r.Some? {
      CopyIsDir(m1, role1, v.m, v.role, d, r.value, data, PagesUp(sz));
      v.Freevm(r.value);
      ChildGone(m1, role1, m2, role2, v.m, v.role, d, r.value, data, PagesUp(sz));
    }
    SameSpace(m0, role0, m1, role1, v.m, d, sz);
    FreeIsRest(v.m, v.role);
  }

  lemma Pageful(m: Mem, d: nat, sz: nat)
    requires FullBelow(m, d, sz)
    ensures d < |m.pages| && forall vp: nat :: vp < PagesUp(sz) && vp < USER ==> Present(Pte(m, d, vp))
  {}

  lemma CopyIsDir(m: Mem, role: map<nat, Role>, r: Mem, role': map<nat, Role>, d: nat, child: nat, data: nat, n: nat)
    requires KERNLINK < data < PHYSTOP_V && Copied(m, role, r, role', d, child, data, n)
    ensures IsDir(role', child)
  {}

  lemma ChildGone(m1: Mem, role1: map<nat, Role>, m2: Mem, role2: map<nat, Role>, r: Mem, role': map<nat, Role>, d: nat, child: nat, data: nat, n: nat)
    requires KERNLINK < data < PHYSTOP_V && Wf(m1, role1) && child !in role1 && Copied(m1, role1, m2, role2, d, child, data, n)
    requires Elsewhere(m1, m2, role1, 0, 0, 0) && SameData(m1, m2, role1) && role' == WithoutDir(role2, child)
    requires Elsewhere(m2, r, role', 0, 0, 0) && SameData(m2, r, role')
    ensures role' == role1 && Elsewhere(m1, r, role1, 0, 0, 0) && SameData(m1, r, role1)
  {
    NoneBelongs(m1, role1, child);
    hide Pte, Elsewhere, SameData, Wf, Forward, Backward;
    assert role' == role1;
    ElsewhereThen(m1, m2, r, role1, role1, 0, 0, 0);
    SameDataThen(m1, m2, r, role1, role1);
  }

  lemma SameSpace(m0: Mem, role0: map<nat, Role>, m1: Mem, role1: map<nat, Role>, r: Mem, d: nat, sz: nat)
    requires d !in role0 && Apart(m0, role0, m1, role1, d) && IsDir(role1, d) && sz < KERNBASE && FreeFrom(m1, d, sz) && FullBelow(m1, d, sz)
    requires Elsewhere(m1, r, role1, 0, 0, 0) && SameData(m1, r, role1)
    ensures Apart(m0, role0, r, role1, d) && FreeFrom(r, d, sz) && FullBelow(r, d, sz)
  {
    SamePtes(m1, r, role1, d);
    FewerSame(m1, r, role1, WithoutDir(role1, d));
    ElsewhereWider(m1, r, role1, d);
    hide Elsewhere, SameData, WithoutDir, Apart;
    StaysApart(m0, role0, m1, role1, r, role1, d, 0, 0);
  }

  lemma SamePtes(m: Mem, r: Mem, role: map<nat, Role>, d: nat)
    requires Elsewhere(m, r, role, 0, 0, 0) && IsDir(role, d) && d < |m.pages|
    ensures d < |r.pages| && forall vp: nat :: vp < USER ==> Pte(r, d, vp) == Pte(m, d, vp)
  {
    hide Pte;
  }

  lemma ElsewhereWider(m: Mem, r: Mem, role: map<nat, Role>, d: nat)
    requires Elsewhere(m, r, role, 0, 0, 0)
    ensures Elsewhere(m, r, role, d, 0, 0)
  {
    hide Pte;
  }

  datatype Request = Resize(n: int) | Copy

  lemma EmptyFull(m: Mem, d: nat)
    requires FreeFrom(m, d, 0)
    ensures FullBelow(m, d, 0)
  {}

  /** A resize to exactly 0 of an address space that is not empty. */
  predicate Empties(r: Request, sz: nat) { r.Resize? && sz > 0 && sz + r.n == 0 }

  /** A copy comes after a resize to exactly 0; sizes[k] is the size before request k. */
  ghost predicate CopyOfEmptied(requests: seq<Request>, sizes: seq<nat>) {
    exists i, j :: 0 <= i < j < |sizes| && j < |requests| && Empties(requests[i], sizes[i]) && requests[j].Copy?
  }

  /** The size before each request and after the last: a resize takes effect, is refused, or goes below
      0 and changes nothing; a copy leaves it. */
  ghost predicate SizesOk(requests: seq<Request>, sizes: seq<nat>) {
    && 0 < |sizes| <= |requests| + 1 && sizes[0] == 0
    && forall k :: 0 < k < |sizes| ==> sizes[k] == sizes[k - 1] || (requests[k - 1].Resize? && sizes[k] == sizes[k - 1] + requests[k - 1].n)
  }

  method Serve(v: AddressSpaces, d: nat, sz: nat, data: nat, r: Request, emptied: bool, ghost m0: Mem, ghost role0: map<nat, Role>)
    returns (sz': nat, emptied': bool)
    requires v.Ok() && IsDir(v.role, d) && sz < KERNBASE && FreeFrom(v.m, d, sz) && KERNLINK < data < PHYSTOP_V
    requires d !in role0 && Apart(m0, role0, v.m, v.role, d) && (r.Resize? ==> INTMIN <= r.n < -INTMIN)
    requires (if emptied then Hollow(v.m, d, sz) else FullBelow(v.m, d, sz)) && !(r.Copy? && emptied)
    modifies v
    ensures v.Ok() && v.Pages() == old(v.Pages()) && IsDir(v.role, d) && sz' < KERNBASE && FreeFrom(v.m, d, sz') && Apart(m0, role0, v.m, v.role, d)
    ensures if emptied' then Hollow(v.m, d, sz') else FullBelow(v.m, d, sz')
    ensures emptied' == (emptied || Empties(r, sz)) && (sz' == sz || (r.Resize? && sz' == sz + r.n))
  {
    hide Wf, Pte, Apart, FreeFrom, Elsewhere, SameData, WithoutDir, All, SetOf, FullBelow, Hollow, GrowNeed, CopyNeed;
    emptied' := emptied || Empties(r, sz);
    if r.Resize? {
      var ok;
      ok, sz' := Growproc(v, d, sz, r.n, m0, role0);
    } else {
      var ok := Fork(v, d, sz, data, m0, role0);
      sz' := sz;
    }
  }

  /** Setting up an address space, any sequence of resizes, each of which may run out of memory, and
      copies, and freevm: exactly the pages taken are free again, and nothing else has changed. copyuvm
      panics if and only if a resize to exactly 0 came before. No sizes are given when there are
      too few pages for the directory and the kernel's tables. */
  method Lifetime(v: AddressSpaces, data: nat, requests: seq<Request>) returns (panics: bool, ghost sizes: seq<nat>)
    requires v.Ok() && KERNLINK < data < PHYSTOP_V
    requires forall i :: 0 <= i < |requests| && requests[i].Resize? ==> INTMIN <= requests[i].n < -INTMIN
    modifies v
    ensures sizes != [] ==> SizesOk(requests, sizes) && (!panics ==> |sizes| == |requests| + 1)
    ensures sizes == [] <==> |old(v.m.free)| < 1 + KTABLES
    ensures panics <==> CopyOfEmptied(requests, sizes)
    ensures v.Ok() && (!panics ==> v.role == old(v.role) && SetOf(v.m.free) == old(SetOf(v.m.free)))
    ensures !panics ==> Elsewhere(old(v.m), v.m, v.role, 0, 0, 0) && SameData(old(v.m), v.m, v.role)
  {
    hide Wf, Pte, Apart, FreeFrom, Elsewhere, SameData, WithoutDir, All, SetOf, FullBelow, Hollow, GrowNeed, CopyNeed, KernelTables, KernelUpTo, MoreTables, Has, SizesOk, EmptiedBefore, CopyOfEmptied, CleanCopies, Empties;
    FreeIsRest(v.m, v.role);
    var r := v.Setupkvm(data);
    panics, sizes := false, [];
    NoSizes(requests);
    if r.Some? {
      var d, i := r.value, 0;
      var sz: nat := 0;
      var emptied := false;
      sizes := [sz];
      SetUp(old(v.m), old(v.role), v.m, v.role, d, data);
      EmptyFull(v.m, d);
      while i < |requests|
        invariant 0 <= i <= |requests| && v.Ok() && v.Pages() == old(v.Pages()) && IsDir(v.role, d) && d !in old(v.role)
        invariant sz < KERNBASE && FreeFrom(v.m, d, sz) && Apart(old(v.m), old(v.role), v.m, v.role, d)
        invariant if emptied then Hollow(v.m, d, sz) else FullBelow(v.m, d, sz)
        invariant |sizes| == i + 1 && sizes[i] == sz && SizesOk(requests, sizes)
        invariant emptied <==> EmptiedBefore(requests, sizes, i)
        invariant CleanCopies(requests, sizes, i)
      {
        if requests[i].Copy? && emptied {
          DirtyCopy(requests, sizes, i);
          return true, sizes;
        }
        ghost var was := sizes;
        sz, emptied := Serve(v, d, sz, data, requests[i], emptied, old(v.m), old(v.role));
        sizes := sizes + [sz];
        OneMore(requests, was, sz, i);
        i := i + 1;
      }
      NoDirtyCopy(requests, sizes);
      ghost var m1, role1 := v.m, v.role;
      v.Freevm(d);
      Over(old(v.m), old(v.role), m1, role1, v.m, v.role, d);
    }
    FreeIsRest(v.m, v.role);
  }

  ghost predicate EmptiedBefore(requests: seq<Request>, sizes: seq<nat>, j: nat)
    requires j <= |requests| && j <= |sizes|
  {
    exists k :: 0 <= k < j && Empties(requests[k], sizes[k])
  }

  /** No copy among the first i requests comes after a resize to exactly 0. */
  ghost predicate CleanCopies(requests: seq<Request>, sizes: seq<nat>, i: nat)
    requires i <= |requests| && i <= |sizes|
  {
    forall j :: 0 <= j < i && requests[j].Copy? ==> !EmptiedBefore(requests, sizes, j)
  }

  lemma NoSizes(requests: seq<Request>)
    ensures SizesOk(requests, [0]) && !EmptiedBefore(requests, [0], 0) && CleanCopies(requests, [0], 0)
    ensures !CopyOfEmptied(requests, [])
  {}

  lemma OneMore(requests: seq<Request>, sizes: seq<nat>, sz: nat, i: nat)
    requires i < |requests| && |sizes| == i + 1 && SizesOk(requests, sizes) && CleanCopies(requests, sizes, i)
    requires requests[i].Copy? ==> !EmptiedBefore(requests, sizes, i)
    requires sz == sizes[i] || (requests[i].Resize? && sz == sizes[i] + requests[i].n)
    ensures SizesOk(requests, sizes + [sz]) && CleanCopies(requests, sizes + [sz], i + 1)
    ensures EmptiedBefore(requests, sizes + [sz], i + 1) <==> EmptiedBefore(requests, sizes, i) || Empties(requests[i], sizes[i])
  {
    var more := sizes + [sz];
    assert forall k :: 0 <= k <= i ==> more[k] == sizes[k];
  }

  lemma DirtyCopy(requests: seq<Request>, sizes: seq<nat>, i: nat)
    requires i < |requests| && |sizes| == i + 1 && requests[i].Copy? && EmptiedBefore(requests, sizes, i)
    ensures CopyOfEmptied(requests, sizes)
  {}

  lemma NoDirtyCopy(requests: seq<Request>, sizes: seq<nat>)
    requires |sizes| == |requests| + 1 && CleanCopies(requests, sizes, |requests|)
    ensures !CopyOfEmptied(requests, sizes)
  {
    forall i, j | 0 <= i < j < |sizes| && j < |requests| && Empties(requests[i], sizes[i]) ensures !requests[j].Copy? {
      assert EmptiedBefore(requests, sizes, j);
    }
  }

  lemma Over(m: Mem, role: map<nat, Role>, m1: Mem, role1: map<nat, Role>, r: Mem, role': map<nat, Role>, d: nat)
    requires Apart(m, role, m1, role1, d) && role' == WithoutDir(role1, d)
    requires Elsewhere(m1, r, role', 0, 0, 0) && SameData(m1, r, role')
    ensures role' == role && Elsewhere(m, r, role, 0, 0, 0) && SameData(m, r, role)
  {
    hide Pte, Elsewhere, SameData;
    ElsewhereThen(m, m1, r, role, role, 0, 0, 0);
    SameDataThen(m, m1, r, role, role);
  }
}
