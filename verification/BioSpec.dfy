/** bio.c as a step system: any number of calls of bread in progress, each with a reference to a
    buffer. Blocks on disk are read and written whole. */
module BioSpec {
  import opened Blocks
  import opened Common

  /** owner: the call that holds the buffer's sleep lock.
      touched: the holder has changed the data and not yet said so to the log or the disk.
      when: the time at which the buffer was last put at the head of the list. */
  datatype Buf = Buf(dev: nat, blockno: nat, valid: bool, dirty: bool, refcnt: nat, owner: Option<nat>, data: Block, touched: bool, when: nat)

  datatype Stage = Waiting | Holding | Dropping | Gone

  /** A call of bget: waiting for the buffer's sleep lock, holding it, in brelse, or over. */
  datatype Call = Call(b: nat, stage: Stage)

  /** order is the list from head.next to head.prev. */
  datatype Sys = Sys(bufs: seq<Buf>, order: seq<nat>, calls: seq<Call>, disk: map<(nat, nat), Block>, now: nat)

  function OnDisk(disk: map<(nat, nat), Block>, dev: nat, blockno: nat): (x: Block) {
    if (dev, blockno) in disk then disk[(dev, blockno)] else ZeroBlock()
  }

  predicate Is(x: Buf, dev: nat, blockno: nat) { x.dev == dev && x.blockno == blockno }

  /** bget's test for a buffer it may recycle. */
  predicate Recyclable(x: Buf) { x.refcnt == 0 && !x.dirty }

  /** The last recyclable buffer of the list is at position i. */
  ghost predicate Victim(bufs: seq<Buf>, order: seq<nat>, i: nat) {
    && i < |order| && order[i] < |bufs| && Recyclable(bufs[order[i]])
    && (forall j :: i < j < |order| && order[j] < |bufs| ==> !Recyclable(bufs[order[j]]))
  }

  function ToFront(order: seq<nat>, i: nat): (r: seq<nat>)
    requires i < |order|
  {
    [order[i]] + order[..i] + order[i + 1..]
  }

  function Recycled(x: Buf, dev: nat, blockno: nat): (r: Buf) {
    x.(dev := dev, blockno := blockno, valid := false, dirty := false, refcnt := 1)
  }

  datatype Step = Hit(dev: nat, blockno: nat, b: nat) | Miss(dev: nat, blockno: nat, i: nat)
    | Lock(c: nat) | Fetch(c: nat) | Modify(c: nat, data: Block) | LogWrite(c: nat) | Bwrite(c: nat) | Unlock(c: nat) | Drop(c: nat, i: nat)

  predicate At(s: Sys, c: nat, stage: Stage) { c < |s.calls| && s.calls[c].stage == stage && s.calls[c].b < |s.bufs| }

  function BufOf(s: Sys, c: nat): (b: nat)
    requires c < |s.calls|
  {
    s.calls[c].b
  }

  /** Devices are numbered from 1. A holder that has changed the data calls log_write or bwrite
      before brelse. Drop gives the buffer's position in the list. */
  ghost predicate Enabled(s: Sys, e: Step) {
    match e
    case Hit(dev, blockno, b) => dev != 0 && b < |s.bufs| && Is(s.bufs[b], dev, blockno)
    case Miss(dev, blockno, i) => dev != 0 && Victim(s.bufs, s.order, i) && (forall b :: 0 <= b < |s.bufs| ==> !Is(s.bufs[b], dev, blockno))
    case Lock(c) => At(s, c, Waiting) && s.bufs[BufOf(s, c)].owner.None?
    case Fetch(c) => At(s, c, Holding) && !s.bufs[BufOf(s, c)].valid
    case Modify(c, data) => At(s, c, Holding) && s.bufs[BufOf(s, c)].valid
    case LogWrite(c) => At(s, c, Holding) && s.bufs[BufOf(s, c)].valid
    case Bwrite(c) => At(s, c, Holding)
    case Unlock(c) => At(s, c, Holding) && !s.bufs[BufOf(s, c)].touched
    case Drop(c, i) => At(s, c, Dropping) && s.bufs[BufOf(s, c)].refcnt > 0 && i < |s.order| && s.order[i] == BufOf(s, c)
  }

  function Moved(s: Sys, c: nat, stage: Stage, x: Buf): (r: Sys)
    requires c < |s.calls| && BufOf(s, c) < |s.bufs|
  {
    s.(bufs := s.bufs[BufOf(s, c) := x], calls := s.calls[c := Call(BufOf(s, c), stage)])
  }

  ghost function After(s: Sys, e: Step): (r: Sys)
    requires Enabled(s, e)
  {
    match e
    case Hit(dev, blockno, b) => s.(bufs := s.bufs[b := s.bufs[b].(refcnt := s.bufs[b].refcnt + 1)], calls := s.calls + [Call(b, Waiting)])
    case Miss(dev, blockno, i) =>
      s.(bufs := s.bufs[s.order[i] := Recycled(s.bufs[s.order[i]], dev, blockno)], calls := s.calls + [Call(s.order[i], Waiting)])
    case Lock(c) => Moved(s, c, Holding, s.bufs[BufOf(s, c)].(owner := Some(c)))
    case Fetch(c) =>
      var x := s.bufs[BufOf(s, c)];
      Moved(s, c, Holding, x.(valid := true, dirty := false, touched := false,
        data := if x.dirty then x.data else OnDisk(s.disk, x.dev, x.blockno))).(disk := if x.dirty then s.disk[(x.dev, x.blockno) := x.data] else s.disk)
    case Modify(c, data) => Moved(s, c, Holding, s.bufs[BufOf(s, c)].(data := data, touched := true))
    case LogWrite(c) => Moved(s, c, Holding, s.bufs[BufOf(s, c)].(dirty := true, touched := false))
    case Bwrite(c) =>
      var x := s.bufs[BufOf(s, c)];
      Moved(s, c, Holding, x.(valid := true, dirty := false, touched := false)).(disk := s.disk[(x.dev, x.blockno) := x.data])
    case Unlock(c) => Moved(s, c, Dropping, s.bufs[BufOf(s, c)].(owner := None))
    case Drop(c, i) => Dropped(s, c, i)
  }

  function Dropped(s: Sys, c: nat, i: nat): (r: Sys)
    requires c < |s.calls| && BufOf(s, c) < |s.bufs| && s.bufs[BufOf(s, c)].refcnt > 0 && i < |s.order|
  {
    var x := s.bufs[BufOf(s, c)];
    if x.refcnt > 1 then Moved(s, c, Gone, x.(refcnt := x.refcnt - 1))
    else Moved(s, c, Gone, x.(refcnt := 0, when := s.now)).(order := ToFront(s.order, i), now := s.now + 1)
  }

  // ---------------------------------------------------------------- references

  function Count(calls: seq<Call>, b: nat): (n: nat) {
    if calls == [] then 0
    else Count(calls[..|calls| - 1], b) + (if calls[|calls| - 1].b == b && !calls[|calls| - 1].stage.Gone? then 1 else 0)
  }

  function Weight(c: Call, b: nat): (n: nat) { if c.b == b && !c.stage.Gone? then 1 else 0 }

  lemma CountAppend(calls: seq<Call>, c: Call, b: nat)
    ensures Count(calls + [c], b) == Count(calls, b) + Weight(c, b)
  {
    assert (calls + [c])[..|calls|] == calls;
  }

  lemma {:induction false} CountUpdate(calls: seq<Call>, i: nat, c: Call, b: nat)
    requires i < |calls|
    ensures Count(calls[i := c], b) + Weight(calls[i], b) == Count(calls, b) + Weight(c, b)
  {
    var n := |calls| - 1;
    if i < n {
      CountUpdate(calls[..n], i, c, b);
      assert calls[i := c][..n] == calls[..n][i := c];
    } else {
      assert calls[i := c][..n] == calls[..n];
    }
  }

  lemma {:induction false} CountPositive(calls: seq<Call>, i: nat)
    requires i < |calls| && !calls[i].stage.Gone?
    ensures Count(calls, calls[i].b) > 0
  {
    if i < |calls| - 1 {
      CountPositive(calls[..|calls| - 1], i);
    }
  }

  // ---------------------------------------------------------------- invariants

  /** refcnt counts the calls; the sleep lock has at most one holder. */
  ghost predicate RefInv(s: Sys) {
    && (forall c: nat :: c < |s.calls| ==> s.calls[c].b < |s.bufs|)
    && (forall b: nat :: b < |s.bufs| ==> s.bufs[b].refcnt == Count(s.calls, b))
    && (forall c: nat :: c < |s.calls| && s.calls[c].stage.Holding? ==> s.bufs[s.calls[c].b].owner == Some(c))
    && (forall b: nat :: b < |s.bufs| && s.bufs[b].owner.Some? ==> s.bufs[b].owner.value < |s.calls| && s.calls[s.bufs[b].owner.value] == Call(b, Holding))
  }

  /** A block has one buffer; buffers never used yet have device 0. */
  ghost predicate IdInv(s: Sys) {
    && (forall a: nat, b: nat :: a < |s.bufs| && b < |s.bufs| && a != b && s.bufs[a].dev != 0 ==> !Is(s.bufs[b], s.bufs[a].dev, s.bufs[a].blockno))
    && (forall b: nat :: b < |s.bufs| && s.bufs[b].dev == 0 ==> !s.bufs[b].valid && !s.bufs[b].dirty && s.bufs[b].refcnt == 0)
  }

  /** A buffer whose contents nobody has changed agrees with the disk. */
  predicate DataOk(s: Sys, b: nat)
    requires b < |s.bufs|
  {
    && (s.bufs[b].valid && !s.bufs[b].dirty && !s.bufs[b].touched ==> s.bufs[b].data == OnDisk(s.disk, s.bufs[b].dev, s.bufs[b].blockno))
    && (s.bufs[b].dirty ==> s.bufs[b].valid)
    && (s.bufs[b].owner.None? ==> !s.bufs[b].touched)
  }

  ghost predicate DataInv(s: Sys) { forall b: nat :: b < |s.bufs| ==> DataOk(s, b) }

  /** The list holds every buffer once, the one put at its head last first. */
  ghost predicate OrderInv(s: Sys) {
    && |s.order| == |s.bufs|
    && (forall i :: 0 <= i < |s.order| ==> s.order[i] < |s.bufs| && s.bufs[s.order[i]].when < s.now)
    && (forall i, j :: 0 <= i < j < |s.order| ==> s.bufs[s.order[j]].when < s.bufs[s.order[i]].when)
  }

  ghost predicate Inv(s: Sys) { RefInv(s) && IdInv(s) && DataInv(s) && OrderInv(s) }

  /** A new call takes a reference. */
  lemma NewCallKeepsRef(s: Sys, r: Sys, b: nat)
    requires RefInv(s) && b < |s.bufs| && |r.bufs| == |s.bufs| && r.calls == s.calls + [Call(b, Waiting)]
    requires forall x: nat :: x < |s.bufs| ==> r.bufs[x].refcnt == s.bufs[x].refcnt + (if x == b then 1 else 0) && r.bufs[x].owner == s.bufs[x].owner
    ensures RefInv(r)
  {
    forall x: nat | x < |s.bufs| ensures r.bufs[x].refcnt == Count(r.calls, x) {
      CountAppend(s.calls, Call(b, Waiting), x);
    }
  }

  /** A call goes on to another stage; it owns the buffer exactly while holding it. */
  lemma MovedKeepsRef(s: Sys, c: nat, stage: Stage, x: Buf)
    requires RefInv(s) && c < |s.calls| && !s.calls[c].stage.Gone? && BufOf(s, c) < |s.bufs|
    requires x.refcnt == s.bufs[BufOf(s, c)].refcnt - (if stage.Gone? then 1 else 0)
    requires stage.Holding? ==> x.owner == Some(c) && (s.bufs[BufOf(s, c)].owner.None? || s.bufs[BufOf(s, c)].owner == Some(c))
    requires !stage.Holding? ==> x.owner == if s.bufs[BufOf(s, c)].owner == Some(c) then None else s.bufs[BufOf(s, c)].owner
    ensures RefInv(Moved(s, c, stage, x))
  {
    var r := Moved(s, c, stage, x);
    forall y: nat | y < |s.bufs| ensures r.bufs[y].refcnt == Count(r.calls, y) {
      CountUpdate(s.calls, c, r.calls[c], y);
    }
  }

  lemma OtherFields(s: Sys, r: Sys)
    requires RefInv(s) && r.bufs == s.bufs && r.calls == s.calls
    ensures RefInv(r)
  {}

  lemma StepKeepsRef(s: Sys, e: Step)
    requires RefInv(s) && Enabled(s, e) && OrderInv(s)
    ensures RefInv(After(s, e))
  {
    var r := After(s, e);
    if e.Hit? || e.Miss? {
      if e.Miss? {
        Unowned(s, s.order[e.i]);
      }
      NewCallKeepsRef(s, r, if e.Hit? then e.b else s.order[e.i]);
    } else {
      hide RefInv;
      CallOk(s, e.c);
      MovedKeepsRef(s, e.c, r.calls[e.c].stage, r.bufs[BufOf(s, e.c)]);
      OtherFields(Moved(s, e.c, r.calls[e.c].stage, r.bufs[BufOf(s, e.c)]), r);
    }
  }

  lemma CallOk(s: Sys, c: nat)
    requires RefInv(s) && c < |s.calls|
    ensures s.calls[c].b < |s.bufs| && (s.calls[c].stage.Holding? <==> s.bufs[s.calls[c].b].owner == Some(c))
  {}

  lemma StepKeepsId(s: Sys, e: Step)
    requires RefInv(s) && IdInv(s) && Enabled(s, e)
    ensures IdInv(After(s, e))
  {
    hide RefInv, ToFront, OnDisk;
    if !e.Hit? && !e.Miss? {
      CallCounts(s, e.c);
    }
  }

  lemma CallCounts(s: Sys, c: nat)
    requires RefInv(s) && c < |s.calls|
    ensures s.calls[c].b < |s.bufs| && (!s.calls[c].stage.Gone? ==> s.bufs[s.calls[c].b].refcnt > 0)
  {
    if !s.calls[c].stage.Gone? {
      CountPositive(s.calls, c);
    }
  }

  /** Only the buffer of a block notices when the block changes on disk. */
  lemma StepKeepsData(s: Sys, e: Step)
    requires RefInv(s) && IdInv(s) && DataInv(s) && Enabled(s, e)
    ensures DataInv(After(s, e))
  {
    var r := After(s, e);
    if !e.Hit? && !e.Miss? {
      CallCounts(s, e.c);
    }
    forall b: nat | b < |s.bufs| ensures DataOk(r, b) {
      assert DataOk(s, b);
      if e.Miss? && b == s.order[e.i] {
        Unowned(s, b);
      }
    }
  }

  lemma Unowned(s: Sys, b: nat)
    requires RefInv(s) && b < |s.bufs| && s.bufs[b].refcnt == 0
    ensures s.bufs[b].owner.None?
  {
    if s.bufs[b].owner.Some? {
      CountPositive(s.calls, s.bufs[b].owner.value);
    }
  }

  lemma StepKeepsOrder(s: Sys, e: Step)
    requires OrderInv(s) && Enabled(s, e)
    ensures OrderInv(After(s, e))
  {
    var r := After(s, e);
    if e.Drop? && s.bufs[BufOf(s, e.c)].refcnt == 1 {
      FrontKeepsOrder(s, e.c, e.i);
    }
  }

  lemma FrontKeepsOrder(s: Sys, c: nat, i: nat)
    requires OrderInv(s) && Enabled(s, Drop(c, i)) && s.bufs[BufOf(s, c)].refcnt == 1
    ensures OrderInv(After(s, Drop(c, i)))
  {
    var r, b := After(s, Drop(c, i)), BufOf(s, c);
    forall j | 0 < j < |s.order| ensures r.order[j] == s.order[if j <= i then j - 1 else j] && r.order[j] != b {}
  }

  lemma StepKeeps(s: Sys, e: Step)
    requires Inv(s) && Enabled(s, e)
    ensures Inv(After(s, e))
  {
    StepKeepsRef(s, e);
    StepKeepsId(s, e);
    StepKeepsData(s, e);
    StepKeepsOrder(s, e);
  }

  // ---------------------------------------------------------------- runs

  /** After binit. */
  ghost predicate Init(s: Sys) {
    && s.calls == [] && OrderInv(s)
    && (forall b: nat :: b < |s.bufs| ==> s.bufs[b].dev == 0 && !s.bufs[b].valid && !s.bufs[b].dirty && s.bufs[b].refcnt == 0 && s.bufs[b].owner.None? && !s.bufs[b].touched)
  }

  ghost predicate IsRun(ss: seq<Sys>, es: seq<Step>) {
    && |ss| == |es| + 1 && Init(ss[0])
    && (forall i: nat :: i < |es| ==> Enabled(ss[i], es[i]) && ss[i + 1] == After(ss[i], es[i]))
  }

  lemma {:induction false} RunKeeps(ss: seq<Sys>, es: seq<Step>, n: nat)
    requires IsRun(ss, es) && n < |ss|
    ensures Inv(ss[n])
  {
    if n > 0 {
      hide Inv, Enabled, After, Init;
      RunKeeps(ss, es, n - 1);
      StepKeeps(ss[n - 1], es[n - 1]);
    }
  }

  /** In every reachable state: a buffer nobody has locked that is valid and clean holds what is on
      disk, and no other buffer is for the same block. */
  lemma RunAgrees(ss: seq<Sys>, es: seq<Step>, n: nat, b: nat)
    requires IsRun(ss, es) && n < |ss| && b < |ss[n].bufs|
    requires ss[n].bufs[b].valid || ss[n].bufs[b].dirty || ss[n].bufs[b].refcnt > 0
    ensures var s := ss[n];
      && (s.bufs[b].valid && !s.bufs[b].dirty && s.bufs[b].owner.None? ==> s.bufs[b].data == OnDisk(s.disk, s.bufs[b].dev, s.bufs[b].blockno))
      && (forall a: nat :: a < |s.bufs| && a != b ==> !Is(s.bufs[a], s.bufs[b].dev, s.bufs[b].blockno))
  {
    hide IsRun;
    RunKeeps(ss, es, n);
    assert DataOk(ss[n], b);
  }

  /** bget recycles the clean unreferenced buffer that was released longest ago; nobody holds it. */
  lemma RunRecyclesOldest(ss: seq<Sys>, es: seq<Step>, n: nat, b: nat)
    requires IsRun(ss, es) && n < |es| && es[n].Miss? && b < |ss[n].bufs| && ss[n].bufs[b].refcnt == 0 && !ss[n].bufs[b].dirty
    ensures var s, v := ss[n], ss[n].order[es[n].i];
      v < |s.bufs| && s.bufs[v].refcnt == 0 && !s.bufs[v].dirty && s.bufs[v].owner.None? && s.bufs[v].when <= s.bufs[b].when
  {
    RunKeeps(ss, es, n);
    var s, i := ss[n], es[n].i;
    Unowned(s, s.order[i]);
    EveryBufferListed(s, b);
    var j :| 0 <= j < |s.order| && s.order[j] == b;
    assert j <= i;
  }

  /** A dirty buffer keeps its block, its contents unless its holder changes them, and its mark
      until the contents are on disk: nothing the log has pinned is recycled. */
  lemma RunDirtyStays(ss: seq<Sys>, es: seq<Step>, n: nat, b: nat)
    requires IsRun(ss, es) && n < |es| && b < |ss[n].bufs| && ss[n].bufs[b].dirty
    ensures b < |ss[n + 1].bufs| && Is(ss[n + 1].bufs[b], ss[n].bufs[b].dev, ss[n].bufs[b].blockno)
    ensures ss[n + 1].bufs[b].dirty || ss[n + 1].disk == ss[n].disk[(ss[n].bufs[b].dev, ss[n].bufs[b].blockno) := ss[n].bufs[b].data]
    ensures ss[n + 1].bufs[b].data != ss[n].bufs[b].data ==> es[n].Modify? && ss[n].bufs[b].owner == Some(es[n].c)
  {
    RunKeeps(ss, es, n);
    var s, e := ss[n], es[n];
    assert DataOk(s, b);
    if !e.Hit? && !e.Miss? {
      CallOk(s, e.c);
    }
    hide RefInv, OrderInv, IdInv, DataInv;
  }

  /** The list has as many entries as there are buffers, and no entry twice, so none is missing. */
  lemma EveryBufferListed(s: Sys, b: nat)
    requires OrderInv(s) && b < |s.bufs|
    ensures exists j :: 0 <= j < |s.order| && s.order[j] == b
  {
    forall i, j | 0 <= i < j < |s.order| ensures s.order[i] != s.order[j] {
      assert s.bufs[s.order[j]].when < s.bufs[s.order[i]].when;
    }
    Pigeons(s.order, |s.bufs|, b);
  }

  lemma {:induction false} Pigeons(order: seq<nat>, n: nat, b: nat)
    requires |order| == n && b < n && (forall i :: 0 <= i < n ==> order[i] < n)
    requires forall i, j :: 0 <= i < j < n ==> order[i] != order[j]
    ensures exists j :: 0 <= j < n && order[j] == b
  {
    Listed(order, |order|);
    FullSet(Members(order, n), n);
    assert b in Members(order, n);
    InMembers(order, n, b);
  }

  ghost function Members(order: seq<nat>, k: nat): (m: set<nat>)
    requires k <= |order|
  {
    if k == 0 then {} else Members(order, k - 1) + {order[k - 1]}
  }

  lemma {:induction false} InMembers(order: seq<nat>, k: nat, b: nat)
    requires k <= |order|
    ensures b in Members(order, k) <==> exists j :: 0 <= j < k && order[j] == b
  {
    if k > 0 {
      InMembers(order, k - 1, b);
    }
  }

  lemma {:induction false} Listed(order: seq<nat>, k: nat)
    requires k <= |order| && (forall i, j :: 0 <= i < j < |order| ==> order[i] != order[j])
    ensures |Members(order, k)| == k && forall b :: b in Members(order, k) ==> b in order
  {
    if k > 0 {
      Listed(order, k - 1);
      InMembers(order, k - 1, order[k - 1]);
    }
  }

  lemma {:induction false} FullSet(m: set<nat>, n: nat)
    requires |m| == n && forall b :: b in m ==> b < n
    ensures forall b: nat :: b < n ==> b in m
  {
    if n > 0 {
      if n - 1 in m {
        FullSet(m - {n - 1}, n - 1);
      } else {
        TooFew(m, n - 1);
      }
    }
  }

  lemma {:induction false} TooFew(m: set<nat>, n: nat)
    requires forall b :: b in m ==> b < n
    ensures |m| <= n
  {
    if n > 0 {
      TooFew(m - {n - 1}, n - 1);
      assert n - 1 in m ==> |m| == |m - {n - 1}| + 1;
      assert n - 1 !in m ==> m - {n - 1} == m;
    } else {
      assert m == {};
    }
  }

  // ---------------------------------------------------------------- running out of buffers

  /** bget finds neither the block nor a buffer to recycle. */
  ghost predicate BgetPanics(s: Sys, dev: nat, blockno: nat) {
    && (forall b :: 0 <= b < |s.bufs| ==> !Is(s.bufs[b], dev, blockno))
    && !(exists i: nat :: Victim(s.bufs, s.order, i))
  }

  /** The dirty buffers are those of the listed blocks, each block listed once. */
  ghost predicate Pinned(s: Sys, dev: nat, bs: seq<nat>) {
    && (forall b: nat :: b < |s.bufs| && s.bufs[b].dirty ==> s.bufs[b].dev == dev && s.bufs[b].blockno in bs)
    && (forall i :: 0 <= i < |bs| ==> HasDirty(s, dev, bs[i]))
    && (forall i, j :: 0 <= i < j < |bs| ==> bs[i] != bs[j])
  }

  ghost predicate HasDirty(s: Sys, dev: nat, blockno: nat) {
    exists b: nat :: b < |s.bufs| && s.bufs[b].dirty && Is(s.bufs[b], dev, blockno)
  }

  ghost predicate Held(s: Sys, m: set<nat>, blockno: nat) {
    exists b :: b in m && b < |s.bufs| && s.bufs[b].dirty && s.bufs[b].blockno == blockno
  }

  /** The dirty buffers of the first k listed blocks. */
  lemma {:induction false} DirtySet(s: Sys, dev: nat, bs: seq<nat>, k: nat) returns (m: set<nat>)
    requires Pinned(s, dev, bs) && k <= |bs|
    ensures |m| == k && forall b :: b in m ==> b < |s.bufs| && s.bufs[b].dirty && forall i :: k <= i < |bs| ==> s.bufs[b].blockno != bs[i]
    ensures forall i :: 0 <= i < k ==> Held(s, m, bs[i])
  {
    if k == 0 {
      m := {};
    } else {
      m := DirtySet(s, dev, bs, k - 1);
      assert HasDirty(s, dev, bs[k - 1]);
      var b: nat :| b < |s.bufs| && s.bufs[b].dirty && Is(s.bufs[b], dev, bs[k - 1]);
      hide HasDirty;
      StillHeld(s, m, bs, k - 1, b);
      m := m + {b};
    }
  }

  lemma StillHeld(s: Sys, m: set<nat>, bs: seq<nat>, n: nat, b: nat)
    requires n < |bs| && (forall i :: 0 <= i < n ==> Held(s, m, bs[i]))
    requires b < |s.bufs| && s.bufs[b].dirty && s.bufs[b].blockno == bs[n]
    ensures forall i :: 0 <= i < n + 1 ==> Held(s, m + {b}, bs[i])
  {
    forall i | 0 <= i < n + 1 ensures Held(s, m + {b}, bs[i]) {
      if i < n {
        assert Held(s, m, bs[i]);
        var a :| a in m && a < |s.bufs| && s.bufs[a].dirty && s.bufs[a].blockno == bs[i];
        assert a in m + {b};
      } else {
        assert b in m + {b};
      }
    }
  }

  lemma {:induction false} LastRecyclable(bufs: seq<Buf>, order: seq<nat>, n: nat, j: nat) returns (i: nat)
    requires j < n <= |order| && order[j] < |bufs| && Recyclable(bufs[order[j]])
    requires forall k :: n <= k < |order| && order[k] < |bufs| ==> !Recyclable(bufs[order[k]])
    ensures Victim(bufs, order, i)
  {
    if order[n - 1] < |bufs| && Recyclable(bufs[order[n - 1]]) {
      i := n - 1;
    } else {
      i := LastRecyclable(bufs, order, n - 1, j);
    }
  }

  /** While nobody holds a buffer, bget for a block the log has not pinned panics if and only if the
      log has pinned as many blocks as there are buffers. */
  lemma PanicsIff(s: Sys, dev: nat, bs: seq<nat>, blockno: nat)
    requires Inv(s) && dev != 0 && Pinned(s, dev, bs) && blockno !in bs
    requires forall b: nat :: b < |s.bufs| ==> s.bufs[b].refcnt == 0
    ensures |bs| <= |s.bufs| && (BgetPanics(s, dev, blockno) <==> |bs| == |s.bufs|)
  {
    hide RefInv, DataInv;
    var m := DirtySet(s, dev, bs, |bs|);
    TooFew(m, |s.bufs|);
    if |bs| == |s.bufs| {
      FullSet(m, |s.bufs|);
    } else {
      var b := CleanBuffer(s, dev, bs, m);
      EveryBufferListed(s, b);
      var j: nat :| j < |s.order| && s.order[j] == b;
      var i := LastRecyclable(s.bufs, s.order, |s.order|, j);
    }
  }

  lemma CleanBuffer(s: Sys, dev: nat, bs: seq<nat>, m: set<nat>) returns (b: nat)
    requires IdInv(s) && dev != 0 && Pinned(s, dev, bs) && |m| == |bs| < |s.bufs|
    requires forall b :: b in m ==> b < |s.bufs|
    requires forall i :: 0 <= i < |bs| ==> Held(s, m, bs[i])
    ensures b < |s.bufs| && !s.bufs[b].dirty
  {
    if forall x: nat :: x < |s.bufs| ==> x in m {
      Fewer(m, |s.bufs|);
    }
    b :| b < |s.bufs| && b !in m;
    if s.bufs[b].dirty {
      var i :| 0 <= i < |bs| && bs[i] == s.bufs[b].blockno;
      assert Held(s, m, bs[i]);
      var a :| a in m && a < |s.bufs| && s.bufs[a].dirty && s.bufs[a].blockno == bs[i];
      assert Is(s.bufs[a], s.bufs[b].dev, s.bufs[b].blockno);
    }
  }

  lemma {:induction false} Fewer(m: set<nat>, n: nat)
    requires forall b: nat :: b < n ==> b in m
    ensures |m| >= n
  {
    if n > 0 {
      Fewer(m - {n - 1}, n - 1);
    }
  }
}
