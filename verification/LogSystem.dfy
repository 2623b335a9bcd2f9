/** Every interleaving of file-system operations, commits, crashes and recoveries over the log.
    An operation is one system call between begin_op and end_op. hist lists every log_write so
    far and who names the operation that made it; durable counts the log_writes that a crash
    can no longer undo. log_write tests for room without the lock and appends with it, so the two
    are separate steps and other operations may come in between. A list that has outgrown the area is
    not committed: the guard of End stops such a run there, before its copies leave the area. */
module LogSystem {
  import opened Common
  import opened LogSpec

  /** passed: inside log_write, its tests behind it. */
  datatype Op = Op(dirty: set<nat>, ended: bool, passed: bool)

  datatype Mode =
    | Up
    | Committing(base: Disk, ws: seq<Write>, k: nat)
    | Recovering(found: Disk, k: nat)

  datatype State = State(disk: Disk, mem: Mem, mode: Mode, ops: seq<Op>,
                         hist: seq<Write>, who: seq<nat>, durable: nat)

  datatype Step =
    | Begin
    | TestWrite(op: nat)
    | LogWrite(op: nat, w: Write)
    | End(op: nat)
    | CommitWrite
    | CommitDone
    | Crash
    | RecoverWrite
    | RecoverDone

  const EMPTY := Mem([], map[], 0, false)

  ghost predicate Active(s: State, p: nat) { p < |s.ops| && !s.ops[p].ended }

  ghost predicate IsHome(g: Area, d: Disk, b: nat) { b < |d| && !Inside(g, b) }

  /** What each operation may still add to the log, summed over the operations in progress. */
  ghost function Reserve(ops: seq<Op>): (r: int) {
    if ops == [] then 0 else
      Reserve(ops[..|ops|-1]) + (if ops[|ops|-1].ended then 0 else MAXOPBLOCKS - |ops[|ops|-1].dirty|)
  }

  ghost function Running(ops: seq<Op>): (r: int)
    ensures 0 <= r <= |ops|
  {
    if ops == [] then 0 else Running(ops[..|ops|-1]) + (if ops[|ops|-1].ended then 0 else 1)
  }

  ghost predicate Init(g: Area, init: Disk, s: State) {
    EmptyLog(g, init) && s == State(init, EMPTY, Up, [], [], [], 0)
  }

  ghost predicate Next(g: Area, s: State, step: Step, t: State) {
    match step
    case Begin =>
      s.mode.Up? && MayBegin(s.mem) &&
      t == s.(mem := s.mem.(outstanding := s.mem.outstanding + 1), ops := s.ops + [Op({}, false, false)])
    case TestWrite(p) =>
      && s.mode.Up? && Active(s, p) && !s.ops[p].passed && !RefusesWrite(g, s.mem)
      && t == s.(ops := s.ops[p := s.ops[p].(passed := true)])
    case LogWrite(p, w) =>
      && s.mode.Up? && Active(s, p) && s.ops[p].passed && IsHome(g, s.disk, w.blockno)
      && (w.blockno in s.ops[p].dirty || |s.ops[p].dirty| < MAXOPBLOCKS)
      && t == s.(mem := Logged(s.mem, w.blockno, w.data),
                 ops := s.ops[p := Op(s.ops[p].dirty + {w.blockno}, false, false)],
                 hist := s.hist + [w], who := s.who + [p])
    case End(p) =>
      && Active(s, p) && !s.ops[p].passed && !s.mem.committing
      && var m := Ended(s.mem);
      && (m.committing ==> GoodList(g, s.disk, m.listed) && Cached(m.listed, m.pinned))
      && t == s.(mem := m, ops := s.ops[p := s.ops[p].(ended := true)],
                 mode := if m.committing then Committing(s.disk, CommitWrites(g, s.disk, m.listed, m.pinned), 0) else Up)
    case CommitWrite =>
      && s.mode.Committing? && s.mode.k < |s.mode.ws| && (s.mode.k < |s.mem.listed| ==> |s.mem.listed| < NBUF)
      && t == s.(disk := Put(s.disk, s.mode.ws[s.mode.k]), mode := Committing(s.mode.base, s.mode.ws, s.mode.k + 1),
                 durable := if s.mode.k == |s.mem.listed| then |s.hist| else s.durable)
    case CommitDone =>
      && s.mode.Committing? && s.mode.k == |s.mode.ws|
      && t == s.(mem := s.mem.(listed := [], pinned := map[], committing := false), mode := Up)
    case Crash =>
      && s.durable <= |s.hist| && s.durable <= |s.who|
      && t == State(s.disk, EMPTY, Recovering(s.disk, 0),
                    seq(|s.ops|, i requires 0 <= i < |s.ops| => s.ops[i].(ended := true)),
                    s.hist[..s.durable], s.who[..s.durable], s.durable)
    case RecoverWrite =>
      && s.mode.Recovering? && GoodLog(g, s.mode.found) && s.mode.k < |RecoverWrites(g, s.mode.found)|
      && t == s.(disk := Put(s.disk, RecoverWrites(g, s.mode.found)[s.mode.k]), mode := Recovering(s.mode.found, s.mode.k + 1))
    case RecoverDone =>
      && s.mode.Recovering? && GoodLog(g, s.mode.found) && s.mode.k == |RecoverWrites(g, s.mode.found)|
      && t == s.(mode := Up)
  }

  // ---------------------------------------------------------------- the invariant

  /** Bookkeeping of operations: counts, reservation, and who wrote what. */
  ghost predicate OpsInv(s: State) {
    && |s.who| == |s.hist| && s.durable <= |s.hist|
    && s.mem.outstanding == Running(s.ops)
    && |s.mem.listed| + Reserve(s.ops) <= LOGSIZE
    && (forall p: nat :: Active(s, p) ==> |s.ops[p].dirty| <= MAXOPBLOCKS && forall b :: b in s.ops[p].dirty ==> b in s.mem.listed)
    && (forall i :: 0 <= i < |s.who| ==> s.who[i] < |s.ops|)
    && (forall i :: 0 <= i < s.durable ==> s.ops[s.who[i]].ended)
    && (forall i, j :: 0 <= i < s.durable <= j < |s.who| ==> s.who[i] != s.who[j])
    && (s.mem.committing <==> s.mode.Committing?)
    && (!s.mode.Up? ==> s.mem.outstanding == 0)
    && (s.mem.outstanding == 0 && !s.mode.Committing? ==> s.mem.listed == [])
  }

  /** The log in memory: distinct home blocks, pinned exactly, holding the latest writes. */
  ghost predicate MemInv(g: Area, init: Disk, s: State) {
    && |s.disk| == |init|
    && GoodList(g, s.disk, s.mem.listed)
    && (forall b :: b in s.mem.pinned <==> b in s.mem.listed)
    && (forall b :: b in s.mem.pinned ==> s.mem.pinned[b] == Apply(init, s.hist)[b])
  }

  /** Blocks that the log does not list already have their final contents. */
  ghost predicate UnlistedInv(g: Area, init: Disk, s: State)
    requires s.durable <= |s.hist|
  {
    && (s.mem.listed == [] ==> s.durable == |s.hist|)
    && forall b: nat :: IsHome(g, init, b) && b !in s.mem.listed ==> Apply(init, s.hist)[b] == Apply(init, s.hist[..s.durable])[b]
  }

  ghost predicate DiskInv(g: Area, init: Disk, s: State)
    requires s.durable <= |s.hist|
  {
    match s.mode
    case Up => EmptyLog(g, s.disk) && SameHomes(g, s.disk, Apply(init, s.hist[..s.durable]))
    case Committing(base, ws, k) =>
      && EmptyLog(g, base) && GoodList(g, base, s.mem.listed) && Cached(s.mem.listed, s.mem.pinned)
      && ws == CommitWrites(g, base, s.mem.listed, s.mem.pinned) && k <= |ws|
      && s.disk == Apply(base, ws[..k])
      && (k <= |s.mem.listed| ==> SameHomes(g, base, Apply(init, s.hist[..s.durable])))
      && (k > |s.mem.listed| ==> s.durable == |s.hist| && Installed(g, base, s.mem.listed, s.mem.pinned, Apply(init, s.hist)))
    case Recovering(found, k) =>
      && GoodLog(g, found) && k <= |RecoverWrites(g, found)| && s.disk == CutRecovery(g, found, k)
      && s.mem == EMPTY && s.durable == |s.hist|
      && SameHomes(g, Recovered(g, found), Apply(init, s.hist))
  }

  ghost predicate Inv(g: Area, init: Disk, s: State) {
    && EmptyLog(g, init) && |init| <= UINT
    && OpsInv(s) && MemInv(g, init, s) && UnlistedInv(g, init, s) && DiskInv(g, init, s)
  }

  // ---------------------------------------------------------------- every step keeps it

  lemma {:induction false} ReserveUpdate(ops: seq<Op>, p: nat, o: Op)
    requires p < |ops|
    ensures Reserve(ops[p := o]) == Reserve(ops)
      - (if ops[p].ended then 0 else MAXOPBLOCKS - |ops[p].dirty|) + (if o.ended then 0 else MAXOPBLOCKS - |o.dirty|)
    ensures Running(ops[p := o]) == Running(ops) - (if ops[p].ended then 0 else 1) + (if o.ended then 0 else 1)
  {
    var n := |ops| - 1;
    if p < n {
      ReserveUpdate(ops[..n], p, o);
      assert ops[p := o][..n] == ops[..n][p := o];
    } else {
      assert ops[p := o][..n] == ops[..n];
    }
  }

  lemma {:induction false} ReserveBounds(ops: seq<Op>)
    requires forall p :: 0 <= p < |ops| && !ops[p].ended ==> |ops[p].dirty| <= MAXOPBLOCKS
    ensures 0 <= Reserve(ops) <= Running(ops) * MAXOPBLOCKS
    ensures forall p :: 0 <= p < |ops| && !ops[p].ended ==> Reserve(ops) >= MAXOPBLOCKS - |ops[p].dirty| && Running(ops) >= 1
    ensures Running(ops) == 0 ==> Reserve(ops) == 0
  {
    if ops != [] {
      var front := ops[..|ops|-1];
      assert forall p :: 0 <= p < |front| ==> front[p] == ops[p];
      ReserveBounds(front);
    }
  }

  lemma {:induction false} AllEnded(ops: seq<Op>)
    requires forall p :: 0 <= p < |ops| ==> ops[p].ended
    ensures Reserve(ops) == 0 && Running(ops) == 0
  {
    if ops != [] {
      AllEnded(ops[..|ops|-1]);
    }
  }

  lemma BeginOps(g: Area, s: State, t: State)
    requires OpsInv(s) && Next(g, s, Begin, t)
    ensures OpsInv(t)
  {
    assert t.ops[..|s.ops|] == s.ops;
    ReserveBounds(s.ops);
  }

  lemma BeginKeeps(g: Area, init: Disk, s: State, t: State)
    requires Inv(g, init, s) && Next(g, s, Begin, t)
    ensures Inv(g, init, t)
  {
    hide OpsInv, MemInv, UnlistedInv, DiskInv, EmptyLog, Next;
    BeginOps(g, s, t);
    BeginRest(g, init, s, t);
  }

  lemma BeginRest(g: Area, init: Disk, s: State, t: State)
    requires Inv(g, init, s) && Next(g, s, Begin, t)
    ensures t.durable <= |t.hist| && MemInv(g, init, t) && UnlistedInv(g, init, t) && DiskInv(g, init, t)
  {
    hide GoodList, EmptyLog, SameHomes, Apply;
  }

  lemma TestWriteOps(g: Area, s: State, p: nat, t: State)
    requires OpsInv(s) && Next(g, s, TestWrite(p), t)
    ensures OpsInv(t)
  {
    ReserveUpdate(s.ops, p, t.ops[p]);
    forall q: nat | Active(t, q)
      ensures |t.ops[q].dirty| <= MAXOPBLOCKS && forall b :: b in t.ops[q].dirty ==> b in t.mem.listed
    {
      assert Active(s, q);
    }
  }

  lemma TestWriteKeeps(g: Area, init: Disk, s: State, p: nat, t: State)
    requires Inv(g, init, s) && Next(g, s, TestWrite(p), t)
    ensures Inv(g, init, t)
  {
    hide OpsInv, MemInv, UnlistedInv, DiskInv, EmptyLog, Next;
    TestWriteOps(g, s, p, t);
    TestWriteRest(g, init, s, p, t);
  }

  lemma TestWriteRest(g: Area, init: Disk, s: State, p: nat, t: State)
    requires Inv(g, init, s) && Next(g, s, TestWrite(p), t)
    ensures t.durable <= |t.hist| && MemInv(g, init, t) && UnlistedInv(g, init, t) && DiskInv(g, init, t)
  {
    hide GoodList, EmptyLog, SameHomes, Apply;
  }

  lemma LogWriteCounts(g: Area, s: State, p: nat, w: Write, t: State)
    requires OpsInv(s) && Next(g, s, LogWrite(p, w), t)
    ensures t.mem.outstanding == Running(t.ops) && t.mem.outstanding >= 1
    ensures |t.ops[p].dirty| <= MAXOPBLOCKS && |t.mem.listed| + Reserve(t.ops) <= LOGSIZE
  {
    hide GoodList, IsHome;
    var dirty := s.ops[p].dirty;
    assert Active(s, p);
    assert w.blockno in dirty ==> w.blockno in s.mem.listed && dirty + {w.blockno} == dirty;
    ReserveUpdate(s.ops, p, t.ops[p]);
    ReserveBounds(s.ops);
  }

  lemma LogWriteOps(g: Area, s: State, p: nat, w: Write, t: State)
    requires OpsInv(s) && Next(g, s, LogWrite(p, w), t)
    ensures OpsInv(t)
  {
    hide GoodList, IsHome, Reserve, Running;
    LogWriteCounts(g, s, p, w, t);
    forall q: nat | Active(t, q)
      ensures |t.ops[q].dirty| <= MAXOPBLOCKS && forall b :: b in t.ops[q].dirty ==> b in t.mem.listed
    {
      assert Active(s, q);
    }
  }

  lemma ApplyLast(d: Disk, ws: seq<Write>, w: Write)
    ensures Apply(d, ws + [w]) == Put(Apply(d, ws), w)
  {
    assert (ws + [w])[..|ws|] == ws;
  }

  /** The list may still be one that a commit can copy into the area. */
  ghost predicate Fits(g: Area, t: State) { LOGSIZE < g.size || |t.mem.listed| < g.size }

  lemma ListBound(g: Area, s: State)
    requires OpsInv(s)
    ensures |s.mem.listed| <= LOGSIZE && (Fits(g, s) ==> |s.mem.listed| < g.size)
  {
    ReserveBounds(s.ops);
  }

  lemma LogWriteMem(g: Area, init: Disk, s: State, p: nat, w: Write, t: State)
    requires |init| <= UINT && MemInv(g, init, s) && Next(g, s, LogWrite(p, w), t)
    requires |t.mem.listed| < g.size && |t.mem.listed| <= LOGSIZE
    ensures MemInv(g, init, t)
  {
    hide OpsInv, UnlistedInv, EmptyLog, DiskInv, Apply, GoodList, Inside;
    ApplyLast(init, s.hist, w);
    LogWriteListed(g, s.disk, s.mem.listed, w.blockno);
  }

  /** A home block may join a list of home blocks while the area has room for it. */
  lemma LogWriteListed(g: Area, d: Disk, bs: seq<nat>, b: nat)
    requires GoodList(g, d, bs) && IsHome(g, d, b) && |d| <= UINT
    ensures forall c :: c in bs ==> c < |d|
    ensures b !in bs && |bs| + 1 < g.size && |bs| + 1 <= LOGSIZE ==> GoodList(g, d, bs + [b])
  {}

  lemma LogWriteKeeps(g: Area, init: Disk, s: State, p: nat, w: Write, t: State)
    requires Inv(g, init, s) && Next(g, s, LogWrite(p, w), t) && Fits(g, t)
    ensures Inv(g, init, t)
  {
    hide MemInv, EmptyLog, UnlistedInv, DiskInv;
    LogWriteOps(g, s, p, w, t);
    ListBound(g, t);
    LogWriteMem(g, init, s, p, w, t);
    LogWriteDisk(g, init, s, p, w, t);
  }

  lemma LogWriteDisk(g: Area, init: Disk, s: State, p: nat, w: Write, t: State)
    requires Inv(g, init, s) && Next(g, s, LogWrite(p, w), t) && OpsInv(t)
    ensures UnlistedInv(g, init, t) && DiskInv(g, init, t)
  {
    hide MemInv, EmptyLog, SameHomes, GoodList, Inside;
    assert t.hist[..|s.hist|] == s.hist;
    assert t.hist[..t.durable] == s.hist[..s.durable];
  }

  lemma EndOps(g: Area, s: State, p: nat, t: State)
    requires OpsInv(s) && Next(g, s, End(p), t)
    ensures OpsInv(t)
  {
    hide GoodList, Cached, CommitWrites;
    assert Active(s, p);
    ReserveUpdate(s.ops, p, t.ops[p]);
    ReserveBounds(s.ops);
    forall q: nat | Active(t, q)
      ensures |t.ops[q].dirty| <= MAXOPBLOCKS && forall b :: b in t.ops[q].dirty ==> b in t.mem.listed
    {
      assert Active(s, q);
    }
  }

  lemma EndKeeps(g: Area, init: Disk, s: State, p: nat, t: State)
    requires Inv(g, init, s) && Next(g, s, End(p), t)
    ensures Inv(g, init, t)
  {
    hide OpsInv, MemInv, UnlistedInv, DiskInv, EmptyLog, Next;
    EndOps(g, s, p, t);
    EndRest(g, init, s, p, t);
  }

  lemma EndsUp(g: Area, s: State, p: nat, t: State)
    requires OpsInv(s) && Next(g, s, End(p), t)
    ensures s.mode.Up? && s.durable <= |s.hist|
  {
    ReserveBounds(s.ops);
    hide GoodList, Cached, CommitWrites;
  }

  lemma EndRest(g: Area, init: Disk, s: State, p: nat, t: State)
    requires Inv(g, init, s) && Next(g, s, End(p), t)
    ensures t.durable <= |t.hist| && MemInv(g, init, t) && UnlistedInv(g, init, t) && DiskInv(g, init, t)
  {
    hide OpsInv, GoodList, EmptyLog, SameHomes, Apply, CommitWrites, Cached;
    EndsUp(g, s, p, t);
    NoWrites(t.disk);
    if t.mem.committing {
      assert CommitWrites(g, s.disk, t.mem.listed, t.mem.pinned)[..0] == [];
    }
  }

  lemma NoWrites(d: Disk)
    ensures Apply(d, []) == d
  {}

  /** While nothing runs, every operation has ended. */
  lemma NoneActive(s: State)
    requires OpsInv(s) && !s.mode.Up?
    ensures forall p: nat :: p < |s.ops| ==> s.ops[p].ended
  {
    forall p: nat | p < |s.ops| ensures s.ops[p].ended {
      if Active(s, p) {
        ReserveBounds(s.ops);
      }
    }
  }

  lemma CommitWriteOps(g: Area, s: State, t: State)
    requires OpsInv(s) && Next(g, s, CommitWrite, t)
    ensures OpsInv(t)
  {
    NoneActive(s);
  }

  lemma CommitWriteMem(g: Area, init: Disk, s: State, t: State)
    requires OpsInv(s) && MemInv(g, init, s) && UnlistedInv(g, init, s) && Next(g, s, CommitWrite, t)
    ensures t.durable <= |t.hist| && MemInv(g, init, t) && UnlistedInv(g, init, t)
  {
    assert s.hist[..|s.hist|] == s.hist;
  }

  lemma CommitWriteKeeps(g: Area, init: Disk, s: State, t: State)
    requires Inv(g, init, s) && Next(g, s, CommitWrite, t)
    ensures Inv(g, init, t)
  {
    hide OpsInv, MemInv, UnlistedInv, DiskInv, Next;
    CommitWriteOps(g, s, t);
    CommitWriteMem(g, init, s, t);
    CommitWriteDisk(g, init, s, t);
  }

  lemma CommitWriteDisk(g: Area, init: Disk, s: State, t: State)
    requires Inv(g, init, s) && Next(g, s, CommitWrite, t) && t.durable <= |t.hist|
    ensures DiskInv(g, init, t)
  {
    hide OpsInv, MemInv, UnlistedInv, EmptyLog, GoodList, Cached, SameHomes, Installed, CommitWrites;
    var k := s.mode.k;
    PrefixOfPrefix(s.mode.ws, k);
    if k == |s.mem.listed| {
      HeadMakesDurable(g, init, s);
    }
  }

  lemma PrefixOfPrefix<T>(xs: seq<T>, k: nat)
    requires k < |xs|
    ensures xs[..k + 1][..k] == xs[..k]
  {}

  lemma HeadMakesDurable(g: Area, init: Disk, s: State)
    requires Inv(g, init, s) && s.mode.Committing? && s.mode.k == |s.mem.listed|
    ensures Installed(g, s.mode.base, s.mem.listed, s.mem.pinned, Apply(init, s.hist))
  {
  }

  lemma CommitDoneDisk(g: Area, init: Disk, s: State)
    requires Inv(g, init, s) && s.mode.Committing? && s.mode.k == |s.mode.ws|
    ensures s.durable == |s.hist| && EmptyLog(g, s.disk) && SameHomes(g, s.disk, Apply(init, s.hist))
  {
    assert s.hist[..|s.hist|] == s.hist;
    if s.mem.listed == [] {
      assert s.disk == s.mode.base;
    } else {
      assert s.mode.ws[..s.mode.k] == s.mode.ws;
      CommitComplete(g, s.mode.base, s.mem.listed, s.mem.pinned);
      hide OpsInv, EmptyLog, GoodLog;
    }
  }

  lemma CommitDoneOps(g: Area, s: State, t: State)
    requires OpsInv(s) && Next(g, s, CommitDone, t)
    ensures OpsInv(t)
  {
    NoneActive(s);
    AllEnded(s.ops);
  }

  lemma NothingListed(g: Area, d: Disk)
    requires EmptyLog(g, d)
    ensures GoodList(g, d, [])
  {}

  lemma UpDisk(g: Area, init: Disk, t: State)
    requires t.mode.Up? && t.durable <= |t.hist| && EmptyLog(g, t.disk) && SameHomes(g, t.disk, Apply(init, t.hist[..t.durable]))
    ensures DiskInv(g, init, t)
  {}

  lemma CommitDoneKeeps(g: Area, init: Disk, s: State, t: State)
    requires Inv(g, init, s) && Next(g, s, CommitDone, t)
    ensures Inv(g, init, t)
  {
    hide OpsInv, EmptyLog, SameHomes, CommitWrites, Apply, DiskInv, GoodList;
    DurableBound(s);
    CommitDoneOps(g, s, t);
    CommitDoneDisk(g, init, s);
    assert s.hist[..|s.hist|] == s.hist;
    NothingListed(g, t.disk);
    UpDisk(g, init, t);
  }

  /** Whatever the moment of a crash, recovery yields exactly the durable log_writes. */
  lemma CrashSafe(g: Area, init: Disk, s: State)
    requires Inv(g, init, s)
    ensures GoodLog(g, s.disk) && SameHomes(g, Recovered(g, s.disk), Apply(init, s.hist[..s.durable]))
  {
    match s.mode
    case Up =>
      RecoveredIsEmpty(g, s.disk);
    case Committing(base, ws, k) =>
      assert s.hist[..|s.hist|] == s.hist;
      CommitCrashAtomic(g, base, s.mem.listed, s.mem.pinned, k, []);
    case Recovering(found, k) =>
      assert s.hist[..|s.hist|] == s.hist;
      RecoverAfterCut(g, found, k);
  }

  lemma CrashOps(g: Area, s: State, t: State)
    requires OpsInv(s) && Next(g, s, Crash, t)
    ensures OpsInv(t)
  {
    AllEnded(t.ops);
  }

  lemma CrashDisk(g: Area, init: Disk, s: State, t: State)
    requires Next(g, s, Crash, t) && GoodLog(g, s.disk)
    requires SameHomes(g, Recovered(g, s.disk), Apply(init, s.hist[..s.durable]))
    ensures t.durable <= |t.hist| && DiskInv(g, init, t)
  {
    hide GoodLog, SameHomes, RecoverWrites;
    assert RecoverWrites(g, s.disk)[..0] == [];
  }

  lemma CrashMem(g: Area, init: Disk, s: State, t: State)
    requires MemInv(g, init, s) && Next(g, s, Crash, t)
    ensures t.durable <= |t.hist| && MemInv(g, init, t) && UnlistedInv(g, init, t)
  {
    assert t.hist[..t.durable] == t.hist;
  }

  lemma CrashKeeps(g: Area, init: Disk, s: State, t: State)
    requires Inv(g, init, s) && Next(g, s, Crash, t)
    ensures Inv(g, init, t)
  {
    hide OpsInv, MemInv, UnlistedInv, DiskInv, EmptyLog, GoodLog, SameHomes;
    CrashSafe(g, init, s);
    CrashOps(g, s, t);
    CrashMem(g, init, s, t);
    CrashDisk(g, init, s, t);
  }

  lemma RecoverOps(g: Area, s: State, step: Step, t: State)
    requires OpsInv(s) && Next(g, s, step, t) && (step.RecoverWrite? || step.RecoverDone?)
    ensures OpsInv(t)
  {
    hide RecoverWrites, GoodLog;
  }

  lemma RecoverWriteMem(g: Area, init: Disk, s: State, t: State)
    requires Inv(g, init, s) && Next(g, s, RecoverWrite, t)
    ensures MemInv(g, init, t) && UnlistedInv(g, init, t)
  {
    hide OpsInv, EmptyLog, GoodLog, RecoverWrites, Apply;
    assert s.durable <= |s.hist| by { DurableBound(s); }
  }

  lemma DurableBound(s: State)
    requires OpsInv(s)
    ensures s.durable <= |s.hist|
  {}

  lemma CutNext(g: Area, d: Disk, k: nat)
    requires GoodLog(g, d) && k < |RecoverWrites(g, d)|
    ensures CutRecovery(g, d, k + 1) == Put(CutRecovery(g, d, k), RecoverWrites(g, d)[k])
  {
    PrefixOfPrefix(RecoverWrites(g, d), k);
  }

  lemma RecoverWriteDisk(g: Area, init: Disk, s: State, t: State)
    requires Inv(g, init, s) && Next(g, s, RecoverWrite, t)
    ensures t.durable <= |t.hist| && DiskInv(g, init, t)
  {
    hide OpsInv, EmptyLog, GoodLog, SameHomes, RecoverWrites, Apply, MemInv, UnlistedInv, GoodList, Recovered, CutRecovery;
    DurableBound(s);
    CutNext(g, s.mode.found, s.mode.k);
  }

  lemma RecoverWriteKeeps(g: Area, init: Disk, s: State, t: State)
    requires Inv(g, init, s) && Next(g, s, RecoverWrite, t)
    ensures Inv(g, init, t)
  {
    hide OpsInv, EmptyLog, MemInv, UnlistedInv, DiskInv, Next;
    DurableBound(s);
    RecoverOps(g, s, RecoverWrite, t);
    RecoverWriteMem(g, init, s, t);
    RecoverWriteDisk(g, init, s, t);
  }

  lemma RecoverDoneKeeps(g: Area, init: Disk, s: State, t: State)
    requires Inv(g, init, s) && Next(g, s, RecoverDone, t)
    ensures Inv(g, init, t)
  {
    assert s.durable <= |s.hist|;
    hide OpsInv, EmptyLog, GoodLog, SameHomes, RecoverWrites;
    RecoverOps(g, s, RecoverDone, t);
    assert s.hist[..|s.hist|] == s.hist;
    assert RecoverWrites(g, s.mode.found)[..s.mode.k] == RecoverWrites(g, s.mode.found);
    RecoveredIsEmpty(g, s.mode.found);
  }

  lemma StepKeeps(g: Area, init: Disk, s: State, step: Step, t: State)
    requires Inv(g, init, s) && Next(g, s, step, t) && Fits(g, t)
    ensures Inv(g, init, t)
  {
    hide Inv, Next;
    match step
    case Begin => BeginKeeps(g, init, s, t);
    case TestWrite(p) => TestWriteKeeps(g, init, s, p, t);
    case LogWrite(p, w) => LogWriteKeeps(g, init, s, p, w, t);
    case End(p) => EndKeeps(g, init, s, p, t);
    case CommitWrite => CommitWriteKeeps(g, init, s, t);
    case CommitDone => CommitDoneKeeps(g, init, s, t);
    case Crash => CrashKeeps(g, init, s, t);
    case RecoverWrite => RecoverWriteKeeps(g, init, s, t);
    case RecoverDone => RecoverDoneKeeps(g, init, s, t);
  }

  // ---------------------------------------------------------------- whole runs

  /** A run: states joined by steps, starting from an empty log. */
  ghost predicate Run(g: Area, init: Disk, states: seq<State>, steps: seq<Step>) {
    && |states| == |steps| + 1 && |init| <= UINT
    && Init(g, init, states[0])
    && forall i :: 0 <= i < |steps| ==> Next(g, states[i], steps[i], states[i + 1])
  }

  /** Up to state i the list never outgrew the area. */
  ghost predicate FitsTo(g: Area, states: seq<State>, i: nat)
    requires i < |states|
  {
    forall j :: 0 <= j <= i ==> Fits(g, states[j])
  }

  lemma InitInv(g: Area, init: Disk, s: State)
    requires Init(g, init, s) && |init| <= UINT
    ensures Inv(g, init, s)
  {
    assert Apply(init, []) == init;
  }

  lemma {:induction false} RunKeeps(g: Area, init: Disk, states: seq<State>, steps: seq<Step>, i: nat)
    requires Run(g, init, states, steps) && i < |states| && FitsTo(g, states, i)
    ensures Inv(g, init, states[i])
  {
    hide Next;
    if i == 0 {
      InitInv(g, init, states[0]);
    } else {
      hide Inv, Init, Fits;
      RunKeeps(g, init, states, steps, i - 1);
      StepKeeps(g, init, states[i - 1], steps[i - 1], states[i]);
    }
  }

  // ---------------------------------------------------------------- one log_write at a time

  /** At most one operation is between log_write's tests and its append. */
  ghost predicate Alone(s: State) {
    forall p: nat, q: nat :: Active(s, p) && Active(s, q) && s.ops[p].passed && s.ops[q].passed ==> p == q
  }

  ghost predicate Roomy(g: Area, s: State) {
    |s.mem.listed| < g.size && forall p: nat :: Active(s, p) && s.ops[p].passed ==> |s.mem.listed| < g.size - 1
  }

  lemma AloneKeeps(g: Area, s: State, step: Step, t: State)
    requires Roomy(g, s) && Alone(s) && Next(g, s, step, t)
    ensures Roomy(g, t)
  {
    hide GoodList, GoodLog, Cached, CommitWrites, RecoverWrites, IsHome;
    forall p: nat | Active(t, p) && t.ops[p].passed ensures |t.mem.listed| < g.size - 1 {
      if !(step.TestWrite? && step.op == p) {
        assert Active(s, p) && s.ops[p].passed;
      }
    }
  }

  /** If log_write were atomic its tests would be enough on an area of any size. */
  lemma {:induction false} SerialFits(g: Area, init: Disk, states: seq<State>, steps: seq<Step>, i: nat)
    requires Run(g, init, states, steps) && i < |states| && forall j :: 0 <= j < |states| ==> Alone(states[j])
    ensures Roomy(g, states[i]) && FitsTo(g, states, i)
  {
    hide Next, Alone;
    if i > 0 {
      SerialFits(g, init, states, steps, i - 1);
      AloneKeeps(g, states[i - 1], steps[i - 1], states[i]);
    }
  }

  /** The area has more than LOGSIZE blocks, or no two operations are inside log_write at once. */
  ghost predicate Spacious(g: Area, states: seq<State>) {
    LOGSIZE < g.size || forall j :: 0 <= j < |states| ==> Alone(states[j])
  }

  /** Either is enough for what is proved below of runs whose list fits. */
  lemma SpaciousFits(g: Area, init: Disk, states: seq<State>, steps: seq<Step>, i: nat)
    requires Run(g, init, states, steps) && i < |states| && Spacious(g, states)
    ensures FitsTo(g, states, i)
  {
    hide Run, Alone;
    if LOGSIZE >= g.size {
      SerialFits(g, init, states, steps, i);
    }
  }

  // ---------------------------------------------------------------- what every run keeps

  ghost predicate Distinct(bs: seq<nat>) { forall i, j :: 0 <= i < j < |bs| ==> bs[i] != bs[j] }

  /** Counts, reservations and the list without repetition need no room in the area. */
  lemma StepOps(g: Area, s: State, step: Step, t: State)
    requires OpsInv(s) && Next(g, s, step, t)
    ensures OpsInv(t)
  {
    hide OpsInv, Next;
    match step
    case Begin => BeginOps(g, s, t);
    case TestWrite(p) => TestWriteOps(g, s, p, t);
    case LogWrite(p, w) => LogWriteOps(g, s, p, w, t);
    case End(p) => EndOps(g, s, p, t);
    case CommitWrite => CommitWriteOps(g, s, t);
    case CommitDone => CommitDoneOps(g, s, t);
    case Crash => CrashOps(g, s, t);
    case RecoverWrite => RecoverOps(g, s, step, t);
    case RecoverDone => RecoverOps(g, s, step, t);
  }

  lemma StepDistinct(g: Area, s: State, step: Step, t: State)
    requires Distinct(s.mem.listed) && Next(g, s, step, t)
    ensures Distinct(t.mem.listed)
  {
    hide GoodList, GoodLog, Cached, CommitWrites, RecoverWrites, IsHome;
  }

  lemma {:induction false} RunOps(g: Area, init: Disk, states: seq<State>, steps: seq<Step>, i: nat)
    requires Run(g, init, states, steps) && i < |states|
    ensures OpsInv(states[i]) && Distinct(states[i].mem.listed)
  {
    hide Next;
    if i > 0 {
      hide OpsInv, Distinct, Init;
      RunOps(g, init, states, steps, i - 1);
      StepOps(g, states[i - 1], steps[i - 1], states[i]);
      StepDistinct(g, states[i - 1], steps[i - 1], states[i]);
    }
  }

  /** Group commit over every run on every area: the log never holds more than LOGSIZE blocks, lists
      no block twice, commits only while no operation runs, and end_op never finds a commit in
      progress. As long as it has not outgrown the area, its blocks are home blocks that a commit can
      copy there. */
  lemma RunGroupCommit(g: Area, init: Disk, states: seq<State>, steps: seq<Step>, i: nat)
    requires Run(g, init, states, steps) && i < |states|
    ensures var s := states[i];
      && |s.mem.listed| <= LOGSIZE && Distinct(s.mem.listed)
      && (s.mem.committing ==> s.mem.outstanding == 0)
      && (forall p: nat :: Active(s, p) ==> !s.mem.committing && s.mem.outstanding >= 1)
      && (FitsTo(g, states, i) ==> GoodList(g, s.disk, s.mem.listed))
  {
    RunOps(g, init, states, steps, i);
    var s := states[i];
    ListBound(g, s);
    OpsActive(s);
    if FitsTo(g, states, i) {
      RunKeeps(g, init, states, steps, i);
    }
    hide Run, OpsInv, GoodList, Distinct;
  }

  lemma OpsActive(s: State)
    requires OpsInv(s)
    ensures s.mem.committing ==> s.mem.outstanding == 0
    ensures forall p: nat :: Active(s, p) ==> !s.mem.committing && s.mem.outstanding >= 1
  {
    ReserveBounds(s.ops);
    forall p: nat | Active(s, p) ensures !s.mem.committing && s.mem.outstanding >= 1 {
      assert !s.ops[p].ended;
    }
  }

  /** How far the log_writes so far are durable, on an area of any size. */
  ghost predicate DurableInv(s: State) {
    && s.durable <= |s.hist|
    && (!s.mode.Committing? && s.mem.listed == [] ==> s.durable == |s.hist|)
    && (s.mode.Committing? ==>
          && s.mode.k <= |s.mode.ws|
          && (s.mode.k > |s.mem.listed| || s.mem.listed == [] ==> s.durable == |s.hist|)
          && (s.mem.listed != [] ==> |s.mode.ws| > |s.mem.listed|))
  }

  lemma StepDurable(g: Area, s: State, step: Step, t: State)
    requires DurableInv(s) && OpsInv(s) && Next(g, s, step, t)
    ensures DurableInv(t)
  {
    hide GoodList, GoodLog, Cached, RecoverWrites, IsHome;
    if step.End? {
      EndsUp(g, s, step.op, t);
    }
  }

  lemma {:induction false} RunDurable(g: Area, init: Disk, states: seq<State>, steps: seq<Step>, i: nat)
    requires Run(g, init, states, steps) && i < |states|
    ensures DurableInv(states[i])
  {
    hide Next;
    if i > 0 {
      hide OpsInv, DurableInv, Init;
      RunDurable(g, init, states, steps, i - 1);
      RunOps(g, init, states, steps, i - 1);
      StepDurable(g, states[i - 1], steps[i - 1], states[i]);
    }
  }

  /** Nothing is left lying in the log: in every run on every area, whenever no operation runs and no
      commit or recovery is in progress, every log_write so far is durable and, as long as the list has
      not outgrown the area, on the disk where it belongs. Then log_write refuses any block, since no
      operation is there to write it. */
  lemma RunQuietDurable(g: Area, init: Disk, states: seq<State>, steps: seq<Step>, i: nat)
    requires Run(g, init, states, steps) && i < |states|
    requires states[i].mode.Up? && states[i].mem.outstanding == 0
    ensures var s := states[i];
      && s.mem.listed == [] && s.durable == |s.hist|
      && (FitsTo(g, states, i) ==> SameHomes(g, s.disk, Apply(init, s.hist)))
      && RefusesWrite(g, s.mem)
  {
    RunOps(g, init, states, steps, i);
    RunDurable(g, init, states, steps, i);
    var s := states[i];
    if FitsTo(g, states, i) {
      RunKeeps(g, init, states, steps, i);
      assert s.hist[..|s.hist|] == s.hist;
    }
  }

  /** begin_op keeps nobody waiting without need: in every run an operation can begin if and only if
      neither a commit nor a recovery is in progress and MAXOPBLOCKS more blocks would still fit for it
      and for each operation that has not ended. */
  lemma RunBeginsIff(g: Area, init: Disk, states: seq<State>, steps: seq<Step>, i: nat)
    requires Run(g, init, states, steps) && i < |states|
    ensures var s := states[i];
      (exists t :: Next(g, s, Begin, t))
      <==> s.mode.Up? && |s.mem.listed| + (Running(s.ops) + 1) * MAXOPBLOCKS <= LOGSIZE
  {
    RunOps(g, init, states, steps, i);
    var s := states[i];
    if s.mode.Up? && |s.mem.listed| + (Running(s.ops) + 1) * MAXOPBLOCKS <= LOGSIZE {
      var t := s.(mem := s.mem.(outstanding := s.mem.outstanding + 1), ops := s.ops + [Op({}, false, false)]);
      assert Next(g, s, Begin, t);
    }
  }

  // ---------------------------------------------------------------- runs whose list fits the area

  /** Crash safety over whole runs. At every moment of every run until the list outgrows the area,
      with any number of crashes behind it, recovering the disk gives exactly the durable log_writes;
      an operation is durable as a whole or not at all, and only once it has ended. */
  lemma RunCrashSafe(g: Area, init: Disk, states: seq<State>, steps: seq<Step>, i: nat)
    requires Run(g, init, states, steps) && i < |states| && FitsTo(g, states, i)
    ensures var s := states[i];
      && GoodLog(g, s.disk) && s.durable <= |s.hist| == |s.who|
      && SameHomes(g, Recovered(g, s.disk), Apply(init, s.hist[..s.durable]))
      && (forall j :: 0 <= j < s.durable ==> s.who[j] < |s.ops| && s.ops[s.who[j]].ended)
      && (forall j, k :: 0 <= j < s.durable <= k < |s.who| ==> s.who[j] != s.who[k])
  {
    RunKeeps(g, init, states, steps, i);
    CrashSafe(g, init, states[i]);
  }

  /** When end_op's commit has finished, every log_write so far is durable. */
  lemma RunCommitDurable(g: Area, init: Disk, states: seq<State>, steps: seq<Step>, i: nat)
    requires Run(g, init, states, steps) && i < |steps| && steps[i].CommitDone? && FitsTo(g, states, i)
    ensures states[i].durable == |states[i].hist|
    ensures states[i + 1].durable == |states[i + 1].hist|
  {
    RunKeeps(g, init, states, steps, i);
    assert Next(g, states[i], steps[i], states[i + 1]);
    CommitDoneDisk(g, init, states[i]);
  }

  /** What log_write needs so that it never panics: an operation that stays below its reservation
      on a log area with room for LOGSIZE data blocks. */
  lemma RunWriteAccepted(g: Area, init: Disk, states: seq<State>, steps: seq<Step>, i: nat, p: nat)
    requires Run(g, init, states, steps) && i < |states| && Active(states[i], p)
    requires LOGSIZE < g.size && |states[i].ops[p].dirty| < MAXOPBLOCKS
    ensures !RefusesWrite(g, states[i].mem)
  {
    RunOps(g, init, states, steps, i);
    ReserveBounds(states[i].ops);
  }

  /** The guards of the steps hide no behaviour: in every such state an operation past
      log_write's tests can append, any other operation in progress can end, the machine can crash and
      a recovery can go on. A commit can go on if and only if the blocks it still has to copy leave a
      buffer for the log. */
  lemma RunGoesOn(g: Area, init: Disk, states: seq<State>, steps: seq<Step>, i: nat)
    requires Run(g, init, states, steps) && i < |states| && FitsTo(g, states, i)
    ensures var s := states[i];
      && (forall p: nat, w :: Active(s, p) && s.ops[p].passed && MayWrite(g, s, p, w) ==> exists t :: Next(g, s, LogWrite(p, w), t))
      && (forall p: nat :: Active(s, p) && !s.ops[p].passed ==> exists t :: Next(g, s, End(p), t))
      && (exists t :: Next(g, s, Crash, t))
      && (s.mode.Committing? ==> ((exists t :: Next(g, s, CommitWrite, t) || Next(g, s, CommitDone, t))
                                  <==> s.mode.k < |s.mem.listed| ==> |s.mem.listed| < NBUF))
      && (s.mode.Recovering? ==> exists t :: Next(g, s, RecoverWrite, t) || Next(g, s, RecoverDone, t))
  {
    RunKeeps(g, init, states, steps, i);
    hide Run, FitsTo, Inv, Next, MayWrite;
    var s := states[i];
    forall p: nat, w | Active(s, p) && s.ops[p].passed && MayWrite(g, s, p, w) ensures exists t :: Next(g, s, LogWrite(p, w), t) {
      WritePossible(g, init, s, p, w);
    }
    forall p: nat | Active(s, p) && !s.ops[p].passed ensures exists t :: Next(g, s, End(p), t) {
      EndPossible(g, init, s, p);
    }
    CrashPossible(g, init, s);
    if s.mode.Committing? {
      CommitPossible(g, init, s);
    }
    if s.mode.Recovering? {
      RecoverPossible(g, init, s);
    }
  }

  /** A block the operation has written already, or a new one within its reservation. */
  ghost predicate MayWrite(g: Area, s: State, p: nat, w: Write)
    requires p < |s.ops|
  {
    IsHome(g, s.disk, w.blockno) && (w.blockno in s.ops[p].dirty || |s.ops[p].dirty| < MAXOPBLOCKS)
  }

  lemma WritePossible(g: Area, init: Disk, s: State, p: nat, w: Write)
    requires Inv(g, init, s) && Active(s, p) && s.ops[p].passed && MayWrite(g, s, p, w)
    ensures exists t :: Next(g, s, LogWrite(p, w), t)
  {
    hide MemInv, UnlistedInv, DiskInv, EmptyLog, IsHome;
    ReserveBounds(s.ops);
    var t := s.(mem := Logged(s.mem, w.blockno, w.data),
                ops := s.ops[p := Op(s.ops[p].dirty + {w.blockno}, false, false)],
                hist := s.hist + [w], who := s.who + [p]);
    assert Next(g, s, LogWrite(p, w), t);
  }

  lemma EndPossible(g: Area, init: Disk, s: State, p: nat)
    requires Inv(g, init, s) && Active(s, p) && !s.ops[p].passed
    ensures exists t :: Next(g, s, End(p), t)
  {
    ReserveBounds(s.ops);
    assert !s.ops[p].ended;
    assert !s.mem.committing;
    var m := Ended(s.mem);
    var t := s.(mem := m, ops := s.ops[p := s.ops[p].(ended := true)],
                mode := if m.committing then Committing(s.disk, CommitWrites(g, s.disk, m.listed, m.pinned), 0) else Up);
    assert Next(g, s, End(p), t);
  }

  lemma CrashPossible(g: Area, init: Disk, s: State)
    requires Inv(g, init, s)
    ensures exists t :: Next(g, s, Crash, t)
  {
    hide MemInv, UnlistedInv, DiskInv, EmptyLog;
    var t := State(s.disk, EMPTY, Recovering(s.disk, 0), seq(|s.ops|, i requires 0 <= i < |s.ops| => s.ops[i].(ended := true)),
                   s.hist[..s.durable], s.who[..s.durable], s.durable);
    assert Next(g, s, Crash, t);
  }

  lemma CommitBound(g: Area, init: Disk, s: State)
    requires Inv(g, init, s) && s.mode.Committing?
    ensures s.mode.k <= |s.mode.ws| && |s.mem.listed| <= |s.mode.ws|
  {
    hide Apply, EmptyLog, SameHomes, Installed;
  }

  lemma CommitPossible(g: Area, init: Disk, s: State)
    requires Inv(g, init, s) && s.mode.Committing?
    ensures (exists t :: Next(g, s, CommitWrite, t) || Next(g, s, CommitDone, t))
            <==> s.mode.k < |s.mem.listed| ==> |s.mem.listed| < NBUF
  {
    hide Inv;
    CommitBound(g, init, s);
    if s.mode.k < |s.mem.listed| ==> |s.mem.listed| < NBUF {
      if s.mode.k < |s.mode.ws| {
        var t := s.(disk := Put(s.disk, s.mode.ws[s.mode.k]), mode := Committing(s.mode.base, s.mode.ws, s.mode.k + 1),
                    durable := if s.mode.k == |s.mem.listed| then |s.hist| else s.durable);
        assert Next(g, s, CommitWrite, t);
      } else {
        var t := s.(mem := s.mem.(listed := [], pinned := map[], committing := false), mode := Up);
        assert Next(g, s, CommitDone, t);
      }
    }
  }

  lemma RecoverPossible(g: Area, init: Disk, s: State)
    requires Inv(g, init, s) && s.mode.Recovering?
    ensures exists t :: Next(g, s, RecoverWrite, t) || Next(g, s, RecoverDone, t)
  {
    DurableBound(s);
    hide MemInv, UnlistedInv, OpsInv, EmptyLog, GoodLog, SameHomes, Apply, RecoverWrites;
    if s.mode.k < |RecoverWrites(g, s.mode.found)| {
      var t := s.(disk := Put(s.disk, RecoverWrites(g, s.mode.found)[s.mode.k]), mode := Recovering(s.mode.found, s.mode.k + 1));
      assert Next(g, s, RecoverWrite, t);
    } else {
      var t := s.(mode := Up);
      assert Next(g, s, RecoverDone, t);
    }
  }
}
