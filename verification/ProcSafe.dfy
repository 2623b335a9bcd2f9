/** What every run of the process system keeps. */
module ProcSafe {
  import opened Common
  import opened ProcSpec

  // ---------------------------------------------------------------- CPUs, stacks and ptable.lock

  /** The process whose stack CPU c is on, against its own state. */
  predicate OnOk(s: Sys, c: nat, p: Proc) {
    && p.at == c
    && (p.pc.Free? ==> p.st.Running? && s.lock != Some(c))
    && (p.pc.Locked? || p.pc.Entering? ==> p.st.Running? && s.lock == Some(c))
    && (p.pc.Leaving? ==> (p.st.Runnable? || p.st.Sleeping? || p.st.Zombie?) && s.lock == Some(c))
  }

  predicate CpuOk(s: Sys, c: nat)
    requires c < |s.cpus|
  {
    && (s.cpus[c].proc.Some? ==> s.cpus[c].proc.value < |s.procs|)
    && (s.cpus[c].on.Some? ==> s.cpus[c].proc == s.cpus[c].on && s.cpus[c].proc.value < |s.procs| && OnOk(s, c, s.procs[s.cpus[c].on.value]))
    && (s.cpus[c].proc.Some? && s.cpus[c].on.None? ==> s.lock == Some(c))
  }

  predicate ProcOk(s: Sys, p: nat)
    requires p < |s.procs|
  {
    && (!s.procs[p].pc.Entering? ==> s.procs[p].at < |s.cpus| && s.cpus[s.procs[p].at].on == Some(p))
    && (!s.procs[p].nap.Awake? ==> s.procs[p].pc.Free? || s.procs[p].pc.Locked?)
    && (s.procs[p].nap.Window? ==> s.procs[p].pc.Locked?)
  }

  ghost predicate CpuInv(s: Sys) {
    && (s.lock.Some? ==> s.lock.value < |s.cpus|)
    && (forall c: nat :: c < |s.cpus| ==> CpuOk(s, c))
    && (forall p: nat :: p < |s.procs| ==> ProcOk(s, p))
    && (forall c: nat, d: nat :: c < |s.cpus| && d < |s.cpus| && c != d && s.cpus[c].proc.Some? ==> s.cpus[d].proc != s.cpus[c].proc)
  }

  /** The running process changes itself, and perhaps takes or gives up the lock. */
  lemma MeChanges(s: Sys, r: Sys, c: nat)
    requires CpuInv(s) && c < |s.cpus| && s.cpus[c].on.Some? && r.cpus == s.cpus && |r.procs| == |s.procs|
    requires Me(s, c) < |s.procs| && r.procs == s.procs[Me(s, c) := r.procs[Me(s, c)]]
    requires OnOk(r, c, r.procs[Me(s, c)]) && ProcOk(r, Me(s, c))
    requires r.lock == s.lock || ((s.lock.None? || s.lock == Some(c)) && (r.lock.None? || r.lock == Some(c)))
    ensures CpuInv(r)
  {
    assert CpuOk(s, c);
    forall d: nat | d < |s.cpus| ensures CpuOk(r, d) {
      assert CpuOk(s, d);
    }
    forall p: nat | p < |s.procs| ensures ProcOk(r, p) {
      assert ProcOk(s, p);
    }
  }

  ghost predicate OffCpu(s: Sys, p: nat) { forall c: nat :: c < |s.cpus| ==> s.cpus[c].on != Some(p) }

  /** A change that the CPU running the process, if any, need not notice. */
  ghost predicate Harmless(s: Sys, r: Sys, p: nat)
    requires p < |s.procs| == |r.procs|
  {
    && r.procs[p].at == s.procs[p].at && r.procs[p].pc == s.procs[p].pc && r.procs[p].nap == s.procs[p].nap
    && (r.procs[p].st == s.procs[p].st || (s.procs[p].st.Sleeping? && r.procs[p].st.Runnable?) || OffCpu(s, p))
  }

  lemma OthersChange(s: Sys, r: Sys)
    requires CpuInv(s) && r.cpus == s.cpus && |r.procs| == |s.procs| && r.lock == s.lock
    requires forall p: nat :: p < |s.procs| ==> Harmless(s, r, p)
    ensures CpuInv(r)
  {
    forall d: nat | d < |s.cpus| ensures CpuOk(r, d) {
      assert CpuOk(s, d);
      if s.cpus[d].on.Some? {
        assert Harmless(s, r, s.cpus[d].on.value);
      }
    }
    forall p: nat | p < |s.procs| ensures ProcOk(r, p) {
      assert ProcOk(s, p) && Harmless(s, r, p);
    }
  }

  /** Whoever is neither running nor leaving is on no CPU; nor is anyone but the holder of
      ptable.lock leaving. */
  lemma NotOnCpu(s: Sys, c: nat, p: nat)
    requires CpuInv(s) && p < |s.procs| && c < |s.cpus| && s.cpus[c].on.Some? && s.cpus[c].on != Some(p)
    requires s.procs[p].st.Unused? || s.procs[p].st.Embryo? || (s.lock == Some(c) && !s.procs[p].st.Running?)
    ensures OffCpu(s, p)
  {
    forall d: nat | d < |s.cpus| ensures s.cpus[d].on != Some(p) {
      assert CpuOk(s, d) && CpuOk(s, c);
    }
  }

  lemma CpuKeepsCpu(s: Sys, e: CpuStep)
    requires CpuInv(s) && CpuEnabled(s, e)
    ensures CpuInv(CpuAfter(s, e))
  {
    var r := CpuAfter(s, e);
    match e {
      case SchedLock(c) => LockChanges(s, r, c);
      case SchedUnlock(c) => LockChanges(s, r, c);
      case Pick(c, p) => PickKeepsCpu(s, c, p);
      case SwtchIn(c) => SwtchInKeepsCpu(s, c);
      case Drop(c) => DropKeepsCpu(s, c);
      case SwtchOut(c) => SwtchOutKeepsCpu(s, c);
      case Resume(c) => MeOk(s, c); MeChanges(s, r, c);
      case PtLock(c) => MeOk(s, c); MeChanges(s, r, c);
      case PtUnlock(c) => MeOk(s, c); MeChanges(s, r, c);
      case Yield(c) => MeOk(s, c); MeChanges(s, r, c);
    }
  }

  lemma MeOk(s: Sys, c: nat)
    requires CpuInv(s) && c < |s.cpus| && s.cpus[c].on.Some?
    ensures Me(s, c) < |s.procs| && OnOk(s, c, s.procs[Me(s, c)]) && ProcOk(s, Me(s, c))
  {
    assert CpuOk(s, c);
  }

  lemma LockChanges(s: Sys, r: Sys, c: nat)
    requires CpuInv(s) && OnScheduler(s, c) && s.cpus[c].proc.None? && r == s.(lock := r.lock)
    requires (s.lock.None? && r.lock == Some(c)) || (s.lock == Some(c) && r.lock.None?)
    ensures CpuInv(r)
  {
    forall d: nat | d < |s.cpus| ensures CpuOk(r, d) {
      assert CpuOk(s, d);
    }
    forall p: nat | p < |s.procs| ensures ProcOk(r, p) {
      assert ProcOk(s, p);
    }
  }

  /** A runnable process is on no CPU and chosen by none while this CPU holds the lock. */
  lemma RunnableIsFree(s: Sys, c: nat, p: nat)
    requires CpuInv(s) && OnScheduler(s, c) && s.cpus[c].proc.None? && s.lock == Some(c) && p < |s.procs| && !s.procs[p].st.Running?
    ensures forall d: nat :: d < |s.cpus| ==> s.cpus[d].proc != Some(p)
  {
    forall d: nat | d < |s.cpus| ensures s.cpus[d].proc != Some(p) {
      assert CpuOk(s, d);
    }
  }

  lemma PickKeepsCpu(s: Sys, c: nat, p: nat)
    requires CpuInv(s) && CpuEnabled(s, Pick(c, p))
    ensures CpuInv(CpuAfter(s, Pick(c, p)))
  {
    var r := CpuAfter(s, Pick(c, p));
    RunnableIsFree(s, c, p);
    forall d: nat | d < |s.cpus| ensures CpuOk(r, d) {
      assert CpuOk(s, d);
    }
    forall q: nat | q < |s.procs| ensures ProcOk(r, q) {
      assert ProcOk(s, q);
    }
  }

  lemma SwtchInKeepsCpu(s: Sys, c: nat)
    requires CpuInv(s) && CpuEnabled(s, SwtchIn(c))
    ensures CpuInv(CpuAfter(s, SwtchIn(c)))
  {
    var r := CpuAfter(s, SwtchIn(c));
    var p := s.cpus[c].proc.value;
    assert ProcOk(s, p) && CpuOk(s, c);
    forall d: nat | d < |s.cpus| ensures s.cpus[d].on != Some(p) {
      assert CpuOk(s, d);
    }
    forall d: nat | d < |s.cpus| ensures CpuOk(r, d) {
      assert CpuOk(s, d);
    }
    forall q: nat | q < |s.procs| ensures ProcOk(r, q) {
      assert ProcOk(s, q);
    }
  }

  lemma DropKeepsCpu(s: Sys, c: nat)
    requires CpuInv(s) && CpuEnabled(s, Drop(c))
    ensures CpuInv(CpuAfter(s, Drop(c)))
  {
    var r := CpuAfter(s, Drop(c));
    forall d: nat | d < |s.cpus| ensures CpuOk(r, d) {
      assert CpuOk(s, d);
    }
    forall q: nat | q < |s.procs| ensures ProcOk(r, q) {
      assert ProcOk(s, q);
    }
  }

  lemma SwtchOutKeepsCpu(s: Sys, c: nat)
    requires CpuInv(s) && CpuEnabled(s, SwtchOut(c))
    ensures CpuInv(CpuAfter(s, SwtchOut(c)))
  {
    var r, me := CpuAfter(s, SwtchOut(c)), Me(s, c);
    MeOk(s, c);
    assert CpuOk(s, c);
    assert r.procs == s.procs[me := s.procs[me].(pc := Entering)] && r.cpus == s.cpus[c := Cpu(Some(me), None)] && r.lock == s.lock;
    hide CpuAfter;
    forall d: nat | d < |s.cpus| ensures CpuOk(r, d) {
      assert CpuOk(s, d);
      assert d != c ==> s.cpus[d].proc != Some(me);
    }
    forall q: nat | q < |s.procs| ensures ProcOk(r, q) {
      assert ProcOk(s, q);
    }
    assert forall d: nat :: d < |s.cpus| ==> r.cpus[d].proc == s.cpus[d].proc;
  }

  lemma TableKeepsCpu(s: Sys, e: TableStep)
    requires CpuInv(s) && TableEnabled(s, e)
    ensures CpuInv(TableAfter(s, e))
  {
    var r := TableAfter(s, e);
    MeOk(s, e.c);
    match e {
      case WaitSleep(c) => MeChanges(s, r, c);
      case Exit(c) => ExitKeepsCpu(s, c);
      case Reap(c, p) =>
        NotOnCpu(s, c, p);
        OthersChange(s, r);
      case Kill(c, p) => OthersChange(s, r);
    }
  }

  /** exit's effect on each entry. */
  lemma ExitedAt(procs: seq<Proc>, p: nat, init: nat, i: nat)
    requires p < |procs| && i < |procs| && procs[p].st.Running?
    ensures Exited(procs, p, init)[i].pc == if i == p then Leaving else procs[i].pc
    ensures Exited(procs, p, init)[i] == procs[i].(st := Exited(procs, p, init)[i].st, parent := Exited(procs, p, init)[i].parent, pc := Exited(procs, p, init)[i].pc)
    ensures Exited(procs, p, init)[i].parent == if procs[i].parent == Some(p) then Some(init) else procs[i].parent
    ensures i == p ==> Exited(procs, p, init)[i].st.Zombie?
    ensures i != p ==> Exited(procs, p, init)[i].st == procs[i].st || (procs[i].st.Sleeping? && Exited(procs, p, init)[i].st.Runnable?)
  {
    hide Woken, Orphaned, HasZombie;
    var w := if procs[p].parent.Some? then Woken(procs, ProcChan(procs[p].parent.value)) else procs;
    assert w[i] == procs[i].(st := w[i].st);
    var o := Orphaned(w, p, init);
    assert o[i] == Orphan(w[i], p, init);
    var a := Abandoned(w, p, init);
    assert a[i] == o[i].(st := a[i].st);
  }

  lemma ExitKeepsCpu(s: Sys, c: nat)
    requires CpuInv(s) && TableEnabled(s, Exit(c))
    ensures CpuInv(TableAfter(s, Exit(c)))
  {
    hide Exited;
    var r := TableAfter(s, Exit(c));
    MeOk(s, c);
    var p := Me(s, c);
    var mid := s.(procs := r.procs[p := s.procs[p]]);
    forall i: nat | i < |s.procs| && i != p ensures Harmless(s, mid, i) {
      ExitedAt(s.procs, p, s.init, i);
    }
    assert Harmless(s, mid, p);
    OthersChange(s, mid);
    ExitedAt(s.procs, p, s.init, p);
    assert r.procs == mid.procs[p := r.procs[p]];
    MeChanges(mid, r, c);
  }

  lemma ForkKeepsCpu(s: Sys, e: ForkStep)
    requires CpuInv(s) && ForkInv(s) && ForkEnabled(s, e)
    ensures CpuInv(ForkAfter(s, e))
  {
    var r := ForkAfter(s, e);
    MeOk(s, e.c);
    var me := Me(s, e.c);
    assert ForkOk(s, me);
    var child := if e.ForkAlloc? then e.p else s.procs[me].fork.np;
    NotOnCpu(s, e.c, child);
    OthersChange(s, r);
  }

  lemma SleepKeepsCpu(s: Sys, e: SleepStep)
    requires CpuInv(s) && SleepEnabled(s, e)
    ensures CpuInv(SleepAfter(s, e))
  {
    var r := SleepAfter(s, e);
    MeOk(s, e.c);
    match e {
      case Wakeup(c, k) => OthersChange(s, r);
      case Test(c, k) => MeChanges(s, r, c);
      case SleepRelease(c) => MeChanges(s, r, c);
      case SleepGo(c) => MeChanges(s, r, c);
      case Acquire(c, l) => OthersChange(s, r);
      case Release(c, l) => OthersChange(s, r);
      case SetCond(c, k) => OthersChange(s, r);
      case ClearCond(c, k) => OthersChange(s, r);
      case TakeSleeplock(c, k) => OthersChange(s, r);
      case FreeSleeplock(c, k) => OthersChange(s, r);
    }
  }

  // ---------------------------------------------------------------- stacks and fork

  predicate ForkOk(s: Sys, p: nat)
    requires p < |s.procs|
  {
    && (Live(s.procs[p].st) || s.procs[p].st.Zombie? ==> s.procs[p].stack)
    && (s.procs[p].st.Unused? ==> !s.procs[p].stack && s.procs[p].parent.None?)
    && (!s.procs[p].fork.NoFork? ==>
          && Live(s.procs[p].st) && s.procs[p].fork.np < |s.procs| && s.procs[s.procs[p].fork.np].st.Embryo?
          && (s.procs[s.procs[p].fork.np].stack <==> !s.procs[p].fork.Got?)
          && s.procs[s.procs[p].fork.np].parent == (if s.procs[p].fork.Adopted? then Some(p) else None))
  }

  ghost predicate ForkInv(s: Sys) {
    && (forall p: nat :: p < |s.procs| ==> ForkOk(s, p))
    && (forall p: nat, q: nat :: p < |s.procs| && q < |s.procs| && p != q && !s.procs[p].fork.NoFork? && !s.procs[q].fork.NoFork? ==> s.procs[p].fork.np != s.procs[q].fork.np)
  }

  lemma ForkFrame(s: Sys, r: Sys)
    requires ForkInv(s) && |r.procs| == |s.procs|
    requires forall p: nat :: p < |s.procs| ==> SameForFork(s.procs[p], r.procs[p])
    ensures ForkInv(r)
  {
    forall p: nat | p < |s.procs| ensures ForkOk(r, p) {
      assert ForkOk(s, p) && SameForFork(s.procs[p], r.procs[p]);
      if !s.procs[p].fork.NoFork? {
        assert SameForFork(s.procs[s.procs[p].fork.np], r.procs[s.procs[p].fork.np]);
      }
    }
    forall p: nat | p < |s.procs| ensures r.procs[p].fork == s.procs[p].fork {
      assert SameForFork(s.procs[p], r.procs[p]);
    }
  }

  /** Nothing about fork or the stack changes, only between live states, or a process without a
      fork under way becomes a zombie. */
  predicate SameForFork(p: Proc, q: Proc) {
    && q.stack == p.stack && q.fork == p.fork
    && (q.st == p.st || (Live(p.st) && Live(q.st)) || (Live(p.st) && q.st.Zombie? && p.fork.NoFork?))
    && (q.parent == p.parent || Live(p.st) || p.st.Zombie?)
  }

  lemma CpuKeepsFork(s: Sys, e: CpuStep)
    requires CpuInv(s) && ForkInv(s) && CpuEnabled(s, e)
    ensures ForkInv(CpuAfter(s, e))
  {
    if e.Yield? {
      MeOk(s, e.c);
    }
    ForkFrame(s, CpuAfter(s, e));
  }

  lemma SleepKeepsFork(s: Sys, e: SleepStep)
    requires CpuInv(s) && ForkInv(s) && SleepEnabled(s, e)
    ensures ForkInv(SleepAfter(s, e))
  {
    MeOk(s, e.c);
    ForkFrame(s, SleepAfter(s, e));
  }

  lemma TableKeepsFork(s: Sys, e: TableStep)
    requires CpuInv(s) && ForkInv(s) && ParentInv(s) && TableEnabled(s, e)
    ensures ForkInv(TableAfter(s, e))
  {
    MeOk(s, e.c);
    var r := TableAfter(s, e);
    match e {
      case WaitSleep(c) => ForkFrame(s, r);
      case Kill(c, p) => ForkFrame(s, r);
      case Exit(c) => ExitKeepsFork(s, c);
      case Reap(c, p) =>
        forall q: nat | q < |s.procs| ensures ForkOk(r, q) {
          assert ForkOk(s, q) && ForkOk(s, p);
        }
    }
  }

  lemma ExitKeepsFork(s: Sys, c: nat)
    requires CpuInv(s) && ForkInv(s) && ParentInv(s) && TableEnabled(s, Exit(c))
    ensures ForkInv(TableAfter(s, Exit(c)))
  {
    hide Exited;
    MeOk(s, c);
    var r, me := TableAfter(s, Exit(c)), Me(s, c);
    forall i: nat | i < |s.procs| ensures SameForFork(s.procs[i], r.procs[i]) {
      ExitedAt(s.procs, me, s.init, i);
      EmbryoOfForker(s, i, me);
    }
    ForkFrame(s, r);
  }

  /** An entry that is not in use, or being set up, is not the child of someone who is not in fork. */
  lemma EmbryoOfForker(s: Sys, i: nat, me: nat)
    requires ForkInv(s) && ParentInv(s) && i < |s.procs| && me < |s.procs| && s.procs[me].fork.NoFork?
    ensures s.procs[i].st.Unused? || s.procs[i].st.Embryo? ==> s.procs[i].parent != Some(me)
  {
    assert ForkOk(s, i) && ParentOk(s, i);
  }

  ghost function Child(s: Sys, e: ForkStep): (p: nat)
    requires ForkEnabled(s, e)
  {
    if e.ForkAlloc? then e.p else s.procs[Me(s, e.c)].fork.np
  }

  /** A step of fork touches the caller's progress and the new entry, which nobody else touches. */
  lemma ForkTouches(s: Sys, e: ForkStep)
    requires CpuInv(s) && ForkInv(s) && ForkEnabled(s, e)
    ensures Me(s, e.c) < |s.procs| && s.procs[Me(s, e.c)].st.Running? && Child(s, e) != Me(s, e.c)
    ensures s.procs[Child(s, e)].st.Unused? || s.procs[Child(s, e)].st.Embryo?
    ensures s.procs[Child(s, e)].st.Unused? <==> e.ForkAlloc?
    ensures s.procs[Child(s, e)].fork.NoFork? && s.procs[Child(s, e)].parent == if e.ForkDone? then Some(Me(s, e.c)) else None
    ensures s.procs[Child(s, e)].stack <==> !s.procs[Me(s, e.c)].fork.Got? && !e.ForkAlloc?
    ensures forall q: nat :: q < |s.procs| && q != Me(s, e.c) && !s.procs[q].fork.NoFork? ==> s.procs[q].fork.np != Child(s, e)
  {
    MeOk(s, e.c);
    assert ForkOk(s, Me(s, e.c)) && ForkOk(s, Child(s, e));
    forall q: nat | q < |s.procs| && q != Me(s, e.c) && !s.procs[q].fork.NoFork? ensures s.procs[q].fork.np != Child(s, e) {
      assert ForkOk(s, q);
    }
  }

  lemma ForkEffect(s: Sys, e: ForkStep)
    requires CpuInv(s) && ForkInv(s) && ForkEnabled(s, e)
    ensures var r, me, child := ForkAfter(s, e), Me(s, e.c), Child(s, e);
      && |r.procs| == |s.procs| && r.init == s.init && me < |s.procs| && child < |s.procs|
      && (forall q: nat :: q < |s.procs| && q != me && q != child ==> r.procs[q] == s.procs[q])
      && r.procs[me].st == s.procs[me].st && r.procs[me].parent == s.procs[me].parent && r.procs[me].stack == s.procs[me].stack
      && r.procs[me].fork == (match e case ForkAlloc(_, _) => Got(child) case ForkStack(_) => Stacked(child) case ForkAdopt(_) => Adopted(child) case _ => NoFork)
      && r.procs[child].fork == s.procs[child].fork
      && r.procs[child].st == (match e case ForkFail(_) => Unused case ForkDone(_) => Runnable case _ => Embryo)
      && r.procs[child].stack == (match e case ForkFail(_) => false case ForkStack(_) => true case _ => s.procs[child].stack)
      && r.procs[child].parent == (if e.ForkAdopt? then Some(me) else s.procs[child].parent)
  {
    ForkTouches(s, e);
  }

  lemma ForkKeepsFork(s: Sys, e: ForkStep)
    requires CpuInv(s) && ForkInv(s) && ForkEnabled(s, e)
    ensures ForkInv(ForkAfter(s, e))
  {
    ForkTouches(s, e);
    ForkEffect(s, e);
    hide ForkAfter, CpuInv;
    var r := ForkAfter(s, e);
    forall q: nat | q < |s.procs| ensures ForkOk(r, q) {
      assert ForkOk(s, q);
    }
  }

  // ---------------------------------------------------------------- parents

  ghost predicate ParentOk(s: Sys, p: nat)
    requires p < |s.procs|
  {
    && (s.procs[p].parent.Some? ==>
          && s.procs[p].parent.value < |s.procs| && s.procs[p].parent.value != p && Live(s.procs[s.procs[p].parent.value].st))
    && (s.procs[p].st.Embryo? && s.procs[p].parent.Some? ==> s.procs[s.procs[p].parent.value].fork == Adopted(p))
    && (Live(s.procs[p].st) || s.procs[p].st.Zombie? ==> p == s.init || s.procs[p].parent.Some?)
  }

  ghost predicate ParentInv(s: Sys) {
    && s.init < |s.procs| && Live(s.procs[s.init].st) && s.procs[s.init].parent.None?
    && (forall p: nat :: p < |s.procs| ==> ParentOk(s, p))
  }

  lemma ParentFrame(s: Sys, r: Sys)
    requires ParentInv(s) && |r.procs| == |s.procs| && r.init == s.init
    requires forall p: nat :: p < |s.procs| ==> r.procs[p].parent == s.procs[p].parent && r.procs[p].fork == s.procs[p].fork
    requires forall p: nat :: p < |s.procs| ==> r.procs[p].st == s.procs[p].st || (Live(s.procs[p].st) && Live(r.procs[p].st))
    ensures ParentInv(r)
  {
    forall p: nat | p < |s.procs| ensures ParentOk(r, p) {
      assert ParentOk(s, p);
    }
  }

  lemma CpuKeepsParent(s: Sys, e: CpuStep)
    requires CpuInv(s) && ParentInv(s) && CpuEnabled(s, e)
    ensures ParentInv(CpuAfter(s, e))
  {
    if e.Yield? {
      MeOk(s, e.c);
    }
    ParentFrame(s, CpuAfter(s, e));
  }

  lemma SleepKeepsParent(s: Sys, e: SleepStep)
    requires CpuInv(s) && ParentInv(s) && SleepEnabled(s, e)
    ensures ParentInv(SleepAfter(s, e))
  {
    MeOk(s, e.c);
    ParentFrame(s, SleepAfter(s, e));
  }

  lemma TableKeepsParent(s: Sys, e: TableStep)
    requires CpuInv(s) && ForkInv(s) && ParentInv(s) && TableEnabled(s, e)
    ensures ParentInv(TableAfter(s, e))
  {
    MeOk(s, e.c);
    var r := TableAfter(s, e);
    match e {
      case WaitSleep(c) => ParentFrame(s, r);
      case Kill(c, p) => ParentFrame(s, r);
      case Exit(c) => ExitKeepsParent(s, c);
      case Reap(c, p) =>
        forall q: nat | q < |s.procs| ensures ParentOk(r, q) {
          assert ParentOk(s, q) && ParentOk(s, p);
        }
    }
  }

  lemma ExitKeepsParent(s: Sys, c: nat)
    requires CpuInv(s) && ForkInv(s) && ParentInv(s) && TableEnabled(s, Exit(c))
    ensures ParentInv(TableAfter(s, Exit(c)))
  {
    hide Exited;
    MeOk(s, c);
    var r, me := TableAfter(s, Exit(c)), Me(s, c);
    forall i: nat | i < |s.procs|
      ensures r.procs[i].parent == (if s.procs[i].parent == Some(me) then Some(s.init) else s.procs[i].parent) && r.procs[i].fork == s.procs[i].fork
      ensures i != me ==> r.procs[i].st == s.procs[i].st || (Live(s.procs[i].st) && Live(r.procs[i].st))
      ensures i == me ==> r.procs[i].st.Zombie?
    {
      ExitedAt(s.procs, me, s.init, i);
    }
    forall q: nat | q < |s.procs| ensures ParentOk(r, q) {
      assert ParentOk(s, q);
      EmbryoOfForker(s, q, me);
    }
  }

  lemma ForkKeepsParent(s: Sys, e: ForkStep)
    requires CpuInv(s) && ForkInv(s) && ParentInv(s) && ForkEnabled(s, e)
    ensures ParentInv(ForkAfter(s, e))
  {
    ForkTouches(s, e);
    ForkEffect(s, e);
    hide ForkAfter, CpuInv, ForkInv;
    var r, me, child := ForkAfter(s, e), Me(s, e.c), Child(s, e);
    assert child != s.init;
    forall q: nat | q < |s.procs| ensures ParentOk(r, q) {
      assert ParentOk(s, q);
    }
  }

  // ---------------------------------------------------------------- waiting for children

  predicate InWait(p: Proc) { p.st.Sleeping? && p.chan.ProcChan? }

  /** Only wait sleeps on a table entry, on the caller's own. */
  predicate WaitOk(s: Sys, q: nat)
    requires q < |s.procs|
  {
    InWait(s.procs[q]) ==> s.procs[q].chan.q == q
  }

  /** A parent asleep in wait has no zombie child. */
  ghost predicate WaitInv(s: Sys) {
    && (forall q: nat :: q < |s.procs| ==> WaitOk(s, q))
    && (forall p: nat, q: nat :: p < |s.procs| && q < |s.procs| && InWait(s.procs[q]) ==> !IsZombieOf(s.procs[p], q))
  }

  lemma WaitFrame(s: Sys, r: Sys)
    requires WaitInv(s) && |r.procs| == |s.procs|
    requires forall p: nat, q: nat :: p < |s.procs| && IsZombieOf(r.procs[p], q) ==> IsZombieOf(s.procs[p], q)
    requires forall p: nat :: p < |s.procs| && InWait(r.procs[p]) ==> InWait(s.procs[p]) && r.procs[p].chan == s.procs[p].chan
    ensures WaitInv(r)
  {
    forall q: nat | q < |s.procs| ensures WaitOk(r, q) {
      assert WaitOk(s, q);
    }
  }

  lemma CpuKeepsWait(s: Sys, e: CpuStep)
    requires CpuInv(s) && WaitInv(s) && CpuEnabled(s, e)
    ensures WaitInv(CpuAfter(s, e))
  {
    WaitFrame(s, CpuAfter(s, e));
  }

  lemma SleepKeepsWait(s: Sys, e: SleepStep)
    requires CpuInv(s) && WaitInv(s) && SleepEnabled(s, e)
    ensures WaitInv(SleepAfter(s, e))
  {
    WaitFrame(s, SleepAfter(s, e));
  }

  lemma ForkKeepsWait(s: Sys, e: ForkStep)
    requires CpuInv(s) && ForkInv(s) && WaitInv(s) && ForkEnabled(s, e)
    ensures WaitInv(ForkAfter(s, e))
  {
    ForkTouches(s, e);
    WaitFrame(s, ForkAfter(s, e));
  }

  lemma TableKeepsWait(s: Sys, e: TableStep)
    requires CpuInv(s) && ParentInv(s) && WaitInv(s) && TableEnabled(s, e)
    ensures WaitInv(TableAfter(s, e))
  {
    var r := TableAfter(s, e);
    match e {
      case WaitSleep(c) =>
        forall q: nat | q < |s.procs| ensures WaitOk(r, q) {
          assert WaitOk(s, q);
        }
      case Kill(c, p) => WaitFrame(s, r);
      case Reap(c, p) => WaitFrame(s, r);
      case Exit(c) => ExitKeepsWait(s, c);
    }
  }

  /** exit wakes the parent, and init when it inherits a zombie. */
  lemma ExitWakes(procs: seq<Proc>, p: nat, init: nat, q: nat)
    requires p < |procs| && q < |procs| && InWait(Exited(procs, p, init)[q])
    ensures InWait(procs[q]) && Exited(procs, p, init)[q].chan == procs[q].chan
    ensures procs[p].parent.Some? ==> procs[q].chan != ProcChan(procs[p].parent.value)
    ensures HasZombie(procs, p) ==> procs[q].chan != ProcChan(init)
  {
    hide Woken, Orphaned;
    var w := if procs[p].parent.Some? then Woken(procs, ProcChan(procs[p].parent.value)) else procs;
    assert w[q] == procs[q].(st := w[q].st);
    if HasZombie(procs, p) {
      var i :| 0 <= i < |procs| && IsZombieOf(procs[i], p);
      assert IsZombieOf(w[i], p);
    }
  }

  lemma ExitKeepsWait(s: Sys, c: nat)
    requires CpuInv(s) && ParentInv(s) && WaitInv(s) && TableEnabled(s, Exit(c))
    ensures WaitInv(TableAfter(s, Exit(c)))
  {
    hide Exited;
    MeOk(s, c);
    var r, me := TableAfter(s, Exit(c)), Me(s, c);
    assert ParentOk(s, me);
    forall q: nat | q < |s.procs| && InWait(r.procs[q])
      ensures InWait(s.procs[q]) && r.procs[q].chan == s.procs[q].chan && s.procs[q].chan == ProcChan(q) && s.procs[me].parent != Some(q)
      ensures HasZombie(s.procs, me) ==> q != s.init
    {
      ExitWakes(s.procs, me, s.init, q);
      assert WaitOk(s, q);
    }
    forall q: nat | q < |s.procs| ensures WaitOk(r, q) {
      assert WaitOk(s, q);
    }
    forall p: nat, q: nat | p < |s.procs| && q < |s.procs| && InWait(r.procs[q]) ensures !IsZombieOf(r.procs[p], q) {
      ExitedAt(s.procs, me, s.init, p);
      assert !IsZombieOf(s.procs[p], q);
    }
  }
}
