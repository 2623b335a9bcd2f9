/** Sleep and wakeup lose nothing; sleep locks exclude; and what follows for whole runs. */
module SleepSafe {
  import opened Common
  import opened ProcSpec
  import opened ProcSafe

  // ---------------------------------------------------------------- conditions and sleepers

  /** done and owes against sets: whoever made the condition true and has not yet called wakeup
      still holds the condition's lock. */
  predicate CondOk(s: Sys, k: nat)
    requires k < |s.conds|
  {
    && s.conds[k].guard < |s.owner| && s.conds[k].done <= s.conds[k].sets
    && (s.conds[k].owes.Some? ==> s.owner[s.conds[k].guard] == s.conds[k].owes)
    && (s.conds[k].owes.None? ==> s.conds[k].done == s.conds[k].sets)
  }

  /** Waiting for condition k, or about to with its lock already released. */
  predicate Waits(p: Proc, k: nat) { p.nap == Window(k) || (p.st.Sleeping? && p.chan == CondChan(k)) }

  predicate SleeperOk(s: Sys, p: nat)
    requires p < |s.procs|
  {
    && (s.procs[p].nap.Testing? ==> Guarded(s, p, s.procs[p].nap.k) && !s.conds[s.procs[p].nap.k].yes && s.procs[p].tested == s.conds[s.procs[p].nap.k].sets)
    && (s.procs[p].nap.Window? ==> s.procs[p].nap.k < |s.conds|)
    && (s.procs[p].st.Sleeping? && s.procs[p].chan.CondChan? ==> s.procs[p].chan.k < |s.conds|)
  }

  /** Nothing woke the channel since the process found the condition false and someone made it true. */
  predicate WaitingOk(s: Sys, p: nat, k: nat)
    requires p < |s.procs| && k < |s.conds|
  {
    Waits(s.procs[p], k) ==>
      && s.conds[k].done <= s.procs[p].tested <= s.conds[k].sets
      && (s.conds[k].yes ==> s.procs[p].tested < s.conds[k].sets)
  }

  ghost predicate SleepInv(s: Sys) {
    && (forall k: nat :: k < |s.conds| ==> CondOk(s, k))
    && (forall p: nat :: p < |s.procs| ==> SleeperOk(s, p))
    && (forall p: nat, k: nat :: p < |s.procs| && k < |s.conds| ==> WaitingOk(s, p, k))
  }

  /** Processes may stop waiting, and those that test keep what they rely on. */
  lemma SleepFrame(s: Sys, r: Sys)
    requires SleepInv(s) && |r.procs| == |s.procs| && r.conds == s.conds && r.owner == s.owner
    requires forall p: nat :: p < |s.procs| ==> r.procs[p].nap == s.procs[p].nap && r.procs[p].tested == s.procs[p].tested
    requires forall p: nat :: p < |s.procs| && r.procs[p].st.Sleeping? && r.procs[p].chan.CondChan? ==> s.procs[p].st.Sleeping? && r.procs[p].chan == s.procs[p].chan
    ensures SleepInv(r)
  {
    forall k: nat | k < |s.conds| ensures CondOk(r, k) {
      assert CondOk(s, k);
    }
    forall p: nat | p < |s.procs| ensures SleeperOk(r, p) {
      assert SleeperOk(s, p);
    }
    forall p: nat, k: nat | p < |s.procs| && k < |s.conds| ensures WaitingOk(r, p, k) {
      assert WaitingOk(s, p, k);
    }
  }

  lemma CpuKeepsSleep(s: Sys, e: CpuStep)
    requires CpuInv(s) && SleepInv(s) && CpuEnabled(s, e)
    ensures SleepInv(CpuAfter(s, e))
  {
    SleepFrame(s, CpuAfter(s, e));
  }

  lemma ForkKeepsSleep(s: Sys, e: ForkStep)
    requires CpuInv(s) && ForkInv(s) && SleepInv(s) && ForkEnabled(s, e)
    ensures SleepInv(ForkAfter(s, e))
  {
    ForkTouches(s, e);
    SleepFrame(s, ForkAfter(s, e));
  }

  lemma TableKeepsSleep(s: Sys, e: TableStep)
    requires CpuInv(s) && SleepInv(s) && TableEnabled(s, e)
    ensures SleepInv(TableAfter(s, e))
  {
    hide Exited;
    MeOk(s, e.c);
    var r := TableAfter(s, e);
    if e.Exit? {
      forall i: nat | i < |s.procs|
        ensures r.procs[i].nap == s.procs[i].nap && r.procs[i].tested == s.procs[i].tested && r.procs[i].chan == s.procs[i].chan
        ensures r.procs[i].st.Sleeping? ==> s.procs[i].st.Sleeping?
      {
        ExitedAt(s.procs, Me(s, e.c), s.init, i);
      }
    }
    SleepFrame(s, r);
  }

  lemma SleepKeepsSleep(s: Sys, e: SleepStep)
    requires CpuInv(s) && SleepInv(s) && SleepEnabled(s, e)
    ensures SleepInv(SleepAfter(s, e))
  {
    match e {
      case Acquire(c, l) => OwnerKeepsSleep(s, e, l);
      case Release(c, l) => OwnerKeepsSleep(s, e, l);
      case Test(c, k) => TestKeepsSleep(s, c, k);
      case SleepRelease(c) => SleepReleaseKeepsSleep(s, c);
      case SleepGo(c) => SleepGoKeepsSleep(s, c);
      case SetCond(c, k) => CondKeepsSleep(s, e, k);
      case ClearCond(c, k) => CondKeepsSleep(s, e, k);
      case TakeSleeplock(c, k) => CondKeepsSleep(s, e, k);
      case FreeSleeplock(c, k) => CondKeepsSleep(s, e, k);
      case Wakeup(c, k) => WakeupKeepsSleep(s, c, k);
    }
  }

  lemma OwnerKeepsSleep(s: Sys, e: SleepStep, l: nat)
    requires CpuInv(s) && SleepInv(s) && SleepEnabled(s, e) && ((e.Acquire? || e.Release?) && e.l == l)
    ensures SleepInv(SleepAfter(s, e))
  {
    var r := SleepAfter(s, e);
    MeOk(s, e.c);
    forall k: nat | k < |s.conds| ensures CondOk(r, k) {
      assert CondOk(s, k);
    }
    forall p: nat | p < |s.procs| ensures SleeperOk(r, p) {
      assert SleeperOk(s, p);
    }
    forall p: nat, k: nat | p < |s.procs| && k < |s.conds| ensures WaitingOk(r, p, k) {
      assert WaitingOk(s, p, k);
    }
  }

  lemma TestKeepsSleep(s: Sys, c: nat, k: nat)
    requires CpuInv(s) && SleepInv(s) && SleepEnabled(s, Test(c, k))
    ensures SleepInv(SleepAfter(s, Test(c, k)))
  {
    var r := SleepAfter(s, Test(c, k));
    MeOk(s, c);
    forall j: nat | j < |s.conds| ensures CondOk(r, j) {
      assert CondOk(s, j);
    }
    forall p: nat | p < |s.procs| ensures SleeperOk(r, p) {
      assert SleeperOk(s, p);
    }
    forall p: nat, j: nat | p < |s.procs| && j < |s.conds| ensures WaitingOk(r, p, j) {
      assert WaitingOk(s, p, j);
    }
  }

  /** Once ptable.lock is held the condition's lock can go: no wakeup can come in between. */
  lemma SleepReleaseKeepsSleep(s: Sys, c: nat)
    requires CpuInv(s) && SleepInv(s) && SleepEnabled(s, SleepRelease(c))
    ensures SleepInv(SleepAfter(s, SleepRelease(c)))
  {
    var r := SleepAfter(s, SleepRelease(c));
    MeOk(s, c);
    assert SleeperOk(s, Me(s, c));
    forall j: nat | j < |s.conds| ensures CondOk(r, j) {
      assert CondOk(s, j);
    }
    forall p: nat | p < |s.procs| ensures SleeperOk(r, p) {
      assert SleeperOk(s, p);
    }
    forall p: nat, j: nat | p < |s.procs| && j < |s.conds| ensures WaitingOk(r, p, j) {
      assert WaitingOk(s, p, j) && CondOk(s, j);
    }
  }

  lemma SleepGoKeepsSleep(s: Sys, c: nat)
    requires CpuInv(s) && SleepInv(s) && SleepEnabled(s, SleepGo(c))
    ensures SleepInv(SleepAfter(s, SleepGo(c)))
  {
    var r := SleepAfter(s, SleepGo(c));
    MeOk(s, c);
    assert SleeperOk(s, Me(s, c));
    forall j: nat | j < |s.conds| ensures CondOk(r, j) {
      assert CondOk(s, j);
    }
    forall p: nat | p < |s.procs| ensures SleeperOk(r, p) {
      assert SleeperOk(s, p);
    }
    forall p: nat, j: nat | p < |s.procs| && j < |s.conds| ensures WaitingOk(r, p, j) {
      assert WaitingOk(s, p, j);
    }
  }

  /** Only the holder of the guard changes a condition, so nobody is between test and release. */
  lemma CondKeepsSleep(s: Sys, e: SleepStep, k: nat)
    requires CpuInv(s) && SleepInv(s) && SleepEnabled(s, e)
    requires (e.SetCond? || e.ClearCond? || e.TakeSleeplock? || e.FreeSleeplock?) && e.k == k
    ensures SleepInv(SleepAfter(s, e))
  {
    var r := SleepAfter(s, e);
    MeOk(s, e.c);
    forall j: nat | j < |s.conds| ensures CondOk(r, j) {
      assert CondOk(s, j);
    }
    forall p: nat | p < |s.procs| ensures SleeperOk(r, p) {
      assert SleeperOk(s, p);
    }
    forall p: nat, j: nat | p < |s.procs| && j < |s.conds| ensures WaitingOk(r, p, j) {
      assert WaitingOk(s, p, j);
    }
  }

  /** Only one process is past acquiring ptable.lock. */
  lemma LockedAlone(s: Sys, c: nat, p: nat)
    requires CpuInv(s) && Runs(s, c, Locked) && p < |s.procs|
    ensures s.procs[p].pc.Locked? || s.procs[p].nap.Window? ==> p == Me(s, c)
  {
    assert ProcOk(s, p) && CpuOk(s, c);
    if s.procs[p].pc.Locked? {
      assert CpuOk(s, s.procs[p].at);
    }
  }

  /** wakeup leaves nobody waiting on the channel: a process in the window would hold ptable.lock. */
  lemma WakeupKeepsSleep(s: Sys, c: nat, k: nat)
    requires CpuInv(s) && SleepInv(s) && SleepEnabled(s, Wakeup(c, k))
    ensures SleepInv(SleepAfter(s, Wakeup(c, k)))
    ensures forall p: nat :: p < |s.procs| ==> !Waits(SleepAfter(s, Wakeup(c, k)).procs[p], k)
  {
    var r := SleepAfter(s, Wakeup(c, k));
    MeOk(s, c);
    forall p: nat | p < |s.procs| ensures !Waits(r.procs[p], k) {
      LockedAlone(s, c, p);
    }
    forall j: nat | j < |s.conds| ensures CondOk(r, j) {
      assert CondOk(s, j);
    }
    forall p: nat | p < |s.procs| ensures SleeperOk(r, p) {
      assert SleeperOk(s, p);
    }
    forall p: nat, j: nat | p < |s.procs| && j < |s.conds| ensures WaitingOk(r, p, j) {
      assert WaitingOk(s, p, j);
    }
  }

  // ---------------------------------------------------------------- sleep locks

  predicate LockOk(s: Sys, k: nat)
    requires k < |s.conds|
  {
    s.conds[k].sleeplock ==>
      && (s.conds[k].yes <==> s.conds[k].holder.None?)
      && (s.conds[k].holder.Some? ==> s.conds[k].holder.value < |s.procs| && k in s.procs[s.conds[k].holder.value].holds)
  }

  ghost predicate HolderOk(s: Sys, p: nat)
    requires p < |s.procs|
  {
    forall k :: k in s.procs[p].holds ==> k < |s.conds| && s.conds[k].sleeplock && s.conds[k].holder == Some(p)
  }

  ghost predicate HoldInv(s: Sys) {
    && (forall k: nat :: k < |s.conds| ==> LockOk(s, k))
    && (forall p: nat :: p < |s.procs| ==> HolderOk(s, p))
  }

  lemma HoldFrame(s: Sys, r: Sys)
    requires HoldInv(s) && |r.procs| == |s.procs| && |r.conds| == |s.conds|
    requires forall p: nat :: p < |s.procs| ==> r.procs[p].holds == s.procs[p].holds
    requires forall k: nat :: k < |s.conds| ==> r.conds[k] == s.conds[k].(yes := r.conds[k].yes, sets := r.conds[k].sets, done := r.conds[k].done, owes := r.conds[k].owes)
    requires forall k: nat :: k < |s.conds| && s.conds[k].sleeplock ==> r.conds[k].yes == s.conds[k].yes
    ensures HoldInv(r)
  {
    forall k: nat | k < |s.conds| ensures LockOk(r, k) {
      assert LockOk(s, k);
    }
    forall p: nat | p < |s.procs| ensures HolderOk(r, p) {
      assert HolderOk(s, p);
    }
  }

  lemma CpuKeepsHold(s: Sys, e: CpuStep)
    requires HoldInv(s) && CpuEnabled(s, e)
    ensures HoldInv(CpuAfter(s, e))
  {
    HoldFrame(s, CpuAfter(s, e));
  }

  lemma ForkKeepsHold(s: Sys, e: ForkStep)
    requires CpuInv(s) && ForkInv(s) && HoldInv(s) && ForkEnabled(s, e)
    ensures HoldInv(ForkAfter(s, e))
  {
    ForkTouches(s, e);
    HoldFrame(s, ForkAfter(s, e));
  }

  lemma TableKeepsHold(s: Sys, e: TableStep)
    requires CpuInv(s) && HoldInv(s) && TableEnabled(s, e)
    ensures HoldInv(TableAfter(s, e))
  {
    hide Exited;
    MeOk(s, e.c);
    var r := TableAfter(s, e);
    if e.Exit? {
      forall i: nat | i < |s.procs| ensures r.procs[i].holds == s.procs[i].holds {
        ExitedAt(s.procs, Me(s, e.c), s.init, i);
      }
    }
    HoldFrame(s, r);
  }

  lemma SleepKeepsHold(s: Sys, e: SleepStep)
    requires CpuInv(s) && HoldInv(s) && SleepEnabled(s, e)
    ensures HoldInv(SleepAfter(s, e))
  {
    var r := SleepAfter(s, e);
    MeOk(s, e.c);
    if e.TakeSleeplock? || e.FreeSleeplock? {
      assert LockOk(s, e.k) && HolderOk(s, Me(s, e.c));
      forall k: nat | k < |s.conds| ensures LockOk(r, k) {
        assert LockOk(s, k);
      }
      forall p: nat | p < |s.procs| ensures HolderOk(r, p) {
        assert HolderOk(s, p);
      }
    } else {
      HoldFrame(s, r);
    }
  }
}
