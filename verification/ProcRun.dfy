/** Whole runs of the process system: the promises of proc.c and sleeplock.c. */
module ProcRun {
  import opened Common
  import opened ProcSpec
  import opened ProcSafe
  import opened SleepSafe

  /** After userinit: only init, runnable; every CPU in its scheduler; all locks free. */
  ghost predicate Init(s: Sys) {
    && s.init < |s.procs| && s.lock.None?
    && (forall c: nat :: c < |s.cpus| ==> s.cpus[c] == Cpu(None, None))
    && (forall p: nat :: p < |s.procs| ==>
          && s.procs[p].pc.Entering? && s.procs[p].fork.NoFork? && s.procs[p].nap.Awake? && s.procs[p].holds == {} && s.procs[p].parent.None?
          && s.procs[p].st == (if p == s.init then Runnable else Unused) && s.procs[p].stack == (p == s.init))
    && (forall l: nat :: l < |s.owner| ==> s.owner[l].None?)
    && (forall k: nat :: k < |s.conds| ==>
          && s.conds[k].guard < |s.owner| && s.conds[k].sets == s.conds[k].done && s.conds[k].owes.None?
          && (s.conds[k].sleeplock ==> s.conds[k].yes && s.conds[k].holder.None?))
  }

  ghost predicate Inv(s: Sys) { CpuInv(s) && ForkInv(s) && ParentInv(s) && WaitInv(s) && SleepInv(s) && HoldInv(s) }

  lemma InitInv(s: Sys)
    requires Init(s)
    ensures Inv(s)
  {}

  lemma StepKeeps(s: Sys, e: Step)
    requires Inv(s) && Enabled(s, e)
    ensures Inv(After(s, e))
  {
    hide CpuInv, ForkInv, ParentInv, WaitInv, SleepInv, HoldInv, CpuEnabled, ForkEnabled, TableEnabled, SleepEnabled;
    match e
    case ByCpu(x) =>
      CpuKeepsCpu(s, x); CpuKeepsFork(s, x); CpuKeepsParent(s, x); CpuKeepsWait(s, x); CpuKeepsSleep(s, x); CpuKeepsHold(s, x);
    case ByTable(x) =>
      TableKeepsCpu(s, x); TableKeepsFork(s, x); TableKeepsParent(s, x); TableKeepsWait(s, x); TableKeepsSleep(s, x); TableKeepsHold(s, x);
    case ByFork(x) =>
      ForkKeepsCpu(s, x); ForkKeepsFork(s, x); ForkKeepsParent(s, x); ForkKeepsWait(s, x); ForkKeepsSleep(s, x); ForkKeepsHold(s, x);
    case BySleep(x) =>
      SleepKeepsCpu(s, x); SleepKeepsFork(s, x); SleepKeepsParent(s, x); SleepKeepsWait(s, x); SleepKeepsSleep(s, x); SleepKeepsHold(s, x);
  }

  /** A run: states and the steps between them. */
  ghost predicate IsRun(ss: seq<Sys>, es: seq<Step>) {
    && |ss| == |es| + 1 && Init(ss[0])
    && (forall i: nat :: i < |es| ==> Enabled(ss[i], es[i]) && ss[i + 1] == After(ss[i], es[i]))
  }

  lemma {:induction false} RunKeeps(ss: seq<Sys>, es: seq<Step>, n: nat)
    requires IsRun(ss, es) && n < |ss|
    ensures Inv(ss[n])
  {
    hide Inv, Init, Enabled, After;
    if n == 0 {
      InitInv(ss[0]);
    } else {
      RunKeeps(ss, es, n - 1);
      StepKeeps(ss[n - 1], es[n - 1]);
    }
  }

  // ---------------------------------------------------------------- the process table

  /** In every reachable state, no kernel stack is in use by two CPUs, every stack in use is
      allocated, and a process in sched holds ptable.lock and is not RUNNING, so sched does not panic. */
  lemma RunStacks(ss: seq<Sys>, es: seq<Step>, n: nat, c: nat)
    requires IsRun(ss, es) && n < |ss| && c < |ss[n].cpus| && ss[n].cpus[c].on.Some?
    ensures var s := ss[n];
      && Me(s, c) < |s.procs| && s.procs[Me(s, c)].stack
      && (forall d: nat :: d < |s.cpus| && d != c ==> s.cpus[d].on != s.cpus[c].on)
      && (s.procs[Me(s, c)].pc.Leaving? ==> s.lock == Some(c) && !s.procs[Me(s, c)].st.Running?)
  {
    hide IsRun;
    RunKeeps(ss, es, n);
    var s := ss[n];
    MeOk(s, c);
    assert ForkOk(s, Me(s, c)) && CpuOk(s, c);
    forall d: nat | d < |s.cpus| && d != c ensures s.cpus[d].on != s.cpus[c].on {
      assert CpuOk(s, d);
    }
  }

  /** The guards of the steps hide no behaviour: in every run a CPU can go on unless it needs
      ptable.lock and another CPU has it; only sleep, which has its own steps, is set aside. */
  lemma RunCpuGoesOn(ss: seq<Sys>, es: seq<Step>, n: nat, c: nat)
    requires IsRun(ss, es) && n < |ss| && c < |ss[n].cpus|
    requires ss[n].cpus[c].on.Some? && Me(ss[n], c) < |ss[n].procs| ==> ss[n].procs[Me(ss[n], c)].nap.Awake?
    ensures (exists e :: CpuEnabled(ss[n], e) && e.c == c) || (ss[n].lock.Some? && ss[n].lock != Some(c))
  {
    hide IsRun;
    RunKeeps(ss, es, n);
    var s := ss[n];
    assert CpuOk(s, c);
    if s.cpus[c].on.None? {
      if s.cpus[c].proc.Some? {
        assert CpuEnabled(s, SwtchIn(c)) || CpuEnabled(s, Drop(c));
      } else {
        assert s.lock.None? ==> CpuEnabled(s, SchedLock(c));
        assert s.lock == Some(c) ==> CpuEnabled(s, SchedUnlock(c));
      }
    } else {
      match s.procs[Me(s, c)].pc
      case Entering => assert CpuEnabled(s, Resume(c));
      case Leaving => assert CpuEnabled(s, SwtchOut(c));
      case Locked => assert CpuEnabled(s, PtUnlock(c));
      case Free => assert s.lock.None? ==> CpuEnabled(s, PtLock(c));
    }
  }

  /** No step frees a kernel stack that some CPU is on. */
  lemma RunFreesIdleStack(ss: seq<Sys>, es: seq<Step>, n: nat, p: nat)
    requires IsRun(ss, es) && n < |es| && p < |ss[n].procs|
    requires ss[n].procs[p].stack && p < |ss[n + 1].procs| && !ss[n + 1].procs[p].stack
    ensures OffCpu(ss[n], p)
  {
    RunKeeps(ss, es, n);
    var s, e := ss[n], es[n];
    assert Enabled(s, e) && ss[n + 1] == After(s, e);
    match e {
      case ByCpu(x) =>
      case ByTable(x) => TableFrees(s, x, p);
      case ByFork(x) =>
        ForkTouches(s, x);
        ForkEffect(s, x);
        NotOnCpu(s, x.c, Child(s, x));
      case BySleep(x) =>
    }
  }

  lemma TableFrees(s: Sys, e: TableStep, p: nat)
    requires CpuInv(s) && TableEnabled(s, e) && p < |s.procs| && s.procs[p].stack
    requires p < |TableAfter(s, e).procs| && !TableAfter(s, e).procs[p].stack
    ensures OffCpu(s, p)
  {
    hide Exited;
    MeOk(s, e.c);
    if e.Exit? {
      ExitedAt(s.procs, Me(s, e.c), s.init, p);
    } else {
      assert e == Reap(e.c, p);
      NotOnCpu(s, e.c, p);
    }
  }

  /** Every zombie has a parent that is alive, and every process but init has one that is. */
  lemma RunZombieParent(ss: seq<Sys>, es: seq<Step>, n: nat, p: nat)
    requires IsRun(ss, es) && n < |ss| && p < |ss[n].procs| && p != ss[n].init
    requires ss[n].procs[p].st.Zombie? || Live(ss[n].procs[p].st)
    ensures ss[n].procs[p].parent.Some? && ss[n].procs[p].parent.value < |ss[n].procs| && Live(ss[n].procs[ss[n].procs[p].parent.value].st)
  {
    hide IsRun;
    RunKeeps(ss, es, n);
    assert ParentOk(ss[n], p);
  }

  lemma NoZombieOfWaiter(s: Sys, p: nat, q: nat)
    requires WaitInv(s) && p < |s.procs| && q < |s.procs| && IsZombieOf(s.procs[p], q)
    ensures !InWait(s.procs[q])
  {}

  /** init is never a zombie, and nobody sleeps in wait while a child of theirs is one. */
  lemma RunWaitNotStranded(ss: seq<Sys>, es: seq<Step>, n: nat, p: nat, q: nat)
    requires IsRun(ss, es) && n < |ss| && p < |ss[n].procs| && q < |ss[n].procs| && IsZombieOf(ss[n].procs[p], q)
    ensures p != ss[n].init && !(ss[n].procs[q].st.Sleeping? && ss[n].procs[q].chan == ProcChan(q))
  {
    hide IsRun;
    RunKeeps(ss, es, n);
    NoZombieOfWaiter(ss[n], p, q);
  }

  // ---------------------------------------------------------------- sleep and wakeup

  ghost predicate MakesTrue(e: Step, k: nat) { e.BySleep? && (e.xs.SetCond? || e.xs.FreeSleeplock?) && e.xs.k == k }

  ghost predicate IsWakeup(e: Step, k: nat) { e.BySleep? && e.xs.Wakeup? && e.xs.k == k }

  ghost predicate TestsBy(s: Sys, e: Step, p: nat) { e.BySleep? && e.xs.Test? && e.xs.c < |s.cpus| && s.cpus[e.xs.c].on == Some(p) }

  /** What a step does to the counters of a condition and of a process. */
  ghost predicate Counts(s: Sys, e: Step, r: Sys, p: nat, k: nat)
    requires p < |s.procs| && k < |s.conds|
  {
    && |r.procs| == |s.procs| && |r.conds| == |s.conds|
    && r.conds[k].sets >= s.conds[k].sets && r.conds[k].done >= s.conds[k].done
    && (MakesTrue(e, k) ==> r.conds[k].sets > s.conds[k].sets)
    && (IsWakeup(e, k) ==> r.conds[k].done == s.conds[k].sets)
    && (!TestsBy(s, e, p) ==> r.procs[p].tested == s.procs[p].tested)
    && (TestsBy(s, e, p) && e.xs.k == k ==> r.procs[p].tested == s.conds[k].sets)
  }

  lemma StepCounts(s: Sys, e: Step, p: nat, k: nat)
    requires Inv(s) && Enabled(s, e) && p < |s.procs| && k < |s.conds|
    ensures Counts(s, e, After(s, e), p, k)
  {
    hide CpuInv, ForkInv, ParentInv, WaitInv, SleepInv, HoldInv, CpuEnabled, ForkEnabled, TableEnabled, SleepEnabled;
    match e {
      case ByCpu(x) => CpuCounts(s, x, p);
      case ByTable(x) => TableCounts(s, x, p);
      case ByFork(x) => ForkCounts(s, x, p);
      case BySleep(x) => SleepCounts(s, x, p, k);
    }
  }

  lemma CpuCounts(s: Sys, e: CpuStep, p: nat)
    requires CpuEnabled(s, e) && p < |s.procs|
    ensures CpuAfter(s, e).conds == s.conds && |CpuAfter(s, e).procs| == |s.procs| && CpuAfter(s, e).procs[p].tested == s.procs[p].tested
  {}

  lemma ForkCounts(s: Sys, e: ForkStep, p: nat)
    requires CpuInv(s) && ForkInv(s) && ForkEnabled(s, e) && p < |s.procs|
    ensures ForkAfter(s, e).conds == s.conds && |ForkAfter(s, e).procs| == |s.procs| && ForkAfter(s, e).procs[p].tested == s.procs[p].tested
  {
    ForkTouches(s, e);
  }

  lemma TableCounts(s: Sys, e: TableStep, p: nat)
    requires CpuInv(s) && TableEnabled(s, e) && p < |s.procs|
    ensures TableAfter(s, e).conds == s.conds && |TableAfter(s, e).procs| == |s.procs| && TableAfter(s, e).procs[p].tested == s.procs[p].tested
  {
    hide Exited;
    MeOk(s, e.c);
    if e.Exit? {
      ExitedAt(s.procs, Me(s, e.c), s.init, p);
    }
  }

  lemma SleepCounts(s: Sys, e: SleepStep, p: nat, k: nat)
    requires CpuInv(s) && SleepInv(s) && SleepEnabled(s, e) && p < |s.procs| && k < |s.conds|
    ensures Counts(s, BySleep(e), SleepAfter(s, e), p, k)
  {
    MeOk(s, e.c);
    assert CondOk(s, k);
    hide SleepInv, CpuInv;
  }

  /** Between two points of a run counters only grow, and a process that does not test keeps its note. */
  lemma {:induction false} RunCounts(ss: seq<Sys>, es: seq<Step>, i: nat, n: nat, p: nat, k: nat)
    requires IsRun(ss, es) && i <= n < |ss| && p < |ss[i].procs| && k < |ss[i].conds|
    requires forall j: nat :: i <= j < n ==> !TestsBy(ss[j], es[j], p)
    ensures |ss[n].procs| == |ss[i].procs| && |ss[n].conds| == |ss[i].conds|
    ensures ss[n].conds[k].sets >= ss[i].conds[k].sets && ss[n].conds[k].done >= ss[i].conds[k].done
    ensures ss[n].procs[p].tested == ss[i].procs[p].tested
    decreases n - i
  {
    hide Inv, Init, Enabled, After, TestsBy;
    if i < n {
      RunCounts(ss, es, i, n - 1, p, k);
      RunKeeps(ss, es, n - 1);
      StepCounts(ss[n - 1], es[n - 1], p, k);
    }
  }

  /** No lost wakeup: p finds condition k false at step i, somebody makes it true at step j, and
      wakeup runs at step w. From then on p, unless it has tested again, is not asleep on k and
      will not be. */
  lemma RunNoLostWakeup(ss: seq<Sys>, es: seq<Step>, i: nat, j: nat, w: nat, n: nat, p: nat, k: nat)
    requires IsRun(ss, es) && i < j < w < n < |ss| && p < |ss[i].procs| && k < |ss[i].conds|
    requires TestsBy(ss[i], es[i], p) && es[i].xs.k == k && MakesTrue(es[j], k) && IsWakeup(es[w], k)
    requires forall x: nat :: i < x < n ==> !TestsBy(ss[x], es[x], p)
    ensures p < |ss[n].procs| && !Waits(ss[n].procs[p], k)
  {
    hide Inv, Init, Enabled, After, TestsBy, MakesTrue, IsWakeup;
    RunKeeps(ss, es, i);
    StepCounts(ss[i], es[i], p, k);
    RunCounts(ss, es, i + 1, j, p, k);
    RunKeeps(ss, es, j);
    StepCounts(ss[j], es[j], p, k);
    RunCounts(ss, es, j + 1, w, p, k);
    RunKeeps(ss, es, w);
    StepCounts(ss[w], es[w], p, k);
    RunCounts(ss, es, w + 1, n, p, k);
    RunKeeps(ss, es, n);
    WaitingKnows(ss[n], p, k);
  }

  lemma WaitingKnows(s: Sys, p: nat, k: nat)
    requires Inv(s) && p < |s.procs| && k < |s.conds|
    ensures Waits(s.procs[p], k) ==> s.conds[k].done <= s.procs[p].tested
  {
    assert WaitingOk(s, p, k);
  }

  /** Nobody is stranded: a process asleep on a condition that is true will be woken by the one
      that made it true, who still holds the condition's lock and has not called wakeup yet. */
  lemma RunNotStranded(ss: seq<Sys>, es: seq<Step>, n: nat, p: nat, k: nat)
    requires IsRun(ss, es) && n < |ss| && p < |ss[n].procs| && k < |ss[n].conds|
    requires ss[n].procs[p].st.Sleeping? && ss[n].procs[p].chan == CondChan(k) && ss[n].conds[k].yes
    ensures ss[n].conds[k].owes.Some? && ss[n].conds[k].guard < |ss[n].owner| && ss[n].owner[ss[n].conds[k].guard] == ss[n].conds[k].owes
  {
    hide IsRun;
    RunKeeps(ss, es, n);
    assert WaitingOk(ss[n], p, k) && CondOk(ss[n], k);
  }

  /** Sleep locks have at most one holder; locked says whether there is one, and the recorded
      owner, which holdingsleep compares with the caller, is that process. */
  lemma RunSleeplock(ss: seq<Sys>, es: seq<Step>, n: nat, k: nat, p: nat)
    requires IsRun(ss, es) && n < |ss| && k < |ss[n].conds| && ss[n].conds[k].sleeplock && p < |ss[n].procs|
    ensures k in ss[n].procs[p].holds <==> !ss[n].conds[k].yes && ss[n].conds[k].holder == Some(p)
    ensures !ss[n].conds[k].yes <==> exists q: nat :: q < |ss[n].procs| && k in ss[n].procs[q].holds
    ensures forall q: nat :: q < |ss[n].procs| && k in ss[n].procs[q].holds && k in ss[n].procs[p].holds ==> q == p
  {
    hide IsRun;
    RunKeeps(ss, es, n);
    assert LockOk(ss[n], k);
    forall q: nat | q < |ss[n].procs| ensures k in ss[n].procs[q].holds <==> !ss[n].conds[k].yes && ss[n].conds[k].holder == Some(q) {
      assert HolderOk(ss[n], q);
    }
  }
}
