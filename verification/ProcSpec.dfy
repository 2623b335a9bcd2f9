/** proc.c, spinlock.c and sleeplock.c as one step system: any number of CPUs and processes, the
    lock ptable.lock handed over through swtch, condition locks with sleep and wakeup, and sleep
    locks built on them. A CPU runs either on its scheduler's stack or on the kernel stack of one
    process; the code of processes is arbitrary as long as it calls these operations. */
module ProcSpec {
  import opened Common

  datatype St = Unused | Embryo | Sleeping | Runnable | Running | Zombie

  /** What a process sleeps on: in wait its own table entry, otherwise a condition. */
  datatype Chan = NoChan | ProcChan(q: nat) | CondChan(k: nat)

  /** Where the kernel thread of a process stands with respect to ptable.lock.
      Leaving: in sched, with its state already changed. Entering: saved by swtch, or new; it will
      continue holding the lock that the scheduler took. */
  datatype Pc = Free | Locked | Leaving | Entering

  /** How far fork has come with the new process. */
  datatype Fork = NoFork | Got(np: nat) | Stacked(np: nat) | Adopted(np: nat)

  /** How far sleep has come. Testing: the condition was false, its lock is held. Window:
      ptable.lock is held and the condition's lock released, but the state is not yet Sleeping. */
  datatype Nap = Awake | Testing(k: nat) | Window(k: nat)

  /** at is the CPU last switched to; tested the number of times the condition had become true when
      the process last found it false; holds the sleep locks acquired and not yet released. */
  datatype Proc = Proc(st: St, chan: Chan, parent: Option<nat>, killed: bool, stack: bool,
                       pc: Pc, at: nat, fork: Fork, nap: Nap, tested: nat, holds: set<nat>)

  /** proc is c->proc; on the process on whose kernel stack the CPU runs, if any. */
  datatype Cpu = Cpu(proc: Option<nat>, on: Option<nat>)

  /** A condition guarded by a spin lock. sets counts how often it became true, done the value of
      sets when wakeup last ran, owes who made it true and has not called wakeup since. For a sleep
      lock the condition is "not locked" and holder is the owner recorded in it. */
  datatype Cond = Cond(guard: nat, yes: bool, sets: nat, done: nat, owes: Option<nat>, sleeplock: bool, holder: Option<nat>)

  datatype Sys = Sys(procs: seq<Proc>, cpus: seq<Cpu>, lock: Option<nat>, owner: seq<Option<nat>>, conds: seq<Cond>, init: nat)

  predicate Live(st: St) { st.Sleeping? || st.Runnable? || st.Running? }

  // ---------------------------------------------------------------- loops over the table

  /** wakeup1. */
  function WokenOne(p: Proc, ch: Chan): (r: Proc) {
    if p.st.Sleeping? && p.chan == ch then p.(st := Runnable) else p
  }

  function Woken(procs: seq<Proc>, ch: Chan): (r: seq<Proc>)
    ensures |r| == |procs|
    ensures forall i :: 0 <= i < |procs| ==> r[i] == WokenOne(procs[i], ch)
  {
    seq(|procs|, i requires 0 <= i < |procs| => WokenOne(procs[i], ch))
  }

  predicate IsZombieOf(p: Proc, q: nat) { p.st.Zombie? && p.parent == Some(q) }

  ghost predicate HasZombie(procs: seq<Proc>, q: nat) {
    exists i :: 0 <= i < |procs| && IsZombieOf(procs[i], q)
  }

  ghost predicate HasChild(procs: seq<Proc>, q: nat) {
    exists i :: 0 <= i < |procs| && procs[i].parent == Some(q)
  }

  function Orphan(p: Proc, q: nat, init: nat): (r: Proc) {
    if p.parent == Some(q) then p.(parent := Some(init)) else p
  }

  function Orphaned(procs: seq<Proc>, q: nat, init: nat): (r: seq<Proc>)
    ensures |r| == |procs|
    ensures forall i :: 0 <= i < |procs| ==> r[i] == Orphan(procs[i], q, init)
  {
    seq(|procs|, i requires 0 <= i < |procs| => Orphan(procs[i], q, init))
  }

  /** exit's loop: children pass to init, which is woken if one of them is a zombie. */
  ghost function Abandoned(procs: seq<Proc>, q: nat, init: nat): (r: seq<Proc>)
    ensures |r| == |procs|
  {
    if HasZombie(procs, q) then Woken(Orphaned(procs, q, init), ProcChan(init)) else Orphaned(procs, q, init)
  }

  /** exit, from acquiring ptable.lock to entering sched. */
  ghost function Exited(procs: seq<Proc>, p: nat, init: nat): (r: seq<Proc>)
    requires p < |procs|
    ensures |r| == |procs|
  {
    var woken := if procs[p].parent.Some? then Woken(procs, ProcChan(procs[p].parent.value)) else procs;
    var a := Abandoned(woken, p, init);
    a[p := a[p].(st := Zombie, pc := Leaving)]
  }

  // ---------------------------------------------------------------- steps

  /** The process on CPU c, doing nothing half. */
  predicate Runs(s: Sys, c: nat, pc: Pc) {
    c < |s.cpus| && s.cpus[c].on.Some? && s.cpus[c].on.value < |s.procs| && s.procs[s.cpus[c].on.value].pc == pc
  }

  predicate RunsAwake(s: Sys, c: nat, pc: Pc) { Runs(s, c, pc) && s.procs[s.cpus[c].on.value].nap.Awake? }

  predicate OnScheduler(s: Sys, c: nat) { c < |s.cpus| && s.cpus[c].on.None? }

  function Me(s: Sys, c: nat): (p: nat)
    requires c < |s.cpus| && s.cpus[c].on.Some?
  {
    s.cpus[c].on.value
  }

  /** sched's check that only ptable.lock is held. */
  ghost predicate NoLocks(s: Sys, p: nat) { forall l :: 0 <= l < |s.owner| ==> s.owner[l] != Some(p) }

  /** The caller holds the lock that guards condition k. */
  predicate Guarded(s: Sys, p: nat, k: nat) {
    k < |s.conds| && s.conds[k].guard < |s.owner| && s.owner[s.conds[k].guard] == Some(p)
  }

  function WithProc(s: Sys, p: nat, q: Proc): (r: Sys)
    requires p < |s.procs|
  {
    s.(procs := s.procs[p := q])
  }

  function MadeTrue(x: Cond, p: nat): (r: Cond) { x.(yes := true, sets := x.sets + 1, owes := Some(p)) }

  /** A step of fork: the new process and how far fork is. */
  function Forked(s: Sys, p: nat, child: Proc, f: Fork): (r: Sys)
    requires p < |s.procs| && !s.procs[p].fork.NoFork? && s.procs[p].fork.np < |s.procs|
  {
    s.(procs := s.procs[s.procs[p].fork.np := child][p := s.procs[p].(fork := f)])
  }

  /** The scheduler, swtch and ptable.lock. */
  datatype CpuStep =
    | SchedLock(c: nat) | SchedUnlock(c: nat) | Pick(c: nat, p: nat) | SwtchIn(c: nat) | Drop(c: nat)
    | Resume(c: nat) | PtLock(c: nat) | PtUnlock(c: nat) | SwtchOut(c: nat) | Yield(c: nat)

  ghost predicate CpuEnabled(s: Sys, e: CpuStep) {
    match e
    case SchedLock(c) => OnScheduler(s, c) && s.cpus[c].proc.None? && s.lock.None?
    case SchedUnlock(c) => OnScheduler(s, c) && s.cpus[c].proc.None? && s.lock == Some(c)
    case Pick(c, p) => OnScheduler(s, c) && s.cpus[c].proc.None? && s.lock == Some(c) && p < |s.procs| && s.procs[p].st.Runnable?
    case SwtchIn(c) => OnScheduler(s, c) && s.cpus[c].proc.Some? && s.cpus[c].proc.value < |s.procs| && s.procs[s.cpus[c].proc.value].st.Running?
    case Drop(c) => OnScheduler(s, c) && s.cpus[c].proc.Some? && s.cpus[c].proc.value < |s.procs| && !s.procs[s.cpus[c].proc.value].st.Running?
    case Resume(c) => Runs(s, c, Entering)
    case PtLock(c) => Runs(s, c, Free) && s.lock.None?
    case PtUnlock(c) => RunsAwake(s, c, Locked)
    case SwtchOut(c) => Runs(s, c, Leaving)
    case Yield(c) => RunsAwake(s, c, Locked) && NoLocks(s, Me(s, c))
  }

  ghost function CpuAfter(s: Sys, e: CpuStep): (r: Sys)
    requires CpuEnabled(s, e)
  {
    match e
    case SchedLock(c) => s.(lock := Some(c))
    case SchedUnlock(c) => s.(lock := None)
    case Pick(c, p) => s.(cpus := s.cpus[c := Cpu(Some(p), None)], procs := s.procs[p := s.procs[p].(st := Running)])
    case SwtchIn(c) =>
      var p := s.cpus[c].proc.value;
      s.(cpus := s.cpus[c := Cpu(Some(p), Some(p))], procs := s.procs[p := s.procs[p].(at := c)])
    case Drop(c) => s.(cpus := s.cpus[c := Cpu(None, None)])
    case Resume(c) => WithProc(s, Me(s, c), s.procs[Me(s, c)].(pc := Free, chan := NoChan)).(lock := None)
    case PtLock(c) => WithProc(s, Me(s, c), s.procs[Me(s, c)].(pc := Locked)).(lock := Some(c))
    case PtUnlock(c) => WithProc(s, Me(s, c), s.procs[Me(s, c)].(pc := Free)).(lock := None)
    case SwtchOut(c) => WithProc(s, Me(s, c), s.procs[Me(s, c)].(pc := Entering)).(cpus := s.cpus[c := Cpu(Some(Me(s, c)), None)])
    case Yield(c) => WithProc(s, Me(s, c), s.procs[Me(s, c)].(pc := Leaving, st := Runnable))
  }

  /** Operations on the table with ptable.lock held. */
  datatype TableStep =
    | WaitSleep(c: nat) | Exit(c: nat) | Reap(c: nat, p: nat) | Kill(c: nat, p: nat)

  ghost predicate TableEnabled(s: Sys, e: TableStep) {
    match e
    case WaitSleep(c) => RunsAwake(s, c, Locked) && NoLocks(s, Me(s, c)) && HasChild(s.procs, Me(s, c)) && !HasZombie(s.procs, Me(s, c)) && !s.procs[Me(s, c)].killed
    case Exit(c) => RunsAwake(s, c, Locked) && NoLocks(s, Me(s, c)) && Me(s, c) != s.init
                    && s.procs[Me(s, c)].fork.NoFork? && s.procs[Me(s, c)].holds == {}
    case Reap(c, p) => RunsAwake(s, c, Locked) && p < |s.procs| && IsZombieOf(s.procs[p], Me(s, c))
    case Kill(c, p) => RunsAwake(s, c, Locked) && p < |s.procs|
  }

  ghost function TableAfter(s: Sys, e: TableStep): (r: Sys)
    requires TableEnabled(s, e)
  {
    match e
    case WaitSleep(c) => WithProc(s, Me(s, c), s.procs[Me(s, c)].(pc := Leaving, st := Sleeping, chan := ProcChan(Me(s, c))))
    case Exit(c) => s.(procs := Exited(s.procs, Me(s, c), s.init))
    case Reap(c, p) => WithProc(s, p, s.procs[p].(st := Unused, stack := false, parent := None, killed := false))
    case Kill(c, p) => WithProc(s, p, s.procs[p].(killed := true, st := if s.procs[p].st.Sleeping? then Runnable else s.procs[p].st))
  }

  /** fork, which works on the new entry without the lock until the end. */
  datatype ForkStep =
    | ForkAlloc(c: nat, p: nat) | ForkStack(c: nat) | ForkFail(c: nat) | ForkAdopt(c: nat) | ForkDone(c: nat)

  ghost predicate ForkEnabled(s: Sys, e: ForkStep) {
    match e
    case ForkAlloc(c, p) => RunsAwake(s, c, Locked) && p < |s.procs| && s.procs[p].st.Unused? && s.procs[Me(s, c)].fork.NoFork?
    case ForkStack(c) => RunsAwake(s, c, Free) && s.procs[Me(s, c)].fork.Got? && s.procs[Me(s, c)].fork.np < |s.procs|
    case ForkFail(c) => RunsAwake(s, c, Free) && (s.procs[Me(s, c)].fork.Got? || s.procs[Me(s, c)].fork.Stacked?) && s.procs[Me(s, c)].fork.np < |s.procs|
    case ForkAdopt(c) => RunsAwake(s, c, Free) && s.procs[Me(s, c)].fork.Stacked? && s.procs[Me(s, c)].fork.np < |s.procs|
    case ForkDone(c) => RunsAwake(s, c, Locked) && s.procs[Me(s, c)].fork.Adopted? && s.procs[Me(s, c)].fork.np < |s.procs|
  }

  ghost function ForkAfter(s: Sys, e: ForkStep): (r: Sys)
    requires ForkEnabled(s, e)
  {
    match e
    case ForkAlloc(c, p) => s.(procs := s.procs[Me(s, c) := s.procs[Me(s, c)].(fork := Got(p))][p := s.procs[p].(st := Embryo)])
    case ForkStack(c) => Forked(s, Me(s, c), s.procs[s.procs[Me(s, c)].fork.np].(stack := true), Stacked(s.procs[Me(s, c)].fork.np))
    case ForkFail(c) => Forked(s, Me(s, c), s.procs[s.procs[Me(s, c)].fork.np].(stack := false, st := Unused), NoFork)
    case ForkAdopt(c) => Forked(s, Me(s, c), s.procs[s.procs[Me(s, c)].fork.np].(parent := Some(Me(s, c))), Adopted(s.procs[Me(s, c)].fork.np))
    case ForkDone(c) => Forked(s, Me(s, c), s.procs[s.procs[Me(s, c)].fork.np].(st := Runnable), NoFork)
  }

  /** Spin locks, sleep, wakeup and sleep locks. */
  datatype SleepStep =
    | Acquire(c: nat, l: nat) | Release(c: nat, l: nat) | Test(c: nat, k: nat) | SleepRelease(c: nat) | SleepGo(c: nat)
    | SetCond(c: nat, k: nat) | ClearCond(c: nat, k: nat) | Wakeup(c: nat, k: nat) | TakeSleeplock(c: nat, k: nat) | FreeSleeplock(c: nat, k: nat)

  ghost predicate SleepEnabled(s: Sys, e: SleepStep) {
    match e
    case Acquire(c, l) => RunsAwake(s, c, Free) && l < |s.owner| && s.owner[l].None?
    case Release(c, l) => RunsAwake(s, c, Free) && l < |s.owner| && s.owner[l] == Some(Me(s, c))
                          && (forall k :: 0 <= k < |s.conds| && s.conds[k].guard == l ==> s.conds[k].owes != Some(Me(s, c)))
    case Test(c, k) => RunsAwake(s, c, Free) && Guarded(s, Me(s, c), k) && !s.conds[k].yes
    case SleepRelease(c) => Runs(s, c, Locked) && s.procs[Me(s, c)].nap.Testing? && s.procs[Me(s, c)].nap.k < |s.conds|
                            && s.conds[s.procs[Me(s, c)].nap.k].guard < |s.owner|
                            && (forall k :: 0 <= k < |s.conds| && s.conds[k].guard == s.conds[s.procs[Me(s, c)].nap.k].guard ==> s.conds[k].owes != Some(Me(s, c)))
    case SleepGo(c) => Runs(s, c, Locked) && s.procs[Me(s, c)].nap.Window? && NoLocks(s, Me(s, c))
    case SetCond(c, k) => RunsAwake(s, c, Free) && Guarded(s, Me(s, c), k) && !s.conds[k].sleeplock
    case ClearCond(c, k) => RunsAwake(s, c, Free) && Guarded(s, Me(s, c), k) && !s.conds[k].sleeplock
    case Wakeup(c, k) => RunsAwake(s, c, Locked) && k < |s.conds|
    case TakeSleeplock(c, k) => RunsAwake(s, c, Free) && Guarded(s, Me(s, c), k) && s.conds[k].sleeplock && s.conds[k].yes
    case FreeSleeplock(c, k) => RunsAwake(s, c, Free) && Guarded(s, Me(s, c), k) && s.conds[k].sleeplock && k in s.procs[Me(s, c)].holds
  }

  ghost function SleepAfter(s: Sys, e: SleepStep): (r: Sys)
    requires SleepEnabled(s, e)
  {
    match e
    case Acquire(c, l) => s.(owner := s.owner[l := Some(Me(s, c))])
    case Release(c, l) => s.(owner := s.owner[l := None])
    case Test(c, k) => WithProc(s, Me(s, c), s.procs[Me(s, c)].(nap := Testing(k), tested := s.conds[k].sets))
    case SleepRelease(c) =>
      WithProc(s, Me(s, c), s.procs[Me(s, c)].(nap := Window(s.procs[Me(s, c)].nap.k))).(owner := s.owner[s.conds[s.procs[Me(s, c)].nap.k].guard := None])
    case SleepGo(c) =>
      WithProc(s, Me(s, c), s.procs[Me(s, c)].(nap := Awake, pc := Leaving, st := Sleeping, chan := CondChan(s.procs[Me(s, c)].nap.k)))
    case SetCond(c, k) => s.(conds := s.conds[k := MadeTrue(s.conds[k], Me(s, c))])
    case ClearCond(c, k) => s.(conds := s.conds[k := s.conds[k].(yes := false)])
    case Wakeup(c, k) => s.(procs := Woken(s.procs, CondChan(k)), conds := s.conds[k := s.conds[k].(done := s.conds[k].sets, owes := None)])
    case TakeSleeplock(c, k) =>
      WithProc(s, Me(s, c), s.procs[Me(s, c)].(holds := s.procs[Me(s, c)].holds + {k})).(conds := s.conds[k := s.conds[k].(yes := false, holder := Some(Me(s, c)))])
    case FreeSleeplock(c, k) =>
      WithProc(s, Me(s, c), s.procs[Me(s, c)].(holds := s.procs[Me(s, c)].holds - {k})).(conds := s.conds[k := MadeTrue(s.conds[k], Me(s, c)).(holder := None)])
  }

  datatype Step = ByCpu(xc: CpuStep) | ByTable(xt: TableStep) | ByFork(xf: ForkStep) | BySleep(xs: SleepStep)

  ghost predicate Enabled(s: Sys, e: Step) {
    match e
    case ByCpu(x) => CpuEnabled(s, x)
    case ByTable(x) => TableEnabled(s, x)
    case ByFork(x) => ForkEnabled(s, x)
    case BySleep(x) => SleepEnabled(s, x)
  }

  ghost function After(s: Sys, e: Step): (r: Sys)
    requires Enabled(s, e)
  {
    match e
    case ByCpu(x) => CpuAfter(s, x)
    case ByTable(x) => TableAfter(s, x)
    case ByFork(x) => ForkAfter(s, x)
    case BySleep(x) => SleepAfter(s, x)
  }
}
