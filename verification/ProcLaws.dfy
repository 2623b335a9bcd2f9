/** What a step of the process system does to an entry of the table that it need not name: which
    steps wake a sleeper, which move an entry from one state to another, who is a process's parent
    and how long a kill is remembered. */
module ProcLaws {
  import opened Common
  import opened ProcSpec
  import opened ProcSafe
  import opened ProcRun

  /** The step is taken by the kernel thread of process p. */
  ghost predicate By(s: Sys, c: nat, p: nat) { c < |s.cpus| && s.cpus[c].on == Some(p) }

  /** The step that would wake p if it is asleep: the wakeup of its channel, a kill of p, or the exit of
      a process whose parent or whose heir is waiting on the channel. */
  ghost predicate Wakes(s: Sys, e: Step, p: nat)
    requires Enabled(s, e) && p < |s.procs|
  {
    match e
    case BySleep(Wakeup(_, k)) => s.procs[p].chan == CondChan(k)
    case ByTable(Kill(_, q)) => q == p
    case ByTable(Exit(c)) =>
      || (s.procs[Me(s, c)].parent.Some? && s.procs[p].chan == ProcChan(s.procs[Me(s, c)].parent.value))
      || (s.procs[p].chan == ProcChan(s.init) && HasZombie(s.procs, Me(s, c)))
    case _ => false
  }

  /** The arrows between the states of proc.h and the step behind each. */
  ghost predicate Moves(s: Sys, e: Step, p: nat, from: St, to: St)
    requires Enabled(s, e) && p < |s.procs|
  {
    match from
    case Unused => to.Embryo? && e.ByFork? && e.xf.ForkAlloc? && e.xf.p == p
    case Embryo => e.ByFork? && ((to.Runnable? && e.xf.ForkDone?) || (to.Unused? && e.xf.ForkFail?)) && Child(s, e.xf) == p
    case Runnable => to.Running? && e.ByCpu? && e.xc.Pick? && e.xc.p == p
    case Running =>
      || (to.Runnable? && e.ByCpu? && e.xc.Yield? && By(s, e.xc.c, p))
      || (to.Sleeping? && e.ByTable? && e.xt.WaitSleep? && By(s, e.xt.c, p))
      || (to.Sleeping? && e.BySleep? && e.xs.SleepGo? && By(s, e.xs.c, p))
      || (to.Zombie? && e.ByTable? && e.xt.Exit? && By(s, e.xt.c, p))
    case Sleeping => to.Runnable? && Wakes(s, e, p)
    case Zombie => to.Unused? && e.ByTable? && e.xt.Reap? && e.xt.p == p && s.procs[p].parent.Some? && By(s, e.xt.c, s.procs[p].parent.value)
  }

  /** Entry p moves along an arrow, or stays where it is and no arrow leads away from it. */
  ghost predicate MovesTo(s: Sys, e: Step, p: nat, to: St)
    requires Enabled(s, e) && p < |s.procs|
  {
    Moves(s, e, p, s.procs[p].st, to) || (to == s.procs[p].st && forall x :: !Moves(s, e, p, s.procs[p].st, x))
  }

  lemma CpuMoves(s: Sys, e: CpuStep, p: nat)
    requires CpuInv(s) && CpuEnabled(s, e) && p < |s.procs|
    ensures |CpuAfter(s, e).procs| == |s.procs| && MovesTo(s, ByCpu(e), p, CpuAfter(s, e).procs[p].st)
  {
    if s.cpus[e.c].on.Some? {
      MeOk(s, e.c);
    }
  }

  lemma ForkMoves(s: Sys, e: ForkStep, p: nat)
    requires CpuInv(s) && ForkInv(s) && ForkEnabled(s, e) && p < |s.procs|
    ensures |ForkAfter(s, e).procs| == |s.procs| && MovesTo(s, ByFork(e), p, ForkAfter(s, e).procs[p].st)
  {
    ForkTouches(s, e);
    ForkEffect(s, e);
    hide ForkAfter, CpuInv, ForkInv;
  }

  lemma SleepMoves(s: Sys, e: SleepStep, p: nat)
    requires CpuInv(s) && SleepEnabled(s, e) && p < |s.procs|
    ensures |SleepAfter(s, e).procs| == |s.procs| && MovesTo(s, BySleep(e), p, SleepAfter(s, e).procs[p].st)
  {
    MeOk(s, e.c);
  }

  /** The loops of exit wake exactly these sleepers. */
  lemma ExitWakesIff(procs: seq<Proc>, p: nat, init: nat, i: nat)
    requires p < |procs| && i < |procs| && i != p
    ensures Exited(procs, p, init)[i].st ==
      if procs[i].st.Sleeping? && ((procs[p].parent.Some? && procs[i].chan == ProcChan(procs[p].parent.value))
                                   || (procs[i].chan == ProcChan(init) && HasZombie(procs, p)))
      then Runnable else procs[i].st
  {
    var w := if procs[p].parent.Some? then Woken(procs, ProcChan(procs[p].parent.value)) else procs;
    ZombiesStay(procs, w, p);
    var o := Orphaned(w, p, init);
    assert o[i] == Orphan(w[i], p, init);
  }

  /** Waking makes no zombie and clears none. */
  lemma ZombiesStay(procs: seq<Proc>, w: seq<Proc>, p: nat)
    requires |w| == |procs|
    requires w == procs || exists ch :: w == Woken(procs, ch)
    ensures HasZombie(w, p) <==> HasZombie(procs, p)
  {
    if w != procs {
      var ch :| w == Woken(procs, ch);
      assert forall i :: 0 <= i < |procs| ==> (IsZombieOf(w[i], p) <==> IsZombieOf(procs[i], p));
    }
  }

  lemma TableMoves(s: Sys, e: TableStep, p: nat)
    requires CpuInv(s) && TableEnabled(s, e) && p < |s.procs|
    ensures |TableAfter(s, e).procs| == |s.procs| && MovesTo(s, ByTable(e), p, TableAfter(s, e).procs[p].st)
  {
    hide Exited;
    MeOk(s, e.c);
    if e.Exit? {
      ExitedAt(s.procs, Me(s, e.c), s.init, p);
      if p != Me(s, e.c) {
        ExitWakesIff(s.procs, Me(s, e.c), s.init, p);
      }
    }
  }

  lemma StepMoves(s: Sys, e: Step, p: nat)
    requires Inv(s) && Enabled(s, e) && p < |s.procs|
    ensures |After(s, e).procs| == |s.procs| && MovesTo(s, e, p, After(s, e).procs[p].st)
  {
    hide CpuInv, ForkInv, ParentInv, CpuEnabled, ForkEnabled, TableEnabled, SleepEnabled, MovesTo;
    match e {
      case ByCpu(x) => CpuMoves(s, x, p);
      case ByTable(x) => TableMoves(s, x, p);
      case ByFork(x) => ForkMoves(s, x, p);
      case BySleep(x) => SleepMoves(s, x, p);
    }
  }

  /** The life of a table entry: in every run an entry changes its state exactly along the arrows of
      Moves, so nothing but its own yield, sleep, wait and exit stops a running process, and nothing but
      the scheduler starts a runnable one. */
  lemma RunStates(ss: seq<Sys>, es: seq<Step>, n: nat, p: nat)
    requires IsRun(ss, es) && n < |es| && p < |ss[n].procs|
    ensures Enabled(ss[n], es[n]) && |ss[n + 1].procs| == |ss[n].procs|
    ensures forall x :: Moves(ss[n], es[n], p, ss[n].procs[p].st, x) ==> x == ss[n + 1].procs[p].st
    ensures ss[n + 1].procs[p].st != ss[n].procs[p].st ==> Moves(ss[n], es[n], p, ss[n].procs[p].st, ss[n + 1].procs[p].st)
  {
    hide Inv;
    RunKeeps(ss, es, n);
    StepMoves(ss[n], es[n], p);
    forall x | Moves(ss[n], es[n], p, ss[n].procs[p].st, x) ensures x == ss[n + 1].procs[p].st {}
  }

  // ---------------------------------------------------------------- channel, parent and kill

  /** The parent of p after step e: init when the parent exits, nobody once p is reaped, and the
      process that forked p from the moment fork sets it. */
  ghost function ParentAfter(s: Sys, e: Step, p: nat): (r: Option<nat>)
    requires Enabled(s, e) && p < |s.procs|
  {
    if e.ByTable? && e.xt.Exit? && s.procs[p].parent == Some(Me(s, e.xt.c)) then Some(s.init)
    else if e.ByTable? && e.xt.Reap? && e.xt.p == p then None
    else if e.ByFork? && e.xf.ForkAdopt? && Child(s, e.xf) == p then Some(Me(s, e.xf.c))
    else s.procs[p].parent
  }

  ghost predicate IsKill(e: Step, p: nat) { e.ByTable? && e.xt.Kill? && e.xt.p == p }

  ghost predicate IsReap(e: Step, p: nat) { e.ByTable? && e.xt.Reap? && e.xt.p == p }

  ghost predicate Keeps(s: Sys, e: Step, p: nat, q: Proc)
    requires Enabled(s, e) && p < |s.procs|
  {
    && (s.procs[p].st.Sleeping? ==> q.chan == s.procs[p].chan)
    && q.parent == ParentAfter(s, e, p)
    && (q.killed <==> (s.procs[p].killed || IsKill(e, p)) && !IsReap(e, p))
  }

  lemma CpuKeepsRest(s: Sys, e: CpuStep, p: nat)
    requires CpuInv(s) && CpuEnabled(s, e) && p < |s.procs|
    ensures |CpuAfter(s, e).procs| == |s.procs| && Keeps(s, ByCpu(e), p, CpuAfter(s, e).procs[p])
  {
    if s.cpus[e.c].on.Some? {
      MeOk(s, e.c);
    }
  }

  lemma ForkKeepsRest(s: Sys, e: ForkStep, p: nat)
    requires CpuInv(s) && ForkInv(s) && ForkEnabled(s, e) && p < |s.procs|
    ensures |ForkAfter(s, e).procs| == |s.procs| && Keeps(s, ByFork(e), p, ForkAfter(s, e).procs[p])
  {
    ForkTouches(s, e);
    hide CpuInv, ForkInv;
  }

  lemma SleepKeepsRest(s: Sys, e: SleepStep, p: nat)
    requires CpuInv(s) && SleepEnabled(s, e) && p < |s.procs|
    ensures |SleepAfter(s, e).procs| == |s.procs| && Keeps(s, BySleep(e), p, SleepAfter(s, e).procs[p])
  {
    MeOk(s, e.c);
  }

  lemma TableKeepsRest(s: Sys, e: TableStep, p: nat)
    requires CpuInv(s) && TableEnabled(s, e) && p < |s.procs|
    ensures |TableAfter(s, e).procs| == |s.procs| && Keeps(s, ByTable(e), p, TableAfter(s, e).procs[p])
  {
    hide Exited;
    MeOk(s, e.c);
    if e.Exit? {
      ExitedAt(s.procs, Me(s, e.c), s.init, p);
    }
  }

  lemma StepKeepsRest(s: Sys, e: Step, p: nat)
    requires Inv(s) && Enabled(s, e) && p < |s.procs|
    ensures |After(s, e).procs| == |s.procs| && Keeps(s, e, p, After(s, e).procs[p])
  {
    hide CpuInv, ForkInv, ParentInv, CpuEnabled, ForkEnabled, TableEnabled, SleepEnabled, Keeps;
    match e {
      case ByCpu(x) => CpuKeepsRest(s, x, p);
      case ByTable(x) => TableKeepsRest(s, x, p);
      case ByFork(x) => ForkKeepsRest(s, x, p);
      case BySleep(x) => SleepKeepsRest(s, x, p);
    }
  }

  ghost predicate AsleepOn(s: Sys, p: nat, ch: Chan) { p < |s.procs| && s.procs[p].st.Sleeping? && s.procs[p].chan == ch }

  /** No wakeup out of turn: in every run a process asleep on a channel stays asleep on it until a step
      that wakes it, and every such step makes it runnable. */
  lemma RunSleeper(ss: seq<Sys>, es: seq<Step>, n: nat, p: nat, ch: Chan)
    requires IsRun(ss, es) && n < |es| && AsleepOn(ss[n], p, ch)
    ensures Enabled(ss[n], es[n]) && p < |ss[n + 1].procs|
    ensures if Wakes(ss[n], es[n], p) then ss[n + 1].procs[p].st.Runnable? else AsleepOn(ss[n + 1], p, ch)
  {
    hide Inv, Wakes;
    RunKeeps(ss, es, n);
    StepMoves(ss[n], es[n], p);
    StepKeepsRest(ss[n], es[n], p);
    assert Wakes(ss[n], es[n], p) ==> Moves(ss[n], es[n], p, Sleeping, Runnable);
  }

  /** The same over any stretch of a run. */
  lemma {:induction false} RunSleepsOn(ss: seq<Sys>, es: seq<Step>, i: nat, n: nat, p: nat, ch: Chan)
    requires IsRun(ss, es) && i <= n < |ss| && AsleepOn(ss[i], p, ch)
    requires forall j: nat :: i <= j < n ==> Enabled(ss[j], es[j]) && (p < |ss[j].procs| ==> !Wakes(ss[j], es[j], p))
    ensures AsleepOn(ss[n], p, ch)
    decreases n - i
  {
    hide Init, After, Wakes, Enabled, AsleepOn;
    if i < n {
      RunSleepsOn(ss, es, i, n - 1, p, ch);
      AsleepIn(ss[n - 1], p, ch);
      RunSleeper(ss, es, n - 1, p, ch);
    }
  }

  lemma AsleepIn(s: Sys, p: nat, ch: Chan)
    requires AsleepOn(s, p, ch)
    ensures p < |s.procs|
  {}

  /** In every run a process is marked killed exactly from a kill of it until it is reaped, and a kill
      leaves it awake. */
  lemma RunKilled(ss: seq<Sys>, es: seq<Step>, n: nat, p: nat)
    requires IsRun(ss, es) && n < |es| && p < |ss[n].procs|
    ensures p < |ss[n + 1].procs|
    ensures ss[n + 1].procs[p].killed <==> (ss[n].procs[p].killed || IsKill(es[n], p)) && !IsReap(es[n], p)
    ensures IsKill(es[n], p) ==> !ss[n + 1].procs[p].st.Sleeping?
  {
    hide Inv;
    RunKeeps(ss, es, n);
    StepKeepsRest(ss[n], es[n], p);
    StepMoves(ss[n], es[n], p);
    assert IsKill(es[n], p) ==> Moves(ss[n], es[n], p, Sleeping, Runnable);
  }

  /** In every run a process changes its parent only when fork sets it, when the parent exits and
      leaves it to init, and when it is reaped. */
  lemma RunParent(ss: seq<Sys>, es: seq<Step>, n: nat, p: nat)
    requires IsRun(ss, es) && n < |es| && p < |ss[n].procs|
    ensures Enabled(ss[n], es[n]) && p < |ss[n + 1].procs| && ss[n + 1].procs[p].parent == ParentAfter(ss[n], es[n], p)
  {
    hide Inv;
    RunKeeps(ss, es, n);
    StepKeepsRest(ss[n], es[n], p);
  }

  // ---------------------------------------------------------------- what a process sleeps on

  /** p is about to sleep on condition k, if on any. */
  predicate Bound(p: Proc, k: nat) { p.nap.Awake? || p.nap.k == k }

  lemma CpuBound(s: Sys, e: CpuStep, p: nat, k: nat)
    requires CpuEnabled(s, e) && p < |s.procs| && Bound(s.procs[p], k)
    ensures |CpuAfter(s, e).procs| == |s.procs| && Bound(CpuAfter(s, e).procs[p], k)
  {}

  lemma TableBound(s: Sys, e: TableStep, p: nat, k: nat)
    requires CpuInv(s) && TableEnabled(s, e) && p < |s.procs| && Bound(s.procs[p], k)
    ensures |TableAfter(s, e).procs| == |s.procs| && Bound(TableAfter(s, e).procs[p], k)
  {
    hide Exited;
    MeOk(s, e.c);
    if e.Exit? {
      ExitedAt(s.procs, Me(s, e.c), s.init, p);
    }
  }

  lemma ForkBound(s: Sys, e: ForkStep, p: nat, k: nat)
    requires CpuInv(s) && ForkInv(s) && ForkEnabled(s, e) && p < |s.procs| && Bound(s.procs[p], k)
    ensures |ForkAfter(s, e).procs| == |s.procs| && Bound(ForkAfter(s, e).procs[p], k)
  {
    ForkTouches(s, e);
    hide CpuInv, ForkInv;
  }

  lemma SleepBound(s: Sys, e: SleepStep, p: nat, k: nat)
    requires CpuInv(s) && SleepEnabled(s, e) && p < |s.procs|
    requires if TestsBy(s, BySleep(e), p) then e.k == k else Bound(s.procs[p], k)
    ensures |SleepAfter(s, e).procs| == |s.procs| && Bound(SleepAfter(s, e).procs[p], k)
  {
    MeOk(s, e.c);
  }

  lemma StepBound(s: Sys, e: Step, p: nat, k: nat)
    requires Inv(s) && Enabled(s, e) && p < |s.procs|
    requires if TestsBy(s, e, p) then e.xs.k == k else Bound(s.procs[p], k)
    ensures |After(s, e).procs| == |s.procs| && Bound(After(s, e).procs[p], k)
  {
    hide CpuInv, ForkInv, ParentInv, CpuEnabled, ForkEnabled, TableEnabled, SleepEnabled, Bound;
    match e {
      case ByCpu(x) => CpuBound(s, x, p, k);
      case ByTable(x) => TableBound(s, x, p, k);
      case ByFork(x) => ForkBound(s, x, p, k);
      case BySleep(x) => SleepBound(s, x, p, k);
    }
  }

  lemma {:induction false} RunBound(ss: seq<Sys>, es: seq<Step>, i: nat, n: nat, p: nat, k: nat)
    requires IsRun(ss, es) && i < n < |ss| && p < |ss[i].procs| && TestsBy(ss[i], es[i], p) && es[i].xs.k == k
    requires forall j: nat :: i < j < n ==> !TestsBy(ss[j], es[j], p)
    ensures p < |ss[n].procs| && Bound(ss[n].procs[p], k)
    decreases n - i
  {
    hide Inv, Init, Enabled, After, TestsBy, Bound;
    if n > i + 1 {
      RunBound(ss, es, i, n - 1, p, k);
    }
    RunKeeps(ss, es, n - 1);
    StepBound(ss[n - 1], es[n - 1], p, k);
  }

  ghost predicate GoesToSleep(s: Sys, e: Step, p: nat) { e.BySleep? && e.xs.SleepGo? && By(s, e.xs.c, p) }

  /** sleep waits for what was tested: in every run a process that found condition k false and tests
      nothing else falls asleep on k's channel when it goes to sleep, whatever happens in between. */
  lemma RunSleepsOnTested(ss: seq<Sys>, es: seq<Step>, i: nat, n: nat, p: nat, k: nat)
    requires IsRun(ss, es) && i < n < |es| && p < |ss[i].procs| && TestsBy(ss[i], es[i], p) && es[i].xs.k == k
    requires (forall j: nat :: i < j < n ==> !TestsBy(ss[j], es[j], p)) && GoesToSleep(ss[n], es[n], p)
    ensures AsleepOn(ss[n + 1], p, CondChan(k))
  {
    RunBound(ss, es, i, n, p, k);
    RunKeeps(ss, es, n);
    assert Enabled(ss[n], es[n]) && ss[n + 1] == After(ss[n], es[n]);
    hide IsRun, Inv;
  }
}
