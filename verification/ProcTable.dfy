/** The scans of proc.c over the process table, in place. The caller holds ptable.lock. */
module ProcTable {
  import opened Common
  import opened ProcSpec

  /** What one pass of wait's loop finds. */
  datatype Waited = Reaped(p: nat) | NoChildren | MustSleep

  class Table {
    var procs: seq<Proc>
    const init: nat

    constructor (procs: seq<Proc>, init: nat)
      ensures this.procs == procs && this.init == init
    {
      this.procs, this.init := procs, init;
    }

    method Wakeup1(ch: Chan)
      modifies this
      ensures procs == Woken(old(procs), ch)
      ensures forall i :: 0 <= i < |procs| && procs[i] != old(procs)[i] ==> old(procs)[i].st.Sleeping? && old(procs)[i].chan == ch
      ensures forall i :: 0 <= i < |procs| ==> !(procs[i].st.Sleeping? && procs[i].chan == ch)
    {
      var i := 0;
      while i < |procs|
        invariant 0 <= i <= |procs| == |old(procs)|
        invariant forall j :: 0 <= j < i ==> procs[j] == WokenOne(old(procs)[j], ch)
        invariant forall j :: i <= j < |procs| ==> procs[j] == old(procs)[j]
      {
        if procs[i].st.Sleeping? && procs[i].chan == ch {
          procs := procs[i := procs[i].(st := Runnable)];
        }
        i := i + 1;
      }
    }

    /** exit's loop over the children of q. */
    method AbandonChildren(q: nat)
      modifies this
      ensures procs == Abandoned(old(procs), q, init)
    {
      ghost var found := false;
      var i := 0;
      while i < |procs|
        invariant 0 <= i <= |procs| == |old(procs)|
        invariant forall j :: 0 <= j < i ==> procs[j] == Inherited(old(procs)[j], q, init, found)
        invariant forall j :: i <= j < |procs| ==> procs[j] == if found then WokenOne(old(procs)[j], ProcChan(init)) else old(procs)[j]
        invariant found <==> exists j :: 0 <= j < i && IsZombieOf(old(procs)[j], q)
      {
        if procs[i].parent == Some(q) {
          procs := procs[i := procs[i].(parent := Some(init))];
          if procs[i].st.Zombie? {
            assert IsZombieOf(old(procs)[i], q);
            Wakeup1(ProcChan(init));
            found := true;
          }
        }
        i := i + 1;
      }
      assert procs == Abandoned(old(procs), q, init);
    }

    /** exit, with ptable.lock held, up to the call of sched. */
    method Exit(p: nat)
      requires p < |procs|
      modifies this
      ensures procs == Exited(old(procs), p, init)
    {
      if procs[p].parent.Some? {
        Wakeup1(ProcChan(procs[p].parent.value));
      }
      AbandonChildren(p);
      procs := procs[p := procs[p].(st := Zombie, pc := Leaving)];
    }

    /** One pass of wait for the children of q. */
    method Wait(q: nat) returns (r: Waited)
      requires q < |procs|
      modifies this
      ensures WaitDoes(old(procs), q, r, procs)
    {
      var havekids := false;
      var i := 0;
      while i < |procs|
        invariant 0 <= i <= |procs| && procs == old(procs)
        invariant havekids <==> exists j :: 0 <= j < i && procs[j].parent == Some(q)
        invariant forall j :: 0 <= j < i ==> !IsZombieOf(procs[j], q)
      {
        if procs[i].parent == Some(q) {
          havekids := true;
          if procs[i].st.Zombie? {
            assert IsZombieOf(old(procs)[i], q);
            procs := procs[i := procs[i].(st := Unused, stack := false, parent := None, killed := false)];
            return Reaped(i);
          }
        }
        i := i + 1;
      }
      if !havekids || procs[q].killed {
        return NoChildren;
      }
      return MustSleep;
    }

    /** allocproc's search: the first unused entry becomes an embryo. */
    method Allocproc() returns (r: Option<nat>)
      modifies this
      ensures AllocDoes(old(procs), r, procs)
    {
      var i := 0;
      while i < |procs|
        invariant 0 <= i <= |procs| && procs == old(procs)
        invariant forall j :: 0 <= j < i ==> !procs[j].st.Unused?
      {
        if procs[i].st.Unused? {
          procs := procs[i := procs[i].(st := Embryo)];
          return Some(i);
        }
        i := i + 1;
      }
      return None;
    }

    /** kill: the first entry with this id is marked, and woken if it sleeps; pids is the column of ids. */
    method Kill(pids: seq<int>, pid: int) returns (r: int)
      requires |pids| == |procs|
      modifies this
      ensures KillDoes(old(procs), pids, pid, r, procs)
    {
      var i := 0;
      while i < |procs|
        invariant 0 <= i <= |procs| && procs == old(procs)
        invariant forall j :: 0 <= j < i ==> pids[j] != pid
      {
        if pids[i] == pid {
          procs := procs[i := procs[i].(killed := true)];
          if procs[i].st.Sleeping? {
            procs := procs[i := procs[i].(st := Runnable)];
          }
          assert Killed(old(procs), pids, pid, i, procs);
          return 0;
        }
        i := i + 1;
      }
      return -1;
    }

    /** The scheduler's search from entry i on: the next runnable process starts running. */
    method Schedule(i: nat) returns (r: Option<nat>)
      requires i <= |procs|
      modifies this
      ensures ScheduleDoes(old(procs), i, r, procs)
    {
      var p := i;
      while p < |procs|
        invariant i <= p <= |procs| && procs == old(procs)
        invariant forall j :: i <= j < p ==> !procs[j].st.Runnable?
      {
        if procs[p].st.Runnable? {
          procs := procs[p := procs[p].(st := Running)];
          return Some(p);
        }
        p := p + 1;
      }
      return None;
    }
  }

  /** An entry the loop of exit has passed. */
  function Inherited(p: Proc, q: nat, init: nat, found: bool): (r: Proc) {
    if found then WokenOne(Orphan(p, q, init), ProcChan(init)) else Orphan(p, q, init)
  }

  /** What one pass of wait by q does to the table: it clears the first zombie child it comes to,
      and otherwise leaves the table alone. */
  ghost predicate WaitDoes(procs: seq<Proc>, q: nat, r: Waited, after: seq<Proc>)
    requires q < |procs|
  {
    match r
    case Reaped(p) =>
      && p < |procs| && IsZombieOf(procs[p], q) && (forall j :: 0 <= j < p ==> !IsZombieOf(procs[j], q))
      && after == procs[p := procs[p].(st := Unused, stack := false, parent := None, killed := false)]
    case NoChildren => after == procs && !HasZombie(procs, q) && (!HasChild(procs, q) || procs[q].killed)
    case MustSleep => after == procs && !HasZombie(procs, q) && HasChild(procs, q) && !procs[q].killed
  }

  /** The first unused entry, if there is one, becomes an embryo. */
  ghost predicate AllocDoes(procs: seq<Proc>, r: Option<nat>, after: seq<Proc>) {
    match r
    case None => after == procs && forall j :: 0 <= j < |procs| ==> !procs[j].st.Unused?
    case Some(p) =>
      && p < |procs| && procs[p].st.Unused? && (forall j :: 0 <= j < p ==> !procs[j].st.Unused?)
      && after == procs[p := procs[p].(st := Embryo)]
  }

  /** The first runnable entry from i on, if there is one, starts running. */
  ghost predicate ScheduleDoes(procs: seq<Proc>, i: nat, r: Option<nat>, after: seq<Proc>) {
    match r
    case None => after == procs && forall j :: i <= j < |procs| ==> !procs[j].st.Runnable?
    case Some(p) =>
      && i <= p < |procs| && procs[p].st.Runnable? && (forall j :: i <= j < p ==> !procs[j].st.Runnable?)
      && after == procs[p := procs[p].(st := Running)]
  }

  ghost predicate Killed(procs: seq<Proc>, pids: seq<int>, pid: int, k: nat, after: seq<Proc>)
    requires |pids| == |procs|
  {
    && k < |procs| && pids[k] == pid && (forall j :: 0 <= j < k ==> pids[j] != pid)
    && |after| == |procs| && after == procs[k := after[k]] && after[k].killed && !after[k].st.Sleeping?
    && after[k] == procs[k].(killed := true, st := after[k].st) && (!procs[k].st.Sleeping? ==> after[k].st == procs[k].st)
    && (procs[k].st.Sleeping? ==> after[k].st.Runnable?)
  }

  /** The first process with the id, if there is one, is marked and no longer asleep. */
  ghost predicate KillDoes(procs: seq<Proc>, pids: seq<int>, pid: int, r: int, after: seq<Proc>)
    requires |pids| == |procs|
  {
    && (r == 0 || r == -1) && (r == 0 <==> pid in pids)
    && (r == 0 ==> exists k: nat :: Killed(procs, pids, pid, k, after)) && (r == -1 ==> after == procs)
  }

  /** kill is the step of the system for the entry it finds, or none. */
  lemma KillIsStep(s: Sys, c: nat, pids: seq<int>, pid: int, r: int, after: seq<Proc>)
    requires RunsAwake(s, c, Locked) && |pids| == |s.procs| && KillDoes(s.procs, pids, pid, r, after)
    ensures if r == 0 then exists k: nat :: TableEnabled(s, TableStep.Kill(c, k)) && pids[k] == pid && TableAfter(s, TableStep.Kill(c, k)).procs == after
            else after == s.procs && pid !in pids
  {
    if r == 0 {
      var k: nat :| Killed(s.procs, pids, pid, k, after);
      assert TableEnabled(s, TableStep.Kill(c, k));
      assert TableAfter(s, TableStep.Kill(c, k)).procs == after;
    }
  }

  /** The scheduler's search finds exactly the processes that the system can switch to. */
  lemma ScheduleIsStep(s: Sys, c: nat, i: nat, r: Option<nat>, after: seq<Proc>)
    requires OnScheduler(s, c) && s.cpus[c].proc.None? && s.lock == Some(c) && ScheduleDoes(s.procs, i, r, after)
    ensures r.Some? ==> CpuEnabled(s, Pick(c, r.value)) && CpuAfter(s, Pick(c, r.value)).procs == after
    ensures r.Some? <==> exists p: nat :: i <= p && CpuEnabled(s, Pick(c, p))
    ensures r.None? ==> after == s.procs
  {
    if p: nat :| i <= p && CpuEnabled(s, Pick(c, p)) {
      assert s.procs[p].st.Runnable?;
    }
  }

  /** allocproc is fork's first step, and finds an entry exactly if that step is possible. */
  lemma AllocIsStep(s: Sys, c: nat, r: Option<nat>, after: seq<Proc>)
    requires RunsAwake(s, c, Locked) && s.procs[Me(s, c)].fork.NoFork? && !s.procs[Me(s, c)].st.Unused? && AllocDoes(s.procs, r, after)
    ensures r.Some? ==> ForkEnabled(s, ForkAlloc(c, r.value))
    ensures r.Some? ==> ForkAfter(s, ForkAlloc(c, r.value)).procs == after[Me(s, c) := s.procs[Me(s, c)].(fork := Got(r.value))]
    ensures r.Some? <==> exists p: nat :: ForkEnabled(s, ForkAlloc(c, p))
  {
    if p: nat :| ForkEnabled(s, ForkAlloc(c, p)) {
      assert s.procs[p].st.Unused?;
    }
  }

  /** One pass of wait is a step of the system or none: when it reaps, the step of that name is
      possible and leaves the same table; it goes to sleep exactly when that step is possible; and it
      gives up exactly when neither is. */
  lemma WaitIsStep(s: Sys, c: nat, r: Waited, after: seq<Proc>)
    requires RunsAwake(s, c, Locked) && NoLocks(s, Me(s, c)) && Me(s, c) < |s.procs| && WaitDoes(s.procs, Me(s, c), r, after)
    ensures r.Reaped? ==> TableEnabled(s, Reap(c, r.p)) && TableAfter(s, Reap(c, r.p)).procs == after
    ensures r.Reaped? <==> exists p: nat :: TableEnabled(s, Reap(c, p))
    ensures r.MustSleep? <==> TableEnabled(s, WaitSleep(c))
    ensures !r.Reaped? ==> after == s.procs
  {
    if p: nat :| TableEnabled(s, Reap(c, p)) {
      assert IsZombieOf(s.procs[p], Me(s, c));
    }
  }
}
