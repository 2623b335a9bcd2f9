/** What the size of the log area decides: whether log_write's panics can be reached by operations
    that keep to their reservation, whether the list can outgrow the area, and whether a commit can
    find no free buffer. */
module LogBudget {
  import opened Blocks
  import opened Common
  import opened LogSpec
  import opened LogSystem

  /** The k-th block after the log area. */
  function Home(g: Area, k: nat): (b: nat) { g.start + g.size + k }

  function Homes(g: Area, k: nat): (bs: seq<nat>)
    ensures |bs| == k && forall i :: 0 <= i < k ==> bs[i] == Home(g, i)
  {
    seq(k, i requires 0 <= i < k => Home(g, i))
  }

  /** How many of k blocks, dealt out in turn, fall to operation j of three. */
  function Share(k: nat, j: nat): (n: nat)
    requires j < 3
  {
    (k + 2 - j) / 3
  }

  /** Three operations have logged the first k home blocks between them; those in who are past
      log_write's tests. */
  ghost predicate Filled(g: Area, init: Disk, s: State, k: nat, who: set<nat>) {
    && s.mode.Up? && s.disk == init && s.mem.outstanding == 3 && !s.mem.committing && s.mem.listed == Homes(g, k)
    && |s.ops| == 3
    && (forall j: nat :: j < 3 ==> !s.ops[j].ended && |s.ops[j].dirty| == Share(k, j) && (s.ops[j].passed <==> j in who))
    && (forall j: nat :: j < 3 ==> forall b :: b in s.ops[j].dirty ==> b < Home(g, k))
  }

  ghost predicate Room(g: Area, init: Disk) { EmptyLog(g, init) && Home(g, LOGSIZE) <= |init| <= UINT }

  /** A run in which no two operations are inside log_write at once. */
  ghost predicate SerialRun(g: Area, init: Disk, states: seq<State>, steps: seq<Step>) {
    Run(g, init, states, steps) && forall j :: 0 <= j < |states| ==> Alone(states[j])
  }

  lemma ThreeBegin(g: Area, init: Disk) returns (states: seq<State>, steps: seq<Step>)
    requires Room(g, init)
    ensures SerialRun(g, init, states, steps) && Filled(g, init, states[|states| - 1], 0, {})
  {
    hide EmptyLog, Next, Alone;
    var o := Op({}, false, false);
    var s0 := State(init, EMPTY, Up, [], [], [], 0);
    NonePassed(s0);
    states, steps := [s0], [];
    var s1 := s0.(mem := EMPTY.(outstanding := 1), ops := [o]);
    states, steps := OneBegins(g, init, states, steps, s1);
    var s2 := s1.(mem := EMPTY.(outstanding := 2), ops := [o, o]);
    states, steps := OneBegins(g, init, states, steps, s2);
    var s3 := s2.(mem := EMPTY.(outstanding := 3), ops := [o, o, o]);
    states, steps := OneBegins(g, init, states, steps, s3);
  }

  lemma NonePassed(s: State)
    requires forall p :: 0 <= p < |s.ops| ==> !s.ops[p].passed
    ensures Alone(s)
  {}

  lemma OneBegins(g: Area, init: Disk, states: seq<State>, steps: seq<Step>, t: State) returns (ss: seq<State>, es: seq<Step>)
    requires SerialRun(g, init, states, steps)
    requires var s := states[|states| - 1];
      && s.mode.Up? && MayBegin(s.mem) && (forall p :: 0 <= p < |t.ops| ==> !t.ops[p].passed)
      && t == s.(mem := s.mem.(outstanding := s.mem.outstanding + 1), ops := s.ops + [Op({}, false, false)])
    ensures SerialRun(g, init, ss, es) && ss == states + [t]
  {
    BeginStep(g, states[|states| - 1], t);
    NonePassed(t);
    RunOn(g, init, states, steps, Begin, t);
    ss, es := states + [t], steps + [Begin];
  }

  lemma BeginStep(g: Area, s: State, t: State)
    requires s.mode.Up? && MayBegin(s.mem)
    requires t == s.(mem := s.mem.(outstanding := s.mem.outstanding + 1), ops := s.ops + [Op({}, false, false)])
    ensures Next(g, s, Begin, t)
  {}

  function TestOne(s: State, p: nat): (t: State)
    requires p < |s.ops|
  {
    s.(ops := s.ops[p := s.ops[p].(passed := true)])
  }

  lemma TestStep(g: Area, init: Disk, s: State, k: nat, who: set<nat>, p: nat)
    requires Filled(g, init, s, k, who) && k < LOGSIZE && k < g.size - 1 && p < 3 && p !in who
    ensures Filled(g, init, TestOne(s, p), k, who + {p}) && Next(g, s, TestWrite(p), TestOne(s, p))
  {}

  /** One more block for the operation whose turn it is. */
  function WriteOne(g: Area, s: State, k: nat): (t: State)
    requires k % 3 < |s.ops|
  {
    var p := k % 3;
    s.(mem := Logged(s.mem, Home(g, k), ZeroBlock()),
       ops := s.ops[p := Op(s.ops[p].dirty + {Home(g, k)}, false, false)],
       hist := s.hist + [Write(Home(g, k), ZeroBlock())], who := s.who + [p])
  }

  lemma WriteStep(g: Area, init: Disk, s: State, k: nat, who: set<nat>)
    requires Room(g, init) && Filled(g, init, s, k, who) && k < LOGSIZE && k % 3 in who
    ensures Filled(g, init, WriteOne(g, s, k), k + 1, who - {k % 3})
    ensures Next(g, s, LogWrite(k % 3, Write(Home(g, k), ZeroBlock())), WriteOne(g, s, k))
  {
    hide EmptyLog, Homes, Share;
    var p, b := k % 3, Home(g, k);
    assert b !in s.mem.listed && b !in s.ops[p].dirty;
    assert Homes(g, k + 1) == Homes(g, k) + [b];
    Shares(k);
  }

  lemma Shares(k: nat)
    ensures Share(k, k % 3) == k / 3
    ensures forall j: nat :: j < 3 ==> Share(k + 1, j) == if j == k % 3 then Share(k, j) + 1 else Share(k, j)
  {}

  lemma RunOn(g: Area, init: Disk, states: seq<State>, steps: seq<Step>, step: Step, t: State)
    requires Run(g, init, states, steps) && Next(g, states[|states| - 1], step, t)
    ensures Run(g, init, states + [t], steps + [step])
    ensures SerialRun(g, init, states, steps) && Alone(t) ==> SerialRun(g, init, states + [t], steps + [step])
  {
    hide Next, Init, Alone;
    var ss, es := states + [t], steps + [step];
    forall i | 0 <= i < |es| ensures Next(g, ss[i], es[i], ss[i + 1]) {
      if i < |steps| {
        assert Next(g, states[i], steps[i], states[i + 1]);
      }
    }
  }

  lemma FilledAlone(g: Area, init: Disk, s: State, k: nat, who: set<nat>)
    requires Filled(g, init, s, k, who)
    ensures |s.ops| == 3 && (|who| <= 1 ==> Alone(s))
  {
    if |who| <= 1 {
      forall p: nat, q: nat | Active(s, p) && Active(s, q) && s.ops[p].passed && s.ops[q].passed ensures p == q {
        if p != q {
          assert {p, q} <= who;
          Smaller({p, q}, who);
        }
      }
    }
  }

  lemma {:induction false} Smaller(a: set<nat>, b: set<nat>)
    requires a <= b
    ensures |a| <= |b|
  {
    if a != {} {
      var x :| x in a;
      Smaller(a - {x}, b - {x});
    }
  }

  /** One log_write after the other fills the log with k blocks. */
  lemma {:induction false} Fill(g: Area, init: Disk, k: nat) returns (states: seq<State>, steps: seq<Step>)
    requires Room(g, init) && k <= LOGSIZE && (k == 0 || k <= g.size - 1)
    ensures SerialRun(g, init, states, steps) && Filled(g, init, states[|states| - 1], k, {})
  {
    if k == 0 {
      states, steps := ThreeBegin(g, init);
    } else {
      hide Filled, TestOne, WriteOne, Next, Run, Room, Alone;
      var n, p := k - 1, (k - 1) % 3;
      states, steps := Fill(g, init, n);
      var s := states[|states| - 1];
      FilledAlone(g, init, s, n, {});
      var t := TestOne(s, p);
      TestStep(g, init, s, n, {}, p);
      FilledAlone(g, init, t, n, {} + {p});
      RunOn(g, init, states, steps, TestWrite(p), t);
      var u := WriteOne(g, t, n);
      WriteStep(g, init, t, n, {} + {p});
      assert {} + {p} - {p} == {};
      FilledAlone(g, init, u, k, {});
      RunOn(g, init, states + [t], steps + [TestWrite(p)], LogWrite(p, Write(Home(g, n), ZeroBlock())), u);
      states, steps := states + [t] + [u], steps + [TestWrite(p)] + [LogWrite(p, Write(Home(g, n), ZeroBlock()))];
    }
  }

  // ---------------------------------------------------------------- refusal

  /** In some run, even one without overlapping log_writes, an operation that has used less than its
      reservation is refused. */
  ghost predicate MayRefuse(g: Area, init: Disk) {
    exists states, steps, p: nat :: RefusedAtEnd(g, init, states, steps, p)
  }

  ghost predicate RefusedAtEnd(g: Area, init: Disk, states: seq<State>, steps: seq<Step>, p: nat) {
    && SerialRun(g, init, states, steps) && Active(states[|states| - 1], p)
    && |states[|states| - 1].ops[p].dirty| < MAXOPBLOCKS && RefusesWrite(g, states[|states| - 1].mem)
  }

  /** log_write accepts every write within the reservation if and only if the log area has more than
      LOGSIZE blocks, its header included. mkfs makes it exactly LOGSIZE. */
  lemma AcceptedIffRoom(g: Area, init: Disk)
    requires Room(g, init)
    ensures MayRefuse(g, init) <==> g.size <= LOGSIZE
  {
    if g.size <= LOGSIZE {
      var k := g.size - 1;
      var states, steps := Fill(g, init, k);
      assert Share(k, k % 3) == k / 3;
      assert RefusedAtEnd(g, init, states, steps, k % 3);
    }
    if MayRefuse(g, init) {
      var states, steps, p: nat :| RefusedAtEnd(g, init, states, steps, p);
      if g.size > LOGSIZE {
        RunWriteAccepted(g, init, states, steps, |states| - 1, p);
      }
    }
  }

  /** The guard comes before the search for a block that is already listed: an operation that writes
      one of its blocks again, which needs no room at all, can be refused however large the area is. */
  lemma RewriteRefused(g: Area, init: Disk) returns (states: seq<State>, steps: seq<Step>)
    requires Room(g, init) && g.size > LOGSIZE
    ensures SerialRun(g, init, states, steps)
    ensures var s := states[|states| - 1];
      Active(s, 0) && |s.ops[0].dirty| == MAXOPBLOCKS && (forall b :: b in s.ops[0].dirty ==> b in s.mem.listed) && RefusesWrite(g, s.mem)
  {
    states, steps := Fill(g, init, LOGSIZE);
    RunKeeps(g, init, states, steps, |states| - 1);
    hide Run;
  }

  // ---------------------------------------------------------------- two log_writes at once

  ghost predicate Overfull(g: Area, init: Disk, states: seq<State>, steps: seq<Step>) {
    Run(g, init, states, steps) && |states[|states| - 1].mem.listed| >= g.size
  }

  /** Two operations pass the tests when there is room for one block, and both append. */
  lemma TwoPass(g: Area, init: Disk) returns (states: seq<State>, steps: seq<Step>)
    requires Room(g, init) && 2 <= g.size <= LOGSIZE
    ensures Overfull(g, init, states, steps)
  {
    var k := g.size - 2;
    states, steps := Fill(g, init, k);
    hide Filled, TestOne, WriteOne, Next, Room, Alone;
    states, steps := OneTests(g, init, states, steps, k, {}, k % 3);
    states, steps := OneTests(g, init, states, steps, k, {} + {k % 3}, (k + 1) % 3);
    states, steps := OneWrites(g, init, states, steps, k, {} + {k % 3} + {(k + 1) % 3});
    states, steps := OneWrites(g, init, states, steps, k + 1, {} + {k % 3} + {(k + 1) % 3} - {k % 3});
    FilledLength(g, init, states[|states| - 1], k + 2, {} + {k % 3} + {(k + 1) % 3} - {k % 3} - {(k + 1) % 3});
  }

  lemma OneTests(g: Area, init: Disk, states: seq<State>, steps: seq<Step>, k: nat, who: set<nat>, p: nat)
    returns (ss: seq<State>, es: seq<Step>)
    requires Run(g, init, states, steps) && Filled(g, init, states[|states| - 1], k, who) && k < LOGSIZE && k < g.size - 1 && p < 3 && p !in who
    ensures Run(g, init, ss, es) && Filled(g, init, ss[|ss| - 1], k, who + {p})
  {
    var s := states[|states| - 1];
    hide Filled, Next, Run, TestOne;
    FilledAlone(g, init, s, k, who);
    TestStep(g, init, s, k, who, p);
    RunOn(g, init, states, steps, TestWrite(p), TestOne(s, p));
    ss, es := states + [TestOne(s, p)], steps + [TestWrite(p)];
  }

  lemma OneWrites(g: Area, init: Disk, states: seq<State>, steps: seq<Step>, k: nat, who: set<nat>)
    returns (ss: seq<State>, es: seq<Step>)
    requires Room(g, init) && Run(g, init, states, steps) && Filled(g, init, states[|states| - 1], k, who) && k < LOGSIZE && k % 3 in who
    ensures Run(g, init, ss, es) && Filled(g, init, ss[|ss| - 1], k + 1, who - {k % 3})
  {
    var s := states[|states| - 1];
    hide Filled, Next, Run, WriteOne, Room;
    FilledAlone(g, init, s, k, who);
    WriteStep(g, init, s, k, who);
    var step := LogWrite(k % 3, Write(Home(g, k), ZeroBlock()));
    RunOn(g, init, states, steps, step, WriteOne(g, s, k));
    ss, es := states + [WriteOne(g, s, k)], steps + [step];
  }

  lemma FilledLength(g: Area, init: Disk, s: State, k: nat, who: set<nat>)
    requires Filled(g, init, s, k, who)
    ensures |s.mem.listed| == k
  {}

  /** On an area of one block, the header, no test is ever passed. */
  lemma {:induction false} HeaderOnly(g: Area, init: Disk, states: seq<State>, steps: seq<Step>, i: nat)
    requires Run(g, init, states, steps) && i < |states| && g.size == 1
    ensures Roomy(g, states[i])
  {
    hide Next;
    if i > 0 {
      HeaderOnly(g, init, states, steps, i - 1);
      AloneKeeps(g, states[i - 1], steps[i - 1], states[i]);
    }
  }

  /** Some run lists as many blocks as the area has, one more than it can hold, if and only if the
      area has at least two blocks and at most LOGSIZE. */
  lemma OverfullIff(g: Area, init: Disk)
    requires Room(g, init)
    ensures (exists states, steps :: Overfull(g, init, states, steps)) <==> 2 <= g.size <= LOGSIZE
  {
    if 2 <= g.size <= LOGSIZE {
      var states, steps := TwoPass(g, init);
      assert Overfull(g, init, states, steps);
    }
    if states, steps :| Overfull(g, init, states, steps) {
      if g.size == 1 {
        HeaderOnly(g, init, states, steps, |states| - 1);
      } else if g.size > LOGSIZE {
        RunGroupCommit(g, init, states, steps, |states| - 1);
      }
    }
  }

  /** write_log changes no home block while the list is shorter than the area; from then on it puts
      the block listed at g.size - 1 behind the area, where the inodes are. */
  lemma CopyOutside(g: Area, d: Disk, bs: seq<nat>, cache: map<nat, Block>)
    requires Cached(bs, cache) && 0 < g.size && g.start + g.size < |d| && g.start + |bs| < |d|
    ensures !Inside(g, g.start + g.size)
    ensures |bs| < g.size ==> SameHomes(g, Apply(d, LogCopies(g, bs, cache)), d)
    ensures |bs| >= g.size ==> Apply(d, LogCopies(g, bs, cache))[g.start + g.size] == cache[bs[g.size - 1]]
  {
    hide LogCopies, Apply, Cached, DistinctWrites;
    CopiesInOrder(g, bs, cache);
    var ws := LogCopies(g, bs, cache);
    ApplyDistinct(d, ws);
    if |bs| >= g.size {
      assert ws[g.size - 1] == Write(g.start + g.size, cache[bs[g.size - 1]]);
    } else {
      forall b: nat | b < |d| && !Inside(g, b) ensures Apply(d, ws)[b] == d[b] {
        assert !Touches(ws, b);
      }
    }
  }

  lemma CopiesInOrder(g: Area, bs: seq<nat>, cache: map<nat, Block>)
    requires Cached(bs, cache)
    ensures var ws := LogCopies(g, bs, cache);
      && |ws| == |bs| && (forall i :: 0 <= i < |ws| ==> bs[i] in cache && ws[i] == Write(g.start + 1 + i, cache[bs[i]]))
      && DistinctWrites(ws)
  {}

  // ---------------------------------------------------------------- a commit without a free buffer

  /** A commit that has every buffer pinned, so that reading its first log block finds none. */
  ghost predicate Starved(g: Area, init: Disk, states: seq<State>, steps: seq<Step>) {
    && SerialRun(g, init, states, steps)
    && var s := states[|states| - 1];
      && s.mode.Committing? && s.mode.k == 0 && |s.mem.listed| == NBUF
      && !(exists t :: Next(g, s, CommitWrite, t) || Next(g, s, CommitDone, t))
  }

  /** The last operation out of three starts the commit. */
  lemma ThreeEnd(g: Area, init: Disk, states: seq<State>, steps: seq<Step>, j: nat) returns (ss: seq<State>, es: seq<Step>)
    requires SerialRun(g, init, states, steps) && g.size > LOGSIZE && j < 3
    requires var s := states[|states| - 1];
      && |s.ops| == 3 && s.mem.outstanding == 3 - j && |s.mem.listed| == NBUF && s.mode.Up?
      && forall i: nat :: i < 3 ==> (s.ops[i].ended <==> i < j) && !s.ops[i].passed
    ensures SerialRun(g, init, ss, es)
    ensures var s := ss[|ss| - 1];
      && |s.ops| == 3 && s.mem.outstanding == 2 - j && |s.mem.listed| == NBUF
      && (forall i: nat :: i < 3 ==> (s.ops[i].ended <==> i < j + 1) && !s.ops[i].passed)
      && (j < 2 ==> s.mode.Up?) && (j == 2 ==> s.mode.Committing? && s.mode.k == 0)
  {
    var s := states[|states| - 1];
    RunKeeps(g, init, states, steps, |states| - 1);
    EndPossible(g, init, s, j);
    hide Inv;
    var t :| Next(g, s, End(j), t);
    RunOn(g, init, states, steps, End(j), t);
    ss, es := states + [t], steps + [End(j)];
  }

  lemma Starve(g: Area, init: Disk) returns (states: seq<State>, steps: seq<Step>)
    requires Room(g, init) && g.size > LOGSIZE
    ensures Starved(g, init, states, steps)
  {
    states, steps := Fill(g, init, LOGSIZE);
    hide SerialRun, Room;
    states, steps := ThreeEnd(g, init, states, steps, 0);
    states, steps := ThreeEnd(g, init, states, steps, 1);
    states, steps := ThreeEnd(g, init, states, steps, 2);
    NoCommitStep(g, init, states, steps);
  }

  lemma NoCommitStep(g: Area, init: Disk, states: seq<State>, steps: seq<Step>)
    requires SerialRun(g, init, states, steps) && g.size > LOGSIZE
    requires var s := states[|states| - 1]; s.mode.Committing? && s.mode.k == 0 && |s.mem.listed| == NBUF
    ensures var s := states[|states| - 1]; !(exists t :: Next(g, s, CommitWrite, t) || Next(g, s, CommitDone, t))
  {
    RunKeeps(g, init, states, steps, |states| - 1);
    var s := states[|states| - 1];
    CommitLength(g, init, s);
  }

  lemma CommitLength(g: Area, init: Disk, s: State)
    requires Inv(g, init, s) && s.mode.Committing? && s.mem.listed != []
    ensures |s.mode.ws| > 0
  {}

  /** Without overlapping log_writes a commit can be starved of buffers if and only if the area has
      more than LOGSIZE blocks. So no size serves: up to LOGSIZE writes within the reservation can be
      refused, above it a commit can find every buffer pinned. */
  lemma StarvedIff(g: Area, init: Disk)
    requires Room(g, init)
    ensures (exists states, steps :: Starved(g, init, states, steps)) <==> g.size > LOGSIZE
    ensures (exists states, steps :: Starved(g, init, states, steps)) <==> !MayRefuse(g, init)
  {
    if g.size > LOGSIZE {
      var states, steps := Starve(g, init);
      assert Starved(g, init, states, steps);
    }
    if states, steps :| Starved(g, init, states, steps) {
      SerialFits(g, init, states, steps, |states| - 1);
    }
    AcceptedIffRoom(g, init);
  }
}
