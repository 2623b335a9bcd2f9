/** Whole calls of tcp_tx: which of them leave the window empty, and what an acknowledgement that
    comes inside enqueue can do to one. */
module TcpCalls {
  import opened Common
  import opened TcpFree
  import opened TcpSpec
  import Queue

  // ---------------------------------------------------------------- one endpoint's steps

  /** An endpoint between calls. */
  ghost predicate Clean(p: Peer) { SenderInv(p) && p.phase == Established && p.call.Idle? }

  ghost predicate MayStep(p: Peer, inbox: set<Segment>, step: LocalStep, q: Peer) {
    InTime(p, step) && exists out :: Local(p, inbox, step, q, out)
  }

  /** One endpoint's steps, with any acknowledgements arriving in time on the way. */
  ghost predicate Trace(inbox: set<Segment>, peers: seq<Peer>, steps: seq<LocalStep>) {
    && |peers| == |steps| + 1
    && forall k :: 0 <= k < |steps| ==> MayStep(peers[k], inbox, steps[k], peers[k + 1])
  }

  /** One complete call of tcp_tx. */
  ghost predicate CallTrace(inbox: set<Segment>, payload: seq<Byte>, peers: seq<Peer>, steps: seq<LocalStep>) {
    && Trace(inbox, peers, steps) && 0 < |steps| && Clean(peers[0])
    && steps[0] == Write(payload) && (forall k :: 1 <= k < |steps| ==> !steps[k].Write?)
    && peers[|steps|].call.Idle?
  }

  lemma {:induction false} TraceKeeps(inbox: set<Segment>, peers: seq<Peer>, steps: seq<LocalStep>, k: nat)
    requires Trace(inbox, peers, steps) && k < |peers| && SenderInv(peers[0]) && peers[0].phase == Established
    requires forall j :: 0 <= j < |steps| && steps[j].Write? ==> |steps[j].p| % MSS != 0
    ensures SenderInv(peers[k]) && peers[k].phase == Established
  {
    hide Local, SenderInv, InTime;
    if k > 0 {
      TraceKeeps(inbox, peers, steps, k - 1);
      assert MayStep(peers[k - 1], inbox, steps[k - 1], peers[k]);
      var out :| Local(peers[k - 1], inbox, steps[k - 1], peers[k], out);
      NotOpening(peers[k - 1], inbox, steps[k - 1], peers[k], out);
      LocalKeepsSender(peers[k - 1], inbox, steps[k - 1], peers[k], out);
      SentGrows(peers[k - 1], inbox, steps[k - 1], peers[k], out);
    }
  }

  lemma NotOpening(p: Peer, inbox: set<Segment>, step: LocalStep, q: Peer, out: set<Segment>)
    requires Local(p, inbox, step, q, out) && p.phase == Established
    ensures !step.GotReply? && !step.GotFirstAck?
  {}

  lemma Then(inbox: set<Segment>, peers: seq<Peer>, steps: seq<LocalStep>, step: LocalStep, q: Peer, out: set<Segment>)
    returns (ps: seq<Peer>, ss: seq<LocalStep>)
    requires Trace(inbox, peers, steps) && Local(peers[|steps|], inbox, step, q, out) && InTime(peers[|steps|], step)
    ensures Trace(inbox, ps, ss) && ps == peers + [q] && ss == steps + [step] && |ps| == |ss| + 1 && ps[|ss|] == q
  {
    assert MayStep(peers[|steps|], inbox, step, q);
    hide MayStep;
    ps, ss := peers + [q], steps + [step];
    forall k | 0 <= k < |ss| ensures MayStep(ps[k], inbox, ss[k], ps[k + 1]) {
      if k < |steps| {
        assert ps[k] == peers[k] && ps[k + 1] == peers[k + 1] && ss[k] == steps[k];
      }
    }
  }

  // ---------------------------------------------------------------- one segment at a time

  /** At the top of tcp_tx's loop, everything so far acknowledged. */
  ghost predicate AtTop(p: Peer, payload: seq<Byte>, i: nat, next: int) {
    && p.phase == Established && At(p, Top) && p.call.payload == payload && p.call.i == i
    && p.call.offset < WINDOW_LENGTH == |p.tx.slots|
    && |p.tx.ring.a| == Queue.QUEUE_SIZE && p.tx.ring.front == p.tx.ring.rear == -1 && p.tx.base == p.tx.next == next
  }

  /** Segment i - 1 of the call queued alone, sent and counted. */
  ghost predicate OneOut(p: Peer, payload: seq<Byte>, i: nat, next: int)
    requires 1 <= i <= Segments(|payload|)
  {
    && p.phase == Established && At(p, WaitFull) && p.call.payload == payload && p.call.i == i
    && p.call.offset < WINDOW_LENGTH == |p.tx.slots|
    && |p.tx.ring.a| == Queue.QUEUE_SIZE && p.tx.ring.front == p.tx.ring.rear == 0 && Readable(p.tx, p.tx.ring.a[0])
    && p.tx.slots[p.tx.ring.a[0] - 1] == Slot(next, SegmentAt(payload, i - 1))
    && p.tx.base == next && p.tx.next == next + |SegmentAt(payload, i - 1)|
  }

  /** The endpoint after StoreEntry, as a function of the endpoint at the top. */
  ghost function QueuedOne(p: Peer, payload: seq<Byte>, i: nat, next: int): (q: Peer)
    requires i < Segments(|payload|) && AtTop(p, payload, i, next)
  {
    var k := p.call.offset;
    p.(tx := Raw(next, next, Queue.Ring(0, 0, p.tx.ring.a[0 := Address(k)]), p.tx.slots[k := Slot(next, SegmentAt(payload, i))]),
       sent := p.sent + SegmentAt(payload, i), call := p.call.(pc := Packed, offset := (k + 1) % WINDOW_LENGTH))
  }

  lemma QueueSegment(inbox: set<Segment>, peers: seq<Peer>, steps: seq<LocalStep>, payload: seq<Byte>, i: nat, next: int)
    returns (ps: seq<Peer>, ss: seq<LocalStep>)
    requires Trace(inbox, peers, steps) && |peers| == |steps| + 1 && i < Segments(|payload|) && AtTop(peers[|steps|], payload, i, next)
    ensures Trace(inbox, ps, ss) && |ps| == |ss| + 1 && peers <= ps && ss == steps + [FillSlot, LocalStep.SetFront, LocalStep.AdvanceRear, StoreEntry]
    ensures ps[|ss|] == QueuedOne(peers[|steps|], payload, i, next)
  {
    hide Trace, SegmentAt, Queue.Valid, Queue.Contents, Queue.Length, Overruns;
    var p, s := peers[|steps|], SegmentAt(payload, i);
    var k, a := p.call.offset, p.tx.ring.a;
    var p1 := p.(tx := p.tx.(slots := p.tx.slots[k := Slot(next, s)]), call := p.call.(pc := Filled));
    var p2 := p1.(tx := p1.tx.(ring := Queue.Ring(0, -1, a)), call := p1.call.(pc := Fronted));
    var p3 := p2.(tx := p2.tx.(ring := Queue.Ring(0, 0, a)), call := p2.call.(pc := Advanced));
    ps, ss := Then(inbox, peers, steps, FillSlot, p1, {});
    ps, ss := Then(inbox, ps, ss, LocalStep.SetFront, p2, {});
    ps, ss := Then(inbox, ps, ss, LocalStep.AdvanceRear, p3, {});
    ps, ss := Then(inbox, ps, ss, StoreEntry, QueuedOne(p, payload, i, next), {});
    assert ss == steps + [FillSlot, LocalStep.SetFront, LocalStep.AdvanceRear, StoreEntry];
  }

  /** Queueing, sending and counting one segment. */
  lemma OneSegment(inbox: set<Segment>, peers: seq<Peer>, steps: seq<LocalStep>, payload: seq<Byte>, i: nat, next: int)
    returns (ps: seq<Peer>, ss: seq<LocalStep>)
    requires Trace(inbox, peers, steps) && |peers| == |steps| + 1 && i < Segments(|payload|) && AtTop(peers[|steps|], payload, i, next)
    ensures Trace(inbox, ps, ss) && |ps| == |ss| + 1 && peers <= ps
    ensures ss == steps + [FillSlot, LocalStep.SetFront, LocalStep.AdvanceRear, StoreEntry, Transmit, Account]
    ensures ps[|steps| + 4] == QueuedOne(peers[|steps|], payload, i, next) && ps[|ss|].sent == peers[|steps|].sent + SegmentAt(payload, i)
    ensures OneOut(ps[|ss|], payload, i + 1, next)
  {
    hide Trace, SegmentAt, Queue.Valid, Queue.Contents, Queue.Length, Overruns;
    var s := SegmentAt(payload, i);
    ps, ss := QueueSegment(inbox, peers, steps, payload, i, next);
    var p4 := ps[|ss|];
    var p5 := p4.(call := p4.call.(pc := Sent));
    var p6 := p5.(tx := p5.tx.(next := next + |s|), call := p5.call.(pc := WaitFull, i := i + 1));
    ps, ss := Then(inbox, ps, ss, Transmit, p5, {Data(next, s)});
    ps, ss := Then(inbox, ps, ss, Account, p6, {});
    assert ss == steps + [FillSlot, LocalStep.SetFront, LocalStep.AdvanceRear, StoreEntry, Transmit, Account];
  }

  /** The acknowledgement of the only queued segment, and the way back to the top. */
  lemma Acknowledged(inbox: set<Segment>, peers: seq<Peer>, steps: seq<LocalStep>, payload: seq<Byte>, i: nat, next: int)
    returns (ps: seq<Peer>, ss: seq<LocalStep>)
    requires Trace(inbox, peers, steps) && |peers| == |steps| + 1 && 1 <= i < Segments(|payload|) && Ack(0, next + MSS) in inbox
    requires OneOut(peers[|steps|], payload, i, next)
    ensures Trace(inbox, ps, ss) && |ps| == |ss| + 1 && steps <= ss && peers <= ps
    ensures forall k :: |steps| <= k < |ss| ==> !ss[k].Write?
    ensures AtTop(ps[|ss|], payload, i, next + MSS)
  {
    assert |SegmentAt(payload, i - 1)| == MSS;
    hide Trace, SegmentAt, Queue.Valid, Queue.Contents, Queue.Length;
    var q := peers[|steps|];
    var r := Raw(next + MSS, next + MSS, Queue.Ring(-1, -1, q.tx.ring.a), q.tx.slots);
    assert PopOne(q.tx) == r && AckLoop(r, next + MSS, 0, r) && AckLoop(q.tx, next + MSS, 1, r);
    var q1 := q.(tx := r);
    var q2 := q1.(call := q1.call.(qp := 0, pc := Top));
    ps, ss := Then(inbox, peers, steps, GotAck(Ack(0, next + MSS), 1), q1, {});
    ps, ss := Then(inbox, ps, ss, Unfull, q2, {});
  }

  lemma CleanRing(p: Peer)
    requires Clean(p)
    ensures |p.tx.ring.a| == Queue.QUEUE_SIZE && p.tx.ring.front == p.tx.ring.rear == -1 && p.tx.base == p.tx.next
  {}

  /** j full segments, each acknowledged before the next. */
  lemma {:induction false} FullSegments(inbox: set<Segment>, p: Peer, payload: seq<Byte>, j: nat)
    returns (ps: seq<Peer>, ss: seq<LocalStep>)
    requires Clean(p) && j <= |payload| / MSS
    requires forall i: nat :: 1 <= i <= |payload| / MSS ==> Ack(0, p.tx.next + i * MSS) in inbox
    ensures Trace(inbox, ps, ss) && 0 < |ss| == |ps| - 1 && ps[0] == p && ss[0] == Write(payload)
    ensures forall k :: 1 <= k < |ss| ==> !ss[k].Write?
    ensures AtTop(ps[|ss|], payload, j, p.tx.next + j * MSS)
  {
    if j == 0 {
      CleanRing(p);
      var q := p.(call := Call(payload, 0, 0, Top, 0, |p.sent|));
      ps, ss := Then(inbox, [p], [], Write(payload), q, {});
    } else {
      assert 0 < j < Segments(|payload|);
      assert Ack(0, p.tx.next + j * MSS) in inbox;
      hide Local, SenderInv, Trace, SegmentAt;
      ps, ss := FullSegments(inbox, p, payload, j - 1);
      var next := p.tx.next + (j - 1) * MSS;
      ps, ss := OneSegment(inbox, ps, ss, payload, j - 1, next);
      ps, ss := Acknowledged(inbox, ps, ss, payload, j, next);
    }
  }

  /** With nothing outstanding, the call drains and returns. */
  lemma Returned(inbox: set<Segment>, peers: seq<Peer>, steps: seq<LocalStep>) returns (ps: seq<Peer>, ss: seq<LocalStep>)
    requires Trace(inbox, peers, steps)
    requires var q := peers[|steps|];
      At(q, WaitFull) && q.call.i == Segments(|q.call.payload|) && !Queue.IsFull(q.tx.ring) && q.tx.base == q.tx.next
    ensures Trace(inbox, ps, ss) && |ps| == |ss| + 1 && steps <= ss && peers <= ps
    ensures forall k :: |steps| <= k < |ss| ==> !ss[k].Write?
    ensures ps[|ss|] == peers[|steps|].(call := Idle)
  {
    var q := peers[|steps|];
    var q1 := q.(call := q.call.(qp := 0, pc := Drain));
    var q2 := q1.(call := Idle);
    ps, ss := Then(inbox, peers, steps, Unfull, q1, {});
    ps, ss := Then(inbox, ps, ss, Return, q2, {});
  }

  // ---------------------------------------------------------------- calls that end in an empty segment

  /** A call whose size MSS divides can return with its empty last segment still queued. */
  lemma EmptyTailStays(p: Peer, payload: seq<Byte>)
    requires Clean(p) && |payload| % MSS == 0
    ensures exists inbox, ps: seq<Peer>, ss :: CallTrace(inbox, payload, ps, ss) && ps[0] == p && Sender(ps[|ss|]).window != []
  {
    hide SenderInv, MayStep;
    var m := |payload| / MSS;
    var inbox := set i | 1 <= i <= m :: Ack(0, p.tx.next + i * MSS);
    var ps, ss := FullSegments(inbox, p, payload, m);
    ps, ss := OneSegment(inbox, ps, ss, payload, m, p.tx.next + m * MSS);
    ps, ss := Returned(inbox, ps, ss);
    assert CallTrace(inbox, payload, ps, ss);
  }

  /** Exactly the calls whose size MSS does not divide always leave the window empty. */
  lemma CleanReturnIff(p: Peer, payload: seq<Byte>)
    requires Clean(p)
    ensures |payload| % MSS != 0 <==>
      forall inbox, ps: seq<Peer>, ss :: CallTrace(inbox, payload, ps, ss) && ps[0] == p ==> Sender(ps[|ss|]).window == []
  {
    if |payload| % MSS == 0 {
      EmptyTailStays(p, payload);
    } else {
      hide Local, Chain, PackedBytes, InTime;
      forall inbox, ps: seq<Peer>, ss | CallTrace(inbox, payload, ps, ss) && ps[0] == p ensures Sender(ps[|ss|]).window == [] {
        TraceKeeps(inbox, ps, ss, |ss|);
      }
    }
  }

  // ---------------------------------------------------------------- a call that never returns

  /** The last segment is sent and counted, but no entry of the ring shows it. */
  ghost predicate Stranded(p: Peer) {
    p.phase == Established && At(p, Drain) && p.tx.ring.front == -1 && p.tx.base != p.tx.next && p.call.qp == 0
  }

  /** Nothing that can happen ends this: tcp_tx does not return and sends no data again. */
  lemma StrandedStays(p: Peer, inbox: set<Segment>, step: LocalStep, q: Peer, out: set<Segment>)
    requires Stranded(p) && Local(p, inbox, step, q, out)
    ensures Stranded(q) && !step.Return? && forall sn, b :: Data(sn, b) !in out
  {
    hide Queue.Valid, Queue.Contents, Queue.Length, SegmentAt;
  }

  /** Steps of the last segment of a call, from inside enqueue to the wait for the last
      acknowledgements, with the given ring and base after the acknowledgement. */
  ghost function Finished(p: Peer, r: Raw): (q: Peer)
    requires Making(p, Fronted)
  {
    var ring := Queue.Store(Queue.AdvanceRear(r.ring), Address(p.call.offset));
    p.(tx := Raw(r.base, r.next + |Current(p)|, ring, r.slots), sent := p.sent + Current(p),
       call := p.call.(pc := Drain, i := p.call.i + 1, offset := (p.call.offset + 1) % WINDOW_LENGTH, qp := 0))
  }

  /** The steps after the acknowledgement. */
  const REST: seq<LocalStep> := [LocalStep.AdvanceRear, StoreEntry, Transmit, Account, Unfull]

  ghost predicate Moves(inbox: set<Segment>, peers: seq<Peer>, steps: seq<LocalStep>) {
    && |peers| == |steps| + 1
    && forall k :: 0 <= k < |steps| ==> MayMove(peers[k], inbox, steps[k], peers[k + 1])
  }

  ghost predicate MayMove(p: Peer, inbox: set<Segment>, step: LocalStep, q: Peer) {
    exists out :: Local(p, inbox, step, q, out)
  }

  lemma Move(inbox: set<Segment>, peers: seq<Peer>, steps: seq<LocalStep>, step: LocalStep, q: Peer, out: set<Segment>)
    returns (ps: seq<Peer>, ss: seq<LocalStep>)
    requires Moves(inbox, peers, steps) && Local(peers[|steps|], inbox, step, q, out)
    ensures Moves(inbox, ps, ss) && ps == peers + [q] && ss == steps + [step] && |ps| == |ss| + 1 && ps[|ss|] == q
  {
    assert MayMove(peers[|steps|], inbox, step, q);
    hide MayMove;
    ps, ss := peers + [q], steps + [step];
    forall k | 0 <= k < |ss| ensures MayMove(ps[k], inbox, ss[k], ps[k + 1]) {
      if k < |steps| {
        assert ps[k] == peers[k] && ps[k + 1] == peers[k + 1] && ss[k] == steps[k];
      }
    }
  }

  /** Where an acknowledgement of everything counted finds the last segment of a call past enqueue's
      test of front, with an entry in the ring: the call goes on to its end and never returns. */
  lemma OverrunStrands(p: Peer, inbox: set<Segment>, seg: Segment) returns (m: nat, r: Raw, peers: seq<Peer>)
    requires SenderInv(p) && p.phase == Established && At(p, Fronted) && p.call.i + 1 == Segments(|p.call.payload|)
    requires Sender(p).window != [] && seg in inbox && (seg.SynAck? || seg.Ack?) && seg.ack == p.tx.next
    ensures Moves(inbox, peers, [GotAck(seg, m)] + REST) && peers[0] == p && Stranded(peers[6]) && peers[6] == Finished(p, r)
  {
    hide SenderInv, AckStep, SegmentAt, Queue.Valid, Queue.Contents, Queue.Length, Moves, Sender;
    CallSized(p);
    m, r := AckTakesAll(p, seg.ack);
    NoMoves(inbox, p);
    var steps;
    peers, steps := Move(inbox, [p], [], GotAck(seg, m), p.(tx := r), {});
    peers, steps := Finish(inbox, peers, steps, r);
    assert steps == [GotAck(seg, m)] + REST;
  }

  lemma CallSized(p: Peer)
    requires SenderInv(p) && p.phase == Established && At(p, Fronted)
    ensures |p.tx.ring.a| == Queue.QUEUE_SIZE && Making(p, Fronted) && Current(p) != []
  {
    hide Chain, Queue.Contents, Queue.Length, PackedBytes, Slotted;
    SegmentNonempty(p.call.payload, p.call.i);
  }

  lemma NoMoves(inbox: set<Segment>, p: Peer)
    ensures Moves(inbox, [p], [])
  {}

  /** From the step of rear to the wait for the last acknowledgements. */
  lemma Finish(inbox: set<Segment>, peers: seq<Peer>, steps: seq<LocalStep>, r: Raw) returns (ps: seq<Peer>, ss: seq<LocalStep>)
    requires Moves(inbox, peers, steps) && |peers| == |steps| + 1
    requires var p := peers[|steps|];
      && p.phase == Established && Making(p, Fronted) && p.call.i + 1 == Segments(|p.call.payload|) && Current(p) != []
      && p.tx == r && r.ring.front == r.ring.rear == -1 && |r.ring.a| == Queue.QUEUE_SIZE && r.base == r.next
    ensures Moves(inbox, ps, ss) && |ps| == |peers| + 5 && peers <= ps && ss == steps + REST
    ensures Stranded(ps[|ps| - 1]) && ps[|ps| - 1] == Finished(peers[|steps|], r)
  {
    hide SegmentAt, Queue.Valid, Queue.Contents, Queue.Length, Moves;
    var p := peers[|steps|];
    var s, k := Current(p), p.call.offset;
    var p2 := p.(tx := r.(ring := Queue.Ring(-1, 0, r.ring.a)), call := p.call.(pc := Advanced));
    var p3 := p2.(tx := p2.tx.(ring := Queue.Ring(-1, 0, r.ring.a[0 := Address(k)])), sent := p.sent + s,
                  call := p2.call.(pc := Packed, offset := (k + 1) % WINDOW_LENGTH));
    var p4 := p3.(call := p3.call.(pc := Sent));
    var p5 := p4.(tx := p4.tx.(next := p4.tx.next + |s|), call := p4.call.(pc := WaitFull, i := p.call.i + 1));
    var p6 := p5.(call := p5.call.(qp := 0, pc := Drain));
    ps, ss := Move(inbox, peers, steps, LocalStep.AdvanceRear, p2, {});
    ps, ss := Move(inbox, ps, ss, StoreEntry, p3, {});
    ps, ss := Move(inbox, ps, ss, Transmit, p4, {Data(p3.tx.next, s)});
    ps, ss := Move(inbox, ps, ss, Account, p5, {});
    ps, ss := Move(inbox, ps, ss, Unfull, p6, {});
    assert ss == steps + REST;
  }

  /** The loop empties the ring. */
  lemma AckTakesAll(p: Peer, ack: int) returns (m: nat, r: Raw)
    requires SenderInv(p) && p.phase == Established && At(p, Fronted) && Sender(p).window != [] && ack == p.tx.next
    ensures AckStep(p.tx, ack, m, r) && r == p.tx.(base := p.tx.next, ring := Queue.Ring(-1, -1, p.tx.ring.a))
  {
    NotHalf(p);
    ReadableEntries(p.tx, Fronted, p.sent);
    QueueingCounted(p.tx, p.call, p.sent);
    PlainView(p.tx, Fronted);
    ViewFields(p.tx, Top);
    hide Queue.Contents, Queue.Length, View, AckLoop;
    m, r := LoopRuns(p.tx, ack);
    LoopIsPopped(p.tx, ack, m, r);
    LoopEnds(p.tx, ack, m, r);
    ViewFields(r, Top);
    PoppedAll(View(p.tx, Top), ack, p.sent);
    PoppedKeeps(View(p.tx, Top), ack, p.sent);
    EmptyRing(r);
  }

  lemma NotHalf(p: Peer)
    requires SenderInv(p) && p.phase == Established && At(p, Fronted) && Sender(p).window != []
    ensures Queue.Valid(p.tx.ring)
  {}

  lemma EmptyRing(r: Raw)
    requires Queue.Valid(r.ring) && View(r, Top).window == []
    ensures r.ring == Queue.Ring(-1, -1, r.ring.a)
  {}

  // ---------------------------------------------------------------- such a call in a run

  ghost function Last(states: seq<State>): (s: State)
    requires 0 < |states|
  {
    states[|states| - 1]
  }

  lemma {:induction false} StrandedForever(states: seq<State>, i: nat, j: nat)
    requires FreeRun(states) && i <= j < |states| && Stranded(states[i].client)
    ensures Stranded(states[j].client) && forall sn, b :: Data(sn, b) in states[j].toServer ==> Data(sn, b) in states[i].toServer
  {
    hide Local, Stranded, Init;
    if i < j {
      StrandedForever(states, i, j - 1);
      var s, t := states[j - 1], states[j];
      assert Goes(s, t);
      if step :| ClientMove(s, step, t) {
        var out :| Local(s.client, s.toClient, step, t.client, out) && t.toServer == s.toServer + out;
        StrandedStays(s.client, s.toClient, step, t.client, out);
      }
    }
  }

  lemma ClientGoes(states: seq<State>, step: LocalStep, q: Peer, out: set<Segment>) returns (ss: seq<State>)
    requires FreeRun(states) && Local(Last(states).client, Last(states).toClient, step, q, out) && !step.GotSyn? && !step.GotFirstAck?
    ensures FreeRun(ss) && states <= ss && Last(ss) == Last(states).(client := q, toServer := Last(states).toServer + out)
  {
    hide Local, Init;
    var t := Last(states).(client := q, toServer := Last(states).toServer + out);
    assert ClientMove(Last(states), step, t);
    ss := Going(states, t);
  }

  lemma ServerGoes(states: seq<State>, step: LocalStep, q: Peer, out: set<Segment>) returns (ss: seq<State>)
    requires FreeRun(states) && Local(Last(states).server, Last(states).toServer, step, q, out) && !step.Connect? && !step.GotReply?
    ensures FreeRun(ss) && states <= ss && Last(ss) == Last(states).(server := q, toClient := Last(states).toClient + out)
  {
    hide Local, Init;
    var t := Last(states).(server := q, toClient := Last(states).toClient + out);
    assert ServerMove(Last(states), step, t);
    ss := Going(states, t);
  }

  lemma Going(states: seq<State>, t: State) returns (ss: seq<State>)
    requires FreeRun(states) && Goes(Last(states), t)
    ensures FreeRun(ss) && states <= ss && Last(ss) == t
  {
    hide Goes, Init;
    ss := states + [t];
    forall i | 0 <= i < |ss| - 1 ensures Goes(ss[i], ss[i + 1]) {
      if i < |states| - 1 {
        assert ss[i] == states[i] && ss[i + 1] == states[i + 1];
      }
    }
  }

  /** The client's steps as steps of the system; what it transmits is in flight. */
  lemma {:induction false} Lift(states: seq<State>, peers: seq<Peer>, steps: seq<LocalStep>) returns (ss: seq<State>)
    requires FreeRun(states) && Moves(Last(states).toClient, peers, steps) && peers[0] == Last(states).client
    requires forall k :: 0 <= k < |steps| ==> !steps[k].GotSyn? && !steps[k].GotFirstAck?
    ensures FreeRun(ss) && states <= ss && Last(ss).client == peers[|steps|]
    ensures Last(ss).server == Last(states).server && Last(ss).toClient == Last(states).toClient && Last(states).toServer <= Last(ss).toServer
    ensures forall k :: 0 <= k < |steps| && steps[k].Transmit? ==> Making(peers[k], Packed) && Data(peers[k].tx.next, Current(peers[k])) in Last(ss).toServer
    decreases |steps|
  {
    hide Init, Goes, Local;
    if steps == [] {
      ss := states;
    } else {
      var n := |steps| - 1;
      MovesFront(Last(states).toClient, peers, steps);
      ss := Lift(states, peers[..n + 1], steps[..n]);
      assert MayMove(peers[n], Last(states).toClient, steps[n], peers[n + 1]);
      var out :| Local(peers[n], Last(states).toClient, steps[n], peers[n + 1], out);
      Transmits(peers[n], Last(states).toClient, steps[n], peers[n + 1], out);
      ss := ClientGoes(ss, steps[n], peers[n + 1], out);
      forall k | 0 <= k < |steps| && steps[k].Transmit?
        ensures Making(peers[k], Packed) && Data(peers[k].tx.next, Current(peers[k])) in Last(ss).toServer
      {
        if k < n {
          assert steps[..n][k].Transmit? && peers[..n + 1][k] == peers[k];
        }
      }
    }
  }

  lemma MovesFront(inbox: set<Segment>, peers: seq<Peer>, steps: seq<LocalStep>)
    requires Moves(inbox, peers, steps) && steps != []
    ensures Moves(inbox, peers[..|steps|], steps[..|steps| - 1])
  {
    hide MayMove;
    var ps, ss := peers[..|steps|], steps[..|steps| - 1];
    forall k | 0 <= k < |ss| ensures MayMove(ps[k], inbox, ss[k], ps[k + 1]) {
      assert ps[k] == peers[k] && ss[k] == steps[k] && ps[k + 1] == peers[k + 1];
    }
  }

  lemma Transmits(p: Peer, inbox: set<Segment>, step: LocalStep, q: Peer, out: set<Segment>)
    requires Local(p, inbox, step, q, out)
    ensures step.Transmit? ==> Making(p, Packed) && out == {Data(p.tx.next, Current(p))}
  {}

  lemma TraceMoves(inbox: set<Segment>, peers: seq<Peer>, steps: seq<LocalStep>)
    requires Trace(inbox, peers, steps)
    ensures Moves(inbox, peers, steps)
  {
    hide Local, InTime;
    forall k | 0 <= k < |steps| ensures MayMove(peers[k], inbox, steps[k], peers[k + 1]) {
      assert MayStep(peers[k], inbox, steps[k], peers[k + 1]);
    }
  }

  function Unused(): (raw: Raw) {
    Raw(0, 0, Queue.Ring(0, 0, [0, 0, 0, 0, 0, 0, 0, 0, 0, 0]), seq(WINDOW_LENGTH, _ => Slot(0, [])))
  }

  /** The connection is opened. */
  lemma Opened() returns (states: seq<State>)
    ensures FreeRun(states) && Last(states).toClient == {SynAck(0, 1)}
    ensures var s := Last(states);
      && s.client == Peer(Established, Raw(1, 1, Queue.Init(Unused().ring.a), Unused().slots), Rx(1, []), Idle, [])
      && s.server == Peer(Established, Raw(1, 1, Queue.Init(Unused().ring.a), Unused().slots), Rx(1, []), Idle, [])
  {
    hide Queue.Valid, Queue.Contents, Queue.Length, SegmentAt;
    var f := Peer(Start, Unused(), Rx(0, []), Idle, []);
    states := [State(f, f, {}, {})];
    var raw := Unused().(base := 1, next := 1);
    states := ClientGoes(states, Connect, f.(phase := SynSent, tx := raw), {Syn(0)});
    states := ServerGoes(states, GotSyn(Syn(0)), Peer(SynAckSent, raw, Rx(1, []), Idle, []), {SynAck(0, 1)});
    var open := raw.(ring := Queue.Init(raw.ring.a));
    states := ClientGoes(states, GotReply(SynAck(0, 1)), Peer(Established, open, Rx(1, []), Idle, []), {Ack(0, 1)});
    states := ServerGoes(states, GotFirstAck(Ack(0, 1)), Peer(Established, open, Rx(1, []), Idle, []), {});
  }

  /** The client's steps of a call of MSS + 1 bytes, up to the middle of the second enqueue. */
  lemma HalfwayTrace(inbox: set<Segment>, p: Peer, payload: seq<Byte>) returns (ps: seq<Peer>, ss: seq<LocalStep>)
    requires Clean(p) && |payload| == MSS + 1
    ensures Trace(inbox, ps, ss) && |ps| == |ss| + 1 && ps[0] == p && (forall k :: 0 <= k < |ss| ==> !ss[k].GotSyn? && !ss[k].GotFirstAck?)
    ensures 6 < |ss| && ss[5].Transmit? && ps[5].tx.next == p.tx.next && Making(ps[5], Packed) && Current(ps[5]) == payload[..MSS]
    ensures var q := ps[|ss|];
      && q.phase == Established && At(q, Fronted) && q.call.i == 1 && q.call.payload == payload
      && q.tx.base == p.tx.next && q.tx.next == p.tx.next + MSS && q.tx.ring.front == 0 && SenderInv(q) && q.sent == p.sent + payload[..MSS]
  {
    CleanRing(p);
    var next, s0 := p.tx.next, SegmentAt(payload, 0);
    var q := p.(call := Call(payload, 0, 0, Top, 0, |p.sent|));
    ps, ss := Then(inbox, [p], [], Write(payload), q, {});
    assert AtTop(q, payload, 0, next);
    hide SenderInv, Trace;
    ps, ss := OneSegment(inbox, ps, ss, payload, 0, next);
    ps, ss := SecondFront(inbox, ps, ss, payload, next);
    TraceKeeps(inbox, ps, ss, |ss|);
  }

  lemma SecondFront(inbox: set<Segment>, peers: seq<Peer>, steps: seq<LocalStep>, payload: seq<Byte>, next: int)
    returns (ps: seq<Peer>, ss: seq<LocalStep>)
    requires Trace(inbox, peers, steps) && |peers| == |steps| + 1 && |payload| == MSS + 1 && OneOut(peers[|steps|], payload, 1, next)
    ensures Trace(inbox, ps, ss) && |ps| == |ss| + 1 && peers <= ps && ss == steps + [Unfull, FillSlot, LocalStep.SetFront]
    ensures var p, q := peers[|steps|], ps[|ss|];
      && q.phase == Established && At(q, Fronted) && q.call.i == 1 && q.call.payload == payload
      && q.tx.base == next && q.tx.next == next + MSS && q.tx.ring.front == 0 && q.sent == p.sent
  {
    assert |SegmentAt(payload, 0)| == MSS;
    hide Trace, SegmentAt, Queue.Valid, Queue.Contents, Queue.Length, Overruns;
    var p := peers[|steps|];
    var p1 := p.(call := p.call.(qp := 0, pc := Top));
    var p2 := p1.(tx := p1.tx.(slots := p1.tx.slots[p1.call.offset := Slot(next + MSS, SegmentAt(payload, 1))]), call := p1.call.(pc := Filled));
    var p3 := p2.(call := p2.call.(pc := Fronted));
    ps, ss := Then(inbox, peers, steps, Unfull, p1, {});
    ps, ss := Then(inbox, ps, ss, FillSlot, p2, {});
    ps, ss := Then(inbox, ps, ss, LocalStep.SetFront, p3, {});
    assert ss == steps + [Unfull, FillSlot, LocalStep.SetFront];
  }

  /** The client is halfway through its second enqueue; the server has had nothing yet. */
  ghost predicate Halfway(s: State, payload: seq<Byte>) {
    && |payload| == MSS + 1 && s.server.phase == Established && s.server.rx == Rx(1, []) && s.server.tx.next == 1
    && Data(1, payload[..MSS]) in s.toServer
    && s.client.phase == Established && At(s.client, Fronted) && s.client.call.payload == payload && s.client.call.i == 1
    && s.client.tx.base == 1 && s.client.tx.next == 1 + MSS && s.client.tx.ring.front == 0
    && SenderInv(s.client) && s.client.sent == payload[..MSS]
  }

  lemma ReachHalfway(payload: seq<Byte>) returns (states: seq<State>)
    requires |payload| == MSS + 1
    ensures FreeRun(states) && Halfway(Last(states), payload)
  {
    states := Opened();
    hide Init, Goes, Moves, Trace, Local, SenderInv, SegmentAt, Clean;
    var s := Last(states);
    OpenClean(s.client);
    var ps, ss := HalfwayTrace(s.toClient, s.client, payload);
    TraceMoves(s.toClient, ps, ss);
    states := Lift(states, ps, ss);
    assert Data(ps[5].tx.next, Current(ps[5])) in Last(states).toServer;
    assert [] + payload[..MSS] == payload[..MSS];
  }

  /** A write of MSS + 1 bytes on a new connection whose first segment is acknowledged between two
      assignments of enqueue: tcp_tx never returns, and never sends its last byte again. */
  lemma CallCanStrand() returns (states: seq<State>)
    ensures FreeRun(states) && Stranded(Last(states).client) && Last(states).server.rx.buffer < Last(states).client.sent
  {
    var payload: seq<Byte> := seq(MSS + 1, _ => 0);
    var s0 := payload[..MSS];
    states := ReachHalfway(payload);
    assert |SegmentAt(payload, 1)| == 1;
    hide Init, Goes, Moves, Local, SenderInv, SegmentAt, Stranded, Sender;
    var p, v := Last(states).client, Last(states).server;
    DataTaken(v, Last(states).toServer, s0);
    states := ServerGoes(states, GotData(1, s0), v.(rx := Rx(1 + MSS, s0)), {Ack(0, 1 + MSS)});
    OneEntryShown(p);
    var m, r, peers := OverrunStrands(p, Last(states).toClient, Ack(0, 1 + MSS));
    states := Lift(states, peers, [GotAck(Ack(0, 1 + MSS), m)] + REST);
  }

  lemma OpenClean(p: Peer)
    requires p == Peer(Established, Raw(1, 1, Queue.Init(Unused().ring.a), Unused().slots), Rx(1, []), Idle, [])
    ensures Clean(p)
  {
    assert Queue.Contents(p.tx.ring) == [];
  }

  lemma DataTaken(v: Peer, inbox: set<Segment>, s: seq<Byte>)
    requires v.phase == Established && v.rx == Rx(1, []) && v.tx.next == 1 && Data(1, s) in inbox
    ensures Local(v, inbox, GotData(1, s), v.(rx := Rx(1 + |s|, s)), {Ack(0, 1 + |s|)})
  {
    assert [] + s == s;
  }

  lemma OneEntryShown(p: Peer)
    requires SenderInv(p) && p.phase == Established && At(p, Fronted) && p.tx.ring.front == 0 && p.tx.base < p.tx.next
    ensures Sender(p).window != []
  {
    QueueingCounted(p.tx, p.call, p.sent);
  }
}
