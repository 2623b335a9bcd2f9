/** What every run keeps, wherever acknowledgements come and whatever is written: calls that end in an
    empty segment and acknowledgements that overrun enqueue included. */
module TcpFree {
  import opened Common
  import opened TcpSpec
  import Queue

  ghost predicate Goes(s: State, t: State) {
    (exists step :: ClientMove(s, step, t)) || (exists step :: ServerMove(s, step, t))
  }

  /** A run in which acknowledgements may come at any time. */
  ghost predicate FreeRun(states: seq<State>) {
    && 0 < |states| && Init(states[0])
    && forall i :: 0 <= i < |states| - 1 ==> Goes(states[i], states[i + 1])
  }

  // ---------------------------------------------------------------- the sender, sound or not

  /** A word of the ring is 0 or the address of a segment of the stream, or of the slot hole whose
      segment is on its way into the ring. */
  ghost predicate WordOk(slots: seq<Slot>, x: int, sent: seq<Byte>, hole: int) {
    x == 0 || (1 <= x <= |slots| && (x - 1 == hole || Genuine(slots[x - 1].sn, slots[x - 1].payload, sent)))
  }

  ghost predicate Words(slots: seq<Slot>, a: seq<int>, sent: seq<Byte>, hole: int) {
    forall k :: 0 <= k < |a| ==> WordOk(slots, a[k], sent, hole)
  }

  function Hole(c: Call): (h: int) { if c.Call? && (c.pc == Filled || c.pc == Fronted || c.pc == Advanced) then c.offset else -1 }

  /** front and rear stay in range, and rear is -1 only beside front -1, except inside enqueue. */
  ghost predicate InRange(ring: Queue.Ring, pc: Pc) {
    -1 <= ring.front < Queue.QUEUE_SIZE && -1 <= ring.rear < Queue.QUEUE_SIZE && (pc != Fronted && ring.rear == -1 ==> ring.front == -1)
  }

  ghost predicate CallFree(p: Peer) {
    p.call.Call? ==>
      && p.call.offset < |p.tx.slots| && p.call.i <= Segments(|p.call.payload|)
      && (p.call.pc != WaitFull && p.call.pc != Drain ==> p.call.i < Segments(|p.call.payload|))
      && (p.call.pc == Filled ==> !Queue.IsFull(p.tx.ring))
      && (Queueing(p.call.pc) ==> p.tx.slots[p.call.offset] == Slot(p.tx.next, Current(p)))
      && (Pending(p.call) ==> Genuine(p.tx.next, Current(p), p.sent))
      && (p.call.qp != 0 ==> (p.call.pc == WaitFull || p.call.pc == Drain) && WordOk(p.tx.slots, p.call.qp, p.sent, -1))
  }

  ghost predicate SenderFree(p: Peer) {
    && |p.tx.slots| == WINDOW_LENGTH && |p.tx.ring.a| == Queue.QUEUE_SIZE
    && Words(p.tx.slots, p.tx.ring.a, p.sent, Hole(p.call)) && CallFree(p)
    && (p.phase != Established ==> p.sent == [] && p.call.Idle?)
    && (p.phase == Established ==> p.tx.next + Unaccounted(p.call) == 1 + |p.sent| && InRange(p.tx.ring, PcOf(p.call)))
  }

  lemma WordsGrow(slots: seq<Slot>, a: seq<int>, sent: seq<Byte>, more: seq<Byte>, hole: int)
    requires Words(slots, a, sent, hole) && sent <= more
    ensures Words(slots, a, more, hole)
  {
    hide Genuine;
    forall k | 0 <= k < |a| ensures WordOk(slots, a[k], more, hole) {
      assert WordOk(slots, a[k], sent, hole);
      if a[k] != 0 && a[k] - 1 != hole {
        GenuineGrows(slots[a[k] - 1].sn, slots[a[k] - 1].payload, sent, more);
      }
    }
  }

  /** The loop leaves the words alone, keeps the indices in range and never makes the ring full. */
  lemma {:induction false} LoopFree(raw: Raw, ack: int, m: nat, r: Raw, pc: Pc)
    requires AckLoop(raw, ack, m, r) && InRange(raw.ring, pc)
    ensures r.slots == raw.slots && r.next == raw.next && r.ring.a == raw.ring.a && InRange(r.ring, pc)
    ensures pc != Fronted && !Queue.IsFull(raw.ring) ==> !Queue.IsFull(r.ring)
    decreases m
  {
    if m > 0 {
      PopFree(raw.ring, pc);
      LoopFree(PopOne(raw), ack, m - 1, r, pc);
    }
  }

  lemma PopFree(ring: Queue.Ring, pc: Pc)
    requires InRange(ring, pc) && !Queue.IsEmpty(ring)
    ensures InRange(Queue.Dequeued(ring), pc) && Queue.Dequeued(ring).a == ring.a
    ensures pc != Fronted && !Queue.IsFull(ring) ==> !Queue.IsFull(Queue.Dequeued(ring))
  {
    hide Queue.Contents, Queue.Length;
  }

  lemma AckFree(p: Peer, inbox: set<Segment>, seg: Segment, m: nat, q: Peer)
    requires SenderFree(p) && Local(p, inbox, GotAck(seg, m), q, {})
    ensures SenderFree(q)
  {
    hide Words, Queue.Contents, Queue.Length, Queue.Valid, AckLoop, InRange, Genuine, SegmentAt;
    if p.tx.base <= seg.ack <= p.tx.next {
      LoopFree(p.tx, seg.ack, m, q.tx, PcOf(p.call));
    }
  }

  lemma FillFree(p: Peer, inbox: set<Segment>, q: Peer)
    requires SenderFree(p) && Local(p, inbox, FillSlot, q, {})
    ensures SenderFree(q)
  {
    hide Queue.Contents, Queue.Length, Queue.Valid, Genuine, SegmentAt;
    forall k | 0 <= k < |q.tx.ring.a| ensures WordOk(q.tx.slots, q.tx.ring.a[k], q.sent, Hole(q.call)) {
      assert WordOk(p.tx.slots, p.tx.ring.a[k], p.sent, Hole(p.call));
    }
  }

  lemma IndexFree(p: Peer, inbox: set<Segment>, step: LocalStep, q: Peer)
    requires SenderFree(p) && Local(p, inbox, step, q, {}) && (step.SetFront? || step.AdvanceRear?)
    ensures SenderFree(q)
  {
    hide Words, Queue.Contents, Queue.Length, Queue.Valid, Genuine, SegmentAt;
  }

  lemma StoreFree(p: Peer, inbox: set<Segment>, q: Peer)
    requires SenderFree(p) && Local(p, inbox, StoreEntry, q, {})
    ensures SenderFree(q)
  {
    hide Words, Queue.Contents, Queue.Length, Queue.Valid, Genuine, SegmentAt;
    AppendGenuine(p.sent, Current(p));
    WordsGrow(p.tx.slots, p.tx.ring.a, p.sent, q.sent, Hole(p.call));
    WordsStored(p.tx.slots, p.tx.ring.a, q.sent, p.call.offset, p.tx.ring.rear);
  }

  /** The segment is part of the stream now, and its address in the ring. */
  lemma WordsStored(slots: seq<Slot>, a: seq<int>, sent: seq<Byte>, hole: nat, rear: nat)
    requires Words(slots, a, sent, hole) && hole < |slots| && rear < |a| && Genuine(slots[hole].sn, slots[hole].payload, sent)
    ensures Words(slots, a[rear := Address(hole)], sent, -1)
  {
    hide Genuine;
    var b := a[rear := Address(hole)];
    forall k | 0 <= k < |b| ensures WordOk(slots, b[k], sent, -1) {
      assert WordOk(slots, a[k], sent, hole);
    }
  }

  lemma AppendGenuine(sent: seq<Byte>, s: seq<Byte>)
    ensures Genuine(1 + |sent|, s, sent + s)
  {}

  lemma SendFree(p: Peer, inbox: set<Segment>, step: LocalStep, q: Peer, out: set<Segment>)
    requires SenderFree(p) && Local(p, inbox, step, q, out) && (step.Write? || step.Transmit? || step.Account? || step.Return?)
    ensures SenderFree(q)
  {
    hide Words, WordOk, InRange, Queue.IsFull, Genuine, SegmentAt;
    RangeOutside(p.tx.ring, PcOf(p.call), PcOf(q.call));
  }

  lemma WaitFree(p: Peer, inbox: set<Segment>, step: LocalStep, q: Peer, out: set<Segment>)
    requires SenderFree(p) && Local(p, inbox, step, q, out) && (step.Skip? || step.Peek? || step.Resend? || step.Unfull?)
    ensures SenderFree(q)
  {
    hide Words, WordOk, InRange, Queue.IsFull, Queue.GetFront, Genuine, SegmentAt;
    RangeOutside(p.tx.ring, PcOf(p.call), PcOf(q.call));
    FrontWord(p.tx.slots, p.tx.ring, p.sent, Hole(p.call));
  }

  lemma RangeOutside(ring: Queue.Ring, pc: Pc, pc': Pc)
    requires InRange(ring, pc) && pc != Fronted
    ensures InRange(ring, pc')
  {}

  lemma FrontWord(slots: seq<Slot>, ring: Queue.Ring, sent: seq<Byte>, hole: int)
    requires Words(slots, ring.a, sent, hole)
    ensures WordOk(slots, Queue.GetFront(ring), sent, hole)
  {
    hide Queue.Contents, Queue.Length, Queue.Valid, Genuine;
    if 0 <= ring.front < |ring.a| {
      assert WordOk(slots, ring.a[ring.front], sent, hole);
    }
  }

  lemma OpenFree(p: Peer, inbox: set<Segment>, step: LocalStep, q: Peer, out: set<Segment>)
    requires SenderFree(p) && Local(p, inbox, step, q, out)
    requires step.Connect? || step.GotSyn? || step.GotData? || ((step.GotReply? || step.GotFirstAck?) && step.seg.ack == 1)
    ensures SenderFree(q)
  {
    hide Words, Queue.Contents, Queue.Length, Queue.Valid, Genuine, SegmentAt;
  }

  lemma NotRefused(p: Peer, inbox: set<Segment>, step: LocalStep, q: Peer, out: set<Segment>)
    requires SenderFree(p) && Local(p, inbox, step, q, out)
    ensures !step.Refuse?
    ensures step.GotAck? || step.FillSlot? || step.SetFront? || step.AdvanceRear? || step.StoreEntry? ==> out == {}
  {}

  lemma LocalFree(p: Peer, inbox: set<Segment>, step: LocalStep, q: Peer, out: set<Segment>)
    requires SenderFree(p) && Local(p, inbox, step, q, out)
    requires (step.GotReply? || step.GotFirstAck?) ==> step.seg.ack == 1
    ensures SenderFree(q)
  {
    hide SenderFree, Local;
    NotRefused(p, inbox, step, q, out);
    if step.GotAck? {
      AckFree(p, inbox, step.seg, step.m, q);
    } else if step.FillSlot? {
      FillFree(p, inbox, q);
    } else if step.SetFront? || step.AdvanceRear? {
      IndexFree(p, inbox, step, q);
    } else if step.StoreEntry? {
      StoreFree(p, inbox, q);
    } else if step.Connect? || step.GotSyn? || step.GotData? || step.GotReply? || step.GotFirstAck? {
      OpenFree(p, inbox, step, q, out);
    } else if step.Write? || step.Transmit? || step.Account? || step.Return? {
      SendFree(p, inbox, step, q, out);
    } else {
      WaitFree(p, inbox, step, q, out);
    }
  }

  /** Whatever is sent or sent again is part of the stream. */
  lemma OutGenuine(p: Peer, inbox: set<Segment>, step: LocalStep, q: Peer, out: set<Segment>)
    requires SenderFree(p) && Local(p, inbox, step, q, out)
    ensures forall sn, payload :: Data(sn, payload) in out ==> q.phase == Established && Genuine(sn, payload, q.sent)
  {
    hide Words, Queue.Contents, Queue.Length, Queue.Valid, Genuine, SegmentAt;
  }

  // ---------------------------------------------------------------- runs

  ghost predicate SafeInv(s: State) {
    && SenderFree(s.client) && SenderFree(s.server) && HandshakeInv(s)
    && LinkSafe(s.client, s.server, s.toServer, s.toClient)
    && LinkSafe(s.server, s.client, s.toClient, s.toServer)
  }

  lemma InitSafe(s: State)
    requires Init(s)
    ensures SafeInv(s)
  {}

  lemma NoneSent(p: Peer)
    requires SenderFree(p)
    ensures p.phase != Established ==> p.sent == []
  {}

  lemma ClientSafe(s: State, step: LocalStep, t: State)
    requires SafeInv(s) && ClientMove(s, step, t)
    ensures SafeInv(t)
  {
    hide SenderFree, LinkSafe, HandshakeInv, Local;
    NoneSent(s.client);
    var out :| Local(s.client, s.toClient, step, t.client, out) && t.toServer == s.toServer + out;
    ClientOpens(s, step, t);
    HandshakeClient(s, step, t, out);
    LocalFree(s.client, s.toClient, step, t.client, out);
    OutGenuine(s.client, s.toClient, step, t.client, out);
    SenderKeepsSafe(s.client, s.server, s.toServer, s.toClient, step, t.client, out);
    ReceiverKeepsSafe(s.server, s.client, s.toClient, s.toServer, step, t.client, out);
  }

  lemma ServerSafe(s: State, step: LocalStep, t: State)
    requires SafeInv(s) && ServerMove(s, step, t)
    ensures SafeInv(t)
  {
    hide SenderFree, LinkSafe, HandshakeInv, Local;
    NoneSent(s.server);
    var out :| Local(s.server, s.toServer, step, t.server, out) && t.toClient == s.toClient + out;
    ServerOpens(s, step, t);
    HandshakeServer(s, step, t, out);
    LocalFree(s.server, s.toServer, step, t.server, out);
    OutGenuine(s.server, s.toServer, step, t.server, out);
    SenderKeepsSafe(s.server, s.client, s.toClient, s.toServer, step, t.server, out);
    ReceiverKeepsSafe(s.client, s.server, s.toServer, s.toClient, step, t.server, out);
  }

  lemma {:induction false} FreeRunKeeps(states: seq<State>, i: nat)
    requires FreeRun(states) && i < |states|
    ensures SafeInv(states[i])
  {
    hide SafeInv, Init, ClientMove, ServerMove;
    if i == 0 {
      InitSafe(states[0]);
    } else {
      FreeRunKeeps(states, i - 1);
      var s, t := states[i - 1], states[i];
      assert Goes(s, t);
      if step :| ClientMove(s, step, t) {
        ClientSafe(s, step, t);
      } else {
        var step :| ServerMove(s, step, t);
        ServerSafe(s, step, t);
      }
    }
  }

  /** Safety of both directions in every state of every run: what has been received is a prefix
      of what was packed, no acknowledgement in flight exceeds it, and every data segment in
      flight carries the right bytes of the stream. */
  lemma RunSafe(states: seq<State>, i: nat)
    requires FreeRun(states) && i < |states|
    ensures var s := states[i];
      && s.server.rx.buffer <= s.client.sent && s.client.rx.buffer <= s.server.sent
      && (forall sn, ack :: Ack(sn, ack) in s.toClient || SynAck(sn, ack) in s.toClient ==> ack <= 1 + |s.server.rx.buffer|)
      && (forall sn, ack :: Ack(sn, ack) in s.toServer ==> ack <= 1 + |s.client.rx.buffer|)
      && (forall sn, b :: Data(sn, b) in s.toServer ==> Genuine(sn, b, s.client.sent))
      && (forall sn, b :: Data(sn, b) in s.toClient ==> Genuine(sn, b, s.server.sent))
  {
    FreeRunKeeps(states, i);
    hide FreeRun, SenderFree, HandshakeInv, Genuine;
  }
}
