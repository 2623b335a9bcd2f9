/** tcp.c and socket.c as a protocol: two endpoints, each both sender and receiver, over a
    network that loses, duplicates and reorders segments (a segment once sent stays available
    for delivery any number of times, or none). Acknowledgement interrupts may come between any
    two steps of tcp_tx, the three assignments of enqueue included. Sequence numbers are unbounded;
    SequenceNumbersFit says when the 32-bit arithmetic of the code agrees. */
module TcpSpec {
  import opened Common
  import Queue

  const MSS: nat := 1460
  const WINDOW_LENGTH: nat := 10
  const INITIAL_SEQ: nat := 0

  datatype Segment =
    | Syn(sn: int)
    | SynAck(sn: int, ack: int)
    | Ack(sn: int, ack: int)
    | Data(sn: int, payload: seq<Byte>)

  // ---------------------------------------------------------------- the sender

  /** A struct queued_packet: a segment kept for retransmission. */
  datatype Slot = Slot(sn: int, payload: seq<Byte>)

  /** The sending half as it is meant: window lists the queued slots, oldest first. */
  datatype Tx = Tx(base: int, next: int, window: seq<nat>, slots: seq<Slot>)

  /** The loop that removes acknowledged segments from the front of the window. */
  function Popped(tx: Tx, ack: int): (r: Tx)
    decreases |tx.window|
  {
    if tx.window != [] && tx.window[0] < |tx.slots|
       && ack >= tx.slots[tx.window[0]].sn + |tx.slots[tx.window[0]].payload| then
      Popped(tx.(window := tx.window[1..], base := tx.base + |tx.slots[tx.window[0]].payload|), ack)
    else tx
  }

  function OnAck(tx: Tx, ack: int): (r: Tx) {
    if ack < tx.base || ack > tx.next then tx else Popped(tx, ack)
  }

  /** How many segments tcp_tx makes of n bytes: the last one is empty when MSS divides n. */
  function Segments(n: nat): (k: nat) { n / MSS + 1 }

  /** Segment i of a call. Every segment starts at the first byte of the caller's buffer. */
  function SegmentAt(p: seq<Byte>, i: nat): (s: seq<Byte>)
    requires i < Segments(|p|)
  {
    if i == |p| / MSS then p[..|p| % MSS] else p[..MSS]
  }

  function Pack(tx: Tx, offset: nat, payload: seq<Byte>): (r: Tx)
    requires offset < |tx.slots|
  {
    tx.(window := tx.window + [offset], slots := tx.slots[offset := Slot(tx.next, payload)])
  }

  // ---------------------------------------------------------------- the sender in memory

  /** The sending half of a tcp_connection. */
  datatype Raw = Raw(base: int, next: int, ring: Queue.Ring, slots: seq<Slot>)

  /** The ring holds addresses of queued packets; slot k lives at a non-zero address. */
  function Address(slot: nat): (x: int) { slot + 1 }

  /** The slot at an address; WINDOW_LENGTH when there is none. */
  function SlotOf(x: int): (k: nat) { if x >= 1 then x - 1 else WINDOW_LENGTH }

  predicate Readable(raw: Raw, x: int) { 1 <= x <= |raw.slots| }

  predicate Acked(raw: Raw, x: int, ack: int) {
    Readable(raw, x) && ack >= raw.slots[x - 1].sn + |raw.slots[x - 1].payload|
  }

  predicate Unacked(raw: Raw, x: int, ack: int) {
    Readable(raw, x) && ack < raw.slots[x - 1].sn + |raw.slots[x - 1].payload|
  }

  function PopOne(raw: Raw): (r: Raw)
    requires Readable(raw, Queue.GetFront(raw.ring))
  {
    raw.(base := raw.base + |raw.slots[Queue.GetFront(raw.ring) - 1].payload|, ring := Queue.Dequeued(raw.ring))
  }

  /** tcp_receive's loop on whatever the ring holds: it goes round m times and then stops. At an
      entry that is not the address of a slot it does neither, and it may never stop. */
  ghost predicate AckLoop(raw: Raw, ack: int, m: nat, r: Raw)
    decreases m
  {
    var x := Queue.GetFront(raw.ring);
    if m == 0 then r == raw && (Queue.IsEmpty(raw.ring) || Unacked(raw, x, ack))
    else !Queue.IsEmpty(raw.ring) && Acked(raw, x, ack) && AckLoop(PopOne(raw), ack, m - 1, r)
  }

  ghost predicate AckStep(raw: Raw, ack: int, m: nat, r: Raw) {
    if ack < raw.base || ack > raw.next then m == 0 && r == raw else AckLoop(raw, ack, m, r)
  }

  // ---------------------------------------------------------------- the receiver

  /** The receiving half: the next byte expected, and the bytes received so far. */
  datatype Rx = Rx(ackSent: int, buffer: seq<Byte>)

  /** Data is kept only when it is exactly the next expected; ackSent is acknowledged either way. */
  function OnData(rx: Rx, sn: int, payload: seq<Byte>): (r: Rx) {
    if rx.ackSent == sn then Rx(sn + |payload|, rx.buffer + payload) else rx
  }

  // ---------------------------------------------------------------- an endpoint

  datatype Phase = Start | SynSent | SynAckSent | Established

  /** Where tcp_tx stands: about to test the window; segment copied to its slot; enqueue past its
      test of front, past its step of rear, done; segment sent; waiting while the window is full;
      waiting for the last acknowledgements. */
  datatype Pc = Top | Filled | Fronted | Advanced | Packed | Sent | WaitFull | Drain

  datatype Call = Idle | Call(payload: seq<Byte>, i: nat, offset: nat, pc: Pc, qp: int, from: nat)

  /** sent is every byte packed into a segment so far, in order. */
  datatype Peer = Peer(phase: Phase, tx: Raw, rx: Rx, call: Call, sent: seq<Byte>)

  datatype LocalStep =
    | Connect | GotReply(seg: Segment) | GotSyn(seg: Segment) | GotFirstAck(seg: Segment)
    | GotAck(seg: Segment, m: nat) | GotData(sn: int, payload: seq<Byte>)
    | Write(p: seq<Byte>) | FillSlot | SetFront | Refuse | AdvanceRear | StoreEntry
    | Transmit | Account | Skip | Peek | Resend | Unfull | Return

  function PcOf(c: Call): (pc: Pc) { if c.Idle? then Top else c.pc }

  ghost predicate At(p: Peer, pc: Pc) { p.call.Call? && p.call.pc == pc }

  /** At a place where tcp_tx still has a segment of the call to queue, send or count. */
  ghost predicate Making(p: Peer, pc: Pc) { At(p, pc) && p.call.i < Segments(|p.call.payload|) }

  ghost function Current(p: Peer): (s: seq<Byte>)
    requires p.call.Call? && p.call.i < Segments(|p.call.payload|)
  {
    SegmentAt(p.call.payload, p.call.i)
  }

  /** One step of one endpoint: inbox holds the segments that may arrive, out those it sends. No step
      stands for a store to A[-1], which would overwrite the ring's size. */
  ghost predicate Local(p: Peer, inbox: set<Segment>, step: LocalStep, q: Peer, out: set<Segment>) {
    match step
    case Connect =>
      && p.phase == Start && out == {Syn(INITIAL_SEQ)}
      && q == p.(phase := SynSent, tx := p.tx.(base := INITIAL_SEQ + 1, next := INITIAL_SEQ + 1))
    case GotReply(seg) =>
      && p.phase == SynSent && seg in inbox && (seg.SynAck? || seg.Ack?)
      && out == {Ack(seg.ack - 1, seg.sn + 1)}
      && q == p.(phase := Established, tx := p.tx.(base := seg.ack, next := seg.ack, ring := Queue.Init(p.tx.ring.a)),
                 rx := p.rx.(ackSent := seg.sn + 1))
    case GotSyn(seg) =>
      && p.phase == Start && seg in inbox && seg.Syn? && out == {SynAck(INITIAL_SEQ, seg.sn + 1)}
      && q == p.(phase := SynAckSent, rx := p.rx.(ackSent := seg.sn + 1),
                 tx := p.tx.(base := INITIAL_SEQ + 1, next := INITIAL_SEQ + 1))
    case GotFirstAck(seg) =>
      && p.phase == SynAckSent && seg in inbox && (seg.SynAck? || seg.Ack?) && out == {}
      && q == p.(phase := Established, tx := p.tx.(base := seg.ack, next := seg.ack, ring := Queue.Init(p.tx.ring.a)))
    case GotAck(seg, m) =>
      && p.phase == Established && seg in inbox && (seg.SynAck? || seg.Ack?) && out == {}
      && AckStep(p.tx, seg.ack, m, q.tx) && q == p.(tx := q.tx)
    case GotData(sn, payload) =>
      && p.phase == Established && Data(sn, payload) in inbox
      && q == p.(rx := OnData(p.rx, sn, payload)) && out == {Ack(p.tx.next - 1, q.rx.ackSent)}
    case Write(payload) =>
      && p.phase == Established && p.call.Idle? && out == {}
      && q == p.(call := Call(payload, 0, 0, Top, 0, |p.sent|))
    case FillSlot =>
      && Making(p, Top) && !Queue.IsFull(p.tx.ring) && p.call.offset < |p.tx.slots| && out == {}
      && q == p.(tx := p.tx.(slots := p.tx.slots[p.call.offset := Slot(p.tx.next, Current(p))]), call := p.call.(pc := Filled))
    case SetFront =>
      && At(p, Filled) && !Queue.IsFull(p.tx.ring) && out == {}
      && q == p.(tx := p.tx.(ring := Queue.SetFront(p.tx.ring)), call := p.call.(pc := Fronted))
    case Refuse =>
      && At(p, Filled) && Queue.IsFull(p.tx.ring) && out == {}
      && q == p.(call := p.call.(pc := Packed, offset := (p.call.offset + 1) % WINDOW_LENGTH))
    case AdvanceRear =>
      && At(p, Fronted) && out == {}
      && q == p.(tx := p.tx.(ring := Queue.AdvanceRear(p.tx.ring)), call := p.call.(pc := Advanced))
    case StoreEntry =>
      && Making(p, Advanced) && 0 <= p.tx.ring.rear < |p.tx.ring.a| && out == {}
      && q == p.(tx := p.tx.(ring := Queue.Store(p.tx.ring, Address(p.call.offset))), sent := p.sent + Current(p),
                 call := p.call.(pc := Packed, offset := (p.call.offset + 1) % WINDOW_LENGTH))
    case Transmit =>
      && Making(p, Packed) && out == {Data(p.tx.next, Current(p))}
      && q == p.(call := p.call.(pc := Sent))
    case Account =>
      && Making(p, Sent) && out == {}
      && q == p.(tx := p.tx.(next := p.tx.next + |Current(p)|), call := p.call.(pc := WaitFull, i := p.call.i + 1))
    case Skip =>
      && At(p, Top) && Queue.IsFull(p.tx.ring) && out == {}
      && q == p.(call := p.call.(pc := WaitFull))
    case Peek =>
      && (At(p, WaitFull) || At(p, Drain)) && out == {}
      && q == p.(call := p.call.(qp := Queue.GetFront(p.tx.ring)))
    case Resend =>
      && p.call.Call? && Readable(p.tx, p.call.qp)
      && ((At(p, WaitFull) && Queue.IsFull(p.tx.ring)) || (At(p, Drain) && p.tx.base != p.tx.next))
      && out == {Data(p.tx.slots[p.call.qp - 1].sn, p.tx.slots[p.call.qp - 1].payload)}
      && q == p.(call := p.call.(qp := 0))
    case Unfull =>
      && At(p, WaitFull) && !Queue.IsFull(p.tx.ring) && out == {}
      && q == p.(call := p.call.(qp := 0, pc := if p.call.i == Segments(|p.call.payload|) then Drain else Top))
    case Return =>
      && At(p, Drain) && p.tx.base == p.tx.next && out == {}
      && q == p.(call := Idle)
  }

  // ---------------------------------------------------------------- what the ring means

  /** The entries the ring holds for certain: enqueue's half-made entry is not one of them. */
  ghost function Live(ring: Queue.Ring, pc: Pc): (s: seq<int>) {
    if !Queue.Valid(ring) then []
    else if pc == Advanced && Queue.Contents(ring) != [] then Queue.Contents(ring)[..|Queue.Contents(ring)| - 1]
    else Queue.Contents(ring)
  }

  ghost function Slots(entries: seq<int>): (w: seq<nat>)
    ensures |w| == |entries|
  {
    seq(|entries|, k requires 0 <= k < |entries| => SlotOf(entries[k]))
  }

  ghost function View(raw: Raw, pc: Pc): (tx: Tx) {
    Tx(raw.base, raw.next, Slots(Live(raw.ring, pc)), raw.slots)
  }

  ghost function Sender(p: Peer): (tx: Tx) { View(p.tx, PcOf(p.call)) }

  /** Between two assignments of enqueue on an empty ring, front is 0 and rear still -1. */
  ghost predicate HalfFirst(ring: Queue.Ring) { |ring.a| == Queue.QUEUE_SIZE && ring.front == 0 && ring.rear == -1 }

  ghost predicate RingOk(ring: Queue.Ring, pc: Pc) {
    match pc
    case Fronted => HalfFirst(ring) || (Queue.Valid(ring) && Queue.Contents(ring) != [])
    case Advanced => Queue.Valid(ring) && Queue.Contents(ring) != []
    case _ => Queue.Valid(ring)
  }

  /** An acknowledgement of everything counted so far that comes inside enqueue and goes on past the
      last certain entry: after the test of front, when there was one, or when the stale word the ring
      shows instead is acknowledged or no slot at all; after the step of rear, when the stale word is. */
  ghost predicate Overruns(raw: Raw, pc: Pc, ack: int) {
    && raw.base <= ack == raw.next
    && match pc
       case Fronted => HalfFirst(raw.ring) ==> !Unacked(raw, raw.ring.a[0], ack)
       case Advanced => 0 <= raw.ring.rear < |raw.ring.a| ==> !Unacked(raw, raw.ring.a[raw.ring.rear], ack)
       case _ => false
  }

  /** No acknowledgement overruns enqueue. */
  ghost predicate InTime(p: Peer, step: LocalStep) {
    step.GotAck? && (step.seg.SynAck? || step.seg.Ack?) ==> !Overruns(p.tx, PcOf(p.call), step.seg.ack)
  }

  // ---------------------------------------------------------------- the system

  datatype State = State(client: Peer, server: Peer, toServer: set<Segment>, toClient: set<Segment>)

  /** A socket's memory is zero before it is used. */
  ghost predicate IsFresh(p: Peer) {
    && p.phase == Start && p.call == Idle && p.sent == [] && p.rx.buffer == [] && |p.tx.slots| == WINDOW_LENGTH
    && |p.tx.ring.a| == Queue.QUEUE_SIZE && forall k :: 0 <= k < |p.tx.ring.a| ==> p.tx.ring.a[k] == 0
  }

  ghost predicate Init(s: State) {
    IsFresh(s.client) && IsFresh(s.server) && s.toServer == {} && s.toClient == {}
  }

  /** What the run must keep to: no call ends in an empty segment (see CleanReturnIff) and no
      acknowledgement overruns enqueue (see AckInsideIff). */
  ghost predicate Disciplined(p: Peer, step: LocalStep) {
    (step.Write? ==> |step.p| % MSS != 0) && InTime(p, step)
  }

  ghost predicate ClientMove(s: State, step: LocalStep, t: State) {
    && !step.GotSyn? && !step.GotFirstAck? && t.server == s.server && t.toClient == s.toClient
    && exists out :: Local(s.client, s.toClient, step, t.client, out) && t.toServer == s.toServer + out
  }

  ghost predicate ServerMove(s: State, step: LocalStep, t: State) {
    && !step.Connect? && !step.GotReply? && t.client == s.client && t.toServer == s.toServer
    && exists out :: Local(s.server, s.toServer, step, t.server, out) && t.toClient == s.toClient + out
  }

  ghost predicate ClientStep(s: State, step: LocalStep, t: State) { Disciplined(s.client, step) && ClientMove(s, step, t) }

  ghost predicate ServerStep(s: State, step: LocalStep, t: State) { Disciplined(s.server, step) && ServerMove(s, step, t) }

  ghost predicate Next(s: State, t: State) {
    (exists step :: ClientStep(s, step, t)) || (exists step :: ServerStep(s, step, t))
  }

  // ---------------------------------------------------------------- the invariant

  /** These bytes are the ones at this place in the stream. */
  ghost predicate Genuine(sn: int, payload: seq<Byte>, sent: seq<Byte>) {
    1 <= sn && sn - 1 + |payload| <= |sent| && payload == sent[sn - 1..sn - 1 + |payload|]
  }

  /** The queued segments are not empty and follow one another in the stream, from sequence
      number at to its end. */
  ghost predicate Chain(window: seq<nat>, slots: seq<Slot>, at: int, sent: seq<Byte>)
    decreases |window|
  {
    if window == [] then at == 1 + |sent|
    else
      && window[0] < |slots| && slots[window[0]].sn == at && Genuine(at, slots[window[0]].payload, sent)
      && slots[window[0]].payload != []
      && Chain(window[1..], slots, at + |slots[window[0]].payload|, sent)
  }

  /** The first j segments of a call, one after the other. */
  ghost function PackedBytes(p: seq<Byte>, j: nat): (s: seq<Byte>)
    requires j <= Segments(|p|)
  {
    if j == 0 then [] else PackedBytes(p, j - 1) + SegmentAt(p, j - 1)
  }

  /** A segment is queued that next_seq does not count yet. */
  ghost predicate Pending(c: Call) { c.Call? && (c.pc == Packed || c.pc == Sent) }

  ghost function Unaccounted(c: Call): (n: nat) {
    if Pending(c) && c.i < Segments(|c.payload|) then |SegmentAt(c.payload, c.i)| else 0
  }

  /** The window uses the slots just behind the next one to be filled. */
  ghost predicate Slotted(window: seq<nat>, offset: nat) {
    |window| <= WINDOW_LENGTH &&
    forall k :: 0 <= k < |window| ==> window[k] == (offset + 2 * WINDOW_LENGTH - |window| + k) % WINDOW_LENGTH
  }

  /** The segment is in its slot and enqueue has not finished with it. */
  ghost predicate Queueing(pc: Pc) { pc == Filled || pc == Fronted || pc == Advanced }

  ghost predicate CallInv(c: Call, tx: Tx, sent: seq<Byte>) {
    match c
    case Idle => tx.window == []
    case Call(payload, i, offset, pc, qp, from) =>
      && i <= Segments(|payload|) && |payload| % MSS != 0 && offset < WINDOW_LENGTH
      && Slotted(tx.window, offset)
      && (pc != WaitFull && pc != Drain ==> i < Segments(|payload|))
      && (pc == Drain ==> i == Segments(|payload|))
      && (Queueing(pc) ==> |tx.window| < WINDOW_LENGTH == |tx.slots| && tx.slots[offset] == Slot(tx.next, SegmentAt(payload, i)))
      && (1 <= qp ==> (pc == WaitFull || pc == Drain) && qp <= |tx.slots| && Genuine(tx.slots[qp - 1].sn, tx.slots[qp - 1].payload, sent))
      && from <= |sent| && sent[from..] == PackedBytes(payload, i + if Pending(c) then 1 else 0)
  }

  ghost predicate TxInv(tx: Tx, c: Call, sent: seq<Byte>) {
    && 1 <= tx.base <= tx.next && tx.next + Unaccounted(c) == 1 + |sent|
    && Chain(tx.window, tx.slots, tx.base, sent) && CallInv(c, tx, sent)
  }

  ghost predicate SenderInv(p: Peer) {
    && |p.tx.slots| == WINDOW_LENGTH && |p.tx.ring.a| == Queue.QUEUE_SIZE
    && (p.phase != Established ==> p.sent == [] && p.call.Idle?)
    && (p.phase == Established ==> RingOk(p.tx.ring, PcOf(p.call)) && TxInv(Sender(p), p.call, p.sent))
  }

  ghost predicate Heard(q: Peer) { q.phase == SynAckSent || q.phase == Established }

  /** One direction of the connection: p sends, q receives; data is in flight from p to q and
      acknowledgements from q to p. */
  ghost predicate LinkSafe(p: Peer, q: Peer, data: set<Segment>, back: set<Segment>) {
    && q.rx.buffer <= p.sent
    && (Heard(q) ==> q.rx.ackSent == 1 + |q.rx.buffer|) && (!Heard(q) ==> q.rx.buffer == [])
    && (forall sn, payload :: Data(sn, payload) in data ==> p.phase == Established && Genuine(sn, payload, p.sent))
    && (forall sn, ack :: Ack(sn, ack) in back ==> 1 <= ack <= 1 + |q.rx.buffer|)
    && (forall sn, ack :: SynAck(sn, ack) in back ==> 1 <= ack <= 1 + |q.rx.buffer|)
  }

  /** And the sender has not counted more as acknowledged than was received. */
  ghost predicate LinkInv(p: Peer, q: Peer, data: set<Segment>, back: set<Segment>) {
    LinkSafe(p, q, data, back) && (p.phase == Established ==> p.tx.base <= 1 + |q.rx.buffer|)
  }

  ghost predicate HandshakeInv(s: State) {
    && s.client.phase != SynAckSent && s.server.phase != SynSent
    && (s.server.phase == Established ==> s.client.phase == Established)
    && (forall sn, ack :: Ack(sn, ack) in s.toServer ==> s.client.phase == Established)
    && (forall sn, ack :: Ack(sn, ack) in s.toClient ==> s.server.phase == Established)
    && (forall sn, ack :: SynAck(sn, ack) !in s.toServer)
    && (forall sn, ack :: SynAck(sn, ack) in s.toClient ==> sn == INITIAL_SEQ)
    && (forall sn :: Syn(sn) in s.toServer ==> sn == INITIAL_SEQ)
  }

  ghost predicate Inv(s: State) {
    && SenderInv(s.client) && SenderInv(s.server) && HandshakeInv(s)
    && LinkInv(s.client, s.server, s.toServer, s.toClient)
    && LinkInv(s.server, s.client, s.toClient, s.toServer)
  }

  // ---------------------------------------------------------------- the sender keeps its window

  /** Acknowledgements remove whole segments from the front and nothing else. */
  lemma {:induction false} PoppedKeeps(tx: Tx, ack: int, sent: seq<Byte>)
    requires Chain(tx.window, tx.slots, tx.base, sent)
    ensures var r := Popped(tx, ack);
      && r.slots == tx.slots && r.next == tx.next && |r.window| <= |tx.window|
      && r.window == tx.window[|tx.window| - |r.window|..]
      && Chain(r.window, r.slots, r.base, sent)
      && tx.base <= r.base && (r.base == tx.base || r.base <= ack)
    decreases |tx.window|
  {
    if tx.window != [] && ack >= tx.slots[tx.window[0]].sn + |tx.slots[tx.window[0]].payload| {
      PoppedKeeps(tx.(window := tx.window[1..], base := tx.base + |tx.slots[tx.window[0]].payload|), ack, sent);
    }
  }

  /** A packed segment joins the end of the chain. */
  lemma {:induction false} ChainExtends(window: seq<nat>, slots: seq<Slot>, at: int, sent: seq<Byte>, offset: nat, s: seq<Byte>)
    requires Chain(window, slots, at, sent) && s != [] && offset < |slots|
    requires offset !in window
    ensures Chain(window + [offset], slots[offset := Slot(1 + |sent|, s)], at, sent + s)
    decreases |window|
  {
    var slots' := slots[offset := Slot(1 + |sent|, s)];
    if window == [] {
      assert Chain([], slots', at + |s|, sent + s);
      assert (window + [offset])[1..] == [];
    } else {
      ChainExtends(window[1..], slots, at + |slots[window[0]].payload|, sent, offset, s);
      assert (window + [offset])[1..] == window[1..] + [offset];
      assert slots'[window[0]] == slots[window[0]];
    }
  }

  // ---------------------------------------------------------------- acknowledgements on the ring

  lemma SlotsTail(entries: seq<int>)
    requires entries != []
    ensures Slots(entries[1..]) == Slots(entries)[1..]
  {}

  lemma PopView(raw: Raw)
    requires Queue.Valid(raw.ring) && !Queue.IsEmpty(raw.ring) && Readable(raw, Queue.GetFront(raw.ring))
    ensures var tx := View(raw, Top);
      && tx.window != [] && tx.window[0] == Queue.GetFront(raw.ring) - 1 && Queue.Valid(PopOne(raw).ring)
      && View(PopOne(raw), Top) == tx.(window := tx.window[1..], base := tx.base + |tx.slots[tx.window[0]].payload|)
  {
    SlotsTail(Queue.Contents(raw.ring));
  }

  /** On a ring that nobody is changing, the loop removes the acknowledged segments. */
  lemma {:induction false} LoopIsPopped(raw: Raw, ack: int, m: nat, r: Raw)
    requires Queue.Valid(raw.ring) && AckLoop(raw, ack, m, r)
    ensures Queue.Valid(r.ring) && View(r, Top) == Popped(View(raw, Top), ack)
    decreases m
  {
    hide Queue.Contents, Queue.Length;
    if m > 0 {
      PopView(raw);
      LoopIsPopped(PopOne(raw), ack, m - 1, r);
    } else if !Queue.IsEmpty(raw.ring) {
      PopView(raw);
    }
  }

  lemma {:induction false} LoopEnds(raw: Raw, ack: int, m: nat, r: Raw)
    requires AckLoop(raw, ack, m, r)
    ensures r.slots == raw.slots && r.next == raw.next && r.ring.a == raw.ring.a
    ensures Queue.IsEmpty(r.ring) || Unacked(r, Queue.GetFront(r.ring), ack)
    ensures raw.ring.rear == -1 && 0 <= raw.ring.front < Queue.QUEUE_SIZE ==> r.ring.rear == -1 && 0 <= r.ring.front < Queue.QUEUE_SIZE
    decreases m
  {
    if m > 0 {
      LoopEnds(PopOne(raw), ack, m - 1, r);
    }
  }

  lemma {:induction false} LoopRuns(raw: Raw, ack: int) returns (m: nat, r: Raw)
    requires Queue.Valid(raw.ring) && forall k :: 0 <= k < |Queue.Contents(raw.ring)| ==> Readable(raw, Queue.Contents(raw.ring)[k])
    ensures AckLoop(raw, ack, m, r)
    decreases |Queue.Contents(raw.ring)|
  {
    hide Queue.Contents, Queue.Length;
    if Queue.IsEmpty(raw.ring) || Unacked(raw, Queue.GetFront(raw.ring), ack) {
      m, r := 0, raw;
    } else {
      m, r := LoopRuns(PopOne(raw), ack);
      m := m + 1;
    }
  }

  /** The whole window goes if and only if everything in it is acknowledged. */
  lemma {:induction false} PoppedAll(tx: Tx, ack: int, sent: seq<Byte>)
    requires Chain(tx.window, tx.slots, tx.base, sent) && ack <= 1 + |sent|
    ensures Popped(tx, ack).window == [] <==> tx.window == [] || ack == 1 + |sent|
    decreases |tx.window|
  {
    if tx.window != [] {
      var rest := tx.(window := tx.window[1..], base := tx.base + |tx.slots[tx.window[0]].payload|);
      if ack >= rest.base {
        PoppedAll(rest, ack, sent);
      } else {
        ChainWithin(rest.window, rest.slots, rest.base, sent);
      }
    }
  }

  lemma {:induction false} ChainWithin(window: seq<nat>, slots: seq<Slot>, at: int, sent: seq<Byte>)
    requires Chain(window, slots, at, sent)
    ensures at <= 1 + |sent|
    decreases |window|
  {
    if window != [] {
      ChainWithin(window[1..], slots, at + |slots[window[0]].payload|, sent);
    }
  }

  /** One more entry behind the window: the loop reaches it only when the window is used up. */
  lemma {:induction false} PoppedAppend(tx: Tx, x: nat, ack: int)
    ensures Popped(tx.(window := tx.window + [x]), ack) ==
      var r := Popped(tx, ack);
      if r.window == [] then Popped(r.(window := [x]), ack) else r.(window := r.window + [x])
    decreases |tx.window|
  {
    if tx.window == [] {
      assert tx.window + [x] == [x];
    } else if tx.window[0] < |tx.slots| && ack >= tx.slots[tx.window[0]].sn + |tx.slots[tx.window[0]].payload| {
      assert (tx.window + [x])[1..] == tx.window[1..] + [x];
      PoppedAppend(tx.(window := tx.window[1..], base := tx.base + |tx.slots[tx.window[0]].payload|), x, ack);
    }
  }

  /** After the step of rear the ring shows one entry more than it holds. */
  lemma AdvancedView(raw: Raw)
    requires Queue.Valid(raw.ring) && Queue.Contents(raw.ring) != []
    ensures 0 <= raw.ring.rear < |raw.ring.a|
    ensures View(raw, Top) == View(raw, Advanced).(window := View(raw, Advanced).window + [SlotOf(raw.ring.a[raw.ring.rear])])
  {
    LastEntry(raw.ring);
    hide Queue.Contents, Queue.Length, Queue.Valid;
    var c := Queue.Contents(raw.ring);
    assert Slots(c) == Slots(c[..|c| - 1]) + [SlotOf(c[|c| - 1])];
  }

  lemma LastEntry(ring: Queue.Ring)
    requires Queue.Valid(ring) && Queue.Contents(ring) != []
    ensures 0 <= ring.rear < |ring.a| && Queue.Contents(ring)[|Queue.Contents(ring)| - 1] == ring.a[ring.rear]
  {}

  lemma PlainView(raw: Raw, pc: Pc)
    requires pc != Advanced
    ensures View(raw, pc) == View(raw, Top)
  {}

  lemma HalfView(raw: Raw, pc: Pc)
    requires HalfFirst(raw.ring)
    ensures View(raw, pc).window == []
  {}

  lemma NoEntries(raw: Raw, pc: Pc)
    requires Queue.Valid(raw.ring)
    ensures View(raw, Top).window == [] <==> Queue.Contents(raw.ring) == []
  {}

  /** An acknowledgement in time takes the acknowledged segments off the window, wherever tcp_tx
      stands. */
  lemma AckInside(raw: Raw, c: Call, sent: seq<Byte>, ack: int, m: nat, r: Raw)
    requires RingOk(raw.ring, PcOf(c)) && TxInv(View(raw, PcOf(c)), c, sent) && |raw.slots| == WINDOW_LENGTH
    requires raw.base <= ack <= raw.next && AckLoop(raw, ack, m, r) && !Overruns(raw, PcOf(c), ack)
    ensures RingOk(r.ring, PcOf(c)) && View(r, PcOf(c)) == Popped(View(raw, PcOf(c)), ack)
  {
    hide Queue.Contents, Queue.Length, Chain, CallInv, AckLoop, View;
    var pc := PcOf(c);
    if pc == Advanced {
      AckAdvanced(raw, c, sent, ack, m, r);
    } else if pc == Fronted {
      AckFronted(raw, c, sent, ack, m, r);
    } else {
      LoopIsPopped(raw, ack, m, r);
      PlainView(raw, pc);
      PlainView(r, pc);
    }
  }

  /** Inside enqueue everything queued has been counted. */
  lemma QueueingCounted(raw: Raw, c: Call, sent: seq<Byte>)
    requires TxInv(View(raw, PcOf(c)), c, sent) && Queueing(PcOf(c))
    ensures raw.next == 1 + |sent| && (View(raw, PcOf(c)).window == [] ==> raw.base == raw.next)
  {}

  lemma AckFronted(raw: Raw, c: Call, sent: seq<Byte>, ack: int, m: nat, r: Raw)
    requires PcOf(c) == Fronted && RingOk(raw.ring, Fronted) && TxInv(View(raw, Fronted), c, sent) && |raw.slots| == WINDOW_LENGTH
    requires raw.base <= ack <= raw.next && AckLoop(raw, ack, m, r) && !Overruns(raw, Fronted, ack)
    ensures RingOk(r.ring, Fronted) && View(r, Fronted) == Popped(View(raw, Fronted), ack)
  {
    QueueingCounted(raw, c, sent);
    hide Queue.Contents, Queue.Length, Chain, CallInv, View;
    if HalfFirst(raw.ring) {
      HalfView(raw, Fronted);
    } else {
      PlainView(raw, Fronted);
      PlainView(r, Fronted);
      LoopIsPopped(raw, ack, m, r);
      NoEntries(r, Fronted);
      NoEntries(raw, Fronted);
      ViewFields(raw, Top);
      PoppedAll(View(raw, Top), ack, sent);
    }
  }

  lemma ViewFields(raw: Raw, pc: Pc)
    ensures var tx := View(raw, pc); tx.base == raw.base && tx.next == raw.next && tx.slots == raw.slots
  {}

  lemma AckAdvanced(raw: Raw, c: Call, sent: seq<Byte>, ack: int, m: nat, r: Raw)
    requires PcOf(c) == Advanced && RingOk(raw.ring, Advanced) && TxInv(View(raw, Advanced), c, sent) && |raw.slots| == WINDOW_LENGTH
    requires raw.base <= ack <= raw.next && AckLoop(raw, ack, m, r) && !Overruns(raw, Advanced, ack)
    ensures RingOk(r.ring, Advanced) && View(r, Advanced) == Popped(View(raw, Advanced), ack)
  {
    hide Queue.Contents, Queue.Length, Queue.Valid, Chain, CallInv, View, AckLoop, Popped;
    QueueingCounted(raw, c, sent);
    AdvancedView(raw);
    ViewFields(raw, Advanced);
    var tx, x := View(raw, Advanced), raw.ring.a[raw.ring.rear];
    PoppedAll(tx, ack, sent);
    PoppedSlots(tx, ack);
    PoppedAppend(tx, SlotOf(x), ack);
    StopsAt(raw, Popped(tx, ack), x, ack);
    LoopIsPopped(raw, ack, m, r);
    AdvancedBack(r, Popped(tx, ack), SlotOf(x));
  }

  lemma {:induction false} PoppedSlots(tx: Tx, ack: int)
    ensures Popped(tx, ack).slots == tx.slots
    decreases |tx.window|
  {
    if tx.window != [] && tx.window[0] < |tx.slots| && ack >= tx.slots[tx.window[0]].sn + |tx.slots[tx.window[0]].payload| {
      PoppedSlots(tx.(window := tx.window[1..], base := tx.base + |tx.slots[tx.window[0]].payload|), ack);
    }
  }

  lemma StopsAt(raw: Raw, tx: Tx, x: int, ack: int)
    requires tx.slots == raw.slots
    ensures Unacked(raw, x, ack) ==> Popped(tx.(window := [SlotOf(x)]), ack) == tx.(window := [SlotOf(x)])
  {}

  lemma AdvancedBack(r: Raw, tx: Tx, x: nat)
    requires Queue.Valid(r.ring) && View(r, Top) == tx.(window := tx.window + [x])
    ensures Queue.Contents(r.ring) != [] && View(r, Advanced) == tx
  {
    hide Queue.Contents, Queue.Length;
    NoEntries(r, Advanced);
    AdvancedView(r);
    Unappended(tx, View(r, Advanced), x, SlotOf(r.ring.a[r.ring.rear]));
  }

  lemma Unappended(a: Tx, b: Tx, x: nat, y: nat)
    requires a.(window := a.window + [x]) == b.(window := b.window + [y])
    ensures a == b
  {
    assert (a.window + [x])[..|a.window|] == a.window;
    assert (b.window + [y])[..|b.window|] == b.window;
  }

  /** An acknowledgement that overruns enqueue leaves no ring from which enqueue could go on, if the
      loop ends at all. */
  lemma AckOverruns(raw: Raw, c: Call, sent: seq<Byte>, ack: int, m: nat, r: Raw)
    requires RingOk(raw.ring, PcOf(c)) && TxInv(View(raw, PcOf(c)), c, sent) && |raw.slots| == WINDOW_LENGTH
    requires AckLoop(raw, ack, m, r) && Overruns(raw, PcOf(c), ack)
    ensures !RingOk(r.ring, PcOf(c))
  {
    hide Queue.Contents, Queue.Length, Queue.Valid, Chain, CallInv, View, AckLoop, Popped;
    QueueingCounted(raw, c, sent);
    var pc := PcOf(c);
    LoopEnds(raw, ack, m, r);
    if HalfFirst(raw.ring) {
      HalfInvalid(raw.ring);
      HalfInvalid(r.ring);
    } else {
      ViewFields(raw, pc);
      PoppedAll(View(raw, pc), ack, sent);
      LoopIsPopped(raw, ack, m, r);
      NoEntries(r, pc);
      if pc == Fronted {
        PlainView(raw, Fronted);
      } else {
        AdvancedView(raw);
        PoppedSlots(View(raw, pc), ack);
        PoppedAppend(View(raw, pc), SlotOf(raw.ring.a[raw.ring.rear]), ack);
        LastGone(raw, ack, r, Popped(View(raw, pc), ack));
      }
    }
  }

  lemma HalfInvalid(ring: Queue.Ring)
    ensures ring.rear == -1 && ring.front != -1 ==> !Queue.Valid(ring)
  {}

  lemma LastGone(raw: Raw, ack: int, r: Raw, rt: Tx)
    requires Queue.Valid(raw.ring) && raw.ring.rear != -1 && Queue.Valid(r.ring) && r.slots == raw.slots == rt.slots && |raw.slots| == WINDOW_LENGTH
    requires Queue.IsEmpty(r.ring) || Unacked(r, Queue.GetFront(r.ring), ack)
    requires var x := raw.ring.a[raw.ring.rear]; !Unacked(raw, x, ack) && View(r, Top) == Popped(rt.(window := [SlotOf(x)]), ack)
    ensures Queue.Contents(r.ring) == []
  {
    FrontSlot(r);
    hide Queue.Contents, Queue.Length, View;
  }

  lemma FrontSlot(raw: Raw)
    requires Queue.Valid(raw.ring)
    ensures |View(raw, Top).window| == |Queue.Contents(raw.ring)|
    ensures Queue.Contents(raw.ring) != [] ==> View(raw, Top).window[0] == SlotOf(Queue.GetFront(raw.ring))
  {}

  /** Wherever tcp_tx stands, an acknowledgement leaves the sender sound if and only if it does not
      overrun enqueue. */
  lemma AckInsideIff(p: Peer, ack: int)
    requires SenderInv(p) && p.phase == Established
    ensures (exists m, r :: AckStep(p.tx, ack, m, r) && SenderInv(p.(tx := r))) <==> !Overruns(p.tx, PcOf(p.call), ack)
  {
    hide Queue.Contents, Queue.Length, Chain, CallInv, View, AckLoop, Overruns;
    var raw, pc := p.tx, PcOf(p.call);
    if Overruns(raw, pc, ack) {
      OverrunsReads(raw, pc, ack);
      forall m, r | AckStep(raw, ack, m, r) ensures !SenderInv(p.(tx := r)) {
        AckOverruns(raw, p.call, p.sent, ack, m, r);
      }
    } else {
      var m, r := AckRuns(p, ack);
      AckStepKeeps(p, ack, m, r);
    }
  }

  lemma OverrunsReads(raw: Raw, pc: Pc, ack: int)
    requires Overruns(raw, pc, ack)
    ensures raw.base <= ack <= raw.next
  {}

  lemma AckRuns(p: Peer, ack: int) returns (m: nat, r: Raw)
    requires SenderInv(p) && p.phase == Established && !Overruns(p.tx, PcOf(p.call), ack)
    ensures AckStep(p.tx, ack, m, r)
  {
    if ack < p.tx.base || ack > p.tx.next {
      m, r := 0, p.tx;
    } else if At(p, Fronted) && HalfFirst(p.tx.ring) {
      QueueingCounted(p.tx, p.call, p.sent);
      m, r := 0, p.tx;
    } else if At(p, Advanced) {
      QueueingCounted(p.tx, p.call, p.sent);
      AdvancedView(p.tx);
      m, r := AdvancedRuns(p.tx, p.sent, ack);
    } else {
      ReadableEntries(p.tx, PcOf(p.call), p.sent);
      m, r := LoopRuns(p.tx, ack);
    }
  }

  lemma ReadableEntries(raw: Raw, pc: Pc, sent: seq<Byte>)
    requires pc != Advanced && Queue.Valid(raw.ring) && |raw.slots| == WINDOW_LENGTH && Chain(View(raw, pc).window, raw.slots, raw.base, sent)
    ensures forall k :: 0 <= k < |Queue.Contents(raw.ring)| ==> Readable(raw, Queue.Contents(raw.ring)[k])
  {
    forall k | 0 <= k < |Queue.Contents(raw.ring)| ensures Readable(raw, Queue.Contents(raw.ring)[k]) {
      ChainAt(View(raw, pc).window, raw.slots, raw.base, sent, k);
    }
  }

  lemma PopAdvanced(raw: Raw)
    requires Queue.Valid(raw.ring) && View(raw, Advanced).window != [] && Readable(raw, Queue.GetFront(raw.ring))
    ensures var r, tx := PopOne(raw), View(raw, Advanced);
      && Queue.Contents(raw.ring) != [] && tx.window[0] == SlotOf(Queue.GetFront(raw.ring))
      && Queue.Valid(r.ring) && Queue.Contents(r.ring) != [] && r.ring.rear == raw.ring.rear && r.ring.a == raw.ring.a
      && View(r, Advanced).window == tx.window[1..]
  {}

  lemma FrontOfView(raw: Raw)
    requires Queue.Valid(raw.ring) && View(raw, Advanced).window != [] && |raw.slots| == WINDOW_LENGTH && View(raw, Advanced).window[0] < |raw.slots|
    ensures Readable(raw, Queue.GetFront(raw.ring))
  {}

  lemma {:induction false} AdvancedRuns(raw: Raw, sent: seq<Byte>, ack: int) returns (m: nat, r: Raw)
    requires Queue.Valid(raw.ring) && Queue.Contents(raw.ring) != [] && |raw.slots| == WINDOW_LENGTH && 0 <= raw.ring.rear < |raw.ring.a|
    requires Chain(View(raw, Advanced).window, raw.slots, raw.base, sent) && raw.base <= ack <= 1 + |sent|
    requires ack == 1 + |sent| ==> Unacked(raw, raw.ring.a[raw.ring.rear], ack)
    ensures AckLoop(raw, ack, m, r)
    decreases |View(raw, Advanced).window|
  {
    hide Queue.Contents, Queue.Length, Queue.Valid, View;
    if View(raw, Advanced).window == [] {
      OneEntry(raw);
      m, r := 0, raw;
    } else {
      FrontOfView(raw);
      PopAdvanced(raw);
      if Unacked(raw, Queue.GetFront(raw.ring), ack) {
        m, r := 0, raw;
      } else {
        NextInChain(raw, sent, ack);
        m, r := AdvancedRuns(PopOne(raw), sent, ack);
        m := m + 1;
      }
    }
  }

  lemma NextInChain(raw: Raw, sent: seq<Byte>, ack: int)
    requires var x := Queue.GetFront(raw.ring); Acked(raw, x, ack) && View(raw, Advanced).window != [] && View(raw, Advanced).window[0] == SlotOf(x)
    requires Chain(View(raw, Advanced).window, raw.slots, raw.base, sent)
    ensures PopOne(raw).base <= ack && Chain(View(raw, Advanced).window[1..], raw.slots, PopOne(raw).base, sent)
  {
    hide View;
  }

  lemma OneEntry(raw: Raw)
    requires Queue.Valid(raw.ring) && Queue.Contents(raw.ring) != [] && View(raw, Advanced).window == []
    ensures Queue.GetFront(raw.ring) == raw.ring.a[raw.ring.rear]
  {}

  lemma {:induction false} ChainAt(window: seq<nat>, slots: seq<Slot>, at: int, sent: seq<Byte>, k: nat)
    requires Chain(window, slots, at, sent) && k < |window|
    ensures window[k] < |slots| && Genuine(slots[window[k]].sn, slots[window[k]].payload, sent)
    decreases |window|
  {
    if k > 0 {
      ChainAt(window[1..], slots, at + |slots[window[0]].payload|, sent, k - 1);
    }
  }

  // ---------------------------------------------------------------- every local step keeps the sender

  /** An acknowledgement takes whole segments from the front of the window. */
  lemma OnAckKeeps(tx: Tx, c: Call, sent: seq<Byte>, ack: int)
    requires TxInv(tx, c, sent) && |tx.slots| == WINDOW_LENGTH
    ensures TxInv(OnAck(tx, ack), c, sent) && OnAck(tx, ack).slots == tx.slots && OnAck(tx, ack).next == tx.next
    ensures OnAck(tx, ack).base == tx.base || OnAck(tx, ack).base <= ack
  {
    hide Chain, Slotted, PackedBytes, Genuine, Popped, SegmentAt;
    if tx.base <= ack <= tx.next {
      PoppedKeeps(tx, ack, sent);
      if c.Call? {
        SlottedSuffix(tx.window, c.offset, |tx.window| - |Popped(tx, ack).window|);
      }
    }
  }

  /** An acknowledgement in time, wherever tcp_tx stands, has the effect it should have on the window
      and leaves the sender sound. */
  lemma AckStepKeeps(p: Peer, ack: int, m: nat, r: Raw)
    requires SenderInv(p) && p.phase == Established && AckStep(p.tx, ack, m, r) && !Overruns(p.tx, PcOf(p.call), ack)
    ensures SenderInv(p.(tx := r)) && Sender(p.(tx := r)) == OnAck(Sender(p), ack)
    ensures r.base == p.tx.base || r.base <= ack
  {
    hide Queue.Contents, Queue.Length, AckLoop, View, TxInv, Overruns, RingOk;
    var pc := PcOf(p.call);
    ViewFields(p.tx, pc);
    OnAckKeeps(Sender(p), p.call, p.sent, ack);
    if p.tx.base <= ack <= p.tx.next {
      AckInside(p.tx, p.call, p.sent, ack, m, r);
      LoopEnds(p.tx, ack, m, r);
      ViewFields(r, pc);
    }
  }

  lemma AckKeepsSender(p: Peer, inbox: set<Segment>, seg: Segment, m: nat, q: Peer)
    requires SenderInv(p) && Local(p, inbox, GotAck(seg, m), q, {}) && InTime(p, GotAck(seg, m))
    ensures SenderInv(q) && Sender(q) == OnAck(Sender(p), seg.ack)
    ensures q.tx.base == p.tx.base || q.tx.base <= seg.ack
  {
    hide SenderInv, AckStep, Overruns, Sender;
    AckStepKeeps(p, seg.ack, m, q.tx);
  }

  lemma SlottedSuffix(window: seq<nat>, offset: nat, m: nat)
    requires Slotted(window, offset) && m <= |window|
    ensures Slotted(window[m..], offset)
  {}

  lemma SlotFree(window: seq<nat>, offset: nat)
    requires Slotted(window, offset) && offset < WINDOW_LENGTH && |window| < WINDOW_LENGTH
    ensures offset !in window
    ensures Slotted(window + [offset], (offset + 1) % WINDOW_LENGTH)
  {
  }

  /** A slot outside the window may be filled. */
  lemma {:induction false} ChainOther(window: seq<nat>, slots: seq<Slot>, at: int, sent: seq<Byte>, offset: nat, slot: Slot)
    requires Chain(window, slots, at, sent) && offset < |slots| && offset !in window
    ensures Chain(window, slots[offset := slot], at, sent)
    decreases |window|
  {
    if window != [] {
      ChainOther(window[1..], slots, at + |slots[window[0]].payload|, sent, offset, slot);
    }
  }

  /** The segment is copied to a slot that the window does not use. */
  lemma FillKeepsSender(p: Peer, inbox: set<Segment>, q: Peer)
    requires SenderInv(p) && Local(p, inbox, FillSlot, q, {})
    ensures SenderInv(q)
  {
    hide Chain, Slotted, Genuine, PackedBytes, SegmentAt, View, Queue.Contents, Queue.Length;
    NotFull(p);
    var tx := Sender(p);
    ViewFields(p.tx, Top);
    FillView(p.tx, q.tx.slots);
    SlotFree(tx.window, p.call.offset);
    ChainOther(tx.window, tx.slots, tx.base, p.sent, p.call.offset, q.tx.slots[p.call.offset]);
  }

  lemma NotFull(p: Peer)
    requires SenderInv(p) && p.phase == Established && !Queue.IsFull(p.tx.ring) && Queue.Valid(p.tx.ring)
    requires PcOf(p.call) != Advanced
    ensures |Sender(p).window| < WINDOW_LENGTH
  {}

  lemma FillView(raw: Raw, slots: seq<Slot>)
    ensures View(raw.(slots := slots), Filled) == View(raw, Top).(slots := slots)
  {}

  /** The three assignments of enqueue, seen on the window: nothing, nothing, and the new entry. */
  lemma FrontView(raw: Raw)
    requires Queue.Valid(raw.ring)
    ensures var r := raw.(ring := Queue.SetFront(raw.ring)); RingOk(r.ring, Fronted) && View(r, Fronted) == View(raw, Filled)
  {}

  lemma RearView(raw: Raw)
    requires RingOk(raw.ring, Fronted) && |View(raw, Fronted).window| < WINDOW_LENGTH
    ensures var r := raw.(ring := Queue.AdvanceRear(raw.ring)); RingOk(r.ring, Advanced) && View(r, Advanced) == View(raw, Fronted)
  {
    var r := Queue.AdvanceRear(raw.ring);
    if HalfFirst(raw.ring) {
      assert Live(r, Advanced) == [];
    } else {
      Queue.AdvanceAdds(raw.ring);
      assert Live(r, Advanced) == Live(raw.ring, Fronted);
    }
  }

  lemma StoreView(raw: Raw, slot: nat)
    requires RingOk(raw.ring, Advanced)
    ensures var r := raw.(ring := Queue.Store(raw.ring, Address(slot)));
      RingOk(r.ring, Packed) && View(r, Packed) == View(raw, Advanced).(window := View(raw, Advanced).window + [slot])
  {
    Queue.StoreLast(raw.ring, Address(slot));
  }

  lemma EnqueueKeepsSender(p: Peer, inbox: set<Segment>, step: LocalStep, q: Peer)
    requires SenderInv(p) && Local(p, inbox, step, q, {}) && (step.SetFront? || step.AdvanceRear?)
    ensures SenderInv(q) && Sender(q) == Sender(p)
  {
    hide Chain, Slotted, Genuine, PackedBytes, SegmentAt, View, Queue.Contents, Queue.Length;
    if step.SetFront? {
      FrontView(p.tx);
    } else {
      RearView(p.tx);
    }
  }

  lemma StoreKeepsSender(p: Peer, inbox: set<Segment>, q: Peer)
    requires SenderInv(p) && Local(p, inbox, StoreEntry, q, {})
    ensures SenderInv(q)
  {
    hide Chain, Slotted, Genuine, PackedBytes, SegmentAt, View, Queue.Contents, Queue.Length;
    var s, tx := Current(p), Sender(p);
    StoreView(p.tx, p.call.offset);
    ViewFields(p.tx, Advanced);
    SegmentNonempty(p.call.payload, p.call.i);
    SlotFree(tx.window, p.call.offset);
    ChainExtends(tx.window, tx.slots, tx.base, p.sent, p.call.offset, s);
    assert tx.slots[p.call.offset := Slot(1 + |p.sent|, s)] == tx.slots;
    PackedNext(p.call.payload, p.call.i);
    SuffixAppend(p.sent, p.call.from, s);
  }

  /** enqueue is never refused. */
  lemma NeverRefused(p: Peer)
    requires SenderInv(p) && p.phase == Established && At(p, Filled)
    ensures !Queue.IsFull(p.tx.ring)
  {}

  /** Uninterrupted, filling the slot and enqueue's three assignments are one Pack. */
  lemma PackWhole(raw: Raw, offset: nat, s: seq<Byte>)
    requires Queue.Valid(raw.ring) && !Queue.IsFull(raw.ring) && offset < |raw.slots|
    ensures var filled := raw.slots[offset := Slot(raw.next, s)];
      var r := Raw(raw.base, raw.next, Queue.Store(Queue.AdvanceRear(Queue.SetFront(raw.ring)), Address(offset)), filled);
      View(r, Packed) == Pack(View(raw, Top), offset, s)
  {
    var r := Queue.Enqueued(raw.ring, Address(offset));
    assert Slots(Queue.Contents(r)) == Slots(Queue.Contents(raw.ring)) + [offset];
  }

  lemma SegmentNonempty(p: seq<Byte>, i: nat)
    requires i < Segments(|p|) && |p| % MSS != 0
    ensures SegmentAt(p, i) != []
  {}

  lemma PackedNext(p: seq<Byte>, i: nat)
    requires i < Segments(|p|)
    ensures PackedBytes(p, i + 1) == PackedBytes(p, i) + SegmentAt(p, i)
  {}

  lemma SuffixAppend(sent: seq<Byte>, from: nat, s: seq<Byte>)
    requires from <= |sent|
    ensures (sent + s)[from..] == sent[from..] + s
  {}

  lemma TxStepKeepsSender(p: Peer, inbox: set<Segment>, step: LocalStep, q: Peer, out: set<Segment>)
    requires SenderInv(p) && Local(p, inbox, step, q, out)
    requires step.Transmit? || step.Skip? || step.Peek? || step.Resend? || step.Unfull?
    ensures SenderInv(q)
  {
    hide Slotted, Genuine, PackedBytes, SegmentAt, View, Queue.Contents, Queue.Length, Chain;
    PlainView(p.tx, p.call.pc);
    PlainView(q.tx, q.call.pc);
    ViewFields(p.tx, p.call.pc);
    if step.Peek? {
      PeekGenuine(p.tx, p.call.pc, p.sent);
    }
  }

  lemma CallStepKeepsSender(p: Peer, inbox: set<Segment>, step: LocalStep, q: Peer, out: set<Segment>)
    requires SenderInv(p) && Local(p, inbox, step, q, out) && Disciplined(p, step) && (step.Write? || step.Return? || step.Account?)
    ensures SenderInv(q)
  {
    hide Slotted, Genuine, PackedBytes, SegmentAt, View, Queue.Contents, Queue.Length, Chain;
    ViewFields(p.tx, PcOf(p.call));
    if step.Account? {
      AccountView(p.tx, q.tx);
    } else {
      PlainView(p.tx, PcOf(p.call));
      PlainView(q.tx, PcOf(q.call));
      if step.Write? {
        NothingPacked(p.sent, step.p);
      } else {
        ChainAtEnd(Sender(p).window, p.tx.slots, p.tx.base, p.sent);
      }
    }
  }

  lemma PeekGenuine(raw: Raw, pc: Pc, sent: seq<Byte>)
    requires Queue.Valid(raw.ring) && pc != Advanced && |raw.slots| == WINDOW_LENGTH
    requires Chain(View(raw, pc).window, raw.slots, raw.base, sent)
    ensures var x := Queue.GetFront(raw.ring);
      x == 0 || (1 <= x <= |raw.slots| && Genuine(raw.slots[x - 1].sn, raw.slots[x - 1].payload, sent))
  {
    PeekView(raw, pc);
    hide View, Queue.GetFront;
  }

  lemma PeekView(raw: Raw, pc: Pc)
    requires Queue.Valid(raw.ring) && pc != Advanced && |raw.slots| == WINDOW_LENGTH
    ensures var w, x := View(raw, pc).window, Queue.GetFront(raw.ring);
      if w == [] then x == 0 else w[0] == SlotOf(x) && (w[0] < |raw.slots| ==> x == Address(w[0]))
  {}

  lemma AccountView(raw: Raw, r: Raw)
    requires r == raw.(next := r.next)
    ensures View(r, WaitFull) == View(raw, Sent).(next := r.next)
  {}

  lemma ChainAtEnd(window: seq<nat>, slots: seq<Slot>, at: int, sent: seq<Byte>)
    requires Chain(window, slots, at, sent) && at == 1 + |sent|
    ensures window == []
  {}

  lemma NothingPacked(sent: seq<Byte>, payload: seq<Byte>)
    ensures sent[|sent|..] == PackedBytes(payload, 0) && forall offset :: Slotted([], offset)
  {}

  lemma EstablishKeepsSender(p: Peer, inbox: set<Segment>, step: LocalStep, q: Peer, out: set<Segment>)
    requires SenderInv(p) && Local(p, inbox, step, q, out)
    requires step.Connect? || step.GotSyn? || step.GotData? || ((step.GotReply? || step.GotFirstAck?) && step.seg.ack == 1)
    ensures SenderInv(q)
  {
    if step.GotReply? || step.GotFirstAck? {
      assert Queue.Contents(q.tx.ring) == [];
    }
  }

  lemma LocalKeepsSender(p: Peer, inbox: set<Segment>, step: LocalStep, q: Peer, out: set<Segment>)
    requires SenderInv(p) && Local(p, inbox, step, q, out) && Disciplined(p, step)
    requires (step.GotReply? || step.GotFirstAck?) ==> step.seg.ack == 1
    ensures SenderInv(q)
  {
    NoOutput(p, inbox, step, q, out);
    hide SenderInv, Local;
    if step.GotAck? {
      AckKeepsSender(p, inbox, step.seg, step.m, q);
    } else if step.FillSlot? {
      FillKeepsSender(p, inbox, q);
    } else if step.SetFront? || step.AdvanceRear? {
      EnqueueKeepsSender(p, inbox, step, q);
    } else if step.StoreEntry? {
      StoreKeepsSender(p, inbox, q);
    } else if step.Connect? || step.GotSyn? || step.GotData? || step.GotReply? || step.GotFirstAck? {
      EstablishKeepsSender(p, inbox, step, q, out);
    } else if step.Write? || step.Return? || step.Account? {
      CallStepKeepsSender(p, inbox, step, q, out);
    } else if !step.Refuse? {
      TxStepKeepsSender(p, inbox, step, q, out);
    }
  }

  lemma NoOutput(p: Peer, inbox: set<Segment>, step: LocalStep, q: Peer, out: set<Segment>)
    requires SenderInv(p) && Local(p, inbox, step, q, out)
    ensures step.GotAck? || step.FillSlot? || step.SetFront? || step.AdvanceRear? || step.StoreEntry? ==> out == {}
    ensures !step.Refuse?
  {}

  // ---------------------------------------------------------------- each direction is kept

  /** The stream only grows, and what was genuine stays so. */
  lemma GenuineGrows(sn: int, payload: seq<Byte>, sent: seq<Byte>, more: seq<Byte>)
    requires Genuine(sn, payload, sent) && sent <= more
    ensures Genuine(sn, payload, more)
  {}

  /** The segment about to be transmitted is the end of the stream. */
  lemma TransmitGenuine(p: Peer)
    requires SenderInv(p) && p.phase == Established && Pending(p.call)
    ensures p.call.i < Segments(|p.call.payload|)
    ensures Genuine(p.tx.next, SegmentAt(p.call.payload, p.call.i), p.sent)
  {
    hide Chain, Slotted, View;
    ViewFields(p.tx, PcOf(p.call));
    var c := p.call;
    assert p.sent == p.sent[..c.from] + p.sent[c.from..];
    assert PackedBytes(c.payload, c.i + 1) == PackedBytes(c.payload, c.i) + SegmentAt(c.payload, c.i);
  }

  lemma SentDataGenuine(p: Peer, inbox: set<Segment>, step: LocalStep, p': Peer, out: set<Segment>)
    requires SenderInv(p) && Local(p, inbox, step, p', out)
    ensures forall sn, payload :: Data(sn, payload) in out ==> p'.phase == Established && Genuine(sn, payload, p'.sent)
  {
    hide Chain, Slotted, PackedBytes, View, Genuine;
    if step.Transmit? {
      TransmitGenuine(p);
    }
    ViewFields(p.tx, PcOf(p.call));
  }

  lemma SentGrows(p: Peer, inbox: set<Segment>, step: LocalStep, p': Peer, out: set<Segment>)
    requires Local(p, inbox, step, p', out)
    ensures p.sent <= p'.sent && (p.phase == Established ==> p'.phase == Established)
  {}

  lemma BaseBehind(p: Peer, q: Peer, data: set<Segment>, back: set<Segment>, step: LocalStep, p': Peer, out: set<Segment>)
    requires SenderInv(p) && LinkInv(p, q, data, back) && Local(p, back, step, p', out)
    requires InTime(p, step) && ((step.GotReply? || step.GotFirstAck?) ==> step.seg.ack == 1)
    ensures p'.phase == Established ==> p'.tx.base <= 1 + |q.rx.buffer|
  {
    hide SenderInv, AckStep, Overruns;
    if step.GotAck? {
      AckKeepsSender(p, back, step.seg, step.m, p');
    }
  }

  /** A step of the sending side, seen from the direction it sends in, when what it sends is right. */
  lemma SenderKeepsSafe(p: Peer, q: Peer, data: set<Segment>, back: set<Segment>, step: LocalStep, p': Peer, out: set<Segment>)
    requires LinkSafe(p, q, data, back) && Local(p, back, step, p', out)
    requires forall sn, payload :: Data(sn, payload) in out ==> p'.phase == Established && Genuine(sn, payload, p'.sent)
    ensures LinkSafe(p', q, data + out, back)
  {
    SentGrows(p, back, step, p', out);
    hide Local, Genuine;
    forall sn, payload | Data(sn, payload) in data + out
      ensures p'.phase == Established && Genuine(sn, payload, p'.sent)
    {
      if Data(sn, payload) in data {
        GenuineGrows(sn, payload, p.sent, p'.sent);
      }
    }
  }

  lemma SenderKeepsLink(p: Peer, q: Peer, data: set<Segment>, back: set<Segment>, step: LocalStep, p': Peer, out: set<Segment>)
    requires SenderInv(p) && LinkInv(p, q, data, back) && Local(p, back, step, p', out)
    requires InTime(p, step) && ((step.GotReply? || step.GotFirstAck?) ==> step.seg.ack == 1)
    ensures LinkInv(p', q, data + out, back)
  {
    hide SenderInv, Local, LinkSafe, Genuine;
    SentDataGenuine(p, back, step, p', out);
    BaseBehind(p, q, data, back, step, p', out);
    SenderKeepsSafe(p, q, data, back, step, p', out);
  }

  /** A step of the receiving side, seen from the direction it receives in. */
  lemma ReceiverKeepsSafe(q: Peer, p: Peer, data: set<Segment>, back: set<Segment>, step: LocalStep, p': Peer, out: set<Segment>)
    requires LinkSafe(q, p, data, back) && Local(p, data, step, p', out)
    requires (step.GotReply? || step.GotSyn?) ==> step.seg.sn == 0
    ensures LinkSafe(q, p', data, back + out) && |p.rx.buffer| <= |p'.rx.buffer|
  {
  }

  lemma ReceiverKeepsLink(q: Peer, p: Peer, data: set<Segment>, back: set<Segment>, step: LocalStep, p': Peer, out: set<Segment>)
    requires LinkInv(q, p, data, back) && Local(p, data, step, p', out)
    requires (step.GotReply? || step.GotSyn?) ==> step.seg.sn == 0
    ensures LinkInv(q, p', data, back + out)
  {
    hide LinkSafe, Local;
    ReceiverKeepsSafe(q, p, data, back, step, p', out);
  }

  // ---------------------------------------------------------------- every step keeps everything

  lemma HandshakeClient(s: State, step: LocalStep, t: State, out: set<Segment>)
    requires HandshakeInv(s) && ClientMove(s, step, t) && Local(s.client, s.toClient, step, t.client, out) && t.toServer == s.toServer + out
    ensures HandshakeInv(t)
  {}

  lemma HandshakeServer(s: State, step: LocalStep, t: State, out: set<Segment>)
    requires HandshakeInv(s) && ServerMove(s, step, t) && Local(s.server, s.toServer, step, t.server, out) && t.toClient == s.toClient + out
    ensures HandshakeInv(t)
  {}

  /** The numbers that open a connection. */
  lemma ClientOpens(s: State, step: LocalStep, t: State)
    requires HandshakeInv(s) && LinkSafe(s.client, s.server, s.toServer, s.toClient) && ClientMove(s, step, t)
    requires s.client.phase != Established ==> s.client.sent == []
    ensures step.GotReply? ==> step.seg.ack == 1 && step.seg.sn == 0
  {}

  lemma ServerOpens(s: State, step: LocalStep, t: State)
    requires HandshakeInv(s) && LinkSafe(s.server, s.client, s.toClient, s.toServer) && ServerMove(s, step, t)
    requires s.server.phase != Established ==> s.server.sent == []
    ensures (step.GotFirstAck? ==> step.seg.ack == 1) && (step.GotSyn? ==> step.seg.sn == 0)
  {}

  lemma NothingSent(p: Peer)
    requires SenderInv(p)
    ensures p.phase != Established ==> p.sent == []
  {}

  lemma ClientKeeps(s: State, step: LocalStep, t: State)
    requires Inv(s) && ClientStep(s, step, t)
    ensures Inv(t)
  {
    hide SenderInv, LinkSafe, HandshakeInv, Local, InTime;
    NothingSent(s.client);
    var out :| Local(s.client, s.toClient, step, t.client, out) && t.toServer == s.toServer + out;
    ClientOpens(s, step, t);
    HandshakeClient(s, step, t, out);
    hide LinkInv;
    LocalKeepsSender(s.client, s.toClient, step, t.client, out);
    SenderKeepsLink(s.client, s.server, s.toServer, s.toClient, step, t.client, out);
    ReceiverKeepsLink(s.server, s.client, s.toClient, s.toServer, step, t.client, out);
  }

  lemma ServerKeeps(s: State, step: LocalStep, t: State)
    requires Inv(s) && ServerStep(s, step, t)
    ensures Inv(t)
  {
    hide SenderInv, LinkSafe, HandshakeInv, Local, InTime;
    NothingSent(s.server);
    var out :| Local(s.server, s.toServer, step, t.server, out) && t.toClient == s.toClient + out;
    ServerOpens(s, step, t);
    HandshakeServer(s, step, t, out);
    hide LinkInv;
    LocalKeepsSender(s.server, s.toServer, step, t.server, out);
    SenderKeepsLink(s.server, s.client, s.toClient, s.toServer, step, t.server, out);
    ReceiverKeepsLink(s.client, s.server, s.toServer, s.toClient, step, t.server, out);
  }

  lemma InitInv(s: State)
    requires Init(s)
    ensures Inv(s)
  {}

  ghost predicate Run(states: seq<State>) {
    && 0 < |states| && Init(states[0])
    && forall i :: 0 <= i < |states| - 1 ==> Next(states[i], states[i + 1])
  }

  lemma {:induction false} RunKeeps(states: seq<State>, i: nat)
    requires Run(states) && i < |states|
    ensures Inv(states[i])
  {
    if i == 0 {
      InitInv(states[0]);
    } else {
      RunKeeps(states, i - 1);
      var s, t := states[i - 1], states[i];
      assert Next(s, t);
      if step :| ClientStep(s, step, t) {
        ClientKeeps(s, step, t);
      } else {
        var step :| ServerStep(s, step, t);
        ServerKeeps(s, step, t);
      }
    }
  }

  // ---------------------------------------------------------------- end to end

  /** When tcp_tx can return, the peer holds every byte ever packed and the window is empty. */
  lemma ReturnDelivers(p: Peer, q: Peer, data: set<Segment>, back: set<Segment>)
    requires SenderInv(p) && LinkInv(p, q, data, back) && p.phase == Established
    requires p.call.Call? && p.call.pc == Drain && p.tx.base == p.tx.next
    ensures q.rx.buffer == p.sent && Sender(p).window == []
    ensures p.sent[p.call.from..] == PackedBytes(p.call.payload, Segments(|p.call.payload|))
  {
  }

  /** The same over runs, for either endpoint's call. */
  lemma RunReturnDelivers(states: seq<State>, i: nat)
    requires Run(states) && i + 1 < |states|
    ensures var s := states[i];
      && (ClientStep(s, Return, states[i + 1]) ==> s.server.rx.buffer == s.client.sent && Sender(s.client).window == [])
      && (ServerStep(s, Return, states[i + 1]) ==> s.client.rx.buffer == s.server.sent && Sender(s.server).window == [])
  {
    RunKeeps(states, i);
    var s := states[i];
    if ClientStep(s, Return, states[i + 1]) {
      ReturnDelivers(s.client, s.server, s.toServer, s.toClient);
    }
    if ServerStep(s, Return, states[i + 1]) {
      ReturnDelivers(s.server, s.client, s.toClient, s.toServer);
    }
  }

  // ---------------------------------------------------------------- 32-bit arithmetic

  function End32(raw: Raw, x: int): (e: int)
    requires Readable(raw, x)
  {
    (raw.slots[x - 1].sn + |raw.slots[x - 1].payload|) % UINT
  }

  function PopOne32(raw: Raw): (r: Raw)
    requires Readable(raw, Queue.GetFront(raw.ring))
  {
    PopOne(raw).(base := PopOne(raw).base % UINT)
  }

  /** tcp_receive's loop as the code computes it, every sum modulo 2^32. */
  ghost predicate AckLoop32(raw: Raw, ack: int, m: nat, r: Raw)
    decreases m
  {
    var x := Queue.GetFront(raw.ring);
    if m == 0 then r == raw && (Queue.IsEmpty(raw.ring) || (Readable(raw, x) && ack < End32(raw, x)))
    else !Queue.IsEmpty(raw.ring) && Readable(raw, x) && ack >= End32(raw, x) && AckLoop32(PopOne32(raw), ack, m - 1, r)
  }

  ghost predicate AckStep32(raw: Raw, ack: int, m: nat, r: Raw) {
    if ack < raw.base || ack > raw.next then m == 0 && r == raw else AckLoop32(raw, ack, m, r)
  }

  /** The bytes of the stream, those of the segment inside enqueue included. */
  ghost function Total(p: Peer): (n: nat) {
    |p.sent| + if p.call.Call? && Queueing(p.call.pc) && p.call.i < Segments(|p.call.payload|) then |Current(p)| else 0
  }

  /** Every address in the ring, stale ones included, is that of a segment of the stream. */
  ghost predicate EntriesInv(p: Peer) {
    forall k :: 0 <= k < |p.tx.ring.a| ==> EntryFits(p.tx, p.tx.ring.a[k], 1 + Total(p))
  }

  predicate EntryFits(raw: Raw, x: int, end: int) {
    Readable(raw, x) ==> 1 <= raw.slots[x - 1].sn && raw.slots[x - 1].sn + |raw.slots[x - 1].payload| <= end
  }

  lemma SameEntries(p: Peer, q: Peer)
    requires EntriesInv(p) && q.tx.ring.a == p.tx.ring.a && q.tx.slots == p.tx.slots && Total(p) <= Total(q)
    ensures EntriesInv(q)
  {
    hide Total;
    forall k | 0 <= k < |q.tx.ring.a| ensures EntryFits(q.tx, q.tx.ring.a[k], 1 + Total(q)) {
      assert EntryFits(p.tx, p.tx.ring.a[k], 1 + Total(p));
    }
  }

  lemma FillKeepsEntries(p: Peer, inbox: set<Segment>, q: Peer)
    requires SenderInv(p) && EntriesInv(p) && Local(p, inbox, FillSlot, q, {})
    ensures EntriesInv(q)
  {
    NextBounds(p);
    FillTotal(p, inbox, q);
    hide SenderInv, Total, SegmentAt;
    forall k | 0 <= k < |q.tx.ring.a| ensures EntryFits(q.tx, q.tx.ring.a[k], 1 + Total(q)) {
      assert EntryFits(p.tx, p.tx.ring.a[k], 1 + Total(p));
    }
  }

  lemma FillTotal(p: Peer, inbox: set<Segment>, q: Peer)
    requires SenderInv(p) && Local(p, inbox, FillSlot, q, {})
    ensures Total(p) <= Total(q) && p.tx.next + |Current(p)| <= 1 + Total(q)
  {
    hide Chain, CallInv, Queue.Contents, Queue.Length, SegmentAt;
  }

  lemma StoreKeepsEntries(p: Peer, inbox: set<Segment>, q: Peer)
    requires SenderInv(p) && EntriesInv(p) && Local(p, inbox, StoreEntry, q, {})
    ensures EntriesInv(q)
  {
    StoredSlot(p);
    NextBounds(p);
    StoreTotal(p, inbox, q);
    hide SenderInv, Total, SegmentAt;
    forall k | 0 <= k < |q.tx.ring.a| ensures EntryFits(q.tx, q.tx.ring.a[k], 1 + Total(q)) {
      assert EntryFits(p.tx, p.tx.ring.a[k], 1 + Total(p));
    }
  }

  lemma StoredSlot(p: Peer)
    requires SenderInv(p) && Making(p, Advanced)
    ensures p.phase == Established && p.call.offset < |p.tx.slots| && p.tx.slots[p.call.offset] == Slot(p.tx.next, Current(p))
  {
    hide Chain, Queue.Contents, Queue.Length, SegmentAt, PackedBytes, Slotted;
  }

  lemma StoreTotal(p: Peer, inbox: set<Segment>, q: Peer)
    requires SenderInv(p) && Local(p, inbox, StoreEntry, q, {})
    ensures Total(p) <= Total(q) && p.tx.next + |Current(p)| <= 1 + Total(q)
  {
    hide Chain, CallInv, Queue.Contents, Queue.Length, SegmentAt;
  }

  lemma LocalKeepsEntries(p: Peer, inbox: set<Segment>, step: LocalStep, q: Peer, out: set<Segment>)
    requires SenderInv(p) && EntriesInv(p) && Local(p, inbox, step, q, out)
    ensures EntriesInv(q)
  {
    NoOutput(p, inbox, step, q, out);
    hide SenderInv, EntriesInv, SegmentAt, AckLoop;
    if step.FillSlot? {
      FillKeepsEntries(p, inbox, q);
    } else if step.StoreEntry? {
      StoreKeepsEntries(p, inbox, q);
    } else {
      if step.GotAck? && p.tx.base <= step.seg.ack <= p.tx.next {
        LoopEnds(p.tx, step.seg.ack, step.m, q.tx);
      }
      SameEntries(p, q);
    }
  }

  lemma NextKeepsEntries(s: State, t: State)
    requires Inv(s) && Next(s, t) && EntriesInv(s.client) && EntriesInv(s.server)
    ensures EntriesInv(t.client) && EntriesInv(t.server)
  {
    hide Local, SenderInv, EntriesInv, LinkInv, HandshakeInv;
    if step :| ClientStep(s, step, t) {
      var out :| Local(s.client, s.toClient, step, t.client, out) && t.toServer == s.toServer + out;
      LocalKeepsEntries(s.client, s.toClient, step, t.client, out);
    } else {
      var step :| ServerStep(s, step, t);
      var out :| Local(s.server, s.toServer, step, t.server, out) && t.toClient == s.toClient + out;
      LocalKeepsEntries(s.server, s.toServer, step, t.server, out);
    }
  }

  lemma {:induction false} RunEntries(states: seq<State>, i: nat)
    requires Run(states) && i < |states|
    ensures EntriesInv(states[i].client) && EntriesInv(states[i].server)
  {
    hide Next, Inv;
    if i > 0 {
      RunEntries(states, i - 1);
      RunKeeps(states, i - 1);
      NextKeepsEntries(states[i - 1], states[i]);
    }
  }

  lemma {:induction false} BaseGrows(raw: Raw, ack: int, m: nat, r: Raw)
    requires AckLoop(raw, ack, m, r)
    ensures raw.base <= r.base
    decreases m
  {
    if m > 0 {
      BaseGrows(PopOne(raw), ack, m - 1, r);
    }
  }

  ghost predicate AllFit(raw: Raw) { forall k :: 0 <= k < |raw.ring.a| ==> EntryFits(raw, raw.ring.a[k], UINT - 1) }

  lemma FrontFits(raw: Raw, ack: int)
    requires AllFit(raw)
    ensures var x := Queue.GetFront(raw.ring); Readable(raw, x) ==> (Acked(raw, x, ack) <==> ack >= End32(raw, x))
  {
    hide Queue.Valid, Queue.Contents, Queue.Length;
    if 0 <= raw.ring.front < |raw.ring.a| {
      assert EntryFits(raw, raw.ring.a[raw.ring.front], UINT - 1);
    }
  }

  lemma PopFits(raw: Raw)
    requires Readable(raw, Queue.GetFront(raw.ring)) && AllFit(raw)
    ensures AllFit(PopOne(raw)) && (0 <= PopOne(raw).base < UINT ==> PopOne32(raw) == PopOne(raw)) && raw.base <= PopOne(raw).base
  {
    hide Queue.Valid, Queue.Contents, Queue.Length;
    var r := PopOne(raw);
    forall k | 0 <= k < |r.ring.a| ensures EntryFits(r, r.ring.a[k], UINT - 1) {
      assert EntryFits(raw, raw.ring.a[k], UINT - 1);
    }
  }

  lemma {:induction false} LoopFits(raw: Raw, ack: int, m: nat, r: Raw)
    requires AckLoop(raw, ack, m, r) && 0 <= raw.base && r.base < UINT && AllFit(raw)
    ensures AckLoop32(raw, ack, m, r)
    decreases m
  {
    hide Queue.Valid, Queue.Contents, Queue.Length, Queue.GetFront, Queue.Dequeued, AllFit, End32, PopOne, PopOne32;
    FrontFits(raw, ack);
    if m > 0 {
      BaseGrows(PopOne(raw), ack, m - 1, r);
      PopFits(raw);
      LoopFits(PopOne(raw), ack, m - 1, r);
    }
  }

  lemma {:induction false} OneResult(raw: Raw, ack: int, m: nat, r: Raw, n: nat, t: Raw)
    requires AckLoop32(raw, ack, m, r) && AckLoop32(raw, ack, n, t)
    ensures m == n && r == t
    decreases m
  {
    if m > 0 && n > 0 {
      OneResult(PopOne32(raw), ack, m - 1, r, n - 1, t);
    }
  }

  /** While the stream is shorter than 2^32 - 1 bytes, an acknowledgement in time does in 32-bit
      arithmetic exactly what it does on unbounded integers. */
  lemma AckFits(p: Peer, ack: int, m: nat, r: Raw)
    requires SenderInv(p) && p.phase == Established && EntriesInv(p) && 1 + Total(p) < UINT && !Overruns(p.tx, PcOf(p.call), ack)
    ensures AckStep32(p.tx, ack, m, r) <==> AckStep(p.tx, ack, m, r)
  {
    var m0, r0 := AckRuns(p, ack);
    AckStepKeeps(p, ack, m0, r0);
    ViewFields(p.tx, PcOf(p.call));
    NextBounds(p);
    hide SenderInv, Overruns, AckLoop, AckLoop32;
    if p.tx.base <= ack <= p.tx.next {
      forall k | 0 <= k < |p.tx.ring.a| ensures EntryFits(p.tx, p.tx.ring.a[k], UINT - 1) {
        assert EntryFits(p.tx, p.tx.ring.a[k], 1 + Total(p));
      }
      LoopFits(p.tx, ack, m0, r0);
      if AckLoop32(p.tx, ack, m, r) {
        OneResult(p.tx, ack, m, r, m0, r0);
      }
      if AckLoop(p.tx, ack, m, r) {
        AckStepKeeps(p, ack, m, r);
        LoopFits(p.tx, ack, m, r);
      }
    }
  }

  lemma NextBounds(p: Peer)
    requires SenderInv(p) && p.phase == Established
    ensures 1 <= p.tx.base <= p.tx.next <= 1 + Total(p)
    ensures Making(p, Sent) ==> p.tx.next + |Current(p)| <= 1 + Total(p)
  {
    hide Chain, CallInv, Queue.Contents, Queue.Length;
  }

  /** One direction while its stream is shorter than 2^32 - 1 bytes: no counter, no sum the code
      computes and no number in flight reaches 2^32, and acknowledgements do the same in 32 bits. */
  ghost predicate Fits32(p: Peer, q: Peer, data: set<Segment>, back: set<Segment>) {
    p.phase == Established && 1 + Total(p) < UINT ==>
      && 1 <= p.tx.base <= p.tx.next < UINT && (Heard(q) ==> 1 <= q.rx.ackSent < UINT)
      && (Making(p, Sent) ==> p.tx.next + |Current(p)| < UINT)
      && (forall sn, b :: Data(sn, b) in data ==> 1 <= sn && sn + |b| < UINT)
      && (forall sn, ack :: Ack(sn, ack) in back || SynAck(sn, ack) in back ==> 1 <= ack < UINT)
      && (forall ack, m, r :: !Overruns(p.tx, PcOf(p.call), ack) ==> (AckStep32(p.tx, ack, m, r) <==> AckStep(p.tx, ack, m, r)))
  }

  lemma LinkFits(p: Peer, q: Peer, data: set<Segment>, back: set<Segment>)
    requires SenderInv(p) && EntriesInv(p) && LinkInv(p, q, data, back)
    ensures Fits32(p, q, data, back)
  {
    if p.phase == Established && 1 + Total(p) < UINT {
      NextBounds(p);
      forall ack, m, r | !Overruns(p.tx, PcOf(p.call), ack) ensures AckStep32(p.tx, ack, m, r) <==> AckStep(p.tx, ack, m, r) {
        AckFits(p, ack, m, r);
      }
      hide SenderInv, EntriesInv, AckStep, AckStep32, Overruns;
    }
  }

  /** Both directions of every run; and a receiver never holds more than was packed, so while at most
      a page is sent its page is never overrun. */
  lemma SequenceNumbersFit(states: seq<State>, i: nat)
    requires Run(states) && i < |states|
    ensures var s := states[i];
      && Fits32(s.client, s.server, s.toServer, s.toClient) && Fits32(s.server, s.client, s.toClient, s.toServer)
      && |s.server.rx.buffer| <= |s.client.sent| && |s.client.rx.buffer| <= |s.server.sent|
  {
    RunKeeps(states, i);
    RunEntries(states, i);
    var s := states[i];
    LinkFits(s.client, s.server, s.toServer, s.toClient);
    LinkFits(s.server, s.client, s.toClient, s.toServer);
    hide Run, SenderInv, HandshakeInv, EntriesInv, Fits32;
  }

  // ---------------------------------------------------------------- what the stream holds

  /** tcp_tx never moves forward in the caller's buffer: byte j of a call is byte j % MSS. */
  lemma {:induction false} PackedBytesAt(p: seq<Byte>, j: nat)
    requires j <= Segments(|p|)
    ensures |PackedBytes(p, j)| == if j == Segments(|p|) then |p| else j * MSS
    ensures forall k :: 0 <= k < |PackedBytes(p, j)| ==> PackedBytes(p, j)[k] == p[k % MSS]
  {
    if j > 0 {
      PackedBytesAt(p, j - 1);
    }
  }

  /** So the stream is the caller's buffer exactly when the buffer repeats its first MSS bytes;
      in particular whenever it is shorter than MSS. */
  lemma StreamIsBuffer(p: seq<Byte>)
    ensures PackedBytes(p, Segments(|p|)) == p <==> forall k :: 0 <= k < |p| ==> p[k] == p[k % MSS]
    ensures |p| < MSS ==> PackedBytes(p, Segments(|p|)) == p
  {
    PackedBytesAt(p, Segments(|p|));
  }

  lemma LongBufferDiffers()
    ensures exists p: seq<Byte> :: |p| == MSS + 1 && PackedBytes(p, Segments(|p|)) != p
  {
    var p: seq<Byte> := seq(MSS + 1, i => if i == MSS then 1 else 0);
    StreamIsBuffer(p);
    assert p[MSS] != p[MSS % MSS];
  }
}
