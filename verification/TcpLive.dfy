/** Delivery is possible: from every state of a disciplined run in which a call of tcp_tx is in
    progress, the call can still return with everything it packed at the other end. The receiver only
    ever stands at the end of a segment, so the front segment, sent again, is either the one it
    expects or one that it has. */
module TcpLive {
  import opened Common
  import opened TcpSpec
  import Queue

  // ---------------------------------------------------------------- nobody stands inside a segment

  /** x is not strictly inside a queued segment. */
  ghost predicate Clear(window: seq<nat>, slots: seq<Slot>, x: int) {
    forall k :: 0 <= k < |window| && window[k] < |slots| ==>
      !(slots[window[k]].sn < x < slots[window[k]].sn + |slots[window[k]].payload|)
  }

  ghost predicate Outside(p: Peer, x: int) { Clear(Sender(p).window, p.tx.slots, x) }

  function EndOf(s: Slot): (e: int) { s.sn + |s.payload| }

  /** What the receiver expects, and what would make it expect something else, is at the boundary of
      the queued segments. */
  ghost predicate Aligned(p: Peer, q: Peer, data: set<Segment>) {
    p.phase == Established ==>
      && (Heard(q) ==> Outside(p, q.rx.ackSent))
      && (forall sn, payload :: Data(sn, payload) in data ==> Outside(p, sn + |payload|))
      && (p.call.Call? && 1 <= p.call.qp <= |p.tx.slots| ==> Outside(p, EndOf(p.tx.slots[p.call.qp - 1])))
  }

  /** Queued segments lie one behind the other up to the end of the stream. */
  lemma {:induction false} ChainOrder(window: seq<nat>, slots: seq<Slot>, at: int, sent: seq<Byte>, k: nat)
    requires Chain(window, slots, at, sent) && k < |window|
    ensures window[k] < |slots| && at <= slots[window[k]].sn && EndOf(slots[window[k]]) <= 1 + |sent|
    ensures k > 0 ==> window[0] < |slots| && EndOf(slots[window[0]]) <= slots[window[k]].sn
    decreases |window|
  {
    var rest := at + |slots[window[0]].payload|;
    if k > 0 {
      ChainOrder(window[1..], slots, rest, sent, k - 1);
    } else {
      ChainWithin(window[1..], slots, rest, sent);
    }
  }

  lemma ClearEnds(window: seq<nat>, slots: seq<Slot>, at: int, sent: seq<Byte>, x: int)
    requires Chain(window, slots, at, sent)
    requires x <= at || x >= 1 + |sent| || (window != [] && window[0] < |slots| && x == EndOf(slots[window[0]]))
    ensures Clear(window, slots, x)
  {
    forall k | 0 <= k < |window| && window[k] < |slots|
      ensures !(slots[window[k]].sn < x < slots[window[k]].sn + |slots[window[k]].payload|)
    {
      ChainOrder(window, slots, at, sent, k);
    }
  }

  lemma SenderChain(p: Peer)
    requires SenderInv(p) && p.phase == Established
    ensures Chain(Sender(p).window, p.tx.slots, p.tx.base, p.sent) && 1 <= p.tx.base && Sender(p).slots == p.tx.slots && Sender(p).base == p.tx.base
  {
    hide Chain, CallInv, Live;
  }

  lemma SuffixClear(window: seq<nat>, slots: seq<Slot>, x: int, m: nat)
    requires Clear(window, slots, x) && m <= |window|
    ensures Clear(window[m..], slots, x)
  {}

  /** An acknowledgement only takes segments away. */
  lemma AckClear(p: Peer, inbox: set<Segment>, seg: Segment, m: nat, q: Peer, x: int)
    requires SenderInv(p) && p.phase == Established && Local(p, inbox, GotAck(seg, m), q, {}) && InTime(p, GotAck(seg, m)) && Outside(p, x)
    ensures Outside(q, x) && q.tx.slots == p.tx.slots
  {
    hide SenderInv, Local, InTime, Sender, Clear;
    AckKeepsSender(p, inbox, seg, m, q);
    AckSlots(p, inbox, seg, m, q);
    SenderChain(p);
    if Sender(p).base <= seg.ack <= Sender(p).next {
      PoppedKeeps(Sender(p), seg.ack, p.sent);
      SuffixClear(Sender(p).window, p.tx.slots, x, |Sender(p).window| - |Sender(q).window|);
    }
  }

  lemma AckSlots(p: Peer, inbox: set<Segment>, seg: Segment, m: nat, q: Peer)
    requires Local(p, inbox, GotAck(seg, m), q, {})
    ensures (seg.SynAck? || seg.Ack?) && q == p.(tx := q.tx) && q.tx.slots == p.tx.slots && q.tx.next == p.tx.next
  {
    if p.tx.base <= seg.ack <= p.tx.next {
      LoopEnds(p.tx, seg.ack, m, q.tx);
    }
  }

  /** Filling a slot outside the window. */
  lemma FillClear(p: Peer, inbox: set<Segment>, q: Peer, x: int)
    requires SenderInv(p) && p.phase == Established && Local(p, inbox, FillSlot, q, {}) && Outside(p, x)
    ensures Outside(q, x)
  {
    hide Chain, Genuine, PackedBytes, SegmentAt, Queue.Contents, Queue.Length, View;
    NotFull(p);
    ViewFields(p.tx, Top);
    FillView(p.tx, q.tx.slots);
    SlotFree(Sender(p).window, p.call.offset);
  }

  /** A new segment starts at the end of the stream. */
  lemma StoreClear(p: Peer, inbox: set<Segment>, q: Peer, x: int)
    requires SenderInv(p) && p.phase == Established && Local(p, inbox, StoreEntry, q, {}) && Outside(p, x) && x <= 1 + |p.sent|
    ensures Outside(q, x)
  {
    hide Chain, Slotted, Genuine, PackedBytes, SegmentAt, Queue.Contents, Queue.Length, View;
    StoreView(p.tx, p.call.offset);
    ViewFields(p.tx, Advanced);
  }

  /** The other steps of a call do not touch the window. */
  lemma PlainClear(p: Peer, inbox: set<Segment>, step: LocalStep, q: Peer, out: set<Segment>, x: int)
    requires SenderInv(p) && p.phase == Established && Local(p, inbox, step, q, out) && Outside(p, x)
    requires !step.GotAck? && !step.FillSlot? && !step.StoreEntry? && !step.Refuse?
    ensures Outside(q, x) && q.tx.slots == p.tx.slots
  {
    hide Chain, Slotted, Genuine, PackedBytes, SegmentAt, Queue.Contents, Queue.Length, View, CallInv;
    if step.SetFront? || step.AdvanceRear? {
      EnqueueKeepsSender(p, inbox, step, q);
    } else if step.Account? {
      AccountView(p.tx, q.tx);
    } else if !step.GotData? {
      PlainView(p.tx, PcOf(p.call));
      PlainView(q.tx, PcOf(q.call));
    }
    ViewFields(p.tx, PcOf(p.call));
    ViewFields(q.tx, PcOf(q.call));
  }

  lemma StepClear(p: Peer, inbox: set<Segment>, step: LocalStep, q: Peer, out: set<Segment>, x: int)
    requires SenderInv(p) && p.phase == Established && Local(p, inbox, step, q, out) && InTime(p, step) && Outside(p, x) && x <= 1 + |p.sent|
    ensures Outside(q, x)
  {
    NoOutput(p, inbox, step, q, out);
    hide SenderInv, Local, InTime, Outside;
    if step.GotAck? {
      AckClear(p, inbox, step.seg, step.m, q, x);
    } else if step.FillSlot? {
      FillClear(p, inbox, q, x);
    } else if step.StoreEntry? {
      StoreClear(p, inbox, q, x);
    } else {
      PlainClear(p, inbox, step, q, out, x);
    }
  }

  // ---------------------------------------------------------------- every run keeps it

  lemma Reached(p: Peer, q: Peer, data: set<Segment>, back: set<Segment>)
    requires SenderInv(p) && LinkSafe(p, q, data, back) && p.phase == Established
    ensures Heard(q) ==> q.rx.ackSent <= 1 + |p.sent|
    ensures forall sn, payload :: Data(sn, payload) in data ==> sn + |payload| <= 1 + |p.sent|
    ensures p.call.Call? && 1 <= p.call.qp <= |p.tx.slots| ==> EndOf(p.tx.slots[p.call.qp - 1]) <= 1 + |p.sent|
  {
    hide Chain, Slotted, PackedBytes, View;
    ViewFields(p.tx, PcOf(p.call));
  }

  /** What a step sends, and what it looks at to send it again, ends at a boundary. */
  lemma SendsClear(p: Peer, inbox: set<Segment>, step: LocalStep, p': Peer, out: set<Segment>)
    requires SenderInv(p) && SenderInv(p') && p.phase == Established && Local(p, inbox, step, p', out) && InTime(p, step)
    requires p.call.Call? && 1 <= p.call.qp <= |p.tx.slots| ==> Outside(p, EndOf(p.tx.slots[p.call.qp - 1]))
    ensures forall sn, payload :: Data(sn, payload) in out ==> Outside(p', sn + |payload|)
  {
    hide Chain, Slotted, PackedBytes, View, Genuine, Clear, CallInv, Queue.Contents, Queue.Length;
    SenderChain(p');
    ViewFields(p.tx, PcOf(p.call));
    if step.Transmit? {
      ClearEnds(Sender(p').window, p'.tx.slots, p'.tx.base, p'.sent, 1 + |p'.sent|);
    } else if step.Resend? {
      PlainClear(p, inbox, step, p', out, EndOf(p.tx.slots[p.call.qp - 1]));
    }
  }

  lemma LooksClear(p: Peer, inbox: set<Segment>, step: LocalStep, p': Peer, out: set<Segment>)
    requires SenderInv(p) && SenderInv(p') && p.phase == Established && Local(p, inbox, step, p', out) && InTime(p, step)
    requires p.call.Call? && 1 <= p.call.qp <= |p.tx.slots| ==> Outside(p, EndOf(p.tx.slots[p.call.qp - 1])) && EndOf(p.tx.slots[p.call.qp - 1]) <= 1 + |p.sent|
    ensures p'.call.Call? && 1 <= p'.call.qp <= |p'.tx.slots| ==> Outside(p', EndOf(p'.tx.slots[p'.call.qp - 1]))
  {
    if p'.call.Call? && 1 <= p'.call.qp <= |p'.tx.slots| {
      LooksWaiting(p, inbox, step, p', out);
      if step.Peek? {
        PeekClear(p, inbox, p');
      } else {
        StepClear(p, inbox, step, p', out, EndOf(p.tx.slots[p.call.qp - 1]));
      }
    }
  }

  /** tcp_tx only looks at a packet while it waits, and then no slot is filled. */
  lemma LooksWaiting(p: Peer, inbox: set<Segment>, step: LocalStep, p': Peer, out: set<Segment>)
    requires SenderInv(p) && SenderInv(p') && p.phase == Established && Local(p, inbox, step, p', out)
    requires p'.call.Call? && 1 <= p'.call.qp <= |p'.tx.slots|
    ensures step.Peek? || (p.call.Call? && p.call.qp == p'.call.qp && p.tx.slots == p'.tx.slots)
  {
    hide Chain, Slotted, PackedBytes, View, Genuine, Queue.Contents, Queue.Length, AckLoop;
    if step.GotAck? {
      AckSlots(p, inbox, step.seg, step.m, p');
    }
  }

  lemma PeekClear(p: Peer, inbox: set<Segment>, p': Peer)
    requires SenderInv(p) && p.phase == Established && Local(p, inbox, Peek, p', {}) && 1 <= p'.call.qp <= |p'.tx.slots|
    ensures Outside(p', EndOf(p'.tx.slots[p'.call.qp - 1]))
  {
    hide Chain, Slotted, PackedBytes, Genuine, Clear, Queue.Contents, Queue.Length, View;
    PlainView(p.tx, p.call.pc);
    PlainView(p'.tx, p'.call.pc);
    PeekView(p.tx, p.call.pc);
    SenderChain(p);
    ClearEnds(Sender(p).window, p.tx.slots, p.tx.base, p.sent, EndOf(p'.tx.slots[p'.call.qp - 1]));
  }

  /** A step of the sending side. */
  lemma SenderAligns(p: Peer, q: Peer, data: set<Segment>, back: set<Segment>, step: LocalStep, p': Peer, out: set<Segment>)
    requires SenderInv(p) && SenderInv(p') && LinkSafe(p, q, data, back) && Aligned(p, q, data) && Local(p, back, step, p', out) && InTime(p, step)
    ensures Aligned(p', q, data + out)
  {
    hide SenderInv, Local, InTime, Outside, LinkSafe;
    if p.phase == Established {
      OpenAligns(p, q, data, back, step, p', out);
    } else {
      OpensClear(p, back, step, p', out);
    }
  }

  lemma OpenAligns(p: Peer, q: Peer, data: set<Segment>, back: set<Segment>, step: LocalStep, p': Peer, out: set<Segment>)
    requires SenderInv(p) && SenderInv(p') && LinkSafe(p, q, data, back) && Aligned(p, q, data) && Local(p, back, step, p', out) && InTime(p, step)
    requires p.phase == Established
    ensures Aligned(p', q, data + out)
  {
    hide SenderInv, Local, InTime, Outside, LinkSafe;
    Reached(p, q, data, back);
    SendsClear(p, back, step, p', out);
    LooksClear(p, back, step, p', out);
    if Heard(q) {
      StepClear(p, back, step, p', out, q.rx.ackSent);
    }
    forall sn, payload | Data(sn, payload) in data + out ensures Outside(p', sn + |payload|) {
      if Data(sn, payload) in data {
        StepClear(p, back, step, p', out, sn + |payload|);
      }
    }
  }

  /** A connection opens with an empty window and nothing sent. */
  lemma OpensClear(p: Peer, inbox: set<Segment>, step: LocalStep, p': Peer, out: set<Segment>)
    requires SenderInv(p) && p.phase != Established && Local(p, inbox, step, p', out)
    ensures p'.phase == Established ==> p'.call.Idle? && forall x :: Outside(p', x)
  {
    hide Chain, CallInv;
    if p'.phase == Established {
      assert Queue.Contents(p'.tx.ring) == [];
    }
  }

  /** A step of the receiving side. */
  lemma ReceiverAligns(p: Peer, q: Peer, data: set<Segment>, back: set<Segment>, step: LocalStep, q': Peer, out: set<Segment>)
    requires SenderInv(p) && Aligned(p, q, data) && Local(q, data, step, q', out) && ((step.GotReply? || step.GotSyn?) ==> step.seg.sn == 0)
    ensures Aligned(p, q', data)
  {
    if p.phase == Established && Heard(q') {
      SenderChain(p);
      ClearEnds(Sender(p).window, p.tx.slots, p.tx.base, p.sent, 1);
      ReceiverExpects(q, data, step, q', out);
    }
    hide SenderInv, Local, Outside;
  }

  lemma ReceiverExpects(q: Peer, data: set<Segment>, step: LocalStep, q': Peer, out: set<Segment>)
    requires Local(q, data, step, q', out) && ((step.GotReply? || step.GotSyn?) ==> step.seg.sn == 0) && Heard(q')
    ensures || q'.rx.ackSent == 1
            || (Heard(q) && q'.rx.ackSent == q.rx.ackSent)
            || (step.GotData? && Data(step.sn, step.payload) in data && q'.rx.ackSent == step.sn + |step.payload|)
  {}

  /** And a client that is connected has been heard, and has answered. */
  ghost predicate Answered(s: State) {
    && (s.client.phase == Established ==> Heard(s.server) && exists sn, ack :: Ack(sn, ack) in s.toServer)
    && (forall sn, ack :: SynAck(sn, ack) in s.toClient ==> Heard(s.server))
  }

  ghost predicate LiveInv(s: State) {
    Inv(s) && Answered(s) && Aligned(s.client, s.server, s.toServer) && Aligned(s.server, s.client, s.toClient)
  }

  lemma ClientAnswers(s: State, step: LocalStep, t: State)
    requires HandshakeInv(s) && Answered(s) && ClientMove(s, step, t)
    ensures Answered(t)
  {
    var out :| Local(s.client, s.toClient, step, t.client, out) && t.toServer == s.toServer + out;
    if step.GotReply? {
      assert Ack(step.seg.ack - 1, step.seg.sn + 1) in t.toServer;
    }
    hide AckStep;
  }

  lemma ServerAnswers(s: State, step: LocalStep, t: State)
    requires HandshakeInv(s) && Answered(s) && ServerMove(s, step, t)
    ensures Answered(t)
  {
    hide AckStep;
  }

  lemma ClientAligns(s: State, step: LocalStep, t: State)
    requires LiveInv(s) && ClientStep(s, step, t)
    ensures LiveInv(t)
  {
    hide SenderInv, LinkSafe, HandshakeInv, Local, InTime, Aligned, Answered;
    ClientKeeps(s, step, t);
    ClientAnswers(s, step, t);
    NothingSent(s.client);
    ClientOpens(s, step, t);
    var out :| Local(s.client, s.toClient, step, t.client, out) && t.toServer == s.toServer + out;
    SenderAligns(s.client, s.server, s.toServer, s.toClient, step, t.client, out);
    ReceiverAligns(s.server, s.client, s.toClient, s.toServer, step, t.client, out);
  }

  lemma ServerAligns(s: State, step: LocalStep, t: State)
    requires LiveInv(s) && ServerStep(s, step, t)
    ensures LiveInv(t)
  {
    hide SenderInv, LinkSafe, HandshakeInv, Local, InTime, Aligned, Answered;
    ServerKeeps(s, step, t);
    ServerAnswers(s, step, t);
    NothingSent(s.server);
    ServerOpens(s, step, t);
    var out :| Local(s.server, s.toServer, step, t.server, out) && t.toClient == s.toClient + out;
    SenderAligns(s.server, s.client, s.toClient, s.toServer, step, t.server, out);
    ReceiverAligns(s.client, s.server, s.toServer, s.toClient, step, t.server, out);
  }

  lemma {:induction false} RunAligns(states: seq<State>, i: nat)
    requires Run(states) && i < |states|
    ensures LiveInv(states[i])
  {
    if i == 0 {
      InitInv(states[0]);
    } else {
      hide LiveInv, Init;
      RunAligns(states, i - 1);
      var s, t := states[i - 1], states[i];
      assert Next(s, t);
      if step :| ClientStep(s, step, t) {
        ClientAligns(s, step, t);
      } else {
        var step :| ServerStep(s, step, t);
        ServerAligns(s, step, t);
      }
    }
  }

  // ---------------------------------------------------------------- one direction, step by step

  /** One direction of an open connection: p sends to q over data and is answered over back. */
  datatype Link = Link(p: Peer, q: Peer, data: set<Segment>, back: set<Segment>)

  ghost predicate Good(l: Link) {
    && SenderInv(l.p) && LinkInv(l.p, l.q, l.data, l.back) && Aligned(l.p, l.q, l.data)
    && l.p.phase == Established && l.q.phase == Established
  }

  /** A step of tcp_tx, or an acknowledgement taken by p. */
  ghost predicate Sends(l: Link, step: LocalStep, t: Link) {
    && Disciplined(l.p, step) && !step.Write? && t.q == l.q && t.back == l.back
    && exists out :: Local(l.p, l.back, step, t.p, out) && t.data == l.data + out
  }

  /** A segment taken by q. */
  ghost predicate Takes(l: Link, sn: int, payload: seq<Byte>, t: Link) {
    && t.p == l.p && t.data == l.data
    && exists out :: Local(l.q, l.data, GotData(sn, payload), t.q, out) && t.back == l.back + out
  }

  ghost predicate LinkNext(l: Link, t: Link) {
    (exists step :: Sends(l, step, t)) || (exists sn, payload :: Takes(l, sn, payload, t))
  }

  ghost predicate LinkRun(ls: seq<Link>) {
    0 < |ls| && forall i :: 0 <= i < |ls| - 1 ==> LinkNext(ls[i], ls[i + 1])
  }

  ghost function Last(ls: seq<Link>): (l: Link)
    requires 0 < |ls|
  {
    ls[|ls| - 1]
  }

  lemma SendsNext(l: Link, step: LocalStep, t: Link)
    requires Sends(l, step, t)
    ensures LinkNext(l, t)
  {}

  lemma TakesNext(l: Link, sn: int, payload: seq<Byte>, t: Link)
    requires Takes(l, sn, payload, t)
    ensures LinkNext(l, t)
  {}

  lemma LinkOn(ls: seq<Link>, t: Link)
    requires LinkRun(ls) && LinkNext(Last(ls), t)
    ensures LinkRun(ls + [t])
  {
    hide LinkNext;
    var more := ls + [t];
    forall i | 0 <= i < |more| - 1 ensures LinkNext(more[i], more[i + 1]) {
      if i < |ls| - 1 {
        assert more[i] == ls[i] && more[i + 1] == ls[i + 1];
      }
    }
  }

  lemma StaysOpen(p: Peer, inbox: set<Segment>, step: LocalStep, q: Peer, out: set<Segment>)
    requires p.phase == Established && Local(p, inbox, step, q, out)
    ensures q.phase == Established && !step.GotReply? && !step.GotFirstAck? && !step.GotSyn? && !step.Connect?
  {}

  lemma Sent(ls: seq<Link>, step: LocalStep, p': Peer, out: set<Segment>) returns (rs: seq<Link>)
    requires LinkRun(ls) && Good(Last(ls)) && Local(Last(ls).p, Last(ls).back, step, p', out) && Disciplined(Last(ls).p, step) && !step.Write?
    ensures LinkRun(rs) && |rs| == |ls| + 1 && ls <= rs && Good(Last(rs)) && Sends(Last(ls), step, Last(rs))
    ensures Last(rs) == Link(p', Last(ls).q, Last(ls).data + out, Last(ls).back)
  {
    hide Local, SenderInv, LinkSafe, InTime, Aligned, LinkNext;
    var l := Last(ls);
    var t := Link(p', l.q, l.data + out, l.back);
    StaysOpen(l.p, l.back, step, p', out);
    LocalKeepsSender(l.p, l.back, step, p', out);
    SenderKeepsLink(l.p, l.q, l.data, l.back, step, p', out);
    SenderAligns(l.p, l.q, l.data, l.back, step, p', out);
    SendsNext(l, step, t);
    LinkOn(ls, t);
    rs := ls + [t];
  }

  lemma Taken(ls: seq<Link>, sn: int, payload: seq<Byte>) returns (rs: seq<Link>)
    requires LinkRun(ls) && Good(Last(ls)) && Data(sn, payload) in Last(ls).data
    ensures LinkRun(rs) && |rs| == |ls| + 1 && ls <= rs && Good(Last(rs))
    ensures var l, q' := Last(ls), Last(ls).q.(rx := OnData(Last(ls).q.rx, sn, payload));
      Last(rs) == Link(l.p, q', l.data, l.back + {Ack(l.q.tx.next - 1, q'.rx.ackSent)})
  {
    var l := Last(ls);
    var q' := l.q.(rx := OnData(l.q.rx, sn, payload));
    var out := {Ack(l.q.tx.next - 1, q'.rx.ackSent)};
    assert Local(l.q, l.data, GotData(sn, payload), q', out);
    hide Local, SenderInv, LinkSafe, Aligned, LinkNext, OnData;
    var t := Link(l.p, q', l.data, l.back + out);
    ReceiverKeepsLink(l.p, l.q, l.data, l.back, GotData(sn, payload), q', out);
    ReceiverAligns(l.p, l.q, l.data, l.back, GotData(sn, payload), q', out);
    TakesNext(l, sn, payload, t);
    LinkOn(ls, t);
    rs := ls + [t];
  }

  // ---------------------------------------------------------------- one round

  /** Where tcp_tx waits for acknowledgements: something is queued and everything is counted. */
  ghost predicate Waiting(p: Peer) {
    && ((At(p, WaitFull) && Queue.IsFull(p.tx.ring)) || (At(p, Drain) && p.tx.base != p.tx.next))
  }

  ghost function Front(p: Peer): (s: Slot)
    requires Sender(p).window != [] && Sender(p).window[0] < |p.tx.slots|
  {
    p.tx.slots[Sender(p).window[0]]
  }

  lemma WaitingFront(p: Peer)
    requires SenderInv(p) && p.phase == Established && Waiting(p)
    ensures Sender(p).window != [] && Sender(p).window[0] < |p.tx.slots| && Front(p).sn == p.tx.base && Front(p).payload != []
    ensures Queue.GetFront(p.tx.ring) == Address(Sender(p).window[0]) && Queue.Valid(p.tx.ring) && p.tx.next == 1 + |p.sent|
    ensures EndOf(Front(p)) <= p.tx.next
  {
    hide Slotted, PackedBytes, Genuine, SegmentAt, Queue.Contents, Queue.Length, View;
    ViewFields(p.tx, p.call.pc);
    PlainView(p.tx, p.call.pc);
    PeekView(p.tx, p.call.pc);
    FullWindow(p);
    if Sender(p).window != [] {
      ChainOrder(Sender(p).window, p.tx.slots, p.tx.base, p.sent, 0);
    }
  }

  lemma FullWindow(p: Peer)
    requires SenderInv(p) && p.phase == Established && (At(p, WaitFull) || At(p, Drain) || At(p, Top))
    ensures Queue.IsFull(p.tx.ring) <==> |Sender(p).window| == WINDOW_LENGTH
  {}

  /** The front segment sent again is in the receiver's buffer when it has been taken. */
  lemma FrontTaken(l: Link)
    requires Good(l) && Waiting(l.p) && Sender(l.p).window != [] && Sender(l.p).window[0] < |l.p.tx.slots|
    ensures var f := Front(l.p); EndOf(f) <= OnData(l.q.rx, f.sn, f.payload).ackSent <= l.p.tx.next
  {
    WaitingFront(l.p);
    Reached(l.p, l.q, l.data, l.back);
    assert l.p.tx.base <= l.q.rx.ackSent;
    assert Outside(l.p, l.q.rx.ackSent);
    hide Sender, SenderInv;
  }

  lemma {:induction false} PoppedShorter(tx: Tx, ack: int, sent: seq<Byte>)
    requires Chain(tx.window, tx.slots, tx.base, sent) && tx.window != [] && ack >= EndOf(tx.slots[tx.window[0]])
    ensures |Popped(tx, ack).window| < |tx.window|
  {
    var rest := tx.(window := tx.window[1..], base := tx.base + |tx.slots[tx.window[0]].payload|);
    PoppedKeeps(rest, ack, sent);
  }

  /** The acknowledgement of at least the front segment shortens the window. */
  lemma AckShortens(p: Peer, inbox: set<Segment>, seg: Segment) returns (m: nat, p': Peer)
    requires SenderInv(p) && p.phase == Established && Waiting(p) && seg in inbox && seg.Ack?
    requires Sender(p).window != [] && Sender(p).window[0] < |p.tx.slots| && EndOf(Front(p)) <= seg.ack <= p.tx.next
    ensures Local(p, inbox, GotAck(seg, m), p', {}) && Disciplined(p, GotAck(seg, m))
    ensures p' == p.(tx := p'.tx) && |Sender(p').window| < |Sender(p).window|
  {
    WaitingFront(p);
    assert !Overruns(p.tx, PcOf(p.call), seg.ack);
    hide SenderInv, Sender, AckStep, Overruns;
    var r;
    m, r := AckRuns(p, seg.ack);
    p' := p.(tx := r);
    assert Local(p, inbox, GotAck(seg, m), p', {});
    AckKeepsSender(p, inbox, seg, m, p');
    SenderChain(p);
    SenderNext(p);
    PoppedShorter(Sender(p), seg.ack, p.sent);
  }

  lemma SenderNext(p: Peer)
    ensures Sender(p).next == p.tx.next && Sender(p).base == p.tx.base && Sender(p).slots == p.tx.slots
  {}

  /** Look at the front segment and send it again. */
  lemma Resent(ls: seq<Link>) returns (rs: seq<Link>)
    requires LinkRun(ls) && Good(Last(ls)) && Waiting(Last(ls).p)
    ensures LinkRun(rs) && |rs| > |ls| && ls <= rs && Good(Last(rs)) && Waiting(Last(rs).p)
    ensures var p, p' := Last(ls).p, Last(rs).p;
      && p' == p.(call := p.call.(qp := 0)) && Sender(p') == Sender(p)
      && Sender(p).window != [] && Sender(p).window[0] < |p.tx.slots| && Data(Front(p).sn, Front(p).payload) in Last(rs).data
  {
    hide LinkNext, LinkSafe, Aligned, Sends, SenderInv, Sender, Queue.IsFull, Queue.GetFront;
    var p := Last(ls).p;
    WaitingFront(p);
    var k, f := Sender(p).window[0], Front(p);
    var p1 := p.(call := p.call.(qp := Address(k)));
    var p2 := p1.(call := p1.call.(qp := 0));
    rs := Sent(ls, Peek, p1, {});
    rs := Sent(rs, Resend, p2, {Data(f.sn, f.payload)});
    SameSender(p, p2, 0);
  }

  lemma SameSender(p: Peer, p': Peer, qp: int)
    requires p.call.Call? && p' == p.(call := p.call.(qp := qp))
    ensures Sender(p') == Sender(p) && (Waiting(p) ==> Waiting(p'))
  {}

  /** Have it taken and acknowledged: the window is shorter and the call where it was. */
  lemma Round(ls: seq<Link>) returns (rs: seq<Link>)
    requires LinkRun(ls) && Good(Last(ls)) && Waiting(Last(ls).p)
    ensures LinkRun(rs) && |rs| > |ls| && ls <= rs && Good(Last(rs))
    ensures var p, p' := Last(ls).p, Last(rs).p;
      p'.call == p.call.(qp := 0) && p'.sent == p.sent && |Sender(p').window| < |Sender(p).window|
  {
    hide LinkNext, LinkSafe, Aligned, Sends, SenderInv, Sender, Waiting, OnData, Local;
    rs := Resent(ls);
    var l := Last(rs);
    var f := Front(l.p);
    FrontTaken(l);
    var seg := Ack(l.q.tx.next - 1, OnData(l.q.rx, f.sn, f.payload).ackSent);
    rs := Taken(rs, f.sn, f.payload);
    var m, p' := AckShortens(l.p, Last(rs).back, seg);
    rs := Sent(rs, GotAck(seg, m), p', {});
  }

  // ---------------------------------------------------------------- the rest of the call

  /** The segments that tcp_tx has not counted yet. */
  ghost function Left(p: Peer): (n: nat)
    requires p.call.Call?
  {
    if p.call.i <= Segments(|p.call.payload|) then Segments(|p.call.payload|) - p.call.i else 0
  }

  /** How far it is to the next one. */
  ghost function Stage(p: Peer): (n: nat)
    requires p.call.Call?
  {
    match p.call.pc
    case Top => if Queue.IsFull(p.tx.ring) then 9 else 6
    case WaitFull => if Queue.IsFull(p.tx.ring) then 8 else 7
    case Filled => 5
    case Fronted => 4
    case Advanced => 3
    case Packed => 2
    case Sent => 1
    case Drain => 0
  }

  /** The same call, further on. */
  ghost predicate Onward(p: Peer, p': Peer)
    requires p.call.Call?
  {
    && p'.call.Call? && p'.call.payload == p.call.payload && p'.call.from == p.call.from && p.sent <= p'.sent
    && (Left(p') < Left(p) || (Left(p') == Left(p) && Stage(p') < Stage(p)))
  }

  /** Inside enqueue the next assignment can be made. */
  lemma Enqueues(p: Peer, inbox: set<Segment>) returns (step: LocalStep, p': Peer)
    requires SenderInv(p) && p.phase == Established && p.call.Call? && Queueing(p.call.pc)
    ensures Local(p, inbox, step, p', {}) && Disciplined(p, step) && !step.Write? && !step.Return? && Onward(p, p')
  {
    hide Chain, Slotted, PackedBytes, Genuine, View, Queue.Contents, Queue.Length, SegmentAt;
    var c, tx := p.call, p.tx;
    match c.pc
    case Filled =>
      NeverRefused(p);
      step, p' := LocalStep.SetFront, p.(tx := tx.(ring := Queue.SetFront(tx.ring)), call := c.(pc := Fronted));
    case Fronted => step, p' := LocalStep.AdvanceRear, p.(tx := tx.(ring := Queue.AdvanceRear(tx.ring)), call := c.(pc := Advanced));
    case Advanced =>
      LastEntry(tx.ring);
      step, p' := StoreEntry, p.(tx := tx.(ring := Queue.Store(tx.ring, Address(c.offset))), sent := p.sent + Current(p),
                                 call := c.(pc := Packed, offset := (c.offset + 1) % WINDOW_LENGTH));
  }

  /** tcp_tx can always go on by itself unless it waits for acknowledgements. */
  lemma GoesOn(p: Peer, inbox: set<Segment>) returns (step: LocalStep, p': Peer, out: set<Segment>)
    requires SenderInv(p) && p.phase == Established && p.call.Call? && !Waiting(p)
    ensures Local(p, inbox, step, p', out) && Disciplined(p, step) && !step.Write?
    ensures if step.Return? then p' == p.(call := Idle) else Onward(p, p')
  {
    hide Chain, Slotted, PackedBytes, Genuine, View, Queue.Contents, Queue.Length, SegmentAt, RingOk;
    var c, tx := p.call, p.tx;
    out := {};
    match c.pc
    case Top =>
      if Queue.IsFull(tx.ring) {
        step, p' := Skip, p.(call := c.(pc := WaitFull));
      } else {
        step, p' := FillSlot, p.(tx := tx.(slots := tx.slots[c.offset := Slot(tx.next, Current(p))]), call := c.(pc := Filled));
      }
    case Packed => step, p', out := Transmit, p.(call := c.(pc := Pc.Sent)), {Data(tx.next, Current(p))};
    case Sent => step, p' := Account, p.(tx := tx.(next := tx.next + |Current(p)|), call := c.(pc := WaitFull, i := c.i + 1));
    case WaitFull => step, p' := Unfull, p.(call := c.(qp := 0, pc := if c.i == Segments(|c.payload|) then Drain else Top));
    case Drain => step, p' := Return, p.(call := Idle);
    case _ => step, p' := Enqueues(p, inbox);
  }

  /** What the call in progress leaves in the stream when it returns. */
  ghost function Whole(p: Peer): (s: seq<Byte>)
    requires p.call.Call? && p.call.from <= |p.sent|
  {
    p.sent[..p.call.from] + PackedBytes(p.call.payload, Segments(|p.call.payload|))
  }

  lemma WholeSame(p: Peer, p': Peer)
    requires SenderInv(p) && SenderInv(p') && p.phase == Established && p'.phase == Established && p.call.Call? && p'.call.Call?
    requires p'.call.payload == p.call.payload && p'.call.from == p.call.from && p.sent <= p'.sent
    ensures p.call.from <= |p.sent| && p'.call.from <= |p'.sent| && Whole(p') == Whole(p)
  {
    hide Chain, Slotted, PackedBytes, Genuine, View, SegmentAt;
    FromBound(p);
    FromBound(p');
    assert p'.sent[..p.call.from] == p.sent[..p.call.from];
  }

  lemma FromBound(p: Peer)
    requires SenderInv(p) && p.phase == Established && p.call.Call?
    ensures p.call.from <= |p.sent|
  {}

  lemma RoundSame(p: Peer, p': Peer)
    requires p.call.Call? && p'.call == p.call.(qp := 0) && SenderInv(p) && SenderInv(p') && p.phase == p'.phase == Established && Waiting(p)
    requires |Sender(p').window| < |Sender(p).window|
    ensures Left(p') == Left(p) && Stage(p') <= Stage(p)
  {
    hide View, Chain, CallInv;
    FullWindow(p);
    FullWindow(p');
  }

  /** From any point of a call there is a way to its return with everything delivered. */
  lemma {:induction false} Deliver(ls: seq<Link>) returns (rs: seq<Link>)
    requires LinkRun(ls) && Good(Last(ls)) && Last(ls).p.call.Call?
    ensures LinkRun(rs) && |rs| > |ls| && ls <= rs && Sends(rs[|rs| - 2], Return, Last(rs))
    ensures var p, l := Last(ls).p, Last(rs);
      p.call.from <= |p.sent| && l.p.call.Idle? && l.p.sent == Whole(p) && l.q.rx.buffer == Whole(p)
    decreases Left(Last(ls).p), Stage(Last(ls).p), |Sender(Last(ls).p).window|
  {
    hide LinkNext, LinkSafe, Aligned, Sends, SenderInv, Sender, Waiting, Local, Left, Stage, Whole;
    var l := Last(ls);
    FromBound(l.p);
    if Waiting(l.p) {
      rs := Round(ls);
      RoundSame(l.p, Last(rs).p);
      WholeSame(l.p, Last(rs).p);
      rs := Deliver(rs);
    } else {
      var step, p', out := GoesOn(l.p, l.back);
      rs := Sent(ls, step, p', out);
      if step.Return? {
        Delivered(l, rs[|rs| - 1]);
      } else {
        WholeSame(l.p, p');
        rs := Deliver(rs);
      }
    }
  }

  lemma Delivered(l: Link, t: Link)
    requires Good(l) && l.p.call.Call? && Sends(l, Return, t) && l.p.call.from <= |l.p.sent| && t.p == l.p.(call := Idle)
    ensures t.q.rx.buffer == t.p.sent == Whole(l.p)
  {
    hide SenderInv, LinkSafe, Aligned;
    ReturnDelivers(l.p, l.q, l.data, l.back);
    assert l.p.sent == l.p.sent[..l.p.call.from] + l.p.sent[l.p.call.from..];
  }

  // ---------------------------------------------------------------- in runs of both endpoints

  /** The direction in which the client sends, or the other one. */
  ghost function LinkOf(client: bool, s: State): (l: Link) {
    if client then Link(s.client, s.server, s.toServer, s.toClient) else Link(s.server, s.client, s.toClient, s.toServer)
  }

  ghost function StateOf(client: bool, l: Link): (s: State)
    ensures LinkOf(client, s) == l
  {
    if client then State(l.p, l.q, l.data, l.back) else State(l.q, l.p, l.back, l.data)
  }

  /** A disciplined step of one endpoint. */
  ghost predicate StepBy(client: bool, s: State, step: LocalStep, t: State) {
    if client then ClientStep(s, step, t) else ServerStep(s, step, t)
  }

  lemma SendsOpen(client: bool, l: Link, step: LocalStep, t: Link)
    requires l.p.phase == Established && Sends(l, step, t)
    ensures t.p.phase == Established && StepBy(client, StateOf(client, l), step, StateOf(client, t))
  {
    hide Local;
    var out :| Local(l.p, l.back, step, t.p, out) && t.data == l.data + out;
    StaysOpen(l.p, l.back, step, t.p, out);
  }

  lemma TakesOpen(client: bool, l: Link, sn: int, payload: seq<Byte>, t: Link)
    requires Takes(l, sn, payload, t)
    ensures t.p == l.p && StepBy(!client, StateOf(client, l), GotData(sn, payload), StateOf(client, t))
  {
    hide Local;
  }

  lemma NextOpen(client: bool, l: Link, t: Link)
    requires l.p.phase == Established && LinkNext(l, t)
    ensures t.p.phase == Established && Next(StateOf(client, l), StateOf(client, t))
  {
    hide Sends, Takes, ClientStep, ServerStep, StateOf;
    if step :| Sends(l, step, t) {
      SendsOpen(client, l, step, t);
    } else {
      var sn, payload :| Takes(l, sn, payload, t);
      TakesOpen(client, l, sn, payload, t);
    }
  }

  lemma {:induction false} AllOpen(ls: seq<Link>, i: nat)
    requires LinkRun(ls) && i < |ls| && ls[0].p.phase == Established
    ensures ls[i].p.phase == Established
  {
    if i > 0 {
      AllOpen(ls, i - 1);
      NextOpen(true, ls[i - 1], ls[i]);
    }
  }

  /** Steps of one direction as steps of the connection. */
  lemma Lifted(client: bool, states: seq<State>, ls: seq<Link>) returns (more: seq<State>)
    requires Run(states) && LinkRun(ls) && ls[0].p.phase == Established && StateOf(client, ls[0]) == states[|states| - 1]
    ensures Run(more) && |more| == |states| + |ls| - 1 && states <= more
    ensures forall k :: 0 <= k < |ls| ==> more[|states| - 1 + k] == StateOf(client, ls[k])
  {
    hide Next, LinkNext, Init;
    var n := |states| - 1;
    more := states[..n] + seq(|ls|, k requires 0 <= k < |ls| => StateOf(client, ls[k]));
    forall i | 0 <= i < |more| - 1 ensures Next(more[i], more[i + 1]) {
      if i < n {
        assert Next(states[i], states[i + 1]);
        assert more[i] == states[i] && more[i + 1] == states[i + 1];
      } else {
        assert LinkNext(ls[i - n], ls[i - n + 1]);
        AllOpen(ls, i - n);
        NextOpen(client, ls[i - n], ls[i - n + 1]);
      }
    }
  }

  /** The server may still have to hear the end of the handshake. */
  lemma OtherOpens(states: seq<State>) returns (more: seq<State>)
    requires Run(states) && states[|states| - 1].client.phase == Established
    ensures Run(more) && states <= more && |more| <= |states| + 1
    ensures var s, t := states[|states| - 1], more[|more| - 1]; t.client == s.client && t.server.phase == Established && (s.server.phase == Established ==> t == s)
  {
    var s := states[|states| - 1];
    RunAligns(states, |states| - 1);
    if s.server.phase == Established {
      more := states;
    } else {
      var sn, ack :| Ack(sn, ack) in s.toServer;
      var server := s.server.(phase := Established, tx := s.server.tx.(base := ack, next := ack, ring := Queue.Init(s.server.tx.ring.a)));
      var t := s.(server := server);
      Hears(s, Ack(sn, ack), t);
      more := states + [t];
      hide Next, Init;
      forall i | 0 <= i < |more| - 1 ensures Next(more[i], more[i + 1]) {
        if i < |states| - 1 {
          assert Next(states[i], states[i + 1]);
        }
      }
    }
  }

  lemma Hears(s: State, seg: Segment, t: State)
    requires s.server.phase == SynAckSent && seg.Ack? && seg in s.toServer
    requires t == s.(server := s.server.(phase := Established, tx := s.server.tx.(base := seg.ack, next := seg.ack, ring := Queue.Init(s.server.tx.ring.a))))
    ensures Next(s, t)
  {
    assert Local(s.server, s.toServer, GotFirstAck(seg), t.server, {});
    assert t.toClient == s.toClient + {};
    assert ServerStep(s, GotFirstAck(seg), t);
  }

  lemma LinkGood(client: bool, s: State)
    requires LiveInv(s) && s.client.phase == Established && s.server.phase == Established
    ensures Good(LinkOf(client, s))
  {
    hide SenderInv, LinkInv, Aligned, HandshakeInv, Answered;
  }

  /** While an endpoint sends, the client is connected, and so is the server if it is the one. */
  lemma CallOpen(client: bool, states: seq<State>, i: nat)
    requires Run(states) && i < |states| && LinkOf(client, states[i]).p.call.Call?
    ensures states[i].client.phase == Established && (!client ==> states[i].server.phase == Established)
  {
    RunKeeps(states, i);
  }

  /** Delivery is possible. From every state of every disciplined run in which tcp_tx is in progress at
      either end, the run can go on so that the call returns, and then the other end has received
      exactly what was sent before the call and after it every segment of the call. */
  lemma RunCanDeliver(client: bool, states: seq<State>, i: nat) returns (more: seq<State>)
    requires Run(states) && i < |states| && LinkOf(client, states[i]).p.call.Call?
    ensures Run(more) && i + 1 < |more| && more[..i + 1] == states[..i + 1]
    ensures StepBy(client, more[|more| - 2], Return, more[|more| - 1])
    ensures var p, l := LinkOf(client, states[i]).p, LinkOf(client, more[|more| - 1]);
      p.call.from <= |p.sent| && l.p.call.Idle? && l.p.sent == Whole(p) && l.q.rx.buffer == Whole(p)
  {
    hide LiveInv, Next, Init, Good, Whole, StepBy, Sends, LinkNext;
    more := states[..i + 1];
    CallOpen(client, states, i);
    more := OtherOpens(more);
    var s := more[|more| - 1];
    RunAligns(more, |more| - 1);
    LinkGood(client, s);
    var ls := Deliver([LinkOf(client, s)]);
    var before := |more|;
    more := Lifted(client, more, ls);
    assert more[|more| - 2] == StateOf(client, ls[|ls| - 2]);
    AllOpen(ls, |ls| - 2);
    SendsOpen(client, ls[|ls| - 2], Return, ls[|ls| - 1]);
  }
}
