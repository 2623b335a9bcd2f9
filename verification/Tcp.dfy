/** The parts of tcp_receive, tcp_tx and socketread that update a connection in place, each
    proved to be the step of the same name in TcpSpec. */
module Tcp {
  import opened Common
  import opened TcpSpec
  import Queue

  const TCP_HEADER_MIN_SIZE: nat := 20

  /** What socketread does: it fails on a connection that is not established, sleeps once when it
      finds nothing, and copies what there is when it wakes up. */
  datatype ReadResult = Failed | Sleep | Got(bytes: seq<Byte>)

  class Connection {
    var baseSeq: int
    var nextSeq: int
    const window: Queue.RingBuffer
    const pkts: array<Slot>
    var ackSent: int
    var buffer: seq<Byte>
    var offset: nat
    var established: bool

    ghost predicate Valid()
      reads this, window, window.a, pkts
    {
      && pkts.Length == WINDOW_LENGTH && Queue.Valid(window.View()) && offset <= |buffer|
      && forall k :: 0 <= k < |Queue.Contents(window.View())| ==> 1 <= Queue.Contents(window.View())[k] <= WINDOW_LENGTH
    }

    ghost function Sender(): (tx: Tx)
      requires Valid()
      reads this, window, window.a, pkts
    {
      View(Raw(baseSeq, nextSeq, window.View(), pkts[..]), Top)
    }

    ghost function Receiver(): (rx: Rx)
      reads this
    {
      Rx(ackSent, buffer)
    }

    constructor (base: int, ack: int)
      ensures Valid() && fresh(window) && fresh(window.a) && fresh(pkts)
      ensures Sender().base == Sender().next == base && Sender().window == [] && Receiver() == Rx(ack, [])
    {
      baseSeq, nextSeq, ackSent, buffer, offset, established := base, base, ack, [], 0, true;
      window := new Queue.RingBuffer();
      pkts := new Slot[WINDOW_LENGTH](_ => Slot(0, []));
    }

    /** An acknowledgement on an established connection. */
    method ReceiveAck(ack: int)
      requires Valid()
      modifies this`baseSeq, window
      ensures Valid() && Sender() == OnAck(old(Sender()), ack)
    {
      if ack < baseSeq || ack > nextSeq {
        return;
      }
      ghost var tx0 := Sender();
      var qp := Queue.GetFront(window.View());
      while !Queue.IsEmpty(window.View()) && ack >= pkts[qp - 1].sn + (TCP_HEADER_MIN_SIZE + |pkts[qp - 1].payload|) - TCP_HEADER_MIN_SIZE
        invariant Valid() && qp == Queue.GetFront(window.View())
        invariant Popped(Sender(), ack) == Popped(tx0, ack)
        decreases |Queue.Contents(window.View())|
      {
        hide Queue.Contents, Queue.Length;
        PopFront(qp);
        qp := Queue.GetFront(window.View());
      }
    }

    /** Remove the acknowledged front segment. */
    method PopFront(qp: int)
      requires Valid() && Queue.Contents(window.View()) != [] && qp == Queue.Contents(window.View())[0]
      modifies this`baseSeq, window
      ensures Valid() && |Queue.Contents(window.View())| < old(|Queue.Contents(window.View())|)
      ensures Sender() == old(Sender()).(window := old(Sender()).window[1..], base := old(baseSeq) + |pkts[qp - 1].payload|)
    {
      ghost var tx, c := Sender(), Queue.Contents(window.View());
      var size := TCP_HEADER_MIN_SIZE + |pkts[qp - 1].payload|;
      var x := window.Dequeue();
      baseSeq := baseSeq + (size - TCP_HEADER_MIN_SIZE);
      assert Queue.Contents(window.View()) == c[1..];
      assert Sender().window == tx.window[1..];
    }

    /** In-order data is appended; the acknowledgement to send is returned. */
    method ReceiveData(sn: int, payload: seq<Byte>) returns (ack: int)
      requires Valid()
      modifies this`ackSent, this`buffer
      ensures Valid() && Receiver() == OnData(old(Receiver()), sn, payload)
      ensures ack == Receiver().ackSent
    {
      if ackSent == sn {
        buffer := buffer + payload;
        ack := sn + |payload|;
      } else {
        ack := ackSent;
      }
      ackSent := ack;
    }

    /** tcp_tx queues a copy of the segment it is about to send. */
    method QueueSegment(slot: nat, payload: seq<Byte>)
      requires Valid() && slot < WINDOW_LENGTH && !Queue.IsFull(window.View())
      modifies window, window.a, pkts
      ensures Valid() && Sender() == Pack(old(Sender()), slot, payload)
    {
      ghost var c, tx := Queue.Contents(window.View()), Sender();
      pkts[slot] := Slot(nextSeq, payload);
      window.Enqueue(Address(slot));
      assert Queue.Contents(window.View()) == c + [Address(slot)];
      assert Sender().window == tx.window + [slot];
    }

    /** socketread: the next bytes of the stream, in order, at most size of them. woken says that it
        has already slept; it does not look again. */
    method SocketRead(size: nat, woken: bool) returns (r: ReadResult)
      requires Valid()
      modifies this`offset
      ensures Valid() && (r.Failed? <==> !woken && !established) && (!r.Got? ==> offset == old(offset))
      ensures r.Sleep? <==> !woken && established && old(offset) == |buffer|
      ensures r.Got? ==> old(offset) <= offset && r.bytes == buffer[old(offset)..offset] && |r.bytes| <= size
      ensures r.Got? ==> |r.bytes| == size || offset == |buffer|
    {
      if !woken && !established {
        return Failed;
      }
      if offset == |buffer| && !woken {
        return Sleep;
      }
      var maxbytes := |buffer| - offset;
      var n := if maxbytes >= size then size else maxbytes;
      r := Got(buffer[offset..offset + n]);
      offset := offset + n;
    }
  }
}
