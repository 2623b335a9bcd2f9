/** queue.c: a ring of ten integers whose front and rear are both -1 when it is empty, so that
    all ten places can be used. */
module Queue {

  const QUEUE_SIZE: nat := 10

  /** The ring as a value: what one C struct queue holds. */
  datatype Ring = Ring(front: int, rear: int, a: seq<int>)

  predicate Valid(q: Ring) {
    && |q.a| == QUEUE_SIZE
    && -1 <= q.front < QUEUE_SIZE && -1 <= q.rear < QUEUE_SIZE
    && (q.front == -1 <==> q.rear == -1)
  }

  function Length(q: Ring): (n: nat)
    requires Valid(q)
    ensures n <= QUEUE_SIZE
  {
    if q.front == -1 then 0 else if q.front <= q.rear then q.rear - q.front + 1 else q.rear + QUEUE_SIZE - q.front + 1
  }

  /** The queued integers, front first. */
  function Contents(q: Ring): (s: seq<int>)
    requires Valid(q)
    ensures |s| == Length(q)
  {
    seq(Length(q), i requires 0 <= i < Length(q) => q.a[(q.front + i) % QUEUE_SIZE])
  }

  // ---------------------------------------------------------------- the operations on values

  function Init(a: seq<int>): (q: Ring) { Ring(-1, -1, a) }

  predicate IsFull(q: Ring)
    ensures Valid(q) ==> (IsFull(q) <==> |Contents(q)| == QUEUE_SIZE)
  {
    (q.rear + 1) % QUEUE_SIZE == q.front
  }

  predicate IsEmpty(q: Ring)
    ensures Valid(q) ==> (IsEmpty(q) <==> Contents(q) == [])
  {
    q.front == -1
  }

  /** 0 when empty. */
  function GetFront(q: Ring): (x: int)
    ensures Valid(q) ==> x == if Contents(q) == [] then 0 else Contents(q)[0]
  {
    if 0 <= q.front < |q.a| then q.a[q.front] else 0
  }

  /** The three assignments of enqueue, each at one point where an interrupt may come first. */
  function SetFront(q: Ring): (r: Ring) {
    if q.front == -1 then q.(front := q.front + 1) else q
  }

  function AdvanceRear(q: Ring): (r: Ring) {
    q.(rear := (q.rear + 1) % QUEUE_SIZE)
  }

  function Store(q: Ring, d: int): (r: Ring) {
    if 0 <= q.rear < |q.a| then q.(a := q.a[q.rear := d]) else q
  }

  function Enqueued(q: Ring, d: int): (r: Ring)
    requires Valid(q)
    ensures Valid(r)
    ensures Contents(r) == if |Contents(q)| == QUEUE_SIZE then Contents(q) else Contents(q) + [d]
  {
    if IsFull(q) then q else Store(AdvanceRear(SetFront(q)), d)
  }

  function Dequeued(q: Ring): (r: Ring)
    ensures Valid(q) ==> Valid(r) && Contents(r) == if Contents(q) == [] then [] else Contents(q)[1..]
  {
    if q.front == -1 then q
    else if q.front == q.rear then q.(front := -1, rear := -1)
    else q.(front := (q.front + 1) % QUEUE_SIZE)
  }

  /** m dequeues in a row: what one acknowledgement interrupt may do to the window. */
  function DequeueMany(q: Ring, m: nat): (r: Ring)
    ensures Valid(q) ==> Valid(r) && Contents(r) == Contents(q)[if m < |Contents(q)| then m else |Contents(q)|..]
    decreases m
  {
    if m == 0 then q else DequeueMany(Dequeued(q), m - 1)
  }

  // ---------------------------------------------------------------- enqueue interrupted by dequeues

  /** What enqueue should leave when m entries went meanwhile. */
  ghost predicate Appended(q: Ring, m: nat, d: int, r: Ring)
    requires Valid(q)
  {
    Valid(r) && Contents(r) == Contents(q)[if m < |Contents(q)| then m else |Contents(q)|..] + [d]
  }

  /** m dequeues between enqueue's test of front and its step of rear. On a queue that was not empty
      the new entry ends up behind the survivors if and only if there is one. On an empty one, where
      front is already 0 and rear still -1, the dequeues run round the ring, and it does if and only
      if they come back to where they began. */
  lemma InterruptAfterFrontTest(q: Ring, d: int, m: nat)
    requires Valid(q) && |Contents(q)| < QUEUE_SIZE
    ensures Appended(q, m, d, Store(AdvanceRear(DequeueMany(SetFront(q), m)), d))
      <==> if Contents(q) == [] then m % QUEUE_SIZE == 0 else m < |Contents(q)|
  {
    if Contents(q) == [] {
      RunRound(SetFront(q), m);
    } else {
      var e := DequeueMany(q, m);
      if m < |Contents(q)| {
        assert Store(AdvanceRear(e), d) == Enqueued(e, d);
      } else {
        assert Contents(e) == [];
      }
    }
  }

  lemma {:induction false} RunRound(q: Ring, m: nat)
    requires 0 <= q.front < QUEUE_SIZE && q.rear == -1
    ensures DequeueMany(q, m) == q.(front := (q.front + m) % QUEUE_SIZE)
    decreases m
  {
    if m > 0 {
      RunRound(Dequeued(q), m - 1);
    }
  }

  /** m dequeues after rear has moved and before the entry is stored: the entry is queued if and only
      if they stop before its place. Otherwise rear is -1 and the store goes before the array, to the
      field that holds the size. */
  lemma InterruptBeforeStore(q: Ring, d: int, m: nat)
    requires Valid(q) && |Contents(q)| < QUEUE_SIZE
    ensures var e := DequeueMany(AdvanceRear(SetFront(q)), m);
      && (Appended(q, m, d, Store(e, d)) <==> m <= |Contents(q)|)
      && (e.rear == -1 <==> m > |Contents(q)|)
  {
    AdvanceAdds(q);
    hide Contents, Length;
    var e, c := AdvanceRear(SetFront(q)), Contents(AdvanceRear(SetFront(q)));
    if m <= |Contents(q)| {
      StoreLast(DequeueMany(e, m), d);
      assert c[m..][..|c[m..]| - 1] == c[..|c| - 1][m..];
      NonEmpty(DequeueMany(e, m));
    } else {
      NonEmpty(DequeueMany(e, m));
    }
  }

  lemma NonEmpty(q: Ring)
    requires Valid(q)
    ensures q.rear == -1 <==> Contents(q) == []
  {}

  lemma AdvanceAdds(q: Ring)
    requires Valid(q) && |Contents(q)| < QUEUE_SIZE
    ensures Valid(AdvanceRear(SetFront(q)))
    ensures |Contents(AdvanceRear(SetFront(q)))| == |Contents(q)| + 1
    ensures Contents(AdvanceRear(SetFront(q)))[..|Contents(q)|] == Contents(q)
  {}

  lemma StoreLast(q: Ring, d: int)
    requires Valid(q) && Contents(q) != []
    ensures Valid(Store(q, d))
    ensures Contents(Store(q, d)) == Contents(q)[..|Contents(q)| - 1] + [d]
  {}

  // ---------------------------------------------------------------- the ring in place

  class RingBuffer {
    var front: int
    var rear: int
    const a: array<int>

    /** The struct as it is passed by value to getfront, isqueuefull and isqueueempty. */
    function View(): (q: Ring)
      reads this, a
    {
      Ring(front, rear, a[..])
    }

    constructor ()
      ensures fresh(a) && Valid(View()) && Contents(View()) == []
    {
      a := new int[QUEUE_SIZE];
      front, rear := -1, -1;
    }

    method Enqueue(d: int)
      requires Valid(View())
      modifies this, a
      ensures View() == Enqueued(old(View()), d)
    {
      if (rear + 1) % QUEUE_SIZE == front {
        return;
      }
      if front == -1 {
        front := front + 1;
      }
      rear := (rear + 1) % QUEUE_SIZE;
      a[rear] := d;
    }

    method Dequeue() returns (x: int)
      requires Valid(View())
      modifies this
      ensures View() == Dequeued(old(View()))
      ensures x == if old(Contents(View())) == [] then -1 else old(Contents(View()))[0]
    {
      x := -1;
      if front == -1 {
        return;
      }
      x := a[front];
      if front != -1 && front == rear {
        front, rear := -1, -1;
      } else {
        front := (front + 1) % QUEUE_SIZE;
      }
    }
  }
}
