/** pipe.c: a ring of PIPESIZE bytes between two counters that wrap at 32 bits. */
module PipeSpec {
  import opened Common

  const PIPESIZE: nat := 512

  datatype Ring = Ring(data: seq<Byte>, nread: nat, nwrite: nat)

  /** Bytes pending, as unsigned 32-bit subtraction gives it. */
  function Pending(r: Ring): (n: nat) { (r.nwrite - r.nread) % UINT }

  predicate Valid(r: Ring) { |r.data| == PIPESIZE && r.nread < UINT && r.nwrite < UINT && Pending(r) <= PIPESIZE }

  /** The test of pipewrite for a full pipe, in 32-bit arithmetic. */
  predicate Full(r: Ring) { r.nwrite == (r.nread + PIPESIZE) % UINT }

  predicate Empty(r: Ring) { r.nread == r.nwrite }

  /** The slot of the i-th pending byte. */
  function Slot(r: Ring, i: nat): (j: nat)
    ensures j < PIPESIZE
  {
    (r.nread + i) % UINT % PIPESIZE
  }

  /** The pending bytes, oldest first. */
  function Contents(r: Ring): (s: seq<Byte>)
    requires Valid(r)
    ensures |s| == Pending(r)
  {
    seq(Pending(r), i requires 0 <= i < Pending(r) => r.data[Slot(r, i)])
  }

  function Put(r: Ring, b: Byte): (q: Ring)
    requires Valid(r)
  {
    Ring(r.data[r.nwrite % PIPESIZE := b], r.nread, (r.nwrite + 1) % UINT)
  }

  function Got(r: Ring): (q: Ring)
    requires Valid(r)
  {
    Ring(r.data, (r.nread + 1) % UINT, r.nwrite)
  }

  // ---------------------------------------------------------------- one byte

  /** Both tests are exact in spite of the wrap-around. */
  lemma TestsExact(r: Ring)
    requires Valid(r)
    ensures Full(r) <==> Pending(r) == PIPESIZE
    ensures Empty(r) <==> Pending(r) == 0
  {}

  /** PIPESIZE divides 2^32, so a counter that wraps goes on to the next slot. */
  lemma SlotIsLinear(n: nat)
    ensures n % UINT % PIPESIZE == n % PIPESIZE
  {
    assert n == UINT * (n / UINT) + n % UINT;
    assert UINT == PIPESIZE * 0x80_0000;
    var q := n / UINT;
    assert n == PIPESIZE * (0x80_0000 * q) + n % UINT;
    SameRemainder(n % UINT, 0x80_0000 * q);
  }

  lemma SameRemainder(m: nat, q: nat)
    ensures (PIPESIZE * q + m) % PIPESIZE == m % PIPESIZE
  {}

  /** The pending bytes and the next one to come are in different slots. */
  lemma SlotsApart(n: nat, i: nat, j: nat)
    requires i < j < i + PIPESIZE
    ensures (n + i) % UINT % PIPESIZE != (n + j) % UINT % PIPESIZE
  {
    SlotIsLinear(n + i);
    SlotIsLinear(n + j);
    var d := j - i;
    assert (n + i + d) % PIPESIZE != (n + i) % PIPESIZE;
  }

  lemma NextWrite(r: Ring)
    requires Valid(r)
    ensures r.nwrite == (r.nread + Pending(r)) % UINT
  {}

  lemma PutContents(r: Ring, b: Byte)
    requires Valid(r) && !Full(r)
    ensures Valid(Put(r, b)) && Contents(Put(r, b)) == Contents(r) + [b]
  {
    hide Pending;
    TestsExact(r);
    NextWrite(r);
    PutPending(r, b);
    var q, n := Put(r, b), Pending(r);
    assert Slot(r, n) == r.nwrite % PIPESIZE;
    forall i | 0 <= i < n ensures Contents(q)[i] == Contents(r)[i] {
      SlotsApart(r.nread, i, n);
    }
  }

  lemma PutPending(r: Ring, b: Byte)
    requires Valid(r) && Pending(r) < PIPESIZE
    ensures Pending(Put(r, b)) == Pending(r) + 1
  {
    if r.nwrite + 1 == UINT {
      assert Put(r, b).nwrite == 0;
    } else {
      assert Put(r, b).nwrite == r.nwrite + 1;
    }
  }

  lemma GotPending(r: Ring)
    requires Valid(r) && Pending(r) > 0
    ensures Pending(Got(r)) == Pending(r) - 1
  {
    if r.nread + 1 == UINT {
      assert Got(r).nread == 0;
    } else {
      assert Got(r).nread == r.nread + 1;
    }
  }

  lemma GetContents(r: Ring)
    requires Valid(r) && !Empty(r)
    ensures Valid(Got(r)) && [r.data[r.nread % PIPESIZE]] + Contents(Got(r)) == Contents(r)
  {
    hide Pending, Slot;
    TestsExact(r);
    GotPending(r);
    GotSlots(r);
  }

  lemma GotSlots(r: Ring)
    requires Valid(r)
    ensures Slot(r, 0) == r.nread % PIPESIZE && forall i: nat :: Slot(Got(r), i) == Slot(r, i + 1)
  {
    forall i: nat ensures Slot(Got(r), i) == Slot(r, i + 1) {
      NextSlot(r.nread, i);
    }
  }

  lemma NextSlot(n: nat, i: nat)
    ensures ((n + 1) % UINT + i) % UINT % PIPESIZE == (n + (i + 1)) % UINT % PIPESIZE
  {
    SlotIsLinear((n + 1) % UINT + i);
    SlotIsLinear(n + 1);
    SlotIsLinear(n + (i + 1));
    SumRemainder((n + 1) % UINT, n + 1, i);
  }

  lemma SumRemainder(a: nat, b: nat, i: nat)
    requires a % PIPESIZE == b % PIPESIZE
    ensures (a + i) % PIPESIZE == (b + i) % PIPESIZE
  {
    var r := a % PIPESIZE;
    assert a == PIPESIZE * (a / PIPESIZE) + r && b == PIPESIZE * (b / PIPESIZE) + r;
    SameRemainder(r + i, a / PIPESIZE);
    SameRemainder(r + i, b / PIPESIZE);
  }

  // ---------------------------------------------------------------- one turn under the pipe's lock

  /** pipewrite between two sleeps: as many bytes as fit. */
  function PutAll(r: Ring, bytes: seq<Byte>): (q: (Ring, nat))
    requires Valid(r)
    ensures Valid(q.0) && q.1 <= |bytes| && (q.1 < |bytes| ==> Full(q.0))
    ensures Contents(q.0) == Contents(r) + bytes[..q.1]
    decreases |bytes|
  {
    if bytes == [] || Full(r) then (r, 0)
    else
      PutContents(r, bytes[0]);
      var q := PutAll(Put(r, bytes[0]), bytes[1..]);
      assert Contents(r) + [bytes[0]] + bytes[1..][..q.1] == Contents(r) + bytes[..q.1 + 1];
      (q.0, q.1 + 1)
  }

  /** piperead's copy loop: at most n of the pending bytes. */
  function GetAll(r: Ring, n: nat): (q: (Ring, seq<Byte>))
    requires Valid(r)
    ensures Valid(q.0) && |q.1| <= n && (|q.1| < n ==> Empty(q.0))
    ensures q.1 + Contents(q.0) == Contents(r)
    decreases n
  {
    if n == 0 || Empty(r) then (r, [])
    else
      GetContents(r);
      var q := GetAll(Got(r), n - 1);
      assert [r.data[r.nread % PIPESIZE]] + (q.1 + Contents(q.0)) == [r.data[r.nread % PIPESIZE]] + q.1 + Contents(q.0);
      (q.0, [r.data[r.nread % PIPESIZE]] + q.1)
  }

  // ---------------------------------------------------------------- any number of readers and writers

  /** A call of pipewrite that has written addr[..i]. */
  datatype Writer = Writer(addr: seq<Byte>, i: nat)

  /** written is the history of bytes put, each with the call it came from; taken that of bytes got. */
  datatype Sys = Sys(ring: Ring, readopen: bool, writeopen: bool, writers: seq<Writer>, written: seq<(nat, Byte)>, taken: seq<Byte>)

  datatype Step = Call(addr: seq<Byte>) | WriteTurn(w: nat) | ReadTurn(n: nat) | CloseRead | CloseWrite

  function Bytes(h: seq<(nat, Byte)>): (s: seq<Byte>)
    ensures |s| == |h|
  {
    seq(|h|, i requires 0 <= i < |h| => h[i].1)
  }

  /** The bytes one call has put, in the order in which it put them. */
  function From(h: seq<(nat, Byte)>, w: nat): (s: seq<Byte>) {
    if h == [] then []
    else From(h[..|h| - 1], w) + (if h[|h| - 1].0 == w then [h[|h| - 1].1] else [])
  }

  function Tagged(w: nat, bytes: seq<Byte>): (h: seq<(nat, Byte)>)
    ensures |h| == |bytes|
  {
    seq(|bytes|, i requires 0 <= i < |bytes| => (w, bytes[i]))
  }

  /** A read sleeps on an empty pipe while it is open for writing. */
  predicate Enabled(s: Sys, e: Step) {
    match e
    case WriteTurn(w) => w < |s.writers| && s.writers[w].i <= |s.writers[w].addr|
    case ReadTurn(n) => !Empty(s.ring) || !s.writeopen
    case _ => true
  }

  function After(s: Sys, e: Step): (r: Sys)
    requires Enabled(s, e) && Valid(s.ring)
  {
    match e
    case Call(addr) => s.(writers := s.writers + [Writer(addr, 0)])
    case WriteTurn(w) =>
      var x := s.writers[w];
      var q := PutAll(s.ring, x.addr[x.i..]);
      s.(ring := q.0, writers := s.writers[w := Writer(x.addr, x.i + q.1)], written := s.written + Tagged(w, x.addr[x.i..x.i + q.1]))
    case ReadTurn(n) =>
      var q := GetAll(s.ring, n);
      s.(ring := q.0, taken := s.taken + q.1)
    case CloseRead => s.(readopen := false)
    case CloseWrite => s.(writeopen := false)
  }

  ghost predicate Inv(s: Sys) {
    && Valid(s.ring) && s.taken + Contents(s.ring) == Bytes(s.written)
    && (forall w: nat :: w < |s.writers| ==> s.writers[w].i <= |s.writers[w].addr| && From(s.written, w) == s.writers[w].addr[..s.writers[w].i])
    && (forall w: nat :: w >= |s.writers| ==> From(s.written, w) == [])
  }

  lemma {:induction false} FromTagged(h: seq<(nat, Byte)>, w: nat, bytes: seq<Byte>, v: nat)
    ensures From(h + Tagged(w, bytes), v) == if v == w then From(h, v) + bytes else From(h, v)
    decreases |bytes|
  {
    if bytes == [] {
      assert h + Tagged(w, bytes) == h;
    } else {
      var n := |bytes| - 1;
      FromTagged(h, w, bytes[..n], v);
      assert Tagged(w, bytes[..n]) == Tagged(w, bytes)[..n];
      assert (h + Tagged(w, bytes))[..|h| + n] == h + Tagged(w, bytes)[..n];
      assert From(h, v) + bytes[..n] + [bytes[n]] == From(h, v) + bytes;
    }
  }

  lemma BytesTagged(h: seq<(nat, Byte)>, w: nat, bytes: seq<Byte>)
    ensures Bytes(h + Tagged(w, bytes)) == Bytes(h) + bytes
  {}

  lemma StepKeeps(s: Sys, e: Step)
    requires Inv(s) && Enabled(s, e)
    ensures Inv(After(s, e))
  {
    match e {
      case WriteTurn(w) => WriteKeeps(s, w);
      case ReadTurn(n) =>
        var q := GetAll(s.ring, n);
        assert s.taken + (q.1 + Contents(q.0)) == s.taken + q.1 + Contents(q.0);
      case _ =>
    }
  }

  lemma WriteKeeps(s: Sys, w: nat)
    requires Inv(s) && Enabled(s, WriteTurn(w))
    ensures Inv(After(s, WriteTurn(w)))
  {
    hide PutAll, Contents, From, Valid, Tagged, Bytes;
    var x := s.writers[w];
    var rest := x.addr[x.i..];
    var q := PutAll(s.ring, rest);
    var chunk := x.addr[x.i..x.i + q.1];
    assert rest[..q.1] == chunk;
    assert s.taken + (Contents(s.ring) + chunk) == s.taken + Contents(s.ring) + chunk;
    BytesTagged(s.written, w, chunk);
    forall v: nat ensures From(s.written + Tagged(w, chunk), v) == if v == w then From(s.written, v) + chunk else From(s.written, v) {
      FromTagged(s.written, w, chunk, v);
    }
    assert x.addr[..x.i] + chunk == x.addr[..x.i + q.1];
  }

  ghost predicate Init(s: Sys) {
    Valid(s.ring) && Empty(s.ring) && s.writers == [] && s.written == [] && s.taken == []
  }

  ghost predicate IsRun(ss: seq<Sys>, es: seq<Step>) {
    && |ss| == |es| + 1 && Init(ss[0])
    && (forall i: nat :: i < |es| ==> Enabled(ss[i], es[i]) && (Valid(ss[i].ring) ==> ss[i + 1] == After(ss[i], es[i])))
  }

  lemma {:induction false} RunKeeps(ss: seq<Sys>, es: seq<Step>, n: nat)
    requires IsRun(ss, es) && n < |ss|
    ensures Inv(ss[n])
  {
    if n == 0 {
      TestsExact(ss[0].ring);
    } else {
      RunKeeps(ss, es, n - 1);
      StepKeeps(ss[n - 1], es[n - 1]);
    }
  }

  /** A pipe is a FIFO for any number of readers and writers in any interleaving: the bytes read
      are a prefix of the bytes written, at most PIPESIZE are pending, and every call's bytes are
      written in its own order. */
  lemma RunFifo(ss: seq<Sys>, es: seq<Step>, n: nat)
    requires IsRun(ss, es) && n < |ss|
    ensures ss[n].taken <= Bytes(ss[n].written) && |ss[n].written| - |ss[n].taken| <= PIPESIZE
    ensures forall w: nat :: w < |ss[n].writers| ==> From(ss[n].written, w) <= ss[n].writers[w].addr
  {
    RunKeeps(ss, es, n);
  }

  /** A read returns nothing, though asked for bytes, only when everything written has been read and
      the pipe is closed for writing. */
  lemma RunEndOfFile(ss: seq<Sys>, es: seq<Step>, i: nat)
    requires IsRun(ss, es) && i < |es| && es[i].ReadTurn? && es[i].n > 0 && ss[i + 1].taken == ss[i].taken
    ensures ss[i].taken == Bytes(ss[i].written) && !ss[i].writeopen
  {
    RunKeeps(ss, es, i);
    TestsExact(ss[i].ring);
    var q := GetAll(ss[i].ring, es[i].n);
    assert |ss[i + 1].taken| == |ss[i].taken| + |q.1|;
  }
}
