/** bio.c in place: the buffers and the doubly linked list through them. Indices stand for pointers
    and n, one past the last buffer, for the list's head. The methods are the parts that run under
    bcache.lock. */
module Bio {
  import opened Blocks
  import opened Common
  import opened BioSpec

  /** The k-th node from the head on; the head again at the end. */
  function Node(order: seq<nat>, n: nat, k: nat): (x: nat)
    requires k <= |order| + 1
  {
    if k == 0 || k == |order| + 1 then n else order[k - 1]
  }

  ghost predicate Distinct(order: seq<nat>, n: nat) {
    && (forall i :: 0 <= i < |order| ==> order[i] < n)
    && (forall i, j :: 0 <= i < j < |order| ==> order[i] != order[j])
  }

  /** next and prev run through the list in both directions. */
  ghost predicate Linked(next: seq<nat>, prev: seq<nat>, order: seq<nat>, n: nat) {
    && |next| == n + 1 && |prev| == n + 1 && Distinct(order, n)
    && (forall k :: 0 <= k <= |order| ==> next[Node(order, n, k)] == Node(order, n, k + 1))
    && (forall k :: 0 <= k <= |order| ==> prev[Node(order, n, k + 1)] == Node(order, n, k))
  }

  function Without(order: seq<nat>, i: nat): (r: seq<nat>)
    requires i < |order|
  {
    order[..i] + order[i + 1..]
  }

  /** Two pointer writes take a node out. */
  lemma UnlinkKeeps(next: seq<nat>, prev: seq<nat>, order: seq<nat>, n: nat, i: nat)
    requires Linked(next, prev, order, n) && i < |order|
    ensures next[order[i]] <= n && prev[order[i]] <= n
    ensures Linked(next[prev[order[i]] := next[order[i]]], prev[next[order[i]] := prev[order[i]]], Without(order, i), n)
    ensures forall k :: 0 <= k < |order| - 1 ==> Without(order, i)[k] != order[i]
  {
    var b, r := order[i], Without(order, i);
    WithoutNodes(order, n, i);
    NodesApart(order, n);
    hide Without, Node;
    assert b == Node(order, n, i + 1);
    assert next[b] == Node(order, n, i + 2) && prev[b] == Node(order, n, i);
    var nx, pv: seq<nat> := next[prev[b] := next[b]], prev[next[b] := prev[b]];
    forall k | 0 <= k <= |r| ensures nx[Node(r, n, k)] == Node(r, n, k + 1) {
      assert next[Node(order, n, if k <= i then k else k + 1)] == Node(order, n, if k <= i then k + 1 else k + 2);
    }
    forall k | 0 <= k <= |r| ensures pv[Node(r, n, k + 1)] == Node(r, n, k) {
      assert prev[Node(order, n, if k < i then k + 1 else k + 2)] == Node(order, n, if k < i then k else k + 1);
    }
  }

  lemma WithoutNodes(order: seq<nat>, n: nat, i: nat)
    requires Distinct(order, n) && i < |order|
    ensures Distinct(Without(order, i), n) && |Without(order, i)| == |order| - 1 && Node(order, n, i + 1) == order[i]
    ensures forall k :: 0 <= k < |order| - 1 ==> Without(order, i)[k] != order[i]
    ensures forall k :: 0 <= k <= |order| ==> Node(Without(order, i), n, k) == Node(order, n, if k <= i then k else k + 1)
  {
    assert forall k :: 0 <= k < |order| - 1 ==> Without(order, i)[k] == order[if k < i then k else k + 1];
  }

  lemma NodesApart(order: seq<nat>, n: nat)
    requires Distinct(order, n)
    ensures forall k :: 0 <= k <= |order| + 1 ==> Node(order, n, k) <= n
    ensures forall j, k :: 0 <= j < k <= |order| ==> Node(order, n, j) != Node(order, n, k)
    ensures forall j, k :: 0 < j < k <= |order| + 1 ==> Node(order, n, j) != Node(order, n, k)
  {}

  /** Four pointer writes put a node at the head. */
  lemma LinkKeeps(next: seq<nat>, prev: seq<nat>, order: seq<nat>, n: nat, b: nat)
    requires Linked(next, prev, order, n) && b < n && forall k :: 0 <= k < |order| ==> order[k] != b
    ensures next[n] <= n
    ensures Linked(next[b := next[n]][n := b], prev[b := n][next[n] := b], [b] + order, n)
  {
    var r := [b] + order;
    assert next[Node(order, n, 0)] == Node(order, n, 1);
    assert forall k :: 1 <= k <= |r| + 1 ==> Node(r, n, k) == if k == 1 then b else Node(order, n, k - 1);
    assert Node(r, n, 0) == n;
  }

  class Bcache {
    const n: nat
    var bufs: seq<Buf>
    const next: array<nat>
    const prev: array<nat>
    ghost var order: seq<nat>
    // not in the source: the clock behind Buf.when
    var now: nat

    /** The list is a permutation of all buffers. */
    ghost predicate Ok()
      reads this, next, prev
    {
      |bufs| == n && |order| == n && next != prev && Linked(next[..], prev[..], order, n)
    }

    /** binit: a list of all buffers, the last one first, in a state from which runs start. */
    constructor (n: nat)
      ensures Ok() && this.n == n && fresh(next) && fresh(prev)
      ensures forall disk :: Init(Sys(bufs, order, [], disk, now))
    {
      this.n, order, now := n, [], n;
      bufs := seq(n, i => Buf(0, 0, false, false, 0, None, ZeroBlock(), false, if i < 0 then 0 else i));
      next, prev := new nat[n + 1](i => n), new nat[n + 1](i => n);
      new;
      var b := 0;
      while b < n
        invariant 0 <= b <= n && next != prev && fresh(next) && fresh(prev) && now == n && |bufs| == n
        invariant forall i :: 0 <= i < n ==> bufs[i] == Buf(0, 0, false, false, 0, None, ZeroBlock(), false, i)
        invariant Linked(next[..], prev[..], order, n) && |order| == b && forall i :: 0 <= i < b ==> order[i] == b - 1 - i
      {
        Link(b);
        b := b + 1;
      }
    }

    /** Put buffer b at the head of the list. */
    method Link(b: nat)
      requires next != prev && Linked(next[..], prev[..], order, n) && b < n && forall k :: 0 <= k < |order| ==> order[k] != b
      modifies next, prev, this`order
      ensures Linked(next[..], prev[..], order, n) && order == [b] + old(order)
    {
      LinkKeeps(next[..], prev[..], order, n, b);
      ghost var nx: seq<nat>, pv: seq<nat> := next[..], prev[..];
      next[b] := next[n];
      prev[b] := n;
      prev[next[n]] := b;
      next[n] := b;
      assert next[..] == nx[b := nx[n]][n := b] && prev[..] == pv[b := n][nx[n] := b];
      order := [b] + order;
    }

    /** bget's first loop: forward through the list for a buffer of the block. */
    method Find(dev: nat, blockno: nat) returns (r: Option<nat>)
      requires Ok()
      ensures r.None? ==> forall b :: 0 <= b < n ==> !Is(bufs[b], dev, blockno)
      ensures r.Some? ==> r.value < n && Is(bufs[r.value], dev, blockno)
    {
      ghost var k := 1;
      var b := next[n];
      assert next[..][Node(order, n, 0)] == Node(order, n, 1);
      while b != n
        invariant 1 <= k <= n + 1 && b == Node(order, n, k)
        invariant forall j :: 0 <= j < k - 1 ==> !Is(bufs[order[j]], dev, blockno)
        decreases n + 1 - k
      {
        if bufs[b].dev == dev && bufs[b].blockno == blockno {
          return Some(b);
        }
        assert next[..][Node(order, n, k)] == Node(order, n, k + 1);
        b := next[b];
        k := k + 1;
      }
      assert k == n + 1;
      forall c | 0 <= c < n ensures !Is(bufs[c], dev, blockno) {
        Pigeons(order, n, c);
      }
      return None;
    }

    /** bget's second loop: backward for a buffer that can be recycled. */
    method FindVictim() returns (r: Option<nat>, ghost i: nat)
      requires Ok()
      ensures r.None? ==> forall b :: 0 <= b < n ==> !Recyclable(bufs[b])
      ensures r.Some? ==> Victim(bufs, order, i) && order[i] == r.value
    {
      ghost var k := n;
      var b := prev[n];
      assert prev[..][Node(order, n, n + 1)] == Node(order, n, n);
      while b != n
        invariant 0 <= k <= n && b == Node(order, n, k)
        invariant forall j :: k <= j < n ==> !Recyclable(bufs[order[j]])
        decreases k
      {
        if bufs[b].refcnt == 0 && !bufs[b].dirty {
          return Some(b), k - 1;
        }
        assert prev[..][Node(order, n, k)] == Node(order, n, k - 1);
        b := prev[b];
        k := k - 1;
      }
      assert k == 0;
      forall c | 0 <= c < n ensures !Recyclable(bufs[c]) {
        Pigeons(order, n, c);
      }
      return None, 0;
    }

    /** bget up to releasing bcache.lock: the block's buffer with one more reference, or the least
        recently released buffer that can be recycled; None is the panic. */
    method Bget(dev: nat, blockno: nat) returns (r: Option<nat>, ghost hit: bool, ghost i: nat)
      requires Ok()
      modifies this`bufs
      ensures Ok() && order == old(order)
      ensures hit <==> exists b :: 0 <= b < n && Is(old(bufs)[b], dev, blockno)
      ensures hit ==> r.Some? && r.value < n && Is(old(bufs)[r.value], dev, blockno) && bufs == old(bufs)[r.value := old(bufs)[r.value].(refcnt := old(bufs)[r.value].refcnt + 1)]
      ensures !hit && r.Some? ==> Victim(old(bufs), order, i) && order[i] == r.value && bufs == old(bufs)[r.value := Recycled(old(bufs)[r.value], dev, blockno)]
      ensures r.None? <==> !hit && forall b :: 0 <= b < n ==> !Recyclable(old(bufs)[b])
    {
      r := Find(dev, blockno);
      hit, i := r.Some?, 0;
      if r.Some? {
        bufs := bufs[r.value := bufs[r.value].(refcnt := bufs[r.value].refcnt + 1)];
        return;
      }
      r, i := FindVictim();
      if r.Some? {
        bufs := bufs[r.value := bufs[r.value].(dev := dev, blockno := blockno, valid := false, dirty := false, refcnt := 1)];
      }
    }

    /** brelse after releasing the sleep lock: the last reference moves the buffer to the head. */
    method Drop(b: nat, ghost i: nat)
      requires Ok() && b < n && bufs[b].refcnt > 0 && i < n && order[i] == b
      modifies this`bufs, this`order, this`now, next, prev
      ensures Ok()
      ensures old(bufs)[b].refcnt > 1 ==> order == old(order) && now == old(now) && bufs == old(bufs)[b := old(bufs)[b].(refcnt := old(bufs)[b].refcnt - 1)]
      ensures old(bufs)[b].refcnt == 1 ==> order == ToFront(old(order), i) && now == old(now) + 1 && bufs == old(bufs)[b := old(bufs)[b].(refcnt := 0, when := old(now))]
    {
      bufs := bufs[b := bufs[b].(refcnt := bufs[b].refcnt - 1)];
      if bufs[b].refcnt == 0 {
        UnlinkKeeps(next[..], prev[..], order, n, i);
        ghost var nx: seq<nat>, pv: seq<nat> := next[..], prev[..];
        prev[next[b]] := prev[b];
        next[prev[b]] := next[b];
        assert next[..] == nx[pv[b] := nx[b]] && prev[..] == pv[nx[b] := pv[b]];
        order := Without(order, i);
        Link(b);
        assert order == ToFront(old(order), i);
        Stamp(b);
      }
    }

    /** Record when a buffer was put at the head. */
    method Stamp(b: nat)
      requires b < |bufs|
      modifies this`bufs, this`now
      ensures bufs == old(bufs)[b := old(bufs)[b].(when := old(now))] && now == old(now) + 1
    {
      bufs := bufs[b := bufs[b].(when := now)];
      now := now + 1;
    }
  }
}
