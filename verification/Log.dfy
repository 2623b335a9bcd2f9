/** log.c as an object that reads and writes disk blocks. Every block write is recorded in the
    ghost field writes, so each method says exactly which disk writes it performs and in what
    order: a crash point is a position in that sequence. */
module Log {
  import opened Blocks
  import opened LogSpec

  datatype EndResult = Panic | Woken | MustCommit

  class Log {
    const area: Area
    const block: array<nat>
    var n: nat
    var disk: Disk
    /** Buffers that are modified and not yet on disk; every other buffer equals its disk block. */
    var pinned: map<nat, Block>
    var outstanding: int
    var committing: bool
    ghost var writes: seq<Write>

    ghost predicate Shape()
      reads this
    {
      block.Length == LOGSIZE && n <= LOGSIZE && 0 < area.size && area.start + area.size <= |disk|
    }

    ghost function View(): (m: Mem)
      requires Shape()
      reads this, block
    {
      Mem(block[..n], pinned, outstanding, committing)
    }

    constructor (area: Area, disk: Disk)
      requires 0 < area.size && area.start + area.size <= |disk|
      ensures Shape() && fresh(block) && this.area == area && this.disk == disk
      ensures View() == Mem([], map[], 0, false) && writes == []
    {
      this.area := area;
      this.block := new nat[LOGSIZE];
      this.disk := disk;
      n, pinned, outstanding, committing, writes := 0, map[], 0, false, [];
    }

    /** bread: a pinned buffer, or the disk block. */
    function Bread(b: nat): (data: Block)
      requires b < |disk|
      reads this
      ensures b in pinned ==> data == pinned[b]
      ensures b !in pinned ==> data == disk[b]
    {
      if b in pinned then pinned[b] else disk[b]
    }

    /** bwrite: one disk write, after which the buffer is clean. */
    method Bwrite(b: nat, data: Block)
      requires b < |disk|
      modifies this`disk, this`pinned, this`writes
      ensures disk == Put(old(disk), Write(b, data))
      ensures pinned == old(pinned) - {b}
      ensures writes == old(writes) + [Write(b, data)]
    {
      disk := disk[b := data];
      pinned := pinned - {b};
      writes := writes + [Write(b, data)];
    }

    method WriteLog()
      requires Shape() && GoodList(area, disk, block[..n]) && Cached(block[..n], pinned)
      requires forall b :: b in pinned ==> !Inside(area, b)
      modifies this`disk, this`pinned, this`writes
      ensures Shape() && pinned == old(pinned)
      ensures writes == old(writes) + LogCopies(area, block[..n], old(pinned))
      ensures disk == Apply(old(disk), LogCopies(area, block[..n], old(pinned)))
    {
      ghost var ws := LogCopies(area, block[..n], pinned);
      var tail := 0;
      while tail < n
        invariant 0 <= tail <= n && Shape() && |disk| == old(|disk|)
        invariant pinned == old(pinned)
        invariant writes == old(writes) + ws[..tail]
        invariant disk == Apply(old(disk), ws[..tail])
      {
        var from := Bread(block[tail]);
        assert ws[tail] == Write(area.start + 1 + tail, from);
        Extend(old(writes), ws, tail);
        Bwrite(area.start + tail + 1, from);
        tail := tail + 1;
      }
      assert ws[..n] == ws;
    }

    method WriteHead()
      requires Shape() && Loggable(block[..n]) && area.start !in pinned
      modifies this`disk, this`pinned, this`writes
      ensures Shape() && pinned == old(pinned)
      ensures writes == old(writes) + [Write(area.start, EncodeHead(old(disk)[area.start], block[..n]))]
      ensures disk == old(disk)[area.start := EncodeHead(old(disk)[area.start], block[..n])]
    {
      var hb := SetWord(Bread(area.start), 0, n);
      ghost var h0 := hb;
      var i := 0;
      while i < n
        invariant 0 <= i <= n
        invariant hb == FillHead(h0, block[..i])
      {
        assert block[..i + 1][..i] == block[..i];
        hb := SetWord(hb, i + 1, block[i]);
        i := i + 1;
      }
      Bwrite(area.start, hb);
    }

    method InstallTrans()
      requires Shape() && GoodList(area, disk, block[..n])
      requires forall b :: b in pinned ==> !Inside(area, b)
      modifies this`disk, this`pinned, this`writes
      ensures Shape()
      ensures writes == old(writes) + Installs(area, old(disk), block[..n])
      ensures disk == Apply(old(disk), Installs(area, old(disk), block[..n]))
      ensures pinned == old(pinned) - (set b | b in block[..n])
    {
      hide Apply, Installs, GoodList;
      ghost var ws := Installs(area, disk, block[..n]);
      InstallsStart(area, disk, block[..n]);
      NoneMinus(pinned, block[..0]);
      var tail := 0;
      while tail < n
        invariant 0 <= tail <= n && Shape() && |disk| == old(|disk|)
        invariant writes == old(writes) + ws[..tail]
        invariant disk == Apply(old(disk), ws[..tail])
        invariant forall b: nat :: Inside(area, b) ==> disk[b] == old(disk)[b]
        invariant pinned == old(pinned) - (set b | b in block[..tail])
      {
        InstallsAt(area, old(disk), block[..n], tail);
        var lbuf := Bread(area.start + tail + 1);
        Extend(old(writes), ws, tail);
        ApplyNext(old(disk), ws, tail);
        MinusNext(old(pinned), block[..tail], block[tail]);
        assert block[..tail + 1] == block[..tail] + [block[tail]];
        Bwrite(block[tail], lbuf);
        tail := tail + 1;
      }
      assert ws[..n] == ws;
    }

    method ReadHead()
      requires Shape() && GoodLog(area, disk) && area.start !in pinned
      modifies this`n, block
      ensures Shape() && block[..n] == Header(disk[area.start])
    {
      var lh := Bread(area.start);
      n := Word(lh, 0);
      var i := 0;
      while i < n
        invariant 0 <= i <= n == Word(lh, 0)
        invariant forall k :: 0 <= k < i ==> block[k] == Word(lh, k + 1)
      {
        block[i] := Word(lh, i + 1);
        i := i + 1;
      }
    }

    /** The end of both recovery and commit: install the listed blocks, then erase the header. */
    method InstallAndErase()
      requires Shape() && GoodLog(area, disk) && block[..n] == Header(disk[area.start])
      requires forall b :: b in pinned ==> !Inside(area, b)
      modifies this`disk, this`pinned, this`writes, this`n
      ensures Shape() && n == 0
      ensures disk == Recovered(area, old(disk))
      ensures writes == old(writes) + RecoverWrites(area, old(disk))
      ensures pinned == old(pinned) - (set b | b in old(block[..n]))
    {
      hide Word, SetWord, FillHead;
      RecoverCompleted(area, disk);
      assert Inside(area, area.start);
      InstallTrans();
      n := 0;
      WriteHead();
    }

    /** Boot-time recovery performs exactly the writes of RecoverWrites. */
    method RecoverFromLog()
      requires Shape() && GoodLog(area, disk) && pinned == map[]
      modifies this`disk, this`pinned, this`writes, this`n, block
      ensures Shape() && n == 0 && pinned == map[]
      ensures disk == Recovered(area, old(disk))
      ensures writes == old(writes) + RecoverWrites(area, old(disk))
    {
      ReadHead();
      InstallAndErase();
    }

    method WriteLogAndHead()
      requires Shape() && GoodLog(area, disk) && GoodList(area, disk, block[..n])
      requires pinned.Keys == set b | b in block[..n]
      modifies this`disk, this`pinned, this`writes
      ensures Shape() && pinned == old(pinned)
      ensures writes == old(writes) + CommitHead(area, old(disk), block[..n], pinned)
      ensures disk == Apply(old(disk), CommitHead(area, old(disk), block[..n], pinned))
    {
      hide Word, SetWord, EncodeHead, FillHead;
      HeadCommits(area, disk, block[..n], pinned);
      Associative(writes, LogCopies(area, block[..n], pinned), [Write(area.start, EncodeHead(disk[area.start], block[..n]))]);
      WriteLog();
      WriteHead();
    }

    /** A commit performs exactly the writes of CommitWrites and leaves no pinned buffer. */
    method Commit()
      requires Shape() && EmptyLog(area, disk) && GoodList(area, disk, block[..n])
      requires pinned.Keys == set b | b in block[..n]
      modifies this`disk, this`pinned, this`writes, this`n
      ensures Shape() && n == 0 && pinned == map[]
      ensures var ws := CommitWrites(area, old(disk), old(block[..n]), old(pinned));
        writes == old(writes) + ws && disk == Apply(old(disk), ws)
    {
      if n > 0 {
        CommitListed();
      }
    }

    method CommitListed()
      requires Shape() && GoodLog(area, disk) && GoodList(area, disk, block[..n]) && n > 0
      requires pinned.Keys == set b | b in block[..n]
      modifies this`disk, this`pinned, this`writes, this`n
      ensures Shape() && n == 0 && pinned == map[]
      ensures var ws := CommitWrites(area, old(disk), old(block[..n]), old(pinned));
        writes == old(writes) + ws && disk == Apply(old(disk), ws)
    {
      ghost var bs, cache, d0 := block[..n], pinned, disk;
      ghost var head, tail := CommitHead(area, d0, bs, cache), CommitTail(area, d0, bs, cache);
      HeadCommits(area, d0, bs, cache);
      TailIsRecovery(area, d0, bs, cache, Apply(d0, head));
      ApplyAppend(d0, head, tail);
      NoneLeft(cache, bs);
      Associative(writes, head, tail);
      WriteLogAndHead();
      InstallAndErase();
    }

    /** begin_op, one turn of its loop: start the operation, or sleep. */
    method TryBeginOp() returns (started: bool)
      requires Shape()
      modifies this`outstanding
      ensures Shape() && started == MayBegin(old(View()))
      ensures View() == old(View()).(outstanding := old(outstanding) + if started then 1 else 0)
    {
      if committing {
        started := false;
      } else if n + (outstanding + 1) * MAXOPBLOCKS > LOGSIZE {
        started := false;
      } else {
        outstanding := outstanding + 1;
        started := true;
      }
    }

    /** end_op up to the point where it commits. */
    method EndOp() returns (r: EndResult)
      requires Shape()
      modifies this`outstanding, this`committing
      ensures Shape() && (r.Panic? <==> old(committing))
      ensures !r.Panic? ==> View() == Ended(old(View())) && (r.MustCommit? <==> outstanding == 0)
      ensures !r.Panic? ==> (committing <==> outstanding == 0)
    {
      outstanding := outstanding - 1;
      if committing {
        return Panic;
      }
      if outstanding == 0 {
        committing := true;
        r := MustCommit;
      } else {
        r := Woken;
      }
    }

    /** The rest of the last end_op: the commit, and then operations may begin again. */
    method CommitOp()
      requires Shape() && EmptyLog(area, disk) && GoodList(area, disk, block[..n]) && outstanding == 0
      requires pinned.Keys == set b | b in block[..n]
      modifies this`disk, this`pinned, this`writes, this`n, this`committing
      ensures Shape() && View() == Mem([], map[], 0, false) && MayBegin(View())
      ensures disk == Apply(old(disk), CommitWrites(area, old(disk), old(block[..n]), old(pinned)))
    {
      Commit();
      committing := false;
    }

    /** log_write of a buffer holding data for block b; false is a panic. */
    method LogWrite(b: nat, data: Block) returns (ok: bool)
      requires Shape()
      modifies this`n, this`pinned, block
      ensures Shape() && ok == !RefusesWrite(area, old(View()))
      ensures View() == if ok then Logged(old(View()), b, data) else old(View())
    {
      if n >= LOGSIZE || n >= area.size - 1 {
        return false;
      }
      if outstanding < 1 {
        return false;
      }
      var i := 0;
      while i < n && block[i] != b
        invariant 0 <= i <= n
        invariant b !in block[..i]
      {
        i := i + 1;
      }
      assert i < n ==> b == block[..n][i];
      block[i] := b;
      if i == n {
        n := n + 1;
      }
      pinned := pinned[b := data];
      ok := true;
    }
  }

  lemma InstallsStart(g: Area, d: Disk, bs: seq<nat>)
    requires GoodList(g, d, bs)
    ensures |Installs(g, d, bs)| == |bs| && Apply(d, Installs(g, d, bs)[..0]) == d
  {}

  lemma InstallsAt(g: Area, d: Disk, bs: seq<nat>, k: nat)
    requires GoodList(g, d, bs) && k < |bs|
    ensures g.start + k + 1 < |d| && Inside(g, g.start + k + 1) && bs[k] < |d| && !Inside(g, bs[k])
    ensures k < |Installs(g, d, bs)| && Installs(g, d, bs)[k] == Write(bs[k], d[g.start + k + 1])
  {}

  lemma ApplyNext(d: Disk, ws: seq<Write>, k: nat)
    requires k < |ws|
    ensures Apply(d, ws[..k + 1]) == Put(Apply(d, ws[..k]), ws[k])
  {
    assert ws[..k + 1][..k] == ws[..k];
  }

  lemma NoneMinus(m: map<nat, Block>, bs: seq<nat>)
    requires bs == []
    ensures m - (set b | b in bs) == m
  {}

  lemma MinusNext(m: map<nat, Block>, done: seq<nat>, b: nat)
    ensures m - (set c | c in done) - {b} == m - (set c | c in done + [b])
  {}

  lemma NoneLeft(m: map<nat, Block>, bs: seq<nat>)
    requires m.Keys == set b | b in bs
    ensures m - (set b | b in bs) == map[]
  {}

  lemma Extend(w: seq<Write>, ws: seq<Write>, k: nat)
    requires k < |ws|
    ensures w + ws[..k] + [ws[k]] == w + ws[..k + 1]
    ensures ws[..k + 1][..k] == ws[..k]
  {}

  lemma Associative(w: seq<Write>, h: seq<Write>, t: seq<Write>)
    ensures w + h + t == w + (h + t)
  {}

  lemma RecoverCompleted(g: Area, d: Disk)
    requires GoodLog(g, d)
    ensures var d2 := Apply(d, Installs(g, d, Header(d[g.start])));
      |d2| == |d| && d2[g.start] == d[g.start] && Recovered(g, d) == Put(d2, Write(g.start, EncodeHead(d[g.start], [])))
  {
    var ws := RecoverWrites(g, d);
    RecoverKeepsLog(g, d, |ws| - 1);
    assert ws[..|ws|-1] == Installs(g, d, Header(d[g.start]));
    assert Inside(g, g.start);
  }
}
