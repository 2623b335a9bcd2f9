/** The on-disk redo log: what commit and recovery write to the disk, block by block, and
    what a crash between any two of those writes leaves behind. */
module LogSpec {
  import opened Blocks
  import opened Common

  const MAXOPBLOCKS: nat := 10
  const LOGSIZE: nat := MAXOPBLOCKS * 3
  const NBUF: nat := MAXOPBLOCKS * 3

  type Disk = seq<Block>

  /** One atomic block transfer to the disk. */
  datatype Write = Write(blockno: nat, data: Block)

  /** Where the log lives: its header is block start, its data blocks follow it. */
  datatype Area = Area(start: nat, size: nat)

  ghost predicate Inside(g: Area, b: nat) { g.start <= b < g.start + g.size }

  /** iderw refuses blocks past the end of the disk. */
  function Put(d: Disk, w: Write): (r: Disk)
    ensures |r| == |d|
  {
    if w.blockno < |d| then d[w.blockno := w.data] else d
  }

  function Apply(d: Disk, ws: seq<Write>): (r: Disk)
    ensures |r| == |d|
  {
    if ws == [] then d else Put(Apply(d, ws[..|ws|-1]), ws[|ws|-1])
  }

  // ---------------------------------------------------------------- the header block

  /** The block numbers a header block lists. */
  function Header(h: Block): (bs: seq<nat>)
    requires Word(h, 0) <= LOGSIZE
  {
    seq(Word(h, 0), i requires 0 <= i < Word(h, 0) => Word(h, i + 1))
  }

  predicate Loggable(bs: seq<nat>) {
    |bs| <= LOGSIZE && forall i :: 0 <= i < |bs| ==> bs[i] < UINT
  }

  function FillHead(h: Block, bs: seq<nat>): (r: Block)
    requires Loggable(bs)
    ensures forall k: nat :: k < WORDS ==> Word(r, k) == if 1 <= k <= |bs| then bs[k-1] else Word(h, k)
  {
    if bs == [] then h else SetWord(FillHead(h, bs[..|bs|-1]), |bs|, bs[|bs|-1])
  }

  /** write_head: the count and the listed numbers are replaced, later words stay as they were. */
  function EncodeHead(h: Block, bs: seq<nat>): (r: Block)
    requires Loggable(bs)
    ensures Word(r, 0) == |bs| && Header(r) == bs
  {
    FillHead(SetWord(h, 0, |bs|), bs)
  }

  // ---------------------------------------------------------------- the write sequences

  /** A list of blocks that fits the log area and lies outside it. */
  ghost predicate GoodList(g: Area, d: Disk, bs: seq<nat>) {
    && Loggable(bs) && |bs| < g.size && g.start + g.size <= |d|
    && (forall i :: 0 <= i < |bs| ==> !Inside(g, bs[i]) && bs[i] < |d|)
    && (forall i, j :: 0 <= i < j < |bs| ==> bs[i] != bs[j])
  }

  ghost predicate GoodLog(g: Area, d: Disk) {
    && 0 < g.size && g.start + g.size <= |d|
    && Word(d[g.start], 0) <= LOGSIZE
    && GoodList(g, d, Header(d[g.start]))
  }

  ghost predicate EmptyLog(g: Area, d: Disk) {
    GoodLog(g, d) && Word(d[g.start], 0) == 0
  }

  /** install_trans: copy each log block to its home. */
  ghost function Installs(g: Area, d: Disk, bs: seq<nat>): (ws: seq<Write>)
    requires GoodList(g, d, bs)
  {
    seq(|bs|, i requires 0 <= i < |bs| => Write(bs[i], d[g.start + 1 + i]))
  }

  /** Every disk write of one complete recovery. */
  ghost function RecoverWrites(g: Area, d: Disk): (ws: seq<Write>)
    requires GoodLog(g, d)
  {
    Installs(g, d, Header(d[g.start])) + [Write(g.start, EncodeHead(d[g.start], []))]
  }

  ghost function Recovered(g: Area, d: Disk): (r: Disk)
    requires GoodLog(g, d)
  {
    Apply(d, RecoverWrites(g, d))
  }

  /** The cached contents of every listed block. */
  ghost predicate Cached(bs: seq<nat>, cache: map<nat, Block>) {
    forall i :: 0 <= i < |bs| ==> bs[i] in cache
  }

  /** write_log: copy each listed block from the cache to the log. */
  ghost function LogCopies(g: Area, bs: seq<nat>, cache: map<nat, Block>): (ws: seq<Write>)
    requires Cached(bs, cache)
  {
    seq(|bs|, i requires 0 <= i < |bs| => Write(g.start + 1 + i, cache[bs[i]]))
  }

  /** The log copies and the header write: the last write of this list is the commit point. */
  ghost function CommitHead(g: Area, d: Disk, bs: seq<nat>, cache: map<nat, Block>): (ws: seq<Write>)
    requires GoodList(g, d, bs) && Cached(bs, cache)
    ensures |ws| == |bs| + 1
  {
    LogCopies(g, bs, cache) + [Write(g.start, EncodeHead(d[g.start], bs))]
  }

  /** Installing every cached block at its home, then erasing the header. */
  ghost function CommitTail(g: Area, d: Disk, bs: seq<nat>, cache: map<nat, Block>): (ws: seq<Write>)
    requires GoodList(g, d, bs) && Cached(bs, cache)
    ensures |ws| == |bs| + 1
  {
    seq(|bs|, i requires 0 <= i < |bs| => Write(bs[i], cache[bs[i]])) +
    [Write(g.start, EncodeHead(EncodeHead(d[g.start], bs), []))]
  }

  /** Every disk write of one complete commit, in order. */
  ghost function CommitWrites(g: Area, d: Disk, bs: seq<nat>, cache: map<nat, Block>): (ws: seq<Write>)
    requires GoodList(g, d, bs) && Cached(bs, cache)
  {
    if bs == [] then [] else CommitHead(g, d, bs, cache) + CommitTail(g, d, bs, cache)
  }

  // ---------------------------------------------------------------- applying writes

  ghost predicate DistinctWrites(ws: seq<Write>) {
    forall i, j :: 0 <= i < j < |ws| ==> ws[i].blockno != ws[j].blockno
  }

  ghost predicate Touches(ws: seq<Write>, b: nat) {
    exists i :: 0 <= i < |ws| && ws[i].blockno == b
  }

  /** Writes to distinct blocks all take effect, and nothing else changes. */
  lemma {:induction false} ApplyDistinct(d: Disk, ws: seq<Write>)
    requires DistinctWrites(ws)
    requires forall i :: 0 <= i < |ws| ==> ws[i].blockno < |d|
    ensures forall i :: 0 <= i < |ws| ==> Apply(d, ws)[ws[i].blockno] == ws[i].data
    ensures forall b: nat :: b < |d| && !Touches(ws, b) ==> Apply(d, ws)[b] == d[b]
  {
    if ws != [] {
      var front := ws[..|ws|-1];
      ApplyDistinct(d, front);
      forall b: nat | b < |d| && !Touches(ws, b) ensures Apply(d, ws)[b] == d[b] {
        assert ws[|ws|-1].blockno != b;
        assert !Touches(front, b) by {
          assert forall i :: 0 <= i < |front| ==> front[i] == ws[i];
        }
      }
    }
  }

  lemma {:induction false} ApplyAppend(d: Disk, xs: seq<Write>, ys: seq<Write>)
    ensures Apply(d, xs + ys) == Apply(Apply(d, xs), ys)
  {
    if ys == [] {
      assert xs + ys == xs;
    } else {
      ApplyAppend(d, xs, ys[..|ys|-1]);
      assert (xs + ys)[..|xs + ys|-1] == xs + ys[..|ys|-1];
    }
  }

  /** Redo after a partial run of the same writes ends where one full run ends. */
  lemma {:induction false} ReplayPrefix(d: Disk, ws: seq<Write>, k: nat)
    requires DistinctWrites(ws) && k <= |ws|
    requires forall i :: 0 <= i < |ws| ==> ws[i].blockno < |d|
    ensures Apply(Apply(d, ws[..k]), ws) == Apply(d, ws)
  {
    var p := Apply(d, ws[..k]);
    ApplyDistinct(d, ws[..k]);
    ApplyDistinct(p, ws);
    ApplyDistinct(d, ws);
    forall b: nat | b < |d| ensures Apply(p, ws)[b] == Apply(d, ws)[b] {
      if Touches(ws, b) {
        var i :| 0 <= i < |ws| && ws[i].blockno == b;
      } else {
        assert !Touches(ws[..k], b);
      }
    }
  }

  // ---------------------------------------------------------------- crashes

  /** A recovery attempt cut short after k of its writes (all of them when k is larger). */
  ghost function CutRecovery(g: Area, d: Disk, k: nat): (r: Disk)
    requires GoodLog(g, d)
  {
    var ws := RecoverWrites(g, d);
    Apply(d, ws[..if k < |ws| then k else |ws|])
  }

  lemma RecoverWritesDistinct(g: Area, d: Disk)
    requires GoodLog(g, d)
    ensures DistinctWrites(RecoverWrites(g, d))
    ensures forall i :: 0 <= i < |RecoverWrites(g, d)| ==> RecoverWrites(g, d)[i].blockno < |d|
  {}

  /** Recovery leaves every log data block alone, and the header too until its last write. */
  lemma RecoverKeepsLog(g: Area, d: Disk, k: nat)
    requires GoodLog(g, d) && k < |RecoverWrites(g, d)|
    ensures var e := CutRecovery(g, d, k);
      |e| == |d| && forall b: nat :: Inside(g, b) ==> e[b] == d[b]
  {
    var ws := RecoverWrites(g, d);
    RecoverWritesDistinct(g, d);
    ApplyDistinct(d, ws[..k]);
    forall b: nat | Inside(g, b) ensures Apply(d, ws[..k])[b] == d[b] {
      assert !Touches(ws[..k], b);
    }
  }

  /** The writes of a recovery depend only on the log area. */
  lemma SameLogSameWrites(g: Area, d: Disk, e: Disk)
    requires GoodLog(g, d) && |e| == |d| && forall b: nat :: Inside(g, b) ==> e[b] == d[b]
    ensures GoodLog(g, e) && RecoverWrites(g, e) == RecoverWrites(g, d)
  {
    assert Inside(g, g.start);
    var bs := Header(d[g.start]);
    forall i | 0 <= i < |bs| ensures Installs(g, e, bs)[i] == Installs(g, d, bs)[i] {
      assert Inside(g, g.start + 1 + i);
    }
    assert Installs(g, e, bs) == Installs(g, d, bs);
  }

  /** Recovery leaves an empty log, and on a disk whose log is empty it changes no home block. */
  lemma RecoveredIsEmpty(g: Area, d: Disk)
    requires GoodLog(g, d)
    ensures |Recovered(g, d)| == |d|
    ensures EmptyLog(g, Recovered(g, d))
    ensures EmptyLog(g, d) ==> forall b: nat :: b < |d| && b != g.start ==> Recovered(g, d)[b] == d[b]
    ensures Recovered(g, d)[g.start] == EncodeHead(d[g.start], [])
  {
    var ws := RecoverWrites(g, d);
    RecoverWritesDistinct(g, d);
    ApplyDistinct(d, ws);
    assert ws[|ws|-1].blockno == g.start;
  }

  lemma EncodeEmptyTwice(h: Block)
    ensures EncodeHead(EncodeHead(h, []), []) == EncodeHead(h, [])
  {
    assert SetWord(SetWord(h, 0, 0), 0, 0) == SetWord(h, 0, 0);
  }

  /** One interrupted recovery does not change what a complete recovery produces. */
  lemma RecoverAfterCut(g: Area, d: Disk, k: nat)
    requires GoodLog(g, d)
    ensures GoodLog(g, CutRecovery(g, d, k))
    ensures |CutRecovery(g, d, k)| == |d|
    ensures Recovered(g, CutRecovery(g, d, k)) == Recovered(g, d)
  {
    var ws := RecoverWrites(g, d);
    var e := CutRecovery(g, d, k);
    if k < |ws| {
      RecoverKeepsLog(g, d, k);
      SameLogSameWrites(g, d, e);
      RecoverWritesDistinct(g, d);
      ReplayPrefix(d, ws, k);
    } else {
      assert ws[..|ws|] == ws;
      RecoveredTwice(g, d);
    }
  }

  lemma RecoveredTwice(g: Area, d: Disk)
    requires GoodLog(g, d)
    ensures EmptyLog(g, Recovered(g, d)) && |Recovered(g, d)| == |d|
    ensures Recovered(g, Recovered(g, d)) == Recovered(g, d)
  {
    var e := Recovered(g, d);
    RecoveredIsEmpty(g, d);
    RecoveredIsEmpty(g, e);
    EncodeEmptyTwice(d[g.start]);
  }

  /** Any number of interrupted recoveries, one after the other. */
  ghost function CutRecoveries(g: Area, d: Disk, cuts: seq<nat>): (r: Disk)
    requires GoodLog(g, d)
    ensures GoodLog(g, r) && |r| == |d|
    ensures Recovered(g, r) == Recovered(g, d)
    decreases |cuts|
  {
    if cuts == [] then d else
      RecoverAfterCut(g, d, cuts[0]);
      CutRecoveries(g, CutRecovery(g, d, cuts[0]), cuts[1..])
  }

  /** Up to and including the log copies, a commit has changed only log data blocks. */
  lemma CommitBeforeHead(g: Area, d: Disk, bs: seq<nat>, cache: map<nat, Block>, k: nat)
    requires GoodLog(g, d) && GoodList(g, d, bs) && Cached(bs, cache) && k <= |bs|
    ensures var e := Apply(d, LogCopies(g, bs, cache)[..k]);
      && |e| == |d|
      && (forall b: nat :: b < |d| && !(g.start < b <= g.start + k) ==> e[b] == d[b])
      && (forall i :: 0 <= i < k ==> e[g.start + 1 + i] == cache[bs[i]])
  {
    var ws := LogCopies(g, bs, cache)[..k];
    ApplyDistinct(d, ws);
    forall i | 0 <= i < k ensures Apply(d, ws)[g.start + 1 + i] == cache[bs[i]] {
      assert ws[i].blockno == g.start + 1 + i;
    }
  }

  ghost predicate SameHomes(g: Area, d: Disk, e: Disk) {
    |d| == |e| && forall b: nat :: b < |d| && !Inside(g, b) ==> d[b] == e[b]
  }

  /** The disk at the commit point lists the blocks and holds their new contents in the log. */
  ghost predicate Committed(g: Area, d: Disk, bs: seq<nat>, cache: map<nat, Block>, e: Disk)
    requires GoodList(g, d, bs) && Cached(bs, cache)
  {
    && SameHomes(g, d, e) && e[g.start] == EncodeHead(d[g.start], bs)
    && forall i :: 0 <= i < |bs| ==> e[g.start + 1 + i] == cache[bs[i]]
  }

  lemma HeadCommits(g: Area, d: Disk, bs: seq<nat>, cache: map<nat, Block>)
    requires GoodLog(g, d) && GoodList(g, d, bs) && Cached(bs, cache)
    ensures Committed(g, d, bs, cache, Apply(d, CommitHead(g, d, bs, cache)))
    ensures |Apply(d, LogCopies(g, bs, cache))| == |d| && Apply(d, LogCopies(g, bs, cache))[g.start] == d[g.start]
    ensures Apply(d, CommitHead(g, d, bs, cache)) ==
            Put(Apply(d, LogCopies(g, bs, cache)), Write(g.start, EncodeHead(d[g.start], bs)))
  {
    var lc := LogCopies(g, bs, cache);
    CommitBeforeHead(g, d, bs, cache, |bs|);
    assert lc[..|bs|] == lc && CommitHead(g, d, bs, cache)[..|bs|] == lc;
  }

  /** Once the header is written, the writes commit still has to do are those recovery would do. */
  lemma TailIsRecovery(g: Area, d: Disk, bs: seq<nat>, cache: map<nat, Block>, e: Disk)
    requires 0 < g.size && GoodList(g, d, bs) && Cached(bs, cache) && Committed(g, d, bs, cache, e)
    ensures GoodLog(g, e) && Header(e[g.start]) == bs
    ensures Installs(g, e, bs) == CommitTail(g, d, bs, cache)[..|bs|]
    ensures RecoverWrites(g, e) == CommitTail(g, d, bs, cache)
  {
    assert Installs(g, e, bs) == CommitTail(g, d, bs, cache)[..|bs|];
  }

  /** The disk with the listed blocks replaced by their cached contents. */
  ghost predicate Installed(g: Area, d: Disk, bs: seq<nat>, cache: map<nat, Block>, r: Disk)
    requires Cached(bs, cache)
  {
    && |r| == |d|
    && forall b: nat :: b < |d| && !Inside(g, b) ==> r[b] == if b in bs then cache[b] else d[b]
  }

  /** Crash atomicity. Cut a commit after any k of its writes, interrupt recovery any number of
      times at any points, then let one recovery finish: the home blocks are all old when the
      header write had not happened, and all new when it had. */
  lemma CommitCrashAtomic(g: Area, d: Disk, bs: seq<nat>, cache: map<nat, Block>, k: nat, cuts: seq<nat>)
    requires EmptyLog(g, d) && GoodList(g, d, bs) && Cached(bs, cache)
    requires k <= |CommitWrites(g, d, bs, cache)|
    ensures var e := Apply(d, CommitWrites(g, d, bs, cache)[..k]);
      && GoodLog(g, e)
      && (k <= |bs| ==> SameHomes(g, d, Recovered(g, CutRecoveries(g, e, cuts))))
      && (k > |bs| ==> Installed(g, d, bs, cache, Recovered(g, CutRecoveries(g, e, cuts))))
  {
    if k <= |bs| {
      CommitNotYet(g, d, bs, cache, k);
    } else {
      CommitRest(g, d, bs, cache, k);
    }
  }

  lemma CommitNotYet(g: Area, d: Disk, bs: seq<nat>, cache: map<nat, Block>, k: nat)
    requires EmptyLog(g, d) && GoodList(g, d, bs) && Cached(bs, cache)
    requires k <= |bs| && k <= |CommitWrites(g, d, bs, cache)|
    ensures var e := Apply(d, CommitWrites(g, d, bs, cache)[..k]);
      GoodLog(g, e) && SameHomes(g, d, Recovered(g, e))
  {
    hide Word, SetWord, EncodeHead, FillHead, Cached, Apply, CommitWrites, LogCopies, Recovered;
    CopiesFirst(g, d, bs, cache, k);
    CommitBeforeHead(g, d, bs, cache, k);
    RecoveredIsEmpty(g, Apply(d, LogCopies(g, bs, cache)[..k]));
  }

  lemma CopiesFirst(g: Area, d: Disk, bs: seq<nat>, cache: map<nat, Block>, k: nat)
    requires GoodList(g, d, bs) && Cached(bs, cache) && k <= |bs| && k <= |CommitWrites(g, d, bs, cache)|
    ensures |LogCopies(g, bs, cache)| == |bs| && CommitWrites(g, d, bs, cache)[..k] == LogCopies(g, bs, cache)[..k]
  {
    hide EncodeHead;
  }

  lemma CommitRest(g: Area, d: Disk, bs: seq<nat>, cache: map<nat, Block>, k: nat)
    requires EmptyLog(g, d) && GoodList(g, d, bs) && Cached(bs, cache)
    requires |bs| < k <= |CommitWrites(g, d, bs, cache)|
    ensures var e := Apply(d, CommitWrites(g, d, bs, cache)[..k]);
      GoodLog(g, e) && Installed(g, d, bs, cache, Recovered(g, e))
  {
    hide Word, SetWord, EncodeHead, FillHead, GoodList, Cached, Apply;
    var c := Apply(d, CommitHead(g, d, bs, cache));
    HeadCommits(g, d, bs, cache);
    TailIsRecovery(g, d, bs, cache, c);
    InstalledByRecovery(g, d, bs, cache, c);
    CutInTail(d, CommitHead(g, d, bs, cache), CommitTail(g, d, bs, cache), k);
    assert Apply(d, CommitWrites(g, d, bs, cache)[..k]) == CutRecovery(g, c, k - (|bs| + 1));
    RecoverAfterCut(g, c, k - (|bs| + 1));
  }

  /** An uninterrupted commit installs every block and leaves the log empty. */
  lemma CommitComplete(g: Area, d: Disk, bs: seq<nat>, cache: map<nat, Block>)
    requires GoodLog(g, d) && GoodList(g, d, bs) && Cached(bs, cache) && bs != []
    ensures EmptyLog(g, Apply(d, CommitWrites(g, d, bs, cache)))
    ensures Installed(g, d, bs, cache, Apply(d, CommitWrites(g, d, bs, cache)))
  {
    var c := Apply(d, CommitHead(g, d, bs, cache));
    HeadCommits(g, d, bs, cache);
    TailIsRecovery(g, d, bs, cache, c);
    InstalledByRecovery(g, d, bs, cache, c);
    RecoveredIsEmpty(g, c);
    ApplyAppend(d, CommitHead(g, d, bs, cache), CommitTail(g, d, bs, cache));
  }

  lemma CutInTail(d: Disk, xs: seq<Write>, ys: seq<Write>, k: nat)
    requires |xs| <= k <= |xs + ys|
    ensures Apply(d, (xs + ys)[..k]) == Apply(Apply(d, xs), ys[..k - |xs|])
  {
    assert (xs + ys)[..k] == xs + ys[..k - |xs|];
    ApplyAppend(d, xs, ys[..k - |xs|]);
  }

  lemma InstalledByRecovery(g: Area, d: Disk, bs: seq<nat>, cache: map<nat, Block>, c: Disk)
    requires GoodLog(g, c) && GoodList(g, d, bs) && Cached(bs, cache)
    requires SameHomes(g, d, c)
    requires RecoverWrites(g, c) == CommitTail(g, d, bs, cache)
    ensures Installed(g, d, bs, cache, Recovered(g, c))
  {
    hide GoodLog, RecoverWrites, Apply;
    var rs := RecoverWrites(g, c);
    RecoverWritesDistinct(g, c);
    ApplyDistinct(c, rs);
    forall b: nat | b < |d| && !Inside(g, b) ensures Apply(c, rs)[b] == if b in bs then cache[b] else d[b] {
      if b in bs {
        var i :| 0 <= i < |bs| && bs[i] == b;
        assert rs[i] == Write(b, cache[b]);
      } else {
        assert !Touches(rs, b);
      }
    }
  }

  // ---------------------------------------------------------------- the log in memory

  /** The in-memory log: listed block numbers, the modified buffers they pin, and the counters. */
  datatype Mem = Mem(listed: seq<nat>, pinned: map<nat, Block>, outstanding: int, committing: bool)

  /** begin_op lets an operation start only when its worst case still fits. */
  predicate MayBegin(m: Mem) {
    !m.committing && |m.listed| + (m.outstanding + 1) * MAXOPBLOCKS <= LOGSIZE
  }

  /** The two panics at the top of log_write. */
  predicate RefusesWrite(g: Area, m: Mem) {
    |m.listed| >= LOGSIZE || |m.listed| >= g.size - 1 || m.outstanding < 1
  }

  /** log_write lists a block once, however often it is written. */
  function Logged(m: Mem, b: nat, data: Block): (r: Mem) {
    m.(listed := if b in m.listed then m.listed else m.listed + [b], pinned := m.pinned[b := data])
  }

  /** end_op before it commits: the last operation out turns committing on. */
  function Ended(m: Mem): (r: Mem) {
    m.(outstanding := m.outstanding - 1, committing := m.committing || m.outstanding == 1)
  }
}
