/** Any sequence of calls into fs.c, one at a time. */
module FsLife {
  import opened Common
  import opened FsSpace
  import opened FsSpec
  import opened FsTrunc
  import opened FsWrite
  import opened FileSystem
  import LogSpec
  import Mkfs

  datatype Call = Get(i: nat) | Lock(i: nat) | Put(i: nat) | Alloc(kind: int) | Links(i: nat, nlink: int)
    | Read(i: nat, off: Uint, n: Uint) | Write(i: nat, src: seq<Byte>, off: Uint)

  /** No call changes inode j. */
  ghost predicate Spares(calls: seq<Call>, n: nat, j: nat)
    requires n <= |calls|
  {
    forall k :: 0 <= k < n ==> !(calls[k].Put? && calls[k].i == j) && !(calls[k].Links? && calls[k].i == j) && !(calls[k].Write? && calls[k].i == j)
  }

  ghost predicate KeptFile(g: Geo, fs0: Fs, fs: Fs, j: nat)
    requires Shape(g, fs0) && Shape(g, fs) && j < |fs0.inodes| && j < |fs.inodes|
  {
    fs.inodes[j] == fs0.inodes[j] && Content(g, fs, j) == Content(g, fs0, j)
  }

  /** The file system and its inode cache between two calls. */
  datatype Snap = Snap(fs: Fs, refs: seq<nat>, loaded: seq<bool>)

  ghost predicate GoodSnap(g: Geo, s: Snap) { Shape(g, s.fs) && |s.refs| == |s.loaded| == |s.fs.inodes| }

  /** The caller has what fs.c demands: a reference to an inode it locks, puts or writes, which it has
      locked before it writes. Other calls are not made. */
  ghost predicate Made(s: Snap, c: Call)
    requires |s.refs| == |s.loaded| == |s.fs.inodes|
  {
    c.Alloc? || (c.i < |s.fs.inodes| && (c.Lock? || c.Put? || c.Write? ==> s.refs[c.i] >= 1) && (c.Write? ==> s.loaded[c.i]))
  }

  ghost predicate FirstFree(inodes: seq<Inode>, j: nat) {
    1 <= j < |inodes| && inodes[j].kind == 0 && forall k: nat :: 1 <= k < j ==> inodes[k].kind != 0
  }

  /** When fs.c panics: no cache entry left, a free inode locked, no free inode, or too few free blocks. */
  ghost predicate Panics(g: Geo, s: Snap, c: Call)
    requires GoodSnap(g, s)
  {
    && Made(s, c)
    && match c
       case Get(i) => s.refs[i] == 0 && InUse(s.refs) >= NINODE
       case Lock(i) => s.fs.inodes[i].kind == 0
       case Alloc(_) =>
         || (forall j: nat :: 1 <= j < |s.fs.inodes| ==> s.fs.inodes[j].kind != 0)
         || (InUse(s.refs) >= NINODE && exists j: nat :: FirstFree(s.fs.inodes, j) && s.refs[j] == 0)
       case Write(i, src, off) => !WriteRefused(s.fs.inodes[i].size, off, |src|) && Growth(s.fs.inodes[i].size, off + |src|) > FreeBlocks(g, s.fs.disk)
       case _ => false
  }

  /** Contents of the files other than i are as they were. */
  ghost predicate OthersSame(g: Geo, fs0: Fs, fs: Fs, i: nat)
    requires Shape(g, fs0) && Shape(g, fs) && |fs.inodes| == |fs0.inodes|
  {
    forall j: nat :: j < |fs.inodes| && j != i ==> fs.inodes[j] == fs0.inodes[j] && Content(g, fs, j) == Content(g, fs0, j)
  }

  /** What a call that does not panic does, as the callers of fs.c see it. */
  ghost predicate Does(g: Geo, s: Snap, c: Call, t: Snap)
    requires GoodSnap(g, s) && GoodSnap(g, t) && |t.fs.inodes| == |s.fs.inodes|
  {
    if !Made(s, c) then t == s else
      match c
      case Get(i) =>
        && t.fs == s.fs && t.refs == s.refs[i := s.refs[i] + 1]
        && t.loaded == if s.refs[i] == 0 then s.loaded[i := false] else s.loaded
      case Lock(i) => t == s.(loaded := s.loaded[i := true])
      case Put(i) =>
        && t.refs == s.refs[i := s.refs[i] - 1] && OthersSame(g, s.fs, t.fs, i)
        && if s.loaded[i] && s.fs.inodes[i].nlink == 0 && s.refs[i] == 1
           then t.fs.inodes[i] == Emptied(s.fs.inodes[i]).(kind := 0) && t.loaded == s.loaded[i := false]
           else t.fs == s.fs && t.loaded == s.loaded
      case Alloc(kind) =>
        exists i: nat ::
          && FirstFree(s.fs.inodes, i) && Content(g, t.fs, i) == [] && t.fs.inodes[i].kind == kind && t.fs.inodes[i].nlink == 0
          && OthersSame(g, s.fs, t.fs, i) && t.refs == s.refs[i := s.refs[i] + 1]
      case Links(i, nlink) =>
        && t.refs == s.refs && t.loaded == s.loaded && OthersSame(g, s.fs, t.fs, i)
        && t.fs.inodes[i] == s.fs.inodes[i].(nlink := nlink) && Content(g, t.fs, i) == Content(g, s.fs, i)
      case Read(_, _, _) => t == s
      case Write(i, src, off) =>
        && t.refs == s.refs && t.loaded == s.loaded
        && if WriteRefused(s.fs.inodes[i].size, off, |src|) then t.fs == s.fs else Written(g, s.fs, t.fs, i, off, src)
  }

  ghost function Now(f: FileSystem): (s: Snap)
    reads f
  {
    Snap(f.St(), f.refs, f.loaded)
  }

  /** The states between the first calls, each reached from the one before as the call says. */
  ghost predicate Ran(g: Geo, trace: seq<Snap>, calls: seq<Call>) {
    && 0 < |trace| <= |calls| + 1 && (forall k :: 0 <= k < |trace| ==> GoodSnap(g, trace[k]) && |trace[k].fs.inodes| == |trace[0].fs.inodes|)
    && forall k :: 0 <= k < |trace| - 1 ==> !Panics(g, trace[k], calls[k]) && Does(g, trace[k], calls[k], trace[k + 1])
  }

  /** What a panic leaves behind: no block, no inode or no cache entry is free, or somebody holds a
      reference to a free inode. */
  ghost predicate Stuck(f: FileSystem)
    reads f
  {
    && f.Consistent() && |f.refs| == |f.inodes|
    && (|| (forall c: nat :: c < f.g.size ==> Used(f.g, f.disk, c))
        || InUse(f.refs) >= NINODE
        || (forall j: nat :: 1 <= j < |f.inodes| ==> f.inodes[j].kind != 0)
        || (exists j :: 0 <= j < |f.inodes| && f.inodes[j].kind == 0 && f.refs[j] >= 1))
  }

  /** Every call keeps the file system valid: no block is lost or shared, no file has a hole, and free
      inodes own nothing. Each call does what Does says of it, and done stops short exactly at the first
      call that panics. Files in use that no call writes to, relinks or puts are as they were. */
  method Calls(f: FileSystem, calls: seq<Call>) returns (done: nat, ghost trace: seq<Snap>)
    requires f.Valid() && CallsOk(calls)
    modifies f
    ensures done <= |calls| && f.Consistent() && |f.inodes| == old(|f.inodes|) && (done == |calls| ==> f.Valid())
    ensures Ran(f.g, trace, calls) && |trace| == done + 1 && trace[0] == old(Now(f))
    ensures if done == |calls| then trace[done] == Now(f) else Panics(f.g, trace[done], calls[done]) && Stuck(f)
    ensures forall j: nat :: done == |calls| && j < |f.inodes| && old(f.inodes)[j].kind != 0 && Spares(calls, done, j) ==> KeptFile(f.g, old(f.St()), f.St(), j)
  {
    hide OwnedSlots, Ref, AllSized, Content, Spares, KeptFile, Does, Panics, Shape, FreesVacant;
    done, trace := 0, [Now(f)];
    NothingDone(f.g, f.St(), calls);
    while done < |calls|
      invariant done <= |calls| && f.Valid() && |f.inodes| == old(|f.inodes|)
      invariant KeepsFiles(f.g, old(f.St()), f.St(), calls, done)
      invariant Ran(f.g, trace, calls) && |trace| == done + 1 && trace[0] == old(Now(f)) && trace[done] == Now(f)
    {
      ghost var fs1 := f.St();
      var ok := One(f, calls[done]);
      if !ok {
        return;
      }
      AlsoKeeps(f.g, old(f.St()), fs1, f.St(), calls, done);
      trace := trace + [Now(f)];
      done := done + 1;
    }
  }

  ghost predicate CallsOk(calls: seq<Call>) {
    forall k :: 0 <= k < |calls| ==> (calls[k].Alloc? ==> calls[k].kind != 0) && (calls[k].Write? ==> |calls[k].src| < UINT)
  }

  ghost predicate KeepsFiles(g: Geo, fs0: Fs, fs: Fs, calls: seq<Call>, n: nat) {
    && Shape(g, fs0) && Shape(g, fs) && |fs.inodes| == |fs0.inodes| && n <= |calls|
    && forall j: nat :: j < |fs.inodes| && fs0.inodes[j].kind != 0 && Spares(calls, n, j) ==> KeptFile(g, fs0, fs, j)
  }

  lemma NothingDone(g: Geo, fs: Fs, calls: seq<Call>)
    requires Shape(g, fs)
    ensures KeepsFiles(g, fs, fs, calls, 0)
  {}

  lemma AlsoKeeps(g: Geo, fs0: Fs, fs1: Fs, fs: Fs, calls: seq<Call>, n: nat)
    requires KeepsFiles(g, fs0, fs1, calls, n) && n < |calls| && Shape(g, fs) && |fs.inodes| == |fs1.inodes|
    requires forall j: nat :: j < |fs.inodes| && fs1.inodes[j].kind != 0 && !Changes(calls[n], j) ==> KeptFile(g, fs1, fs, j)
    ensures KeepsFiles(g, fs0, fs, calls, n + 1)
  {
    hide Content;
    forall j: nat | j < |fs.inodes| && fs0.inodes[j].kind != 0 && Spares(calls, n + 1, j) ensures KeptFile(g, fs0, fs, j) {
      assert Spares(calls, n, j) && KeptFile(g, fs0, fs1, j) && !Changes(calls[n], j);
      assert KeptFile(g, fs1, fs, j);
    }
  }

  predicate Changes(c: Call, j: nat) {
    (c.Put? && c.i == j) || (c.Links? && c.i == j) || (c.Write? && c.i == j)
  }

  /** One call; false exactly when it panics. */
  method One(f: FileSystem, c: Call) returns (ok: bool)
    requires f.Valid() && (c.Alloc? ==> c.kind != 0) && (c.Write? ==> |c.src| < UINT)
    modifies f
    ensures f.Consistent() && |f.inodes| == old(|f.inodes|) && (ok ==> f.Valid())
    ensures ok <==> !Panics(f.g, old(Now(f)), c)
    ensures !ok ==> Stuck(f)
    ensures ok ==> Does(f.g, old(Now(f)), c, Now(f))
    ensures ok ==> forall j: nat :: j < |f.inodes| && old(f.inodes)[j].kind != 0 && !Changes(c, j) ==> KeptFile(f.g, old(f.St()), f.St(), j)
  {
    hide OwnedSlots, Ref, AllSized, Content, Written, FreeBlocks, Growth, InUse, FreesVacant, WriteRefused, Used, Does, Panics, Stuck;
    if !c.Alloc? && c.i >= |f.inodes| {
      NotMade(f, c);
      return true;
    }
    match c
    case Alloc(_) => ok := OneAlloc(f, c);
    case Put(_) => ok := OnePut(f, c);
    case Write(_, _, _) => ok := OneWrite(f, c);
    case _ => ok := OneOther(f, c);
  }

  lemma NotMade(f: FileSystem, c: Call)
    requires f.Valid() && !Made(Now(f), c)
    ensures !Panics(f.g, Now(f), c) && Does(f.g, Now(f), c, Now(f))
  {}

  method OneAlloc(f: FileSystem, c: Call) returns (ok: bool)
    requires f.Valid() && c.Alloc? && c.kind != 0
    modifies f
    ensures f.Consistent() && |f.inodes| == old(|f.inodes|) && (ok ==> f.Valid())
    ensures ok <==> !Panics(f.g, old(Now(f)), c)
    ensures !ok ==> Stuck(f)
    ensures ok ==> Does(f.g, old(Now(f)), c, Now(f))
    ensures ok ==> forall j: nat :: j < |f.inodes| && old(f.inodes)[j].kind != 0 && !Changes(c, j) ==> KeptFile(f.g, old(f.St()), f.St(), j)
  {
    hide OwnedSlots, Ref, AllSized, FreeBlocks, InUse, FreesVacant, Used;
    ghost var s := Now(f);
    var r := f.Ialloc(c.kind);
    ok := r.Some?;
    if ok {
      assert FirstFree(s.fs.inodes, r.value);
    }
  }

  method OnePut(f: FileSystem, c: Call) returns (ok: bool)
    requires f.Valid() && c.Put? && c.i < |f.inodes|
    modifies f
    ensures f.Consistent() && |f.inodes| == old(|f.inodes|) && (ok ==> f.Valid())
    ensures ok <==> !Panics(f.g, old(Now(f)), c)
    ensures !ok ==> Stuck(f)
    ensures ok ==> Does(f.g, old(Now(f)), c, Now(f))
    ensures ok ==> forall j: nat :: j < |f.inodes| && old(f.inodes)[j].kind != 0 && !Changes(c, j) ==> KeptFile(f.g, old(f.St()), f.St(), j)
  {
    hide OwnedSlots, Ref, AllSized, Content, FreeBlocks, InUse, FreesVacant, Used;
    ok := true;
    if f.refs[c.i] >= 1 {
      var freed := f.Iput(c.i);
    }
  }

  method OneWrite(f: FileSystem, c: Call) returns (ok: bool)
    requires f.Valid() && c.Write? && c.i < |f.inodes| && |c.src| < UINT
    modifies f
    ensures f.Consistent() && |f.inodes| == old(|f.inodes|) && (ok ==> f.Valid())
    ensures ok <==> !Panics(f.g, old(Now(f)), c)
    ensures !ok ==> Stuck(f)
    ensures ok ==> Does(f.g, old(Now(f)), c, Now(f))
    ensures ok ==> forall j: nat :: j < |f.inodes| && old(f.inodes)[j].kind != 0 && !Changes(c, j) ==> KeptFile(f.g, old(f.St()), f.St(), j)
  {
    hide OwnedSlots, Ref, AllSized, Content, Written, FreeBlocks, Growth, InUse, FreesVacant, Used;
    ok := true;
    if f.refs[c.i] >= 1 && f.loaded[c.i] {
      ghost var fs0 := f.St();
      var r := f.Writei(c.i, c.src, c.off);
      ok := r.Some?;
      if ok && !WriteRefused(fs0.inodes[c.i].size, c.off, |c.src|) {
        OthersWritten(f.g, fs0, f.St(), c.i, c.off, c.src);
      }
    }
  }

  method OneOther(f: FileSystem, c: Call) returns (ok: bool)
    requires f.Valid() && !c.Alloc? && !c.Put? && !c.Write? && c.i < |f.inodes|
    modifies f
    ensures f.Consistent() && |f.inodes| == old(|f.inodes|) && (ok ==> f.Valid())
    ensures ok <==> !Panics(f.g, old(Now(f)), c)
    ensures !ok ==> Stuck(f)
    ensures ok ==> Does(f.g, old(Now(f)), c, Now(f))
    ensures ok ==> forall j: nat :: j < |f.inodes| && old(f.inodes)[j].kind != 0 && !Changes(c, j) ==> KeptFile(f.g, old(f.St()), f.St(), j)
  {
    hide OwnedSlots, Ref, AllSized, Content, FreeBlocks, InUse, FreesVacant, Used;
    ok := true;
    match c
    case Get(i) => ok := f.Iget(i);
    case Lock(i) =>
      if f.refs[i] >= 1 {
        ok := f.Ilock(i);
      }
    case Links(i, nlink) => f.SetLinks(i, nlink);
    case Read(i, off, n) =>
      var r, dst := f.Readi(i, off, n);
    case _ =>
  }

  lemma OthersWritten(g: Geo, fs0: Fs, fs: Fs, i: nat, off: nat, src: seq<Byte>)
    requires Shape(g, fs0) && Shape(g, fs) && |fs.inodes| == |fs0.inodes| && i < |fs.inodes|
    requires off <= fs0.inodes[i].size && Written(g, fs0, fs, i, off, src)
    ensures forall j: nat :: j < |fs.inodes| && j != i ==> KeptFile(g, fs0, fs, j)
  {
    hide Content;
  }

  // ---------------------------------------------------------------- filewrite among other writers

  /** The part of the buffer that chunk k writes. */
  function ChunkAt(addr: seq<Byte>, k: nat): (c: seq<Byte>)
    requires k * MAXWRITE <= |addr|
  {
    addr[k * MAXWRITE..if (k + 1) * MAXWRITE <= |addr| then (k + 1) * MAXWRITE else |addr|]
  }

  /** Bytes off and on of the file are those of chunk k. */
  ghost predicate ChunkIn(g: Geo, fs: Fs, i: nat, off: nat, c: seq<Byte>) {
    Shape(g, fs) && i < |fs.inodes| && off + |c| <= fs.inodes[i].size && Content(g, fs, i)[off..off + |c|] == c
  }

  /** Nothing but the chunks written so far has changed the file. */
  ghost predicate OnlyMine(g: Geo, fs0: Fs, fs: Fs, i: nat, off: nat, addr: seq<Byte>, done: nat) {
    && Shape(g, fs0) && Shape(g, fs) && i < |fs0.inodes| == |fs.inodes| && done <= |addr| && SameFields(fs0.inodes[i], fs.inodes[i])
    && (done == 0 ==> Content(g, fs, i) == Content(g, fs0, i))
    && (done > 0 ==> off <= |Content(g, fs0, i)| && Content(g, fs, i) == Overwritten(Content(g, fs0, i), off, addr[..done]))
  }

  ghost predicate AllSpare(others: seq<seq<Call>>, i: nat) { forall k :: 0 <= k < |others| ==> Spares(others[k], |others[k]|, i) }

  /** filewrite by a holder of a reference, with the calls of others[k] coming between its chunks k and
      k + 1, where it holds no inode lock. Every transaction dirties at most MAXOPBLOCKS blocks. When
      chunk k has been written, the file holds it whole at its place; and if no other call writes to the
      file, relinks or puts it, the file on return is the old one with the part of the buffer written.
      It stops short only when the next chunk is refused or the reference is gone. */
  method SharedFilewrite(f: FileSystem, i: nat, addr: seq<Byte>, off0: Uint, others: seq<seq<Call>>)
    returns (r: int, done: nat, panicked: bool, ghost ops: seq<set<nat>>, ghost after: seq<Fs>)
    requires f.Valid() && i < |f.inodes| && f.inodes[i].kind != 0 && |addr| < UINT && forall k :: 0 <= k < |others| ==> CallsOk(others[k])
    modifies f
    ensures forall k :: 0 <= k < |ops| ==> |ops[k]| <= LogSpec.MAXOPBLOCKS
    ensures forall k :: 0 <= k < |after| ==> k * MAXWRITE <= |addr| && ChunkIn(f.g, after[k], i, off0 + k * MAXWRITE, ChunkAt(addr, k))
    ensures !panicked ==> f.Valid() && done <= |addr| && r == (if done == |addr| then |addr| else -1)
    ensures !panicked ==> |f.inodes| == old(|f.inodes|)
    ensures !panicked && done < |addr| ==>
      f.refs[i] == 0 || WriteRefused(f.inodes[i].size, (off0 + done) % UINT, if |addr| - done > MAXWRITE then MAXWRITE else |addr| - done)
    ensures panicked ==> Stuck(f)
    ensures !panicked && AllSpare(others, i) ==> OnlyMine(f.g, old(f.St()), f.St(), i, off0, addr, done)
  {
    hide OwnedSlots, Ref, AllSized, Content, Written, Spares, KeptFile, ChunkIn, ChunkAt, OnlyMine, Overwritten, Ran, Panics, Stuck, WriteRefused, Shape, FreesVacant;
    done, panicked, ops, after := 0, false, [], [];
    var n, k := |addr|, 0;
    NoneMine(f.g, f.St(), i, off0, addr);
    while done < n
      invariant f.Valid() && i < |f.inodes| == old(|f.inodes|) && 0 <= done <= n && off0 + done < UINT
      invariant k == |after| && (done < n ==> done == k * MAXWRITE)
      invariant forall j :: 0 <= j < |ops| ==> |ops[j]| <= LogSpec.MAXOPBLOCKS
      invariant forall j :: 0 <= j < |after| ==> j * MAXWRITE <= |addr| && ChunkIn(f.g, after[j], i, off0 + j * MAXWRITE, ChunkAt(addr, j))
      invariant AllSpare(others, i) ==> OnlyMine(f.g, old(f.St()), f.St(), i, off0, addr, done)
      decreases n - done
    {
      var n1 := if n - done > MAXWRITE then MAXWRITE else n - done;
      ghost var fs1 := f.St();
      var w := WriteChunk(f, i, addr[done..done + n1], off0 + done);
      if w.None? {
        return -1, done, true, ops, after;
      }
      if w.value < 0 {
        break;
      }
      ghost var fs2 := f.St();
      ops, after := ops + [f.dirty], after + [fs2];
      ChunkIs(addr, k, done, n1);
      ChunkWritten(f.g, fs1, fs2, i, off0 + done, addr[done..done + n1]);
      if OnlyMine(f.g, old(f.St()), fs1, i, off0, addr, done) {
        MineToo(f.g, old(f.St()), fs1, fs2, i, off0, addr, done, n1);
      }
      done := done + n1;
      if k < |others| {
        ghost var trace;
        var d;
        d, trace := Calls(f, others[k]);
        if d < |others[k]| {
          return -1, done, true, ops, after;
        }
        if AllSpare(others, i) {
          StillMine(f.g, old(f.St()), fs2, f.St(), i, off0, addr, done);
        }
      }
      k := k + 1;
    }
    r := if done == n then n else -1;
  }

  ghost predicate SpaceLacks(f: FileSystem, i: nat, src: seq<Byte>, off: Uint)
    requires f.Consistent() && i < |f.inodes|
    reads f
  {
    !WriteRefused(f.inodes[i].size, off, |src|) && Growth(f.inodes[i].size, off + |src|) > FreeBlocks(f.g, f.disk)
  }

  /** One transaction of filewrite: lock, write, unlock; None is a panic. Nothing is written when the
      caller's reference is gone. */
  method WriteChunk(f: FileSystem, i: nat, src: seq<Byte>, off: Uint) returns (w: Option<int>)
    requires f.Valid() && i < |f.inodes| && 0 < |src| <= MAXWRITE
    modifies f
    ensures w.Some? ==> f.Valid() && |f.inodes| == old(|f.inodes|)
    ensures w.Some? && w.value < 0 ==> f.St() == old(f.St()) && (f.refs[i] == 0 || WriteRefused(f.inodes[i].size, off, |src|))
    ensures w.Some? && w.value >= 0 ==> off <= old(f.inodes)[i].size && Written(f.g, old(f.St()), f.St(), i, off, src)
    ensures w.Some? && w.value >= 0 ==> |f.dirty| <= LogSpec.MAXOPBLOCKS && off + |src| < UINT && f.inodes[i].kind != 0
    ensures w.None? <==> old(f.refs[i]) >= 1 && (old(f.inodes[i]).kind == 0 || old(SpaceLacks(f, i, src, off)))
    ensures w.None? ==> Stuck(f)
  {
    hide OwnedSlots, Ref, AllSized, Content, Written, FreeBlocks, Growth, InUse, Used;
    if f.refs[i] == 0 {
      return Some(-1);
    }
    var locked := f.Ilock(i);
    if !locked {
      return None;
    }
    f.dirty := {};
    ghost var fs0 := f.St();
    w := f.Writei(i, src, off);
    if w.Some? && w.value >= 0 {
      WrittenKinds(f.g, fs0, f.St(), i, off, src);
    }
  }

  lemma NoneMine(g: Geo, fs: Fs, i: nat, off: nat, addr: seq<Byte>)
    requires Shape(g, fs) && i < |fs.inodes|
    ensures OnlyMine(g, fs, fs, i, off, addr, 0)
  {}

  lemma ChunkWritten(g: Geo, fs1: Fs, fs2: Fs, i: nat, off: nat, c: seq<Byte>)
    requires Shape(g, fs1) && Shape(g, fs2) && |fs2.inodes| == |fs1.inodes| && i < |fs1.inodes| && off <= fs1.inodes[i].size
    requires Written(g, fs1, fs2, i, off, c)
    ensures ChunkIn(g, fs2, i, off, c)
  {
    hide Content, Overwritten;
    WrittenThere(Content(g, fs1, i), off, c);
  }

  lemma ChunkIs(addr: seq<Byte>, k: nat, done: nat, n: nat)
    requires done == k * MAXWRITE && done + n <= |addr| && n == if |addr| - done > MAXWRITE then MAXWRITE else |addr| - done
    ensures ChunkAt(addr, k) == addr[done..done + n]
  {}

  lemma WrittenThere(c: seq<Byte>, off: nat, src: seq<Byte>)
    requires off <= |c|
    ensures off + |src| <= |Overwritten(c, off, src)| && Overwritten(c, off, src)[off..off + |src|] == src
  {}

  lemma MineToo(g: Geo, fs0: Fs, fs1: Fs, fs2: Fs, i: nat, off: nat, addr: seq<Byte>, done: nat, n1: nat)
    requires OnlyMine(g, fs0, fs1, i, off, addr, done) && 0 < n1 && done + n1 <= |addr|
    requires Shape(g, fs2) && |fs2.inodes| == |fs1.inodes| && off + done <= fs1.inodes[i].size
    requires Written(g, fs1, fs2, i, off + done, addr[done..done + n1])
    ensures OnlyMine(g, fs0, fs2, i, off, addr, done + n1)
  {
    hide Content;
    var c := Content(g, fs0, i);
    if done == 0 {
      assert addr[..done + n1] == addr[done..done + n1];
    } else {
      assert Overwritten(Overwritten(c, off, addr[..done]), off + done, addr[done..done + n1]) == Overwritten(c, off, addr[..done + n1]);
    }
  }

  lemma StillMine(g: Geo, fs0: Fs, fs1: Fs, fs2: Fs, i: nat, off: nat, addr: seq<Byte>, done: nat)
    requires OnlyMine(g, fs0, fs1, i, off, addr, done) && Shape(g, fs2) && |fs2.inodes| == |fs1.inodes| && KeptFile(g, fs1, fs2, i)
    ensures OnlyMine(g, fs0, fs2, i, off, addr, done)
  {
    hide Content;
  }

  /** From mkfs on: an image, made if and only if the files fit, and without a hole is a valid file
      system. Any calls on it run as Calls says, and a file that no call writes to, relinks or puts still
      holds the bytes mkfs copied in. */
  method FromImage(files: seq<Mkfs.File>, calls: seq<Call>) returns (f: FileSystem?, done: nat, ghost trace: seq<Snap>)
    requires CallsOk(calls)
    ensures f != null <==> Mkfs.FilesFit(files) && (|files| + 2) % 32 != 0
    ensures f != null ==> done <= |calls| && f.Consistent() && (done == |calls| ==> f.Valid())
    ensures f != null ==> f.g == Mkfs.Layout() && Ran(f.g, trace, calls) && |trace| == done + 1
    ensures f != null ==> forall k :: 0 <= k < |files| ==> Mkfs.FileAt(trace[0].fs, k + 2, files[k].data)
    ensures f != null && done < |calls| ==> Panics(f.g, trace[done], calls[done])
    ensures f != null && done == |calls| ==> forall i: nat :: 2 <= i < |files| + 2 && Spares(calls, done, i) ==>
      i < |f.inodes| && f.inodes[i].kind == Mkfs.T_FILE && Content(f.g, f.St(), i) == files[i - 2].data
  {
    hide OwnedSlots, AllSized, Content, Spares, Ref, Panics, Does, Stuck;
    f, done, trace := null, 0, [];
    var img, ok := Mkfs.Make(files);
    if ok && (|files| + 2) % 32 != 0 {
      f := new FileSystem(Mkfs.Layout(), img.disk, img.inodes, img.owner);
      ghost var fs0 := f.St();
      done, trace := Calls(f, calls);
      if done == |calls| {
        forall i: nat | 2 <= i < |files| + 2 && Spares(calls, done, i)
          ensures i < |f.inodes| && f.inodes[i].kind == Mkfs.T_FILE && Content(f.g, f.St(), i) == files[i - 2].data
        {
          assert Mkfs.FileAt(fs0, (i - 2) + 2, files[i - 2].data);
          assert KeptFile(f.g, fs0, f.St(), i);
        }
      }
    }
  }
}
