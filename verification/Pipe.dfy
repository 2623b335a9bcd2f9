/** pipe.c in place. Each method is one turn under p->lock; sleep and wakeup are outside. */
module Pipe {
  import opened Common
  import opened PipeSpec

  /** How a turn of pipewrite ends. */
  datatype Wrote = Returned(n: int) | Slept

  /** How a turn of piperead ends; Gone is the -1 of a killed reader. */
  datatype Read = Took(bytes: seq<Byte>) | Gone | Asleep

  class Pipe {
    const data: array<Byte>
    var nread: nat
    var nwrite: nat
    var readopen: bool
    var writeopen: bool

    ghost predicate Ok()
      reads this, data
    {
      PipeSpec.Valid(View())
    }

    ghost function View(): (r: Ring)
      reads this, data
    {
      Ring(data[..], nread, nwrite)
    }

    constructor ()
      ensures Ok() && Contents(View()) == [] && readopen && writeopen && fresh(data)
    {
      data := new Byte[PIPESIZE](i => 0);
      nread, nwrite, readopen, writeopen := 0, 0, true, true;
    }

    /** pipewrite from byte i until it returns or goes to sleep. */
    method WriteTurn(addr: seq<Byte>, start: nat, killed: bool) returns (i: nat, r: Wrote)
      requires Ok() && start <= |addr|
      modifies this`nwrite, data
      ensures Ok() && View() == PutAll(old(View()), addr[start..]).0 && i == start + PutAll(old(View()), addr[start..]).1
      ensures r == (if i == |addr| then Returned(|addr|) else if !readopen || killed then Returned(-1) else Slept)
    {
      hide Pending, Contents, Slot;
      i := start;
      while i < |addr|
        invariant start <= i <= |addr| && Ok()
        invariant PutAll(old(View()), addr[start..]).0 == PutAll(View(), addr[i..]).0
        invariant PutAll(old(View()), addr[start..]).1 == i - start + PutAll(View(), addr[i..]).1
      {
        if nwrite == (nread + PIPESIZE) % UINT {
          if !readopen || killed {
            return i, Returned(-1);
          }
          return i, Slept;
        }
        PutContents(View(), addr[i]);
        ghost var before := View();
        assert addr[i..][0] == addr[i] && addr[i..][1..] == addr[i + 1..];
        data[nwrite % PIPESIZE] := addr[i];
        nwrite := (nwrite + 1) % UINT;
        assert View() == Put(before, addr[i]);
        i := i + 1;
      }
      return i, Returned(|addr|);
    }

    /** piperead until it returns or goes to sleep. It copies at once when there is something to read, or
        nobody to write it. */
    method ReadTurn(n: nat, killed: bool) returns (r: Read)
      requires Ok()
      modifies this`nread
      ensures Ok() && (r.Took? <==> Contents(old(View())) != [] || !writeopen) && (r.Gone? ==> killed)
      ensures !r.Took? ==> View() == old(View()) && (r.Gone? <==> killed)
      ensures r.Took? ==> View() == GetAll(old(View()), n).0 && r.bytes == GetAll(old(View()), n).1
    {
      hide Pending, Slot;
      TestsExact(View());
      if nread == nwrite && writeopen {
        return if killed then Gone else Asleep;
      }
      var bytes := [];
      var i := 0;
      while i < n
        invariant 0 <= i <= n && Ok()
        invariant GetAll(old(View()), n).0 == GetAll(View(), n - i).0
        invariant GetAll(old(View()), n).1 == bytes + GetAll(View(), n - i).1
      {
        if nread == nwrite {
          break;
        }
        GetContents(View());
        ghost var before := View();
        bytes := bytes + [data[nread % PIPESIZE]];
        nread := (nread + 1) % UINT;
        assert View() == Got(before);
        i := i + 1;
      }
      return Took(bytes);
    }

    /** pipeclose; true when both ends are closed and the page can go. */
    method Close(writable: bool) returns (gone: bool)
      requires Ok()
      modifies this`readopen, this`writeopen
      ensures Ok() && View() == old(View()) && gone == (!readopen && !writeopen)
      ensures writeopen == (old(writeopen) && !writable) && readopen == (old(readopen) && writable)
    {
      if writable {
        writeopen := false;
      } else {
        readopen := false;
      }
      return !readopen && !writeopen;
    }
  }
}
