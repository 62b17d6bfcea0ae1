/** pipewrite, piperead and pipeclose.  A call that sleeps is cut into segments: each runs
    with the pipe's lock held until the call returns or goes to sleep. */
module PipeCode {
  import opened PipeSpec

  datatype Outcome = Done | Blocked | Failed

  /** Bytes that a writer with `left` bytes to go stores before it stops. */
  function WriteCount(r: Ring, left: nat): (n: nat)
    requires r.nread < WORD && r.nwrite < WORD && Count(r) <= PIPESIZE
    ensures n <= left && Count(r) + n <= PIPESIZE
  {
    if left <= PIPESIZE - Count(r) then left else PIPESIZE - Count(r)
  }

  /** How its segment ends: with everything stored, or at a full ring, where it gives up if
      nobody can read or it has been killed. */
  function WriteOutcome(r: Ring, left: nat, readopen: bool, killed: bool): (o: Outcome)
    requires r.nread < WORD && r.nwrite < WORD && Count(r) <= PIPESIZE
  {
    if left <= PIPESIZE - Count(r) then Done else if !readopen || killed then Failed else Blocked
  }

  function ReadCount(r: Ring, n: nat): (m: nat)
    requires r.nread < WORD && r.nwrite < WORD
    ensures m <= n && m <= Count(r)
  {
    if n <= Count(r) then n else Count(r)
  }

  function ReadOutcome(r: Ring, writeopen: bool, killed: bool): (o: Outcome) {
    if Empty(r) && writeopen then (if killed then Failed else Blocked) else Done
  }

  class Pipe {
    const data: array<Byte>
    var nread: nat
    var nwrite: nat
    var readopen: bool
    var writeopen: bool

    ghost function View(): (r: Ring)
      reads this, data
    {
      Ring(data[..], nread, nwrite)
    }

    ghost predicate Valid()
      reads this, data
    {
      data.Length == PIPESIZE && RingOk(View())
    }

    constructor ()
      ensures Valid() && Contents(View()) == [] && readopen && writeopen
    {
      data := new Byte[PIPESIZE](_ => 0);
      nread, nwrite, readopen, writeopen := 0, 0, true, true;
    }

    method Store(b: Byte)
      requires data.Length == PIPESIZE
      modifies `nwrite, data
      ensures View() == PutByte(old(View()), b)
    {
      data[nwrite % PIPESIZE] := b;
      nwrite := (nwrite + 1) % WORD;
    }

    method Fetch() returns (b: Byte)
      requires data.Length == PIPESIZE
      modifies `nread
      ensures b == old(View()).data[Slot(old(nread))] && View() == GetByte(old(View()))
    {
      b := data[nread % PIPESIZE];
      nread := (nread + 1) % WORD;
    }

    /** pipewrite() from byte `i` of `addr` on. */
    method Write(addr: seq<Byte>, i: nat, killed: bool) returns (j: nat, o: Outcome)
      requires Valid() && i <= |addr|
      modifies this, data
      ensures Valid() && readopen == old(readopen) && writeopen == old(writeopen)
      ensures j == i + WriteCount(old(View()), |addr| - i)
      ensures o == WriteOutcome(old(View()), |addr| - i, readopen, killed)
      ensures View() == PutAll(old(View()), addr[i..j])
      ensures i <= j <= |addr| && Contents(View()) == Contents(old(View())) + addr[i..j]
      ensures o == Done <==> j == |addr|
      ensures o != Done ==> |Contents(View())| == 512
      ensures o == Failed <==> j < |addr| && (!readopen || killed)
    {
      hide Contents, PutByte, GetByte, Slot;
      ghost var r := View();
      j := i;
      while j < |addr|
        invariant i <= j <= |addr| && readopen == old(readopen) && writeopen == old(writeopen)
        invariant Count(r) + (j - i) <= PIPESIZE
        invariant Valid() && Count(View()) == Count(r) + (j - i)
        invariant View() == PutAll(r, addr[i..j]) && Contents(View()) == Contents(r) + addr[i..j]
      {
        FullMeans(View());
        if nwrite == (nread + PIPESIZE) % WORD {
          if !readopen || killed {
            return j, Failed;
          }
          return j, Blocked;
        }
        PutAppends(View(), addr[j]);
        Store(addr[j]);
        assert addr[i..j + 1][..j - i] == addr[i..j];
        assert addr[i..j + 1] == addr[i..j] + [addr[j]];
        j := j + 1;
      }
      o := Done;
    }

    /** piperead() of up to `n` bytes. */
    method Read(n: nat, killed: bool) returns (got: seq<Byte>, o: Outcome)
      requires Valid()
      modifies this
      ensures Valid() && readopen == old(readopen) && writeopen == old(writeopen)
      ensures o == ReadOutcome(old(View()), writeopen, killed)
      ensures o != Done ==> got == [] && View() == old(View())
      ensures o == Done ==> var m := ReadCount(old(View()), n);
        got == Contents(old(View()))[..m] && View() == GetMany(old(View()), m)
      ensures o == Done ==>
        && |got| == (if n <= |Contents(old(View()))| then n else |Contents(old(View()))|)
        && Contents(old(View())) == got + Contents(View())
      ensures o == Done <==> Contents(old(View())) != [] || !writeopen
      ensures o == Failed <==> Contents(old(View())) == [] && writeopen && killed
    {
      hide Contents, PutByte, GetByte, Slot;
      ghost var r := View();
      got := [];
      if nread == nwrite && writeopen {
        o := if killed then Failed else Blocked;
        return;
      }
      var i := 0;
      while i < n
        invariant i <= n && i <= Count(r) && readopen == old(readopen) && writeopen == old(writeopen)
        invariant Valid() && View() == GetMany(r, i) && Contents(View()) == Contents(r)[i..]
        invariant got == Contents(r)[..i]
      {
        FullMeans(View());
        if nread == nwrite {
          break;
        }
        GetRemoves(View());
        var b := Fetch();
        got := got + [b];
        i := i + 1;
      }
      o := Done;
    }

    method Close(writable: bool)
      modifies this
      ensures View() == old(View())
      ensures writeopen == (old(writeopen) && !writable) && readopen == (old(readopen) && writable)
    {
      if writable {
        writeopen := false;
      } else {
        readopen := false;
      }
    }
  }
}
