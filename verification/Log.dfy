/** The in-memory log of log.c and the loops that write it out. */
module LogCode {
  import opened LogSpec
  import P = LogProtocol

  /** `struct log` with the block device it writes to.  `cache` holds the contents of
      the buffers that log_write has pinned; any other block is read from the disk.
      `trace` records the disk after each single-block write: a crash can leave any
      of those disks behind. */
  class Log {
    const g: Layout
    const block: array<int>
    var n: nat
    var outstanding: int
    var committing: bool
    var cache: Cache
    var disk: Disk
    ghost var trace: seq<Disk>

    ghost predicate Valid()
      reads this, block
    {
      && block.Length == LOGSIZE
      && n <= LOGSIZE
      && 0 < g.size && g.start + g.size <= |disk|
      && ValidList(g, |disk|, block[..n])
      && (forall b | b in cache :: IsHome(g, |disk|, b))
    }

    /** The memory and the disk are those of a state of the protocol. */
    ghost predicate Models(s: P.State)
      reads this, block
    {
      && n <= block.Length
      && s.g == g && s.disk == disk && s.lh == Lh() && s.cache == cache && s.outstanding == outstanding
      && !s.phase.Recovering? && (s.phase.Committing? <==> committing)
    }

    ghost function Lh(): (s: seq<int>)
      requires n <= block.Length
      reads this, block
    {
      block[..n]
    }

    method Bwrite(b: int, data: Block)
      requires 0 <= b < |disk|
      modifies `disk, `cache, `trace
      ensures disk == old(disk)[b := data]
      ensures cache == old(cache) - {b}
      ensures trace == old(trace) + [disk]
    {
      disk := disk[b := data];
      cache := cache - {b};
      trace := trace + [disk];
    }

    method ReadHead()
      requires Valid() && ValidDisk(g, disk)
      modifies `n, block
      ensures Valid() && Lh() == HeadList(disk[g.start])
      ensures n == disk[g.start][0] && forall i | 0 <= i < n :: block[i] == disk[g.start][1 + i]
    {
      var head := disk[g.start];
      n := head[0];
      for i := 0 to n
        invariant 0 <= n == head[0] <= LOGSIZE
        invariant block[..i] == head[1..i + 1]
      {
        block[i] := head[i + 1];
      }
    }

    method WriteHead()
      requires Valid()
      modifies `disk, `cache, `trace
      ensures Valid()
      ensures disk == HeadDisk(g, old(disk), Lh())
      ensures disk[g.start][0] == n && forall i | 1 <= i < 128 ::
        disk[g.start][i] == if i <= n then block[i - 1] else old(disk)[g.start][i]
      ensures cache == old(cache)
      ensures trace == old(trace) + [disk]
    {
      var head := disk[g.start];
      head := head[0 := n];
      for i := 0 to n
        invariant head[..i + 1] == [n] + block[..i]
        invariant head[i + 1..] == disk[g.start][i + 1..]
      {
        head := head[i + 1 := block[i]];
      }
      assert head == PutHead(disk[g.start], block[..n]);
      Bwrite(g.start, head);
    }

    method InstallTrans()
      requires Valid()
      modifies `disk, `cache, `trace
      ensures Valid()
      ensures disk == InstallDisk(g, old(disk), Lh(), n)
      ensures trace == old(trace) + InstallTrace(g, old(disk), Lh(), n)
      ensures cache.Keys == old(cache.Keys) - set b | b in Lh()
      ensures forall b | b in cache :: cache[b] == old(cache)[b]
    {
      for tail := 0 to n
        invariant Valid()
        invariant disk == InstallDisk(g, old(disk), Lh(), tail)
        invariant trace == old(trace) + InstallTrace(g, old(disk), Lh(), tail)
        invariant cache.Keys == old(cache.Keys) - set b | b in Lh()[..tail]
        invariant forall b | b in cache :: cache[b] == old(cache)[b]
      {
        var lbuf := disk[g.start + tail + 1];
        Bwrite(block[tail], lbuf);
        assert Lh()[..tail + 1] == Lh()[..tail] + [block[tail]];
      }
    }

    method WriteLog()
      requires Valid() && Lh() != [] && CanCommit(g, |disk|, Lh(), cache)
      modifies `disk, `cache, `trace
      ensures Valid() && cache == old(cache)
      ensures disk == LogDisk(g, old(disk), Lh(), cache, n)
      ensures trace == old(trace) + LogTrace(g, old(disk), Lh(), cache, n)
    {
      for tail := 0 to n
        invariant Valid() && cache == old(cache)
        invariant disk == LogDisk(g, old(disk), Lh(), cache, tail)
        invariant trace == old(trace) + LogTrace(g, old(disk), Lh(), cache, tail)
      {
        var from := cache[block[tail]];
        Bwrite(g.start + tail + 1, from);
      }
    }

    /** Commit passes through exactly the disks of CommitDisk, ends on the last of them
        with an empty log, and unpins the logged buffers. */
    method Commit()
      requires Valid() && CanCommit(g, |disk|, Lh(), cache)
      modifies `n, `disk, `cache, `trace
      ensures Valid() && n == 0
      ensures disk == CommitDisk(g, old(disk), old(Lh()), old(cache), CommitLength(old(Lh())))
      ensures trace == old(trace) + CommitTrace(g, old(disk), old(Lh()), old(cache))
      ensures cache.Keys == old(cache.Keys) - set b | b in old(Lh())
    {
      if n > 0 {
        ghost var lh := Lh();
        WriteLog();
        WriteHead();
        ghost var h := disk;
        InstallTrans();
        n := 0;
        WriteHead();
        TraceAppend(old(trace), LogTrace(g, old(disk), lh, old(cache), |lh|), h,
                    InstallTrace(g, h, lh, |lh|), disk);
      }
    }

    /** Recovery passes through exactly the disks of RecoverDisk. */
    method RecoverFromLog()
      requires Valid() && ValidDisk(g, disk)
      modifies `n, block, `disk, `cache, `trace
      ensures Valid() && n == 0
      ensures disk == RecoverDisk(g, old(disk), RecoverLength(g, old(disk)))
      ensures trace == old(trace) + RecoverTrace(g, old(disk))
    {
      ReadHead();
      InstallTrans();
      n := 0;
      WriteHead();
    }

    /** One pass of begin_op's loop: it admits the operation exactly if the protocol lets one
        begin, and then takes the protocol's step.  The log has room for the operation and for
        all the others, at MAXOPBLOCKS each. */
    method BeginOp(ghost s: P.State) returns (admitted: bool)
      requires Models(s)
      modifies `outstanding
      ensures admitted <==> !committing && old(n + (outstanding + 1) * 10) <= 30
      ensures admitted <==> P.Enabled(s, P.Action.BeginOp)
      ensures Models(if admitted then P.Apply(s, P.Action.BeginOp) else s)
      ensures admitted ==> n + outstanding * MAXOPBLOCKS <= LOGSIZE
    {
      if committing {
        admitted := false;
      } else if n + (outstanding + 1) * MAXOPBLOCKS > LOGSIZE {
        admitted := false;
      } else {
        outstanding := outstanding + 1;
        admitted := true;
      }
    }

    /** The test at the top of log_write of block `b` by operation `op`, made without the lock:
        the protocol's step.  `ok` is false where it panics. */
    method LogCheck(b: nat, ghost op: nat, ghost s: P.State) returns (ok: bool)
      requires IsHome(g, |disk|, b) && Models(s) && op in s.active && op !in s.checked
      ensures ok <==> P.Enabled(s, P.LogCheck(op, b))
      ensures Models(if ok then P.Apply(s, P.LogCheck(op, b)) else s)
      ensures ok <==> n < 30 && n < g.size - 1 && 1 <= outstanding
    {
      if n >= LOGSIZE || n >= g.size - 1 {
        return false;
      }
      if outstanding < 1 {
        return false;
      }
      return true;
    }

    /** The locked part, some time after the test: the protocol's step.  `data` is what the
        buffer holds.  `ok` is false where the code stores past the end of the table.  The
        table then still fits the log area exactly if it has fewer than `size` entries. */
    method LogRecord(b: nat, data: Block, ghost op: nat, ghost s: P.State) returns (ok: bool)
      requires Valid() && IsHome(g, |disk|, b) && Models(s) && P.Enabled(s, P.LogRecord(op, b, data))
      modifies `n, `cache, block
      ensures ok <==> b in old(Lh()) || old(n) < 30
      ensures ok ==> Models(P.Apply(s, P.LogRecord(op, b, data)))
      ensures ok ==> Lh() == if b in old(Lh()) then old(Lh()) else old(Lh()) + [b]
      ensures ok ==> cache == old(cache)[b := data]
      ensures ok ==> (Valid() <==> n < g.size)
      ensures P.Fits(s, P.LogRecord(op, b, data)) ==> ok && Valid()
      ensures !ok ==> Valid() && Lh() == old(Lh()) && cache == old(cache)
    {
      var i := 0;
      while i < n && block[i] != b
        invariant i <= n && b !in block[..i]
      {
        i := i + 1;
      }
      if i == LOGSIZE {
        return false;
      }
      ghost var before := block[..n];
      block[i] := b;
      if i == n {
        n := n + 1;
        assert block[..n] == before + [b];
      } else {
        assert block[..n] == before;
      }
      cache := cache[b := data];
      return true;
    }

    /** log_write with no interference between its two parts. */
    method LogWrite(b: nat, data: Block, ghost op: nat, ghost s: P.State) returns (ok: bool)
      requires Valid() && IsHome(g, |disk|, b) && Models(s) && op in s.active && op !in s.checked
      modifies `n, `cache, block
      ensures Valid()
      ensures ok <==> P.Enabled(s, P.LogCheck(op, b))
      ensures Models(if ok then P.Apply(P.Apply(s, P.LogCheck(op, b)), P.LogRecord(op, b, data)) else s)
      ensures ok <==> old(n) < 30 && old(n) < g.size - 1 && 1 <= outstanding
      ensures ok ==> Lh() == if b in old(Lh()) then old(Lh()) else old(Lh()) + [b]
      ensures ok ==> cache == old(cache)[b := data]
      ensures !ok ==> Lh() == old(Lh()) && cache == old(cache)
    {
      ok := LogCheck(b, op, s);
      if ok {
        ok := LogRecord(b, data, op, P.Apply(s, P.LogCheck(op, b)));
      }
    }

    /** end_op by one process with no interference: the last operation out commits and
        leaves an empty log; an earlier one only leaves.  `ok` is false where it panics.  In a
        state the protocol reaches it does not panic, and it is a run of the protocol. */
    method EndOp(ghost op: nat, ghost s: P.State) returns (ok: bool)
      requires Valid() && CanCommit(g, |disk|, Lh(), cache) && Models(s) && op in s.active && op !in s.checked
      modifies `n, `outstanding, `committing, `disk, `cache, `trace
      ensures ok == !old(committing)
      ensures outstanding == old(outstanding) - 1
      ensures ok ==> Valid() && !committing
      ensures ok && outstanding == 0 ==>
        && n == 0
        && disk == CommitDisk(g, old(disk), old(Lh()), old(cache), CommitLength(old(Lh())))
        && trace == old(trace) + CommitTrace(g, old(disk), old(Lh()), old(cache))
      ensures !ok || outstanding != 0 ==>
        n == old(n) && disk == old(disk) && cache == old(cache) && trace == old(trace)
      ensures P.Inv(s) ==> ok
      ensures P.Inv(s) && outstanding != 0 ==>
        P.Enabled(s, P.Action.EndOp(op)) && Models(P.Apply(s, P.Action.EndOp(op)))
      ensures P.Inv(s) && outstanding == 0 ==>
        P.CanRun(s, P.EndRun(op, old(Lh()))) && Models(P.Run(s, P.EndRun(op, old(Lh()))))
    {
      hide P.Inv, P.Run, P.CanRun, P.EndRun, CommitDisk, CommitTrace, CanCommit;
      if P.Inv(s) {
        P.ActiveMeansRunning(s, op);
        P.CacheIsTable(s);
        if outstanding == 1 {
          P.EndOpRun(s, op);
        }
      }
      outstanding := outstanding - 1;
      if committing {
        return false;
      }
      var doCommit := false;
      if outstanding == 0 {
        doCommit := true;
        committing := true;
      }
      if doCommit {
        Commit();
        assert P.Inv(s) ==> cache == map[];
        committing := false;
      }
      return true;
    }
  }
}
