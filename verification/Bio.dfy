/** The buffer cache of bio.c: bread, bwrite and brelse over the LRU ring. */
module Bio {
  import opened Optional
  import opened BioSpec
  import opened LogSpec

  const NBUF := MAXOPBLOCKS * 3
  const ROOTDEV := 1

  /** `struct buf` without its ring pointers. */
  datatype Buf = Buf(dev: nat, blockno: nat, refcnt: nat, valid: bool, dirty: bool, locked: bool, data: Block)

  predicate Holds(b: Buf, blockno: nat) {
    b.dev == ROOTDEV && b.blockno == blockno
  }

  /** May be recycled: no one uses it and it holds no uncommitted data. */
  predicate Eligible(b: Buf) {
    b.refcnt == 0 && !b.dirty
  }

  /** One buffer against the disk and the latest contents of every block.  A valid buffer has
      the latest contents; a buffer that is neither locked nor pinned by B_DIRTY agrees with
      the disk. */
  ghost predicate BufOk(b: Buf, disk: Disk, latest: Disk) {
    && (b.dev != ROOTDEV ==> b.refcnt == 0 && !b.dirty && !b.locked)
    && (b.locked ==> 0 < b.refcnt)
    && (b.dev == ROOTDEV ==>
          && b.blockno < |disk| && b.blockno < |latest|
          && (b.valid ==> b.data == latest[b.blockno])
          && (!b.valid ==> !b.dirty && disk[b.blockno] == latest[b.blockno])
          && (!b.locked && !b.dirty ==> disk[b.blockno] == latest[b.blockno]))
  }

  ghost predicate Cached(bufs: seq<Buf>, blockno: nat) {
    exists i :: 0 <= i < |bufs| && Holds(bufs[i], blockno)
  }

  /** Some process has the block's buffer locked. */
  ghost predicate Busy(bufs: seq<Buf>, blockno: nat) {
    exists i :: 0 <= i < |bufs| && Holds(bufs[i], blockno) && bufs[i].locked
  }

  /** The block is in no buffer, and every buffer is referenced or dirty. */
  ghost predicate NoRoom(bufs: seq<Buf>, blockno: nat) {
    forall i | 0 <= i < |bufs| ::
      && !(bufs[i].dev == ROOTDEV && bufs[i].blockno == blockno)
      && (0 < bufs[i].refcnt || bufs[i].dirty)
  }

  /** How bread() ends or stops: a panic, asleep on the lock of a buffer, or with a buffer. */
  datatype ReadResult = NoBuffer | Waits(i: nat) | Got(i: nat)

  /** Every buffer is sound, no block is in two buffers, and a block in no buffer is up to date
      on disk. */
  ghost predicate CacheOk(bufs: seq<Buf>, disk: Disk, latest: Disk) {
    && |disk| == |latest|
    && (forall i | 0 <= i < |bufs| :: BufOk(bufs[i], disk, latest))
    && (forall i, j | 0 <= i < j < |bufs| && bufs[i].dev == ROOTDEV :: !Holds(bufs[j], bufs[i].blockno))
    && (forall b: nat | b < |disk| && !Cached(bufs, b) :: disk[b] == latest[b])
  }

  /** The ring lists the buffers by the time of their last release, latest first. */
  ghost predicate StampOk(nodes: seq<nat>, stamps: seq<nat>, clock: nat) {
    && (forall i | 1 <= i < |nodes| :: nodes[i] < |stamps| && stamps[nodes[i]] < clock)
    && (forall i, j | 1 <= i < j < |nodes| :: stamps[nodes[j]] < stamps[nodes[i]])
  }

  ghost predicate OrderOk(nodes: seq<nat>, nbuf: nat) {
    && |nodes| == nbuf + 1 && nodes[0] == nbuf
    && (forall i | 1 <= i < |nodes| :: nodes[i] < nbuf)
    && (forall b: nat | b < nbuf :: b in nodes)
  }

  lemma OneHolder(bufs: seq<Buf>, disk: Disk, latest: Disk, i: nat, blockno: nat)
    requires CacheOk(bufs, disk, latest) && i < |bufs| && Holds(bufs[i], blockno)
    ensures Busy(bufs, blockno) <==> bufs[i].locked
  {
    if Busy(bufs, blockno) {
      var j :| 0 <= j < |bufs| && Holds(bufs[j], blockno) && bufs[j].locked;
      assert j == i;
    }
  }

  // ----- How the cache invariant moves

  lemma SameBlocks(bufs: seq<Buf>, r: seq<Buf>)
    requires |r| == |bufs|
    requires forall i | 0 <= i < |bufs| :: r[i].dev == bufs[i].dev && r[i].blockno == bufs[i].blockno
    ensures forall n: nat :: Cached(r, n) <==> Cached(bufs, n)
  {
    forall n: nat
      ensures Cached(r, n) <==> Cached(bufs, n)
    {
      if Cached(bufs, n) {
        var j :| 0 <= j < |bufs| && Holds(bufs[j], n);
        assert Holds(r[j], n);
      }
      if Cached(r, n) {
        var j :| 0 <= j < |bufs| && Holds(r[j], n);
        assert Holds(bufs[j], n);
      }
    }
  }

  /** A buffer is replaced, and nothing on disk or in the latest contents changes. */
  lemma ReplaceKeeps(bufs: seq<Buf>, disk: Disk, latest: Disk, i: nat, b: Buf)
    requires CacheOk(bufs, disk, latest) && i < |bufs| && BufOk(b, disk, latest)
    requires b.dev == bufs[i].dev && b.blockno == bufs[i].blockno
    ensures CacheOk(bufs[i := b], disk, latest)
  {
    SameBlocks(bufs, bufs[i := b]);
  }

  /** An eligible buffer is recycled for a block that was not cached. */
  lemma RecycleKeeps(bufs: seq<Buf>, disk: Disk, latest: Disk, i: nat, blockno: nat)
    requires CacheOk(bufs, disk, latest) && i < |bufs| && Eligible(bufs[i])
    requires blockno < |disk| && !Cached(bufs, blockno)
    ensures CacheOk(bufs[i := Buf(ROOTDEV, blockno, 1, false, false, false, bufs[i].data)], disk, latest)
  {
    var b := Buf(ROOTDEV, blockno, 1, false, false, false, bufs[i].data);
    var r := bufs[i := b];
    forall n: nat | n < |disk| && !Cached(r, n)
      ensures disk[n] == latest[n]
    {
      assert !Holds(r[i], n);
      if Cached(bufs, n) {
        var j :| 0 <= j < |bufs| && Holds(bufs[j], n);
        assert !Holds(r[j], n);
        assert j == i;
        assert BufOk(bufs[i], disk, latest);
      }
    }
  }

  /** A locked buffer is written through to the disk. */
  lemma WriteKeeps(bufs: seq<Buf>, disk: Disk, latest: Disk, i: nat)
    requires CacheOk(bufs, disk, latest) && i < |bufs| && bufs[i].locked && bufs[i].valid
    ensures bufs[i].blockno < |disk|
    ensures CacheOk(bufs[i := bufs[i].(dirty := false)], disk[bufs[i].blockno := bufs[i].data], latest)
  {
    assert BufOk(bufs[i], disk, latest);
    var n := bufs[i].blockno;
    var r, d := bufs[i := bufs[i].(dirty := false)], disk[n := bufs[i].data];
    forall j | 0 <= j < |r|
      ensures BufOk(r[j], d, latest)
    {
      assert BufOk(bufs[j], disk, latest);
      if j != i {
        assert !Holds(bufs[j], n);
      }
    }
    SameBlocks(bufs, r);
    assert Holds(r[i], n);
  }

  /** The holder of a locked buffer changes its data: those are the block's latest contents. */
  lemma ModifyKeeps(bufs: seq<Buf>, disk: Disk, latest: Disk, i: nat, data: Block)
    requires CacheOk(bufs, disk, latest) && i < |bufs| && bufs[i].locked && bufs[i].valid
    ensures bufs[i].blockno < |latest|
    ensures CacheOk(bufs[i := bufs[i].(data := data)], disk, latest[bufs[i].blockno := data])
  {
    assert BufOk(bufs[i], disk, latest);
    var n := bufs[i].blockno;
    var r, l := bufs[i := bufs[i].(data := data)], latest[n := data];
    forall j | 0 <= j < |r|
      ensures BufOk(r[j], disk, l)
    {
      assert BufOk(bufs[j], disk, latest);
      if j != i {
        assert !Holds(bufs[j], n);
      }
    }
    SameBlocks(bufs, r);
    assert Holds(r[i], n);
  }

  /** Moving a buffer to the front with a new stamp keeps the ring in release order. */
  lemma MoveKeeps(nodes: seq<nat>, stamps: seq<nat>, clock: nat, k: nat)
    requires OrderOk(nodes, |stamps|) && Distinct(nodes) && StampOk(nodes, stamps, clock) && 0 < k < |nodes|
    ensures var b := nodes[k]; var r := Front(Without(nodes, k), b);
      b < |stamps| && OrderOk(r, |stamps|) && StampOk(r, stamps[b := clock], clock + 1)
  {
    var b := nodes[k];
    var w := Without(nodes, k);
    var r := Front(w, b);
    forall x: nat | x < |stamps|
      ensures x in r
    {
      assert x in nodes;
      var i :| 0 <= i < |nodes| && nodes[i] == x;
      assert 0 < i;
      if i == k {
        assert r[1] == x;
      } else {
        assert r[if i < k then i + 1 else i] == x;
      }
    }
  }

  /** `bcache`, with the disk that iderw reads and writes.  Buffers are numbered; NBUF is the
      list head.  The ghost fields are the ring from the head on, the time of each buffer's
      last release, and the latest contents of every block. */
  class Bcache {
    const bufs: array<Buf>
    const prev: array<nat>
    const next: array<nat>
    var disk: Disk
    ghost var nodes: seq<nat>
    ghost var stamps: seq<nat>
    ghost var clock: nat
    ghost var latest: Disk

    ghost predicate Valid()
      reads this, bufs, prev, next
    {
      && prev != next && bufs.Length == NBUF && prev.Length == next.Length == NBUF + 1
      && RingOk(nodes, prev[..], next[..]) && OrderOk(nodes, NBUF)
      && |stamps| == NBUF && StampOk(nodes, stamps, clock)
      && CacheOk(bufs[..], disk, latest)
    }

    /** The search for a cached copy, from the most recently used on. */
    method Lookup(dev: nat, blockno: nat) returns (r: Option<nat>)
      requires Valid()
      ensures r.Some? ==> r.value < NBUF && bufs[r.value].dev == dev && bufs[r.value].blockno == blockno
      ensures r.None? ==> forall i | 0 <= i < NBUF :: !(bufs[i].dev == dev && bufs[i].blockno == blockno)
    {
      assert LinkOk(nodes, prev[..], next[..], 0);
      var b := next[NBUF];
      ghost var k: nat := After(|nodes|, 0);
      while b != NBUF
        invariant k < |nodes| && b == nodes[k]
        invariant k == 0 ==>
          forall i | 1 <= i < |nodes| :: !(bufs[nodes[i]].dev == dev && bufs[nodes[i]].blockno == blockno)
        invariant forall i | 1 <= i < k :: !(bufs[nodes[i]].dev == dev && bufs[nodes[i]].blockno == blockno)
        decreases if k == 0 then 0 else |nodes| - k
      {
        if bufs[b].dev == dev && bufs[b].blockno == blockno {
          return Some(b);
        }
        assert LinkOk(nodes, prev[..], next[..], k);
        b := next[b];
        k := After(|nodes|, k);
      }
      forall i | 0 <= i < NBUF
        ensures !(bufs[i].dev == dev && bufs[i].blockno == blockno)
      {
        assert i in nodes;
      }
      return None;
    }

    /** The search for a buffer to recycle, from the least recently used on. */
    method FindVictim() returns (r: Option<nat>)
      requires Valid()
      ensures r.Some? ==>
        && r.value < NBUF && bufs[r.value].refcnt == 0 && !bufs[r.value].dirty
        && forall i | 0 <= i < NBUF && bufs[i].refcnt == 0 && !bufs[i].dirty :: stamps[r.value] <= stamps[i]
      ensures r.None? ==> forall i | 0 <= i < NBUF :: 0 < bufs[i].refcnt || bufs[i].dirty
    {
      ghost var k: nat := |nodes| - 1;
      assert LinkOk(nodes, prev[..], next[..], k);
      var b := prev[NBUF];
      while b != NBUF
        invariant k < |nodes| && b == nodes[k]
        invariant forall i | k < i < |nodes| :: !Eligible(bufs[nodes[i]])
        decreases k
      {
        if bufs[b].refcnt == 0 && !bufs[b].dirty {
          forall i | 0 <= i < NBUF && Eligible(bufs[i])
            ensures stamps[b] <= stamps[i]
          {
            assert i in nodes;
          }
          return Some(b);
        }
        assert LinkOk(nodes, prev[..], next[..], k - 1);
        b := prev[b];
        k := k - 1;
      }
      forall i | 0 <= i < NBUF
        ensures !Eligible(bufs[i])
      {
        assert i in nodes;
      }
      return None;
    }

    /** bget() up to taking the buffer's lock; None where it panics.  A buffer that is in use
        or pinned keeps its block, and the victim is the eligible buffer released longest ago. */
    method Bget(blockno: nat) returns (r: Option<nat>)
      requires Valid() && blockno < |disk|
      modifies bufs
      ensures Valid()
      ensures r.None? <==> NoRoom(old(bufs[..]), blockno)
      ensures r.None? ==> bufs[..] == old(bufs[..])
      ensures r.Some? ==>
        && r.value < NBUF && Holds(bufs[r.value], blockno) && 0 < bufs[r.value].refcnt
        && bufs[..] == old(bufs[..])[r.value := bufs[r.value]]
      ensures r.Some? && old(Cached(bufs[..], blockno)) ==>
        bufs[r.value] == old(bufs[..])[r.value].(refcnt := old(bufs[..])[r.value].refcnt + 1)
      ensures r.Some? && !old(Cached(bufs[..], blockno)) ==>
        && Eligible(old(bufs[..])[r.value])
        && bufs[r.value] == Buf(ROOTDEV, blockno, 1, false, false, false, old(bufs[..])[r.value].data)
        && old(bufs[..])[r.value].refcnt == 0 && !old(bufs[..])[r.value].dirty
        && forall i | 0 <= i < NBUF && old(bufs[..])[i].refcnt == 0 && !old(bufs[..])[i].dirty ::
             stamps[r.value] <= stamps[i]
    {
      r := Lookup(ROOTDEV, blockno);
      ghost var was := bufs[..];
      if r.Some? {
        var i := r.value;
        assert Holds(was[i], blockno);
        assert BufOk(was[i], disk, latest);
        ReplaceKeeps(was, disk, latest, i, was[i].(refcnt := was[i].refcnt + 1));
        bufs[i] := bufs[i].(refcnt := bufs[i].refcnt + 1);
        assert bufs[..] == was[i := was[i].(refcnt := was[i].refcnt + 1)];
        return;
      }
      assert !Cached(was, blockno);
      r := FindVictim();
      if r.Some? {
        var i := r.value;
        RecycleKeeps(was, disk, latest, i, blockno);
        bufs[i] := Buf(ROOTDEV, blockno, 1, false, false, false, bufs[i].data);
        assert bufs[..] == was[i := Buf(ROOTDEV, blockno, 1, false, false, false, was[i].data)];
      }
    }

    /** iderw(): a dirty buffer goes to disk, an invalid one is filled from it. */
    method Iderw(i: nat)
      requires Valid() && i < NBUF && bufs[i].locked && (bufs[i].dirty || !bufs[i].valid)
      modifies this, bufs
      ensures Valid() && latest == old(latest) && nodes == old(nodes) && stamps == old(stamps)
      ensures old(bufs[i].blockno) == bufs[i].blockno < |latest|
      ensures bufs[i] == old(bufs[i]).(valid := true, dirty := false, data := latest[bufs[i].blockno])
      ensures bufs[..] == old(bufs[..])[i := bufs[i]]
      ensures disk == old(disk)[bufs[i].blockno := latest[bufs[i].blockno]]
    {
      ghost var was := bufs[..];
      assert BufOk(was[i], disk, latest);
      if bufs[i].dirty {
        WriteKeeps(was, disk, latest, i);
        disk := disk[bufs[i].blockno := bufs[i].data];
        bufs[i] := bufs[i].(dirty := false);
        assert bufs[..] == was[i := was[i].(dirty := false)];
      } else {
        ReplaceKeeps(was, disk, latest, i, was[i].(valid := true, data := disk[was[i].blockno]));
        bufs[i] := bufs[i].(valid := true, data := disk[bufs[i].blockno]);
        assert bufs[..] == was[i := was[i].(valid := true, data := disk[was[i].blockno])];
      }
    }

    /** acquiresleep() on a buffer that nobody has locked. */
    method Lock(i: nat)
      requires Valid() && i < NBUF && 0 < bufs[i].refcnt && !bufs[i].locked
      modifies bufs
      ensures Valid() && bufs[..] == old(bufs[..])[i := old(bufs[i]).(locked := true)]
    {
      ghost var was := bufs[..];
      assert BufOk(was[i], disk, latest);
      ReplaceKeeps(was, disk, latest, i, was[i].(locked := true));
      bufs[i] := bufs[i].(locked := true);
      assert bufs[..] == was[i := was[i].(locked := true)];
    }

    /** bread() from where acquiresleep() returns: the caller gets the buffer locked and with
        the block's latest contents, whether they were in the cache or on disk. */
    method FinishRead(i: nat)
      requires Valid() && i < NBUF && 0 < bufs[i].refcnt && !bufs[i].locked
      modifies this, bufs
      ensures Valid() && latest == old(latest) && disk == old(disk) && nodes == old(nodes) && stamps == old(stamps)
      ensures bufs[..] == old(bufs[..])[i := bufs[i]]
      ensures bufs[i].blockno == old(bufs[i].blockno) < |latest|
      ensures bufs[i] == old(bufs[i]).(locked := true, valid := true, data := latest[bufs[i].blockno])
    {
      Lock(i);
      assert bufs[..][i] == bufs[i];
      assert BufOk(bufs[..][i], disk, latest);
      if !bufs[i].valid {
        Iderw(i);
      }
    }

    /** bread().  If another process has the block's buffer locked, the caller has a reference
        to it, which keeps the buffer from being recycled, and waits for the lock; what follows
        is FinishRead.  Otherwise it gets the buffer at once. */
    method Bread(blockno: nat) returns (r: ReadResult)
      requires Valid() && blockno < |disk|
      modifies this, bufs
      ensures Valid() && latest == old(latest) && disk == old(disk) && nodes == old(nodes) && stamps == old(stamps)
      ensures r == NoBuffer <==> NoRoom(old(bufs[..]), blockno)
      ensures r == NoBuffer ==> bufs[..] == old(bufs[..])
      ensures r.Waits? <==> Busy(old(bufs[..]), blockno)
      ensures r != NoBuffer ==>
        r.i < NBUF && Holds(bufs[r.i], blockno) && 0 < bufs[r.i].refcnt && bufs[..] == old(bufs[..])[r.i := bufs[r.i]]
      ensures r.Waits? ==> bufs[r.i] == old(bufs[..])[r.i].(refcnt := old(bufs[..])[r.i].refcnt + 1)
      ensures r.Got? && old(Cached(bufs[..], blockno)) ==>
        bufs[r.i] == old(bufs[..])[r.i].(
          refcnt := old(bufs[..])[r.i].refcnt + 1, locked := true, valid := true, data := latest[blockno])
      ensures r.Got? && !old(Cached(bufs[..], blockno)) ==>
        && old(bufs[..])[r.i].refcnt == 0 && !old(bufs[..])[r.i].dirty
        && bufs[r.i] == Buf(ROOTDEV, blockno, 1, true, false, true, latest[blockno])
    {
      ghost var was := bufs[..];
      var b := Bget(blockno);
      if b.None? {
        return NoBuffer;
      }
      var i := b.value;
      assert bufs[..][i] == bufs[i];
      if Cached(was, blockno) {
        OneHolder(was, disk, latest, i, blockno);
      }
      if bufs[i].locked {
        return Waits(i);
      }
      FinishRead(i);
      return Got(i);
    }

    /** The holder of a buffer changes its data. */
    method Modify(i: nat, data: Block)
      requires Valid() && i < NBUF && bufs[i].locked && bufs[i].valid
      modifies this, bufs
      ensures Valid() && disk == old(disk)
      ensures bufs[..] == old(bufs[..])[i := old(bufs[i]).(data := data)]
      ensures latest == old(latest)[bufs[i].blockno := data]
    {
      ghost var was := bufs[..];
      ModifyKeeps(was, disk, latest, i, data);
      latest := latest[bufs[i].blockno := data];
      bufs[i] := bufs[i].(data := data);
      assert bufs[..] == was[i := was[i].(data := data)];
    }

    /** What log_write() does to the buffer: pin it until commit writes it out. */
    method Pin(i: nat)
      requires Valid() && i < NBUF && bufs[i].locked && bufs[i].valid
      modifies bufs
      ensures Valid() && bufs[..] == old(bufs[..])[i := old(bufs[i]).(dirty := true)]
    {
      ghost var was := bufs[..];
      assert BufOk(was[i], disk, latest);
      ReplaceKeeps(was, disk, latest, i, was[i].(dirty := true));
      bufs[i] := bufs[i].(dirty := true);
      assert bufs[..] == was[i := was[i].(dirty := true)];
    }

    /** bwrite(): the block's latest contents are on disk. */
    method Bwrite(i: nat)
      requires Valid() && i < NBUF && bufs[i].locked && bufs[i].valid
      modifies this, bufs
      ensures Valid() && latest == old(latest) && nodes == old(nodes) && stamps == old(stamps)
      ensures bufs[..] == old(bufs[..])[i := old(bufs[i]).(dirty := false)]
      ensures disk == old(disk)[bufs[i].blockno := latest[bufs[i].blockno]]
    {
      ghost var was := bufs[..];
      assert BufOk(was[i], disk, latest);
      Pin(i);
      Iderw(i);
      assert bufs[..] == was[i := was[i].(dirty := false)];
    }

    /** The relinking in brelse(): buffer `b`, node k of the ring, becomes the first. */
    method MoveToFront(b: nat, ghost k: nat)
      requires Valid() && 0 < k < |nodes| && nodes[k] == b
      modifies this, prev, next
      ensures Valid() && disk == old(disk) && latest == old(latest)
      ensures nodes == Front(Without(old(nodes), k), b)
      ensures clock == old(clock) + 1 && stamps == old(stamps)[b := old(clock)]
    {
      MoveKeeps(nodes, stamps, clock, k);
      ghost var p0, n0 := prev[..], next[..];
      UnlinkOk(nodes, p0, n0, k);
      Unlink(b);
      nodes := Without(nodes, k);
      ghost var p1, n1 := prev[..], next[..];
      assert b !in nodes;
      InsertOk(nodes, p1, n1, b);
      Insert(b);
      nodes, stamps, clock := Front(nodes, b), stamps[b := clock], clock + 1;
    }

    method Unlink(b: nat)
      requires prev != next && prev.Length == next.Length == NBUF + 1
      requires b < NBUF && next[b] < prev.Length && prev[b] < next.Length
      modifies prev, next
      ensures prev[..] == UnlinkPrev(old(prev[..]), old(next[..]), b)
      ensures next[..] == UnlinkNext(old(prev[..]), old(next[..]), b)
    {
      prev[next[b]] := prev[b];
      next[prev[b]] := next[b];
    }

    method Insert(b: nat)
      requires prev != next && prev.Length == next.Length == NBUF + 1
      requires b < NBUF && next[NBUF] < prev.Length
      modifies prev, next
      ensures prev[..] == InsertPrev(old(prev[..]), old(next[..]), NBUF, b)
      ensures next[..] == InsertNext(old(next[..]), NBUF, b)
    {
      next[b] := next[NBUF];
      prev[b] := NBUF;
      prev[next[NBUF]] := b;
      next[NBUF] := b;
    }

    /** brelse(): the last user's release makes the buffer the most recently used.  The holder
        must have pinned or written out what it changed. */
    method Brelse(i: nat)
      requires Valid() && i < NBUF && bufs[i].locked
      requires bufs[i].dirty || (bufs[i].blockno < |disk| && disk[bufs[i].blockno] == bufs[i].data)
      modifies this, bufs, prev, next
      ensures Valid() && disk == old(disk) && latest == old(latest)
      ensures bufs[..] == old(bufs[..])[i := old(bufs[i]).(locked := false, refcnt := old(bufs[i].refcnt) - 1)]
      ensures old(bufs[i].refcnt) == 1 ==> nodes[1] == i && stamps == old(stamps)[i := old(clock)]
      ensures old(bufs[i].refcnt) != 1 ==> nodes == old(nodes) && stamps == old(stamps)
    {
      ghost var was := bufs[..];
      assert BufOk(was[i], disk, latest);
      ReplaceKeeps(was, disk, latest, i, was[i].(locked := false, refcnt := was[i].refcnt - 1));
      bufs[i] := bufs[i].(locked := false, refcnt := bufs[i].refcnt - 1);
      assert bufs[..] == was[i := was[i].(locked := false, refcnt := was[i].refcnt - 1)];
      if bufs[i].refcnt == 0 {
        assert i in nodes;
        ghost var k :| 0 <= k < |nodes| && nodes[k] == i;
        MoveToFront(i, k);
      }
    }

    /** binit() over buffers that hold nothing. */
    constructor (disk: Disk, zero: Block)
      ensures Valid() && this.disk == disk && latest == disk && bufs.Length == 30
      ensures fresh(bufs) && fresh(prev) && fresh(next)
      ensures forall i | 0 <= i < NBUF :: bufs[i] == Buf(0, 0, 0, false, false, false, zero)
    {
      this.disk := disk;
      latest := disk;
      bufs := new Buf[NBUF](_ => Buf(0, 0, 0, false, false, false, zero));
      prev := new nat[NBUF + 1](_ => NBUF);
      next := new nat[NBUF + 1](_ => NBUF);
      nodes := [NBUF];
      stamps := seq(NBUF, x => x);
      clock := 0;
      new;
      for b := 0 to NBUF
        invariant forall i | 0 <= i < NBUF :: bufs[i] == Buf(0, 0, 0, false, false, false, zero)
        invariant RingOk(nodes, prev[..], next[..]) && |nodes| == b + 1 && nodes[0] == NBUF
        invariant forall i | 1 <= i < |nodes| :: nodes[i] == b - i
        invariant clock == b && this.disk == latest == disk && |stamps| == NBUF
        invariant forall x | 0 <= x < NBUF :: stamps[x] == x
      {
        assert b !in nodes;
        InsertOk(nodes, prev[..], next[..], b);
        Insert(b);
        nodes, clock := Front(nodes, b), b + 1;
      }
      forall b: nat | b < NBUF
        ensures b in nodes
      {
        assert nodes[NBUF - b] == b;
      }
    }
  }
}
