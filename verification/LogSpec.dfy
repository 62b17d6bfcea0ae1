/** The redo log of log.c as functions on disks.

    A disk is a sequence of blocks and a block is 128 32-bit words.  The only
    hardware assumption is that writing one block is atomic.  A disk is used by the
    file system through its home blocks; the log region holds a header block
    followed by copies of home blocks. */
module LogSpec {

  const MAXOPBLOCKS := 10
  const LOGSIZE := MAXOPBLOCKS * 3

  type Block = b: seq<int> | |b| == 128 witness seq(128, _ => 0)
  type Disk = seq<Block>

  /** Where the superblock puts the log: the header is block `start`, the `size - 1`
      blocks after it hold data. */
  datatype Layout = Layout(start: nat, size: nat)

  predicate InLog(g: Layout, b: int) {
    g.start <= b < g.start + g.size
  }

  predicate IsHome(g: Layout, capacity: nat, b: int) {
    0 <= b < capacity && !InLog(g, b)
  }

  /** A list of block numbers that a header may hold: distinct home blocks, no more
      than the log has room for. */
  ghost predicate ValidList(g: Layout, capacity: nat, lh: seq<int>) {
    && |lh| <= LOGSIZE
    && |lh| < g.size
    && (forall i | 0 <= i < |lh| :: IsHome(g, capacity, lh[i]))
    && (forall i, j | 0 <= i < j < |lh| :: lh[i] != lh[j])
  }

  /** The list of block numbers stored in a header block: word 0 is the count. */
  function HeadList(b: Block): (lh: seq<int>) {
    if 0 <= b[0] <= LOGSIZE then b[1..1 + b[0]] else []
  }

  /** write_head overwrites the count and the entries and leaves the other words. */
  function PutHead(b: Block, lh: seq<int>): (r: Block)
    requires |lh| <= LOGSIZE
    ensures HeadList(r) == lh
  {
    [|lh|] + lh + b[|lh| + 1..]
  }

  ghost predicate ValidDisk(g: Layout, d: Disk) {
    && 0 < g.size
    && g.start + g.size <= |d|
    && 0 <= d[g.start][0] <= LOGSIZE
    && ValidList(g, |d|, HeadList(d[g.start]))
  }

  ghost function IndexOf(lh: seq<int>, b: int): (i: nat)
    requires b in lh
    ensures i < |lh| && lh[i] == b
  {
    var i: nat :| i < |lh| && lh[i] == b;
    i
  }

  /** What a disk means: a block named in the header has the contents of its log
      copy, every other block its own contents. */
  ghost function Logical(g: Layout, d: Disk, b: nat): (r: Block)
    requires ValidDisk(g, d) && IsHome(g, |d|, b)
  {
    var lh := HeadList(d[g.start]);
    if b in lh then d[g.start + 1 + IndexOf(lh, b)] else d[b]
  }

  /** Two disks of the same size that mean the same to the file system. */
  ghost predicate SameMeaning(g: Layout, d: Disk, e: Disk)
    requires ValidDisk(g, d) && ValidDisk(g, e)
  {
    |d| == |e| && forall b: nat | IsHome(g, |d|, b) :: Logical(g, d, b) == Logical(g, e, b)
  }

  /** log_write's table after recording block `b`: a block already there is absorbed. */
  function Absorb(lh: seq<int>, b: int): (r: seq<int>) {
    if b in lh then lh else lh + [b]
  }

  /** begin_op lets an operation in when no commit is running and the log has room for
      MAXOPBLOCKS more blocks for it and for every operation already in progress. */
  predicate MayBegin(n: int, outstanding: int, committing: bool) {
    !committing && n + (outstanding + 1) * MAXOPBLOCKS <= LOGSIZE
  }

  /** log_write panics unless this holds. */
  predicate MayLog(g: Layout, n: int, outstanding: int) {
    n < LOGSIZE && n < g.size - 1 && 1 <= outstanding
  }

  /** How many blocks the table can hold: at LOGSIZE entries the array ends, and after
      `size - 1` data blocks the log area. */
  function Room(g: Layout): (n: int) {
    if LOGSIZE < g.size - 1 then LOGSIZE else g.size - 1
  }

  // ----- Commit: the k-th block write, computed from the disk and the cache of that moment

  type Cache = map<int, Block>

  datatype Write = Write(blockno: int, data: Block)

  function CommitLength(lh: seq<int>): (n: nat) {
    if lh == [] then 0 else 2 * |lh| + 2
  }

  ghost predicate CanCommit(g: Layout, capacity: nat, lh: seq<int>, cache: Cache) {
    ValidList(g, capacity, lh) && forall i | 0 <= i < |lh| :: lh[i] in cache
  }

  /** What commit needs to make its writes at all: the table fits its array, and the blocks it
      touches exist.  They need not lie in the log area. */
  ghost predicate CanWriteOut(g: Layout, capacity: nat, lh: seq<int>, cache: Cache) {
    && |lh| <= LOGSIZE && g.start + |lh| < capacity
    && forall i | 0 <= i < |lh| :: 0 <= lh[i] < capacity && lh[i] in cache
  }

  function CommitWrite(g: Layout, d: Disk, lh: seq<int>, cache: Cache, k: nat): (w: Write)
    requires CanWriteOut(g, |d|, lh, cache) && k < CommitLength(lh)
    ensures 0 <= w.blockno < |d|
  {
    var n := |lh|;
    if k < n then Write(g.start + 1 + k, cache[lh[k]])                        // write_log
    else if k == n then Write(g.start, PutHead(d[g.start], lh))               // write_head
    else if k <= 2 * n then Write(lh[k - n - 1], d[g.start + k - n])          // install_trans
    else Write(g.start, PutHead(d[g.start], []))                              // write_head, n = 0
  }

  function Put(d: Disk, w: Write): (e: Disk)
    requires 0 <= w.blockno < |d|
  {
    d[w.blockno := w.data]
  }

  /** Writing a block out also changes the buffer that caches it. */
  function PutCached(cache: Cache, w: Write): (c: Cache) {
    if w.blockno in cache then cache[w.blockno := w.data] else cache
  }

  // The loops of log.c, run for `k` iterations, and write_head

  function LogDisk(g: Layout, d: Disk, lh: seq<int>, cache: Cache, k: nat): (e: Disk)
    requires 0 < g.size && g.start + g.size <= |d|
    requires CanCommit(g, |d|, lh, cache) && k <= |lh|
    ensures |e| == |d|
  {
    if k == 0 then d else LogDisk(g, d, lh, cache, k - 1)[g.start + k := cache[lh[k - 1]]]
  }

  function InstallDisk(g: Layout, d: Disk, lh: seq<int>, k: nat): (e: Disk)
    requires 0 < g.size && g.start + g.size <= |d|
    requires ValidList(g, |d|, lh) && k <= |lh|
    ensures |e| == |d|
  {
    if k == 0 then d
    else
      var e := InstallDisk(g, d, lh, k - 1);
      e[lh[k - 1] := e[g.start + k]]
  }

  function HeadDisk(g: Layout, d: Disk, lh: seq<int>): (e: Disk)
    requires 0 < g.size && g.start + g.size <= |d| && |lh| <= LOGSIZE
  {
    d[g.start := PutHead(d[g.start], lh)]
  }

  /** The disk after the first `k` block writes of commit. */
  function CommitDisk(g: Layout, d: Disk, lh: seq<int>, cache: Cache, k: nat): (e: Disk)
    requires 0 < g.size && g.start + g.size <= |d|
    requires CanCommit(g, |d|, lh, cache) && k <= CommitLength(lh)
    ensures |e| == |d|
  {
    var n := |lh|;
    if k <= n then LogDisk(g, d, lh, cache, k)
    else
      var h := HeadDisk(g, LogDisk(g, d, lh, cache, n), lh);
      if k <= 2 * n + 1 then InstallDisk(g, h, lh, k - n - 1)
      else HeadDisk(g, InstallDisk(g, h, lh, n), [])
  }

  /** Those disks are one block write apart. */
  lemma CommitDiskSteps(g: Layout, d: Disk, lh: seq<int>, cache: Cache, k: nat)
    requires 0 < g.size && g.start + g.size <= |d|
    requires CanCommit(g, |d|, lh, cache) && k < CommitLength(lh)
    ensures var e := CommitDisk(g, d, lh, cache, k);
      CommitDisk(g, d, lh, cache, k + 1) == Put(e, CommitWrite(g, e, lh, cache, k))
  {
  }

  /** How far a commit of `lh` has come on disk `d` after `k` writes. */
  ghost predicate CommitProgress(g: Layout, d: Disk, lh: seq<int>, cache: Cache, k: nat) {
    && CanCommit(g, |d|, lh, cache) && k <= CommitLength(lh)
    && ValidDisk(g, d)
    && HeadList(d[g.start]) == (if |lh| < k < CommitLength(lh) then lh else [])
    && (forall i {:trigger lh[i]} | 0 <= i < |lh| && i < k :: d[g.start + 1 + i] == cache[lh[i]])
    && (forall i {:trigger lh[i]} | 0 <= i < |lh| && |lh| + 1 + i < k :: d[lh[i]] == cache[lh[i]])
  }

  /** Installing a logged block does not change what the disk means. */
  lemma InstallKeepsMeaning(g: Layout, d: Disk, i: nat)
    requires ValidDisk(g, d) && i < |HeadList(d[g.start])|
    ensures var e := d[HeadList(d[g.start])[i] := d[g.start + 1 + i]];
      e[g.start] == d[g.start] && ValidDisk(g, e) && SameMeaning(g, d, e)
  {
    var lh := HeadList(d[g.start]);
    var e := d[lh[i] := d[g.start + 1 + i]];
    assert e[g.start] == d[g.start];
    forall b: nat | IsHome(g, |d|, b)
      ensures Logical(g, e, b) == Logical(g, d, b)
    {
      if b in lh {
        assert e[g.start + 1 + IndexOf(lh, b)] == d[g.start + 1 + IndexOf(lh, b)];
      }
    }
  }

  /** Clearing the header of a log whose blocks are all installed does not change what
      the disk means. */
  lemma ClearKeepsMeaning(g: Layout, d: Disk)
    requires ValidDisk(g, d)
    requires var lh := HeadList(d[g.start]);
      forall i {:trigger lh[i]} | 0 <= i < |lh| :: d[lh[i]] == d[g.start + 1 + i]
    ensures var e := d[g.start := PutHead(d[g.start], [])];
      HeadList(e[g.start]) == [] && ValidDisk(g, e) && SameMeaning(g, d, e)
  {
    hide Logical;
    var e := d[g.start := PutHead(d[g.start], [])];
    assert HeadList(e[g.start]) == [];
    forall b: nat | IsHome(g, |d|, b)
      ensures Logical(g, e, b) == Logical(g, d, b)
    {
      InstalledMeans(g, d, b);
      EmptyMeans(g, e, b);
    }
  }

  lemma EmptyMeans(g: Layout, e: Disk, b: nat)
    requires ValidDisk(g, e) && HeadList(e[g.start]) == [] && IsHome(g, |e|, b)
    ensures Logical(g, e, b) == e[b]
  {
  }

  lemma InstalledMeans(g: Layout, d: Disk, b: nat)
    requires ValidDisk(g, d) && IsHome(g, |d|, b)
    requires var lh := HeadList(d[g.start]);
      forall i {:trigger lh[i]} | 0 <= i < |lh| :: d[lh[i]] == d[g.start + 1 + i]
    ensures Logical(g, d, b) == d[b]
  {
    var lh := HeadList(d[g.start]);
    if b in lh {
      assert lh[IndexOf(lh, b)] == b;
    }
  }

  lemma LogBlockStep(g: Layout, d: Disk, lh: seq<int>, cache: Cache, k: nat)
    requires CommitProgress(g, d, lh, cache, k) && k < |lh|
    ensures var e := Put(d, CommitWrite(g, d, lh, cache, k));
      CommitProgress(g, e, lh, cache, k + 1) && SameMeaning(g, d, e)
  {
  }

  lemma HeaderStep(g: Layout, d: Disk, lh: seq<int>, cache: Cache)
    requires CommitProgress(g, d, lh, cache, |lh|) && lh != []
    ensures var e := Put(d, CommitWrite(g, d, lh, cache, |lh|));
      && CommitProgress(g, e, lh, cache, |lh| + 1)
      && forall b: nat | IsHome(g, |d|, b) ::
           Logical(g, e, b) == if b in lh then cache[b] else Logical(g, d, b)
  {
    var e := Put(d, CommitWrite(g, d, lh, cache, |lh|));
    assert HeadList(e[g.start]) == lh;
    forall b: nat | IsHome(g, |d|, b)
      ensures Logical(g, e, b) == if b in lh then cache[b] else Logical(g, d, b)
    {
      if b in lh {
        assert lh[IndexOf(lh, b)] == b;
      }
    }
  }

  lemma InstallStep(g: Layout, d: Disk, lh: seq<int>, cache: Cache, k: nat)
    requires CommitProgress(g, d, lh, cache, k) && |lh| < k <= 2 * |lh|
    ensures var e := Put(d, CommitWrite(g, d, lh, cache, k));
      CommitProgress(g, e, lh, cache, k + 1) && SameMeaning(g, d, e)
  {
    hide Logical, SameMeaning, HeadList, ValidDisk;
    ProgressMeans(g, d, lh, cache, k);
    var i := k - |lh| - 1;
    var x := lh[i];
    assert IsHome(g, |d|, x);
    var e := Put(d, CommitWrite(g, d, lh, cache, k));
    assert e == d[x := d[g.start + 1 + i]];
    InstallKeepsMeaning(g, d, i);
    assert forall j | g.start <= j < g.start + g.size :: e[j] == d[j];
    forall j {:trigger lh[j]} | 0 <= j < |lh| && |lh| + 1 + j < k + 1
      ensures e[lh[j]] == cache[lh[j]]
    {
      if j != i {
        assert lh[j] != x;
      }
    }
  }

  lemma ProgressMeans(g: Layout, d: Disk, lh: seq<int>, cache: Cache, k: nat)
    requires CommitProgress(g, d, lh, cache, k) && |lh| < k <= 2 * |lh|
    ensures 0 < g.size && g.start + g.size <= |d| && HeadList(d[g.start]) == lh
  {
  }

  lemma ClearStep(g: Layout, d: Disk, lh: seq<int>, cache: Cache)
    requires CommitProgress(g, d, lh, cache, 2 * |lh| + 1) && lh != []
    ensures var e := Put(d, CommitWrite(g, d, lh, cache, 2 * |lh| + 1));
      CommitProgress(g, e, lh, cache, 2 * |lh| + 2) && SameMeaning(g, d, e)
  {
    forall i {:trigger lh[i]} | 0 <= i < |lh|
      ensures d[lh[i]] == d[g.start + 1 + i]
    {
      assert d[lh[i]] == cache[lh[i]];
    }
    ClearKeepsMeaning(g, d);
  }

  /** One more write keeps the progress relation; the meaning of the disk changes only
      at the header write, and there every logged block is replaced at once. */
  lemma CommitStep(g: Layout, d: Disk, lh: seq<int>, cache: Cache, k: nat)
    requires CommitProgress(g, d, lh, cache, k) && k < CommitLength(lh)
    ensures var e := Put(d, CommitWrite(g, d, lh, cache, k));
      && CommitProgress(g, e, lh, cache, k + 1)
      && (k != |lh| ==> SameMeaning(g, d, e))
      && (k == |lh| ==> forall b: nat | IsHome(g, |d|, b) ::
            Logical(g, e, b) == if b in lh then cache[b] else Logical(g, d, b))
  {
    if k < |lh| {
      LogBlockStep(g, d, lh, cache, k);
    } else if k == |lh| {
      HeaderStep(g, d, lh, cache);
    } else if k <= 2 * |lh| {
      InstallStep(g, d, lh, cache, k);
    } else {
      ClearStep(g, d, lh, cache);
    }
  }

  lemma CommitWritesOut(g: Layout, capacity: nat, lh: seq<int>, cache: Cache)
    requires 0 < g.size && g.start + g.size <= capacity && CanCommit(g, capacity, lh, cache)
    ensures CanWriteOut(g, capacity, lh, cache)
  {
    assert forall i | 0 <= i < |lh| :: IsHome(g, capacity, lh[i]);
  }

  /** As long as the table fits the log area, no write of commit changes a pinned buffer. */
  lemma CommitKeepsCache(g: Layout, d: Disk, lh: seq<int>, cache: Cache, k: nat)
    requires CommitProgress(g, d, lh, cache, k) && k < CommitLength(lh)
    requires forall b | b in cache :: IsHome(g, |d|, b)
    ensures PutCached(cache, CommitWrite(g, d, lh, cache, k)) == cache
  {
    var n := |lh|;
    if n < k <= 2 * n {
      assert d[g.start + 1 + (k - n - 1)] == cache[lh[k - n - 1]];
    }
  }

  // ----- Recovery: the k-th block write of recover_from_log, `lh` being the header it read

  function RecoverWrite(g: Layout, d: Disk, lh: seq<int>, k: nat): (w: Write)
    requires 0 < g.size && g.start + g.size <= |d|
    requires ValidList(g, |d|, lh) && k <= |lh|
    ensures 0 <= w.blockno < |d|
  {
    if k < |lh| then Write(lh[k], d[g.start + 1 + k])                         // install_trans
    else Write(g.start, PutHead(d[g.start], []))                              // write_head, n = 0
  }

  function RecoverLength(g: Layout, d: Disk): (n: nat)
    requires ValidDisk(g, d)
  {
    |HeadList(d[g.start])| + 1
  }

  /** The disk after the first `k` block writes of recovery. */
  function RecoverDisk(g: Layout, d: Disk, k: nat): (e: Disk)
    requires ValidDisk(g, d) && k <= RecoverLength(g, d)
    ensures |e| == |d|
  {
    var lh := HeadList(d[g.start]);
    if k <= |lh| then InstallDisk(g, d, lh, k) else HeadDisk(g, InstallDisk(g, d, lh, |lh|), [])
  }

  lemma RecoverDiskSteps(g: Layout, d: Disk, k: nat)
    requires ValidDisk(g, d) && k < RecoverLength(g, d)
    ensures var e := RecoverDisk(g, d, k);
      RecoverDisk(g, d, k + 1) == Put(e, RecoverWrite(g, e, HeadList(d[g.start]), k))
  {
  }

  ghost predicate RecoverProgress(g: Layout, d: Disk, lh: seq<int>, k: nat) {
    && ValidDisk(g, d) && ValidList(g, |d|, lh) && k <= |lh| + 1
    && HeadList(d[g.start]) == (if k <= |lh| then lh else [])
    && (k <= |lh| ==> forall i {:trigger lh[i]} | 0 <= i < k :: d[lh[i]] == d[g.start + 1 + i])
  }

  /** Every write of recovery leaves the meaning of the disk alone. */
  lemma RecoverStep(g: Layout, d: Disk, lh: seq<int>, k: nat)
    requires RecoverProgress(g, d, lh, k) && k <= |lh|
    ensures var e := Put(d, RecoverWrite(g, d, lh, k));
      RecoverProgress(g, e, lh, k + 1) && SameMeaning(g, d, e)
  {
    if k < |lh| {
      InstallKeepsMeaning(g, d, k);
      var e := Put(d, RecoverWrite(g, d, lh, k));
      forall i {:trigger lh[i]} | 0 <= i < k + 1
        ensures e[lh[i]] == e[g.start + 1 + i]
      {
        assert IsHome(g, |d|, lh[i]) && IsHome(g, |d|, lh[k]);
      }
    } else {
      ClearKeepsMeaning(g, d);
    }
  }

  lemma {:induction false} RecoverPrefix(g: Layout, d: Disk, k: nat)
    requires ValidDisk(g, d) && k <= RecoverLength(g, d)
    ensures RecoverProgress(g, RecoverDisk(g, d, k), HeadList(d[g.start]), k)
    ensures SameMeaning(g, d, RecoverDisk(g, d, k))
  {
    hide RecoverProgress, SameMeaning, RecoverDisk, RecoverWrite, ValidDisk, HeadList;
    RecoverStart(g, d);
    if k > 0 {
      RecoverPrefix(g, d, k - 1);
      RecoverDiskSteps(g, d, k - 1);
      var e := RecoverDisk(g, d, k - 1);
      ProgressBounds(g, e, HeadList(d[g.start]), k - 1);
      RecoverStep(g, e, HeadList(d[g.start]), k - 1);
      SameMeaningTrans(g, d, e, RecoverDisk(g, d, k));
    }
  }

  lemma RecoverStart(g: Layout, d: Disk)
    requires ValidDisk(g, d)
    ensures 0 < g.size && g.start + g.size <= |d|
    ensures ValidList(g, |d|, HeadList(d[g.start]))
    ensures RecoverDisk(g, d, 0) == d && RecoverProgress(g, d, HeadList(d[g.start]), 0) && SameMeaning(g, d, d)
  {
  }

  lemma ProgressBounds(g: Layout, d: Disk, lh: seq<int>, k: nat)
    requires RecoverProgress(g, d, lh, k)
    ensures ValidDisk(g, d) && ValidList(g, |d|, lh) && 0 < g.size && g.start + g.size <= |d|
  {
  }

  lemma SameMeaningTrans(g: Layout, d: Disk, e: Disk, f: Disk)
    requires ValidDisk(g, d) && ValidDisk(g, e) && ValidDisk(g, f) && SameMeaning(g, d, e) && SameMeaning(g, e, f)
    ensures SameMeaning(g, d, f)
  {
    hide Logical, ValidDisk;
  }

  /** The disk after a number of boots that each crashed: the i-th got through at most
      `crashes[i]` writes of its recovery. */
  ghost function AfterCrashes(g: Layout, d: Disk, crashes: seq<nat>): (e: Disk)
    requires ValidDisk(g, d)
    ensures ValidDisk(g, e) && SameMeaning(g, d, e)
    decreases |crashes|
  {
    if crashes == [] then d
    else
      var done := if crashes[0] <= RecoverLength(g, d) then crashes[0] else RecoverLength(g, d);
      RecoverPrefix(g, d, done);
      AfterCrashes(g, RecoverDisk(g, d, done), crashes[1..])
  }

  /** The disk after those crashes and one recovery that completes. */
  ghost function Recovered(g: Layout, d: Disk, crashes: seq<nat>): (e: Disk)
    requires ValidDisk(g, d)
    ensures |e| == |d|
    ensures ValidDisk(g, e) && HeadList(e[g.start]) == []
    ensures forall b: nat | IsHome(g, |d|, b) :: e[b] == Logical(g, d, b)
  {
    var c := AfterCrashes(g, d, crashes);
    RecoverPrefix(g, c, RecoverLength(g, c));
    RecoverDisk(g, c, RecoverLength(g, c))
  }

  /** Disk `e` means what `d` held, with the blocks of `lh` replaced if `committed`. */
  ghost predicate MeansOverlay(g: Layout, d: Disk, e: Disk, lh: seq<int>, cache: Cache, committed: bool)
    requires ValidDisk(g, e) && |e| == |d| && CanCommit(g, |d|, lh, cache)
  {
    forall b: nat | IsHome(g, |d|, b) ::
      Logical(g, e, b) == if committed && b in lh then cache[b] else d[b]
  }

  lemma OverlayStep(g: Layout, d: Disk, e: Disk, e': Disk, lh: seq<int>, cache: Cache, k: nat)
    requires |e| == |d| && CommitProgress(g, e, lh, cache, k) && k < CommitLength(lh)
    requires MeansOverlay(g, d, e, lh, cache, |lh| < k)
    requires e' == Put(e, CommitWrite(g, e, lh, cache, k))
    ensures CommitProgress(g, e', lh, cache, k + 1)
    ensures MeansOverlay(g, d, e', lh, cache, |lh| < k + 1)
  {
    CommitStep(g, e, lh, cache, k);
  }

  lemma {:induction false} CommitPrefix(g: Layout, d: Disk, lh: seq<int>, cache: Cache, k: nat)
    requires ValidDisk(g, d) && HeadList(d[g.start]) == []
    requires CanCommit(g, |d|, lh, cache) && k <= CommitLength(lh)
    ensures CommitProgress(g, CommitDisk(g, d, lh, cache, k), lh, cache, k)
    ensures MeansOverlay(g, d, CommitDisk(g, d, lh, cache, k), lh, cache, |lh| < k)
  {
    hide CommitProgress, MeansOverlay, CommitDisk, CommitWrite, CanCommit, HeadList, ValidDisk;
    CommitStart(g, d, lh, cache);
    if k > 0 {
      CommitPrefix(g, d, lh, cache, k - 1);
      CommitDiskSteps(g, d, lh, cache, k - 1);
      CommitBounds(g, CommitDisk(g, d, lh, cache, k - 1), lh, cache, k - 1);
      OverlayStep(g, d, CommitDisk(g, d, lh, cache, k - 1), CommitDisk(g, d, lh, cache, k), lh, cache, k - 1);
      CommitBounds(g, CommitDisk(g, d, lh, cache, k), lh, cache, k);
    }
  }

  lemma CommitStart(g: Layout, d: Disk, lh: seq<int>, cache: Cache)
    requires ValidDisk(g, d) && HeadList(d[g.start]) == [] && CanCommit(g, |d|, lh, cache)
    ensures 0 < g.size && g.start + g.size <= |d| && CommitDisk(g, d, lh, cache, 0) == d
    ensures CommitProgress(g, d, lh, cache, 0) && MeansOverlay(g, d, d, lh, cache, false)
  {
  }

  lemma CommitBounds(g: Layout, d: Disk, lh: seq<int>, cache: Cache, k: nat)
    requires CommitProgress(g, d, lh, cache, k)
    ensures ValidDisk(g, d) && 0 < g.size && g.start + g.size <= |d| && CanCommit(g, |d|, lh, cache)
      && k <= CommitLength(lh)
  {
  }

  /** Crash safety.  Stop commit between any two block writes, crash any number of times
      during recovery, then let recovery finish: the home blocks are all as before the
      transaction when the header had not been written, and otherwise every logged block
      has its new contents and no other block has changed. */
  lemma CommitIsAtomic(g: Layout, d: Disk, lh: seq<int>, cache: Cache, k: nat, crashes: seq<nat>)
    requires ValidDisk(g, d) && HeadList(d[g.start]) == []
    requires CanCommit(g, |d|, lh, cache) && k <= CommitLength(lh)
    ensures ValidDisk(g, CommitDisk(g, d, lh, cache, k))
    ensures var e := Recovered(g, CommitDisk(g, d, lh, cache, k), crashes);
      if k <= |lh| then forall b: nat | IsHome(g, |d|, b) :: e[b] == d[b]
      else forall b: nat | IsHome(g, |d|, b) :: e[b] == if b in lh then cache[b] else d[b]
  {
    CommitPrefix(g, d, lh, cache, k);
  }

  /** A commit that ran to its end needs no recovery: the home blocks already hold the
      transaction and the header is empty for the next one. */
  lemma CommitIsComplete(g: Layout, d: Disk, lh: seq<int>, cache: Cache)
    requires ValidDisk(g, d) && HeadList(d[g.start]) == []
    requires CanCommit(g, |d|, lh, cache)
    ensures var e := CommitDisk(g, d, lh, cache, CommitLength(lh));
      && ValidDisk(g, e) && HeadList(e[g.start]) == []
      && forall b: nat | IsHome(g, |d|, b) :: e[b] == if b in lh then cache[b] else d[b]
  {
    CommitPrefix(g, d, lh, cache, CommitLength(lh));
  }

  // ----- Every disk that the loops of log.c pass through, in order

  ghost function LogTrace(g: Layout, d: Disk, lh: seq<int>, cache: Cache, k: nat): (t: seq<Disk>)
    requires 0 < g.size && g.start + g.size <= |d|
    requires CanCommit(g, |d|, lh, cache) && k <= |lh|
    ensures |t| == k && forall i | 0 <= i < k :: t[i] == LogDisk(g, d, lh, cache, i + 1)
  {
    if k == 0 then [] else LogTrace(g, d, lh, cache, k - 1) + [LogDisk(g, d, lh, cache, k)]
  }

  ghost function InstallTrace(g: Layout, d: Disk, lh: seq<int>, k: nat): (t: seq<Disk>)
    requires 0 < g.size && g.start + g.size <= |d|
    requires ValidList(g, |d|, lh) && k <= |lh|
    ensures |t| == k && forall i | 0 <= i < k :: t[i] == InstallDisk(g, d, lh, i + 1)
  {
    if k == 0 then [] else InstallTrace(g, d, lh, k - 1) + [InstallDisk(g, d, lh, k)]
  }

  /** The disks that write_log, write_head, install_trans and write_head leave behind. */
  ghost function CommitTrace(g: Layout, d: Disk, lh: seq<int>, cache: Cache): (t: seq<Disk>)
    requires 0 < g.size && g.start + g.size <= |d|
    requires CanCommit(g, |d|, lh, cache)
    ensures |t| == CommitLength(lh)
  {
    if lh == [] then []
    else
      var h := HeadDisk(g, LogDisk(g, d, lh, cache, |lh|), lh);
      LogTrace(g, d, lh, cache, |lh|) + [h] + InstallTrace(g, h, lh, |lh|)
      + [HeadDisk(g, InstallDisk(g, h, lh, |lh|), [])]
  }

  lemma TraceAppend(t: seq<Disk>, l: seq<Disk>, h: Disk, i: seq<Disk>, e: Disk)
    ensures t + l + [h] + i + [e] == t + (l + [h] + i + [e])
  {
  }

  lemma CommitTraceAt(g: Layout, d: Disk, lh: seq<int>, cache: Cache, i: nat)
    requires 0 < g.size && g.start + g.size <= |d|
    requires CanCommit(g, |d|, lh, cache) && i < CommitLength(lh)
    ensures CommitTrace(g, d, lh, cache)[i] == CommitDisk(g, d, lh, cache, i + 1)
  {
  }

  ghost function RecoverTrace(g: Layout, d: Disk): (t: seq<Disk>)
    requires ValidDisk(g, d)
    ensures |t| == RecoverLength(g, d)
    ensures forall i | 0 <= i < |t| :: t[i] == RecoverDisk(g, d, i + 1)
  {
    var lh := HeadList(d[g.start]);
    InstallTrace(g, d, lh, |lh|) + [HeadDisk(g, InstallDisk(g, d, lh, |lh|), [])]
  }

  /** Whichever disk a crash leaves behind on the way through commit, recovery makes the home
      blocks all old or all new. */
  lemma EveryCrashIsAtomic(g: Layout, d: Disk, lh: seq<int>, cache: Cache, e: Disk, crashes: seq<nat>)
    requires ValidDisk(g, d) && HeadList(d[g.start]) == [] && CanCommit(g, |d|, lh, cache)
    requires e == d || e in CommitTrace(g, d, lh, cache)
    ensures |e| == |d| && ValidDisk(g, e)
    ensures var r := Recovered(g, e, crashes);
      || (forall b: nat | IsHome(g, |d|, b) :: r[b] == d[b])
      || (forall b: nat | IsHome(g, |d|, b) :: r[b] == if b in lh then cache[b] else d[b])
  {
    hide CommitTrace, CommitDisk, CanCommit, HeadList, Recovered, ValidDisk;
    DiskBounds(g, d);
    if e == d {
      CommitIsAtomic(g, d, lh, cache, 0, crashes);
      CommitNotBegun(g, d, lh, cache);
    } else {
      var t := CommitTrace(g, d, lh, cache);
      var i :| 0 <= i < |t| && t[i] == e;
      CommitTraceAt(g, d, lh, cache, i);
      CommitIsAtomic(g, d, lh, cache, i + 1, crashes);
    }
  }

  lemma DiskBounds(g: Layout, d: Disk)
    requires ValidDisk(g, d)
    ensures 0 < g.size && g.start + g.size <= |d|
  {
  }

  lemma CommitNotBegun(g: Layout, d: Disk, lh: seq<int>, cache: Cache)
    requires 0 < g.size && g.start + g.size <= |d| && CanCommit(g, |d|, lh, cache)
    ensures CommitDisk(g, d, lh, cache, 0) == d
  {
  }
}
