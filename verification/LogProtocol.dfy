/** Group commit as a state machine: any number of file-system operations run
    concurrently, the log writes one block at a time, and the machine may crash
    between any two steps. */
module LogProtocol {
  import opened LogSpec

  datatype Event = Event(op: nat, blockno: nat, data: Block)

  type Group = seq<Event>

  /** What the log is doing: `done` counts the block writes already made. */
  datatype Phase =
    | Running
    | Committing(done: nat)
    | Recovering(found: seq<int>, done: nat)

  /** `active` maps each operation between begin_op and end_op to the blocks it has
      logged.  `checked` maps each operation that is inside log_write, past the test and not
      yet past the locked part, to the block it is logging.  The last three fields only
      record history: the operations of the current group, their writes in order, and the
      groups committed before it. */
  datatype State = State(
    g: Layout, base: Disk,
    disk: Disk, lh: seq<int>, cache: Cache, outstanding: int, phase: Phase,
    active: map<nat, set<int>>, checked: map<nat, nat>, nextOp: nat,
    members: set<nat>, pending: Group, groups: seq<Group>)

  /** log_write tests for room before it takes the lock, so it is two steps: other operations
      can log between them.  A test that fails panics.  The table does not shrink while the
      operation is in progress, so the test's several reads amount to one at the first. */
  datatype Action =
    | BeginOp
    | LogCheck(op: nat, blockno: nat)
    | LogRecord(op: nat, blockno: nat, data: Block)
    | EndOp(op: nat)
    | CommitOneWrite
    | FinishCommit
    | Crash
    | RecoverOneWrite
    | FinishRecovery

  function Boot(g: Layout, disk: Disk): (s: State) {
    State(g, disk, disk, [], map[], 0, Running, map[], map[], 0, {}, [], [])
  }

  ghost predicate Enabled(s: State, a: Action) {
    match a
    case BeginOp => s.phase.Running? && MayBegin(|s.lh|, s.outstanding, s.phase.Committing?)
    case LogCheck(op, b) =>
      && op in s.active && op !in s.checked && IsHome(s.g, |s.disk|, b)
      && MayLog(s.g, |s.lh|, s.outstanding)
    case LogRecord(op, b, _) => op in s.active && op in s.checked && s.checked[op] == b
    case EndOp(op) => op in s.active && op !in s.checked && !s.phase.Committing?
    case CommitOneWrite =>
      && s.phase.Committing? && s.phase.done < CommitLength(s.lh)
      && CanWriteOut(s.g, |s.disk|, s.lh, s.cache)
    case FinishCommit => s.phase.Committing? && s.phase.done == CommitLength(s.lh)
    case Crash => 0 < |s.disk| && s.g.start < |s.disk|
    case RecoverOneWrite =>
      && s.phase.Recovering? && s.phase.done <= |s.phase.found|
      && 0 < s.g.size && s.g.start + s.g.size <= |s.disk|
      && ValidList(s.g, |s.disk|, s.phase.found)
    case FinishRecovery => s.phase.Recovering? && s.phase.done == |s.phase.found| + 1
  }

  /** The groups that a crash at this moment keeps. */
  function Durable(s: State): (gs: seq<Group>) {
    if s.phase.Committing? && |s.lh| < s.phase.done then s.groups + [s.pending] else s.groups
  }

  function Apply(s: State, a: Action): (t: State)
    requires Enabled(s, a)
  {
    match a
    case BeginOp =>
      s.(outstanding := s.outstanding + 1, active := s.active[s.nextOp := {}],
         members := s.members + {s.nextOp}, nextOp := s.nextOp + 1)
    case LogCheck(op, b) => s.(checked := s.checked[op := b])
    case LogRecord(op, b, data) =>
      s.(lh := Absorb(s.lh, b), cache := s.cache[b := data],
         active := s.active[op := s.active[op] + {b}], checked := s.checked - {op},
         pending := s.pending + [Event(op, b, data)])
    case EndOp(op) =>
      var left := s.outstanding - 1;
      s.(outstanding := left, active := s.active - {op},
         phase := if left == 0 then Committing(0) else s.phase)
    case CommitOneWrite =>
      var w := CommitWrite(s.g, s.disk, s.lh, s.cache, s.phase.done);
      s.(disk := Put(s.disk, w), cache := PutCached(s.cache, w), phase := Committing(s.phase.done + 1))
    case FinishCommit =>
      s.(phase := Running, lh := [], cache := map[],
         groups := s.groups + [s.pending], pending := [], members := {})
    case Crash =>
      s.(phase := Recovering(HeadList(s.disk[s.g.start]), 0), lh := [], cache := map[],
         outstanding := 0, active := map[], checked := map[],
         groups := Durable(s), pending := [], members := {})
    case RecoverOneWrite =>
      s.(disk := Put(s.disk, RecoverWrite(s.g, s.disk, s.phase.found, s.phase.done)),
         phase := Recovering(s.phase.found, s.phase.done + 1))
    case FinishRecovery => s.(phase := Running)
  }

  ghost predicate CanRun(s: State, actions: seq<Action>)
    decreases |actions|
  {
    actions == [] || (Enabled(s, actions[0]) && CanRun(Apply(s, actions[0]), actions[1..]))
  }

  ghost function Run(s: State, actions: seq<Action>): (t: State)
    requires CanRun(s, actions)
    decreases |actions|
  {
    if actions == [] then s else Run(Apply(s, actions[0]), actions[1..])
  }

  /** Recording a block does not take the table beyond its room. */
  ghost predicate Fits(s: State, a: Action) {
    a.LogRecord? ==> |Absorb(s.lh, a.blockno)| <= Room(s.g)
  }

  ghost predicate RunFits(s: State, actions: seq<Action>)
    requires CanRun(s, actions)
    decreases |actions|
  {
    actions == [] || (Fits(s, actions[0]) && RunFits(Apply(s, actions[0]), actions[1..]))
  }

  // ----- What a history of groups means

  /** The last value each block received in a group. */
  function Overlay(es: Group): (m: map<int, Block>) {
    if es == [] then map[]
    else var e := es[|es| - 1]; Overlay(es[..|es| - 1])[e.blockno := e.data]
  }

  function Patch(d: Disk, m: map<int, Block>): (r: Disk)
    ensures |r| == |d|
    ensures forall i | 0 <= i < |d| :: r[i] == if i in m then m[i] else d[i]
  {
    seq(|d|, i requires 0 <= i < |d| => if i in m then m[i] else d[i])
  }

  /** The base disk with the groups applied one after the other. */
  function Replay(base: Disk, gs: seq<Group>): (d: Disk)
    ensures |d| == |base|
  {
    if gs == [] then base else Patch(Replay(base, gs[..|gs| - 1]), Overlay(gs[|gs| - 1]))
  }

  // ----- The invariant

  /** The disk means the base disk with these groups applied. */
  ghost predicate Means(g: Layout, base: Disk, d: Disk, gs: seq<Group>) {
    && |d| == |base|
    && ValidDisk(g, d)
    && forall b: nat | IsHome(g, |base|, b) :: Logical(g, d, b) == Replay(base, gs)[b]
  }

  ghost predicate DiskInv(s: State) {
    Means(s.g, s.base, s.disk, Durable(s))
  }

  /** The in-memory log holds exactly the current group. */
  ghost predicate MemoryInv(s: State) {
    && ValidList(s.g, |s.base|, s.lh)
    && s.cache == Overlay(s.pending)
    && (forall b :: b in s.cache <==> b in s.lh)
    && s.outstanding == |s.active|
  }

  /** Only operations in progress are inside log_write, on home blocks. */
  ghost predicate CheckInv(s: State) {
    s.checked.Keys <= s.active.Keys && forall op | op in s.checked :: IsHome(s.g, |s.base|, s.checked[op])
  }

  ghost predicate PhaseInv(s: State)
    requires ValidDisk(s.g, s.disk)
  {
    match s.phase
    case Running => HeadList(s.disk[s.g.start]) == []
    case Committing(k) => s.active.Keys == {} && CommitProgress(s.g, s.disk, s.lh, s.cache, k)
    case Recovering(found, k) =>
      && s.active.Keys == {} && s.lh == [] && s.pending == []
      && RecoverProgress(s.g, s.disk, found, k)
  }

  ghost function Ops(es: Group): (r: set<nat>) {
    set e | e in es :: e.op
  }

  /** No operation has writes in two groups. */
  ghost predicate GroupInv(s: State) {
    && s.active.Keys <= s.members
    && (forall m | m in s.members :: m < s.nextOp)
    && Ops(s.pending) <= s.members
    && (forall i | 0 <= i < |s.groups| ::
          Ops(s.groups[i]) !! s.members && forall m | m in Ops(s.groups[i]) :: m < s.nextOp)
    && (forall i, j | 0 <= i < j < |s.groups| :: Ops(s.groups[i]) !! Ops(s.groups[j]))
  }

  ghost predicate Inv(s: State) {
    DiskInv(s) && MemoryInv(s) && CheckInv(s) && PhaseInv(s) && GroupInv(s)
  }

  lemma BootInv(g: Layout, disk: Disk)
    requires ValidDisk(g, disk) && HeadList(disk[g.start]) == []
    ensures Inv(Boot(g, disk))
  {
  }

  lemma LogRecordKeepsGroups(s: State, op: nat, b: nat, data: Block)
    requires GroupInv(s) && Enabled(s, LogRecord(op, b, data))
    ensures GroupInv(Apply(s, LogRecord(op, b, data)))
  {
    var t := Apply(s, LogRecord(op, b, data));
    assert t.pending == s.pending + [Event(op, b, data)];
    assert Ops(t.pending) == Ops(s.pending) + {op};
  }

  lemma FinishCommitKeepsGroups(s: State)
    requires GroupInv(s) && Enabled(s, FinishCommit)
    ensures s.phase.Committing? && s.active == map[] ==> GroupInv(Apply(s, FinishCommit))
  {
  }

  lemma StepKeepsGroups(s: State, a: Action)
    requires Inv(s) && Enabled(s, a)
    ensures GroupInv(Apply(s, a))
  {
    hide DiskInv, MemoryInv, ValidDisk, CommitProgress, RecoverProgress, Ops;
    match a
    case LogRecord(op, b, data) => LogRecordKeepsGroups(s, op, b, data);
    case FinishCommit => FinishCommitKeepsGroups(s);
    case Crash => CrashKeepsGroups(s);
    case FinishRecovery =>
    case _ => QuietKeepsGroups(s, a);
  }

  /** A crash closes the group that was being committed, or drops it. */
  lemma CrashKeepsGroups(s: State)
    requires GroupInv(s) && Enabled(s, Crash)
    ensures GroupInv(Apply(s, Crash))
  {
    assert Ops([]) == {};
  }

  /** Steps that leave the groups alone. */
  lemma QuietKeepsGroups(s: State, a: Action)
    requires GroupInv(s) && Enabled(s, a)
    requires a.BeginOp? || a.LogCheck? || a.EndOp? || a.CommitOneWrite? || a.RecoverOneWrite?
    ensures GroupInv(Apply(s, a))
  {
    hide Ops;
  }

  /** While an operation is in progress the log is neither committing nor recovering,
      so the panic in end_op cannot happen. */
  lemma ActiveMeansRunning(s: State, op: nat)
    requires Inv(s) && op in s.active
    ensures s.phase.Running? && 1 <= s.outstanding
  {
    assert |s.active| > 0;
  }

  /** begin_op admits an operation exactly if the table has room for MAXOPBLOCKS more blocks
      for each operation in progress and for the new one. */
  lemma BeginsIff(s: State)
    requires Inv(s) && s.phase.Running?
    ensures Enabled(s, BeginOp) <==> |s.lh| + (|s.active| + 1) * MAXOPBLOCKS <= LOGSIZE
  {
    hide DiskInv, CheckInv, PhaseInv, GroupInv, ValidList, Overlay;
  }

  /** A crash can happen in every state, and nothing else is ever stuck: a commit and a recovery
      have a next step until they are finished, an operation past the test can record its block,
      and every other operation in progress can end. */
  lemma NeverStuck(s: State)
    requires Inv(s)
    ensures Enabled(s, Crash)
    ensures s.phase.Committing? ==> Enabled(s, CommitOneWrite) || Enabled(s, FinishCommit)
    ensures s.phase.Recovering? ==> Enabled(s, RecoverOneWrite) || Enabled(s, FinishRecovery)
    ensures forall op, data | op in s.checked :: Enabled(s, LogRecord(op, s.checked[op], data))
    ensures forall op | op in s.active && op !in s.checked :: Enabled(s, EndOp(op))
  {
    hide DiskInv, MemoryInv, PhaseInv, GroupInv, ValidDisk, CanWriteOut, ValidList;
    DiskGoesOn(s);
    forall op | op in s.active && op !in s.checked
      ensures Enabled(s, EndOp(op))
    {
      ActiveMeansRunning(s, op);
    }
  }

  lemma DiskGoesOn(s: State)
    requires Inv(s)
    ensures Enabled(s, Crash)
    ensures s.phase.Committing? ==> Enabled(s, CommitOneWrite) || Enabled(s, FinishCommit)
    ensures s.phase.Recovering? ==> Enabled(s, RecoverOneWrite) || Enabled(s, FinishRecovery)
  {
    hide MemoryInv, GroupInv, CheckInv, CanCommit, HeadList, ValidList, CanWriteOut;
    if s.phase.Committing? {
      CommitBounds(s.g, s.disk, s.lh, s.cache, s.phase.done);
      CommitWritesOut(s.g, |s.disk|, s.lh, s.cache);
    }
  }

  // Memory

  lemma AbsorbKeepsValid(g: Layout, capacity: nat, lh: seq<int>, b: int)
    requires ValidList(g, capacity, lh) && IsHome(g, capacity, b)
    requires |Absorb(lh, b)| <= Room(g)
    ensures ValidList(g, capacity, Absorb(lh, b))
  {
  }

  lemma LogRecordKeepsMemory(s: State, op: nat, b: nat, data: Block)
    requires MemoryInv(s) && CheckInv(s) && Enabled(s, LogRecord(op, b, data)) && Fits(s, LogRecord(op, b, data))
    ensures MemoryInv(Apply(s, LogRecord(op, b, data)))
  {
    var t := Apply(s, LogRecord(op, b, data));
    AbsorbKeepsValid(s.g, |s.base|, s.lh, b);
    assert t.pending[..|t.pending| - 1] == s.pending;
    assert t.active.Keys == s.active.Keys;
  }

  lemma BeginOpKeepsMemory(s: State)
    requires MemoryInv(s) && Enabled(s, BeginOp) && s.nextOp !in s.active
    ensures MemoryInv(Apply(s, BeginOp))
  {
    hide ValidList, Overlay, MayBegin;
    OneMoreActive(s.active, s.nextOp);
  }

  lemma OneMoreActive(active: map<nat, set<int>>, op: nat)
    requires op !in active
    ensures |active[op := {}]| == |active| + 1
  {
    assert active[op := {}].Keys == active.Keys + {op};
  }

  lemma EndOpKeepsMemory(s: State, op: nat)
    requires MemoryInv(s) && Enabled(s, EndOp(op))
    ensures MemoryInv(Apply(s, EndOp(op)))
  {
    assert Apply(s, EndOp(op)).active.Keys == s.active.Keys - {op};
  }

  lemma WriteOutKeepsCache(s: State)
    requires DiskInv(s) && MemoryInv(s) && PhaseInv(s) && Enabled(s, CommitOneWrite)
    ensures Apply(s, CommitOneWrite).cache == s.cache
  {
    CachedAreHome(s);
    CommitKeepsCache(s.g, s.disk, s.lh, s.cache, s.phase.done);
  }

  lemma CachedAreHome(s: State)
    requires MemoryInv(s)
    ensures forall b | b in s.cache :: IsHome(s.g, |s.base|, b)
  {
    hide Overlay;
  }

  lemma StepKeepsMemory(s: State, a: Action)
    requires Inv(s) && Enabled(s, a) && Fits(s, a)
    ensures MemoryInv(Apply(s, a))
  {
    hide CanWriteOut;
    match a
    case BeginOp => BeginOpKeepsMemory(s);
    case LogRecord(op, b, data) => LogRecordKeepsMemory(s, op, b, data);
    case EndOp(op) => EndOpKeepsMemory(s, op);
    case CommitOneWrite => WriteOutKeepsCache(s);
    case FinishCommit => assert Overlay([]) == map[];
    case Crash => assert Overlay([]) == map[];
    case _ =>
  }

  lemma StepKeepsCheck(s: State, a: Action)
    requires Inv(s) && Enabled(s, a)
    ensures CheckInv(Apply(s, a))
  {
    hide MemoryInv, PhaseInv, GroupInv, CanWriteOut, ValidList;
    match a
    case EndOp(op) => assert Apply(s, a).active.Keys == s.active.Keys - {op};
    case _ =>
  }

  // Disk

  lemma ReplayOneMore(base: Disk, gs: seq<Group>, es: Group)
    ensures Replay(base, gs + [es]) == Patch(Replay(base, gs), Overlay(es))
  {
    assert (gs + [es])[..|gs|] == gs;
  }

  /** The header write makes the pending group durable, all of it at once. */
  lemma HeaderWriteCommits(g: Layout, base: Disk, d: Disk, gs: seq<Group>, es: Group, lh: seq<int>)
    requires Means(g, base, d, gs) && lh != []
    requires forall b :: b in Overlay(es) <==> b in lh
    requires CommitProgress(g, d, lh, Overlay(es), |lh|)
    ensures Means(g, base, Put(d, CommitWrite(g, d, lh, Overlay(es), |lh|)), gs + [es])
  {
    HeaderStep(g, d, lh, Overlay(es));
    ReplayOneMore(base, gs, es);
  }

  lemma SameMeaningMeans(g: Layout, base: Disk, d: Disk, e: Disk, gs: seq<Group>)
    requires Means(g, base, d, gs) && ValidDisk(g, e) && SameMeaning(g, d, e)
    ensures Means(g, base, e, gs)
  {
  }

  lemma OtherWriteCommits(g: Layout, base: Disk, d: Disk, gs: seq<Group>, lh: seq<int>, cache: Cache, k: nat)
    requires Means(g, base, d, gs)
    requires CommitProgress(g, d, lh, cache, k) && k < CommitLength(lh) && k != |lh|
    ensures Means(g, base, Put(d, CommitWrite(g, d, lh, cache, k)), gs)
  {
    CommitStep(g, d, lh, cache, k);
    SameMeaningMeans(g, base, d, Put(d, CommitWrite(g, d, lh, cache, k)), gs);
  }

  lemma CommitOneWriteKeepsProgress(s: State)
    requires DiskInv(s) && PhaseInv(s) && Enabled(s, CommitOneWrite)
    ensures CommitProgress(s.g, Apply(s, CommitOneWrite).disk, s.lh, s.cache, s.phase.done + 1)
  {
    CommitStep(s.g, s.disk, s.lh, s.cache, s.phase.done);
  }

  lemma CommitOneWriteKeepsDisk(s: State)
    requires DiskInv(s) && MemoryInv(s) && PhaseInv(s) && Enabled(s, CommitOneWrite)
    ensures DiskInv(Apply(s, CommitOneWrite))
  {
    if s.phase.done == |s.lh| {
      HeaderWriteCommits(s.g, s.base, s.disk, s.groups, s.pending, s.lh);
    } else {
      OtherWriteCommits(s.g, s.base, s.disk, Durable(s), s.lh, s.cache, s.phase.done);
    }
  }

  /** A group without writes changes nothing. */
  lemma EmptyCommit(s: State)
    requires MemoryInv(s) && s.lh == []
    ensures Replay(s.base, s.groups + [s.pending]) == Replay(s.base, s.groups)
  {
    ReplayOneMore(s.base, s.groups, s.pending);
    assert forall b :: b !in Overlay(s.pending);
  }

  lemma FinishCommitKeepsDisk(s: State)
    requires Inv(s) && Enabled(s, FinishCommit)
    ensures DiskInv(Apply(s, FinishCommit))
  {
    if s.lh == [] {
      EmptyCommit(s);
    }
  }

  lemma StepKeepsDisk(s: State, a: Action)
    requires Inv(s) && Enabled(s, a)
    ensures DiskInv(Apply(s, a))
  {
    match a
    case CommitOneWrite => CommitOneWriteKeepsDisk(s);
    case FinishCommit => FinishCommitKeepsDisk(s);
    case RecoverOneWrite =>
      RecoverStep(s.g, s.disk, s.phase.found, s.phase.done);
      SameMeaningMeans(s.g, s.base, s.disk, Apply(s, a).disk, Durable(s));
    case LogRecord(op, _, _) =>
      ActiveMeansRunning(s, op);
    case _ =>
  }

  // Phase

  lemma EndOpKeepsPhase(s: State, op: nat)
    requires Inv(s) && Enabled(s, EndOp(op))
    ensures PhaseInv(Apply(s, EndOp(op)))
  {
    var t := Apply(s, EndOp(op));
    ActiveMeansRunning(s, op);
    EndOpKeepsMemory(s, op);
    assert |t.active.Keys| == t.outstanding;
  }

  /** Steps of operations, which happen only while the log is running. */
  lemma OperationKeepsPhase(s: State, a: Action)
    requires Inv(s) && Enabled(s, a) && (a.BeginOp? || a.LogCheck? || a.LogRecord? || a.EndOp?)
      && ValidDisk(s.g, Apply(s, a).disk)
    ensures PhaseInv(Apply(s, a))
  {
    hide DiskInv, GroupInv, ValidDisk, HeadList, CommitProgress;
    match a
    case BeginOp =>
    case LogCheck(op, _) => ActiveMeansRunning(s, op);
    case LogRecord(op, _, _) => ActiveMeansRunning(s, op);
    case EndOp(op) => EndOpKeepsPhase(s, op);
  }

  lemma CommitOneWriteKeepsPhase(s: State)
    requires Inv(s) && Enabled(s, CommitOneWrite) && ValidDisk(s.g, Apply(s, CommitOneWrite).disk)
    ensures PhaseInv(Apply(s, CommitOneWrite))
  {
    hide MemoryInv, GroupInv, ValidDisk, CommitProgress, CanWriteOut;
    CommitOneWriteKeepsProgress(s);
    WriteOutKeepsCache(s);
  }

  lemma FinishCommitKeepsPhase(s: State)
    requires Inv(s) && Enabled(s, FinishCommit) && ValidDisk(s.g, Apply(s, FinishCommit).disk)
    ensures PhaseInv(Apply(s, FinishCommit))
  {
    hide MemoryInv, GroupInv, DiskInv, HeadList;
  }

  lemma CrashKeepsPhase(s: State)
    requires Inv(s) && Enabled(s, Crash) && ValidDisk(s.g, Apply(s, Crash).disk)
    ensures PhaseInv(Apply(s, Crash))
  {
    hide MemoryInv, GroupInv, DiskInv, HeadList;
  }

  lemma RecoveryKeepsPhase(s: State, a: Action)
    requires Inv(s) && Enabled(s, a) && (a.RecoverOneWrite? || a.FinishRecovery?) && ValidDisk(s.g, Apply(s, a).disk)
    ensures PhaseInv(Apply(s, a))
  {
    hide MemoryInv, GroupInv, DiskInv, HeadList, SameMeaning;
    if a.RecoverOneWrite? {
      RecoverStep(s.g, s.disk, s.phase.found, s.phase.done);
    }
  }

  lemma StepKeepsPhase(s: State, a: Action)
    requires Inv(s) && Enabled(s, a) && ValidDisk(s.g, Apply(s, a).disk)
    ensures PhaseInv(Apply(s, a))
  {
    hide Inv, PhaseInv, ValidDisk, Enabled, Apply;
    match a
    case CommitOneWrite => CommitOneWriteKeepsPhase(s);
    case FinishCommit => FinishCommitKeepsPhase(s);
    case Crash => CrashKeepsPhase(s);
    case RecoverOneWrite => RecoveryKeepsPhase(s, a);
    case FinishRecovery => RecoveryKeepsPhase(s, a);
    case _ => OperationKeepsPhase(s, a);
  }

  /** Every step keeps the invariant, as long as the table does not overflow. */
  lemma StepKeepsInv(s: State, a: Action)
    requires Inv(s) && Enabled(s, a) && Fits(s, a)
    ensures Inv(Apply(s, a))
  {
    hide Enabled, Apply, Fits, DiskInv, MemoryInv, CheckInv, PhaseInv, GroupInv;
    DiskIsValid(s, a);
    StepKeepsGroups(s, a);
    StepKeepsCheck(s, a);
    StepKeepsMemory(s, a);
    StepKeepsDisk(s, a);
    StepKeepsPhase(s, a);
  }

  lemma DiskIsValid(s: State, a: Action)
    requires Inv(s) && Enabled(s, a)
    ensures ValidDisk(s.g, Apply(s, a).disk)
  {
    hide MemoryInv, CheckInv, PhaseInv, GroupInv, CanWriteOut;
    StepKeepsDisk(s, a);
  }

  /** Once durable, a group stays durable and in place. */
  lemma StepKeepsDurable(s: State, a: Action)
    requires Inv(s) && Enabled(s, a)
    ensures Durable(s) <= Durable(Apply(s, a))
  {
    match a
    case LogRecord(op, _, _) => ActiveMeansRunning(s, op);
    case _ =>
  }

  lemma {:induction false} RunKeepsInv(s: State, actions: seq<Action>)
    requires Inv(s) && CanRun(s, actions) && RunFits(s, actions)
    ensures Inv(Run(s, actions))
    ensures Durable(s) <= Durable(Run(s, actions))
    ensures Run(s, actions).g == s.g && Run(s, actions).base == s.base
    decreases |actions|
  {
    if actions != [] {
      StepKeepsInv(s, actions[0]);
      StepKeepsDurable(s, actions[0]);
      RunKeepsInv(Apply(s, actions[0]), actions[1..]);
    }
  }

  // ----- The steps that one call of end_op takes

  function CommitSteps(m: nat): (actions: seq<Action>)
    ensures |actions| == m
  {
    if m == 0 then [] else [CommitOneWrite] + CommitSteps(m - 1)
  }

  /** Writing one block after another passes through the disks of CommitDisk. */
  lemma {:induction false} CommitRun(s: State, d: Disk, k: nat, m: nat)
    requires s.phase == Committing(k) && ValidDisk(s.g, d) && HeadList(d[s.g.start]) == []
    requires forall b | b in s.cache :: IsHome(s.g, |d|, b)
    requires CanCommit(s.g, |d|, s.lh, s.cache) && k + m <= CommitLength(s.lh)
    requires s.disk == CommitDisk(s.g, d, s.lh, s.cache, k)
    ensures CanRun(s, CommitSteps(m))
    ensures Run(s, CommitSteps(m))
      == s.(disk := CommitDisk(s.g, d, s.lh, s.cache, k + m), phase := Committing(k + m))
    decreases m
  {
    hide CommitDisk, CommitWrite, CanCommit, CanWriteOut, ValidDisk, CommitProgress, PutCached;
    DiskBounds(s.g, d);
    if m > 0 {
      CommitDiskSteps(s.g, d, s.lh, s.cache, k);
      CommitWritesOut(s.g, |d|, s.lh, s.cache);
      CommitPrefix(s.g, d, s.lh, s.cache, k);
      CommitKeepsCache(s.g, s.disk, s.lh, s.cache, k);
      var t := Apply(s, CommitOneWrite);
      CommitRun(t, d, k + 1, m - 1);
      assert CommitSteps(m)[1..] == CommitSteps(m - 1);
    }
  }

  /** end_op by the last operation: it leaves, the log is written out, the group is closed. */
  function EndRun(op: nat, lh: seq<int>): (actions: seq<Action>) {
    [EndOp(op)] + (CommitSteps(CommitLength(lh)) + [FinishCommit])
  }

  lemma {:induction false} RunTwo(s: State, xs: seq<Action>, ys: seq<Action>)
    requires CanRun(s, xs) && CanRun(Run(s, xs), ys)
    ensures CanRun(s, xs + ys) && Run(s, xs + ys) == Run(Run(s, xs), ys)
    decreases |xs|
  {
    hide Enabled, Apply;
    if xs == [] {
      assert xs + ys == ys;
    } else {
      RunTwo(Apply(s, xs[0]), xs[1..], ys);
      assert (xs + ys)[1..] == xs[1..] + ys;
    }
  }

  lemma EmptyHeader(s: State)
    requires Inv(s) && s.phase.Running?
    ensures |s.disk| == |s.base| && ValidDisk(s.g, s.disk) && HeadList(s.disk[s.g.start]) == []
  {
  }

  lemma EndOpRun(s: State, op: nat)
    requires Inv(s) && op in s.active && op !in s.checked && s.outstanding == 1
    requires 0 < s.g.size && s.g.start + s.g.size <= |s.disk| && CanCommit(s.g, |s.disk|, s.lh, s.cache)
    ensures CanRun(s, EndRun(op, s.lh))
    ensures var t := Run(s, EndRun(op, s.lh));
      && t.g == s.g && t.lh == [] && t.cache == map[] && t.outstanding == 0 && t.phase == Running
      && t.disk == CommitDisk(s.g, s.disk, s.lh, s.cache, CommitLength(s.lh))
      && t.groups == s.groups + [s.pending]
  {
    hide DiskInv, MemoryInv, GroupInv, CommitDisk, CanCommit, HeadList;
    ActiveMeansRunning(s, op);
    CachedAreHome(s);
    EmptyHeader(s);
    var n := CommitLength(s.lh);
    var t := Apply(s, EndOp(op));
    NothingCommitted(s.g, s.disk, s.lh, s.cache);
    CommitRun(t, s.disk, 0, n);
    var u := Run(t, CommitSteps(n));
    assert [FinishCommit][1..] == [];
    assert CanRun(Apply(u, FinishCommit), []);
    assert CanRun(u, [FinishCommit]) && Run(u, [FinishCommit]) == Apply(u, FinishCommit);
    RunTwo(t, CommitSteps(n), [FinishCommit]);
    assert EndRun(op, s.lh)[1..] == CommitSteps(n) + [FinishCommit];
  }

  /** A commit unpins every pinned buffer. */
  lemma CacheIsTable(s: State)
    requires Inv(s)
    ensures s.cache.Keys - (set b | b in s.lh) == {}
  {
    hide DiskInv, PhaseInv, GroupInv, Overlay;
    forall b | b in s.cache.Keys
      ensures b in s.lh
    {
      assert b in s.cache;
    }
  }

  lemma NothingCommitted(g: Layout, d: Disk, lh: seq<int>, cache: Cache)
    requires 0 < g.size && g.start + g.size <= |d| && CanCommit(g, |d|, lh, cache)
    ensures CommitDisk(g, d, lh, cache, 0) == d
  {
  }

  /** Recovery, interrupted any number of times, gives the initial home blocks with the
      durable groups applied in order; and no operation is split between groups. */
  ghost predicate RecoversToReplay(g: Layout, disk: Disk, t: State, crashes: seq<nat>) {
    && ValidDisk(g, t.disk) && |t.disk| == |disk|
    && (forall b: nat | IsHome(g, |disk|, b) ::
          Recovered(g, t.disk, crashes)[b] == Replay(disk, Durable(t))[b])
    && forall i, j | 0 <= i < j < |Durable(t)| :: Ops(Durable(t)[i]) !! Ops(Durable(t)[j])
  }

  /** The whole log, over every interleaving in which the table does not overflow. */
  lemma FittingRunRecovers(g: Layout, disk: Disk, actions: seq<Action>, crashes: seq<nat>)
    requires ValidDisk(g, disk) && HeadList(disk[g.start]) == []
    requires CanRun(Boot(g, disk), actions) && RunFits(Boot(g, disk), actions)
    ensures RecoversToReplay(g, disk, Run(Boot(g, disk), actions), crashes)
  {
    hide Run, CanRun, RunFits;
    BootInv(g, disk);
    RunKeepsInv(Boot(g, disk), actions);
    NotSplit(Run(Boot(g, disk), actions));
  }

  lemma NotSplit(s: State)
    requires GroupInv(s)
    ensures forall i, j | 0 <= i < j < |Durable(s)| :: Ops(Durable(s)[i]) !! Ops(Durable(s)[j])
  {
    hide Ops;
  }

  /** A reader always sees every earlier write of every operation: the cached copy if
      there is one and the disk otherwise, also in the middle of a commit, and only not
      while a recovery is going on. */
  lemma ReadsSeeAllWrites(s: State, b: nat)
    requires Inv(s) && !s.phase.Recovering? && IsHome(s.g, |s.base|, b)
    ensures (if b in s.cache then s.cache[b] else s.disk[b]) == Replay(s.base, s.groups + [s.pending])[b]
  {
    ReplayOneMore(s.base, s.groups, s.pending);
    if b !in s.cache {
      NotLogged(s, b);
    }
  }

  lemma NotLogged(s: State, b: nat)
    requires Inv(s) && !s.phase.Recovering? && IsHome(s.g, |s.base|, b) && b !in s.cache
    ensures s.disk[b] == Logical(s.g, s.disk, b)
  {
    assert b !in s.lh;
  }

  /** Durability: when the end_op that commits returns, its whole group is durable, and
      it stays so through every later step, crashes included. */
  lemma ClosedGroupStays(s: State, actions: seq<Action>)
    requires Inv(s) && Enabled(s, FinishCommit)
    requires CanRun(Apply(s, FinishCommit), actions) && RunFits(Apply(s, FinishCommit), actions)
    ensures s.outstanding == 0
    ensures s.groups + [s.pending] <= Durable(Run(Apply(s, FinishCommit), actions))
  {
    StepKeepsInv(s, FinishCommit);
    RunKeepsInv(Apply(s, FinishCommit), actions);
  }
}
