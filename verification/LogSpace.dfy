/** Space in the log: what the reservation in begin_op guarantees about the table, and for
    which log sizes that makes the log crash safe. */
module LogSpace {
  import opened LogSpec
  import opened LogProtocol

  /** Blocks that the operations below `n` may still log, at MAXOPBLOCKS each. */
  ghost function Unused(active: map<nat, set<int>>, n: nat): (r: int) {
    if n == 0 then 0
    else Unused(active, n - 1) + if n - 1 in active then MAXOPBLOCKS - |active[n - 1]| else 0
  }

  ghost predicate Distinct(lh: seq<int>) {
    forall i, j | 0 <= i < j < |lh| :: lh[i] != lh[j]
  }

  ghost predicate SpaceInv(s: State) {
    && (forall op | op in s.active ::
          op < s.nextOp && |s.active[op]| <= MAXOPBLOCKS && forall b | b in s.active[op] :: b in s.lh)
    && s.outstanding == |s.active|
    && (s.phase.Running? || s.active == map[])
    && s.checked.Keys <= s.active.Keys && (forall op | op in s.checked :: 1 < s.g.size)
    && Distinct(s.lh)
    && |s.lh| + Unused(s.active, s.nextOp) <= LOGSIZE
  }

  /** The assumption on file-system operations: none logs more than MAXOPBLOCKS
      distinct blocks. */
  ghost predicate WithinLimit(s: State, a: Action) {
    a.LogRecord? && a.op in s.active ==> |s.active[a.op] + {a.blockno}| <= MAXOPBLOCKS
  }

  lemma {:induction false} UnusedBound(active: map<nat, set<int>>, n: nat)
    requires forall op | op in active :: |active[op]| <= MAXOPBLOCKS
    ensures 0 <= Unused(active, n) <= MAXOPBLOCKS * |set op | op in active && op < n|
  {
    if n > 0 {
      UnusedBound(active, n - 1);
      var below := set op | op in active && op < n - 1;
      assert (set op | op in active && op < n) == if n - 1 in active then below + {n - 1} else below;
    } else {
      assert (set op | op in active && op < n) == {};
    }
  }

  /** Changing one operation changes the total by that operation's share. */
  lemma {:induction false} UnusedChanges(a: map<nat, set<int>>, c: map<nat, set<int>>, op: nat, n: nat)
    requires a.Keys - {op} == c.Keys - {op}
    requires forall k | k in a.Keys * c.Keys && k != op :: c[k] == a[k]
    ensures Unused(c, n) - Unused(a, n) == if op < n then Share(c, op) - Share(a, op) else 0
  {
    if n > 0 {
      UnusedChanges(a, c, op, n - 1);
      assert n - 1 != op ==> (n - 1 in a <==> n - 1 in a.Keys - {op}) && (n - 1 in c <==> n - 1 in c.Keys - {op});
    }
  }

  ghost function Share(active: map<nat, set<int>>, op: nat): (r: int) {
    if op in active then MAXOPBLOCKS - |active[op]| else 0
  }

  lemma {:induction false} UnusedNone(n: nat)
    ensures Unused(map[], n) == 0
  {
    if n > 0 {
      UnusedNone(n - 1);
    }
  }

  lemma BeginOpKeepsSpace(s: State)
    requires SpaceInv(s) && Enabled(s, BeginOp)
    ensures SpaceInv(Apply(s, BeginOp))
  {
    hide Unused, Distinct;
    OneMoreActive(s.active, s.nextOp);
    OneMoreShare(s.active, s.nextOp);
  }

  /** A new operation adds a whole share to what the others may still log. */
  lemma OneMoreShare(active: map<nat, set<int>>, op: nat)
    requires forall k | k in active :: k < op && |active[k]| <= MAXOPBLOCKS
    ensures Unused(active, op) <= MAXOPBLOCKS * |active|
    ensures Unused(active[op := {}], op + 1) == Unused(active, op) + MAXOPBLOCKS
  {
    UnusedBound(active, op);
    assert (set k | k in active && k < op) == active.Keys;
    UnusedChanges(active, active[op := {}], op, op);
  }

  lemma AbsorbDistinct(lh: seq<int>, b: int)
    requires Distinct(lh)
    ensures Distinct(Absorb(lh, b)) && (forall x | x in lh || x == b :: x in Absorb(lh, b))
    ensures |Absorb(lh, b)| == if b in lh then |lh| else |lh| + 1
  {
  }

  /** A block more in what one operation has logged is a block less in what it may log. */
  lemma OneMoreLogged(active: map<nat, set<int>>, op: nat, b: int, n: nat)
    requires op in active && op < n
    ensures var c := active[op := active[op] + {b}];
      c.Keys == active.Keys && Unused(c, n) == Unused(active, n) - if b in active[op] then 0 else 1
  {
    var c := active[op := active[op] + {b}];
    UnusedChanges(active, c, op, n);
    if b in active[op] {
      assert active[op] + {b} == active[op];
    }
  }

  lemma LogRecordKeepsSpace(s: State, a: Action)
    requires SpaceInv(s) && a.LogRecord? && Enabled(s, a) && WithinLimit(s, a)
    ensures SpaceInv(Apply(s, a))
  {
    hide Unused, Distinct, Absorb;
    AbsorbDistinct(s.lh, a.blockno);
    OneMoreLogged(s.active, a.op, a.blockno, s.nextOp);
    assert a.blockno in s.active[a.op] ==> a.blockno in s.lh;
  }

  lemma EndOpKeepsSpace(s: State, op: nat)
    requires SpaceInv(s) && Enabled(s, EndOp(op))
    ensures SpaceInv(Apply(s, EndOp(op)))
  {
    var t := Apply(s, EndOp(op));
    assert t.active.Keys == s.active.Keys - {op};
    UnusedChanges(s.active, t.active, op, s.nextOp);
  }

  /** If every operation keeps to MAXOPBLOCKS, then the blocks logged together with the
      blocks the active operations may still log never exceed LOGSIZE, whatever the others do
      between the test in log_write and the locked part. */
  lemma StepKeepsSpace(s: State, a: Action)
    requires SpaceInv(s) && Enabled(s, a) && WithinLimit(s, a)
    ensures SpaceInv(Apply(s, a)) && Apply(s, a).g == s.g
  {
    match a
    case BeginOp => BeginOpKeepsSpace(s);
    case LogRecord(_, _, _) => LogRecordKeepsSpace(s, a);
    case EndOp(op) => EndOpKeepsSpace(s, op);
    case FinishCommit => UnusedNone(s.nextOp);
    case Crash => UnusedNone(s.nextOp);
    case _ =>
  }

  ghost predicate RunWithinLimit(s: State, actions: seq<Action>)
    requires CanRun(s, actions)
    decreases |actions|
  {
    actions == []
    || (WithinLimit(s, actions[0]) && RunWithinLimit(Apply(s, actions[0]), actions[1..]))
  }

  lemma {:induction false} RunKeepsSpace(s: State, actions: seq<Action>)
    requires SpaceInv(s) && CanRun(s, actions) && RunWithinLimit(s, actions)
    ensures SpaceInv(Run(s, actions)) && Run(s, actions).g == s.g
    decreases |actions|
  {
    hide SpaceInv, Enabled, Apply, WithinLimit;
    if actions != [] {
      StepKeepsSpace(s, actions[0]);
      RunKeepsSpace(Apply(s, actions[0]), actions[1..]);
    }
  }

  lemma {:induction false} UnusedCoversShare(active: map<nat, set<int>>, n: nat, op: nat)
    requires forall k | k in active :: |active[k]| <= MAXOPBLOCKS
    requires op < n
    ensures Share(active, op) <= Unused(active, n)
  {
    UnusedBound(active, n - 1);
    if op < n - 1 {
      UnusedCoversShare(active, n - 1, op);
    }
  }

  /** The log area has room for LOGSIZE data blocks beside the header, or for none at all. */
  predicate Roomy(g: Layout) {
    g.size <= 1 || LOGSIZE < g.size
  }

  /** In a roomy log the reservation covers the append, however many operations have passed the
      test at the same moment. */
  lemma ReservationCovers(s: State, a: Action)
    requires SpaceInv(s) && Enabled(s, a) && WithinLimit(s, a) && Roomy(s.g)
    ensures Fits(s, a)
  {
    UnusedBound(s.active, s.nextOp);
    if a.LogRecord? && a.blockno !in s.lh {
      var logged := s.active[a.op];
      assert |logged + {a.blockno}| == |logged| + 1;
      UnusedCoversShare(s.active, s.nextOp, a.op);
    }
  }

  lemma {:induction false} RunInLimitFits(s: State, actions: seq<Action>)
    requires SpaceInv(s) && CanRun(s, actions) && RunWithinLimit(s, actions) && Roomy(s.g)
    ensures RunFits(s, actions)
    decreases |actions|
  {
    hide SpaceInv, Enabled, Apply, WithinLimit, Fits;
    if actions != [] {
      StepKeepsSpace(s, actions[0]);
      ReservationCovers(s, actions[0]);
      RunInLimitFits(Apply(s, actions[0]), actions[1..]);
    }
  }

  /** The whole log.  In a roomy log, with operations that keep to their limit: take any
      interleaving, stop it at any step, crash any number of times while recovering, recover.
      The home blocks are then the initial disk with the durable groups applied in order, and
      no operation is split between groups. */
  lemma RecoveredDiskIsReplay(g: Layout, disk: Disk, actions: seq<Action>, crashes: seq<nat>)
    requires ValidDisk(g, disk) && HeadList(disk[g.start]) == [] && Roomy(g)
    requires CanRun(Boot(g, disk), actions) && RunWithinLimit(Boot(g, disk), actions)
    ensures RecoversToReplay(g, disk, Run(Boot(g, disk), actions), crashes)
  {
    hide Run, CanRun, RunWithinLimit, RecoversToReplay;
    EmptyTable(g, disk);
    RunInLimitFits(Boot(g, disk), actions);
    FittingRunRecovers(g, disk, actions, crashes);
  }

  /** Durability in a roomy log: when the end_op that commits returns, no operation is in
      progress, its whole group is durable, and it stays so through every later run within the
      limits, crashes included. */
  lemma GroupDurableWhenEndOpReturns(s: State, actions: seq<Action>)
    requires Inv(s) && SpaceInv(s) && Roomy(s.g) && Enabled(s, FinishCommit)
    requires CanRun(Apply(s, FinishCommit), actions) && RunWithinLimit(Apply(s, FinishCommit), actions)
    ensures s.outstanding == 0
    ensures s.groups + [s.pending] <= Durable(Run(Apply(s, FinishCommit), actions))
  {
    hide Run, CanRun, RunWithinLimit, RunFits, Inv, SpaceInv;
    StepKeepsSpace(s, FinishCommit);
    RunInLimitFits(Apply(s, FinishCommit), actions);
    ClosedGroupStays(s, actions);
  }

  lemma EmptyTable(g: Layout, disk: Disk)
    ensures SpaceInv(Boot(g, disk))
  {
  }

  /** `op` calls log_write on block `b` and keeps to its limit, yet the test panics. */
  ghost predicate PanicsWithinLimit(s: State, op: nat, b: nat) {
    && op in s.active && op !in s.checked && IsHome(s.g, |s.disk|, b)
    && |s.active[op] + {b}| <= MAXOPBLOCKS
    && !Enabled(s, LogCheck(op, b))
  }

  /** In every reachable state, the test of a write that keeps to its operation's limit panics
      exactly if the table is full at that moment.  A block the table already holds is no
      exception: the code looks for it only after the test. */
  lemma PanicsIffFull(g: Layout, disk: Disk, actions: seq<Action>, op: nat, b: nat)
    requires CanRun(Boot(g, disk), actions) && RunWithinLimit(Boot(g, disk), actions)
    ensures var t := Run(Boot(g, disk), actions);
      op in t.active && op !in t.checked && IsHome(g, |t.disk|, b) && |t.active[op] + {b}| <= MAXOPBLOCKS ==>
        (PanicsWithinLimit(t, op, b) <==> Room(g) <= |t.lh|)
  {
    hide Run, CanRun, RunWithinLimit, Unused;
    var t := Run(Boot(g, disk), actions);
    EmptyTable(g, disk);
    RunKeepsSpace(Boot(g, disk), actions);
    if op in t.active {
      assert |t.active| > 0;
    }
  }

  /** With room for LOGSIZE data blocks beside the header, the only write within the limits
      that can panic is one of a block the same operation has logged before, and then every
      operation in progress has used up its share. */
  lemma LargeLogPanicsOnlyOnRewrite(g: Layout, disk: Disk, actions: seq<Action>, op: nat, b: nat)
    requires LOGSIZE < g.size
    requires CanRun(Boot(g, disk), actions) && RunWithinLimit(Boot(g, disk), actions)
    ensures var t := Run(Boot(g, disk), actions);
      PanicsWithinLimit(t, op, b) ==>
        b in t.active[op] && forall k | k in t.active :: |t.active[k]| == MAXOPBLOCKS
  {
    hide Run, CanRun, RunWithinLimit;
    var t := Run(Boot(g, disk), actions);
    EmptyTable(g, disk);
    RunKeepsSpace(Boot(g, disk), actions);
    if PanicsWithinLimit(t, op, b) {
      PanicsIffFull(g, disk, actions, op, b);
      forall k | k in t.active
        ensures |t.active[k]| == MAXOPBLOCKS
      {
        UnusedCoversShare(t.active, t.nextOp, k);
      }
      FullShare(t.active[op], b);
    }
  }

  lemma FullShare(logged: set<int>, b: int)
    requires |logged| == MAXOPBLOCKS && |logged + {b}| <= MAXOPBLOCKS
    ensures b in logged
  {
    assert b !in logged ==> |logged + {b}| == |logged| + 1;
  }
}
