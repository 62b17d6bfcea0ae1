/** What happens in a log that has too little room: runs that fill the table, panic, or carry
    it beyond the log area, and from these the exact log sizes that are crash safe. */
module LogOverrun {
  import opened LogSpec
  import opened LogProtocol
  import opened LogSpace

  // The runs log the blocks first, first + 1, ... with the same contents, by three operations
  // in turn.

  ghost function Used(k: nat, op: nat): (r: int) {
    (k + 2 - op) / 3
  }

  ghost predicate ActiveFilled(active: map<nat, set<int>>, first: nat, k: nat) {
    && active.Keys == {0, 1, 2}
    && (forall op | op in active ::
          |active[op]| == Used(k, op) && forall b | b in active[op] :: b < first + k)
    && (0 < k ==> first in active[0])
  }

  ghost predicate TableFilled(lh: seq<int>, cache: Cache, first: nat, k: nat, data: Block) {
    && |lh| == k && (forall b | b in lh :: first <= b < first + k && b in cache)
    && forall b | b in cache :: cache[b] == data
  }

  ghost predicate FilledTo(s: State, first: nat, k: nat, data: Block) {
    && s.phase.Running? && s.outstanding == 3 && s.groups == []
    && TableFilled(s.lh, s.cache, first, k, data)
    && ActiveFilled(s.active, first, k)
  }

  function Check(first: nat, k: nat): (a: Action) {
    LogCheck(k % 3, first + k)
  }

  function Record(first: nat, k: nat, data: Block): (a: Action) {
    LogRecord(k % 3, first + k, data)
  }

  lemma UsedNext(k: nat)
    ensures forall op: nat | op <= 2 :: Used(k + 1, op) == Used(k, op) + if op == k % 3 then 1 else 0
    ensures Used(k, k % 3) == k / 3
  {
  }

  lemma FillActive(active: map<nat, set<int>>, first: nat, k: nat)
    requires ActiveFilled(active, first, k)
    ensures var op := k % 3;
      && op in active && |active[op] + {first + k}| == k / 3 + 1
      && ActiveFilled(active[op := active[op] + {first + k}], first, k + 1)
  {
    hide Used;
    UsedNext(k);
    var op := k % 3;
    assert op in {0, 1, 2};
    var grown := active[op] + {first + k};
    assert |grown| == |active[op]| + 1;
    assert active[op := grown].Keys == active.Keys;
  }

  lemma FillTable(lh: seq<int>, cache: Cache, first: nat, k: nat, data: Block)
    requires TableFilled(lh, cache, first, k, data)
    ensures TableFilled(Absorb(lh, first + k), cache[first + k := data], first, k + 1, data)
  {
  }

  /** Operation j % 3 passes the test for block first + j. */
  lemma CheckStep(s: State, first: nat, k: nat, j: nat, data: Block)
    requires FilledTo(s, first, k, data) && first == s.g.start + s.g.size && k < Room(s.g)
    requires first + j < |s.disk| && j % 3 !in s.checked
    ensures Enabled(s, Check(first, j)) && WithinLimit(s, Check(first, j))
    ensures var t := Apply(s, Check(first, j));
      FilledTo(t, first, k, data) && t.g == s.g && t.disk == s.disk && t.checked == s.checked[j % 3 := first + j]
  {
    hide TableFilled, ActiveFilled;
    Three(s.active, first, k, j);
    assert |s.lh| == k by { TableSize(s.lh, s.cache, first, k, data); }
  }

  lemma Three(active: map<nat, set<int>>, first: nat, k: nat, j: nat)
    requires ActiveFilled(active, first, k)
    ensures j % 3 in active
  {
    assert j % 3 in {0, 1, 2};
  }

  lemma TableSize(lh: seq<int>, cache: Cache, first: nat, k: nat, data: Block)
    requires TableFilled(lh, cache, first, k, data)
    ensures |lh| == k
  {
  }

  /** And logs the block, whether or not there is still room. */
  lemma RecordStep(s: State, first: nat, k: nat, data: Block)
    requires FilledTo(s, first, k, data) && k % 3 in s.checked && s.checked[k % 3] == first + k
    ensures Enabled(s, Record(first, k, data)) && (k < LOGSIZE ==> WithinLimit(s, Record(first, k, data)))
    ensures var t := Apply(s, Record(first, k, data));
      FilledTo(t, first, k + 1, data) && t.g == s.g && t.disk == s.disk && t.checked == s.checked - {k % 3}
  {
    hide TableFilled, ActiveFilled;
    FillActive(s.active, first, k);
    FillTable(s.lh, s.cache, first, k, data);
  }

  // ----- Putting runs together

  lemma TwoSteps(s: State, a: Action, b: Action)
    requires Enabled(s, a) && Enabled(Apply(s, a), b)
    ensures CanRun(s, [a, b]) && Run(s, [a, b]) == Apply(Apply(s, a), b)
    ensures WithinLimit(s, a) && WithinLimit(Apply(s, a), b) ==> RunWithinLimit(s, [a, b])
  {
    hide Enabled, Apply, WithinLimit;
    var t := Apply(s, a);
    var u := Apply(t, b);
    assert CanRun(u, []) && Run(u, []) == u && RunWithinLimit(u, []);
    assert [b][1..] == [];
    assert CanRun(t, [b]) && Run(t, [b]) == u;
    assert WithinLimit(t, b) ==> RunWithinLimit(t, [b]);
    assert [a, b][1..] == [b];
  }

  lemma {:induction false} RunAppend(s: State, xs: seq<Action>, ys: seq<Action>)
    requires CanRun(s, xs) && CanRun(Run(s, xs), ys)
    ensures CanRun(s, xs + ys) && Run(s, xs + ys) == Run(Run(s, xs), ys)
    ensures RunWithinLimit(s, xs) && RunWithinLimit(Run(s, xs), ys) ==> RunWithinLimit(s, xs + ys)
    decreases |xs|
  {
    hide Enabled, Apply, WithinLimit;
    if xs == [] {
      assert xs + ys == ys;
    } else {
      RunAppend(Apply(s, xs[0]), xs[1..], ys);
      assert (xs + ys)[1..] == xs[1..] + ys;
    }
  }

  // ----- Filling the table

  lemma FillOne(s: State, first: nat, k: nat, data: Block)
    requires FilledTo(s, first, k, data) && first == s.g.start + s.g.size && k < Room(s.g)
    requires first + k < |s.disk| && s.checked == map[]
    ensures var two := [Check(first, k), Record(first, k, data)];
      && CanRun(s, two) && RunWithinLimit(s, two)
      && FilledTo(Run(s, two), first, k + 1, data) && Run(s, two).checked == map[]
      && Run(s, two).g == s.g && Run(s, two).disk == s.disk
  {
    hide FilledTo, Enabled, Apply, WithinLimit, CanRun, RunWithinLimit, Run;
    CheckStep(s, first, k, k, data);
    var t := Apply(s, Check(first, k));
    RecordStep(t, first, k, data);
    TwoSteps(s, Check(first, k), Record(first, k, data));
    assert map[k % 3 := first + k] - {k % 3} == map[];
  }

  lemma {:induction false} Fill(s: State, first: nat, k: nat, m: nat, data: Block) returns (actions: seq<Action>)
    requires FilledTo(s, first, k, data) && first == s.g.start + s.g.size && k <= m <= Room(s.g)
    requires first + m <= |s.disk| && s.checked == map[]
    ensures CanRun(s, actions) && RunWithinLimit(s, actions)
    ensures var t := Run(s, actions);
      FilledTo(t, first, m, data) && t.checked == map[] && t.g == s.g && t.disk == s.disk
    decreases m - k
  {
    hide FilledTo, Apply, Enabled, WithinLimit;
    if k == m {
      actions := [];
    } else {
      FillOne(s, first, k, data);
      var two := [Check(first, k), Record(first, k, data)];
      var rest := Fill(Run(s, two), first, k + 1, m, data);
      RunAppend(s, two, rest);
      actions := two + rest;
    }
  }

  /** Three operations begin on a freshly booted log. */
  lemma BeginThree(g: Layout, disk: Disk)
    ensures var s := Boot(g, disk);
      && CanRun(s, [BeginOp, BeginOp, BeginOp])
      && RunWithinLimit(s, [BeginOp, BeginOp, BeginOp])
      && Run(s, [BeginOp, BeginOp, BeginOp])
         == s.(outstanding := 3, active := map[0 := {}, 1 := {}, 2 := {}], members := {0, 1, 2}, nextOp := 3)
  {
    var s0 := Boot(g, disk);
    var s1 := Apply(s0, BeginOp);
    var s2 := Apply(s1, BeginOp);
    var s3 := Apply(s2, BeginOp);
    assert [BeginOp, BeginOp, BeginOp][1..] == [BeginOp, BeginOp];
    assert [BeginOp, BeginOp][1..] == [BeginOp];
    assert [BeginOp][1..] == [];
    assert Run(s2, [BeginOp]) == s3;
    assert Run(s1, [BeginOp, BeginOp]) == s3;
  }

  lemma NothingFilled(s: State, first: nat, data: Block)
    requires s.phase.Running? && s.outstanding == 3 && s.groups == [] && s.lh == [] && s.cache == map[]
    requires s.active == map[0 := {}, 1 := {}, 2 := {}]
    ensures FilledTo(s, first, 0, data)
  {
    assert s.active.Keys == {0, 1, 2};
  }

  /** Three operations log `m` blocks. */
  lemma FillFromBoot(g: Layout, disk: Disk, m: nat, data: Block) returns (actions: seq<Action>)
    requires m <= Room(g) && g.start + g.size + m <= |disk|
    ensures CanRun(Boot(g, disk), actions) && RunWithinLimit(Boot(g, disk), actions)
    ensures var t := Run(Boot(g, disk), actions);
      FilledTo(t, g.start + g.size, m, data) && t.checked == map[] && t.g == g && t.disk == disk
  {
    hide FilledTo, CanRun, RunWithinLimit, Run;
    var first := g.start + g.size;
    var three := [BeginOp, BeginOp, BeginOp];
    BeginThree(g, disk);
    var s := Run(Boot(g, disk), three);
    NothingFilled(s, first, data);
    var rest := Fill(s, first, 0, m, data);
    RunAppend(Boot(g, disk), three, rest);
    actions := three + rest;
  }

  // ----- The panic in log_write

  lemma FullTablePanics(t: State, first: nat, data: Block)
    requires 0 < t.g.size <= LOGSIZE && first + t.g.size <= |t.disk| && t.checked == map[]
    requires FilledTo(t, first, t.g.size - 1, data) && first == t.g.start + t.g.size
    ensures var k := t.g.size - 1;
      PanicsWithinLimit(t, k % 3, first + k) && first + k !in t.lh
  {
    hide ActiveFilled;
    FillActive(t.active, first, t.g.size - 1);
  }

  /** With the log that mkfs makes (nlog == LOGSIZE), and with any smaller one, some run
      in which every operation keeps to MAXOPBLOCKS reaches the panic in log_write on a block
      that is new to the table. */
  lemma SmallLogPanics(g: Layout, disk: Disk, data: Block)
    requires 0 < g.size <= LOGSIZE && g.start + 2 * g.size <= |disk|
    ensures exists actions, op, b ::
      && CanRun(Boot(g, disk), actions) && RunWithinLimit(Boot(g, disk), actions)
      && PanicsWithinLimit(Run(Boot(g, disk), actions), op, b)
      && b !in Run(Boot(g, disk), actions).lh
  {
    hide FilledTo, CanRun, RunWithinLimit, Run, PanicsWithinLimit;
    var actions := FillFromBoot(g, disk, g.size - 1, data);
    FullTablePanics(Run(Boot(g, disk), actions), g.start + g.size, data);
  }

  lemma FullTableRewrite(t: State, first: nat, data: Block)
    requires LOGSIZE < t.g.size && first + LOGSIZE <= |t.disk| && t.checked == map[]
    requires FilledTo(t, first, LOGSIZE, data) && first == t.g.start + t.g.size
    ensures PanicsWithinLimit(t, 0, first) && first in t.active[0]
  {
    assert 0 in t.active.Keys;
    assert t.active[0] + {first} == t.active[0];
  }

  /** However large the log, some run within the limits reaches the panic, on a block that the
      same operation has already logged. */
  lemma LargeLogPanicsOnRewrite(g: Layout, disk: Disk, data: Block)
    requires LOGSIZE < g.size && g.start + g.size + LOGSIZE <= |disk|
    ensures exists actions, op, b ::
      && CanRun(Boot(g, disk), actions) && RunWithinLimit(Boot(g, disk), actions)
      && PanicsWithinLimit(Run(Boot(g, disk), actions), op, b)
      && b in Run(Boot(g, disk), actions).active[op]
  {
    hide FilledTo, CanRun, RunWithinLimit, Run;
    var actions := FillFromBoot(g, disk, LOGSIZE, data);
    FullTableRewrite(Run(Boot(g, disk), actions), g.start + g.size, data);
  }

  // ----- The table overflows

  function BothCheck(first: nat, k: nat): (actions: seq<Action>) {
    [Check(first, k), Check(first, k + 1)]
  }

  function BothRecord(first: nat, k: nat, data: Block): (actions: seq<Action>) {
    [Record(first, k, data), Record(first, k + 1, data)]
  }

  /** With one entry left, two operations pass the test before either has logged its block. */
  lemma CheckTwo(s: State, first: nat, k: nat, data: Block)
    requires FilledTo(s, first, k, data) && first == s.g.start + s.g.size && k < Room(s.g)
    requires first + k + 1 < |s.disk| && s.checked == map[]
    ensures var two := BothCheck(first, k);
      && CanRun(s, two) && RunWithinLimit(s, two)
      && FilledTo(Run(s, two), first, k, data)
      && Run(s, two).checked == map[k % 3 := first + k, (k + 1) % 3 := first + k + 1]
      && Run(s, two).g == s.g && Run(s, two).disk == s.disk
  {
    hide FilledTo, Enabled, Apply, WithinLimit, CanRun, RunWithinLimit, Run;
    CheckStep(s, first, k, k, data);
    var t := Apply(s, Check(first, k));
    assert (k + 1) % 3 != k % 3;
    CheckStep(t, first, k, k + 1, data);
    TwoSteps(s, Check(first, k), Check(first, k + 1));
  }

  lemma RecordTwo(s: State, first: nat, k: nat, data: Block)
    requires FilledTo(s, first, k, data)
    requires s.checked == map[k % 3 := first + k, (k + 1) % 3 := first + k + 1]
    ensures var two := BothRecord(first, k, data);
      && CanRun(s, two) && (k + 1 < LOGSIZE ==> RunWithinLimit(s, two))
      && FilledTo(Run(s, two), first, k + 2, data) && Run(s, two).checked == map[]
      && Run(s, two).g == s.g && Run(s, two).disk == s.disk
  {
    hide FilledTo, Enabled, Apply, WithinLimit, CanRun, RunWithinLimit, Run;
    assert (k + 1) % 3 != k % 3;
    RecordStep(s, first, k, data);
    var t := Apply(s, Record(first, k, data));
    RecordStep(t, first, k + 1, data);
    TwoSteps(s, Record(first, k, data), Record(first, k + 1, data));
    assert s.checked - {k % 3} - {(k + 1) % 3} == map[];
  }

  /** Then both log, and the table has one entry more than there is room for. */
  lemma Overflow(g: Layout, disk: Disk, data: Block) returns (actions: seq<Action>)
    requires 1 < g.size && g.start + g.size + Room(g) < |disk|
    ensures CanRun(Boot(g, disk), actions)
    ensures g.size <= LOGSIZE ==> RunWithinLimit(Boot(g, disk), actions)
    ensures var t := Run(Boot(g, disk), actions);
      FilledTo(t, g.start + g.size, Room(g) + 1, data) && t.checked == map[] && t.g == g && t.disk == disk
  {
    hide FilledTo, CanRun, RunWithinLimit, Run;
    var first, k := g.start + g.size, Room(g) - 1;
    var fill := FillFromBoot(g, disk, k, data);
    var s := Run(Boot(g, disk), fill);
    CheckTwo(s, first, k, data);
    var t := Run(s, BothCheck(first, k));
    RecordTwo(t, first, k, data);
    RunAppend(s, BothCheck(first, k), BothRecord(first, k, data));
    actions := fill + (BothCheck(first, k) + BothRecord(first, k, data));
    RunAppend(Boot(g, disk), fill, BothCheck(first, k) + BothRecord(first, k, data));
  }

  /** The limit on operations is needed too: without it the table overflows its array, however
      large the log. */
  lemma NoLimitOverflows(g: Layout, disk: Disk, data: Block)
    requires LOGSIZE < g.size && g.start + g.size + LOGSIZE < |disk|
    ensures exists actions :: CanRun(Boot(g, disk), actions) && LOGSIZE < |Run(Boot(g, disk), actions).lh|
  {
    hide CanRun, RunWithinLimit, Run;
    var actions := Overflow(g, disk, data);
  }

  // ----- Writing out a table that has overflowed the log area

  /** A commit of blocks that all hold `data`. */
  ghost predicate WritingOut(s: State, data: Block) {
    && s.phase.Committing? && s.groups == []
    && CanWriteOut(s.g, |s.disk|, s.lh, s.cache)
    && forall b | b in s.cache :: s.cache[b] == data
  }

  lemma WriteOne(s: State, data: Block)
    requires WritingOut(s, data) && s.phase.done < |s.lh|
    ensures Enabled(s, CommitOneWrite) && WithinLimit(s, CommitOneWrite)
    ensures var t := Apply(s, CommitOneWrite);
      && WritingOut(t, data) && t.phase.done == s.phase.done + 1 && t.lh == s.lh && t.g == s.g
      && t.disk == s.disk[s.g.start + s.phase.done + 1 := data]
  {
  }

  /** The loop of write_log, which takes no notice of where the log area ends. */
  lemma {:induction false} WriteMany(s: State, data: Block, m: nat)
    requires WritingOut(s, data) && s.phase.done + m <= |s.lh|
    ensures CanRun(s, CommitSteps(m)) && RunWithinLimit(s, CommitSteps(m))
    ensures var t := Run(s, CommitSteps(m));
      && WritingOut(t, data) && t.phase.done == s.phase.done + m && t.lh == s.lh && t.g == s.g
      && |t.disk| == |s.disk| && t.disk[s.g.start] == s.disk[s.g.start]
      && (0 < m ==> t.disk[s.g.start + s.phase.done + m] == data)
    decreases m
  {
    hide Enabled, Apply, WithinLimit;
    if m > 0 {
      WriteOne(s, data);
      var t := Apply(s, CommitOneWrite);
      WriteMany(t, data, m - 1);
      assert CommitSteps(m)[1..] == CommitSteps(m - 1);
      if m == 1 {
        assert Run(t, CommitSteps(0)) == t;
      }
    }
  }

  /** The three operations end, the last of them begins to commit. */
  lemma EndThree(s: State, first: nat, k: nat, data: Block)
    requires FilledTo(s, first, k, data) && s.checked == map[]
    requires k <= LOGSIZE && s.g.start + k < |s.disk| && first + k <= |s.disk|
    ensures var three := [EndOp(0), EndOp(1), EndOp(2)];
      && CanRun(s, three) && RunWithinLimit(s, three)
      && WritingOut(Run(s, three), data) && Run(s, three).phase.done == 0
      && Run(s, three).g == s.g && Run(s, three).disk == s.disk && |Run(s, three).lh| == k
  {
    hide ActiveFilled, TableFilled, CanWriteOut;
    TableWrites(s.g, |s.disk|, s.lh, s.cache, first, k, data);
    EndOrder(s.active, first, k);
    var s1 := Apply(s, EndOp(0));
    var s2 := Apply(s1, EndOp(1));
    var s3 := Apply(s2, EndOp(2));
    assert [EndOp(0), EndOp(1), EndOp(2)][1..] == [EndOp(1), EndOp(2)];
    assert [EndOp(1), EndOp(2)][1..] == [EndOp(2)];
    assert [EndOp(2)][1..] == [];
    assert CanRun(s3, []) && Run(s3, []) == s3 && RunWithinLimit(s3, []);
    assert CanRun(s2, [EndOp(2)]) && Run(s2, [EndOp(2)]) == s3;
    assert CanRun(s1, [EndOp(1), EndOp(2)]) && Run(s1, [EndOp(1), EndOp(2)]) == s3;
  }

  lemma TableWrites(g: Layout, capacity: nat, lh: seq<int>, cache: Cache, first: nat, k: nat, data: Block)
    requires TableFilled(lh, cache, first, k, data) && k <= LOGSIZE
    requires g.start + k < capacity && first + k <= capacity
    ensures CanWriteOut(g, capacity, lh, cache) && |lh| == k && forall b | b in cache :: cache[b] == data
  {
    assert forall i | 0 <= i < |lh| :: lh[i] in lh;
  }

  lemma EndOrder(active: map<nat, set<int>>, first: nat, k: nat)
    requires ActiveFilled(active, first, k)
    ensures 0 in active && 1 in active - {0} && 2 in active - {0} - {1}
  {
    assert active.Keys == {0, 1, 2};
  }

  /** The block after the log area now holds what was meant for another block, and the header
      is still empty, so recovery leaves it there. */
  lemma BlockLost(g: Layout, disk: Disk, t: State, data: Block)
    requires ValidDisk(g, disk) && HeadList(disk[g.start]) == [] && g.start + g.size < |disk|
    requires t.groups == [] && t.phase == Committing(|t.lh|)
    requires |t.disk| == |disk| && t.disk[g.start] == disk[g.start]
    requires t.disk[g.start + g.size] == data != disk[g.start + g.size]
    ensures !RecoversToReplay(g, disk, t, [])
  {
    var first := g.start + g.size;
    assert IsHome(g, |disk|, first);
    assert ValidDisk(g, t.disk);
    assert Recovered(g, t.disk, [])[first] == data;
  }

  /** In a log with LOGSIZE or fewer blocks, as mkfs makes it, some run in which every
      operation keeps to its limit writes past the log area, and a crash then leaves a block of
      the file system with contents that no committed operation gave it. */
  lemma SmallLogLosesBlock(g: Layout, disk: Disk)
    requires ValidDisk(g, disk) && HeadList(disk[g.start]) == []
    requires 1 < g.size <= LOGSIZE && g.start + 2 * g.size <= |disk|
    ensures exists actions ::
      && CanRun(Boot(g, disk), actions) && RunWithinLimit(Boot(g, disk), actions)
      && !RecoversToReplay(g, disk, Run(Boot(g, disk), actions), [])
  {
    hide FilledTo, CanRun, RunWithinLimit, Run, RecoversToReplay, ValidDisk, HeadList;
    var first := g.start + g.size;
    var data := disk[first][0 := disk[first][0] + 1];
    var overflow := Overflow(g, disk, data);
    var s := Run(Boot(g, disk), overflow);
    EndThree(s, first, g.size, data);
    var three := [EndOp(0), EndOp(1), EndOp(2)];
    var t := Run(s, three);
    WriteMany(t, data, g.size);
    RunAppend(s, three, CommitSteps(g.size));
    RunAppend(Boot(g, disk), overflow, three + CommitSteps(g.size));
    BlockLost(g, disk, Run(t, CommitSteps(g.size)), data);
  }

  /** Every run within the limits, stopped anywhere, recovers. */
  ghost predicate CrashSafe(g: Layout, disk: Disk) {
    forall actions, crashes |
      CanRun(Boot(g, disk), actions) && RunWithinLimit(Boot(g, disk), actions) ::
      RecoversToReplay(g, disk, Run(Boot(g, disk), actions), crashes)
  }

  /** The log is crash safe exactly if it has room for LOGSIZE data blocks beside its header
      (or is so small that no operation can log anything). */
  lemma CrashSafeIff(g: Layout, disk: Disk)
    requires ValidDisk(g, disk) && HeadList(disk[g.start]) == [] && g.start + 2 * g.size <= |disk|
    ensures CrashSafe(g, disk) <==> Roomy(g)
  {
    hide CanRun, RunWithinLimit, Run, RecoversToReplay, ValidDisk, HeadList;
    if Roomy(g) {
      forall actions, crashes | CanRun(Boot(g, disk), actions) && RunWithinLimit(Boot(g, disk), actions)
        ensures RecoversToReplay(g, disk, Run(Boot(g, disk), actions), crashes)
      {
        RecoveredDiskIsReplay(g, disk, actions, crashes);
      }
    } else {
      SmallLogLosesBlock(g, disk);
    }
  }
}
