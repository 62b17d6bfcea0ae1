/** Fairness of the per-CPU scheduler loop. */
module ProcSchedule {
  import opened ProcSpec
  import opened ProcMachine
  import opened ProcInv

  /** Steps of the scheduler's scan from slot `i` to `slot`. */
  function Rank(slot: nat, i: nat): (r: nat)
    requires slot < NPROC && i < NPROC
    ensures r < NPROC
  {
    if i <= slot then slot - i else slot + NPROC - i
  }

  /** The slots that CPU `c` dispatches during a run, in order. */
  ghost function Dispatched(s: State, actions: seq<Action>, c: nat): (d: seq<nat>)
    requires CanRun(s, actions)
    decreases |actions|
  {
    if actions == [] then []
    else
      var rest := Dispatched(Apply(s, actions[0]), actions[1..], c);
      if actions[0] == Look(c) && s.procs[s.cpus[c].cursor].state == RUNNABLE
      then [s.cpus[c].cursor] + rest else rest
  }

  ghost predicate StaysRunnable(s: State, actions: seq<Action>, slot: nat)
    requires CanRun(s, actions)
    decreases |actions|
  {
    && slot < |s.procs| && s.procs[slot].state == RUNNABLE
    && (actions == [] || StaysRunnable(Apply(s, actions[0]), actions[1..], slot))
  }

  /** How many more dispatches CPU `c` can make before its scan reaches `slot`. */
  ghost function Ahead(s: State, c: nat, slot: nat): (r: int)
    requires Inv(s) && c < |s.cpus| && slot < NPROC
  {
    Rank(slot, s.cpus[c].cursor) - if s.cpus[c].cur.Some? then 1 else 0
  }

  ghost predicate Decreasing(slot: nat, d: seq<nat>) {
    && slot < NPROC
    && (forall i | 0 <= i < |d| :: d[i] < NPROC && 1 <= Rank(slot, d[i]))
    && (forall i, j | 0 <= i < j < |d| :: Rank(slot, d[j]) < Rank(slot, d[i]))
  }

  /** One step brings the scan of CPU `c` no further away from `slot`, and nearer if it
      dispatches. */
  lemma StepAhead(s: State, a: Action, c: nat, slot: nat)
    requires Inv(s) && Enabled(s, a) && c < |s.cpus| && slot < NPROC
    requires s.procs[slot].state == RUNNABLE && Inv(Apply(s, a)) && Apply(s, a).procs[slot].state == RUNNABLE
    ensures |Apply(s, a).cpus| == |s.cpus|
    ensures Ahead(Apply(s, a), c, slot) <= Ahead(s, c, slot)
    ensures a == Look(c) && s.procs[s.cpus[c].cursor].state == RUNNABLE ==>
      && 1 <= Rank(slot, s.cpus[c].cursor) == Ahead(s, c, slot)
      && Ahead(Apply(s, a), c, slot) < Ahead(s, c, slot)
    ensures a == Look(c) ==> Ahead(Apply(s, a), c, slot) < Ahead(s, c, slot)
  {
    hide ParentInv, PidInv, WaitInv, WorkInv;
    if s.cpus[c].cur.Some? {
      assert RunsOn(s.cpus, c, s.cpus[c].cur.value);
    }
  }

  lemma ConsDecreasing(slot: nat, i: nat, d: seq<nat>)
    requires Decreasing(slot, d) && i < NPROC && 1 <= Rank(slot, i)
    requires forall k | 0 <= k < |d| :: Rank(slot, d[k]) < Rank(slot, i)
    ensures Decreasing(slot, [i] + d)
  {
  }

  lemma {:induction false} DispatchesDecrease(s: State, actions: seq<Action>, c: nat, slot: nat)
    requires Inv(s) && CanRun(s, actions) && c < |s.cpus| && slot < NPROC
    requires StaysRunnable(s, actions, slot)
    ensures var d := Dispatched(s, actions, c);
      && Decreasing(slot, d)
      && (forall k | 0 <= k < |d| :: Rank(slot, d[k]) <= Ahead(s, c, slot))
    decreases |actions|
  {
    if actions != [] {
      var a := actions[0];
      var t := Apply(s, a);
      StepKeepsInv(s, a);
      hide Inv;
      StepAhead(s, a, c, slot);
      DispatchesDecrease(t, actions[1..], c, slot);
      var rest := Dispatched(t, actions[1..], c);
      if a == Look(c) && s.procs[s.cpus[c].cursor].state == RUNNABLE {
        ConsDecreasing(slot, s.cpus[c].cursor, rest);
      }
    }
  }

  /** While a process stays runnable, a CPU dispatches each other slot at most once before
      its scan reaches it: at most NPROC - 1 dispatches in all. */
  lemma BypassBound(s: State, actions: seq<Action>, c: nat, slot: nat)
    requires Inv(s) && CanRun(s, actions) && c < |s.cpus| && slot < NPROC
    requires StaysRunnable(s, actions, slot)
    ensures var d := Dispatched(s, actions, c);
      && slot !in d
      && (forall i, j | 0 <= i < j < |d| :: d[i] != d[j])
      && |d| <= NPROC - 1
  {
    DispatchesDecrease(s, actions, c, slot);
    var d := Dispatched(s, actions, c);
    hide Inv, CanRun, StaysRunnable, Dispatched;
    DecreasingIsShort(slot, d);
  }

  /** How often CPU `c` looks at a slot during a run. */
  function Looks(actions: seq<Action>, c: nat): (n: nat) {
    if actions == [] then 0 else (if actions[0] == Look(c) then 1 else 0) + Looks(actions[1..], c)
  }

  lemma AheadBound(s: State, c: nat, slot: nat)
    requires Inv(s) && c < |s.cpus| && slot < NPROC && s.procs[slot].state == RUNNABLE
    ensures 0 <= Ahead(s, c, slot) <= NPROC - 1
  {
    hide ParentInv, PidInv, WaitInv, WorkInv;
    if s.cpus[c].cur.Some? {
      assert RunsOn(s.cpus, c, s.cpus[c].cur.value);
    }
  }

  lemma {:induction false} LooksLeft(s: State, actions: seq<Action>, c: nat, slot: nat)
    requires Inv(s) && CanRun(s, actions) && c < |s.cpus| && slot < NPROC
    requires StaysRunnable(s, actions, slot)
    ensures Looks(actions, c) <= Ahead(s, c, slot)
    decreases |actions|
  {
    AheadBound(s, c, slot);
    if actions != [] {
      StepKeepsInv(s, actions[0]);
      hide Inv;
      StepAhead(s, actions[0], c, slot);
      LooksLeft(Apply(s, actions[0]), actions[1..], c, slot);
    }
  }

  /** The scan moves on: by the time a CPU has looked at NPROC slots, a process that was
      runnable all along has been dispatched, by this CPU or by another. */
  lemma LooksBound(s: State, actions: seq<Action>, c: nat, slot: nat)
    requires Inv(s) && CanRun(s, actions) && c < |s.cpus| && slot < NPROC
    requires StaysRunnable(s, actions, slot)
    ensures Looks(actions, c) <= NPROC - 1
  {
    hide CanRun, Looks;
    AheadBound(s, c, slot);
    LooksLeft(s, actions, c, slot);
  }

  lemma {:induction false} DecreasingIsShort(slot: nat, d: seq<nat>)
    requires Decreasing(slot, d)
    ensures d != [] ==> |d| <= Rank(slot, d[0])
  {
    if 1 < |d| {
      assert d[1..][0] == d[1];
      DecreasingIsShort(slot, d[1..]);
    }
  }
}
