/** Processes and CPUs as a state machine.  A step is what one CPU does while it holds
    ptable.lock, or one of the unlocked writes in fork(); steps of any number of CPUs
    interleave freely. */
module ProcMachine {
  import opened Optional
  import opened ProcSpec

  /** One CPU: its current process, and how far its scheduler has come in the table. */
  datatype Cpu = Cpu(cur: Option<nat>, cursor: nat)

  /** A process between allocproc() and the end of fork(): the child's slot, and whether its
      parent pointer has been set. */
  datatype Work = Work(child: nat, linked: bool)

  datatype State = State(procs: seq<Proc>, nextpid: nat, init: nat, cpus: seq<Cpu>, work: map<nat, Work>)

  datatype Action =
    | AllocChild(c: nat, child: nat)
    | AbandonChild(c: nat)
    | LinkChild(c: nat)
    | FinishFork(c: nat)
    | Exit(c: nat)
    | WaitReap(c: nat, child: nat)
    | WaitSleep(c: nat)
    | SleepOn(c: nat, id: nat)
    | Yield(c: nat)
    | Wakeup(id: nat)
    | Kill(slot: nat)
    | Look(c: nat)

  function NextSlot(i: nat): (j: nat) {
    if i + 1 >= NPROC then 0 else i + 1
  }

  predicate OnCpu(s: State, c: nat) {
    c < |s.cpus| && s.cpus[c].cur.Some? && s.cpus[c].cur.value < |s.procs|
  }

  function Current(s: State, c: nat): (p: nat)
    requires OnCpu(s, c)
  {
    s.cpus[c].cur.value
  }

  ghost predicate Enabled(s: State, a: Action) {
    match a
    case AllocChild(c, k) => OnCpu(s, c) && Current(s, c) !in s.work && IsFirstUnused(s.procs, k)
    case AbandonChild(c) =>
      OnCpu(s, c) && Current(s, c) in s.work && !s.work[Current(s, c)].linked
      && s.work[Current(s, c)].child < |s.procs|
    case LinkChild(c) =>
      OnCpu(s, c) && Current(s, c) in s.work && !s.work[Current(s, c)].linked
      && s.work[Current(s, c)].child < |s.procs|
    case FinishFork(c) =>
      OnCpu(s, c) && Current(s, c) in s.work && s.work[Current(s, c)].linked
      && s.work[Current(s, c)].child < |s.procs|
    case Exit(c) => OnCpu(s, c) && Current(s, c) !in s.work && Current(s, c) != s.init
    case WaitReap(c, k) =>
      OnCpu(s, c) && Current(s, c) !in s.work && IsFirstZombieKid(s.procs, Current(s, c), k)
    case WaitSleep(c) =>
      && OnCpu(s, c) && Current(s, c) !in s.work
      && !HasZombieKid(s.procs, Current(s, c)) && HasKid(s.procs, Current(s, c))
      && !s.procs[Current(s, c)].killed
    case SleepOn(c, _) => OnCpu(s, c)
    case Yield(c) => OnCpu(s, c)
    case Wakeup(_) => true
    case Kill(k) => k < |s.procs| && IsFirstPid(s.procs, s.procs[k].pid, k)
    case Look(c) => c < |s.cpus| && s.cpus[c].cur.None? && s.cpus[c].cursor < |s.procs|
  }

  /** The current process of CPU `c` switches to the scheduler, which goes on to the next slot. */
  function OffCpu(cpus: seq<Cpu>, c: nat): (r: seq<Cpu>)
    requires c < |cpus|
  {
    cpus[c := Cpu(None, NextSlot(cpus[c].cursor))]
  }

  function SetState(procs: seq<Proc>, p: nat, st: PState, ch: Chan): (r: seq<Proc>)
    requires p < |procs|
  {
    procs[p := procs[p].(state := st, chan := ch)]
  }

  ghost function Apply(s: State, a: Action): (t: State)
    requires Enabled(s, a)
  {
    match a
    case AllocChild(c, k) =>
      s.(procs := s.procs[k := s.procs[k].(state := EMBRYO, pid := s.nextpid)],
         nextpid := s.nextpid + 1,
         work := s.work[Current(s, c) := Work(k, false)])
    case AbandonChild(c) =>
      var k := s.work[Current(s, c)].child;
      s.(procs := s.procs[k := s.procs[k].(state := UNUSED)], work := s.work - {Current(s, c)})
    case LinkChild(c) =>
      var p := Current(s, c);
      var k := s.work[p].child;
      s.(procs := s.procs[k := s.procs[k].(parent := Some(p))], work := s.work[p := Work(k, true)])
    case FinishFork(c) =>
      var k := s.work[Current(s, c)].child;
      s.(procs := s.procs[k := s.procs[k].(state := RUNNABLE)], work := s.work - {Current(s, c)})
    case Exit(c) =>
      s.(procs := Exited(s.procs, Current(s, c), s.init), cpus := OffCpu(s.cpus, c))
    case WaitReap(c, k) => s.(procs := s.procs[k := Reaped(s.procs[k])])
    case WaitSleep(c) =>
      var p := Current(s, c);
      s.(procs := SetState(s.procs, p, SLEEPING, ProcChan(p)), cpus := OffCpu(s.cpus, c))
    case SleepOn(c, id) =>
      s.(procs := SetState(s.procs, Current(s, c), SLEEPING, OtherChan(id)), cpus := OffCpu(s.cpus, c))
    case Yield(c) =>
      var p := Current(s, c);
      s.(procs := SetState(s.procs, p, RUNNABLE, s.procs[p].chan), cpus := OffCpu(s.cpus, c))
    case Wakeup(id) => s.(procs := Woken(s.procs, OtherChan(id)))
    case Kill(k) => s.(procs := s.procs[k := KillOne(s.procs[k])])
    case Look(c) =>
      var i := s.cpus[c].cursor;
      if s.procs[i].state == RUNNABLE then
        s.(procs := SetState(s.procs, i, RUNNING, NoChan), cpus := s.cpus[c := Cpu(Some(i), i)])
      else
        s.(cpus := OffCpu(s.cpus, c))
  }

  /** The machine after userinit(): init in slot 0, every other slot unused. */
  function Boot(ncpu: nat): (s: State) {
    State([Proc(RUNNABLE, 1, None, NoChan, false)]
          + seq(NPROC - 1, _ => Proc(UNUSED, 0, None, NoChan, false)),
          2, 0, seq(ncpu, _ => Cpu(None, 0)), map[])
  }

  ghost predicate CanRun(s: State, actions: seq<Action>)
    decreases |actions|
  {
    actions == [] || (Enabled(s, actions[0]) && CanRun(Apply(s, actions[0]), actions[1..]))
  }

  ghost function Run(s: State, actions: seq<Action>): (t: State)
    requires CanRun(s, actions)
    decreases |actions|
  {
    if actions == [] then s else Run(Apply(s, actions[0]), actions[1..])
  }
}
