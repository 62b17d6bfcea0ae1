/** The process table of proc.c: one function for what each table scan does. */
module ProcSpec {
  import opened Optional

  const NPROC := 64

  datatype PState = UNUSED | EMBRYO | SLEEPING | RUNNABLE | RUNNING | ZOMBIE

  /** What a process sleeps on: wait() sleeps on a process slot, everything else on some
      other kernel address. */
  datatype Chan = NoChan | ProcChan(slot: nat) | OtherChan(id: nat)

  datatype Proc = Proc(state: PState, pid: nat, parent: Option<nat>, chan: Chan, killed: bool)

  predicate Alive(s: PState) {
    s in {SLEEPING, RUNNABLE, RUNNING}
  }

  predicate IsKid(p: Proc, i: nat) {
    p.parent == Some(i)
  }

  /** wakeup1: everyone sleeping on `chan` becomes runnable. */
  function WakeOne(p: Proc, chan: Chan): (r: Proc) {
    if p.state == SLEEPING && p.chan == chan then p.(state := RUNNABLE) else p
  }

  function Woken(procs: seq<Proc>, chan: Chan): (r: seq<Proc>)
    ensures |r| == |procs|
    ensures forall i | 0 <= i < |procs| :: r[i] == WakeOne(procs[i], chan)
  {
    seq(|procs|, i requires 0 <= i < |procs| => WakeOne(procs[i], chan))
  }

  ghost predicate HasKid(procs: seq<Proc>, i: nat) {
    exists k: nat :: k < |procs| && IsKid(procs[k], i)
  }

  ghost predicate HasZombieKid(procs: seq<Proc>, i: nat) {
    exists k: nat :: k < |procs| && IsKid(procs[k], i) && procs[k].state == ZOMBIE
  }

  /** Children of `from` handed to `to`. */
  function Adopted(procs: seq<Proc>, from: nat, to: nat): (r: seq<Proc>)
    ensures |r| == |procs|
    ensures forall i | 0 <= i < |procs| ::
      r[i] == if IsKid(procs[i], from) then procs[i].(parent := Some(to)) else procs[i]
  {
    seq(|procs|, i requires 0 <= i < |procs| =>
      if IsKid(procs[i], from) then procs[i].(parent := Some(to)) else procs[i])
  }

  /** The scan in exit(): the children of `p` go to init, which is woken if one of them is
      already a zombie. */
  ghost function Reparented(procs: seq<Proc>, p: nat, init: nat): (r: seq<Proc>)
    ensures |r| == |procs|
  {
    var a := Adopted(procs, p, init);
    if HasZombieKid(procs, p) then Woken(a, ProcChan(init)) else a
  }

  /** exit() by the process in slot `p`, up to the switch to the scheduler. */
  ghost function Exited(procs: seq<Proc>, p: nat, init: nat): (r: seq<Proc>)
    requires p < |procs|
    ensures |r| == |procs|
  {
    var w := match procs[p].parent
      case Some(q) => Woken(procs, ProcChan(q))
      case None => procs;
    var a := Reparented(w, p, init);
    a[p := a[p].(state := ZOMBIE)]
  }

  /** wait() takes the first zombie child in table order. */
  ghost predicate IsFirstZombieKid(procs: seq<Proc>, p: nat, k: nat) {
    && k < |procs| && IsKid(procs[k], p) && procs[k].state == ZOMBIE
    && forall j | 0 <= j < k :: !(IsKid(procs[j], p) && procs[j].state == ZOMBIE)
  }

  /** ... and frees its slot. */
  function Reaped(p: Proc): (r: Proc) {
    p.(state := UNUSED, pid := 0, parent := None, killed := false)
  }

  ghost predicate IsFirstUnused(procs: seq<Proc>, k: nat) {
    k < |procs| && procs[k].state == UNUSED && forall j | 0 <= j < k :: procs[j].state != UNUSED
  }

  ghost predicate IsFirstPid(procs: seq<Proc>, pid: nat, k: nat) {
    k < |procs| && procs[k].pid == pid && forall j | 0 <= j < k :: procs[j].pid != pid
  }

  /** kill() marks the process and gets it out of any sleep. */
  function KillOne(p: Proc): (r: Proc) {
    p.(killed := true, state := if p.state == SLEEPING then RUNNABLE else p.state)
  }
}
