/** What holds of the process table after every step. */
module ProcInv {
  import opened Optional
  import opened ProcSpec
  import opened ProcMachine

  /** A process with a parent is in use and its parent is alive; every process but init,
      once started, has a parent until it is reaped; init has none and never dies. */
  ghost predicate ParentOk(procs: seq<Proc>, init: nat, i: nat)
    requires i < |procs|
  {
    var p := procs[i];
    && (p.parent.Some? ==>
          p.state != UNUSED && p.parent.value < |procs| && p.parent.value != i
          && Alive(procs[p.parent.value].state))
    && (Alive(p.state) || p.state == ZOMBIE ==> i == init || p.parent.Some?)
    && (i == init ==> Alive(p.state) && p.parent.None?)
  }

  ghost predicate ParentInv(procs: seq<Proc>, init: nat) {
    && init < |procs|
    && forall i: nat | i < |procs| :: ParentOk(procs, init, i)
  }

  ghost predicate PidInv(procs: seq<Proc>, nextpid: nat) {
    && (forall i | 0 <= i < |procs| :: procs[i].pid < nextpid && (procs[i].state != UNUSED ==> procs[i].pid != 0))
    && (forall i, j | 0 <= i < j < |procs| :: procs[i].pid != 0 ==> procs[i].pid != procs[j].pid)
  }

  /** A process asleep in wait() sleeps on its own slot, has not been killed, has a child to
      wait for, and none of its children has exited. */
  ghost predicate WaitOk(procs: seq<Proc>, i: nat)
    requires i < |procs|
  {
    procs[i].state == SLEEPING && procs[i].chan.ProcChan? ==>
      && procs[i].chan.slot == i && !procs[i].killed
      && HasKid(procs, i) && !HasZombieKid(procs, i)
  }

  ghost predicate WaitInv(procs: seq<Proc>) {
    forall i: nat | i < |procs| :: WaitOk(procs, i)
  }

  ghost predicate RunsOn(cpus: seq<Cpu>, c: nat, i: nat) {
    c < |cpus| && cpus[c].cur == Some(i)
  }

  /** A process is running exactly when it is the current process of a CPU, and of one only. */
  ghost predicate CpuInv(procs: seq<Proc>, cpus: seq<Cpu>) {
    && (forall c | 0 <= c < |cpus| :: cpus[c].cursor < NPROC)
    && (forall c: nat, i: nat | RunsOn(cpus, c, i) ::
          i < |procs| && procs[i].state == RUNNING && cpus[c].cursor == i)
    && (forall i: nat | i < |procs| && procs[i].state == RUNNING :: exists c: nat :: RunsOn(cpus, c, i))
    && (forall b: nat, c: nat, i: nat | RunsOn(cpus, b, i) && RunsOn(cpus, c, i) :: b == c)
  }

  /** A process inside fork() owns an embryo, and every embryo is owned by one such process. */
  ghost predicate WorkOk(procs: seq<Proc>, work: map<nat, Work>, p: nat)
    requires p in work
  {
    && p < |procs| && Alive(procs[p].state)
    && !(procs[p].state == SLEEPING && procs[p].chan.ProcChan?)
    && work[p].child < |procs| && procs[work[p].child].state == EMBRYO
    && procs[work[p].child].parent == (if work[p].linked then Some(p) else None)
  }

  ghost predicate WorkInv(procs: seq<Proc>, work: map<nat, Work>) {
    && (forall p | p in work :: WorkOk(procs, work, p))
    && (forall p, q | p in work && q in work && p != q :: work[p].child != work[q].child)
  }

  ghost predicate Inv(s: State) {
    match s
    case State(procs, nextpid, init, cpus, work) =>
      && |procs| == NPROC
      && ParentInv(procs, init) && PidInv(procs, nextpid) && WaitInv(procs)
      && CpuInv(procs, cpus) && WorkInv(procs, work)
  }

  lemma BootInv(ncpu: nat)
    ensures Inv(Boot(ncpu))
  {
    var s := Boot(ncpu);
    assert forall i | 1 <= i < NPROC :: s.procs[i] == Proc(UNUSED, 0, None, NoChan, false);
    assert forall c: nat, i: nat :: !RunsOn(s.cpus, c, i);
  }

  // ----- Parents

  lemma ParentSlot(procs: seq<Proc>, init: nat, k: nat, p: Proc)
    requires ParentInv(procs, init) && k < |procs|
    requires Alive(procs[k].state) ==> Alive(p.state)
    requires p.parent.Some? ==>
      p.state != UNUSED && p.parent.value < |procs| && p.parent.value != k && Alive(procs[p.parent.value].state)
    requires Alive(p.state) || p.state == ZOMBIE ==> k == init || p.parent.Some?
    requires k == init ==> p.parent.None?
    ensures ParentInv(procs[k := p], init)
  {
    var r := procs[k := p];
    assert ParentOk(procs, init, k);
    forall i: nat | i < |r|
      ensures ParentOk(r, init, i)
    {
      assert ParentOk(procs, init, i);
    }
  }

  /** A change that touches neither parents nor life and death. */
  ghost predicate SameFamilies(procs: seq<Proc>, r: seq<Proc>) {
    && |r| == |procs|
    && forall i | 0 <= i < |procs| ::
         r[i].parent == procs[i].parent
         && (r[i].state == procs[i].state || (Alive(r[i].state) && Alive(procs[i].state)))
  }

  lemma ParentSame(procs: seq<Proc>, r: seq<Proc>, init: nat)
    requires ParentInv(procs, init) && SameFamilies(procs, r)
    ensures ParentInv(r, init)
  {
    forall i: nat | i < |r|
      ensures ParentOk(r, init, i)
    {
      assert ParentOk(procs, init, i);
    }
  }

  lemma ParentAdopted(procs: seq<Proc>, p: nat, init: nat)
    requires ParentInv(procs, init) && p < |procs| && p != init
    ensures ParentInv(Adopted(procs, p, init), init)
    ensures !HasKid(Adopted(procs, p, init), p)
  {
    var r := Adopted(procs, p, init);
    assert ParentOk(procs, init, init);
    forall i: nat | i < |r|
      ensures ParentOk(r, init, i) && !IsKid(r[i], p)
    {
      assert ParentOk(procs, init, i);
    }
  }

  lemma ParentZombie(procs: seq<Proc>, p: nat, init: nat)
    requires ParentInv(procs, init) && p < |procs| && p != init && Alive(procs[p].state)
    requires !HasKid(procs, p)
    ensures ParentInv(procs[p := procs[p].(state := ZOMBIE)], init)
  {
    var r := procs[p := procs[p].(state := ZOMBIE)];
    forall i: nat | i < |r|
      ensures ParentOk(r, init, i)
    {
      assert ParentOk(procs, init, i);
      assert !IsKid(procs[i], p);
    }
  }

  lemma WokenSame(procs: seq<Proc>, chan: Chan)
    ensures SameFamilies(procs, Woken(procs, chan))
  {
  }

  lemma ParentExited(procs: seq<Proc>, p: nat, init: nat)
    requires ParentInv(procs, init) && p < |procs| && p != init && Alive(procs[p].state)
    ensures ParentInv(Exited(procs, p, init), init)
  {
    assert ParentOk(procs, init, p);
    var w := Woken(procs, ProcChan(procs[p].parent.value));
    WokenSame(procs, ProcChan(procs[p].parent.value));
    ParentSame(procs, w, init);
    ParentAdopted(w, p, init);
    var a := Adopted(w, p, init);
    var b := Reparented(w, p, init);
    WokenSame(a, ProcChan(init));
    assert b == a || b == Woken(a, ProcChan(init));
    assert SameFamilies(a, b);
    ParentSame(a, b, init);
    assert !HasKid(b, p);
    ParentZombie(b, p, init);
  }

  lemma StepParent(s: State, a: Action)
    requires Inv(s) && Enabled(s, a)
    ensures ParentInv(Apply(s, a).procs, s.init)
  {
    hide PidInv, WaitInv;
    var procs := s.procs;
    match a
    case AllocChild(c, k) =>
      assert ParentOk(procs, s.init, k);
      ParentSlot(procs, s.init, k, procs[k].(state := EMBRYO, pid := s.nextpid));
    case AbandonChild(c) =>
      var p := Current(s, c);
      assert WorkOk(procs, s.work, p);
      var k := s.work[p].child;
      ParentSlot(procs, s.init, k, procs[k].(state := UNUSED));
    case LinkChild(c) =>
      var p := Current(s, c);
      assert WorkOk(procs, s.work, p);
      var k := s.work[p].child;
      assert ParentOk(procs, s.init, k);
      ParentSlot(procs, s.init, k, procs[k].(parent := Some(p)));
    case FinishFork(c) =>
      var p := Current(s, c);
      assert WorkOk(procs, s.work, p);
      var k := s.work[p].child;
      assert ParentOk(procs, s.init, k);
      ParentSlot(procs, s.init, k, procs[k].(state := RUNNABLE));
    case Exit(c) =>
      assert RunsOn(s.cpus, c, Current(s, c));
      ParentExited(procs, Current(s, c), s.init);
    case WaitReap(c, k) =>
      assert ParentOk(procs, s.init, k);
      ParentSlot(procs, s.init, k, Reaped(procs[k]));
    case Wakeup(id) =>
      WokenSame(procs, OtherChan(id));
      ParentSame(procs, Woken(procs, OtherChan(id)), s.init);
    case Kill(k) => ParentSame(procs, procs[k := KillOne(procs[k])], s.init);
    case Look(c) =>
      if procs[s.cpus[c].cursor].state == RUNNABLE {
        ParentSame(procs, Apply(s, a).procs, s.init);
      }
    case _ =>
      assert RunsOn(s.cpus, a.c, Current(s, a.c));
      ParentSame(procs, Apply(s, a).procs, s.init);
  }

  // ----- Process numbers

  lemma ExitedKeeps(procs: seq<Proc>, p: nat, init: nat)
    requires p < |procs|
    ensures var r := Exited(procs, p, init);
      && r[p].state == ZOMBIE
      && forall i | 0 <= i < |procs| ::
           && r[i].pid == procs[i].pid && r[i].chan == procs[i].chan
           && (i != p ==> r[i].state == procs[i].state || (procs[i].state == SLEEPING && r[i].state == RUNNABLE))
           && r[i].parent == if IsKid(procs[i], p) then Some(init) else procs[i].parent
  {
  }

  lemma PidSame(procs: seq<Proc>, r: seq<Proc>, nextpid: nat)
    requires PidInv(procs, nextpid) && |r| == |procs|
    requires forall i | 0 <= i < |procs| ::
      r[i].pid == procs[i].pid && (procs[i].state == UNUSED ==> r[i].state == UNUSED)
    ensures PidInv(r, nextpid)
  {
  }

  lemma PidAlloc(procs: seq<Proc>, k: nat, nextpid: nat)
    requires PidInv(procs, nextpid) && k < |procs|
    ensures PidInv(procs[k := procs[k].(state := EMBRYO, pid := nextpid)], nextpid + 1)
  {
    assert procs[k].pid < nextpid;
  }

  lemma PidFree(procs: seq<Proc>, k: nat, p: Proc, nextpid: nat)
    requires PidInv(procs, nextpid) && k < |procs| && p.state == UNUSED
    requires p.pid == 0 || p.pid == procs[k].pid
    ensures PidInv(procs[k := p], nextpid)
  {
    assert procs[k].pid < nextpid;
  }

  lemma StepPid(s: State, a: Action)
    requires Inv(s) && Enabled(s, a)
    ensures PidInv(Apply(s, a).procs, Apply(s, a).nextpid)
  {
    hide ParentInv, WaitInv, PidInv;
    var r := Apply(s, a).procs;
    match a
    case AllocChild(c, k) => PidAlloc(s.procs, k, s.nextpid);
    case WaitReap(c, k) => PidFree(s.procs, k, Reaped(s.procs[k]), s.nextpid);
    case AbandonChild(c) =>
      var k := s.work[Current(s, c)].child;
      PidFree(s.procs, k, s.procs[k].(state := UNUSED), s.nextpid);
    case LinkChild(c) => PidSame(s.procs, r, s.nextpid);
    case FinishFork(c) =>
      assert WorkOk(s.procs, s.work, Current(s, c));
      PidSame(s.procs, r, s.nextpid);
    case Exit(c) =>
      assert RunsOn(s.cpus, c, Current(s, c));
      ExitedKeeps(s.procs, Current(s, c), s.init);
      PidSame(s.procs, r, s.nextpid);
    case Wakeup(_) => PidSame(s.procs, r, s.nextpid);
    case Kill(_) => PidSame(s.procs, r, s.nextpid);
    case Look(_) => PidSame(s.procs, r, s.nextpid);
    case _ =>
      assert RunsOn(s.cpus, a.c, Current(s, a.c));
      PidSame(s.procs, r, s.nextpid);
  }

  // ----- Waiting for children

  /** Replacing one slot wakes or hurts no one asleep in wait(): it makes no new zombie, and a
      child is only taken from a parent that is not asleep. */
  lemma WaitSlot(procs: seq<Proc>, k: nat, p: Proc)
    requires WaitInv(procs) && k < |procs|
    requires p.state == ZOMBIE ==> procs[k].state == ZOMBIE && p.parent == procs[k].parent
    requires procs[k].parent.Some? && p.parent != procs[k].parent ==>
      procs[k].parent.value < |procs| && procs[procs[k].parent.value].state != SLEEPING
    requires p.state == SLEEPING && p.chan.ProcChan? ==>
      p.chan.slot == k && !p.killed && HasKid(procs, k) && !HasZombieKid(procs, k) && p.parent == procs[k].parent
    ensures WaitInv(procs[k := p])
  {
    var r := procs[k := p];
    forall i: nat | i < |r|
      ensures WaitOk(r, i)
    {
      assert WaitOk(procs, i);
      if r[i].state == SLEEPING && r[i].chan.ProcChan? {
        var j: nat :| j < |procs| && IsKid(procs[j], i);
        assert IsKid(r[j], i);
      }
    }
  }

  /** Waking sleepers, with parents and zombies left as they are. */
  lemma WaitWoken(procs: seq<Proc>, chan: Chan)
    requires WaitInv(procs)
    ensures WaitInv(Woken(procs, chan))
  {
    var r := Woken(procs, chan);
    forall i: nat | i < |r|
      ensures WaitOk(r, i)
    {
      assert WaitOk(procs, i);
      if r[i].state == SLEEPING && r[i].chan.ProcChan? {
        var j: nat :| j < |procs| && IsKid(procs[j], i);
        assert IsKid(r[j], i);
      }
    }
  }

  lemma WaitAdopted(procs: seq<Proc>, p: nat, init: nat)
    requires WaitInv(procs) && p < |procs| && procs[p].state == RUNNING && init < |procs|
    ensures WaitInv(Reparented(procs, p, init))
  {
    var a := Adopted(procs, p, init);
    var r := Reparented(procs, p, init);
    forall i: nat | i < |r|
      ensures WaitOk(r, i)
    {
      assert WaitOk(procs, i);
      if r[i].state == SLEEPING && r[i].chan.ProcChan? {
        assert i != p;
        var j: nat :| j < |procs| && IsKid(procs[j], i);
        assert IsKid(a[j], i) && IsKid(r[j], i);
      }
    }
  }

  /** No exit is missed: when `p` becomes a zombie its parent is not asleep in wait(). */
  lemma WaitZombie(procs: seq<Proc>, p: nat)
    requires WaitInv(procs) && p < |procs| && procs[p].state == RUNNING && procs[p].parent.Some?
    requires procs[p].parent.value < |procs|
    requires var q := procs[procs[p].parent.value]; !(q.state == SLEEPING && q.chan.ProcChan?)
    ensures WaitInv(procs[p := procs[p].(state := ZOMBIE)])
  {
    var r := procs[p := procs[p].(state := ZOMBIE)];
    forall i: nat | i < |r|
      ensures WaitOk(r, i)
    {
      assert WaitOk(procs, i);
      if r[i].state == SLEEPING && r[i].chan.ProcChan? {
        var j: nat :| j < |procs| && IsKid(procs[j], i);
        assert IsKid(r[j], i);
      }
    }
  }

  lemma WaitExited(procs: seq<Proc>, p: nat, init: nat)
    requires WaitInv(procs) && ParentInv(procs, init) && p < |procs| && p != init && procs[p].state == RUNNING
    ensures WaitInv(Exited(procs, p, init))
  {
    assert ParentOk(procs, init, p);
    var q := procs[p].parent.value;
    var w := Woken(procs, ProcChan(q));
    WaitWoken(procs, ProcChan(q));
    WaitAdopted(w, p, init);
    var b := Reparented(w, p, init);
    assert b[p].state == RUNNING && b[p].parent.Some?;
    WaitZombieParent(procs, p, init);
    WaitZombie(b, p);
  }

  /** After the two wakeups of exit() the parent that `p` now has is not asleep in wait(). */
  lemma WaitZombieParent(procs: seq<Proc>, p: nat, init: nat)
    requires WaitInv(procs) && ParentInv(procs, init) && p < |procs| && p != init && procs[p].state == RUNNING
    ensures procs[p].parent.Some?
    ensures var b := Reparented(Woken(procs, ProcChan(procs[p].parent.value)), p, init);
      && b[p].parent.Some? && b[p].parent.value < |b|
      && var q := b[b[p].parent.value]; !(q.state == SLEEPING && q.chan.ProcChan?)
  {
    assert ParentOk(procs, init, p);
    var q := procs[p].parent.value;
    assert WaitOk(procs, q);
    var w := Woken(procs, ProcChan(q));
    assert !(w[q].state == SLEEPING && w[q].chan.ProcChan?);
  }

  lemma StepWait(s: State, a: Action)
    requires Inv(s) && Enabled(s, a)
    ensures WaitInv(Apply(s, a).procs)
  {
    hide PidInv;
    var procs := s.procs;
    match a
    case AllocChild(c, k) =>
      assert ParentOk(procs, s.init, k);
      WaitSlot(procs, k, procs[k].(state := EMBRYO, pid := s.nextpid));
    case AbandonChild(c) =>
      var k := s.work[Current(s, c)].child;
      WaitSlot(procs, k, procs[k].(state := UNUSED));
    case LinkChild(c) =>
      assert WorkOk(procs, s.work, Current(s, c));
      var k := s.work[Current(s, c)].child;
      WaitSlot(procs, k, procs[k].(parent := Some(Current(s, c))));
    case FinishFork(c) =>
      var k := s.work[Current(s, c)].child;
      WaitSlot(procs, k, procs[k].(state := RUNNABLE));
    case Exit(c) =>
      assert RunsOn(s.cpus, c, Current(s, c));
      WaitExited(procs, Current(s, c), s.init);
    case WaitReap(c, k) =>
      assert RunsOn(s.cpus, c, Current(s, c));
      WaitSlot(procs, k, Reaped(procs[k]));
    case Wakeup(id) => WaitWoken(procs, OtherChan(id));
    case Kill(k) => WaitSlot(procs, k, KillOne(procs[k]));
    case Look(c) =>
      var i := s.cpus[c].cursor;
      if procs[i].state == RUNNABLE {
        WaitSlot(procs, i, procs[i].(state := RUNNING, chan := NoChan));
      }
    case WaitSleep(c) =>
      var p := Current(s, c);
      WaitSlot(procs, p, procs[p].(state := SLEEPING, chan := ProcChan(p)));
    case SleepOn(c, id) =>
      var p := Current(s, c);
      WaitSlot(procs, p, procs[p].(state := SLEEPING, chan := OtherChan(id)));
    case Yield(c) =>
      var p := Current(s, c);
      WaitSlot(procs, p, procs[p].(state := RUNNABLE));
  }

  // ----- CPUs

  lemma CpuSame(procs: seq<Proc>, r: seq<Proc>, cpus: seq<Cpu>)
    requires CpuInv(procs, cpus) && |r| == |procs|
    requires forall i | 0 <= i < |procs| :: r[i].state == RUNNING <==> procs[i].state == RUNNING
    ensures CpuInv(r, cpus)
  {
  }

  lemma CpuLeaves(procs: seq<Proc>, r: seq<Proc>, cpus: seq<Cpu>, c: nat, p: nat)
    requires CpuInv(procs, cpus) && |r| == |procs| && RunsOn(cpus, c, p)
    requires forall i | 0 <= i < |procs| :: r[i].state == RUNNING <==> procs[i].state == RUNNING && i != p
    ensures CpuInv(r, OffCpu(cpus, c))
  {
    var cpus' := OffCpu(cpus, c);
    assert forall b: nat, i: nat :: RunsOn(cpus', b, i) <==> RunsOn(cpus, b, i) && b != c;
  }

  lemma CpuSkips(procs: seq<Proc>, cpus: seq<Cpu>, c: nat)
    requires CpuInv(procs, cpus) && c < |cpus| && cpus[c].cur.None?
    ensures CpuInv(procs, OffCpu(cpus, c))
  {
    var cpus' := OffCpu(cpus, c);
    assert forall b: nat, i: nat :: RunsOn(cpus', b, i) <==> RunsOn(cpus, b, i);
  }

  lemma CpuEnters(procs: seq<Proc>, r: seq<Proc>, cpus: seq<Cpu>, c: nat, p: nat)
    requires CpuInv(procs, cpus) && c < |cpus| && cpus[c].cur.None? && |r| == |procs|
    requires p < |procs| && p < NPROC && procs[p].state == RUNNABLE
    requires forall i | 0 <= i < |procs| :: r[i].state == RUNNING <==> procs[i].state == RUNNING || i == p
    ensures CpuInv(r, cpus[c := Cpu(Some(p), p)])
  {
    var cpus' := cpus[c := Cpu(Some(p), p)];
    assert forall b: nat, i: nat :: RunsOn(cpus', b, i) <==> RunsOn(cpus, b, i) || (b == c && i == p);
  }

  lemma StepCpu(s: State, a: Action)
    requires Inv(s) && Enabled(s, a)
    ensures CpuInv(Apply(s, a).procs, Apply(s, a).cpus)
  {
    hide PidInv, WaitInv, ParentInv;
    var r := Apply(s, a).procs;
    match a
    case Exit(c) =>
      assert RunsOn(s.cpus, c, Current(s, c));
      ExitedKeeps(s.procs, Current(s, c), s.init);
      CpuLeaves(s.procs, r, s.cpus, c, Current(s, c));
    case WaitSleep(c) =>
      assert RunsOn(s.cpus, c, Current(s, c));
      CpuLeaves(s.procs, r, s.cpus, c, Current(s, c));
    case SleepOn(c, _) =>
      assert RunsOn(s.cpus, c, Current(s, c));
      CpuLeaves(s.procs, r, s.cpus, c, Current(s, c));
    case Yield(c) =>
      assert RunsOn(s.cpus, c, Current(s, c));
      CpuLeaves(s.procs, r, s.cpus, c, Current(s, c));
    case Look(c) =>
      if s.procs[s.cpus[c].cursor].state == RUNNABLE {
        CpuEnters(s.procs, r, s.cpus, c, s.cpus[c].cursor);
      } else {
        CpuSkips(s.procs, s.cpus, c);
      }
    case AllocChild(_, _) => CpuSame(s.procs, r, s.cpus);
    case WaitReap(_, _) => CpuSame(s.procs, r, s.cpus);
    case Wakeup(_) => CpuSame(s.procs, r, s.cpus);
    case Kill(_) => CpuSame(s.procs, r, s.cpus);
    case _ =>
      assert WorkOk(s.procs, s.work, Current(s, a.c));
      CpuSame(s.procs, r, s.cpus);
  }

  // ----- Forks in progress

  /** Replacing a slot that stays alive if it was, stays an embryo if it was, and does not
      fall asleep in wait() inside fork(). */
  lemma WorkSlot(procs: seq<Proc>, k: nat, p: Proc, work: map<nat, Work>)
    requires WorkInv(procs, work) && k < |procs|
    requires Alive(procs[k].state) ==> Alive(p.state)
    requires procs[k].state == EMBRYO ==> p.state == EMBRYO && p.parent == procs[k].parent
    requires p.state == SLEEPING && p.chan.ProcChan? ==> k !in work
    ensures WorkInv(procs[k := p], work)
  {
    forall q | q in work
      ensures WorkOk(procs[k := p], work, q)
    {
      assert WorkOk(procs, work, q);
    }
  }

  lemma WorkWoken(procs: seq<Proc>, chan: Chan, work: map<nat, Work>)
    requires WorkInv(procs, work)
    ensures WorkInv(Woken(procs, chan), work)
  {
    forall q | q in work
      ensures WorkOk(Woken(procs, chan), work, q)
    {
      assert WorkOk(procs, work, q);
    }
  }

  lemma WorkAlloc(procs: seq<Proc>, work: map<nat, Work>, p: nat, k: nat, pid: nat)
    requires WorkInv(procs, work) && p < |procs| && p !in work && procs[p].state == RUNNING
    requires k < |procs| && procs[k].state == UNUSED && procs[k].parent.None?
    ensures WorkInv(procs[k := procs[k].(state := EMBRYO, pid := pid)], work[p := Work(k, false)])
  {
    var r, w := procs[k := procs[k].(state := EMBRYO, pid := pid)], work[p := Work(k, false)];
    forall q | q in w
      ensures WorkOk(r, w, q) && (q != p ==> w[q].child != k)
    {
      if q != p {
        assert WorkOk(procs, work, q);
      }
    }
  }

  lemma WorkLink(procs: seq<Proc>, work: map<nat, Work>, p: nat)
    requires WorkInv(procs, work) && p in work && work[p].child < |procs|
    ensures var k := work[p].child;
      WorkInv(procs[k := procs[k].(parent := Some(p))], work[p := Work(k, true)])
  {
    var k := work[p].child;
    var r, w := procs[k := procs[k].(parent := Some(p))], work[p := Work(k, true)];
    forall q | q in w
      ensures WorkOk(r, w, q)
    {
      assert WorkOk(procs, work, q) && WorkOk(procs, work, p);
    }
  }

  lemma WorkDone(procs: seq<Proc>, work: map<nat, Work>, p: nat, q: Proc)
    requires WorkInv(procs, work) && p in work && work[p].child < |procs|
    ensures WorkInv(procs[work[p].child := q], work - {p})
  {
    assert WorkOk(procs, work, p);
    forall i | i in work - {p}
      ensures WorkOk(procs[work[p].child := q], work - {p}, i)
    {
      assert WorkOk(procs, work, i);
    }
  }

  lemma StepWork(s: State, a: Action)
    requires Inv(s) && Enabled(s, a)
    ensures WorkInv(Apply(s, a).procs, Apply(s, a).work)
  {
    hide PidInv, WaitInv, WorkInv, ParentInv;
    var t := Apply(s, a);
    match a
    case AllocChild(c, k) =>
      assert RunsOn(s.cpus, c, Current(s, c));
      UnusedHasNoParent(s.procs, s.init, k);
      WorkAlloc(s.procs, s.work, Current(s, c), k, s.nextpid);
    case LinkChild(c) => WorkLink(s.procs, s.work, Current(s, c));
    case AbandonChild(c) => WorkDone(s.procs, s.work, Current(s, c), t.procs[s.work[Current(s, c)].child]);
    case FinishFork(c) => WorkDone(s.procs, s.work, Current(s, c), t.procs[s.work[Current(s, c)].child]);
    case Exit(c) =>
      assert RunsOn(s.cpus, c, Current(s, c));
      WorkExited(s.procs, Current(s, c), s.init, s.work);
    case Wakeup(id) => WorkWoken(s.procs, OtherChan(id), s.work);
    case WaitReap(_, k) => WorkSlot(s.procs, k, Reaped(s.procs[k]), s.work);
    case Kill(k) =>
      assert KillOne(s.procs[k]).state != SLEEPING;
      WorkSlot(s.procs, k, KillOne(s.procs[k]), s.work);
    case Look(c) =>
      var i := s.cpus[c].cursor;
      if s.procs[i].state == RUNNABLE {
        WorkSlot(s.procs, i, t.procs[i], s.work);
      }
    case _ =>
      var p := Current(s, a.c);
      assert RunsOn(s.cpus, a.c, p);
      WorkSlot(s.procs, p, t.procs[p], s.work);
  }

  lemma UnusedHasNoParent(procs: seq<Proc>, init: nat, k: nat)
    requires ParentInv(procs, init) && k < |procs| && procs[k].state == UNUSED
    ensures procs[k].parent.None?
  {
    assert ParentOk(procs, init, k);
  }

  lemma WorkExited(procs: seq<Proc>, p: nat, init: nat, work: map<nat, Work>)
    requires WorkInv(procs, work) && p < |procs| && p !in work && procs[p].state == RUNNING
    ensures WorkInv(Exited(procs, p, init), work)
  {
    ExitedKeeps(procs, p, init);
    var r := Exited(procs, p, init);
    forall q | q in work
      ensures WorkOk(r, work, q)
    {
      assert WorkOk(procs, work, q);
    }
  }

  // ----- All of it

  lemma StepKeepsInv(s: State, a: Action)
    requires Inv(s) && Enabled(s, a)
    ensures Inv(Apply(s, a))
  {
    StepParent(s, a);
    StepPid(s, a);
    StepWait(s, a);
    StepCpu(s, a);
    StepWork(s, a);
    hide ParentInv, PidInv, WaitInv, CpuInv, WorkInv;
  }

  lemma {:induction false} RunKeepsInv(s: State, actions: seq<Action>)
    requires Inv(s) && CanRun(s, actions)
    ensures Inv(Run(s, actions))
    decreases |actions|
  {
    hide Inv;
    if actions != [] {
      StepKeepsInv(s, actions[0]);
      RunKeepsInv(Apply(s, actions[0]), actions[1..]);
    }
  }

  /** Every state that any interleaving reaches from boot satisfies the invariant. */
  lemma Reachable(ncpu: nat, actions: seq<Action>)
    requires CanRun(Boot(ncpu), actions)
    ensures Inv(Run(Boot(ncpu), actions))
  {
    BootInv(ncpu);
    RunKeepsInv(Boot(ncpu), actions);
  }

  /** An exit is never missed: in every reachable state a zombie has a living parent, and that
      parent is not asleep in wait(). */
  lemma ZombieIsNoticed(ncpu: nat, actions: seq<Action>, z: nat)
    requires CanRun(Boot(ncpu), actions)
    requires z < |Run(Boot(ncpu), actions).procs| && Run(Boot(ncpu), actions).procs[z].state == ZOMBIE
    ensures var procs := Run(Boot(ncpu), actions).procs;
      && procs[z].parent.Some? && procs[z].parent.value < |procs|
      && var q := procs[procs[z].parent.value]; Alive(q.state) && !(q.state == SLEEPING && q.chan.ProcChan?)
  {
    Reachable(ncpu, actions);
    var s := Run(Boot(ncpu), actions);
    hide PidInv, CpuInv, WorkInv, Run, CanRun;
    assert ParentOk(s.procs, s.init, z);
    var q := s.procs[z].parent.value;
    assert WaitOk(s.procs, q);
    assert IsKid(s.procs[z], q);
  }
}
