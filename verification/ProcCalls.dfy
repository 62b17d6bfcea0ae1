/** What a process can do next, and what comes of the steps of one call. */
module ProcCalls {
  import opened Optional
  import opened ProcSpec
  import opened ProcMachine
  import opened ProcInv

  /** A process on a CPU that is not inside fork() can exit unless it is init, can yield, can
      sleep on anything, and can fork exactly if a slot is unused. */
  lemma RunningCan(s: State, c: nat, id: nat)
    requires Inv(s) && OnCpu(s, c) && Current(s, c) !in s.work
    ensures Enabled(s, Exit(c)) <==> Current(s, c) != s.init
    ensures Enabled(s, Yield(c)) && Enabled(s, SleepOn(c, id))
    ensures forall k: nat | Enabled(s, AllocChild(c, k)) ::
      k < |s.procs| && s.procs[k].state == UNUSED && forall j | 0 <= j < k :: s.procs[j].state != UNUSED
    ensures (exists k :: Enabled(s, AllocChild(c, k))) <==>
      exists k :: 0 <= k < |s.procs| && s.procs[k].state == UNUSED
  {
    hide Inv;
    if k :| 0 <= k < |s.procs| && s.procs[k].state == UNUSED {
      FirstUnused(s.procs, k);
      var j: nat :| IsFirstUnused(s.procs, j);
      assert Enabled(s, AllocChild(c, j));
    }
    if k: nat :| Enabled(s, AllocChild(c, k)) {
      assert s.procs[k].state == UNUSED;
    }
  }

  lemma {:induction false} FirstUnused(procs: seq<Proc>, k: nat)
    requires k < |procs| && procs[k].state == UNUSED
    ensures exists j: nat :: IsFirstUnused(procs, j)
  {
    if j: nat :| j < k && procs[j].state == UNUSED {
      FirstUnused(procs, j);
    } else {
      assert IsFirstUnused(procs, k);
    }
  }

  lemma {:induction false} FirstZombie(procs: seq<Proc>, p: nat, k: nat)
    requires k < |procs| && procs[k].parent == Some(p) && procs[k].state == ZOMBIE
    ensures exists j: nat :: IsFirstZombieKid(procs, p, j)
  {
    if j: nat :| j < k && procs[j].parent == Some(p) && procs[j].state == ZOMBIE {
      FirstZombie(procs, p, j);
    } else {
      assert IsFirstZombieKid(procs, p, k);
    }
  }

  /** In wait() a process reaps a child exactly if one has exited, and sleeps exactly if it has
      children, none of them has exited, and it has not been killed. */
  lemma WaitingCan(s: State, c: nat)
    requires Inv(s) && OnCpu(s, c) && Current(s, c) !in s.work
    ensures (exists k :: Enabled(s, WaitReap(c, k))) <==>
      exists k :: 0 <= k < |s.procs| && s.procs[k].parent == Some(Current(s, c)) && s.procs[k].state == ZOMBIE
    ensures forall k: nat | Enabled(s, WaitReap(c, k)) ::
      forall j | 0 <= j < k && j < |s.procs| && s.procs[j].parent == Some(Current(s, c)) :: s.procs[j].state != ZOMBIE
    ensures Enabled(s, WaitSleep(c)) <==>
      && (exists k :: 0 <= k < |s.procs| && s.procs[k].parent == Some(Current(s, c)))
      && (forall k | 0 <= k < |s.procs| && s.procs[k].parent == Some(Current(s, c)) :: s.procs[k].state != ZOMBIE)
      && !s.procs[Current(s, c)].killed
  {
    hide Inv;
    var p := Current(s, c);
    if k: nat :| k < |s.procs| && s.procs[k].parent == Some(p) && s.procs[k].state == ZOMBIE {
      FirstZombie(s.procs, p, k);
      var j: nat :| IsFirstZombieKid(s.procs, p, j);
      assert Enabled(s, WaitReap(c, j));
    }
    assert forall j | 0 <= j < |s.procs| :: IsKid(s.procs[j], p) == (s.procs[j].parent == Some(p));
    if k: nat :| Enabled(s, WaitReap(c, k)) {
      assert IsKid(s.procs[k], p);
    }
    if k: nat :| k < |s.procs| && s.procs[k].parent == Some(p) {
      assert IsKid(s.procs[k], p);
    }
  }

  /** An idle CPU can always look at the next slot, a wakeup can always happen, every process
      in the table can be killed, and a process inside fork() can go on with it. */
  lemma AlwaysCan(s: State, c: nat, id: nat)
    requires Inv(s) && c < |s.cpus|
    ensures s.cpus[c].cur.None? ==> Enabled(s, Look(c))
    ensures Enabled(s, Wakeup(id))
    ensures forall k: nat | k < |s.procs| && s.procs[k].pid != 0 :: Enabled(s, Kill(k))
    ensures OnCpu(s, c) && Current(s, c) in s.work ==>
      if s.work[Current(s, c)].linked then Enabled(s, FinishFork(c))
      else Enabled(s, LinkChild(c)) && Enabled(s, AbandonChild(c))
  {
    hide ParentInv, WaitInv;
  }

  // ----- Runs of a few steps

  lemma RunOne(s: State, a: Action)
    requires Enabled(s, a)
    ensures CanRun(s, [a]) && Run(s, [a]) == Apply(s, a)
  {
    assert [a][1..] == [];
    assert CanRun(Apply(s, a), []);
  }

  lemma RunTwo(s: State, a: Action, b: Action)
    requires Enabled(s, a) && Enabled(Apply(s, a), b)
    ensures CanRun(s, [a, b]) && Run(s, [a, b]) == Apply(Apply(s, a), b)
  {
    RunOne(Apply(s, a), b);
    assert [a, b][1..] == [b];
  }

  lemma RunThree(s: State, a: Action, b: Action, d: Action)
    requires Enabled(s, a) && Enabled(Apply(s, a), b) && Enabled(Apply(Apply(s, a), b), d)
    ensures CanRun(s, [a, b, d]) && Run(s, [a, b, d]) == Apply(Apply(Apply(s, a), b), d)
  {
    RunTwo(Apply(s, a), b, d);
    assert [a, b, d][1..] == [b, d];
  }

  /** fork(): the first unused slot is a runnable child of the caller with a new pid, and nothing
      else has changed. */
  lemma ForkMakesChild(s: State, c: nat, k: nat)
    requires Inv(s) && Enabled(s, AllocChild(c, k))
    ensures var fork := [AllocChild(c, k), LinkChild(c), FinishFork(c)];
      && CanRun(s, fork)
      && Run(s, fork) == s.(nextpid := s.nextpid + 1, procs := s.procs[k := s.procs[k].(
           state := RUNNABLE, pid := s.nextpid, parent := s.cpus[c].cur)])
  {
    hide Inv, IsFirstUnused;
    NotYet(s, c, k);
    var a := Apply(s, AllocChild(c, k));
    var b := Apply(a, LinkChild(c));
    RunThree(s, AllocChild(c, k), LinkChild(c), FinishFork(c));
    var p := Current(s, c);
    assert s.work[p := Work(k, false)][p := Work(k, true)] - {p} == s.work;
  }

  lemma NotYet(s: State, c: nat, k: nat)
    requires Enabled(s, AllocChild(c, k))
    ensures k < |s.procs| && Current(s, c) !in s.work
  {
  }

  /** fork() that runs out of memory: the slot is unused again. */
  lemma ForkGivesUp(s: State, c: nat, k: nat)
    requires Inv(s) && Enabled(s, AllocChild(c, k))
    ensures var fork := [AllocChild(c, k), AbandonChild(c)];
      && CanRun(s, fork)
      && Run(s, fork) == s.(nextpid := s.nextpid + 1, procs := s.procs[k := s.procs[k].(
           state := UNUSED, pid := s.nextpid)])
  {
    hide Inv, IsFirstUnused;
    NotYet(s, c, k);
    RunTwo(s, AllocChild(c, k), AbandonChild(c));
    var p := Current(s, c);
    assert s.work[p := Work(k, false)] - {p} == s.work;
  }

  /** After wakeup() nobody sleeps on the channel: whoever did is runnable, and nothing else has
      changed. */
  lemma WakeupWakesAll(s: State, id: nat)
    ensures Enabled(s, Wakeup(id))
    ensures var t := Apply(s, Wakeup(id));
      && t == s.(procs := t.procs) && |t.procs| == |s.procs|
      && forall i | 0 <= i < |s.procs| ::
           && !(t.procs[i].state == SLEEPING && t.procs[i].chan == OtherChan(id))
           && t.procs[i] == if s.procs[i].state == SLEEPING && s.procs[i].chan == OtherChan(id)
                            then s.procs[i].(state := RUNNABLE) else s.procs[i]
  {
  }

  /** A process that sleeps on a channel, and any other that does, is runnable after the next
      wakeup of it, and its CPU has gone back to its scheduler. */
  lemma SleepThenWakeup(s: State, c: nat, id: nat)
    requires Inv(s) && OnCpu(s, c)
    ensures var p, run := Current(s, c), [SleepOn(c, id), Wakeup(id)];
      && CanRun(s, run)
      && Run(s, run).procs[..] == seq(|s.procs|, i requires 0 <= i < |s.procs| =>
           if i == p then s.procs[p].(state := RUNNABLE, chan := OtherChan(id))
           else if s.procs[i].state == SLEEPING && s.procs[i].chan == OtherChan(id)
                then s.procs[i].(state := RUNNABLE) else s.procs[i])
      && Run(s, run).cpus == s.cpus[c := Cpu(None, (s.cpus[c].cursor + 1) % 64)]
  {
    hide ParentInv, PidInv, WaitInv, WorkInv;
    RunTwo(s, SleepOn(c, id), Wakeup(id));
    WakeupWakesAll(Apply(s, SleepOn(c, id)), id);
    assert RunsOn(s.cpus, c, Current(s, c));
  }

  /** yield() leaves the process runnable and its CPU at the next slot. */
  lemma YieldStaysRunnable(s: State, c: nat)
    requires Inv(s) && OnCpu(s, c)
    ensures Enabled(s, Yield(c))
    ensures Apply(s, Yield(c)) == s.(
      procs := s.procs[Current(s, c) := s.procs[Current(s, c)].(state := RUNNABLE)],
      cpus := s.cpus[c := Cpu(None, (s.cpus[c].cursor + 1) % 64)])
  {
    hide ParentInv, PidInv, WaitInv, WorkInv;
    assert RunsOn(s.cpus, c, Current(s, c));
  }

  /** The scheduler runs the process in the slot it looks at exactly if it is runnable, and
      otherwise goes on to the next slot. */
  lemma LookRunsIff(s: State, c: nat)
    requires Inv(s) && c < |s.cpus| && s.cpus[c].cur.None?
    ensures Enabled(s, Look(c))
    ensures var i, t := s.cpus[c].cursor, Apply(s, Look(c));
      if s.procs[i].state == RUNNABLE then
        && OnCpu(t, c) && Current(t, c) == i
        && t.procs == s.procs[i := s.procs[i].(state := RUNNING, chan := NoChan)]
      else t.procs == s.procs && t.cpus[c] == Cpu(None, (i + 1) % 64)
  {
    hide ParentInv, PidInv, WaitInv, WorkInv;
  }

  /** A parent asleep in wait() is runnable once its child has exited, and the child is then a
      zombie that the parent can reap as soon as it runs. */
  lemma ExitWakesParent(s: State, c: nat, q: nat)
    requires Inv(s) && Enabled(s, Exit(c)) && s.procs[Current(s, c)].parent == Some(q) && q < |s.procs|
    requires s.procs[q].state == SLEEPING && s.procs[q].chan == ProcChan(q)
    ensures var t := Apply(s, Exit(c));
      && t.procs[Current(s, c)].state == ZOMBIE && t.procs[Current(s, c)].parent == Some(q)
      && t.procs[q].state == RUNNABLE
      && t.cpus[c].cur.None?
  {
    hide PidInv, WaitInv, WorkInv;
    var p := Current(s, c);
    assert ParentOk(s.procs, s.init, p);
    assert RunsOn(s.cpus, c, p);
  }

  /** What wait() frees is unused and nobody's child. */
  lemma WaitFrees(s: State, c: nat, k: nat)
    requires Enabled(s, WaitReap(c, k))
    ensures Apply(s, WaitReap(c, k)) == s.(procs := s.procs[k := Proc(UNUSED, 0, None, s.procs[k].chan, false)])
  {
  }

  /** wait() puts the process to sleep on its own slot. */
  lemma WaitSleeps(s: State, c: nat)
    requires Inv(s) && Enabled(s, WaitSleep(c))
    ensures var p := Current(s, c);
      && Apply(s, WaitSleep(c)).procs == s.procs[p := s.procs[p].(state := SLEEPING, chan := ProcChan(p))]
      && Apply(s, WaitSleep(c)).cpus[c].cur.None?
  {
  }

  /** kill() marks the process and gets it out of any sleep. */
  lemma KillMarks(s: State, k: nat)
    requires Enabled(s, Kill(k))
    ensures var t := Apply(s, Kill(k));
      && t == s.(procs := s.procs[k := t.procs[k]])
      && t.procs[k] == s.procs[k].(killed := true, state := t.procs[k].state)
      && t.procs[k].state == if s.procs[k].state == SLEEPING then RUNNABLE else s.procs[k].state
  {
  }
}
