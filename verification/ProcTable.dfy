/** The table scans of proc.c, run over the process table in place. */
module ProcTable {
  import opened Optional
  import opened ProcSpec

  /** The table after exit()'s scan has passed the first `n` rows. */
  ghost function AfterRows(w: seq<Proc>, p: nat, init: nat, n: nat): (r: seq<Proc>)
    requires n <= |w|
    ensures |r| == |w|
  {
    var m := Adopted(w, p, init)[..n] + w[n..];
    if HasZombieKid(w[..n], p) then Woken(m, ProcChan(init)) else m
  }

  lemma AfterRow(w: seq<Proc>, p: nat, init: nat, n: nat)
    requires n < |w|
    ensures var r := AfterRows(w, p, init, n);
      && r[n].parent == w[n].parent && (r[n].state == ZOMBIE <==> w[n].state == ZOMBIE)
      && AfterRows(w, p, init, n + 1) ==
         if !IsKid(w[n], p) then r
         else if w[n].state == ZOMBIE then Woken(r[n := r[n].(parent := Some(init))], ProcChan(init))
         else r[n := r[n].(parent := Some(init))]
  {
    var r := AfterRows(w, p, init, n);
    assert w[..n + 1] == w[..n] + [w[n]];
    assert HasZombieKid(w[..n + 1], p) <==> HasZombieKid(w[..n], p) || (IsKid(w[n], p) && w[n].state == ZOMBIE) by {
      if IsKid(w[n], p) && w[n].state == ZOMBIE {
        assert IsKid(w[..n + 1][n], p);
      }
      if HasZombieKid(w[..n], p) {
        var k: nat :| k < n && IsKid(w[..n][k], p) && w[..n][k].state == ZOMBIE;
        assert IsKid(w[..n + 1][k], p);
      }
    }
  }

  lemma AfterAllRows(w: seq<Proc>, p: nat, init: nat)
    ensures AfterRows(w, p, init, |w|) == Reparented(w, p, init)
  {
    assert w[..|w|] == w;
    assert Adopted(w, p, init)[..|w|] + w[|w|..] == Adopted(w, p, init);
  }

  /** The process in slot `i` is asleep on what exit() by `p` wakes: the slot of the parent of
      `p`, and that of init if `p` leaves a zombie child behind. */
  ghost predicate WokenBy(procs: seq<Proc>, p: nat, init: nat, i: nat)
    requires p < |procs| && i < |procs|
  {
    && procs[i].state == SLEEPING && procs[i].chan.ProcChan?
    && (procs[p].parent == Some(procs[i].chan.slot)
        || (procs[i].chan.slot == init
            && exists k: nat :: k < |procs| && procs[k].parent == Some(p) && procs[k].state == ZOMBIE))
  }

  /** What exit() by `p` does to each slot. */
  ghost predicate ExitDone(procs: seq<Proc>, r: seq<Proc>, p: nat, init: nat) {
    && p < |procs| == |r|
    && forall i | 0 <= i < |procs| ::
         && r[i].pid == procs[i].pid && r[i].chan == procs[i].chan && r[i].killed == procs[i].killed
         && r[i].parent == (if procs[i].parent == Some(p) then Some(init) else procs[i].parent)
         && (r[i].state == if i == p then ZOMBIE else if WokenBy(procs, p, init, i) then RUNNABLE else procs[i].state)
  }

  lemma ExitedIs(procs: seq<Proc>, p: nat, init: nat)
    requires p < |procs|
    ensures ExitDone(procs, Exited(procs, p, init), p, init)
  {
    var w := match procs[p].parent
      case Some(q) => Woken(procs, ProcChan(q))
      case None => procs;
    assert forall k | 0 <= k < |procs| :: w[k].parent == procs[k].parent;
    assert HasZombieKid(w, p) <==> HasZombieKid(procs, p);
  }

  class PTable {
    const table: array<Proc>
    var nextpid: nat

    /** wakeup1(): whoever sleeps on the channel becomes runnable, and nothing else changes. */
    method Wakeup1(chan: Chan)
      modifies table
      ensures forall i | 0 <= i < table.Length ::
        var was := old(table[..])[i];
        table[i] == if was.state == SLEEPING && was.chan == chan then was.(state := RUNNABLE) else was
      ensures table[..] == Woken(old(table[..]), chan)
    {
      for i := 0 to table.Length
        invariant forall k | 0 <= k < i :: table[k] == WakeOne(old(table[k]), chan)
        invariant forall k | i <= k < table.Length :: table[k] == old(table[k])
      {
        var p := table[i];
        if p.state == SLEEPING && p.chan == chan {
          table[i] := p.(state := RUNNABLE);
        }
      }
    }

    /** exit() by the process in slot `p`, from taking the lock to entering the scheduler. */
    method Exit(p: nat, init: nat)
      requires p < table.Length
      modifies table
      ensures table[..] == Exited(old(table[..]), p, init)
      ensures ExitDone(old(table[..]), table[..], p, init)
    {
      hide ExitDone;
      match table[p].parent {
        case Some(q) => Wakeup1(ProcChan(q));
        case None =>
      }
      ghost var w := table[..];
      for i := 0 to table.Length
        invariant table[..] == AfterRows(w, p, init, i)
      {
        AfterRow(w, p, init, i);
        if table[i].parent == Some(p) {
          table[i] := table[i].(parent := Some(init));
          if table[i].state == ZOMBIE {
            Wakeup1(ProcChan(init));
          }
        }
      }
      AfterAllRows(w, p, init);
      table[p] := table[p].(state := ZOMBIE);
      ExitedIs(old(table[..]), p, init);
    }

    /** The locked part of allocproc(): the first unused slot becomes an embryo. */
    method AllocProc() returns (r: Option<nat>)
      modifies this, table
      ensures r.None? ==> table[..] == old(table[..]) && nextpid == old(nextpid)
      ensures r.None? ==> forall j | 0 <= j < table.Length :: table[j].state != UNUSED
      ensures r.Some? ==>
        && r.value < table.Length && old(table[..])[r.value].state == UNUSED
        && (forall j | 0 <= j < r.value :: old(table[..])[j].state != UNUSED)
        && table[..] == old(table[..])[r.value := old(table[..])[r.value].(state := EMBRYO, pid := old(nextpid))]
        && nextpid == old(nextpid) + 1
    {
      for i := 0 to table.Length
        invariant table[..] == old(table[..]) && nextpid == old(nextpid)
        invariant forall j | 0 <= j < i :: table[j].state != UNUSED
      {
        if table[i].state == UNUSED {
          table[i] := table[i].(state := EMBRYO, pid := nextpid);
          nextpid := nextpid + 1;
          return Some(i);
        }
      }
      return None;
    }

    /** kill(). */
    method Kill(pid: nat) returns (r: int)
      modifies table
      ensures r == -1 ==> table[..] == old(table[..]) && forall j | 0 <= j < table.Length :: table[j].pid != pid
      ensures r != -1 ==> r == 0 && exists k: nat ::
        && k < table.Length && old(table[..])[k].pid == pid && (forall j | 0 <= j < k :: old(table[..])[j].pid != pid)
        && table[..] == old(table[..])[k := table[k]]
        && table[k] == KillOne(old(table[..])[k])
        && table[k].killed
        && table[k].state == (if old(table[..])[k].state == SLEEPING then RUNNABLE else old(table[..])[k].state)
        && table[k] == old(table[..])[k].(killed := true, state := table[k].state)
    {
      for i := 0 to table.Length
        invariant table[..] == old(table[..])
        invariant forall j | 0 <= j < i :: table[j].pid != pid
      {
        if table[i].pid == pid {
          var p := table[i];
          table[i] := p.(killed := true);
          if p.state == SLEEPING {
            table[i] := table[i].(state := RUNNABLE);
          }
          assert table[..] == old(table[..])[i := KillOne(old(table[..])[i])];
          assert IsFirstPid(old(table[..]), pid, i);
          return 0;
        }
      }
      return -1;
    }

    /** One scan of wait() by the process in slot `p`: the pid of a child it reaped, -1 if
        there is nothing to wait for, or None if it has to sleep. */
    method WaitScan(p: nat) returns (r: Option<int>, ghost child: nat)
      requires p < table.Length
      modifies table
      ensures r.None? ==>
        && table[..] == old(table[..])
        && (exists k :: 0 <= k < table.Length && table[k].parent == Some(p)) && !table[p].killed
        && (forall k | 0 <= k < table.Length && table[k].parent == Some(p) :: table[k].state != ZOMBIE)
      ensures r.Some? && HasZombieKid(old(table[..]), p) ==>
        && child < table.Length && r.value == old(table[..])[child].pid
        && old(table[..])[child].parent == Some(p) && old(table[..])[child].state == ZOMBIE
        && (forall j | 0 <= j < child && old(table[..])[j].parent == Some(p) :: old(table[..])[j].state != ZOMBIE)
        && table[..] == old(table[..])[child := Proc(UNUSED, 0, None, old(table[..])[child].chan, false)]
      ensures r.Some? && !HasZombieKid(old(table[..]), p) ==>
        && r.value == -1 && table[..] == old(table[..])
        && ((forall k | 0 <= k < table.Length :: table[k].parent != Some(p)) || table[p].killed)
    {
      child := 0;
      var havekids := false;
      for i := 0 to table.Length
        invariant table[..] == old(table[..])
        invariant forall j | 0 <= j < i :: !(IsKid(table[j], p) && table[j].state == ZOMBIE)
        invariant havekids <==> exists j: nat :: j < i && IsKid(table[j], p)
      {
        if table[i].parent == Some(p) {
          assert IsKid(table[i], p);
          havekids := true;
          if table[i].state == ZOMBIE {
            r, child := Some(table[i].pid), i;
            assert HasZombieKid(table[..], p) by { assert IsKid(table[..][i], p); }
            table[i] := table[i].(pid := 0, parent := None, killed := false, state := UNUSED);
            return;
          }
        }
      }
      assert HasKid(table[..], p) <==> havekids;
      if !havekids || table[p].killed {
        r := Some(-1);
      } else {
        r := None;
      }
    }
  }
}
