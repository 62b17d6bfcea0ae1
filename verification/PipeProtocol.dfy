/** Readers and writers of one pipe: the segments of any number of processes interleave. */
module PipeProtocol {
  import opened PipeSpec
  import opened PipeCode

  /** `readers` and `writers` are the processes asleep in piperead and pipewrite.  The last
      three fields record history: all bytes stored, all bytes returned by reads, and whether
      some pipewrite has returned -1 after storing bytes while a reader was asleep. */
  datatype State = State(
    ring: Ring, readopen: bool, writeopen: bool, readers: set<nat>, writers: set<nat>,
    stored: seq<Byte>, got: seq<Byte>, early: bool)

  datatype Action =
    | WriteRun(p: nat, bytes: seq<Byte>, killed: bool)
    | ReadRun(p: nat, n: nat, killed: bool)
    | CloseWrite
    | CloseRead
    | Interrupt(p: nat)

  ghost predicate Enabled(s: State, a: Action) {
    && RingOk(s.ring)
    && match a
       case WriteRun(p, _, _) => p !in s.readers && p !in s.writers
       case ReadRun(p, _, _) => p !in s.readers && p !in s.writers
       case _ => true
  }

  /** pipewrite wakes the readers when it finishes and before it sleeps, but not when it
      fails; piperead wakes the writers when it returns data, and closing an end wakes the
      other side. */
  ghost function Apply(s: State, a: Action): (t: State)
    requires Enabled(s, a)
  {
    match a
    case WriteRun(p, bytes, killed) =>
      var n := WriteCount(s.ring, |bytes|);
      var o := WriteOutcome(s.ring, |bytes|, s.readopen, killed);
      s.(ring := PutAll(s.ring, bytes[..n]), stored := s.stored + bytes[..n],
         readers := if o == Failed then s.readers else {},
         writers := if o == Blocked then s.writers + {p} else s.writers,
         early := s.early || (o == Failed && 0 < n && s.readers != {}))
    case ReadRun(p, n, killed) =>
      var o := ReadOutcome(s.ring, s.writeopen, killed);
      if o == Done then
        var m := ReadCount(s.ring, n);
        s.(ring := GetMany(s.ring, m), got := s.got + Contents(s.ring)[..m], writers := {})
      else
        s.(readers := if o == Blocked then s.readers + {p} else s.readers)
    case CloseWrite => s.(writeopen := false, readers := {})
    case CloseRead => s.(readopen := false, writers := {})
    case Interrupt(p) => s.(readers := s.readers - {p}, writers := s.writers - {p})
  }

  ghost predicate ReadersOk(s: State) {
    s.readers != {} ==> Empty(s.ring) && s.writeopen
  }

  ghost predicate Inv(s: State) {
    && RingOk(s.ring)
    && s.got + Contents(s.ring) == s.stored
    && (s.writers != {} ==> Full(s.ring) && s.readopen)
    && (!s.early ==> ReadersOk(s))
  }

  function Boot(data: seq<Byte>): (s: State) {
    State(Ring(data, 0, 0), true, true, {}, {}, [], [], false)
  }

  lemma WriteKeepsInv(s: State, p: nat, bytes: seq<Byte>, killed: bool)
    requires Inv(s) && Enabled(s, WriteRun(p, bytes, killed))
    ensures Inv(Apply(s, WriteRun(p, bytes, killed)))
  {
    hide Contents;
    var n := WriteCount(s.ring, |bytes|);
    PutAllAppends(s.ring, bytes[..n]);
    FullMeans(s.ring);
    FullMeans(PutAll(s.ring, bytes[..n]));
    assert n == 0 ==> bytes[..n] == [];
  }

  lemma ReadKeepsInv(s: State, p: nat, n: nat, killed: bool)
    requires Inv(s) && Enabled(s, ReadRun(p, n, killed))
    ensures Inv(Apply(s, ReadRun(p, n, killed)))
  {
    hide Contents;
    var m := ReadCount(s.ring, n);
    FullMeans(s.ring);
    GetManyRemoves(s.ring, m);
    FullMeans(GetMany(s.ring, m));
  }

  lemma StepKeepsInv(s: State, a: Action)
    requires Inv(s) && Enabled(s, a)
    ensures Inv(Apply(s, a))
  {
    match a
    case WriteRun(p, bytes, killed) => WriteKeepsInv(s, p, bytes, killed);
    case ReadRun(p, n, killed) => ReadKeepsInv(s, p, n, killed);
    case _ =>
  }

  ghost predicate CanRun(s: State, actions: seq<Action>)
    decreases |actions|
  {
    actions == [] || (Enabled(s, actions[0]) && CanRun(Apply(s, actions[0]), actions[1..]))
  }

  ghost function Run(s: State, actions: seq<Action>): (t: State)
    requires CanRun(s, actions)
    decreases |actions|
  {
    if actions == [] then s else Run(Apply(s, actions[0]), actions[1..])
  }

  /** Over every interleaving: nothing is lost, duplicated or reordered, and no writer sleeps
      on a pipe that has room or no reader. */
  lemma {:induction false} RunKeepsInv(s: State, actions: seq<Action>)
    requires Inv(s) && CanRun(s, actions)
    ensures Inv(Run(s, actions))
    decreases |actions|
  {
    hide Inv;
    if actions != [] {
      StepKeepsInv(s, actions[0]);
      RunKeepsInv(Apply(s, actions[0]), actions[1..]);
    }
  }

  lemma BootInv(data: seq<Byte>)
    requires |data| == PIPESIZE
    ensures Inv(Boot(data))
  {
  }

  /** Any process that is not asleep in the pipe can write.  It goes to sleep exactly if what it
      writes does not fit, the read end is open and it has not been killed. */
  lemma WriterSleepsIff(s: State, p: nat, bytes: seq<Byte>, killed: bool)
    requires Inv(s) && p !in s.readers && p !in s.writers
    ensures Enabled(s, WriteRun(p, bytes, killed))
    ensures var t := Apply(s, WriteRun(p, bytes, killed));
      && (p in t.writers <==> 512 < |Contents(s.ring)| + |bytes| && s.readopen && !killed)
      && (forall q | q != p :: q in t.writers <==> q in s.writers)
      && var room := 512 - |Contents(s.ring)|;
         0 <= room && t.stored == s.stored + bytes[..if |bytes| <= room then |bytes| else room]
  {
  }

  /** And can read: it sleeps exactly if the pipe is empty with its write end open and it has
      not been killed, and otherwise gets what is there, up to what it asks for. */
  lemma ReaderSleepsIff(s: State, p: nat, n: nat, killed: bool)
    requires Inv(s) && p !in s.readers && p !in s.writers
    ensures Enabled(s, ReadRun(p, n, killed))
    ensures var t := Apply(s, ReadRun(p, n, killed));
      && (p in t.readers <==> Contents(s.ring) == [] && s.writeopen && !killed)
      && (forall q | q != p :: q in t.readers <==> q in s.readers)
      && t.got == s.got + Contents(s.ring)[..if n <= |Contents(s.ring)| then n else |Contents(s.ring)|]
  {
    FullMeans(s.ring);
    assert s.got + [] == s.got;
  }

  /** A process that is killed in its sleep is not asleep any more. */
  lemma InterruptWakes(s: State, p: nat)
    requires Inv(s)
    ensures Enabled(s, Interrupt(p))
    ensures var t := Apply(s, Interrupt(p)); t == s.(readers := s.readers - {p}, writers := s.writers - {p})
  {
  }

  /** A writer's segment strands a sleeping reader exactly when it stores something, does not
      fit, and gives up instead of sleeping. */
  lemma WriteWakesReadersIff(s: State, p: nat, bytes: seq<Byte>, killed: bool)
    requires Inv(s) && ReadersOk(s) && Enabled(s, WriteRun(p, bytes, killed))
    ensures ReadersOk(Apply(s, WriteRun(p, bytes, killed))) <==>
      !(s.readers != {} && PIPESIZE < |bytes| && (!s.readopen || killed))
  {
    hide Contents;
    var n := WriteCount(s.ring, |bytes|);
    FullMeans(s.ring);
    PutAllAppends(s.ring, bytes[..n]);
    FullMeans(PutAll(s.ring, bytes[..n]));
  }

  /** That happens: a reader sleeps on the empty pipe, then a killed process writes more than
      fits.  The reader is left asleep at a full ring. */
  lemma ReaderCanBeStranded(data: seq<Byte>, bytes: seq<Byte>)
    requires |data| == PIPESIZE && PIPESIZE < |bytes|
    ensures var run := [ReadRun(1, 1, false), WriteRun(2, bytes, true)];
      && CanRun(Boot(data), run)
      && Run(Boot(data), run).readers == {1} && Full(Run(Boot(data), run).ring)
  {
    var s0 := Boot(data);
    var s1 := Apply(s0, ReadRun(1, 1, false));
    var s2 := Apply(s1, WriteRun(2, bytes, true));
    var run := [ReadRun(1, 1, false), WriteRun(2, bytes, true)];
    assert run[1..] == [WriteRun(2, bytes, true)];
    assert run[1..][1..] == [];
    hide Contents;
    PutAllAppends(s1.ring, bytes[..PIPESIZE]);
    FullMeans(PutAll(s1.ring, bytes[..PIPESIZE]));
    assert CanRun(s2, run[1..][1..]) && CanRun(s1, run[1..]);
    assert Run(s1, run[1..]) == s2;
  }
}
