/** Safety, timing and fairness over whole runs of the scheduler. */
module SchedulerTheorems {
  import opened SchedulerModel
  import opened SchedulerRuns

  datatype Event =
    | Ticks | Yields | Sleeps(pid: nat, ms: nat) | Blocks(pid: nat) | Unblocks(pid: nat) | Kills | Spawns(priority: nat)

  /** The idle task only ever yields, and a new process gets a priority that has a queue. */
  predicate Allowed(s: Sched, e: Event) {
    && (e.Sleeps? ==> !IdleSleeps(s, e.pid))
    && (e.Kills? ==> s.current != s.idle)
    && (e.Spawns? ==> MIN_PRIORITY <= e.priority <= |s.queues|)
  }

  function Next(s: Sched, e: Event): Sched
    requires Selectable(s) && s.nextPid < |s.procs| && Allowed(s, e)
  {
    match e
    case Ticks => Tick(s)
    case Yields => Yield(s)
    case Sleeps(pid, ms) => Sleep(s, pid, ms)
    case Blocks(pid) => Block(s, pid)
    case Unblocks(pid) => Unblock(s, pid)
    case Kills => Kill(s)
    case Spawns(priority) => Spawn(s, priority)
  }

  /** What no step changes: how many processes there are, which one idles, and the quantum. */
  ghost predicate SameFrame(s: Sched, s': Sched) {
    |s'.procs| == |s.procs| && s'.idle == s.idle && s'.quantum == s.quantum
  }

  ghost predicate StepsTo(s: Sched, e: Event, s': Sched) {
    Selectable(s) && s.nextPid < |s.procs| && Allowed(s, e) && s' == Next(s, e)
  }

  /** Every step keeps the invariant, and the frame. */
  lemma StepInv(s: Sched, e: Event, s': Sched)
    requires Inv(s) && StepsTo(s, e, s')
    ensures Inv(s') && SameFrame(s, s')
  {
    match e
    case Ticks => TickInv(s);
    case Yields => YieldInv(s);
    case Sleeps(pid, ms) => SleepInv(s, pid, ms);
    case Blocks(pid) => BlockInv(s, pid);
    case Unblocks(pid) => UnblockInv(s, pid);
    case Kills => KillInv(s);
    case Spawns(priority) => SpawnInv(s, priority);
  }

  ghost predicate StepAt(states: seq<Sched>, events: seq<Event>, t: nat) {
    t < |events| && t + 1 < |states| ==> StepsTo(states[t], events[t], states[t + 1])
  }

  ghost predicate IsRun(states: seq<Sched>, events: seq<Event>) {
    && |states| == |events| + 1
    && Inv(states[0])
    && forall t {:trigger StepAt(states, events, t)} :: StepAt(states, events, t)
  }

  /**
   In every state of every run exactly one process is running, the current one; the idle process is ready or
   running in the lowest queue; and no process has been running for longer than its quantum.
   */
  lemma {:induction false} RunInv(states: seq<Sched>, events: seq<Event>, t: nat)
    requires IsRun(states, events) && t < |states|
    ensures Inv(states[t]) && SameFrame(states[0], states[t])
  {
    if t > 0 {
      RunInv(states, events, t - 1);
      assert StepAt(states, events, t - 1);
      StepInv(states[t - 1], events[t - 1], states[t]);
    }
  }

  /** The processes as a selection in this step finds them. */
  function Before(s: Sched, e: Event): seq<Process> {
    if e.Ticks? then Wake(s.procs) else s.procs
  }

  lemma NextBystander(s: Sched, e: Event, i: nat)
    requires Inv(s) && Allowed(s, e) && i < |s.procs| && i != s.current && s.procs[i].state != Empty
    requires e != Blocks(i) && (e == Unblocks(i) ==> s.procs[i].state !in {Blocked, BlockedTimeout, Waiting})
    ensures Bystander(Before(s, e), Next(s, e), i)
  {
    match e
    case Ticks => TickBystander(s, i);
    case Yields => YieldBystander(s, i);
    case Sleeps(pid, ms) => SleepBystander(s, pid, ms, i);
    case Blocks(pid) => BlockBystander(s, pid, i);
    case Unblocks(pid) =>
    case Kills => KillBystander(s, i);
    case Spawns(priority) =>
  }

  lemma RunStep(states: seq<Sched>, events: seq<Event>, t: nat)
    requires IsRun(states, events) && t < |events|
    ensures Inv(states[t]) && Inv(states[t + 1])
    ensures Allowed(states[t], events[t]) && states[t + 1] == Next(states[t], events[t])
  {
    RunInv(states, events, t);
    RunInv(states, events, t + 1);
    assert StepAt(states, events, t);
  }

  // ---- killed processes ----

  ghost predicate Awake(s: Sched, pid: nat) {
    Runnable(s.procs, pid)
  }

  /** Blocking it is the one thing that takes a killed process out of that state. */
  lemma KilledStays(s: Sched, e: Event, pid: nat)
    requires Inv(s) && Allowed(s, e) && pid < |s.procs| && s.procs[pid].state == Killed
    ensures Next(s, e).procs[pid].state == Killed <==> e != Blocks(pid)
    ensures e != Blocks(pid) ==> Next(s, e).current != pid
  {
    StepInv(s, e, Next(s, e));
    if e != Blocks(pid) { NextBystander(s, e, pid); }
  }

  /** Process pid is killed, and another one has the processor. */
  ghost predicate Dead(s: Sched, pid: nat) {
    pid < |s.procs| && s.procs[pid].state == Killed && s.current != pid
  }

  lemma DeadStep(s: Sched, e: Event, s': Sched, pid: nat)
    requires Inv(s) && StepsTo(s, e, s') && Dead(s, pid)
    ensures Dead(s', pid) <==> e != Blocks(pid)
  {
    StepInv(s, e, s');
    KilledStays(s, e, pid);
  }

  /** A killed process that nobody blocks never gets the processor again. */
  lemma {:induction false} KilledNeverRuns(states: seq<Sched>, events: seq<Event>, t: nat, u: nat, pid: nat)
    requires IsRun(states, events) && t <= u < |states| && Dead(states[t], pid)
    requires forall i :: t <= i < u ==> events[i] != Blocks(pid)
    ensures Dead(states[u], pid)
    decreases u
  {
    if t < u {
      KilledNeverRuns(states, events, t, u - 1, pid);
      RunInv(states, events, u - 1);
      assert StepAt(states, events, u - 1);
      DeadStep(states[u - 1], events[u - 1], states[u], pid);
    }
  }

  /** A killed process stays killed, and off the processor, over a stretch of a run exactly if nobody blocks it. */
  lemma KilledThroughout(states: seq<Sched>, events: seq<Event>, t: nat, u: nat, pid: nat)
    requires IsRun(states, events) && t <= u < |states| && Dead(states[t], pid)
    ensures (forall i :: t <= i <= u ==> Dead(states[i], pid)) <==>
            (forall i :: t <= i < u ==> events[i] != Blocks(pid))
  {
    if forall i :: t <= i <= u ==> Dead(states[i], pid) {
      forall i | t <= i < u ensures events[i] != Blocks(pid) {
        RunInv(states, events, i);
        assert StepAt(states, events, i) && Dead(states[i + 1], pid);
        DeadStep(states[i], events[i], states[i + 1], pid);
      }
    }
    if forall i :: t <= i < u ==> events[i] != Blocks(pid) {
      forall i | t <= i <= u ensures Dead(states[i], pid) { KilledNeverRuns(states, events, t, i, pid); }
    }
  }

  lemma ThreeSteps(s: Sched, s1: Sched, s2: Sched, s3: Sched, a: Event, b: Event, c: Event)
    requires Inv(s) && StepsTo(s, a, s1) && StepsTo(s1, b, s2) && StepsTo(s2, c, s3)
    ensures IsRun([s, s1, s2, s3], [a, b, c])
  {
    forall t: nat ensures StepAt([s, s1, s2, s3], [a, b, c], t) {
      assert t == 0 || t == 1 || t == 2 || t >= 3;
    }
  }

  /** The process that is running is killed, then blocked and unblocked, and can run again. */
  ghost predicate RevivedFrom(s: Sched) {
    exists s1, s2, s3 ::
      && IsRun([s, s1, s2, s3], [Kills, Blocks(s.current), Unblocks(s.current)])
      && Dead(s1, s.current) && Awake(s3, s.current)
  }

  lemma KillStep(s: Sched) returns (s1: Sched)
    requires Inv(s) && s.current != s.idle
    ensures StepsTo(s, Kills, s1) && Inv(s1) && SameFrame(s, s1) && Dead(s1, s.current)
  {
    s1 := Kill(s);
    StepInv(s, Kills, s1);
    KillHandsOver(s);
  }

  lemma BlockStep(s: Sched, pid: nat) returns (s1: Sched)
    requires Inv(s) && Dead(s, pid) && pid != s.idle
    ensures StepsTo(s, Blocks(pid), s1) && Inv(s1) && SameFrame(s, s1)
    ensures s1.procs[pid].state == Blocked
  {
    s1 := Block(s, pid);
    StepInv(s, Blocks(pid), s1);
  }

  lemma UnblockStep(s: Sched, pid: nat) returns (s1: Sched)
    requires Inv(s) && pid < |s.procs| && pid != s.idle && s.procs[pid].state == Blocked
    ensures StepsTo(s, Unblocks(pid), s1) && Awake(s1, pid)
  {
    s1 := Unblock(s, pid);
  }

  lemma Revives(s: Sched)
    requires Inv(s) && s.current != s.idle
    ensures RevivedFrom(s)
  {
    var pid := s.current;
    var s1 := KillStep(s);
    var s2 := BlockStep(s1, pid);
    var s3 := UnblockStep(s2, pid);
    ThreeSteps(s, s1, s2, s3, Kills, Blocks(pid), Unblocks(pid));
  }

  /** That can happen at once after the start. */
  lemma RevivalReached(processes: nat, levels: nat, quantum: nat, frequency: nat)
    requires processes >= 3 && levels >= DEFAULT_PRIORITY && quantum < SIZE_T
    ensures RevivedFrom(Boot(processes, levels, quantum, frequency))
  {
    BootInv(processes, levels, quantum, frequency);
    BootTables(processes, levels, quantum, frequency);
    Revives(Boot(processes, levels, quantum, frequency));
  }

  /** Only init and the idle task can run, and init is the one that is running. */
  ghost predicate InitLeft(s: Sched) {
    && s.idle == 0 && s.current == 1
    && forall i: nat :: Runnable(s.procs, i) ==> i <= 1
  }

  /** A kill hands the processor on to a process that was able to run, and takes it from no other. */
  lemma KillPasses(s: Sched) returns (s1: Sched)
    requires Inv(s) && s.current != s.idle
    ensures StepsTo(s, Kills, s1) && Inv(s1) && SameFrame(s, s1)
    ensures Runnable(s.procs, s1.current) && s1.current != s.current
    ensures forall i: nat :: Runnable(s1.procs, i) ==> Runnable(s.procs, i) && i != s.current
    ensures forall i: nat :: Queued(s, i) && Runnable(s.procs, i) && i != s.current ==>
      s.procs[i].priority <= s.procs[s1.current].priority
  {
    s1 := KillStep(s);
    var stopped := s.(procs := SetState(s.procs, s.current, Killed));
    StoppedSettled(s, s.current, Killed);
    SelectHighest(stopped);
    forall i: nat | Queued(s, i) && Runnable(s.procs, i) && i != s.current
      ensures s.procs[i].priority <= s.procs[s1.current].priority
    {
      assert Queued(stopped, i);
    }
  }

  lemma PostInitKilled(processes: nat, levels: nat, quantum: nat, frequency: nat) returns (s1: Sched)
    requires processes >= 3 && levels >= DEFAULT_PRIORITY && quantum < SIZE_T
    ensures StepsTo(Boot(processes, levels, quantum, frequency), Kills, s1) && Inv(s1) && InitLeft(s1)
  {
    var s := Boot(processes, levels, quantum, frequency);
    BootInv(processes, levels, quantum, frequency);
    BootTables(processes, levels, quantum, frequency);
    s1 := KillPasses(s);
    assert s.queues[2][0] == 1 && Queued(s, 1);
  }

  /** The idle task has the processor; killing it, or putting it to sleep, breaks the invariant. */
  ghost predicate IdleExposed(s: Sched) {
    && Inv(s) && s.current == s.idle
    && !Inv(Kill(s)) && forall ms: nat :: !Inv(Sleep(s, s.idle, ms))
  }

  lemma InitKilled(s: Sched) returns (s1: Sched)
    requires Inv(s) && InitLeft(s)
    ensures StepsTo(s, Kills, s1) && IdleExposed(s1)
  {
    s1 := KillPasses(s);
    KillInv(s1);
    forall ms: nat ensures !Inv(Sleep(s1, s1.idle, ms)) { SleepInv(s1, s1.idle, ms); }
  }

  lemma TwoSteps(s: Sched, s1: Sched, s2: Sched, a: Event, b: Event)
    requires Inv(s) && StepsTo(s, a, s1) && StepsTo(s1, b, s2)
    ensures IsRun([s, s1, s2], [a, b])
  {
    forall t: nat ensures StepAt([s, s1, s2], [a, b], t) {
      assert t == 0 || t == 1 || t >= 2;
    }
  }

  /** Two kills lead from s to where the idle task has the processor. */
  ghost predicate IdleAfterKills(s: Sched) {
    exists s1, s2 :: IsRun([s, s1, s2], [Kills, Kills]) && IdleExposed(s2)
  }

  /** That is so after the start, where the post-init and the init task end. */
  lemma IdleReached(processes: nat, levels: nat, quantum: nat, frequency: nat)
    requires processes >= 3 && levels >= DEFAULT_PRIORITY && quantum < SIZE_T
    ensures IdleAfterKills(Boot(processes, levels, quantum, frequency))
  {
    BootInv(processes, levels, quantum, frequency);
    var s1 := PostInitKilled(processes, levels, quantum, frequency);
    var s2 := InitKilled(s1);
    TwoSteps(Boot(processes, levels, quantum, frequency), s1, s2, Kills, Kills);
  }

  // ---- sleep ----

  function CountTicks(events: seq<Event>, t: nat, u: nat): nat
    requires t <= u <= |events|
    decreases u
  {
    if t == u then 0 else CountTicks(events, t, u - 1) + if events[u - 1].Ticks? then 1 else 0
  }

  /** The ticks that a sleep asks for, at least one. */
  function TicksAsked(ms: nat, frequency: nat): nat {
    if ms * (frequency / 1000) == 0 then 1 else ms * (frequency / 1000)
  }

  /** They are the ticks slept, unless the product does not fit in 32 bits. */
  lemma SleepTicksExact(ms: nat, frequency: nat)
    ensures SleepTicks(ms, frequency) == TicksAsked(ms, frequency) <==> ms * (frequency / 1000) < SIZE_T
  {
    var ticks := ms * (frequency / 1000);
    if ticks >= SIZE_T {
      assert ticks % SIZE_T < SIZE_T;
    }
  }

  /** Every sleep that can be asked for, in 32 bits, is exact if and only if a millisecond has one tick or none. */
  lemma SleepsExactIff(frequency: nat)
    ensures (forall ms: nat :: ms < SIZE_T ==> SleepTicks(ms, frequency) == TicksAsked(ms, frequency))
       <==> frequency < 2000
  {
    var k := frequency / 1000;
    if frequency < 2000 {
      forall ms: nat | ms < SIZE_T ensures SleepTicks(ms, frequency) == TicksAsked(ms, frequency) {
        SleepTicksExact(ms, frequency);
        assert k == 0 || k == 1;
      }
    } else {
      var ms := SIZE_T - 1;
      assert ms * k >= ms * 2;
      SleepTicksExact(ms, frequency);
    }
  }

  /** A process that goes to sleep loses the processor, and has its ticks before it. */
  lemma SleepStarts(s: Sched, ms: nat)
    requires Inv(s) && s.current != s.idle
    ensures var s' := Next(s, Sleeps(s.current, ms));
      && s'.procs[s.current].state == Sleeping && s'.procs[s.current].sleepTimeout == SleepTicks(ms, s.frequency)
      && s'.current != s.current
  {
    SleepingSettled(s, ms);
    SelectHighest(PutToSleep(s, s.current, ms));
  }

  /** Process pid sleeps, with k ticks to go, and another process has the processor. */
  ghost predicate Asleep(s: Sched, pid: nat, k: int) {
    pid < |s.procs| && s.procs[pid].state == Sleeping && s.procs[pid].sleepTimeout == k && s.current != pid
  }

  /** One step of a sleeper: a tick brings it one tick nearer to waking, and nothing else changes it. */
  lemma SleeperStep(s: Sched, e: Event, s': Sched, pid: nat, k: int)
    requires Inv(s) && StepsTo(s, e, s') && e != Blocks(pid) && Asleep(s, pid, k)
    ensures if !e.Ticks? then Asleep(s', pid, k) else if k == 1 then Awake(s', pid) else Asleep(s', pid, k - 1)
    ensures k >= 1
  {
    assert ProcessOk(s.procs[pid], s.quantum);
    NextBystander(s, e, pid);
  }

  /**
   A process asleep with k ticks to go is asleep, and without the processor, until the k-th tick, and that
   tick makes it ready; provided only that nobody blocks it meanwhile.
   */
  lemma {:induction false} SleepExact(states: seq<Sched>, events: seq<Event>, t: nat, u: nat, pid: nat, k: nat)
    requires IsRun(states, events) && t <= u < |states| && Asleep(states[t], pid, k)
    requires forall i :: t <= i < u ==> events[i] != Blocks(pid)
    ensures CountTicks(events, t, u) < k ==> Asleep(states[u], pid, k - CountTicks(events, t, u))
    ensures CountTicks(events, t, u) == k && t < u && events[u - 1].Ticks? ==> Awake(states[u], pid)
    ensures k >= 1
    decreases u
  {
    if t < u {
      SleepExact(states, events, t, u - 1, pid, k);
      RunInv(states, events, u - 1);
      assert StepAt(states, events, u - 1);
      if CountTicks(events, t, u - 1) < k {
        SleeperStep(states[u - 1], events[u - 1], states[u], pid, k - CountTicks(events, t, u - 1));
      }
    } else {
      RunInv(states, events, t);
      assert ProcessOk(states[t].procs[pid], states[t].quantum);
    }
  }

  // ---- the quantum ----

  predicate Expires(s: Sched, e: Event) {
    e.Ticks? && s.current < |s.procs| && Expired(s)
  }

  lemma KillHandsOver(s: Sched)
    requires Inv(s) && s.current != s.idle
    ensures Kill(s).current != s.current && Kill(s).procs[s.current].state == Killed
  {
    StoppedSettled(s, s.current, Killed);
    SelectHighest(s.(procs := SetState(s.procs, s.current, Killed)));
  }

  lemma BlockHandsOver(s: Sched)
    requires Inv(s) && s.current != s.idle
    ensures Block(s, s.current).current != s.current
  {
    StoppedSettled(s, s.current, Blocked);
    SelectHighest(s.(procs := SetState(s.procs, s.current, Blocked)));
  }

  /** A process that stays current uses its quantum tick by tick. */
  lemma RoundsStep(s: Sched, e: Event)
    requires Inv(s) && Allowed(s, e) && Next(s, e).current == s.current && !Expires(s, e)
    ensures Next(s, e).procs[s.current].rounds == s.procs[s.current].rounds + if e.Ticks? then 1 else 0
  {
    StepInv(s, e, Next(s, e));
    assert ProcessOk(s.procs[s.current], s.quantum);
    match e
    case Ticks => assert Wake(s.procs)[s.current] == s.procs[s.current];
    case Sleeps(pid, ms) =>
      if pid == s.current { SleepStarts(s, ms); }
    case Kills => KillHandsOver(s);
    case Blocks(pid) =>
      if pid == s.current && pid != s.idle { BlockHandsOver(s); }
    case _ =>
  }

  /**
   As long as a process keeps the processor and no tick finds its quantum used up, its rounds count its
   ticks. So among any quantum + 1 ticks that it gets there is one that makes the scheduler choose again.
   */
  lemma {:induction false} QuantumBounds(states: seq<Sched>, events: seq<Event>, t: nat, u: nat)
    requires IsRun(states, events) && t <= u < |states|
    requires forall i :: t <= i <= u ==> states[i].current == states[t].current
    requires forall i :: t <= i < u ==> !Expires(states[i], events[i])
    ensures states[t].current < |states[t].procs| == |states[u].procs|
    ensures states[u].procs[states[u].current].rounds ==
      states[t].procs[states[t].current].rounds + CountTicks(events, t, u)
    ensures CountTicks(events, t, u) <= states[0].quantum
    decreases u
  {
    RunInv(states, events, t);
    RunInv(states, events, u);
    assert ProcessOk(states[u].procs[states[u].current], states[u].quantum);
    if t < u {
      QuantumBounds(states, events, t, u - 1);
      RunStep(states, events, u - 1);
      RoundsStep(states[u - 1], events[u - 1]);
    }
  }
}
