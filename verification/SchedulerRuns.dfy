/** What holds in every state of every run of the scheduler. */
module SchedulerRuns {
  import opened Collections
  import opened SchedulerModel

  // ---- the invariant ----

  /** Process pid stands in the run queue of its own priority. */
  ghost predicate Queued(s: Sched, pid: nat) {
    pid < |s.procs| && MIN_PRIORITY <= s.procs[pid].priority <= |s.queues| && pid in s.queues[s.procs[pid].priority - 1]
  }

  /** The run queue of priority p holds processes of that priority, each once, and none that is empty. */
  ghost predicate QueueOk(procs: seq<Process>, q: seq<nat>, p: nat) {
    && NoDuplicates(q)
    && forall i :: 0 <= i < |q| ==> q[i] < |procs| && procs[q[i]].priority == p && procs[q[i]].state != Empty
  }

  ghost predicate QueuesOk(s: Sched) {
    forall p :: 0 <= p < |s.queues| ==> QueueOk(s.procs, s.queues[p], p + 1)
  }

  /** A process has not run for longer than a quantum, and one that waits for ticks has some to wait for. */
  ghost predicate ProcessOk(p: Process, quantum: nat) {
    && p.rounds <= quantum
    && (p.state == Sleeping || p.state == BlockedTimeout ==> 1 <= p.sleepTimeout < SIZE_T)
  }

  /** What a selection relies on. */
  ghost predicate Orderly(s: Sched) {
    && s.nextPid < |s.procs|
    && s.quantum < SIZE_T
    && QueuesOk(s)
    && (forall i :: 0 <= i < |s.procs| ==> ProcessOk(s.procs[i], s.quantum))
    && Queued(s, s.current)
    && Queued(s, s.idle) && s.procs[s.idle].priority == MIN_PRIORITY
    && Runnable(s.procs, s.idle)
  }

  /** What a selection needs in order to run at all. */
  ghost predicate Searchable(s: Sched) {
    QueuesOk(s) && Selectable(s)
  }

  /** The current process is running, and no other is. */
  ghost predicate OneRuns(s: Sched) {
    forall i :: 0 <= i < |s.procs| ==> (s.procs[i].state == Running <==> i == s.current)
  }

  ghost predicate Inv(s: Sched) {
    Orderly(s) && OneRuns(s)
  }

  // ---- the search finds a process of the highest priority ----

  /** Process r is runnable, queued, and no runnable queued process has a higher priority. */
  ghost predicate Highest(s: Sched, r: nat) {
    && Queued(s, r) && Runnable(s.procs, r)
    && forall x: nat :: Queued(s, x) && Runnable(s.procs, x) ==> s.procs[x].priority <= s.procs[r].priority
  }

  /** No queued and runnable process has a priority above p. */
  ghost predicate AtMost(s: Sched, p: nat) {
    forall x: nat :: Queued(s, x) && Runnable(s.procs, x) ==> s.procs[x].priority <= p
  }

  lemma {:induction false} SearchHighest(s: Sched, hi: nat, lo: nat)
    requires QueuesOk(s) && lo <= hi <= |s.queues| && AtMost(s, hi)
    ensures match Search(s.procs, s.queues, hi, lo)
      case Some(pid) => Highest(s, pid) && lo < s.procs[pid].priority <= hi
      case None => AtMost(s, lo)
    decreases hi
  {
    if hi > lo {
      var q := s.queues[hi - 1];
      assert QueueOk(s.procs, q, hi);
      if FirstRunnable(s.procs, q, 0).None? {
        assert forall x: nat | x in q :: !Runnable(s.procs, x);
        assert AtMost(s, hi - 1);
        SearchHighest(s, hi - 1, lo);
      }
    }
  }

  lemma RotateElements(q: seq<nat>, start: nat)
    requires start <= |q|
    ensures forall x :: x in Rotate(q, start) <==> x in q
  {
    assert q == q[..start] + q[start..];
  }

  /** The search through a rotated queue finds a process of that queue, unless none in it is runnable. */
  lemma RotatedHighest(s: Sched, p: nat, start: nat)
    requires QueuesOk(s) && MIN_PRIORITY <= p <= |s.queues| && start <= |s.queues[p - 1]| && AtMost(s, p)
    ensures match FirstRunnable(s.procs, Rotate(s.queues[p - 1], start), 0)
      case Some(pid) => Highest(s, pid) && s.procs[pid].priority == p
      case None => AtMost(s, p - 1)
  {
    var q := s.queues[p - 1];
    assert QueueOk(s.procs, q, p);
    RotateElements(q, start);
    if FirstRunnable(s.procs, Rotate(q, start), 0).None? {
      assert forall x: nat | x in Rotate(q, start) :: !Runnable(s.procs, x);
    }
  }

  /** The search never falls through: it returns a runnable process of the highest priority that has one. */
  lemma SelectHighest(s: Sched)
    requires Orderly(s)
    ensures Highest(s, Select(s))
  {
    var p := s.procs[s.current].priority;
    var q := s.queues[p - 1];
    assert AtMost(s, |s.queues|);
    SearchHighest(s, |s.queues|, p);
    if Search(s.procs, s.queues, |s.queues|, p).None? {
      RotatedHighest(s, p, Start(q, s.current));
      if FirstRunnable(s.procs, Rotate(q, Start(q, s.current)), 0).None? {
        SearchHighest(s, p - 1, 0);
      }
    }
  }

  /** If neither of the first two searches finds anything, the third does. */
  lemma SearchNotEmpty(s: Sched, p: nat)
    requires Orderly(s) && p == s.procs[s.current].priority
    requires Search(s.procs, s.queues, |s.queues|, p).None?
    requires FirstRunnable(s.procs, Rotate(s.queues[p - 1], Start(s.queues[p - 1], s.current)), 0).None?
    ensures Search(s.procs, s.queues, p - 1, 0).Some?
  {
    assert AtMost(s, |s.queues|);
    SearchHighest(s, |s.queues|, p);
    RotatedHighest(s, p, Start(s.queues[p - 1], s.current));
    SearchHighest(s, p - 1, 0);
  }

  // ---- the steps keep the invariant ----

  /** No process but the current one is running, if that. */
  ghost predicate Settled(s: Sched) {
    Orderly(s) && forall i :: 0 <= i < |s.procs| && s.procs[i].state == Running ==> i == s.current
  }

  /** One process changes, but for its priority. */
  lemma ChangeQueues(s: Sched, pid: nat, p: Process)
    requires QueuesOk(s) && pid < |s.procs|
    requires p.priority == s.procs[pid].priority && (p.state == Empty ==> s.procs[pid].state == Empty)
    ensures QueuesOk(s.(procs := s.procs[pid := p]))
  {
    var s' := s.(procs := s.procs[pid := p]);
    forall k | 0 <= k < |s'.queues| ensures QueueOk(s'.procs, s'.queues[k], k + 1) {
      assert QueueOk(s.procs, s.queues[k], k + 1);
    }
  }

  lemma ChangeOrderly(s: Sched, pid: nat, p: Process)
    requires Orderly(s) && pid < |s.procs| && ProcessOk(p, s.quantum)
    requires p.priority == s.procs[pid].priority && (p.state == Empty ==> s.procs[pid].state == Empty)
    requires pid == s.idle ==> p.state == Ready || p.state == Running
    ensures Orderly(s.(procs := s.procs[pid := p]))
  {
    ChangeQueues(s, pid, p);
  }

  lemma WakeOrderly(s: Sched)
    requires Orderly(s)
    ensures Orderly(s.(procs := Wake(s.procs)))
  {
    var s' := s.(procs := Wake(s.procs));
    forall i | 0 <= i < |s.procs|
      ensures s'.procs[i].priority == s.procs[i].priority && ProcessOk(s'.procs[i], s.quantum)
    {
      assert ProcessOk(s.procs[i], s.quantum);
    }
    forall k | 0 <= k < |s'.queues| ensures QueueOk(s'.procs, s'.queues[k], k + 1) {
      assert QueueOk(s.procs, s.queues[k], k + 1);
    }
  }

  /** A process that may not go on hands over to the one selected. */
  lemma SwitchInv(s: Sched)
    requires Settled(s) && s.procs[s.current].state != Running && Select(s) != s.current
    ensures Inv(SwitchTo(s, Select(s)))
  {
    SelectHighest(s);
    var pid := Select(s);
    assert ProcessOk(s.procs[pid], s.quantum);
    ChangeOrderly(s, pid, s.procs[pid].(state := Running));
  }

  lemma RescheduleInv(s: Sched)
    requires Settled(s) && s.procs[s.current].state != Ready
    ensures Inv(Reschedule(s))
  {
    if s.procs[s.current].state != Running {
      SelectHighest(s);
      SwitchInv(s);
    }
  }

  lemma ChooseInv(s: Sched)
    requires Settled(s) && s.procs[s.current].state != Running
    ensures Inv(Choose(s, Running))
  {
    if Select(s) != s.current {
      SwitchInv(s);
    } else {
      assert ProcessOk(s.procs[s.current], s.quantum);
      ChangeOrderly(s, s.current, s.procs[s.current].(state := Running));
    }
  }

  lemma YieldingSettled(s: Sched)
    requires Inv(s)
    ensures Settled(s.(procs := SetState(s.procs, s.current, Ready)))
  {
    assert ProcessOk(s.procs[s.current], s.quantum);
    ChangeOrderly(s, s.current, s.procs[s.current].(state := Ready));
  }

  lemma YieldInv(s: Sched)
    requires Inv(s)
    ensures Inv(Yield(s))
  {
    YieldingSettled(s);
    ChooseInv(s.(procs := SetState(s.procs, s.current, Ready)));
  }

  /** When a tick chooses again, everything is in order for the choice. */
  lemma PreemptedSettled(s: Sched)
    requires Inv(s)
    ensures var w := s.(procs := Wake(s.procs)); var r := Preempted(w);
      && Orderly(w) && w.procs[w.current] == s.procs[s.current]
      && Settled(r) && r.procs[r.current] == s.procs[s.current].(rounds := 0, state := Ready)
  {
    var w := s.(procs := Wake(s.procs));
    WakeOrderly(s);
    var me := w.procs[w.current];
    assert me == s.procs[s.current] && ProcessOk(me, s.quantum);
    ChangeOrderly(w, w.current, me.(rounds := 0, state := Ready));
  }

  lemma TickInv(s: Sched)
    requires Inv(s)
    ensures Inv(Tick(s))
  {
    var w := s.(procs := Wake(s.procs));
    PreemptedSettled(s);
    if Expired(w) {
      ChooseInv(Preempted(w));
    } else {
      var me := w.procs[w.current];
      assert ProcessOk(me, s.quantum);
      ChangeOrderly(w, w.current, me.(rounds := (me.rounds + 1) % SIZE_T));
    }
  }

  lemma SleepingSettled(s: Sched, ms: nat)
    requires Inv(s) && s.current != s.idle
    ensures Settled(PutToSleep(s, s.current, ms))
  {
    assert ProcessOk(s.procs[s.current], s.quantum);
    ChangeOrderly(s, s.current, s.procs[s.current].(sleepTimeout := SleepTicks(ms, s.frequency), state := Sleeping));
  }

  /** A process other than the idle one that stops running leaves everything in order for a choice. */
  lemma StoppedSettled(s: Sched, pid: nat, state: ProcessState)
    requires Inv(s) && pid < |s.procs| && pid != s.idle && (state == Blocked || state == Killed)
    ensures Settled(s.(procs := SetState(s.procs, pid, state)))
  {
    assert ProcessOk(s.procs[pid], s.quantum);
    ChangeOrderly(s, pid, s.procs[pid].(state := state));
  }

  /** The idle process has the processor, and would sleep. */
  predicate IdleSleeps(s: Sched, pid: nat) {
    pid == s.idle == s.current
  }

  /** A sleep keeps the invariant exactly if it is not the idle process that sleeps. */
  lemma SleepInv(s: Sched, pid: nat, ms: nat)
    requires Inv(s)
    ensures Inv(Sleep(s, pid, ms)) <==> !IdleSleeps(s, pid)
  {
    if IdleSleeps(s, pid) {
      StoppedIdle(PutToSleep(s, pid, ms));
    } else if pid < |s.procs| && s.procs[pid].state == Running {
      SleepingSettled(s, ms);
      RescheduleInv(PutToSleep(s, pid, ms));
    }
  }

  /** If the idle process has the processor and may not go on, it is not able to run after the next choice either. */
  lemma StoppedIdle(s: Sched)
    requires Selectable(s) && s.current == s.idle && !Runnable(s.procs, s.idle)
    ensures !Inv(Reschedule(s))
  {
    assert !Runnable(Reschedule(s).procs, s.idle);
  }

  lemma BlockInv(s: Sched, pid: nat)
    requires Inv(s)
    ensures Inv(Block(s, pid))
  {
    if pid < |s.procs| && pid != s.idle {
      StoppedSettled(s, pid, Blocked);
      RescheduleInv(s.(procs := SetState(s.procs, pid, Blocked)));
    }
  }

  lemma UnblockInv(s: Sched, pid: nat)
    requires Inv(s)
    ensures Inv(Unblock(s, pid))
  {
    if Unblock(s, pid) != s {
      assert ProcessOk(s.procs[pid], s.quantum);
      ChangeOrderly(s, pid, s.procs[pid].(state := Ready));
    }
  }

  /** A kill keeps the invariant exactly if it is not the idle process that is killed. */
  lemma KillInv(s: Sched)
    requires Inv(s)
    ensures Inv(Kill(s)) <==> s.current != s.idle
  {
    if s.current == s.idle {
      StoppedIdle(s.(procs := SetState(s.procs, s.current, Killed)));
    } else {
      StoppedSettled(s, s.current, Killed);
      RescheduleInv(s.(procs := SetState(s.procs, s.current, Killed)));
    }
  }

  lemma SpawnInv(s: Sched, priority: nat)
    requires Inv(s) && MIN_PRIORITY <= priority <= |s.queues|
    ensures Inv(Spawn(s, priority))
  {
    var s' := Spawn(s, priority);
    if s' != s {
      var pid := FreePid(s.procs, s.nextPid, |s.procs|).value;
      assert ProcessOk(s.procs[pid], s.quantum);
      forall k | 0 <= k < |s'.queues| ensures QueueOk(s'.procs, s'.queues[k], k + 1) {
        assert QueueOk(s.procs, s.queues[k], k + 1);
      }
    }
  }

  /** A free number is found if there is one: every process number is looked at. */
  lemma {:induction false} FreePidLooks(procs: seq<Process>, pid: nat, looks: nat, x: nat)
    requires pid < |procs| && x < |procs| && procs[x].state == Empty
    requires if x >= pid then x < pid + looks else x + |procs| < pid + looks
    ensures FreePid(procs, pid, looks).Some?
    decreases looks
  {
    if procs[pid].state != Empty {
      FreePidLooks(procs, Behind(pid, |procs|), looks - 1, x);
    }
  }

  /** A process can be created exactly when there is an empty one. */
  lemma FreePidFinds(procs: seq<Process>, pid: nat)
    requires pid < |procs|
    ensures FreePid(procs, pid, |procs|).Some? <==> exists x: nat :: x < |procs| && procs[x].state == Empty
  {
    if x: nat :| x < |procs| && procs[x].state == Empty {
      FreePidLooks(procs, pid, |procs|, x);
    }
  }

  // ---- the start ----

  const DEFAULT_PRIORITY: nat := 3

  /** No process yet, and empty run queues. */
  function Blank(processes: nat, levels: nat, quantum: nat, frequency: nat): Sched {
    Sched(seq(processes, _ => Process(0, Empty, 0, 0)), seq(levels, _ => []), 0, 0, 0, quantum, frequency)
  }

  /** The idle, init and post-init tasks are created. */
  function Booting(processes: nat, levels: nat, quantum: nat, frequency: nat): Sched
    requires processes >= 3 && levels >= DEFAULT_PRIORITY
  {
    var s := Blank(processes, levels, quantum, frequency);
    Spawn(Spawn(Spawn(s, MIN_PRIORITY), DEFAULT_PRIORITY), levels)
  }

  /** The post-init task runs. */
  function Boot(processes: nat, levels: nat, quantum: nat, frequency: nat): Sched
    requires processes >= 3 && levels >= DEFAULT_PRIORITY
  {
    var s := Booting(processes, levels, quantum, frequency);
    s.(procs := SetState(s.procs, 2, Running), current := 2)
  }

  lemma SpawnNextPid(s: Sched, priority: nat)
    requires s.nextPid < |s.procs| && MIN_PRIORITY <= priority <= |s.queues| && s.procs[s.nextPid].state == Empty
    ensures Spawn(s, priority) ==
      s.(procs := s.procs[s.nextPid := s.procs[s.nextPid].(priority := priority, state := Ready)],
         queues := s.queues[priority - 1 := s.queues[priority - 1] + [s.nextPid]],
         nextPid := Behind(s.nextPid, |s.procs|))
  {
    assert FreePid(s.procs, s.nextPid, |s.procs|) == Some(s.nextPid);
  }

  /** The processes and queues at the start. */
  lemma BootTables(processes: nat, levels: nat, quantum: nat, frequency: nat)
    requires processes >= 3 && levels >= DEFAULT_PRIORITY
    ensures var b := Blank(processes, levels, quantum, frequency); var s := Boot(processes, levels, quantum, frequency);
      && s.procs == b.procs[0 := Process(MIN_PRIORITY, Ready, 0, 0)][1 := Process(DEFAULT_PRIORITY, Ready, 0, 0)]
                           [2 := Process(levels, Running, 0, 0)]
      && s.queues == (if levels == DEFAULT_PRIORITY then b.queues[0 := [0]][2 := [1, 2]]
                      else b.queues[0 := [0]][2 := [1]][levels - 1 := [2]])
      && s.nextPid < processes && s.idle == 0 && s.current == 2 && s.quantum == quantum
  {
    var s := Blank(processes, levels, quantum, frequency);
    assert forall k | 0 <= k < levels :: s.queues[k] == [];
    SpawnNextPid(s, MIN_PRIORITY);
    assert s.queues[0] + [0] == [0];
    var s1 := Spawn(s, MIN_PRIORITY);
    assert s1.queues == s.queues[0 := [0]];
    SpawnNextPid(s1, DEFAULT_PRIORITY);
    assert s1.queues[2] + [1] == [1];
    var s2 := Spawn(s1, DEFAULT_PRIORITY);
    assert s2.queues == s.queues[0 := [0]][2 := [1]];
    SpawnNextPid(s2, levels);
    assert s2.queues[levels - 1] + [2] == if levels == DEFAULT_PRIORITY then [1, 2] else [2];
  }

  lemma BootQueues(processes: nat, levels: nat, quantum: nat, frequency: nat)
    requires processes >= 3 && levels >= DEFAULT_PRIORITY
    ensures QueuesOk(Boot(processes, levels, quantum, frequency))
  {
    BootTables(processes, levels, quantum, frequency);
    var s := Boot(processes, levels, quantum, frequency);
    forall k | 0 <= k < |s.queues| ensures QueueOk(s.procs, s.queues[k], k + 1) {
      if k == 0 {
        assert s.queues[k] == [0];
      } else if k == 2 && levels == DEFAULT_PRIORITY {
        assert s.queues[k] == [1, 2];
      } else if k == 2 {
        assert s.queues[k] == [1];
      } else if k == levels - 1 {
        assert s.queues[k] == [2];
      } else {
        assert s.queues[k] == [];
      }
    }
  }

  lemma BootInv(processes: nat, levels: nat, quantum: nat, frequency: nat)
    requires processes >= 3 && levels >= DEFAULT_PRIORITY && quantum < SIZE_T
    ensures Inv(Boot(processes, levels, quantum, frequency))
  {
    BootTables(processes, levels, quantum, frequency);
    BootQueues(processes, levels, quantum, frequency);
    var s := Boot(processes, levels, quantum, frequency);
    forall i | 0 <= i < |s.procs| ensures ProcessOk(s.procs[i], quantum) {}
    assert s.queues[0][0] == 0;
    assert s.queues[levels - 1][|s.queues[levels - 1]| - 1] == 2;
  }

  // ---- what a step does to a process that is neither current nor its target ----

  /** Process i of s' is as in procs, or has just been selected from among the runnable. */
  ghost predicate Bystander(procs: seq<Process>, s': Sched, i: nat) {
    && i < |procs| == |s'.procs|
    && if s'.current == i then Runnable(procs, i) && s'.procs[i] == procs[i].(state := Running)
       else s'.procs[i] == procs[i]
  }

  lemma SwitchBystander(s: Sched, i: nat)
    requires Orderly(s) && i < |s.procs| && i != s.current
    ensures Bystander(s.procs, SwitchTo(s, Select(s)), i)
  {
    SelectHighest(s);
  }

  lemma RescheduleBystander(s: Sched, i: nat)
    requires Settled(s) && i < |s.procs| && i != s.current
    ensures Bystander(s.procs, Reschedule(s), i)
  {
    SwitchBystander(s, i);
  }

  lemma YieldBystander(s: Sched, i: nat)
    requires Inv(s) && i < |s.procs| && i != s.current
    ensures Bystander(s.procs, Yield(s), i)
  {
    var r := s.(procs := SetState(s.procs, s.current, Ready));
    YieldingSettled(s);
    SwitchBystander(r, i);
  }

  lemma TickBystander(s: Sched, i: nat)
    requires Inv(s) && i < |s.procs| && i != s.current
    ensures Bystander(Wake(s.procs), Tick(s), i)
  {
    var w := s.(procs := Wake(s.procs));
    PreemptedSettled(s);
    if Expired(w) {
      SwitchBystander(Preempted(w), i);
    }
  }

  lemma SleepBystander(s: Sched, pid: nat, ms: nat, i: nat)
    requires Inv(s) && !IdleSleeps(s, pid) && i < |s.procs| && i != s.current
    ensures Bystander(s.procs, Sleep(s, pid, ms), i)
  {
    if pid < |s.procs| && s.procs[pid].state == Running {
      SleepingSettled(s, ms);
      RescheduleBystander(PutToSleep(s, pid, ms), i);
    }
  }

  lemma BlockBystander(s: Sched, pid: nat, i: nat)
    requires Inv(s) && i < |s.procs| && i != s.current && i != pid
    ensures Bystander(s.procs, Block(s, pid), i)
  {
    if pid < |s.procs| && pid != s.idle {
      StoppedSettled(s, pid, Blocked);
      RescheduleBystander(s.(procs := SetState(s.procs, pid, Blocked)), i);
    }
  }

  lemma KillBystander(s: Sched, i: nat)
    requires Inv(s) && s.current != s.idle && i < |s.procs| && i != s.current
    ensures Bystander(s.procs, Kill(s), i)
  {
    StoppedSettled(s, s.current, Killed);
    RescheduleBystander(s.(procs := SetState(s.procs, s.current, Killed)), i);
  }
}
