/** The scheduler of kernel/kernel/scheduler/scheduler.c, on an array of processes and an array of run queues. */
module Scheduler {
  import opened Collections
  import opened SchedulerModel
  import opened SchedulerRuns
  import opened SchedulerEffects

  const ROUND_ROBIN_QUANTUM: nat := 25  // in milliseconds

  /** a modulo n, for an a that runs past n at most once. */
  method Wrap(a: nat, n: nat) returns (r: nat)
    requires 0 < n && a < 2 * n
    ensures r == if a < n then a else a - n
  {
    if a >= n { assert a == n + (a - n); }
    r := a % n;
  }

  predicate AllBelow(q: seq<nat>, n: nat) {
    forall i :: 0 <= i < |q| ==> q[i] < n
  }

  /** There is such a process, and its priority has a run queue. */
  predicate Queueable(procs: seq<Process>, pid: nat, levels: nat) {
    pid < |procs| && MIN_PRIORITY <= procs[pid].priority <= levels
  }

  lemma InBounds(s: Sched, p: nat)
    requires QueuesOk(s) && MIN_PRIORITY <= p <= |s.queues|
    ensures AllBelow(s.queues[p - 1], |s.procs|)
  {
    assert QueueOk(s.procs, s.queues[p - 1], p);
  }

  class Scheduler {
    const pcb: array<Process>
    const queues: array<seq<nat>>
    var current: nat
    var nextPid: nat
    var idle: nat
    var quantum: nat
    var frequency: nat

    ghost function State(): (s: Sched)
      reads this, pcb, queues
    {
      Sched(pcb[..], queues[..], current, nextPid, idle, quantum, frequency)
    }

    ghost predicate Valid()
      reads this, pcb, queues
    {
      Inv(State())
    }

    /** The first runnable process of a queue, if there is one. */
    method FirstOf(q: seq<nat>) returns (found: bool, pid: nat)
      requires AllBelow(q, pcb.Length)
      ensures FirstRunnable(pcb[..], q, 0) == if found then Some(pid) else None
    {
      for j := 0 to |q|
        invariant FirstRunnable(pcb[..], q, 0) == FirstRunnable(pcb[..], q, j)
      {
        pid := q[j];
        if pcb[pid].state == Ready || pcb[pid].state == Running {
          return true, pid;
        }
      }
      return false, 0;
    }

    /** select_next_process_with_lock. */
    method SelectNextProcess() returns (pid: nat)
      requires Searchable(State())
      ensures pid == Select(State())
      ensures Orderly(State()) ==> Chosen(State(), pid)
    {
      if Orderly(State()) { SelectChooses(State()); }
      var currentPriority := pcb[current].priority;
      // 1. A process of higher priority, if any.
      var found;
      found, pid := SearchDown(queues.Length, currentPriority);
      if found {
        return pid;
      }
      // 2. The next process of the same priority.
      InBounds(State(), currentPriority);
      found, pid := NextOf(queues[currentPriority - 1]);
      if found {
        return pid;
      }
      // 3. A process of lower priority.
      found, pid := SearchDown(currentPriority - 1, 0);
      if found {
        return pid;
      }
      return 0;
    }

    /** The first runnable process of the highest priority p, hi >= p > lo, that has one. */
    method SearchDown(hi: nat, lo: nat) returns (found: bool, pid: nat)
      requires lo <= hi <= queues.Length && QueuesOk(State())
      ensures Search(pcb[..], queues[..], hi, lo) == if found then Some(pid) else None
    {
      for p := hi downto lo
        invariant Search(pcb[..], queues[..], hi, lo) == Search(pcb[..], queues[..], p, lo)
      {
        InBounds(State(), p + 1);
        found, pid := FirstOf(queues[p]);
        if found {
          return;
        }
      }
      return false, 0;
    }

    /** The search through the current process's own queue, which starts behind that process. */
    method NextOf(q: seq<nat>) returns (found: bool, pid: nat)
      requires AllBelow(q, pcb.Length)
      ensures FirstRunnable(pcb[..], Rotate(q, Start(q, current)), 0) == if found then Some(pid) else None
    {
      var nextIndex := StartOf(q);
      ghost var rotated := Rotate(q, nextIndex);
      for i := 0 to |q|
        invariant FirstRunnable(pcb[..], rotated, 0) == FirstRunnable(pcb[..], rotated, i)
      {
        var index := Wrap(nextIndex + i, |q|);
        assert rotated[i] == q[index];
        pid := q[index];
        if pcb[pid].state == Ready || pcb[pid].state == Running {
          return true, pid;
        }
      }
      return false, 0;
    }

    /** The position behind the current process, or the first if it is last or not in the queue. */
    method StartOf(q: seq<nat>) returns (nextIndex: nat)
      ensures nextIndex == Start(q, current)
    {
      nextIndex := 0;
      for i := 0 to |q|
        invariant Find(q, current) >= i && nextIndex == 0
      {
        if q[i] == current {
          nextIndex := Wrap(i + 1, |q|);
          return;
        }
      }
    }

    /** switch_to_process_with_lock, as far as the scheduler's own state goes. */
    method SwitchToProcess(pid: nat)
      requires pid < pcb.Length
      modifies this, pcb
      ensures State() == SwitchTo(old(State()), pid)
    {
      if pid == current {
        return;
      }
      pcb[pid] := pcb[pid].(state := Running);
      current := pid;
    }

    /** scheduler_reschedule. */
    method RescheduleIfStopped()
      requires Searchable(State())
      modifies this, pcb
      ensures State() == Reschedule(old(State()))
    {
      if pcb[current].state != Running {
        var pid := SelectNextProcess();
        SwitchToProcess(pid);
      }
    }

    /** The loop of scheduler_tick over all processes. */
    method UpdateSleepTimeouts()
      modifies pcb
      ensures pcb[..] == Wake(old(pcb[..]))
    {
      for i := 0 to pcb.Length
        invariant forall k :: 0 <= k < i ==> pcb[k] == WakeOne(old(pcb[k]))
        invariant forall k :: i <= k < pcb.Length ==> pcb[k] == old(pcb[k])
      {
        if pcb[i].state == Sleeping || pcb[i].state == BlockedTimeout {
          pcb[i] := pcb[i].(sleepTimeout := (pcb[i].sleepTimeout + SIZE_T - 1) % SIZE_T);
          if pcb[i].sleepTimeout == 0 {
            pcb[i] := pcb[i].(state := Ready);
          }
        }
      }
    }

    /** scheduler_tick. */
    method SchedulerTick()
      requires Valid()
      modifies this, pcb
      ensures Valid() && State() == Tick(old(State()))
      ensures TickEffect(old(State()), State())
    {
      ghost var s := State();
      ghost var w := s.(procs := Wake(s.procs));
      TickInv(s);
      TickMeans(s);
      PreemptedSettled(s);
      UpdateSleepTimeouts();
      assert State() == w;
      AdvanceCurrent();
    }

    /** What a tick does once the sleep timeouts are updated. */
    method AdvanceCurrent()
      requires Searchable(State())
      modifies this, pcb
      ensures State() == Advance(old(State()))
    {
      ghost var w := State();
      if pcb[current].rounds == quantum {
        var previous := Preempt();
        ChangeQueues(w, current, pcb[current]);
        ChooseNext(previous);
      } else {
        CountRound();
      }
    }

    /** What a tick does to the current process otherwise. */
    method CountRound()
      requires current < pcb.Length
      modifies pcb
      ensures pcb[..] == old(pcb[..])[current := old(pcb[current]).(rounds := (old(pcb[current]).rounds + 1) % SIZE_T)]
    {
      pcb[current] := pcb[current].(rounds := (pcb[current].rounds + 1) % SIZE_T);
    }

    /** What a tick does to a process that has used up its quantum, before it looks for another. */
    method Preempt() returns (previous: ProcessState)
      requires current < pcb.Length
      modifies pcb
      ensures State() == Preempted(old(State())) && previous == old(pcb[current].state)
    {
      pcb[current] := pcb[current].(rounds := 0);
      previous := pcb[current].state;
      if previous != Blocked && previous != BlockedTimeout && previous != Killed {
        pcb[current] := pcb[current].(state := Ready);
      }
    }

    /** scheduler_yield. */
    method SchedulerYield()
      requires Valid()
      modifies this, pcb
      ensures Valid() && State() == Yield(old(State()))
      ensures YieldEffect(old(State()), State())
    {
      ghost var s := State();
      YieldInv(s);
      YieldMeans(s);
      YieldingSettled(s);
      pcb[current] := pcb[current].(state := Ready);
      assert State() == s.(procs := SetState(s.procs, s.current, Ready));
      ChooseNext(Running);
    }

    /** How a tick and a yield end: switch to the process selected, or give the current one its state back. */
    method ChooseNext(previous: ProcessState)
      requires Searchable(State())
      modifies this, pcb
      ensures State() == Choose(old(State()), previous)
    {
      var pid := SelectNextProcess();
      if pid == current {
        pcb[current] := pcb[current].(state := previous);
      } else {
        SwitchToProcess(pid);
      }
    }

    /** scheduler_proc_sleep_ms. If the idle task sleeps, there may be nobody left to run. */
    method SchedulerProcSleepMs(pid: nat, time: nat)
      requires Valid()
      modifies this, pcb
      ensures State() == Sleep(old(State()), pid, time)
      ensures !IdleSleeps(old(State()), pid) ==> SleepEffect(old(State()), pid, time, State())
      ensures Valid() <==> !IdleSleeps(old(State()), pid)
    {
      ghost var s := State();
      SleepInv(s, pid, time);
      if !IdleSleeps(s, pid) { SleepMeans(s, pid, time); }
      if pid >= pcb.Length || pcb[pid].state != Running {
        return;
      }
      var ticks := time * (frequency / 1000) % SIZE_T;
      ticks := if ticks == 0 then 1 else ticks;
      pcb[pid] := pcb[pid].(sleepTimeout := ticks, state := Sleeping);
      ChangeQueues(s, pid, pcb[pid]);
      assert State() == PutToSleep(s, pid, time);
      RescheduleIfStopped();
    }

    /** scheduler_block_process. */
    method SchedulerBlockProcess(pid: nat)
      requires Valid()
      modifies this, pcb
      ensures Valid() && State() == Block(old(State()), pid)
      ensures BlockEffect(old(State()), pid, State())
    {
      ghost var s := State();
      BlockInv(s, pid);
      BlockMeans(s, pid);
      if pid >= pcb.Length || pid == idle {
        return;
      }
      StoppedSettled(s, pid, Blocked);
      pcb[pid] := pcb[pid].(state := Blocked);
      assert State() == s.(procs := SetState(s.procs, pid, Blocked));
      RescheduleIfStopped();
    }

    /** scheduler_unblock_process. */
    method SchedulerUnblockProcess(pid: nat)
      requires Valid()
      modifies pcb
      ensures Valid() && State() == Unblock(old(State()), pid)
      ensures UnblockEffect(old(State()), pid, State())
    {
      UnblockInv(State(), pid);
      UnblockMeans(State(), pid);
      if pid >= pcb.Length || pid == idle {
        return;
      }
      if pcb[pid].state != Blocked && pcb[pid].state != BlockedTimeout && pcb[pid].state != Waiting {
        return;
      }
      pcb[pid] := pcb[pid].(state := Ready);
    }

    /** scheduler_kill_current_process. If the idle task is killed, there may be nobody left to run. */
    method SchedulerKillCurrentProcess()
      requires Valid()
      modifies this, pcb
      ensures State() == Kill(old(State()))
      ensures old(current) != old(idle) ==> KillEffect(old(State()), State())
      ensures Valid() <==> old(current) != old(idle)
    {
      ghost var s := State();
      KillInv(s);
      if current != idle { KillMeans(s); }
      pcb[current] := pcb[current].(state := Killed);
      ChangeQueues(s, current, pcb[current]);
      assert State() == s.(procs := SetState(s.procs, s.current, Killed));
      RescheduleIfStopped();
    }

    /** get_free_pid; without an empty process the kernel is suspended. */
    method GetFreePid() returns (found: bool, pid: nat)
      requires nextPid < pcb.Length
      modifies `nextPid
      ensures FreePid(pcb[..], old(nextPid), pcb.Length) == if found then Some(pid) else None
      ensures nextPid == if found then Behind(pid, pcb.Length) else old(nextPid)
      ensures if found then FirstEmpty(pcb[..], old(nextPid), pid)
              else forall x :: 0 <= x < pcb.Length ==> pcb[x].state != Empty
    {
      FreePidMeans(pcb[..], nextPid);
      if pcb[nextPid].state == Empty {
        pid := nextPid;
        nextPid := Wrap(nextPid + 1, pcb.Length);
        return true, pid;
      }
      pid := Wrap(nextPid + 1, pcb.Length);
      var i := 0;
      while pcb[pid].state != Empty && i < pcb.Length
        invariant i <= pcb.Length && pid < pcb.Length && nextPid == old(nextPid)
        invariant i < pcb.Length ==>
          && pid == (if nextPid + 1 + i < pcb.Length then nextPid + 1 + i else nextPid + 1 + i - pcb.Length)
          && FreePid(pcb[..], nextPid, pcb.Length) == FreePid(pcb[..], pid, pcb.Length - 1 - i)
        invariant i == pcb.Length ==> FreePid(pcb[..], nextPid, pcb.Length) == None
      {
        pid := Wrap(pid + 1, pcb.Length);
        i := i + 1;
      }
      if i == pcb.Length {
        return false, 0;
      }
      nextPid := Wrap(pid + 1, pcb.Length);
      return true, pid;
    }

    /** A kernel task is created, given its priority and queued, as create_idle_task and its like do. */
    method SpawnTask(priority: nat) returns (found: bool, pid: nat)
      requires nextPid < pcb.Length && MIN_PRIORITY <= priority <= queues.Length
      modifies pcb, queues, `nextPid
      ensures State() == Spawn(old(State()), priority)
      ensures found ==> Some(pid) == FreePid(old(pcb[..]), old(nextPid), pcb.Length)
      ensures !found ==> FreePid(old(pcb[..]), old(nextPid), pcb.Length) == None
      ensures if found then FirstEmpty(old(pcb[..]), old(nextPid), pid)
              else forall x :: 0 <= x < pcb.Length ==> old(pcb[x].state) != Empty
    {
      found, pid := GetFreePid();
      if found {
        pcb[pid] := pcb[pid].(priority := DEFAULT_PRIORITY, state := New);
        pcb[pid] := pcb[pid].(priority := priority);
        QueueSystemProcess(pid);
      }
    }

    /** scheduler_queue_system_process. */
    method QueueSystemProcess(pid: nat)
      modifies pcb, queues
      ensures !Queueable(old(pcb[..]), pid, queues.Length) ==> pcb[..] == old(pcb[..]) && queues[..] == old(queues[..])
      ensures Queueable(old(pcb[..]), pid, queues.Length) ==> var p := old(pcb[..])[pid].priority;
        && pcb[..] == old(pcb[..])[pid := old(pcb[..])[pid].(state := Ready)]
        && queues[..] == old(queues[..])[p - 1 := old(queues[..])[p - 1] + [pid]]
    {
      if pid >= pcb.Length {
        return;
      }
      if pcb[pid].priority > queues.Length {
        return;
      }
      if pcb[pid].priority < MIN_PRIORITY {
        return;
      }
      pcb[pid] := pcb[pid].(state := Ready);
      queues[pcb[pid].priority - 1] := queues[pcb[pid].priority - 1] + [pid];
    }

    /**
     scheduler_init and scheduler_start, for a timer frequency that is set before: the idle, init and
     post-init tasks are created, and the last of them is the first to run.
     */
    constructor (processes: nat, levels: nat, frequency: nat)
      requires processes >= 3 && levels >= DEFAULT_PRIORITY
      ensures Valid() && fresh(pcb) && fresh(queues)
      ensures State() == Boot(processes, levels, 25 * (frequency / 1000) % 0x1_0000_0000, frequency)
    {
      pcb := new Process[processes](_ => Process(0, Empty, 0, 0));
      queues := new seq<nat>[levels](_ => []);
      current, nextPid, idle := 0, 0, 0;
      this.frequency := frequency;
      quantum := ROUND_ROBIN_QUANTUM * (frequency / 1000) % SIZE_T;
      new;
      assert State() == Blank(processes, levels, quantum, frequency);
      SchedulerInit();
      SchedulerStart();
      BootInv(processes, levels, quantum, frequency);
    }

    /** scheduler_init. */
    method SchedulerInit()
      requires pcb.Length >= 3 && queues.Length >= DEFAULT_PRIORITY
      requires State() == Blank(pcb.Length, queues.Length, quantum, frequency)
      modifies pcb, queues, `nextPid, `idle
      ensures State() == Booting(pcb.Length, queues.Length, quantum, frequency)
    {
      BootTables(pcb.Length, queues.Length, quantum, frequency);
      var found, pid := SpawnTask(MIN_PRIORITY);
      idle := pid;
      found, pid := SpawnTask(DEFAULT_PRIORITY);
      found, pid := SpawnTask(queues.Length);
    }

    /** scheduler_start: the post-init task, the third to be created, runs first. */
    method SchedulerStart()
      requires pcb.Length >= 3
      modifies pcb, `current
      ensures State() == old(State()).(procs := SetState(old(pcb[..]), 2, Running), current := 2)
    {
      current := 2;
      pcb[current] := pcb[current].(state := Running);
    }

    /** A new process while the scheduler runs. */
    method Create(priority: nat) returns (found: bool, pid: nat)
      requires Valid() && MIN_PRIORITY <= priority <= queues.Length
      modifies pcb, queues, `nextPid
      ensures Valid() && State() == Spawn(old(State()), priority)
      ensures SpawnEffect(old(State()), priority, State())
      ensures if found then FirstEmpty(old(pcb[..]), old(nextPid), pid)
              else forall x :: 0 <= x < pcb.Length ==> old(pcb[x].state) != Empty
    {
      SpawnInv(State(), priority);
      SpawnMeans(State(), priority);
      found, pid := SpawnTask(priority);
    }
  }
}
