/**
 The scheduler's state and what each of its calls does to it, with every call as one atomic step.
 */
module SchedulerModel {
  import opened Collections

  datatype ProcessState =
    | Empty | New | Ready | Running | Blocked | Sleeping | Waiting | Killed | BlockedTimeout | Error

  datatype Process = Process(priority: nat, state: ProcessState, rounds: nat, sleepTimeout: nat)

  /** queues[p - 1] is the run queue of priority p; current is the process that has the processor. */
  datatype Sched = Sched(
    procs: seq<Process>, queues: seq<seq<nat>>,
    current: nat, nextPid: nat, idle: nat,
    quantum: nat, frequency: nat)

  const MIN_PRIORITY: nat := 1
  const SIZE_T: nat := 0x1_0000_0000

  /** Process pid could be given the processor. */
  predicate Runnable(procs: seq<Process>, pid: nat) {
    pid < |procs| && (procs[pid].state == Ready || procs[pid].state == Running)
  }

  function SetState(procs: seq<Process>, pid: nat, state: ProcessState): seq<Process>
    requires pid < |procs|
  {
    procs[pid := procs[pid].(state := state)]
  }

  // ---- selection ----

  /** The first process from position j of a queue on that is runnable. */
  function FirstRunnable(procs: seq<Process>, q: seq<nat>, j: nat): (r: Option<nat>)
    requires j <= |q|
    ensures match r
      case Some(pid) => Runnable(procs, pid) &&
        exists i :: j <= i < |q| && q[i] == pid && forall k :: j <= k < i ==> !Runnable(procs, q[k])
      case None => forall i :: j <= i < |q| ==> !Runnable(procs, q[i])
    decreases |q| - j
  {
    if j == |q| then None
    else if Runnable(procs, q[j]) then Some(q[j])
    else FirstRunnable(procs, q, j + 1)
  }

  /** The first runnable process of the highest priority p, hi >= p > lo, that has one. */
  function Search(procs: seq<Process>, queues: seq<seq<nat>>, hi: nat, lo: nat): (r: Option<nat>)
    requires hi <= |queues|
    ensures r.Some? ==> Runnable(procs, r.value)
    decreases hi
  {
    if hi <= lo then None
    else
      var r := FirstRunnable(procs, queues[hi - 1], 0);
      if r.Some? then r else Search(procs, queues, hi - 1, lo)
  }

  /** The first position of x in q, or |q| if there is none. */
  function Find(q: seq<nat>, x: nat): (i: nat)
    ensures i <= |q| && (i < |q| ==> q[i] == x) && (i == |q| ==> x !in q)
    ensures forall k :: 0 <= k < i ==> q[k] != x
  {
    if q == [] then 0 else if q[0] == x then 0 else Find(q[1..], x) + 1
  }

  /** Where the search through the current process's own queue starts: behind that process. */
  function Start(q: seq<nat>, current: nat): (i: nat)
    ensures i <= |q|
  {
    var i := Find(q, current);
    if i + 1 < |q| then i + 1 else 0
  }

  function Rotate(q: seq<nat>, start: nat): seq<nat>
    requires start <= |q|
  {
    q[start..] + q[..start]
  }

  /** Every process number that matters for a selection is a process, and of a priority that has a queue. */
  predicate Selectable(s: Sched) {
    && s.current < |s.procs|
    && MIN_PRIORITY <= s.procs[s.current].priority <= |s.queues|
  }

  /** The three-phase search; process 0 if it finds nothing. */
  function Select(s: Sched): (pid: nat)
    requires Selectable(s)
    ensures pid < |s.procs|
  {
    var p := s.procs[s.current].priority;
    var above := Search(s.procs, s.queues, |s.queues|, p);
    if above.Some? then above.value
    else
      var q := s.queues[p - 1];
      var same := FirstRunnable(s.procs, Rotate(q, Start(q, s.current)), 0);
      if same.Some? then same.value
      else
        var below := Search(s.procs, s.queues, p - 1, 0);
        if below.Some? then below.value else 0
  }

  // ---- steps ----

  function SwitchTo(s: Sched, pid: nat): Sched
    requires pid < |s.procs|
  {
    if pid == s.current then s
    else s.(procs := SetState(s.procs, pid, Running), current := pid)
  }

  /** Give the processor to the process selected; if that is the current one, it gets the given state back. */
  function Choose(s: Sched, state: ProcessState): Sched
    requires Selectable(s)
  {
    var pid := Select(s);
    if pid == s.current then s.(procs := SetState(s.procs, pid, state)) else SwitchTo(s, pid)
  }

  /** Give the processor away if the current process is not running any more. */
  function Reschedule(s: Sched): Sched
    requires Selectable(s)
  {
    if s.procs[s.current].state != Running then SwitchTo(s, Select(s)) else s
  }

  /** One tick for a process that waits for time to pass. */
  function WakeOne(p: Process): Process {
    if p.state != Sleeping && p.state != BlockedTimeout then p
    else
      var left := (p.sleepTimeout + SIZE_T - 1) % SIZE_T;
      p.(sleepTimeout := left, state := if left == 0 then Ready else p.state)
  }

  function Wake(procs: seq<Process>): (woken: seq<Process>)
    ensures |woken| == |procs|
  {
    seq(|procs|, i requires 0 <= i < |procs| => WakeOne(procs[i]))
  }

  /** The current process has used up its quantum when a tick finds its rounds at the limit. */
  predicate Expired(s: Sched)
    requires s.current < |s.procs|
  {
    s.procs[s.current].rounds == s.quantum
  }

  /** The current process starts a new quantum, and could go on unless it is blocked or killed. */
  function Preempted(w: Sched): Sched
    requires w.current < |w.procs|
  {
    var me := w.procs[w.current];
    w.(procs := w.procs[w.current :=
      me.(rounds := 0, state := if me.state in {Blocked, BlockedTimeout, Killed} then me.state else Ready)])
  }

  /** What a tick does to the current process, and whether it chooses another. */
  function Advance(w: Sched): Sched
    requires Selectable(w)
  {
    var me := w.procs[w.current];
    if !Expired(w) then
      w.(procs := w.procs[w.current := me.(rounds := (me.rounds + 1) % SIZE_T)])
    else
      Choose(Preempted(w), me.state)
  }

  function Tick(s: Sched): Sched
    requires Selectable(s)
  {
    Advance(s.(procs := Wake(s.procs)))
  }

  function Yield(s: Sched): Sched
    requires Selectable(s)
  {
    if s.procs[s.current].state != Running then s
    else
      Choose(s.(procs := SetState(s.procs, s.current, Ready)), Running)
  }

  /** The ticks that a sleep of the given milliseconds takes: a 64-bit product cut to 32 bits, and at least 1. */
  function SleepTicks(ms: nat, frequency: nat): (ticks: nat)
    ensures 1 <= ticks < SIZE_T
  {
    var ticks := ms * (frequency / 1000) % SIZE_T;
    if ticks == 0 then 1 else ticks
  }

  function PutToSleep(s: Sched, pid: nat, ms: nat): Sched
    requires pid < |s.procs|
  {
    s.(procs := s.procs[pid := s.procs[pid].(sleepTimeout := SleepTicks(ms, s.frequency), state := Sleeping)])
  }

  function Sleep(s: Sched, pid: nat, ms: nat): Sched
    requires Selectable(s)
  {
    if pid >= |s.procs| || s.procs[pid].state != Running then s
    else
      Reschedule(PutToSleep(s, pid, ms))
  }

  function Block(s: Sched, pid: nat): Sched
    requires Selectable(s)
  {
    if pid >= |s.procs| || pid == s.idle then s
    else Reschedule(s.(procs := SetState(s.procs, pid, Blocked)))
  }

  function Unblock(s: Sched, pid: nat): Sched {
    if pid >= |s.procs| || pid == s.idle || s.procs[pid].state !in {Blocked, BlockedTimeout, Waiting} then s
    else s.(procs := SetState(s.procs, pid, Ready))
  }

  function Kill(s: Sched): Sched
    requires Selectable(s)
  {
    Reschedule(s.(procs := SetState(s.procs, s.current, Killed)))
  }

  /** The number behind i, counting round below n. */
  function Behind(i: nat, n: nat): nat {
    if i + 1 < n then i + 1 else 0
  }

  /** The first empty process number from the given one on, counting round, within the given number of looks. */
  function FreePid(procs: seq<Process>, pid: nat, looks: nat): (r: Option<nat>)
    requires pid < |procs|
    ensures r.Some? ==> r.value < |procs| && procs[r.value].state == Empty
    decreases looks
  {
    if looks == 0 then None
    else if procs[pid].state == Empty then Some(pid)
    else FreePid(procs, Behind(pid, |procs|), looks - 1)
  }

  /** A new process of the given priority is created and queued; nothing happens if there is no room for it. */
  function Spawn(s: Sched, priority: nat): Sched
    requires s.nextPid < |s.procs| && MIN_PRIORITY <= priority <= |s.queues|
  {
    match FreePid(s.procs, s.nextPid, |s.procs|)
    case None => s
    case Some(pid) =>
      s.(procs := s.procs[pid := s.procs[pid].(priority := priority, state := Ready)],
         queues := s.queues[priority - 1 := s.queues[priority - 1] + [pid]],
         nextPid := Behind(pid, |s.procs|))
  }
}
