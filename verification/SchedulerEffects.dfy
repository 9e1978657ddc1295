/**
 What each call of the scheduler does, said without the functions that compute it. What is said determines the
 state after the call, and that is the state that those functions lead to.
 */
module SchedulerEffects {
  import opened Collections
  import opened SchedulerModel
  import opened SchedulerRuns
  import opened SchedulerTheorems

  // ---- who gets the processor ----

  predicate CanRun(s: Sched, x: nat) {
    x < |s.procs| && (s.procs[x].state == Ready || s.procs[x].state == Running)
  }

  /** Process x stands in the run queue of its priority. */
  predicate InQueue(s: Sched, x: nat) {
    x < |s.procs| && 1 <= s.procs[x].priority <= |s.queues| && x in s.queues[s.procs[x].priority - 1]
  }

  /** How many places behind position i, counting round, position j of a queue of n stands; i itself is the last. */
  function Places(i: int, j: nat, n: nat): int {
    if j > i then j - i else j - i + n
  }

  /** The process at position a is the first behind position i, counting round, that can run. */
  ghost predicate FirstBehind(s: Sched, q: seq<nat>, i: int, a: nat) {
    && a < |q| && CanRun(s, q[a])
    && forall b :: 0 <= b < |q| && CanRun(s, q[b]) ==> Places(i, a, |q|) <= Places(i, b, |q|)
  }

  /**
   The process at position a of its queue is r, and the next of its priority: the first behind the current process
   if that has the same priority, and the first of the queue if not.
   */
  ghost predicate NextAt(s: Sched, r: nat, i: int, a: nat)
    requires InQueue(s, r) && s.current < |s.procs|
  {
    var q := s.queues[s.procs[r].priority - 1];
    && FirstBehind(s, q, i, a) && q[a] == r
    && if s.procs[r].priority == s.procs[s.current].priority then 0 <= i < |q| && q[i] == s.current else i == -1
  }

  ghost predicate NextInTurn(s: Sched, r: nat)
    requires InQueue(s, r) && s.current < |s.procs|
  {
    exists i: int, a: nat :: NextAt(s, r, i, a)
  }

  /** Process r can run, nobody who can run has a higher priority, and r is the next of its own. */
  ghost predicate Chosen(s: Sched, r: nat) {
    && s.current < |s.procs| && InQueue(s, r) && CanRun(s, r)
    && (forall x: nat :: InQueue(s, x) && CanRun(s, x) ==> s.procs[x].priority <= s.procs[r].priority)
    && NextInTurn(s, r)
  }

  lemma FirstBehindUnique(s: Sched, q: seq<nat>, i: int, a: nat, b: nat)
    requires -1 <= i < |q| && FirstBehind(s, q, i, a) && FirstBehind(s, q, i, b)
    ensures a == b
  {
    assert Places(i, a, |q|) == Places(i, b, |q|);
  }

  /** At most one process can be chosen. */
  lemma ChosenUnique(s: Sched, r: nat, r': nat)
    requires QueuesOk(s) && Chosen(s, r) && Chosen(s, r')
    ensures r == r'
  {
    var q := s.queues[s.procs[r].priority - 1];
    assert QueueOk(s.procs, q, s.procs[r].priority);
    var i, a: nat :| NextAt(s, r, i, a);
    var i', a': nat :| NextAt(s, r', i', a');
    FirstBehindUnique(s, q, i, a, a');
  }

  // ---- the three searches choose ----

  /** Position b of a queue is looked at as many places behind position i as it stands there. */
  lemma RotatedPlace(q: seq<nat>, i: nat, b: nat)
    requires i < |q| && b < |q|
    ensures var start := if i + 1 < |q| then i + 1 else 0; var k := Places(i, b, |q|) - 1;
      0 <= k < |q| && Rotate(q, start)[k] == q[b]
  {
  }

  lemma PlaceLookedAt(q: seq<nat>, i: nat, k: nat) returns (a: nat)
    requires i < |q| && k < |q|
    ensures a < |q| && Places(i, a, |q|) == k + 1
    ensures Rotate(q, if i + 1 < |q| then i + 1 else 0)[k] == q[a]
  {
    a := if i + 1 + k < |q| then i + 1 + k else i + 1 + k - |q|;
    RotatedPlace(q, i, a);
  }

  lemma RotatedFirst(s: Sched, q: seq<nat>, r: nat) returns (i: nat, a: nat)
    requires s.current in q && FirstRunnable(s.procs, Rotate(q, Start(q, s.current)), 0) == Some(r)
    ensures i < |q| && q[i] == s.current && FirstBehind(s, q, i, a) && q[a] == r
  {
    i := Find(q, s.current);
    var rotated := Rotate(q, Start(q, s.current));
    var k :| 0 <= k < |rotated| && rotated[k] == r && forall j :: 0 <= j < k ==> !Runnable(s.procs, rotated[j]);
    a := PlaceLookedAt(q, i, k);
    forall b | 0 <= b < |q| && CanRun(s, q[b]) ensures Places(i, a, |q|) <= Places(i, b, |q|) {
      RotatedPlace(q, i, b);
    }
  }

  lemma QueueFirst(s: Sched, q: seq<nat>, r: nat) returns (a: nat)
    requires FirstRunnable(s.procs, q, 0) == Some(r)
    ensures FirstBehind(s, q, -1, a) && q[a] == r
  {
    a :| a < |q| && q[a] == r && forall j :: 0 <= j < a ==> !Runnable(s.procs, q[j]);
  }

  lemma {:induction false} SearchNext(s: Sched, hi: nat, lo: nat)
    requires QueuesOk(s) && s.current < |s.procs| && hi <= |s.queues| && Search(s.procs, s.queues, hi, lo).Some?
    requires s.procs[s.current].priority <= lo || hi < s.procs[s.current].priority
    ensures var r := Search(s.procs, s.queues, hi, lo).value; InQueue(s, r) && NextInTurn(s, r)
    decreases hi
  {
    var q := s.queues[hi - 1];
    assert QueueOk(s.procs, q, hi);
    if FirstRunnable(s.procs, q, 0).Some? {
      var r := FirstRunnable(s.procs, q, 0).value;
      var a := QueueFirst(s, q, r);
      assert NextAt(s, r, -1, a);
    } else {
      SearchNext(s, hi - 1, lo);
    }
  }

  lemma OwnQueueNext(s: Sched, r: nat)
    requires Orderly(s)
    requires var q := s.queues[s.procs[s.current].priority - 1];
      FirstRunnable(s.procs, Rotate(q, Start(q, s.current)), 0) == Some(r)
    ensures InQueue(s, r) && NextInTurn(s, r)
  {
    var p := s.procs[s.current].priority;
    var q := s.queues[p - 1];
    assert QueueOk(s.procs, q, p);
    var i, a := RotatedFirst(s, q, r);
    assert NextAt(s, r, i, a);
  }

  lemma SelectNext(s: Sched)
    requires Orderly(s)
    ensures InQueue(s, Select(s)) && NextInTurn(s, Select(s))
  {
    var p := s.procs[s.current].priority;
    var q := s.queues[p - 1];
    if Search(s.procs, s.queues, |s.queues|, p).Some? {
      SearchNext(s, |s.queues|, p);
    } else if FirstRunnable(s.procs, Rotate(q, Start(q, s.current)), 0).Some? {
      OwnQueueNext(s, Select(s));
    } else {
      SelectHighest(s);
      SearchNotEmpty(s, p);
      SearchNext(s, p - 1, 0);
    }
  }

  lemma SelectChooses(s: Sched)
    requires Orderly(s)
    ensures Chosen(s, Select(s))
  {
    SelectHighest(s);
    SelectNext(s);
    forall x: nat | InQueue(s, x) && CanRun(s, x) ensures s.procs[x].priority <= s.procs[Select(s)].priority {
      assert Queued(s, x) && Runnable(s.procs, x);
    }
  }

  // ---- what the calls do ----

  /** From w on, where a call has done its own, the processor goes to the process chosen. */
  ghost predicate GivesTo(w: Sched, s': Sched) {
    && Chosen(w, s'.current)
    && s' == w.(procs := w.procs[s'.current := w.procs[s'.current].(state := Running)], current := s'.current)
  }

  function With(s: Sched, pid: nat, p: Process): Sched
    requires pid < |s.procs|
  {
    s.(procs := s.procs[pid := p])
  }

  /** A tick for a process that waits for time to pass: one tick fewer, and ready when none is left. */
  predicate Ticked(p: Process, p': Process) {
    if p.state == Sleeping || p.state == BlockedTimeout then
      p' == p.(sleepTimeout := if p.sleepTimeout == 0 then 0xFFFF_FFFF else p.sleepTimeout - 1,
               state := if p.sleepTimeout == 1 then Ready else p.state)
    else
      p' == p
  }

  ghost predicate TimePasses(procs: seq<Process>, procs': seq<Process>) {
    |procs'| == |procs| && forall i :: 0 <= i < |procs| ==> Ticked(procs[i], procs'[i])
  }

  /**
   A tick counts for the current process as long as that has not run for its quantum; when it has, it starts a new
   one and the processor is given away.
   */
  ghost predicate TickEffect(s: Sched, s': Sched)
    requires s.current < |s.procs|
  {
    exists procs :: TimePasses(s.procs, procs) && TickOn(s, procs, s')
  }

  ghost predicate TickOn(s: Sched, procs: seq<Process>, s': Sched)
    requires s.current < |s.procs| == |procs|
  {
    var me := s.procs[s.current];
    if me.rounds < s.quantum then
      s' == s.(procs := procs[s.current := me.(rounds := me.rounds + 1)])
    else
      GivesTo(s.(procs := procs[s.current := me.(rounds := 0, state := Ready)]), s')
  }

  ghost predicate YieldEffect(s: Sched, s': Sched)
    requires s.current < |s.procs|
  {
    GivesTo(With(s, s.current, s.procs[s.current].(state := Ready)), s')
  }

  /** The current process sleeps, for at least one tick; the product is cut to 32 bits. No other does. */
  ghost predicate SleepEffect(s: Sched, pid: nat, ms: nat, s': Sched)
    requires s.current < |s.procs|
  {
    if pid != s.current then s' == s
    else
      var product := ms * (s.frequency / 1000) % 0x1_0000_0000;
      var ticks := if product == 0 then 1 else product;
      GivesTo(With(s, pid, s.procs[pid].(state := Sleeping, sleepTimeout := ticks)), s')
  }

  /** Whatever state the process is in, it is blocked; if it was the current one, the processor is given away. */
  ghost predicate BlockEffect(s: Sched, pid: nat, s': Sched)
    requires s.current < |s.procs|
  {
    if pid >= |s.procs| || pid == s.idle then s' == s
    else
      var blocked := With(s, pid, s.procs[pid].(state := Blocked));
      if pid == s.current then GivesTo(blocked, s') else s' == blocked
  }

  /** A process that is blocked or waits, with a timeout or without, is ready. */
  ghost predicate UnblockEffect(s: Sched, pid: nat, s': Sched) {
    if pid < |s.procs| && pid != s.idle && s.procs[pid].state in {Blocked, BlockedTimeout, Waiting} then
      s' == With(s, pid, s.procs[pid].(state := Ready))
    else
      s' == s
  }

  ghost predicate KillEffect(s: Sched, s': Sched)
    requires s.current < |s.procs|
  {
    GivesTo(With(s, s.current, s.procs[s.current].(state := Killed)), s')
  }

  /** Process pid is the first from number i on, counting round, that is empty. */
  ghost predicate FirstEmpty(procs: seq<Process>, i: nat, pid: nat) {
    && pid < |procs| && procs[pid].state == Empty
    && forall x :: 0 <= x < |procs| && procs[x].state == Empty ==>
      Places(i - 1, pid, |procs|) <= Places(i - 1, x, |procs|)
  }

  /** Process pid gets the priority and is ready, and the last of its queue; the search goes on behind it. */
  predicate SpawnedAt(s: Sched, priority: nat, pid: nat, s': Sched)
    requires pid < |s.procs| && 1 <= priority <= |s.queues|
  {
    s' == s.(
      procs := s.procs[pid := s.procs[pid].(priority := priority, state := Ready)],
      queues := s.queues[priority - 1 := s.queues[priority - 1] + [pid]],
      nextPid := if pid + 1 == |s.procs| then 0 else pid + 1)
  }

  /** That is the first empty process from the next number on; if there is none, nothing happens. */
  ghost predicate SpawnEffect(s: Sched, priority: nat, s': Sched)
    requires 1 <= priority <= |s.queues|
  {
    if forall x :: 0 <= x < |s.procs| ==> s.procs[x].state != Empty then s' == s
    else exists pid: nat :: FirstEmpty(s.procs, s.nextPid, pid) && SpawnedAt(s, priority, pid, s')
  }

  // ---- the functions do that ----

  /** A selection and a switch, once the current process is ready or has stopped. */
  lemma SwitchGives(w: Sched)
    requires Orderly(w) && (Select(w) == w.current ==> w.procs[w.current].state == Running)
    ensures GivesTo(w, SwitchTo(w, Select(w)))
  {
    SelectChooses(w);
  }

  lemma ChooseGives(w: Sched)
    requires Orderly(w)
    ensures GivesTo(w, Choose(w, Running))
  {
    SelectChooses(w);
  }

  /** A process that has stopped is not selected. */
  lemma StoppedGives(w: Sched)
    requires Orderly(w) && !Runnable(w.procs, w.current)
    ensures GivesTo(w, Reschedule(w))
  {
    SelectHighest(w);
    SwitchGives(w);
  }

  lemma YieldMeans(s: Sched)
    requires Inv(s)
    ensures YieldEffect(s, Yield(s))
  {
    YieldingSettled(s);
    ChooseGives(s.(procs := SetState(s.procs, s.current, Ready)));
  }

  lemma TimePassesIs(s: Sched)
    requires Inv(s)
    ensures TimePasses(s.procs, Wake(s.procs))
  {
    forall i | 0 <= i < |s.procs| ensures Ticked(s.procs[i], Wake(s.procs)[i]) {
      assert ProcessOk(s.procs[i], s.quantum);
    }
  }

  lemma TickMeans(s: Sched)
    requires Inv(s)
    ensures TickEffect(s, Tick(s))
  {
    var w := s.(procs := Wake(s.procs));
    TimePassesIs(s);
    PreemptedSettled(s);
    assert ProcessOk(s.procs[s.current], s.quantum);
    if s.procs[s.current].rounds == s.quantum { ChooseGives(Preempted(w)); }
    assert TickOn(s, w.procs, Tick(s));
  }

  lemma SleepMeans(s: Sched, pid: nat, ms: nat)
    requires Inv(s) && !IdleSleeps(s, pid)
    ensures SleepEffect(s, pid, ms, Sleep(s, pid, ms))
  {
    if pid == s.current {
      SleepingSettled(s, ms);
      StoppedGives(PutToSleep(s, pid, ms));
    }
  }

  lemma BlockMeans(s: Sched, pid: nat)
    requires Inv(s)
    ensures BlockEffect(s, pid, Block(s, pid))
  {
    if pid == s.current && pid != s.idle {
      StoppedSettled(s, pid, Blocked);
      StoppedGives(s.(procs := SetState(s.procs, pid, Blocked)));
    }
  }

  lemma UnblockMeans(s: Sched, pid: nat)
    ensures UnblockEffect(s, pid, Unblock(s, pid))
  {
  }

  lemma KillMeans(s: Sched)
    requires Inv(s) && s.current != s.idle
    ensures KillEffect(s, Kill(s))
  {
    StoppedSettled(s, s.current, Killed);
    StoppedGives(s.(procs := SetState(s.procs, s.current, Killed)));
  }

  lemma {:induction false} FreePidFirst(procs: seq<Process>, pid: nat, looks: nat)
    requires pid < |procs| && looks <= |procs| && FreePid(procs, pid, looks).Some?
    ensures FirstEmpty(procs, pid, FreePid(procs, pid, looks).value)
    decreases looks
  {
    if procs[pid].state != Empty {
      var next := Behind(pid, |procs|);
      FreePidFirst(procs, next, looks - 1);
    }
  }

  lemma FreePidMeans(procs: seq<Process>, pid: nat)
    requires pid < |procs|
    ensures match FreePid(procs, pid, |procs|)
      case Some(free) => FirstEmpty(procs, pid, free)
      case None => forall x :: 0 <= x < |procs| ==> procs[x].state != Empty
  {
    FreePidFinds(procs, pid);
    if FreePid(procs, pid, |procs|).Some? { FreePidFirst(procs, pid, |procs|); }
  }

  lemma SpawnMeans(s: Sched, priority: nat)
    requires s.nextPid < |s.procs| && 1 <= priority <= |s.queues|
    ensures SpawnEffect(s, priority, Spawn(s, priority))
  {
    FreePidMeans(s.procs, s.nextPid);
  }

  // ---- what is said leaves no doubt ----

  lemma GivesToUnique(w: Sched, s1: Sched, s2: Sched)
    requires QueuesOk(w) && GivesTo(w, s1) && GivesTo(w, s2)
    ensures s1 == s2
  {
    ChosenUnique(w, s1.current, s2.current);
  }

  lemma TickUnique(s: Sched, s1: Sched, s2: Sched)
    requires Inv(s) && TickEffect(s, s1) && TickEffect(s, s2)
    ensures s1 == s2
  {
    var procs1 :| TimePasses(s.procs, procs1) && TickOn(s, procs1, s1);
    var procs2 :| TimePasses(s.procs, procs2) && TickOn(s, procs2, s2);
    TimePassesIs(s);
    assert procs1 == Wake(s.procs) == procs2;
    PreemptedSettled(s);
    var me := s.procs[s.current];
    if me.rounds >= s.quantum {
      assert ProcessOk(me, s.quantum);
      GivesToUnique(s.(procs := procs1[s.current := me.(rounds := 0, state := Ready)]), s1, s2);
    }
  }

  /** What a step does, whichever call it is. */
  ghost predicate Effect(s: Sched, e: Event, s': Sched)
    requires s.current < |s.procs| && (e.Spawns? ==> 1 <= e.priority <= |s.queues|)
  {
    match e
    case Ticks => TickEffect(s, s')
    case Yields => YieldEffect(s, s')
    case Sleeps(pid, ms) => SleepEffect(s, pid, ms, s')
    case Blocks(pid) => BlockEffect(s, pid, s')
    case Unblocks(pid) => UnblockEffect(s, pid, s')
    case Kills => KillEffect(s, s')
    case Spawns(priority) => SpawnEffect(s, priority, s')
  }

  lemma StepMeans(s: Sched, e: Event)
    requires Inv(s) && Allowed(s, e)
    ensures Effect(s, e, Next(s, e))
  {
    match e
    case Ticks => TickMeans(s);
    case Yields => YieldMeans(s);
    case Sleeps(pid, ms) => SleepMeans(s, pid, ms);
    case Blocks(pid) => BlockMeans(s, pid);
    case Unblocks(pid) => UnblockMeans(s, pid);
    case Kills => KillMeans(s);
    case Spawns(priority) => SpawnMeans(s, priority);
  }

  lemma SleepUnique(s: Sched, pid: nat, ms: nat, s1: Sched, s2: Sched)
    requires Inv(s) && SleepEffect(s, pid, ms, s1) && SleepEffect(s, pid, ms, s2)
    ensures s1 == s2
  {
    if pid == s.current {
      var product := ms * (s.frequency / 1000) % 0x1_0000_0000;
      var ticks := if product == 0 then 1 else product;
      GivesAwayUnique(s, s.procs[pid].(state := Sleeping, sleepTimeout := ticks), s1, s2);
    }
  }

  lemma SpawnUnique(s: Sched, priority: nat, s1: Sched, s2: Sched)
    requires 1 <= priority <= |s.queues| && SpawnEffect(s, priority, s1) && SpawnEffect(s, priority, s2)
    ensures s1 == s2
  {
    if x: nat :| x < |s.procs| && s.procs[x].state == Empty {
      var pid: nat :| FirstEmpty(s.procs, s.nextPid, pid) && SpawnedAt(s, priority, pid, s1);
      var pid': nat :| FirstEmpty(s.procs, s.nextPid, pid') && SpawnedAt(s, priority, pid', s2);
      assert Places(s.nextPid - 1, pid, |s.procs|) == Places(s.nextPid - 1, pid', |s.procs|);
    }
  }

  lemma EffectUnique(s: Sched, e: Event, s1: Sched, s2: Sched)
    requires Inv(s) && Allowed(s, e) && Effect(s, e, s1) && Effect(s, e, s2)
    ensures s1 == s2
  {
    var me := s.procs[s.current];
    match e
    case Ticks => TickUnique(s, s1, s2);
    case Yields => GivesAwayUnique(s, me.(state := Ready), s1, s2);
    case Sleeps(pid, ms) => SleepUnique(s, pid, ms, s1, s2);
    case Blocks(pid) => if pid == s.current && pid != s.idle { GivesAwayUnique(s, me.(state := Blocked), s1, s2); }
    case Unblocks(pid) =>
    case Kills => GivesAwayUnique(s, me.(state := Killed), s1, s2);
    case Spawns(priority) => SpawnUnique(s, priority, s1, s2);
  }

  lemma GivesAwayUnique(s: Sched, me: Process, s1: Sched, s2: Sched)
    requires Inv(s) && me.priority == s.procs[s.current].priority && me.state != Empty
    requires var w := With(s, s.current, me); GivesTo(w, s1) && GivesTo(w, s2)
    ensures s1 == s2
  {
    ChangeQueues(s, s.current, me);
    GivesToUnique(With(s, s.current, me), s1, s2);
  }

  /** The effects are an exact account of the steps: a call leads to a state if and only if it has its effect. */
  lemma StepIsEffect(s: Sched, e: Event, s': Sched)
    requires Inv(s) && Allowed(s, e)
    ensures StepsTo(s, e, s') <==> Effect(s, e, s')
  {
    StepMeans(s, e);
    if Effect(s, e, s') { EffectUnique(s, e, s', Next(s, e)); }
  }

  /** The calls that take the processor from the current process: it yields, has used up its quantum, or stops. */
  predicate GivesAway(s: Sched, e: Event)
    requires s.current < |s.procs|
  {
    match e
    case Ticks => s.procs[s.current].rounds == s.quantum
    case Yields => true
    case Sleeps(pid, ms) => pid == s.current
    case Blocks(pid) => pid == s.current && pid != s.idle
    case Kills => true
    case _ => false
  }

  lemma GivenToHighest(w: Sched, s': Sched, x: nat)
    requires GivesTo(w, s') && InQueue(s', x) && CanRun(s', x)
    ensures s'.current < |s'.procs| && s'.procs[x].priority <= s'.procs[s'.current].priority
  {
    assert InQueue(w, x) && CanRun(w, x);
  }

  /** After such a call nobody who can run has a higher priority than the process that has the processor. */
  lemma HighestRuns(s: Sched, e: Event, x: nat)
    requires Inv(s) && Allowed(s, e) && GivesAway(s, e)
    requires InQueue(Next(s, e), x) && CanRun(Next(s, e), x)
    ensures var s' := Next(s, e);
      s'.current < |s'.procs| && s'.procs[x].priority <= s'.procs[s'.current].priority
  {
    StepMeans(s, e);
    var s' := Next(s, e);
    if w :| GivesTo(w, s') { GivenToHighest(w, s', x); }
  }

  /** A process that is blocked and then unblocked, in whatever state it was, is ready. */
  lemma BlockThenUnblock(s: Sched, pid: nat)
    requires Inv(s) && pid < |s.procs| && pid != s.idle
    ensures var s1 := Next(s, Blocks(pid));
      && Inv(s1) && pid < |s1.procs| && s1.procs[pid] == s.procs[pid].(state := Blocked)
      && Next(s1, Unblocks(pid)) == With(s1, pid, s1.procs[pid].(state := Ready))
  {
    BlockInv(s, pid);
    BlockMeans(s, pid);
    UnblockMeans(Next(s, Blocks(pid)), pid);
  }

  // ---- the quantum ----

  /** Nothing but ticks between t and u. */
  ghost predicate OnlyTicks(states: seq<Sched>, events: seq<Event>, t: nat, u: nat) {
    IsRun(states, events) && t <= u < |states| && forall i :: t <= i < u ==> events[i].Ticks?
  }

  /** A tick before the end of the quantum counts, and changes neither the current process nor its state. */
  lemma TickCounts(s: Sched)
    requires Inv(s) && s.procs[s.current].rounds < s.quantum
    ensures var s' := Tick(s);
      && s'.current == s.current < |s'.procs|
      && s'.procs[s.current] == s.procs[s.current].(rounds := s.procs[s.current].rounds + 1)
  {
    TickMeans(s);
  }

  lemma {:induction false} QuantumCounts(states: seq<Sched>, events: seq<Event>, t: nat, u: nat)
    requires OnlyTicks(states, events, t, u)
    requires Inv(states[t]) && var s := states[t]; s.procs[s.current].rounds + (u - t) <= s.quantum
    ensures var (s, s') := (states[t], states[u]);
      && Inv(s') && SameFrame(s, s') && s'.current == s.current
      && s'.procs[s.current].rounds == s.procs[s.current].rounds + (u - t)
    decreases u
  {
    if t < u {
      QuantumCounts(states, events, t, u - 1);
      RunStep(states, events, u - 1);
      RunInv(states, events, t);
      RunInv(states, events, u);
      TickCounts(states[u - 1]);
    }
  }

  /** The tick at which the quantum of the current process ends gives the processor away. */
  ghost predicate QuantumEnds(s: Sched, s': Sched) {
    && s.current < |s.procs|
    && exists procs ::
      && TimePasses(s.procs, procs)
      && GivesTo(s.(procs := procs[s.current := s.procs[s.current].(rounds := 0, state := Ready)]), s')
  }

  /**
   When there is nothing but ticks, a process that starts with no rounds keeps the processor for exactly its quantum of
   them, and the next one gives it away.
   */
  lemma FullQuantum(states: seq<Sched>, events: seq<Event>, t: nat)
    requires IsRun(states, events) && t < |states|
    requires var (s, u) := (states[t], t + states[t].quantum);
      && s.current < |s.procs| && s.procs[s.current].rounds == 0
      && u < |events| && OnlyTicks(states, events, t, u + 1)
    ensures var (s, u) := (states[t], t + states[t].quantum);
      && (forall i :: t <= i <= u ==> states[i].current == s.current)
      && QuantumEnds(states[u], states[u + 1])
  {
    RunInv(states, events, t);
    var u := t + states[t].quantum;
    forall i | t <= i <= u ensures states[i].current == states[t].current {
      QuantumCounts(states, events, t, i);
    }
    QuantumCounts(states, events, t, u);
    RunStep(states, events, u);
    TickMeans(states[u]);
  }

  // ---- the start ----

  /** The idle, init and post-init task have priority 1, 3 and the highest; the last of them runs. */
  function FirstProcess(i: nat, levels: nat): Process {
    if i == 0 then Process(1, Ready, 0, 0)
    else if i == 1 then Process(3, Ready, 0, 0)
    else if i == 2 then Process(levels, Running, 0, 0)
    else Process(0, Empty, 0, 0)
  }

  function FirstQueue(k: nat, levels: nat): seq<nat> {
    if k == 0 then [0]
    else if k == 2 then if levels == 3 then [1, 2] else [1]
    else if k == levels - 1 then [2]
    else []
  }

  lemma BootMeans(processes: nat, levels: nat, quantum: nat, frequency: nat)
    requires processes >= 3 && levels >= 3
    ensures var s := Boot(processes, levels, quantum, frequency);
      && |s.procs| == processes && |s.queues| == levels
      && (forall i :: 0 <= i < processes ==> s.procs[i] == FirstProcess(i, levels))
      && (forall k :: 0 <= k < levels ==> s.queues[k] == FirstQueue(k, levels))
      && s.current == 2 && s.idle == 0 && s.nextPid == (if processes == 3 then 0 else 3)
      && s.quantum == quantum && s.frequency == frequency
  {
    BootTables(processes, levels, quantum, frequency);
    BootNextPid(processes, levels, quantum, frequency);
  }

  lemma BootNextPid(processes: nat, levels: nat, quantum: nat, frequency: nat)
    requires processes >= 3 && levels >= 3
    ensures var s := Boot(processes, levels, quantum, frequency);
      s.nextPid == (if processes == 3 then 0 else 3) && s.frequency == frequency
  {
    var s := Blank(processes, levels, quantum, frequency);
    SpawnNextPid(s, MIN_PRIORITY);
    var s1 := Spawn(s, MIN_PRIORITY);
    SpawnNextPid(s1, DEFAULT_PRIORITY);
    SpawnNextPid(Spawn(s1, DEFAULT_PRIORITY), levels);
  }
}
