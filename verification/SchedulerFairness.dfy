/** Round robin: while the set of runnable processes of the top priority stays the same, they take turns. */
module SchedulerFairness {
  import opened Collections
  import opened SchedulerModel
  import opened SchedulerRuns
  import opened SchedulerTheorems

  // ---- the runnable processes of a queue, in queue order ----

  function Filter(procs: seq<Process>, q: seq<nat>): seq<nat> {
    if q == [] then [] else (if Runnable(procs, q[0]) then [q[0]] else []) + Filter(procs, q[1..])
  }

  lemma {:induction false} FilterConcat(procs: seq<Process>, a: seq<nat>, b: seq<nat>)
    ensures Filter(procs, a + b) == Filter(procs, a) + Filter(procs, b)
  {
    if a == [] {
      assert a + b == b;
    } else {
      assert (a + b)[0] == a[0] && (a + b)[1..] == a[1..] + b;
      FilterConcat(procs, a[1..], b);
      var first := if Runnable(procs, a[0]) then [a[0]] else [];
      assert first + (Filter(procs, a[1..]) + Filter(procs, b)) == first + Filter(procs, a[1..]) + Filter(procs, b);
    }
  }

  lemma {:induction false} FilterElements(procs: seq<Process>, q: seq<nat>, x: nat)
    ensures x in Filter(procs, q) <==> x in q && Runnable(procs, x)
  {
    if q != [] {
      FilterElements(procs, q[1..], x);
    }
  }

  lemma {:induction false} FilterNoDuplicates(procs: seq<Process>, q: seq<nat>)
    requires NoDuplicates(q)
    ensures NoDuplicates(Filter(procs, q))
  {
    if q != [] {
      FilterNoDuplicates(procs, q[1..]);
      FilterElements(procs, q[1..], q[0]);
    }
  }

  lemma {:induction false} FilterSame(procs: seq<Process>, procs': seq<Process>, q: seq<nat>)
    requires forall x: nat :: x in q ==> (Runnable(procs, x) <==> Runnable(procs', x))
    ensures Filter(procs, q) == Filter(procs', q)
  {
    if q != [] {
      FilterSame(procs, procs', q[1..]);
    }
  }

  lemma {:induction false} FirstIsHead(procs: seq<Process>, q: seq<nat>, j: nat)
    requires j <= |q|
    ensures FirstRunnable(procs, q, j) == if Filter(procs, q[j..]) == [] then None else Some(Filter(procs, q[j..])[0])
    decreases |q| - j
  {
    if j < |q| {
      assert q[j..][1..] == q[j + 1..];
      FirstIsHead(procs, q, j + 1);
    }
  }

  /** What stands before and behind position i of a queue, once it is filtered. */
  lemma FilterAround(procs: seq<Process>, q: seq<nat>, i: nat)
    requires i < |q| && Runnable(procs, q[i])
    ensures Filter(procs, q) == Filter(procs, q[..i]) + [q[i]] + Filter(procs, q[i + 1..])
    ensures Filter(procs, q[i + 1..] + q[..i + 1]) == Filter(procs, q[i + 1..]) + Filter(procs, q[..i]) + [q[i]]
  {
    assert Filter(procs, q[..i + 1]) == Filter(procs, q[..i]) + [q[i]] by {
      assert q[..i + 1] == q[..i] + [q[i]];
      FilterConcat(procs, q[..i], [q[i]]);
    }
    assert q == q[..i + 1] + q[i + 1..];
    FilterConcat(procs, q[..i + 1], q[i + 1..]);
    FilterConcat(procs, q[i + 1..], q[..i + 1]);
  }

  /** Turned round behind c, a list starts with the element behind c, counting round. */
  lemma TurnedRound(before: seq<nat>, c: nat, behind: seq<nat>, k: nat)
    requires var f := before + [c] + behind; NoDuplicates(f) && k < |f| && f[k] == c
    ensures var f := before + [c] + behind; (behind + before + [c])[0] == f[Behind(k, |f|)]
  {
    var f := before + [c] + behind;
    assert f[|before|] == c;
  }

  /** The rotated search finds the runnable process behind the current one, counting round. */
  lemma RotationFindsNext(procs: seq<Process>, q: seq<nat>, c: nat, k: nat)
    requires NoDuplicates(q) && k < |Filter(procs, q)| && Filter(procs, q)[k] == c
    ensures FirstRunnable(procs, Rotate(q, Start(q, c)), 0) == Some(Filter(procs, q)[Behind(k, |Filter(procs, q)|)])
  {
    assert c in q && Runnable(procs, c) by { assert c in Filter(procs, q); FilterElements(procs, q, c); }
    var i := Find(q, c);
    var rotated := q[i + 1..] + q[..i + 1];
    assert Rotate(q, Start(q, c)) == rotated == rotated[0..];
    FilterAround(procs, q, i);
    FilterNoDuplicates(procs, q);
    TurnedRound(Filter(procs, q[..i]), c, Filter(procs, q[i + 1..]), k);
    FirstIsHead(procs, rotated, 0);
  }

  // ---- which of the processes of the highest priority is selected ----

  /** The order in which a selection at priority p looks at the processes of that priority. */
  function LookOrder(s: Sched, p: nat): seq<nat>
    requires s.current < |s.procs| && MIN_PRIORITY <= p <= |s.queues|
  {
    var q := s.queues[p - 1];
    if p == s.procs[s.current].priority then Rotate(q, Start(q, s.current)) else q
  }

  /** Process r is the first runnable one of its priority, in the order in which that priority is looked at. */
  ghost predicate FirstOfItsPriority(s: Sched, r: nat) {
    && s.current < |s.procs| && r < |s.procs|
    && var p := s.procs[r].priority;
    && MIN_PRIORITY <= p <= |s.queues|
    && var f := Filter(s.procs, LookOrder(s, p)); f != [] && f[0] == r
  }

  lemma {:induction false} SearchOrder(s: Sched, hi: nat, lo: nat)
    requires QueuesOk(s) && s.current < |s.procs| && hi <= |s.queues| && Search(s.procs, s.queues, hi, lo).Some?
    requires s.procs[s.current].priority <= lo || hi < s.procs[s.current].priority
    ensures FirstOfItsPriority(s, Search(s.procs, s.queues, hi, lo).value)
    decreases hi
  {
    var q := s.queues[hi - 1];
    assert QueueOk(s.procs, q, hi);
    if FirstRunnable(s.procs, q, 0).Some? {
      assert q[0..] == q;
      FirstIsHead(s.procs, q, 0);
    } else {
      SearchOrder(s, hi - 1, lo);
    }
  }

  lemma SameOrder(s: Sched, p: nat)
    requires Orderly(s) && p == s.procs[s.current].priority
    ensures match FirstRunnable(s.procs, Rotate(s.queues[p - 1], Start(s.queues[p - 1], s.current)), 0)
      case Some(r) => FirstOfItsPriority(s, r)
      case None => Search(s.procs, s.queues, |s.queues|, p).None? ==> Search(s.procs, s.queues, p - 1, 0).Some?
  {
    var q := s.queues[p - 1];
    var rotated := Rotate(q, Start(q, s.current));
    assert rotated[0..] == rotated;
    FirstIsHead(s.procs, rotated, 0);
    if FirstRunnable(s.procs, rotated, 0).Some? {
      assert QueueOk(s.procs, q, p);
      RotateElements(q, Start(q, s.current));
    } else if Search(s.procs, s.queues, |s.queues|, p).None? {
      SearchNotEmpty(s, p);
    }
  }

  /**
   At a priority other than the current process's the first runnable process in queue order is selected; at
   its own priority, the first in the queue order that starts behind the current process.
   */
  lemma SelectOrder(s: Sched)
    requires Orderly(s)
    ensures FirstOfItsPriority(s, Select(s))
  {
    var p := s.procs[s.current].priority;
    SameOrder(s, p);
    if Search(s.procs, s.queues, |s.queues|, p).Some? {
      SearchOrder(s, |s.queues|, p);
    } else if FirstRunnable(s.procs, Rotate(s.queues[p - 1], Start(s.queues[p - 1], s.current)), 0).None? {
      SearchOrder(s, p - 1, 0);
    }
  }

  // ---- turns ----

  /** Processes of priority p are the highest that can run, and ring lists those of them that can, in queue order. */
  ghost predicate Turns(s: Sched, p: nat, ring: seq<nat>) {
    && s.current < |s.procs| && s.procs[s.current].priority == p && MIN_PRIORITY <= p <= |s.queues|
    && AtMost(s, p)
    && Filter(s.procs, s.queues[p - 1]) == ring
  }

  lemma NobodyAbove(s: Sched, p: nat)
    requires QueuesOk(s) && p <= |s.queues| && AtMost(s, p)
    ensures Search(s.procs, s.queues, |s.queues|, p).None?
  {
    SearchHighest(s, |s.queues|, p);
  }

  lemma SelectTakesTurns(r: Sched, p: nat, ring: seq<nat>, k: nat)
    requires Orderly(r) && Turns(r, p, ring) && k < |ring| && ring[k] == r.current
    ensures Select(r) == ring[Behind(k, |ring|)]
  {
    NobodyAbove(r, p);
    assert QueueOk(r.procs, r.queues[p - 1], p);
    RotationFindsNext(r.procs, r.queues[p - 1], r.current, k);
  }

  /** The states just before and just after a handover have the same runnable processes. */
  lemma TurnsBefore(r: Sched, s': Sched, p: nat, ring: seq<nat>)
    requires Turns(s', p, ring) && s'.queues == r.queues && |s'.procs| == |r.procs|
    requires r.current < |r.procs| && r.procs[r.current].priority == p
    requires forall i :: 0 <= i < |r.procs| ==> s'.procs[i].priority == r.procs[i].priority
    requires forall i: nat :: i < |r.procs| ==> (Runnable(s'.procs, i) <==> Runnable(r.procs, i))
    ensures Turns(r, p, ring)
  {
    FilterSame(s'.procs, r.procs, r.queues[p - 1]);
    forall x: nat | Queued(r, x) && Runnable(r.procs, x) ensures r.procs[x].priority <= p {
      assert Queued(s', x);
    }
  }

  /** A yield, or a tick that finds the quantum used up, makes the scheduler choose again. */
  predicate ChoosesAgain(s: Sched, e: Event) {
    e.Yields? || Expires(s, e)
  }

  lemma YieldTakesTurns(s: Sched, p: nat, ring: seq<nat>, k: nat)
    requires Inv(s) && Turns(Yield(s), p, ring) && s.procs[s.current].priority == p
    requires k < |ring| && ring[k] == s.current
    ensures Yield(s).current == ring[Behind(k, |ring|)]
  {
    var r := s.(procs := SetState(s.procs, s.current, Ready));
    YieldingSettled(s);
    SelectHighest(r);
    TurnsBefore(r, Yield(s), p, ring);
    SelectTakesTurns(r, p, ring, k);
  }

  lemma TickTakesTurns(s: Sched, p: nat, ring: seq<nat>, k: nat)
    requires Inv(s) && Expired(s) && Turns(Tick(s), p, ring) && s.procs[s.current].priority == p
    requires k < |ring| && ring[k] == s.current
    ensures Tick(s).current == ring[Behind(k, |ring|)]
  {
    PreemptedSettled(s);
    var r := Preempted(s.(procs := Wake(s.procs)));
    SelectHighest(r);
    TurnsBefore(r, Tick(s), p, ring);
    SelectTakesTurns(r, p, ring, k);
  }

  /** No other event takes the processor from a process that can still run. */
  lemma OthersKeepCurrent(s: Sched, e: Event)
    requires Inv(s) && Allowed(s, e) && !ChoosesAgain(s, e) && Runnable(Next(s, e).procs, s.current)
    ensures Next(s, e).current == s.current
  {
    match e
    case Sleeps(pid, ms) => if pid == s.current { SleepStarts(s, ms); }
    case Kills => KillHandsOver(s);
    case Blocks(pid) => if pid == s.current && pid != s.idle { BlockHandsOver(s); }
    case _ =>
  }

  /** One step: the next process in the ring if the scheduler chooses again, and the same one if not. */
  lemma TurnStep(s: Sched, e: Event, p: nat, ring: seq<nat>, k: nat)
    requires Inv(s) && Allowed(s, e) && Turns(s, p, ring) && Turns(Next(s, e), p, ring)
    requires k < |ring| && ring[k] == s.current
    ensures Next(s, e).current == if ChoosesAgain(s, e) then ring[Behind(k, |ring|)] else s.current
  {
    if e.Yields? {
      YieldTakesTurns(s, p, ring, k);
    } else if Expires(s, e) {
      TickTakesTurns(s, p, ring, k);
    } else {
      FilterElements(Next(s, e).procs, Next(s, e).queues[p - 1], s.current);
      assert s.current in ring;
      OthersKeepCurrent(s, e);
    }
  }

  function CountChoices(states: seq<Sched>, events: seq<Event>, t: nat, u: nat): nat
    requires t <= u <= |events| < |states|
    decreases u
  {
    if t == u then 0
    else CountChoices(states, events, t, u - 1) + if ChoosesAgain(states[u - 1], events[u - 1]) then 1 else 0
  }

  /** The position c places behind k, counting round. */
  function Turn(k: nat, c: nat, n: nat): (i: nat)
    requires k < n
    ensures i < n
  {
    if c == 0 then k else Behind(Turn(k, c - 1, n), n)
  }

  ghost predicate TurnsAt(states: seq<Sched>, i: nat, p: nat, ring: seq<nat>) {
    i < |states| && Turns(states[i], p, ring)
  }

  /**
   From t to u the processes in ring are those that can run at the top priority, p, and the one at position k
   has the processor at t.
   */
  ghost predicate Rota(states: seq<Sched>, events: seq<Event>, t: nat, u: nat, p: nat, ring: seq<nat>, k: nat) {
    && IsRun(states, events) && t <= u < |states|
    && (forall i {:trigger TurnsAt(states, i, p, ring)} :: t <= i <= u ==> TurnsAt(states, i, p, ring))
    && k < |ring| && ring[k] == states[t].current
  }

  lemma TurnAt(states: seq<Sched>, events: seq<Event>, t: nat, p: nat, ring: seq<nat>, k: nat)
    requires IsRun(states, events) && t < |events| && TurnsAt(states, t, p, ring) && TurnsAt(states, t + 1, p, ring)
    requires k < |ring| && ring[k] == states[t].current
    ensures states[t + 1].current == ring[if ChoosesAgain(states[t], events[t]) then Behind(k, |ring|) else k]
  {
    RunStep(states, events, t);
    TurnStep(states[t], events[t], p, ring, k);
  }

  /**
   However yields, ticks and other events are mixed: as long as the same processes can run at the top
   priority, each choice hands the processor to the next of them in queue order, counting round.
   */
  lemma {:induction false} RoundRobin(states: seq<Sched>, events: seq<Event>, t: nat, u: nat,
                                      p: nat, ring: seq<nat>, k: nat)
    requires Rota(states, events, t, u, p, ring, k)
    ensures states[u].current == ring[Turn(k, CountChoices(states, events, t, u), |ring|)]
    decreases u
  {
    if t < u {
      RoundRobin(states, events, t, u - 1, p, ring, k);
      assert TurnsAt(states, u - 1, p, ring) && TurnsAt(states, u, p, ring);
      TurnAt(states, events, u - 1, p, ring, Turn(k, CountChoices(states, events, t, u - 1), |ring|));
    }
  }

  lemma {:induction false} TurnInClosedForm(k: nat, c: nat, n: nat)
    requires k < n && c <= n
    ensures Turn(k, c, n) == if k + c < n then k + c else k + c - n
  {
    if c > 0 { TurnInClosedForm(k, c - 1, n); }
  }

  /** The turn of x comes c places behind place k of the ring, and at no other time of the round. */
  ghost predicate Place(ring: seq<nat>, k: nat, x: nat, c: nat)
    requires k < |ring|
  {
    && c < |ring| && ring[Turn(k, c, |ring|)] == x
    && forall d :: 0 <= d < |ring| && ring[Turn(k, d, |ring|)] == x ==> d == c
  }

  /** In n consecutive choices each of the n processes gets its turn, just once, and the first is back at the end. */
  lemma EachOnce(ring: seq<nat>, k: nat, x: nat)
    requires NoDuplicates(ring) && k < |ring| && x in ring
    ensures exists c :: Place(ring, k, x, c)
    ensures ring[Turn(k, |ring|, |ring|)] == ring[k]
  {
    var n := |ring|;
    var i :| 0 <= i < n && ring[i] == x;
    var c := if i >= k then i - k else i - k + n;
    TurnInClosedForm(k, c, n);
    TurnInClosedForm(k, n, n);
    forall d | 0 <= d < n && ring[Turn(k, d, n)] == x ensures d == c {
      TurnInClosedForm(k, d, n);
    }
    assert Place(ring, k, x, c);
  }

  /** Every number of choices up to the last has been reached at some time. */
  lemma {:induction false} ChoiceReached(states: seq<Sched>, events: seq<Event>, t: nat, u: nat, c: nat)
    returns (v: nat)
    requires t <= u <= |events| < |states| && c <= CountChoices(states, events, t, u)
    ensures t <= v <= u && CountChoices(states, events, t, v) == c
    decreases u
  {
    if c == CountChoices(states, events, t, u) {
      v := u;
    } else {
      v := ChoiceReached(states, events, t, u - 1, c);
    }
  }

  /** Process x has the processor after c choices since t, and after no other number of choices below n. */
  ghost predicate TurnOf(states: seq<Sched>, events: seq<Event>, t: nat, u: nat, n: nat, x: nat, c: nat)
    requires t <= u <= |events| < |states|
  {
    forall v :: t <= v <= u && CountChoices(states, events, t, v) < n ==>
      (states[v].current == x <==> CountChoices(states, events, t, v) == c)
  }

  /** Some number of choices is reached at v. */
  ghost predicate ReachedAt(states: seq<Sched>, events: seq<Event>, t: nat, u: nat, c: nat, v: nat)
    requires t <= u <= |events| < |states|
  {
    t <= v <= u && CountChoices(states, events, t, v) == c
  }

  lemma RingNoDuplicates(states: seq<Sched>, events: seq<Event>, t: nat, p: nat, ring: seq<nat>)
    requires IsRun(states, events) && TurnsAt(states, t, p, ring)
    ensures NoDuplicates(ring)
  {
    RunInv(states, events, t);
    var s := states[t];
    assert QueueOk(s.procs, s.queues[p - 1], p);
    FilterNoDuplicates(s.procs, s.queues[p - 1]);
  }

  lemma PlaceIsTurn(states: seq<Sched>, events: seq<Event>, t: nat, u: nat, p: nat, ring: seq<nat>, k: nat,
                    x: nat, c: nat)
    requires Rota(states, events, t, u, p, ring, k) && Place(ring, k, x, c)
    ensures TurnOf(states, events, t, u, |ring|, x, c)
  {
    forall v | t <= v <= u && CountChoices(states, events, t, v) < |ring|
      ensures states[v].current == x <==> CountChoices(states, events, t, v) == c
    {
      RoundRobin(states, events, t, v, p, ring, k);
    }
  }

  /**
   Any n consecutive choices among n processes that stay the ones that can run at the top priority give each
   of them the processor exactly once, and end with the process that had it at the start.
   */
  lemma FullRound(states: seq<Sched>, events: seq<Event>, t: nat, u: nat, p: nat, ring: seq<nat>, k: nat, x: nat)
    requires Rota(states, events, t, u, p, ring, k) && x in ring
    requires CountChoices(states, events, t, u) == |ring|
    ensures exists c, v {:trigger ReachedAt(states, events, t, u, c, v)} ::
      0 <= c < |ring| && ReachedAt(states, events, t, u, c, v) && TurnOf(states, events, t, u, |ring|, x, c)
    ensures states[u].current == states[t].current
  {
    var n := |ring|;
    assert TurnsAt(states, t, p, ring);
    RingNoDuplicates(states, events, t, p, ring);
    EachOnce(ring, k, x);
    RoundRobin(states, events, t, u, p, ring, k);
    var c :| Place(ring, k, x, c);
    var v := ChoiceReached(states, events, t, u, c);
    assert ReachedAt(states, events, t, u, c, v);
    PlaceIsTurn(states, events, t, u, p, ring, k, x, c);
  }

  // ---- bounded waiting ----

  function Rounds(s: Sched): nat
    requires s.current < |s.procs|
  {
    s.procs[s.current].rounds
  }

  /** A tick either shows in the rounds of the current process or is one that makes the scheduler choose again. */
  lemma TurnRounds(s: Sched, e: Event, p: nat, ring: seq<nat>, k: nat)
    requires Inv(s) && Allowed(s, e) && Turns(s, p, ring) && Turns(Next(s, e), p, ring)
    requires k < |ring| && ring[k] == s.current
    ensures Rounds(s) + (if e.Ticks? then 1 else 0) <=
      Rounds(Next(s, e)) + if ChoosesAgain(s, e) then s.quantum + 1 else 0
  {
    assert ProcessOk(s.procs[s.current], s.quantum);
    TurnStep(s, e, p, ring, k);
    if !ChoosesAgain(s, e) { RoundsStep(s, e); }
  }

  lemma RoundsAt(states: seq<Sched>, events: seq<Event>, t: nat, p: nat, ring: seq<nat>, k: nat)
    requires IsRun(states, events) && t < |events| && TurnsAt(states, t, p, ring) && TurnsAt(states, t + 1, p, ring)
    requires k < |ring| && ring[k] == states[t].current
    ensures Rounds(states[t]) + (if events[t].Ticks? then 1 else 0) <=
      Rounds(states[t + 1]) + if ChoosesAgain(states[t], events[t]) then states[0].quantum + 1 else 0
  {
    RunStep(states, events, t);
    RunInv(states, events, t);
    TurnRounds(states[t], events[t], p, ring, k);
  }

  /** The ticks of n full quanta, and one more tick for the choice at the end of each. */
  function Span(n: nat, quantum: nat): nat {
    if n == 0 then 0 else Span(n - 1, quantum) + quantum + 1
  }

  lemma {:induction false} SpanIsProduct(n: nat, quantum: nat)
    ensures Span(n, quantum) == n * (quantum + 1)
  {
    if n > 0 { SpanIsProduct(n - 1, quantum); }
  }

  lemma {:induction false} SpanGrows(c: nat, n: nat, quantum: nat)
    requires c < n
    ensures Span(c, quantum) + quantum < Span(n, quantum)
  {
    if c < n - 1 { SpanGrows(c, n - 1, quantum); }
  }

  /** Between two choices there are at most as many ticks as the quantum has. */
  lemma {:induction false} TicksBetweenChoices(states: seq<Sched>, events: seq<Event>, t: nat, u: nat,
                                               p: nat, ring: seq<nat>, k: nat)
    requires Rota(states, events, t, u, p, ring, k)
    ensures TurnsAt(states, t, p, ring) && TurnsAt(states, u, p, ring)
    ensures CountTicks(events, t, u) + Rounds(states[t]) <=
      Span(CountChoices(states, events, t, u), states[0].quantum) + Rounds(states[u])
    decreases u
  {
    assert TurnsAt(states, u, p, ring);
    if t < u {
      assert TurnsAt(states, u - 1, p, ring);
      TicksBetweenChoices(states, events, t, u - 1, p, ring, k);
      RoundRobin(states, events, t, u - 1, p, ring, k);
      var c := CountChoices(states, events, t, u - 1);
      RoundsAt(states, events, u - 1, p, ring, Turn(k, c, |ring|));
    }
  }

  /** The rounds of the process that has the processor at u are within its quantum. */
  lemma TicksAtMost(states: seq<Sched>, events: seq<Event>, t: nat, u: nat, p: nat, ring: seq<nat>, k: nat)
    requires Rota(states, events, t, u, p, ring, k)
    ensures CountTicks(events, t, u) <=
      Span(CountChoices(states, events, t, u), states[0].quantum) + states[0].quantum
  {
    TicksBetweenChoices(states, events, t, u, p, ring, k);
    RunInv(states, events, u);
    assert ProcessOk(states[u].procs[states[u].current], states[u].quantum);
  }

  lemma EnoughChoices(states: seq<Sched>, events: seq<Event>, t: nat, u: nat, p: nat, ring: seq<nat>, k: nat)
    requires Rota(states, events, t, u, p, ring, k)
    requires CountTicks(events, t, u) >= Span(|ring| - 1, states[0].quantum)
    ensures CountChoices(states, events, t, u) >= |ring| - 1
  {
    TicksAtMost(states, events, t, u, p, ring, k);
    var choices := CountChoices(states, events, t, u);
    if choices < |ring| - 1 { SpanGrows(choices, |ring| - 1, states[0].quantum); }
  }

  /**
   Bounded waiting: while n processes stay the ones that can run at the top priority, each of them has had
   the processor by the time n - 1 quanta, and as many choices, have ticked away, whatever else happens.
   */
  lemma BoundedWaiting(states: seq<Sched>, events: seq<Event>, t: nat, u: nat,
                       p: nat, ring: seq<nat>, k: nat, x: nat)
    requires Rota(states, events, t, u, p, ring, k) && x in ring
    requires CountTicks(events, t, u) >= (|ring| - 1) * (states[0].quantum + 1)
    ensures exists v :: t <= v <= u && states[v].current == x
  {
    var n := |ring|;
    SpanIsProduct(n - 1, states[0].quantum);
    EnoughChoices(states, events, t, u, p, ring, k);
    assert TurnsAt(states, t, p, ring);
    RingNoDuplicates(states, events, t, p, ring);
    EachOnce(ring, k, x);
    var c :| Place(ring, k, x, c);
    var v := ChoiceReached(states, events, t, u, c);
    RoundRobin(states, events, t, v, p, ring, k);
  }
}
