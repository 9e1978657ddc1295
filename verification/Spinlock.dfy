/**
 The spinlock of kernel/kernel/synchronization_primitives/spinlock.c, as interleaved steps of any
 number of threads.
 */
module Spinlock {

  /** Where a thread is: outside, at the compare-and-exchange, behind a failed one, or in possession of the lock. */
  datatype Pc = Outside | AtExchange | Failed | Holding

  /** expected is the thread's local variable of that name. */
  datatype Thread = Thread(pc: Pc, expected: bool)

  datatype Lock = Lock(flag: bool, threads: seq<Thread>)

  datatype Action = Enter | ExchangeSucceeds | ExchangeFails | Clear | Release

  /**
   Thread t takes a step. A weak exchange may fail although the flag has the expected value; a failed one
   puts the flag's value into expected. clears says whether the loop then clears expected, as it does.
   */
  ghost predicate Step(clears: bool, s: Lock, t: nat, a: Action, s': Lock) {
    && t < |s.threads|
    && var me := s.threads[t];
    match a
    case Enter =>
      me.pc == Outside && s' == s.(threads := s.threads[t := Thread(AtExchange, false)])
    case ExchangeSucceeds =>
      me.pc == AtExchange && s.flag == me.expected && s' == Lock(true, s.threads[t := me.(pc := Holding)])
    case ExchangeFails =>
      me.pc == AtExchange && s' == s.(threads := s.threads[t := Thread(Failed, s.flag)])
    case Clear =>
      me.pc == Failed
      && s' == s.(threads := s.threads[t := Thread(AtExchange, if clears then false else me.expected)])
    case Release =>
      me.pc == Holding && s' == Lock(false, s.threads[t := me.(pc := Outside)])
  }

  ghost predicate Initial(s: Lock) {
    !s.flag && forall t :: 0 <= t < |s.threads| ==> s.threads[t].pc == Outside
  }

  /** Some thread takes some step. */
  ghost predicate Steps(clears: bool, s: Lock, s': Lock) {
    exists t, a :: Step(clears, s, t, a, s')
  }

  ghost predicate StepAt(clears: bool, states: seq<Lock>, i: nat) {
    i + 1 < |states| ==> Steps(clears, states[i], states[i + 1])
  }

  ghost predicate IsRun(clears: bool, states: seq<Lock>) {
    && states != [] && Initial(states[0])
    && forall i {:trigger StepAt(clears, states, i)} :: StepAt(clears, states, i)
  }

  predicate Holds(s: Lock, t: nat) {
    t < |s.threads| && s.threads[t].pc == Holding
  }

  /** At most one thread holds the lock, and the flag is set exactly if one does. */
  ghost predicate Exclusive(s: Lock) {
    && (forall t, u :: Holds(s, t) && Holds(s, u) ==> t == u)
    && (s.flag <==> exists t :: Holds(s, t))
  }

  /** No thread expects to find the flag set. */
  ghost predicate ExpectsFree(s: Lock) {
    forall t :: 0 <= t < |s.threads| && s.threads[t].pc == AtExchange ==> !s.threads[t].expected
  }

  lemma StepKeeps(s: Lock, t: nat, a: Action, s': Lock)
    requires Step(true, s, t, a, s') && Exclusive(s) && ExpectsFree(s)
    ensures Exclusive(s') && ExpectsFree(s')
  {
    assert forall u: nat :: u != t ==> (Holds(s', u) <==> Holds(s, u));
    assert Holds(s', t) <==> a.ExchangeSucceeds?;
    assert Holds(s, t) <==> a.Release?;
  }

  lemma {:induction false} RunKeeps(states: seq<Lock>, i: nat)
    requires IsRun(true, states) && i < |states|
    ensures Exclusive(states[i]) && ExpectsFree(states[i])
  {
    if i > 0 {
      RunKeeps(states, i - 1);
      assert StepAt(true, states, i - 1);
      var t, a :| Step(true, states[i - 1], t, a, states[i]);
      StepKeeps(states[i - 1], t, a, states[i]);
    }
  }

  /** Every state of every run of n threads is exclusive. */
  ghost predicate Safe(clears: bool, n: nat) {
    forall states: seq<Lock>, i ::
      IsRun(clears, states) && |states[0].threads| == n && 0 <= i < |states| ==> Exclusive(states[i])
  }

  /** A run of a loop that does not clear: one thread holds the lock, and another has seen that twice. */
  function BadRun(n: nat): seq<Lock>
    requires n >= 2
  {
    var out := seq(n, _ => Thread(Outside, false));
    [ Lock(false, out),
      Lock(false, out[0 := Thread(AtExchange, false)]),
      Lock(true, out[0 := Thread(Holding, false)]),
      Lock(true, out[0 := Thread(Holding, false)][1 := Thread(AtExchange, false)]),
      Lock(true, out[0 := Thread(Holding, false)][1 := Thread(Failed, true)]),
      Lock(true, out[0 := Thread(Holding, false)][1 := Thread(AtExchange, true)]),
      Lock(true, out[0 := Thread(Holding, false)][1 := Thread(Holding, true)]) ]
  }

  lemma BadRunIsRun(n: nat)
    requires n >= 2
    ensures IsRun(false, BadRun(n))
  {
    var r := BadRun(n);
    assert Step(false, r[0], 0, Enter, r[1]);
    assert Step(false, r[1], 0, ExchangeSucceeds, r[2]);
    assert Step(false, r[2], 1, Enter, r[3]);
    assert Step(false, r[3], 1, ExchangeFails, r[4]);
    assert Step(false, r[4], 1, Clear, r[5]);
    assert Step(false, r[5], 1, ExchangeSucceeds, r[6]);
    forall i: nat ensures StepAt(false, r, i) {
      assert i == 0 || i == 1 || i == 2 || i == 3 || i == 4 || i == 5 || i >= 6;
    }
  }

  /** Mutual exclusion, for two threads or more, rests on the clearing of expected before every retry. */
  lemma SafeIffCleared(clears: bool, n: nat)
    requires n >= 2
    ensures Safe(clears, n) <==> clears
  {
    if clears {
      forall states: seq<Lock>, i | IsRun(true, states) && 0 <= i < |states| ensures Exclusive(states[i]) {
        RunKeeps(states, i);
      }
    } else {
      BadRunIsRun(n);
      var r := BadRun(n);
      assert Holds(r[6], 0) && Holds(r[6], 1);
      assert !Exclusive(r[6]);
    }
  }
}
