/** The lock-free reference count: compare-and-swap loops of any number of threads, against the count under a lock. */
module RefCount {
  import opened Bytes

  const CRYPTO_REFCOUNT_MAX: nat := 0xFFFF_FFFF

  datatype Op = Inc | Dec

  datatype Result = Done(zero: bool) | Abort

  /** One operation as if it had happened at once. */
  datatype Event = Event(thread: nat, op: Op, result: Result)

  // --- The count under a lock -------------------------------------------------------------------

  function Locked(op: Op, count: nat): (nat, Result) {
    match op
    case Inc => (if count < CRYPTO_REFCOUNT_MAX then count + 1 else count, Done(false))
    case Dec =>
      if count == 0 then (count, Abort)
      else if count < CRYPTO_REFCOUNT_MAX then (count - 1, Done(count - 1 == 0))
      else (count, Done(false))
  }

  /** The count after the events, applied one after the other. */
  function CountAfter(initial: nat, log: seq<Event>): nat {
    if log == [] then initial else Locked(log[|log| - 1].op, CountAfter(initial, log[..|log| - 1])).0
  }

  /** Every event has the result that the locked operation returns in its place. */
  ghost predicate Legal(initial: nat, log: seq<Event>) {
    forall i :: 0 <= i < |log| ==> log[i].result == Locked(log[i].op, CountAfter(initial, log[..i])).1
  }

  // --- The compare-and-swap loops ---------------------------------------------------------------

  datatype Thread = Idle | Trying(op: Op, expected: nat) | Returned(op: Op, zero: bool)

  datatype State = State(count: nat, threads: seq<Thread>, aborted: bool, log: seq<Event>)

  /** A thread enters an operation with its atomic load, or goes once around its loop; the weak exchange may fail for no
      reason. */
  datatype Action = Begin(thread: nat, op: Op) | Turn(thread: nat, spurious: bool)

  /** The loop ends on this value without an exchange. */
  predicate Final(op: Op, value: nat) {
    value == CRYPTO_REFCOUNT_MAX || (op == Dec && value == 0)
  }

  /** The count is read into the local `expected`. A value that ends the loop decides the operation here. */
  function Observe(s: State, t: nat, op: Op): State
    requires t < |s.threads|
  {
    s.(threads := s.threads[t := Trying(op, s.count)],
       log := if Final(op, s.count) then s.log + [Event(t, op, Locked(op, s.count).1)] else s.log)
  }

  predicate Enabled(s: State, a: Action) {
    && !s.aborted && a.thread < |s.threads|
    && (a.Begin? <==> !s.threads[a.thread].Trying?)
  }

  function Step(s: State, a: Action): State
    requires Enabled(s, a)
  {
    var t := a.thread;
    match a
    case Begin(_, op) => Observe(s, t, op)
    case Turn(_, spurious) =>
      var Trying(op, expected) := s.threads[t];
      if op == Dec && expected == 0 then s.(aborted := true)
      else if expected == CRYPTO_REFCOUNT_MAX then s.(threads := s.threads[t := Returned(op, false)])
      else
        var newValue := if op == Inc then expected + 1 else expected - 1;
        if s.count == expected && !spurious then
          s.(count := newValue,
             threads := s.threads[t := Returned(op, op == Dec && newValue == 0)],
             log := s.log + [Event(t, op, Done(op == Dec && newValue == 0))])
        else Observe(s, t, op)
  }

  function Start(initial: nat, n: nat): State {
    State(initial, seq(n, _ => Idle), false, [])
  }

  ghost predicate IsRun(states: seq<State>, actions: seq<Action>, initial: nat, n: nat) {
    && |states| == |actions| + 1 && states[0] == Start(initial, n) && initial <= CRYPTO_REFCOUNT_MAX
    && forall i :: 0 <= i < |actions| ==> Enabled(states[i], actions[i]) && states[i + 1] == Step(states[i], actions[i])
  }

  // --- Refinement -------------------------------------------------------------------------------

  /** Between two states the locked operation was applied to the count, with its result. */
  ghost predicate TakesEffect(s: State, s': State, t: nat, op: Op) {
    && s'.count == Locked(op, s.count).0
    && s'.log == s.log + [Event(t, op, Locked(op, s.count).1)]
  }

  /** Every step is either invisible or one whole locked operation. */
  lemma StepRefines(s: State, a: Action)
    requires Enabled(s, a) && Inv(s)
    ensures var s' := Step(s, a);
            || (s'.count == s.count && s'.log == s.log)
            || exists op :: TakesEffect(s, s', a.thread, op)
  {
    var s' := Step(s, a);
    var op := if a.Begin? then a.op else s.threads[a.thread].op;
    assert s'.log == s.log || TakesEffect(s, s', a.thread, op);
  }

  /** The last event of a thread. */
  function LastOf(log: seq<Event>, t: nat): Option<Event> {
    if log == [] then None
    else if log[|log| - 1].thread == t then Some(log[|log| - 1])
    else LastOf(log[..|log| - 1], t)
  }

  function EventsOf(log: seq<Event>, t: nat): nat {
    if log == [] then 0
    else EventsOf(log[..|log| - 1], t) + if log[|log| - 1].thread == t then 1 else 0
  }

  lemma LogGrows(log: seq<Event>, e: Event)
    ensures forall t :: LastOf(log + [e], t) == if e.thread == t then Some(e) else LastOf(log, t)
    ensures forall t :: EventsOf(log + [e], t) == EventsOf(log, t) + if e.thread == t then 1 else 0
    ensures forall c :: CountAfter(c, log + [e]) == Locked(e.op, CountAfter(c, log)).0
  {
    assert (log + [e])[..|log|] == log;
  }

  ghost predicate ThreadInv(s: State, t: nat)
    requires t < |s.threads|
  {
    match s.threads[t]
    case Idle => true
    case Trying(op, expected) =>
      && expected <= CRYPTO_REFCOUNT_MAX
      && (expected == CRYPTO_REFCOUNT_MAX ==> s.count == CRYPTO_REFCOUNT_MAX)
      && (Final(op, expected) ==> LastOf(s.log, t) == Some(Event(t, op, Locked(op, expected).1)))
    case Returned(op, zero) => LastOf(s.log, t) == Some(Event(t, op, Done(zero)))
  }

  ghost predicate Inv(s: State) {
    s.count <= CRYPTO_REFCOUNT_MAX && forall t :: 0 <= t < |s.threads| ==> ThreadInv(s, t)
  }

  /** The saturated count never changes again, and an operation that has been decided keeps its result. */
  lemma StepKeepsInv(s: State, a: Action)
    requires Enabled(s, a) && Inv(s)
    ensures Inv(Step(s, a))
    ensures s.count == CRYPTO_REFCOUNT_MAX ==> Step(s, a).count == CRYPTO_REFCOUNT_MAX
  {
    var s' := Step(s, a);
    assert ThreadInv(s, a.thread);
    StepRefines(s, a);
    if s'.log != s.log {
      LogGrows(s.log, s'.log[|s.log|]);
    }
    forall t | 0 <= t < |s'.threads| ensures ThreadInv(s', t) {
      assert ThreadInv(s, t);
    }
  }

  /** How often a thread has begun an operation. */
  function Begun(actions: seq<Action>, t: nat): nat {
    if actions == [] then 0
    else
      var last := actions[|actions| - 1];
      Begun(actions[..|actions| - 1], t) + if last.Begin? && last.thread == t then 1 else 0
  }

  /** Whether the thread's operation is still undecided. */
  predicate Undecided(th: Thread) {
    th.Trying? && !Final(th.op, th.expected)
  }

  ghost predicate Decided(s: State, actions: seq<Action>) {
    forall t :: 0 <= t < |s.threads| ==>
      Begun(actions, t) == EventsOf(s.log, t) + if Undecided(s.threads[t]) then 1 else 0
  }

  lemma StepDecides(s: State, a: Action, actions: seq<Action>)
    requires Enabled(s, a) && Inv(s) && Decided(s, actions)
    ensures Decided(Step(s, a), actions + [a])
  {
    hide Inv, ThreadInv, CountAfter, LastOf;
    var s' := Step(s, a);
    assert (actions + [a])[..|actions|] == actions;
    StepRefines(s, a);
    if s'.log != s.log {
      LogGrows(s.log, s'.log[|s.log|]);
    }
  }

  /** Linearizability: in every state of every run the count is what the locked operations, in the order in which they
      took effect, make of the initial value, with the same results; every operation takes effect exactly once between
      its begin and its return, and returns the result it took effect with. */
  lemma {:induction false} RunIsLinearizable(states: seq<State>, actions: seq<Action>, initial: nat, n: nat)
    requires IsRun(states, actions, initial, n)
    ensures var s := states[|actions|];
            && |s.threads| == n && Inv(s) && Decided(s, actions)
            && s.count == CountAfter(initial, s.log) && Legal(initial, s.log)
    decreases |actions|
  {
    hide Inv, Decided, Step, Enabled, CountAfter, Locked;
    var s := states[|actions|];
    if actions == [] {
      StartIsFine(initial, n);
    } else {
      var k := |actions| - 1;
      var before, a := actions[..k], actions[k];
      assert IsRun(states[..k + 1], before, initial, n);
      RunIsLinearizable(states[..k + 1], before, initial, n);
      assert before + [a] == actions;
      assert Enabled(states[k], a) && s == Step(states[k], a);
      StepKeepsInv(states[k], a);
      StepDecides(states[k], a, before);
      StepExtends(states[k], a, initial);
    }
  }

  lemma StartIsFine(initial: nat, n: nat)
    requires initial <= CRYPTO_REFCOUNT_MAX
    ensures var s := Start(initial, n); Inv(s) && Decided(s, []) && s.count == CountAfter(initial, s.log)
  {
  }

  lemma StepExtends(s: State, a: Action, initial: nat)
    requires Enabled(s, a) && Inv(s) && s.count == CountAfter(initial, s.log) && Legal(initial, s.log)
    ensures var s' := Step(s, a);
            |s'.threads| == |s.threads| && s'.count == CountAfter(initial, s'.log) && Legal(initial, s'.log)
  {
    var s' := Step(s, a);
    StepRefines(s, a);
    if s'.log != s.log {
      var e := s'.log[|s.log|];
      assert s'.log == s.log + [e];
      LogGrows(s.log, e);
      forall i | 0 <= i < |s'.log|
        ensures s'.log[i].result == Locked(s'.log[i].op, CountAfter(initial, s'.log[..i])).1
      {
        assert i < |s.log| ==> s'.log[..i] == s.log[..i];
        assert i == |s.log| ==> s'.log[..i] == s.log;
      }
    }
  }

  // --- Progress ---------------------------------------------------------------------------------

  /** One turn ends the operation unless the exchange failed for no reason or the count is no longer the one observed.
      The process aborts exactly when a decrement observed zero; no other thread is touched. */
  lemma TurnEnds(s: State, a: Action)
    requires Enabled(s, a) && a.Turn?
    ensures var s', t := Step(s, a), a.thread;
            var Trying(op, expected) := s.threads[t];
            && |s'.threads| == |s.threads|
            && (s'.aborted <==> op == Dec && expected == 0)
            && (!s'.aborted ==>
                  (s'.threads[t].Trying? <==> expected != CRYPTO_REFCOUNT_MAX && (a.spurious || s.count != expected)))
            && (s'.threads[t].Returned? && expected != CRYPTO_REFCOUNT_MAX ==>
                  s'.count == expected + (if op == Inc then 1 else -1)
                  && s'.threads[t] == Returned(op, op == Dec && expected == 1))
            && forall u :: 0 <= u < |s.threads| && u != t ==> s'.threads[u] == s.threads[u]
  {
  }

  /** How long the log was after the last action of the thread. */
  ghost function LastAt(states: seq<State>, actions: seq<Action>, t: nat): nat
    requires |states| == |actions| + 1
    decreases |actions|
  {
    if actions == [] then 0
    else if actions[|actions| - 1].thread == t then |states[|actions|].log|
    else LastAt(states[..|actions|], actions[..|actions| - 1], t)
  }

  /** What the thread has observed was the count then, and what has taken effect since is the work of others. */
  ghost predicate Observed(s: State, initial: nat, t: nat, at: nat)
    requires t < |s.threads|
  {
    && at <= |s.log|
    && (s.threads[t].Trying? && !s.aborted ==> s.threads[t].expected == CountAfter(initial, s.log[..at]))
    && forall i :: at <= i < |s.log| ==> s.log[i].thread != t
  }

  lemma FinalStays(count: nat)
    ensures forall op :: Final(op, count) ==> Locked(op, count).0 == count
  {
  }

  lemma StepObserves(s: State, a: Action, initial: nat, t: nat, at: nat)
    requires Enabled(s, a) && Inv(s) && t < |s.threads| && Observed(s, initial, t, at)
    requires s.count == CountAfter(initial, s.log)
    ensures var s' := Step(s, a);
            |s'.threads| == |s.threads| && Observed(s', initial, t, if a.thread == t then |s'.log| else at)
  {
    hide Inv, CountAfter, Locked;
    var s' := Step(s, a);
    StepRefines(s, a);
    FinalStays(s.count);
    if a.thread == t {
      if s'.log != s.log {
        LogGrows(s.log, s'.log[|s.log|]);
        assert s'.log == s.log + [s'.log[|s.log|]];
      }
      assert s'.log[..|s'.log|] == s'.log;
    } else {
      assert s'.log[..at] == s.log[..at];
    }
  }

  lemma {:induction false} RunObserves(states: seq<State>, actions: seq<Action>, initial: nat, n: nat, t: nat)
    requires IsRun(states, actions, initial, n) && t < n
    ensures var s := states[|actions|];
            |s.threads| == n && Observed(s, initial, t, LastAt(states, actions, t))
    decreases |actions|
  {
    hide Inv, Decided, Step, Enabled, CountAfter, Locked, Observed, Legal;
    if actions == [] {
      NothingObserved(initial, n, t);
    } else {
      var k := |actions| - 1;
      assert IsRun(states[..k + 1], actions[..k], initial, n);
      RunIsLinearizable(states[..k + 1], actions[..k], initial, n);
      RunObserves(states[..k + 1], actions[..k], initial, n, t);
      assert Enabled(states[k], actions[k]) && states[k + 1] == Step(states[k], actions[k]);
      assert states[..k + 1][k] == states[k] && states[..|actions|] == states[..k + 1];
      StepObserves(states[k], actions[k], initial, t, LastAt(states[..k + 1], actions[..k], t));
    }
  }

  lemma NothingObserved(initial: nat, n: nat, t: nat)
    requires t < n
    ensures Observed(Start(initial, n), initial, t, 0)
  {
  }

  /** Lock freedom: in every run, a thread whose exchange fails, and not for no reason, goes round once more only
      because the operation of another thread has taken effect since it last looked. */
  lemma FailureIsProgress(states: seq<State>, actions: seq<Action>, initial: nat, n: nat, t: nat)
    requires IsRun(states, actions, initial, n) && t < n && Enabled(states[|actions|], Turn(t, false))
    ensures var s := states[|actions|];
            var s', at := Step(s, Turn(t, false)), LastAt(states, actions, t);
            !s'.aborted && s'.threads[t].Trying? ==> at < |s.log| && s.log[at].thread != t
  {
    hide Inv, Decided, CountAfter, Locked, Legal, Step;
    RunIsLinearizable(states, actions, initial, n);
    RunObserves(states, actions, initial, n, t);
    var s, at := states[|actions|], LastAt(states, actions, t);
    TurnEnds(s, Turn(t, false));
    if at == |s.log| {
      assert s.log[..at] == s.log;
    }
  }

  // --- What the locked count does ---------------------------------------------------------------

  function Count(log: seq<Event>, op: Op): nat {
    if log == [] then 0 else Count(log[..|log| - 1], op) + if log[|log| - 1].op == op then 1 else 0
  }

  /** Until the count saturates or aborts it is the initial value plus increments minus decrements. */
  lemma {:induction false} CountIsSum(initial: nat, log: seq<Event>)
    requires Legal(initial, log) && forall i :: 0 <= i < |log| ==> log[i].result != Abort
    requires forall i :: 0 <= i < |log| ==> CountAfter(initial, log[..i]) < CRYPTO_REFCOUNT_MAX
    ensures CountAfter(initial, log) == initial + Count(log, Inc) - Count(log, Dec)
    decreases |log|
  {
    if log != [] {
      var before := log[..|log| - 1];
      assert forall i :: 0 <= i < |before| ==> before[..i] == log[..i];
      CountIsSum(initial, before);
      assert log[|log| - 1].result != Abort;
    }
  }

  /** Saturation is permanent. */
  lemma {:induction false} SaturationIsPermanent(initial: nat, log: seq<Event>, i: nat)
    requires i <= |log| && CountAfter(initial, log[..i]) == CRYPTO_REFCOUNT_MAX
    ensures CountAfter(initial, log) == CRYPTO_REFCOUNT_MAX
    decreases |log|
  {
    if i == |log| {
      assert log[..i] == log;
    } else {
      assert log[..|log| - 1][..i] == log[..i];
      SaturationIsPermanent(initial, log[..|log| - 1], i);
    }
  }

  lemma ThreadOfInv(s: State, t: nat)
    requires Inv(s) && t < |s.threads|
    ensures ThreadInv(s, t)
  {
  }

  /** Event `i` reports zero exactly when it took the count from a positive value to zero. */
  ghost predicate ReportsZeroRightly(initial: nat, log: seq<Event>, i: nat)
    requires i < |log|
  {
    log[i].result == Done(true) <==> CountAfter(initial, log[..i]) > 0 && CountAfter(initial, log[..i + 1]) == 0
  }

  lemma ZeroExactly(initial: nat, log: seq<Event>, i: nat)
    requires Legal(initial, log) && i < |log|
    ensures ReportsZeroRightly(initial, log, i)
  {
    assert log[..i + 1] == log[..i] + [log[i]];
    LogGrows(log[..i], log[i]);
  }

  /** In every run a decrement that returns 1 is one that took the count to zero itself, and every event that takes the
      count from a positive value to zero is such a decrement. */
  lemma ZeroIsReportedOnce(states: seq<State>, actions: seq<Action>, initial: nat, n: nat, t: nat)
    requires IsRun(states, actions, initial, n) && t < n
    ensures var s := states[|actions|];
            && |s.threads| == n
            && (s.threads[t].Returned? ==> LastOf(s.log, t) == Some(Event(t, s.threads[t].op, Done(s.threads[t].zero))))
            && forall i :: 0 <= i < |s.log| ==> ReportsZeroRightly(initial, s.log, i)
  {
    hide Inv, Decided, EventsOf, LastOf, Step, Legal, ReportsZeroRightly;
    RunIsLinearizable(states, actions, initial, n);
    var s := states[|actions|];
    assert ThreadInv(s, t) by { ThreadOfInv(s, t); }
    forall i | 0 <= i < |s.log| ensures ReportsZeroRightly(initial, s.log, i) {
      ZeroExactly(initial, s.log, i);
    }
  }
}
