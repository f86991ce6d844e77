/**
 `AsyncOpenViking` as a singleton: `__new__` with double-checked locking, `__init__` with its guard,
 `close` and `reset`, run by any number of threads and interleaved between any two accesses to
 shared state.
 */
module Singleton {
  import opened Wrappers

  /** An allocated instance: its `_singleton_initialized` flag, and whether it holds a client. */
  datatype Instance = Instance(ready: bool, client: bool)

  /**
   A finished `__new__`: its result, the resets completed when it last looked at the class and when
   it read the result, and the allocations made before the read and before the last of those resets.
   */
  datatype Returned = Returned(result: Option<nat>, looked: nat, read: nat, made: nat, mark: nat)

  /** Where a thread stands. */
  datatype Thread =
    | Idle
    // __new__
    | OuterCheck
    | WantLock
    | InnerCheck
    | Allocate
    | ReadResult(looked: nat)
    // __init__ of an instance
    | Guard(o: nat)
    | Clear(o: nat)
    | BuildClient(o: nat)
    | StoreClient(o: nat)
    | MarkReady(o: nat)
    // close called on an instance outside a reset
    | Close(o: nat)
    | Closed(o: nat)
    // reset
    | WantResetLock
    | ResetCheck
    | ResetClose(o: nat)
    | ResetClosed(o: nat)
    | ClearInstance

  datatype Shared = Shared(
    current: Option<nat>,
    lock: Option<nat>,
    instances: seq<Instance>,
    // history: resets that dropped an instance, allocations before the last of them,
    // finished `__new__` calls, clients built
    resets: nat,
    mark: nat,
    returned: seq<Returned>,
    built: seq<nat>)

  datatype State = State(shared: Shared, threads: seq<Thread>)

  /** A thread starts a constructor call, a reset or a close, goes on, or meets an exception. */
  datatype Action = CallNew | CallReset | CallClose(instance: nat) | Go | Raise

  datatype Step = Step(t: nat, action: Action)

  function Initial(n: nat): State {
    State(Shared(None, None, [], 0, 0, [], []), seq(n, _ => Idle))
  }

  predicate HoldsInstance(at: Thread) {
    || at.Guard? || at.Clear? || at.BuildClient? || at.StoreClient? || at.MarkReady?
    || at.Close? || at.Closed? || at.ResetClose? || at.ResetClosed?
  }

  /** A thread that holds an instance holds an allocated one. */
  predicate InstanceExists(c: Shared, at: Thread) {
    HoldsInstance(at) ==> at.o < |c.instances|
  }

  predicate MayAct(c: Shared, at: Thread, action: Action) {
    match action
    case CallNew => at.Idle?
    case CallReset => at.Idle?
    case CallClose(o) => at.Idle? && o < |c.instances|
    case Go => !at.Idle? && (at.WantLock? || at.WantResetLock? ==> c.lock.None?) && InstanceExists(c, at)
    case Raise => at.BuildClient? || at.Close? || at.ResetClose?
  }

  predicate Enabled(s: State, step: Step) {
    step.t < |s.threads| && MayAct(s.shared, s.threads[step.t], step.action)
  }

  function SetReady(c: Shared, o: nat, ready: bool): Shared
    requires o < |c.instances|
  {
    c.(instances := c.instances[o := c.instances[o].(ready := ready)])
  }

  /** The next move of thread `t`, standing at `at`. */
  function Next(c: Shared, t: nat, at: Thread): (Shared, Thread)
    requires MayAct(c, at, Go)
  {
    match at
    case OuterCheck => (c, if c.current.None? then WantLock else ReadResult(c.resets))
    case WantLock => (c.(lock := Some(t)), InnerCheck)
    case InnerCheck =>
      if c.current.None? then (c, Allocate) else (c.(lock := None), ReadResult(c.resets))
    case Allocate =>
      (c.(current := Some(|c.instances|), instances := c.instances + [Instance(false, false)], lock := None),
       ReadResult(c.resets))
    case ReadResult(looked) =>
      (c.(returned := c.returned + [Returned(c.current, looked, c.resets, |c.instances|, c.mark)]),
       if c.current.Some? && c.current.value < |c.instances| then Guard(c.current.value) else Idle)
    case Guard(o) => (c, if c.instances[o].ready then Idle else Clear(o))
    case Clear(o) => (SetReady(c, o, false), BuildClient(o))
    case BuildClient(o) => (c.(built := c.built + [o]), StoreClient(o))
    case StoreClient(o) => (c.(instances := c.instances[o := c.instances[o].(client := true)]), MarkReady(o))
    case MarkReady(o) => (SetReady(c, o, true), Idle)
    case Close(o) => (c, Closed(o))
    case Closed(o) => (SetReady(c, o, false), Idle)
    case WantResetLock => (c.(lock := Some(t)), ResetCheck)
    case ResetCheck =>
      if c.current.None? then (c.(lock := None), Idle) else (c, ResetClose(c.current.value))
    case ResetClose(o) => (c, ResetClosed(o))
    case ResetClosed(o) => (SetReady(c, o, false), ClearInstance)
    case ClearInstance => (c.(current := None, lock := None, resets := c.resets + 1, mark := |c.instances|), Idle)
  }

  function Act(c: Shared, t: nat, at: Thread, action: Action): (Shared, Thread)
    requires MayAct(c, at, action)
  {
    match action
    case CallNew => (c, OuterCheck)
    case CallReset => (c, WantResetLock)
    case CallClose(o) => (c, Close(o))
    case Raise => (if at.ResetClose? then c.(lock := None) else c, Idle)
    case Go => Next(c, t, at)
  }

  function Apply(s: State, step: Step): State
    requires Enabled(s, step)
  {
    var (c, at) := Act(s.shared, step.t, s.threads[step.t], step.action);
    State(c, s.threads[step.t := at])
  }

  ghost predicate Legal(s: State, steps: seq<Step>)
    decreases |steps|
  {
    steps == [] || (Enabled(s, steps[0]) && Legal(Apply(s, steps[0]), steps[1..]))
  }

  ghost function Run(s: State, steps: seq<Step>): State
    requires Legal(s, steps)
    decreases |steps|
  {
    if steps == [] then s else Run(Apply(s, steps[0]), steps[1..])
  }

  // ---------------------------------------------------------------- the invariant

  predicate InLock(at: Thread) {
    at.InnerCheck? || at.Allocate? || at.ResetCheck? || at.ResetClose? || at.ResetClosed? || at.ClearInstance?
  }

  /** What one thread relies on. */
  ghost predicate ThreadOk(c: Shared, t: nat, at: Thread) {
    && (InLock(at) ==> c.lock == Some(t))
    && (at.Allocate? ==> c.current.None?)
    && (at.ResetClose? || at.ResetClosed? || at.ClearInstance? ==> c.current.Some?)
    && (at.ReadResult? ==> at.looked <= c.resets && (at.looked == c.resets ==> c.current.Some?))
    && InstanceExists(c, at)
    && (at.MarkReady? ==> c.instances[at.o].client)
  }

  /** Every allocation is the current instance or was dropped by a reset. */
  ghost predicate CountOk(c: Shared) {
    && |c.instances| == c.resets + (if c.current.Some? then 1 else 0)
    && (c.current.Some? ==> c.current.value == c.resets)
    && (c.current.None? <==> |c.instances| == c.mark)
  }

  /** A result is the instance of the time it was read; it is None only if a reset came in between. */
  ghost predicate ReturnedOk(r: Returned, resets: nat) {
    && r.looked <= r.read <= resets
    && (r.result.Some? ==> r.result.value == r.read)
    && (r.result.None? ==> r.looked < r.read)
    && (r.result.None? <==> r.made == r.mark)
  }

  ghost predicate HistoryOk(c: Shared) {
    && (forall k | 0 <= k < |c.returned| :: ReturnedOk(c.returned[k], c.resets))
    && (forall o | 0 <= o < |c.instances| && c.instances[o].ready :: c.instances[o].client)
  }

  ghost predicate Inv(s: State) {
    && CountOk(s.shared)
    && HistoryOk(s.shared)
    && (forall t | 0 <= t < |s.threads| :: ThreadOk(s.shared, t, s.threads[t]))
  }

  /** A move keeps what its own thread relies on. */
  lemma MoveKeepsOwn(c: Shared, t: nat, at: Thread, action: Action)
    requires CountOk(c) && HistoryOk(c) && ThreadOk(c, t, at) && MayAct(c, at, action)
    ensures ThreadOk(Act(c, t, at, action).0, t, Act(c, t, at, action).1)
    ensures CountOk(Act(c, t, at, action).0)
  {
  }

  lemma MoveKeepsHistory(c: Shared, t: nat, at: Thread, action: Action)
    requires CountOk(c) && HistoryOk(c) && ThreadOk(c, t, at) && MayAct(c, at, action)
    ensures HistoryOk(Act(c, t, at, action).0)
  {
  }

  /** ... and what any other thread relies on. */
  lemma MoveKeepsOther(c: Shared, t: nat, at: Thread, action: Action, u: nat, other: Thread)
    requires CountOk(c) && ThreadOk(c, t, at) && ThreadOk(c, u, other) && t != u && MayAct(c, at, action)
    ensures ThreadOk(Act(c, t, at, action).0, u, other)
  {
  }

  lemma StepKeepsInv(s: State, step: Step)
    requires Inv(s) && Enabled(s, step)
    ensures Inv(Apply(s, step))
  {
    var at := s.threads[step.t];
    var r := Apply(s, step);
    MoveKeepsOwn(s.shared, step.t, at, step.action);
    MoveKeepsHistory(s.shared, step.t, at, step.action);
    forall u | 0 <= u < |r.threads|
      ensures ThreadOk(r.shared, u, r.threads[u])
    {
      if u != step.t {
        MoveKeepsOther(s.shared, step.t, at, step.action, u, s.threads[u]);
      }
    }
  }

  lemma {:induction false} RunKeepsInv(s: State, steps: seq<Step>)
    requires Inv(s) && Legal(s, steps)
    ensures Inv(Run(s, steps))
    decreases |steps|
  {
    if steps != [] {
      StepKeepsInv(s, steps[0]);
      RunKeepsInv(Apply(s, steps[0]), steps[1..]);
    }
  }

  ghost predicate Reachable(n: nat, s: State) {
    exists steps :: Legal(Initial(n), steps) && Run(Initial(n), steps) == s
  }

  lemma ReachableInv(n: nat, s: State)
    requires Reachable(n, s)
    ensures Inv(s)
  {
    var steps :| Legal(Initial(n), steps) && Run(Initial(n), steps) == s;
    RunKeepsInv(Initial(n), steps);
  }

  // ---------------------------------------------------------------- theorems

  /** For any number of threads and any interleaving, allocations never exceed resets plus one. */
  lemma AllocationsBounded(n: nat, s: State)
    requires Reachable(n, s)
    ensures |s.shared.instances| <= s.shared.resets + 1
    ensures |s.shared.instances| == s.shared.resets + 1 <==> s.shared.current.Some?
  {
    ReachableInv(n, s);
  }

  /**
   Two constructor calls whose results are read with no reset completed in between never return
   different objects, and a call returns an object unless a reset completed inside it.
   */
  lemma SameObjectBetweenResets(n: nat, s: State, j: nat, k: nat)
    requires Reachable(n, s) && j < |s.shared.returned| && k < |s.shared.returned|
    ensures var a, b := s.shared.returned[j], s.shared.returned[k];
      && (a.result.Some? && b.result.Some? ==> (a.result == b.result <==> a.read == b.read))
      && (a.looked == a.read ==> a.result.Some?)
  {
    ReachableInv(n, s);
  }

  /** A call returns None exactly if no allocation followed the last reset completed before its read. */
  lemma NoneExactlyAfterReset(n: nat, s: State, k: nat)
    requires Reachable(n, s) && k < |s.shared.returned|
    ensures s.shared.returned[k].result.None? <==> s.shared.returned[k].made == s.shared.returned[k].mark
  {
    ReachableInv(n, s);
  }

  /** With no reset all constructor calls return the same object. */
  lemma OneObjectWithoutReset(n: nat, s: State, k: nat)
    requires Reachable(n, s) && s.shared.resets == 0 && k < |s.shared.returned|
    ensures s.shared.returned[k].result == Some(0)
  {
    ReachableInv(n, s);
  }

  /** An instance marked initialised has a constructed client. */
  lemma ReadyMeansClient(n: nat, s: State, o: nat)
    requires Reachable(n, s) && o < |s.shared.instances| && s.shared.instances[o].ready
    ensures s.shared.instances[o].client
  {
    ReachableInv(n, s);
  }

  /** What a step says of the readiness of instance o: an initialisation ended, or one began or a close ended. */
  ghost function Verdict(s: State, step: Step, o: nat): Option<bool>
    requires Enabled(s, step)
  {
    match (step.action, s.threads[step.t])
    case (Go, MarkReady(p)) => if p == o then Some(true) else None
    case (Go, Clear(p)) => if p == o then Some(false) else None
    case (Go, Closed(p)) => if p == o then Some(false) else None
    case (Go, ResetClosed(p)) => if p == o then Some(false) else None
    case _ => None
  }

  /** The last of these in a run. */
  ghost function LastVerdict(s: State, steps: seq<Step>, o: nat): Option<bool>
    requires Legal(s, steps)
    decreases |steps|
  {
    if steps == [] then None
    else
      var later := LastVerdict(Apply(s, steps[0]), steps[1..], o);
      if later.Some? then later else Verdict(s, steps[0], o)
  }

  ghost predicate IsMarked(s: State, o: nat) { o < |s.shared.instances| && s.shared.instances[o].ready }

  lemma StepMarks(s: State, step: Step, o: nat)
    requires Inv(s) && Enabled(s, step)
    ensures IsMarked(Apply(s, step), o) <==>
      if Verdict(s, step, o).Some? then Verdict(s, step, o).value else IsMarked(s, o)
  {
    assert ThreadOk(s.shared, step.t, s.threads[step.t]);
  }

  lemma {:induction false} RunMarks(s: State, steps: seq<Step>, o: nat)
    requires Inv(s) && Legal(s, steps)
    ensures IsMarked(Run(s, steps), o) <==>
      if LastVerdict(s, steps, o).Some? then LastVerdict(s, steps, o).value else IsMarked(s, o)
    decreases |steps|
  {
    if steps != [] {
      StepKeepsInv(s, steps[0]);
      StepMarks(s, steps[0], o);
      RunMarks(Apply(s, steps[0]), steps[1..], o);
    }
  }

  /** An instance is marked initialised exactly if, of its initialisations and closes, an initialisation ended last. */
  lemma ReadyAfterInitialisation(n: nat, steps: seq<Step>, o: nat)
    requires Legal(Initial(n), steps)
    ensures IsMarked(Run(Initial(n), steps), o) <==> LastVerdict(Initial(n), steps, o) == Some(true)
  {
    RunMarks(Initial(n), steps, o);
  }

  /** At most one thread is in the locked region. */
  lemma MutualExclusion(n: nat, s: State, t: nat, u: nat)
    requires Reachable(n, s) && t < |s.threads| && u < |s.threads|
    requires InLock(s.threads[t]) && InLock(s.threads[u])
    ensures t == u
  {
    ReachableInv(n, s);
  }

  // ---------------------------------------------------------------- what the lock does not give

  lemma {:induction false} RunOneMore(s: State, steps: seq<Step>, step: Step)
    requires Legal(s, steps) && Enabled(Run(s, steps), step)
    ensures Legal(s, steps + [step]) && Run(s, steps + [step]) == Apply(Run(s, steps), step)
    decreases |steps|
  {
    if steps != [] {
      RunOneMore(Apply(s, steps[0]), steps[1..], step);
      assert (steps + [step])[1..] == steps[1..] + [step];
    } else {
      assert steps + [step] == [step];
      assert [step][1..] == [];
      assert Legal(Apply(s, step), []);
    }
  }

  lemma StepReaches(n: nat, s: State, step: Step)
    requires Reachable(n, s) && Enabled(s, step)
    ensures Reachable(n, Apply(s, step))
  {
    var steps :| Legal(Initial(n), steps) && Run(Initial(n), steps) == s;
    RunOneMore(Initial(n), steps, step);
  }

  lemma InitialReached(n: nat)
    ensures Reachable(n, Initial(n))
  {
    assert Legal(Initial(n), []) && Run(Initial(n), []) == Initial(n);
  }

  ghost predicate SameShared(a: Shared, b: Shared) {
    && a.current == b.current && a.lock == b.lock && a.resets == b.resets && a.mark == b.mark
    && a.instances == b.instances && a.returned == b.returned && a.built == b.built
  }

  /** The initial state of two threads is in `states`, and no step leads out of it. */
  ghost predicate ClosedUnderSteps(states: iset<State>) {
    && Initial(2) in states
    && (forall s, step | s in states && Enabled(s, step) :: Apply(s, step) in states)
  }

  lemma ReachableIsClosed()
    ensures ClosedUnderSteps(iset s: State | Reachable(2, s))
  {
    InitialReached(2);
    forall s, step | Reachable(2, s) && Enabled(s, step)
      ensures Reachable(2, Apply(s, step))
    {
      StepReaches(2, s, step);
    }
  }

  /** A move of thread `t` out of two, with the shared state and the place it leads to. */
  lemma MoveTo(states: iset<State>, s: State, t: nat, action: Action, c: Shared, at: Thread) returns (r: State)
    requires ClosedUnderSteps(states) && s in states && |s.threads| == 2 && t < 2
    requires MayAct(s.shared, s.threads[t], action)
    requires SameShared(Act(s.shared, t, s.threads[t], action).0, c) && Act(s.shared, t, s.threads[t], action).1 == at
    ensures r in states && r == State(c, s.threads[t := at])
  {
    assert Enabled(s, Step(t, action));
    r := Apply(s, Step(t, action));
  }

  lemma TwoIdle()
    ensures Initial(2) == State(Shared(None, None, [], 0, 0, [], []), [Idle, Idle])
  {
    assert seq(2, _ => Idle) == [Idle, Idle];
  }

  /** Thread 0 of two has found no instance and holds the lock. */
  lemma FirstLocked(states: iset<State>) returns (s: State)
    requires ClosedUnderSteps(states)
    ensures s == State(Shared(None, Some(0), [], 0, 0, [], []), [InnerCheck, Idle])
    ensures s in states
  {
    var c := Shared(None, None, [], 0, 0, [], []);
    s := State(c, [Idle, Idle]);
    TwoIdle();
    s := MoveTo(states, s, 0, CallNew, c, OuterCheck);
    s := MoveTo(states, s, 0, Go, c, WantLock);
    s := MoveTo(states, s, 0, Go, c.(lock := Some(0)), InnerCheck);
    assert s.threads == [InnerCheck, Idle];
  }

  /** Thread 0 of two has allocated the first instance and has not yet read it back. */
  lemma FirstAllocated(states: iset<State>) returns (s: State)
    requires ClosedUnderSteps(states)
    ensures s == State(Shared(Some(0), None, [Instance(false, false)], 0, 0, [], []), [ReadResult(0), Idle])
    ensures s in states
  {
    s := FirstLocked(states);
    s := MoveTo(states, s, 0, Go, s.shared, Allocate);
    s := MoveTo(states, s, 0, Go, Shared(Some(0), None, [Instance(false, false)], 0, 0, [], []), ReadResult(0));
    assert s.threads == [ReadResult(0), Idle];
  }

  lemma ResetLocksIn(states: iset<State>, start: State) returns (s: State)
    requires ClosedUnderSteps(states) && start in states
    requires start.shared.lock == None && start.threads == [ReadResult(0), Idle]
    ensures s in states && s == State(start.shared.(lock := Some(1)), [ReadResult(0), ResetCheck])
  {
    s := MoveTo(states, start, 1, CallReset, start.shared, WantResetLock);
    s := MoveTo(states, s, 1, Go, start.shared.(lock := Some(1)), ResetCheck);
    assert s.threads == [ReadResult(0), ResetCheck];
  }

  /** Thread 1 is resetting and has closed the instance thread 0 has not read yet. */
  lemma ResetClosesIn(states: iset<State>, start: State) returns (s: State)
    requires ClosedUnderSteps(states) && start in states
    requires start == State(Shared(Some(0), None, [Instance(false, false)], 0, 0, [], []), [ReadResult(0), Idle])
    ensures s in states && s == State(start.shared.(lock := Some(1)), [ReadResult(0), ClearInstance])
  {
    var locked := start.shared.(lock := Some(1));
    s := ResetLocksIn(states, start);
    s := MoveTo(states, s, 1, Go, locked, ResetClose(0));
    s := MoveTo(states, s, 1, Go, locked, ResetClosed(0));
    s := MoveTo(states, s, 1, Go, locked, ClearInstance);
    assert s.threads == [ReadResult(0), ClearInstance];
  }

  lemma ResetCanYieldNoneIn(states: iset<State>) returns (s: State)
    requires ClosedUnderSteps(states)
    ensures s in states && s.shared.returned == [Returned(None, 0, 1, 1, 1)]
  {
    s := FirstAllocated(states);
    var c := s.shared;
    s := ResetClosesIn(states, s);
    s := MoveTo(states, s, 1, Go, c.(current := None, resets := 1, mark := 1), Idle);
    s := MoveTo(states, s, 0, Go, c.(current := None, resets := 1, mark := 1, returned := [Returned(None, 0, 1, 1, 1)]), Idle);
  }

  /** A reset that completes between the check and the read makes a constructor call return None. */
  lemma ResetCanYieldNone() returns (s: State)
    ensures Reachable(2, s) && s.shared.returned == [Returned(None, 0, 1, 1, 1)]
  {
    ReachableIsClosed();
    s := ResetCanYieldNoneIn(iset s: State | Reachable(2, s));
  }

  /** Two threads have passed the guard of one instance that is not ready. */
  lemma TwoPastGuard(states: iset<State>) returns (s: State)
    requires ClosedUnderSteps(states)
    ensures s in states && s.threads == [Clear(0), Clear(0)]
    ensures var r := Returned(Some(0), 0, 0, 1, 0);
      s.shared == Shared(Some(0), None, [Instance(false, false)], 0, 0, [r, r], [])
  {
    s := FirstAllocated(states);
    var once := s.shared.(returned := [Returned(Some(0), 0, 0, 1, 0)]);
    var twice := s.shared.(returned := [Returned(Some(0), 0, 0, 1, 0), Returned(Some(0), 0, 0, 1, 0)]);
    s := MoveTo(states, s, 0, Go, once, Guard(0));
    s := MoveTo(states, s, 0, Go, once, Clear(0));
    s := MoveTo(states, s, 1, CallNew, once, OuterCheck);
    s := MoveTo(states, s, 1, Go, once, ReadResult(0));
    s := MoveTo(states, s, 1, Go, twice, Guard(0));
    s := MoveTo(states, s, 1, Go, twice, Clear(0));
    assert s.threads == [Clear(0), Clear(0)];
  }

  lemma TwoClientsForOneInstanceIn(states: iset<State>) returns (s: State)
    requires ClosedUnderSteps(states)
    ensures s in states && |s.shared.instances| == 1 && s.shared.resets == 0 && s.shared.built == [0, 0]
  {
    s := TwoPastGuard(states);
    var c := s.shared;
    s := MoveTo(states, s, 0, Go, c, BuildClient(0));
    s := MoveTo(states, s, 1, Go, c, BuildClient(0));
    s := MoveTo(states, s, 0, Go, c.(built := [0]), StoreClient(0));
    s := MoveTo(states, s, 1, Go, c.(built := [0, 0]), StoreClient(0));
  }

  /** `__init__` takes no lock: two threads can each build a client for the one instance. */
  lemma TwoClientsForOneInstance() returns (s: State)
    ensures Reachable(2, s) && |s.shared.instances| == 1 && s.shared.resets == 0 && s.shared.built == [0, 0]
  {
    ReachableIsClosed();
    s := TwoClientsForOneInstanceIn(iset s: State | Reachable(2, s));
  }
}
