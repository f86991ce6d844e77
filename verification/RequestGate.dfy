/**
 `run_request_set`: one task per request, held back by an event until all are created, then let
 through a semaphore; the outcomes are gathered in the order of the requests.

 A `Step` is one resumption of a task or of the coroutine that gathers.
 */
module RequestGate {

  /** A request that is done has succeeded or failed; exceptions of the query are failures. */
  datatype Task = Waiting | InFlight | Done(failed: bool)

  datatype Main = Starting | Gathering | Over(outcomes: seq<bool>)

  datatype State = State(permits: nat, free: nat, tasks: seq<Task>, main: Main)

  datatype Step = Open | Acquire(i: nat) | Finish(i: nat, failed: bool) | Gather

  function Initial(requests: nat, concurrency: nat): State {
    State(concurrency, concurrency, seq(requests, _ => Waiting), Starting)
  }

  predicate Enabled(s: State, step: Step) {
    match step
    case Open => s.main.Starting?
    case Acquire(i) => !s.main.Starting? && i < |s.tasks| && s.tasks[i].Waiting? && s.free > 0
    case Finish(i, _) => i < |s.tasks| && s.tasks[i].InFlight?
    case Gather => s.main.Gathering? && AllDone(s.tasks)
  }

  predicate AllDone(tasks: seq<Task>) {
    forall i | 0 <= i < |tasks| :: tasks[i].Done?
  }

  function Outcomes(tasks: seq<Task>): seq<bool>
    requires AllDone(tasks)
  {
    seq(|tasks|, i requires 0 <= i < |tasks| => tasks[i].failed)
  }

  function Apply(s: State, step: Step): State
    requires Enabled(s, step)
  {
    match step
    case Open => s.(main := Gathering)
    case Acquire(i) => s.(tasks := s.tasks[i := InFlight], free := s.free - 1)
    case Finish(i, failed) => s.(tasks := s.tasks[i := Done(failed)], free := s.free + 1)
    case Gather => s.(main := Over(Outcomes(s.tasks)))
  }

  ghost predicate Legal(s: State, steps: seq<Step>)
    decreases |steps|
  {
    steps == [] || (Enabled(s, steps[0]) && Legal(Apply(s, steps[0]), steps[1..]))
  }

  ghost function Run(s: State, steps: seq<Step>): State
    requires Legal(s, steps)
    decreases |steps|
  {
    if steps == [] then s else Run(Apply(s, steps[0]), steps[1..])
  }

  // ---------------------------------------------------------------- what every step keeps

  ghost function Calls(tasks: seq<Task>): nat {
    if tasks == [] then 0 else Calls(tasks[1..]) + if tasks[0].InFlight? then 1 else 0
  }

  /** What the tasks still have to do: two steps for a waiting one, one for a call in flight. */
  ghost function Remaining(tasks: seq<Task>): nat {
    if tasks == [] then 0
    else Remaining(tasks[1..]) + if tasks[0].Waiting? then 2 else if tasks[0].InFlight? then 1 else 0
  }

  lemma {:induction false} TaskUpdate(tasks: seq<Task>, i: nat, t: Task)
    requires i < |tasks| && ((tasks[i].Waiting? && t.InFlight?) || (tasks[i].InFlight? && t.Done?))
    ensures Remaining(tasks[i := t]) == Remaining(tasks) - 1
    ensures Calls(tasks[i := t]) == Calls(tasks) + if t.InFlight? then 1 else -1
    decreases |tasks|
  {
    if i == 0 {
      assert tasks[i := t][1..] == tasks[1..];
    } else {
      assert tasks[i := t][1..] == tasks[1..][i - 1 := t];
      TaskUpdate(tasks[1..], i - 1, t);
    }
  }

  ghost predicate Inv(s: State, requests: nat) {
    && |s.tasks| == requests
    && s.free + Calls(s.tasks) == s.permits
    && (s.main.Starting? ==> forall i | 0 <= i < requests :: s.tasks[i].Waiting?)
    && (s.permits == 0 ==> forall i | 0 <= i < requests :: s.tasks[i].Waiting?)
    && (s.main.Over? ==> AllDone(s.tasks) && s.main.outcomes == Outcomes(s.tasks))
  }

  ghost function Measure(s: State): nat {
    Remaining(s.tasks) + match s.main case Starting => 2 case Gathering => 1 case Over(_) => 0
  }

  lemma {:induction false} SomeCall(tasks: seq<Task>, i: nat)
    requires i < |tasks| && tasks[i].InFlight?
    ensures Calls(tasks) > 0
    decreases i
  {
    if i > 0 {
      SomeCall(tasks[1..], i - 1);
    }
  }

  lemma StepKeepsInv(s: State, step: Step, requests: nat)
    requires Inv(s, requests) && Enabled(s, step)
    ensures Inv(Apply(s, step), requests) && Apply(s, step).permits == s.permits
    ensures Measure(Apply(s, step)) + 1 == Measure(s)
  {
    match step
    case Acquire(i) =>
      TaskUpdate(s.tasks, i, InFlight);
    case Finish(i, failed) =>
      SomeCall(s.tasks, i);
      TaskUpdate(s.tasks, i, Done(failed));
    case _ =>
  }

  lemma {:induction false} RunKeepsInv(s: State, steps: seq<Step>, requests: nat)
    requires Inv(s, requests) && Legal(s, steps)
    ensures Inv(Run(s, steps), requests) && Run(s, steps).permits == s.permits
    ensures Measure(Run(s, steps)) + |steps| == Measure(s)
    decreases |steps|
  {
    if steps != [] {
      StepKeepsInv(s, steps[0], requests);
      RunKeepsInv(Apply(s, steps[0]), steps[1..], requests);
    }
  }

  lemma {:induction false} AllWaiting(tasks: seq<Task>)
    requires forall i | 0 <= i < |tasks| :: tasks[i].Waiting?
    ensures Calls(tasks) == 0 && Remaining(tasks) == 2 * |tasks|
  {
    if tasks != [] {
      AllWaiting(tasks[1..]);
    }
  }

  lemma InitialInv(requests: nat, concurrency: nat)
    ensures Inv(Initial(requests, concurrency), requests)
    ensures Measure(Initial(requests, concurrency)) == 2 * requests + 2
  {
    AllWaiting(Initial(requests, concurrency).tasks);
  }

  // ---------------------------------------------------------------- theorems

  /** No request starts before the gate opens, and never are more in flight than there are permits. */
  lemma GateHoldsAndBounds(requests: nat, concurrency: nat, steps: seq<Step>)
    requires Legal(Initial(requests, concurrency), steps)
    ensures var s := Run(Initial(requests, concurrency), steps);
      && Calls(s.tasks) <= concurrency
      && (s.main.Starting? ==> Calls(s.tasks) == 0)
  {
    InitialInv(requests, concurrency);
    RunKeepsInv(Initial(requests, concurrency), steps, requests);
    var s := Run(Initial(requests, concurrency), steps);
    if s.main.Starting? {
      AllWaiting(s.tasks);
    }
  }

  /** What is gathered is one outcome for each request, the one that request finished with. */
  lemma OneOutcomeEach(requests: nat, concurrency: nat, steps: seq<Step>, i: nat)
    requires Legal(Initial(requests, concurrency), steps)
    requires Run(Initial(requests, concurrency), steps).main.Over? && i < requests
    ensures var s := Run(Initial(requests, concurrency), steps);
      |s.main.outcomes| == requests == |s.tasks| && s.tasks[i] == Done(s.main.outcomes[i])
  {
    InitialInv(requests, concurrency);
    RunKeepsInv(Initial(requests, concurrency), steps, requests);
  }

  /** A request keeps the outcome it finished with. */
  lemma {:induction false} OutcomeKept(s: State, steps: seq<Step>, i: nat)
    requires Legal(s, steps) && i < |s.tasks| && s.tasks[i].Done?
    ensures |Run(s, steps).tasks| == |s.tasks| && Run(s, steps).tasks[i] == s.tasks[i]
    decreases |steps|
  {
    if steps != [] {
      OutcomeKept(Apply(s, steps[0]), steps[1..], i);
    }
  }

  /** Some step is possible until everything is gathered, if there are permits or no requests. */
  lemma CanGoOn(s: State, requests: nat) returns (step: Step)
    requires Inv(s, requests) && !s.main.Over? && (s.permits > 0 || requests == 0)
    ensures Enabled(s, step)
  {
    if s.main.Starting? {
      step := Open;
    } else if i :| 0 <= i < |s.tasks| && s.tasks[i].InFlight? {
      step := Finish(i, false);
    } else if i :| 0 <= i < |s.tasks| && s.tasks[i].Waiting? {
      NoCalls(s.tasks);
      step := Acquire(i);
    } else {
      step := Gather;
    }
  }

  lemma {:induction false} NoCalls(tasks: seq<Task>)
    requires forall i | 0 <= i < |tasks| :: !tasks[i].InFlight?
    ensures Calls(tasks) == 0
  {
    if tasks != [] {
      NoCalls(tasks[1..]);
    }
  }

  /**
   A schedule that cannot go on has gathered everything, after exactly 2 n + 2 steps, if there are
   permits or no requests; with no permits and some request none ever does.
   */
  lemma EndsUnlessNoPermits(requests: nat, concurrency: nat, steps: seq<Step>)
    requires Legal(Initial(requests, concurrency), steps)
    requires forall step :: !Enabled(Run(Initial(requests, concurrency), steps), step)
    ensures Run(Initial(requests, concurrency), steps).main.Over? <==> concurrency > 0 || requests == 0
    ensures concurrency > 0 || requests == 0 ==> |steps| == 2 * requests + 2
  {
    InitialInv(requests, concurrency);
    RunKeepsInv(Initial(requests, concurrency), steps, requests);
    var s := Run(Initial(requests, concurrency), steps);
    if concurrency > 0 || requests == 0 {
      if !s.main.Over? {
        var step := CanGoOn(s, requests);
      }
      NothingRemains(s.tasks);
    } else {
      assert s.tasks[0].Waiting?;
    }
  }

  lemma {:induction false} NothingRemains(tasks: seq<Task>)
    requires AllDone(tasks)
    ensures Remaining(tasks) == 0
  {
    if tasks != [] {
      NothingRemains(tasks[1..]);
    }
  }

  // ---------------------------------------------------------------- the outcomes are those of the calls

  /** How the calls of request i ended, told from the steps alone. */
  ghost function Endings(steps: seq<Step>, i: nat): seq<bool> {
    if steps == [] then []
    else
      (match steps[0] case Finish(j, failed) => if j == i then [failed] else [] case _ => [])
      + Endings(steps[1..], i)
  }

  ghost predicate EndedBy(t: Task, endings: seq<bool>) {
    endings == if t.Done? then [t.failed] else []
  }

  lemma StepEnds(s: State, step: Step, i: nat, before: seq<bool>)
    requires Enabled(s, step) && i < |s.tasks| && EndedBy(s.tasks[i], before)
    ensures |Apply(s, step).tasks| == |s.tasks| && EndedBy(Apply(s, step).tasks[i], before + Endings([step], i))
  {
    assert [step][1..] == [];
    assert before + [] == before;
  }

  lemma {:induction false} RunEnds(s: State, steps: seq<Step>, i: nat, before: seq<bool>)
    requires Legal(s, steps) && i < |s.tasks| && EndedBy(s.tasks[i], before)
    ensures |Run(s, steps).tasks| == |s.tasks| && EndedBy(Run(s, steps).tasks[i], before + Endings(steps, i))
    decreases |steps|
  {
    if steps == [] {
      assert before + [] == before;
    } else {
      StepEnds(s, steps[0], i, before);
      RunEnds(Apply(s, steps[0]), steps[1..], i, before + Endings([steps[0]], i));
      assert [steps[0]][1..] == [];
      assert Endings([steps[0]], i) + Endings(steps[1..], i) == Endings(steps, i);
      assert before + Endings([steps[0]], i) + Endings(steps[1..], i) == before + (Endings([steps[0]], i) + Endings(steps[1..], i));
    }
  }

  /** What is gathered for a request is how its one call ended. */
  lemma OutcomesAreEndings(requests: nat, concurrency: nat, steps: seq<Step>, i: nat)
    requires Legal(Initial(requests, concurrency), steps)
    requires Run(Initial(requests, concurrency), steps).main.Over? && i < requests
    ensures var outcomes := Run(Initial(requests, concurrency), steps).main.outcomes;
      |outcomes| == requests && Endings(steps, i) == [outcomes[i]]
  {
    OneOutcomeEach(requests, concurrency, steps, i);
    RunEnds(Initial(requests, concurrency), steps, i, []);
  }
}
