/**
 `map_bounded_as_completed`: one task per item, a semaphore around each call, and a generator that
 yields results in completion order and on its way out cancels and awaits whatever is left.

 A `Step` is one resumption of a task or of the generator; the theorems hold for every schedule.
 */
module BoundedMap {
  import opened SetSizes

  type Result = int

  /** How a task ended; a call may answer its cancellation with any of these. */
  datatype Ending = Value(v: Result) | Raised | Cancelled

  datatype Task = Waiting | InFlight | Done(ending: Ending)

  datatype Exit = Exhausted | Failed | Abandoned

  datatype Generator = Consuming | Cleaning(exit: Exit) | Over(exit: Exit)

  datatype Yield = Yield(item: nat, v: Result)

  /** `ready` lists the tasks that ended, in that order; the generator has taken `next` of them. */
  datatype State = State(
    cap: nat, free: nat, tasks: seq<Task>, ready: seq<nat>, next: nat, yielded: seq<Yield>, gen: Generator)

  datatype Step =
    | Acquire(i: nat)
    | Finish(i: nat, ending: Ending)
    | CancelWaiting(i: nat)
    | TakeNext
    | Exhaust
    | Abandon
    | CleanUp

  function Initial(items: nat, concurrency: int): State {
    var cap := if concurrency > 1 then concurrency else 1;
    State(cap, cap, seq(items, _ => Waiting), [], 0, [], Consuming)
  }

  predicate Enabled(s: State, step: Step) {
    match step
    case Acquire(i) => s.gen.Consuming? && i < |s.tasks| && s.tasks[i].Waiting? && s.free > 0
    case Finish(i, ending) => i < |s.tasks| && s.tasks[i].InFlight? && (ending.Cancelled? ==> !s.gen.Consuming?)
    case CancelWaiting(i) => s.gen.Cleaning? && i < |s.tasks| && s.tasks[i].Waiting?
    case TakeNext => s.gen.Consuming? && s.next < |s.ready| && s.ready[s.next] < |s.tasks| && s.tasks[s.ready[s.next]].Done?
    case Exhaust => s.gen.Consuming? && s.next == |s.tasks|
    case Abandon => s.gen.Consuming?
    case CleanUp => s.gen.Cleaning? && forall i | 0 <= i < |s.tasks| :: s.tasks[i].Done?
  }

  function Apply(s: State, step: Step): State
    requires Enabled(s, step)
  {
    match step
    case Acquire(i) => s.(tasks := s.tasks[i := InFlight], free := s.free - 1)
    case Finish(i, ending) => s.(tasks := s.tasks[i := Done(ending)], free := s.free + 1, ready := s.ready + [i])
    case CancelWaiting(i) => s.(tasks := s.tasks[i := Done(Cancelled)])
    case TakeNext =>
      var i := s.ready[s.next];
      var ending := s.tasks[i].ending;
      if ending.Value? then s.(next := s.next + 1, yielded := s.yielded + [Yield(i, ending.v)])
      else s.(next := s.next + 1, gen := Cleaning(Failed))
    case Exhaust => s.(gen := Cleaning(Exhausted))
    case Abandon => s.(gen := Cleaning(Abandoned))
    case CleanUp => s.(gen := Over(s.gen.exit))
  }

  ghost predicate Legal(s: State, steps: seq<Step>)
    decreases |steps|
  {
    steps == [] || (Enabled(s, steps[0]) && Legal(Apply(s, steps[0]), steps[1..]))
  }

  ghost function Run(s: State, steps: seq<Step>): State
    requires Legal(s, steps)
    decreases |steps|
  {
    if steps == [] then s else Run(Apply(s, steps[0]), steps[1..])
  }

  // ---------------------------------------------------------------- what every step keeps

  /** The calls in flight. */
  ghost function Calls(tasks: seq<Task>): nat {
    if tasks == [] then 0 else Calls(tasks[1..]) + if tasks[0].InFlight? then 1 else 0
  }

  lemma {:induction false} CallsUpdate(tasks: seq<Task>, i: nat, t: Task)
    requires i < |tasks|
    ensures Calls(tasks[i := t]) == Calls(tasks) + (if t.InFlight? then 1 else 0) - (if tasks[i].InFlight? then 1 else 0)
    decreases |tasks|
  {
    if i == 0 {
      assert tasks[i := t][1..] == tasks[1..];
    } else {
      assert tasks[i := t][1..] == tasks[1..][i - 1 := t];
      CallsUpdate(tasks[1..], i - 1, t);
    }
  }

  /** Each permit is free or held by exactly one call. */
  ghost predicate PermitsKept(s: State) { s.cap >= 1 && s.free + Calls(s.tasks) == s.cap }

  /** `ready` lists each ended task once; while the generator consumes, all of them and no cancelled one. */
  ghost predicate ReadyKept(s: State) {
    && s.next <= |s.ready|
    && (forall k | 0 <= k < |s.ready| :: s.ready[k] < |s.tasks| && s.tasks[s.ready[k]].Done?)
    && Distinct(s.ready)
    && (s.gen.Consuming? ==> forall i | 0 <= i < |s.tasks| && s.tasks[i].Done? :: i in s.ready && !s.tasks[i].ending.Cancelled?)
  }

  /** What was yielded is the results taken so far, in completion order. */
  ghost predicate YieldsKept(s: State) {
    && |s.yielded| <= s.next <= |s.ready|
    && (s.gen.Consuming? ==> |s.yielded| == s.next)
    && forall k | 0 <= k < |s.yielded| ::
         var i := s.ready[k];
         s.yielded[k].item == i && i < |s.tasks| && s.tasks[i] == Done(Value(s.yielded[k].v))
  }

  ghost predicate ExitKept(s: State) {
    && (s.gen.Over? ==> forall i | 0 <= i < |s.tasks| :: s.tasks[i].Done?)
    && (!s.gen.Consuming? && s.gen.exit == Exhausted ==> |s.yielded| == s.next == |s.tasks|)
  }

  ghost predicate Inv(s: State) { PermitsKept(s) && ReadyKept(s) && YieldsKept(s) && ExitKept(s) }

  lemma AcquireKeeps(s: State, i: nat)
    requires Inv(s) && Enabled(s, Acquire(i))
    ensures Inv(Apply(s, Acquire(i)))
  {
    CallsUpdate(s.tasks, i, InFlight);
  }

  lemma FinishKeeps(s: State, i: nat, ending: Ending)
    requires Inv(s) && Enabled(s, Finish(i, ending))
    ensures Inv(Apply(s, Finish(i, ending)))
  {
    CallsUpdate(s.tasks, i, Done(ending));
    var t := Apply(s, Finish(i, ending));
    assert t.ready[|s.ready|] == i;
    assert forall j | j in s.ready :: j in t.ready;
  }

  lemma CancelKeeps(s: State, i: nat)
    requires Inv(s) && Enabled(s, CancelWaiting(i))
    ensures Inv(Apply(s, CancelWaiting(i)))
  {
    CallsUpdate(s.tasks, i, Done(Cancelled));
  }

  lemma StepKeepsInv(s: State, step: Step)
    requires Inv(s) && Enabled(s, step)
    ensures Inv(Apply(s, step))
  {
    match step
    case Acquire(i) => AcquireKeeps(s, i);
    case Finish(i, ending) => FinishKeeps(s, i, ending);
    case CancelWaiting(i) => CancelKeeps(s, i);
    case TakeNext =>
    case Exhaust =>
    case Abandon =>
    case CleanUp =>
  }

  lemma {:induction false} NoCallsYet(n: nat)
    ensures Calls(seq(n, _ => Waiting)) == 0
  {
    if n > 0 {
      assert seq(n, _ => Waiting)[1..] == seq(n - 1, _ => Waiting);
      NoCallsYet(n - 1);
    }
  }

  lemma {:induction false} RunKeepsInv(s: State, steps: seq<Step>)
    requires Inv(s) && Legal(s, steps)
    ensures Inv(Run(s, steps)) && Run(s, steps).cap == s.cap && |Run(s, steps).tasks| == |s.tasks|
    decreases |steps|
  {
    if steps != [] {
      StepKeepsInv(s, steps[0]);
      RunKeepsInv(Apply(s, steps[0]), steps[1..]);
    }
  }

  lemma Reachable(items: nat, concurrency: int, steps: seq<Step>)
    requires Legal(Initial(items, concurrency), steps)
    ensures Inv(Run(Initial(items, concurrency), steps))
    ensures |Run(Initial(items, concurrency), steps).tasks| == items
    ensures Run(Initial(items, concurrency), steps).cap == (if concurrency > 1 then concurrency else 1)
  {
    NoCallsYet(items);
    RunKeepsInv(Initial(items, concurrency), steps);
  }

  // ---------------------------------------------------------------- theorems

  /** At most max(1, concurrency) calls are ever in flight. */
  lemma InFlightBounded(items: nat, concurrency: int, steps: seq<Step>)
    requires Legal(Initial(items, concurrency), steps)
    ensures Calls(Run(Initial(items, concurrency), steps).tasks) <= if concurrency > 1 then concurrency else 1
  {
    Reachable(items, concurrency, steps);
  }

  /** However the generator ends, every task it created is done. */
  lemma EndsWithAllDone(items: nat, concurrency: int, steps: seq<Step>, i: nat)
    requires Legal(Initial(items, concurrency), steps) && i < items
    requires Run(Initial(items, concurrency), steps).gen.Over?
    ensures i < |Run(Initial(items, concurrency), steps).tasks| && Run(Initial(items, concurrency), steps).tasks[i].Done?
  {
    Reachable(items, concurrency, steps);
  }

  /** The result of item i was yielded. */
  ghost predicate ResultYielded(s: State, i: nat)
    requires i < |s.tasks|
  {
    exists k | 0 <= k < |s.yielded| :: s.yielded[k].item == i && s.tasks[i] == Done(Value(s.yielded[k].v))
  }

  /** On full consumption each item's result was yielded exactly once. */
  lemma EachResultOnce(items: nat, concurrency: int, steps: seq<Step>)
    requires Legal(Initial(items, concurrency), steps)
    requires Run(Initial(items, concurrency), steps).gen == Over(Exhausted)
    ensures var s := Run(Initial(items, concurrency), steps);
            && |s.yielded| == items == |s.tasks|
            && (forall j, k | 0 <= j < k < items :: s.yielded[j].item != s.yielded[k].item)
            && (forall i | 0 <= i < items :: ResultYielded(s, i))
  {
    Reachable(items, concurrency, steps);
    var s := Run(Initial(items, concurrency), steps);
    forall i | 0 <= i < items
      ensures ResultYielded(s, i)
    {
      DistinctCoversAll(s.ready[..items], items, i);
      var k :| 0 <= k < items && s.ready[..items][k] == i;
      assert s.ready[k] == i;
      assert s.yielded[k].item == i && s.tasks[i] == Done(Value(s.yielded[k].v));
    }
  }

  ghost function Elements(xs: seq<nat>): (e: set<nat>)
    ensures forall x :: x in e <==> x in xs
  {
    if xs == [] then {} else Elements(xs[1..]) + {xs[0]}
  }

  ghost function Below(n: nat): (e: set<nat>)
    ensures forall x: nat :: x in e <==> x < n
    ensures |e| == n
  {
    if n == 0 then {} else Below(n - 1) + {n - 1}
  }

  ghost predicate Distinct(xs: seq<nat>) { forall j, k | 0 <= j < k < |xs| :: xs[j] != xs[k] }

  lemma {:induction false} DistinctSize(xs: seq<nat>)
    requires Distinct(xs)
    ensures |Elements(xs)| == |xs|
    decreases |xs|
  {
    if xs != [] {
      assert Distinct(xs[1..]);
      DistinctSize(xs[1..]);
      assert xs[0] !in xs[1..];
    }
  }

  /** n distinct numbers below n are all the numbers below n. */
  lemma DistinctCoversAll(xs: seq<nat>, n: nat, i: nat)
    requires |xs| == n && i < n && Distinct(xs)
    requires forall k | 0 <= k < n :: xs[k] < n
    ensures i in xs
  {
    DistinctSize(xs);
    if i !in xs { SubsetSize(Elements(xs), Below(n) - {i}); }
  }

  /** Until it is over something can happen: no schedule leaves the generator stuck. */
  lemma NeverStuck(items: nat, concurrency: int, steps: seq<Step>) returns (step: Step)
    requires Legal(Initial(items, concurrency), steps)
    requires !Run(Initial(items, concurrency), steps).gen.Over?
    ensures Enabled(Run(Initial(items, concurrency), steps), step) && !step.Abandon?
  {
    Reachable(items, concurrency, steps);
    var s := Run(Initial(items, concurrency), steps);
    if i: nat :| i < |s.tasks| && s.tasks[i].InFlight? {
      step := Finish(i, Raised);
    } else if i: nat :| i < |s.tasks| && s.tasks[i].Waiting? {
      NoneInFlight(s.tasks);
      step := if s.gen.Consuming? then Acquire(i) else CancelWaiting(i);
    } else if s.gen.Cleaning? {
      step := CleanUp;
    } else if s.next < |s.ready| {
      step := TakeNext;
    } else {
      AllReady(s);
      step := Exhaust;
    }
  }

  lemma {:induction false} NoneInFlight(tasks: seq<Task>)
    requires forall i: nat | i < |tasks| :: !tasks[i].InFlight?
    ensures Calls(tasks) == 0
    decreases |tasks|
  {
    if tasks != [] { NoneInFlight(tasks[1..]); }
  }

  lemma AllReady(s: State)
    requires Inv(s) && s.gen.Consuming? && forall i | 0 <= i < |s.tasks| :: s.tasks[i].Done?
    ensures |s.ready| == |s.tasks|
  {
    DistinctSize(s.ready);
    assert Elements(s.ready) == Below(|s.tasks|);
  }

  // ---------------------------------------------------------------- every schedule ends

  ghost function Work(tasks: seq<Task>): nat {
    if tasks == [] then 0
    else Work(tasks[1..]) + match tasks[0] case Waiting => 2 case InFlight => 1 case Done(_) => 0
  }

  lemma {:induction false} WorkUpdate(tasks: seq<Task>, i: nat, t: Task)
    requires i < |tasks| && ((tasks[i].Waiting? && !t.Waiting?) || (tasks[i].InFlight? && t.Done?))
    ensures Work(tasks[i := t]) < Work(tasks)
    decreases |tasks|
  {
    if i == 0 {
      assert tasks[i := t][1..] == tasks[1..];
    } else {
      assert tasks[i := t][1..] == tasks[1..][i - 1 := t];
      WorkUpdate(tasks[1..], i - 1, t);
    }
  }

  ghost function Measure(s: State): int {
    Work(s.tasks) + (|s.tasks| - s.next) + match s.gen case Consuming => 2 case Cleaning(_) => 1 case Over(_) => 0
  }

  lemma StepDecreases(s: State, step: Step)
    requires Inv(s) && Enabled(s, step)
    ensures Measure(Apply(s, step)) < Measure(s)
  {
    match step
    case Acquire(i) => WorkUpdate(s.tasks, i, InFlight);
    case Finish(i, ending) => WorkUpdate(s.tasks, i, Done(ending));
    case CancelWaiting(i) => WorkUpdate(s.tasks, i, Done(Cancelled));
    case TakeNext =>
    case Exhaust =>
    case Abandon =>
    case CleanUp =>
  }

  lemma NextWithinTasks(s: State)
    requires Inv(s)
    ensures s.next <= |s.tasks|
  {
    DistinctSize(s.ready);
    SubsetSize(Elements(s.ready), Below(|s.tasks|));
  }

  lemma {:induction false} RunIsShort(s: State, steps: seq<Step>)
    requires Inv(s) && Legal(s, steps)
    ensures |steps| <= Measure(s)
    decreases |steps|
  {
    if steps == [] {
      NextWithinTasks(s);
    } else {
      StepKeepsInv(s, steps[0]);
      StepDecreases(s, steps[0]);
      RunIsShort(Apply(s, steps[0]), steps[1..]);
    }
  }

  lemma {:induction false} InitialWork(n: nat)
    ensures Work(seq(n, _ => Waiting)) == 2 * n
  {
    if n > 0 {
      assert seq(n, _ => Waiting)[1..] == seq(n - 1, _ => Waiting);
      InitialWork(n - 1);
    }
  }

  /** No schedule takes more than three steps per item and two more; with NeverStuck, every one ends. */
  lemma EveryScheduleEnds(items: nat, concurrency: int, steps: seq<Step>)
    requires Legal(Initial(items, concurrency), steps)
    ensures |steps| <= 3 * items + 2
  {
    NoCallsYet(items);
    InitialWork(items);
    RunIsShort(Initial(items, concurrency), steps);
  }

  // ---------------------------------------------------------------- the results are those of the calls

  /** What the calls for item i came back with, told from the steps alone. */
  ghost function Endings(steps: seq<Step>, i: nat): seq<Ending> {
    if steps == [] then []
    else
      (match steps[0] case Finish(j, ending) => if j == i then [ending] else [] case _ => [])
      + Endings(steps[1..], i)
  }

  /** A task in that state can have come there by a call that ended with `endings`. */
  ghost predicate EndedBy(t: Task, endings: seq<Ending>) {
    if t.Done? then endings == [t.ending] || (endings == [] && t.ending.Cancelled?) else endings == []
  }

  lemma StepEnds(s: State, step: Step, i: nat, before: seq<Ending>)
    requires Enabled(s, step) && i < |s.tasks| && EndedBy(s.tasks[i], before)
    ensures |Apply(s, step).tasks| == |s.tasks| && EndedBy(Apply(s, step).tasks[i], before + Endings([step], i))
  {
    assert [step][1..] == [];
    assert before + [] == before;
  }

  lemma {:induction false} RunEnds(s: State, steps: seq<Step>, i: nat, before: seq<Ending>)
    requires Legal(s, steps) && i < |s.tasks| && EndedBy(s.tasks[i], before)
    ensures |Run(s, steps).tasks| == |s.tasks| && EndedBy(Run(s, steps).tasks[i], before + Endings(steps, i))
    decreases |steps|
  {
    if steps == [] {
      assert before + [] == before;
    } else {
      StepEnds(s, steps[0], i, before);
      RunEnds(Apply(s, steps[0]), steps[1..], i, before + Endings([steps[0]], i));
      assert [steps[0]][1..] == [];
      assert Endings([steps[0]], i) + Endings(steps[1..], i) == Endings(steps, i);
      assert before + Endings([steps[0]], i) + Endings(steps[1..], i) == before + (Endings([steps[0]], i) + Endings(steps[1..], i));
    }
  }

  /** In every run a result that is yielded for an item is what its one call came back with. */
  lemma YieldsAreResults(items: nat, concurrency: int, steps: seq<Step>, k: nat)
    requires Legal(Initial(items, concurrency), steps) && k < |Run(Initial(items, concurrency), steps).yielded|
    ensures var y := Run(Initial(items, concurrency), steps).yielded[k];
      y.item < items && Endings(steps, y.item) == [Value(y.v)]
  {
    Reachable(items, concurrency, steps);
    var s := Run(Initial(items, concurrency), steps);
    var i := s.yielded[k].item;
    assert s.ready[k] == i && s.tasks[i] == Done(Value(s.yielded[k].v));
    RunEnds(Initial(items, concurrency), steps, i, []);
  }

  /** On full consumption every item's call came back once, with a value, and that value was yielded for it. */
  lemma EveryResultYielded(items: nat, concurrency: int, steps: seq<Step>, i: nat) returns (k: nat)
    requires Legal(Initial(items, concurrency), steps) && i < items
    requires Run(Initial(items, concurrency), steps).gen == Over(Exhausted)
    ensures var yielded := Run(Initial(items, concurrency), steps).yielded;
      |yielded| == items && k < items && yielded[k].item == i && Endings(steps, i) == [Value(yielded[k].v)]
  {
    EachResultOnce(items, concurrency, steps);
    var s := Run(Initial(items, concurrency), steps);
    assert ResultYielded(s, i);
    k :| 0 <= k < |s.yielded| && s.yielded[k].item == i && s.tasks[i] == Done(Value(s.yielded[k].v));
    YieldsAreResults(items, concurrency, steps, k);
  }

  /** The items in the order in which their calls came back. */
  ghost function FinishOrder(steps: seq<Step>): seq<nat> {
    if steps == [] then []
    else (match steps[0] case Finish(i, _) => [i] case _ => []) + FinishOrder(steps[1..])
  }

  lemma {:induction false} ReadyInFinishOrder(s: State, steps: seq<Step>)
    requires Legal(s, steps)
    ensures Run(s, steps).ready == s.ready + FinishOrder(steps)
    decreases |steps|
  {
    if steps != [] {
      ReadyInFinishOrder(Apply(s, steps[0]), steps[1..]);
      var first := match steps[0] case Finish(i, _) => [i] case _ => [];
      assert Apply(s, steps[0]).ready == s.ready + first;
      Reassociate(s.ready, first, FinishOrder(steps[1..]));
    }
  }

  lemma Reassociate(a: seq<nat>, b: seq<nat>, c: seq<nat>)
    ensures (a + b) + c == a + (b + c)
  {
  }

  /** Results are yielded in the order in which the calls came back. */
  lemma YieldsInFinishOrder(items: nat, concurrency: int, steps: seq<Step>, k: nat)
    requires Legal(Initial(items, concurrency), steps) && k < |Run(Initial(items, concurrency), steps).yielded|
    ensures k < |FinishOrder(steps)| && Run(Initial(items, concurrency), steps).yielded[k].item == FinishOrder(steps)[k]
  {
    Reachable(items, concurrency, steps);
    ReadyInFinishOrder(Initial(items, concurrency), steps);
  }
}
