/**
 The load runner as an interleaving of its main coroutine, its workers, the server and the clock.

 A `Step` is what happens between two awaits; the scheduler, the server's answers and the deadline
 choose the steps. The theorems hold for every legal sequence of steps.
 */
module TaskLifecycle {
  import opened Wrappers

  /** A piece of work for one request: a file, a message of a session, or a session. */
  type Unit = nat

  /** A background task the server announced. */
  datatype Task = Task(adapter: string, id: string, origin: string)

  datatype Status = Completed | Failed | Incomplete

  /** A terminal record of a task. */
  datatype Event = Event(task: Task, scenario: string, status: Status)

  /** The server's answer to a worker. */
  datatype Answer = Answer(success: bool, taskId: Option<string>)

  /** The server's answer to a poll; `status` is None when it is neither completed nor failed. */
  datatype Reply = Reply(success: bool, status: Option<Status>)

  datatype Request =
    | UnitRequest(scenario: string, unit: Unit, success: bool)
    | PollRequest(scenario: string, task: Task, reply: Reply)
    | WaitRequest(scenario: string)

  datatype Stage =
    | QueueStage(adapter: string, scenario: string, units: seq<Unit>, concurrency: int, waits: bool)
    | TimedStage(adapter: string, scenario: string, duration: int, concurrency: int)
    | Drain(scenario: string, timeout: int)
    | FinalDrain(timeout: int)

  datatype Worker = Ready | InCall(unit: Unit) | Exited

  datatype Main =
    | AtStage
    | Gathering(stage: Stage)
    | DrainTest(scenario: string, last: bool)
    | DrainPass(scenario: string, last: bool, batch: seq<Task>, remaining: seq<Task>)
    | Ended
    | Aborted

  /** The workers, the stage they serve, its queue, and where its requests start. */
  datatype Crew = Crew(stage: Option<Stage>, stop: bool, queue: seq<Unit>, workers: seq<Worker>, mark: nat)

  /** The runner's lists, and every registration ever made. */
  datatype Books = Books(pending: seq<Task>, events: seq<Event>, requests: seq<Request>, registered: seq<Task>)

  datatype State = State(todo: seq<Stage>, main: Main, adapters: set<string>, crew: Crew, books: Books)

  datatype Step =
    | BeginStage
    | Dequeue(w: nat)
    | FindQueueEmpty(w: nat)
    | StartTimed(w: nat, unit: Unit)
    | SeeStop(w: nat)
    | Die(w: nat)
    | Fail(w: nat, recorded: bool, success: bool)
    | Answered(w: nat, answer: Answer)
    | SetStop
    | Gathered
    | StartPass
    | PollHead(reply: Reply)
    | KeepHead
    | EndPass
    | EndDrain

  function Max(a: int, b: int): int { if a > b then a else b }

  function ReadyWorkers(n: int): (ws: seq<Worker>)
    ensures |ws| == Max(0, n) && forall i | 0 <= i < |ws| :: ws[i] == Ready
  {
    seq(Max(0, n), _ => Ready)
  }

  predicate AllExited(ws: seq<Worker>) { forall i | 0 <= i < |ws| :: ws[i].Exited? }

  // ---------------------------------------------------------------- the operations on the lists

  /** `_record_request` */
  function AddRequest(b: Books, r: Request): Books { b.(requests := b.requests + [r]) }

  /** `_register_task_if_present` */
  function Register(b: Books, stage: Stage, answer: Answer): Books
    requires IsWork(stage)
  {
    if !answer.success || answer.taskId.None? || answer.taskId.value == "" then b
    else
      var task := Task(stage.adapter, answer.taskId.value, stage.scenario);
      b.(pending := b.pending + [task], registered := b.registered + [task])
  }

  /** `_finalize_incomplete_tasks` */
  function Finalize(b: Books, scenario: string): Books {
    b.(events := b.events + Incompletes(b.pending, scenario), pending := [])
  }

  function Incompletes(tasks: seq<Task>, scenario: string): seq<Event> {
    seq(|tasks|, i requires 0 <= i < |tasks| => Event(tasks[i], scenario, Incomplete))
  }

  predicate IsWork(stage: Stage) { stage.QueueStage? || stage.TimedStage? }

  // ---------------------------------------------------------------- the main coroutine

  function AfterDrain(last: bool): Main { if last then Ended else AtStage }

  /** `_drain_tasks` up to its loop. */
  function EnterDrain(s: State, scenario: string, timeout: int, last: bool): State {
    if s.books.pending == [] || timeout <= 0
    then s.(main := AfterDrain(last), books := Finalize(s.books, scenario))
    else s.(main := DrainTest(scenario, last))
  }

  /** `_drain_tasks` after its loop. */
  function LeaveDrain(s: State): State
    requires s.main.DrainTest?
  {
    s.(main := AfterDrain(s.main.last),
       books := if s.main.scenario == "final_drain" then Finalize(s.books, s.main.scenario) else s.books)
  }

  function Begin(s: State): State
    requires s.todo != []
  {
    var stage, t := s.todo[0], s.(todo := s.todo[1..], main := AtStage);
    match stage
    case QueueStage(_, _, units, n, _) =>
      t.(main := Gathering(stage), crew := Crew(Some(stage), false, units, ReadyWorkers(Max(1, n)), |s.books.requests|))
    case TimedStage(_, _, duration, n) =>
      if duration <= 0 || n <= 0 then t
      else t.(main := Gathering(stage), crew := Crew(Some(stage), false, [], ReadyWorkers(n), |s.books.requests|))
    case Drain(scenario, timeout) => EnterDrain(t, scenario, timeout, false)
    case FinalDrain(timeout) =>
      if s.books.pending == [] then t.(main := Ended) else EnterDrain(t, "final_drain", timeout, true)
  }

  function Gather(s: State): State
    requires s.main.Gathering?
  {
    var stage := s.main.stage;
    s.(main := AtStage,
       books := if stage.QueueStage? && stage.waits then AddRequest(s.books, WaitRequest(stage.scenario)) else s.books)
  }

  /** The next task of a pass stays in `remaining`. */
  function KeepTask(m: Main): Main
    requires m.DrainPass? && m.batch != []
  {
    m.(batch := m.batch[1..], remaining := m.remaining + [m.batch[0]])
  }

  predicate Settles(reply: Reply) {
    reply.success && (reply.status == Some(Completed) || reply.status == Some(Failed))
  }

  /** One turn of the inner loop of `_drain_tasks`. */
  function Poll(s: State, reply: Reply): State
    requires s.main.DrainPass? && s.main.batch != []
  {
    var task := s.main.batch[0];
    var b := AddRequest(s.books, PollRequest(s.main.scenario, task, reply));
    if Settles(reply)
    then s.(main := s.main.(batch := s.main.batch[1..]),
            books := b.(events := b.events + [Event(task, s.main.scenario, reply.status.value)]))
    else s.(main := KeepTask(s.main), books := b)
  }

  /** The end of a pass overwrites `pending_tasks`. */
  function FinishPass(s: State): State
    requires s.main.DrainPass?
  {
    s.(books := s.books.(pending := s.main.remaining), main := DrainTest(s.main.scenario, s.main.last))
  }

  // ---------------------------------------------------------------- the workers

  predicate Serving(c: Crew, timed: bool) {
    c.stage.Some? && if timed then c.stage.value.TimedStage? else c.stage.value.QueueStage?
  }

  predicate IsReady(c: Crew, w: nat) { w < |c.workers| && c.workers[w].Ready? }

  function Move(c: Crew, w: nat, to: Worker): Crew
    requires w < |c.workers|
  {
    c.(workers := c.workers[w := to])
  }

  /** `_record_request`, then `_register_task_if_present`: no await stands between them. */
  function ReceiveAnswer(s: State, w: nat, answer: Answer): State
    requires w < |s.crew.workers| && s.crew.workers[w].InCall? && s.crew.stage.Some? && IsWork(s.crew.stage.value)
  {
    var stage, unit := s.crew.stage.value, s.crew.workers[w].unit;
    s.(books := Register(AddRequest(s.books, UnitRequest(stage.scenario, unit, answer.success)), stage, answer),
       crew := Move(s.crew, w, Ready))
  }

  /** An exception leaves a queue stage's worker and ends the run; the other workers go on. */
  function FailWorker(s: State, w: nat, recorded: bool, success: bool): State
    requires w < |s.crew.workers| && s.crew.workers[w].InCall? && s.crew.stage.Some? && IsWork(s.crew.stage.value)
  {
    var request := UnitRequest(s.crew.stage.value.scenario, s.crew.workers[w].unit, success);
    s.(main := Aborted,
       books := if recorded then AddRequest(s.books, request) else s.books,
       crew := Move(s.crew, w, Exited))
  }

  // ---------------------------------------------------------------- steps

  /** A worker may step whenever it has not exited, wherever the main coroutine stands. */
  predicate Enabled(s: State, step: Step) {
    match step
    case BeginStage => s.main.AtStage? && s.todo != []
    case Dequeue(w) => Serving(s.crew, false) && IsReady(s.crew, w) && s.crew.queue != []
    case FindQueueEmpty(w) => Serving(s.crew, false) && IsReady(s.crew, w) && s.crew.queue == []
    case StartTimed(w, _) => Serving(s.crew, true) && IsReady(s.crew, w) && !s.crew.stop
    case SeeStop(w) => Serving(s.crew, true) && IsReady(s.crew, w) && s.crew.stop
    case Die(w) => Serving(s.crew, true) && w < |s.crew.workers| && !s.crew.workers[w].Exited?
    case Fail(w, _, _) => Serving(s.crew, false) && w < |s.crew.workers| && s.crew.workers[w].InCall?
    case Answered(w, _) =>
      s.crew.stage.Some? && IsWork(s.crew.stage.value) && w < |s.crew.workers| && s.crew.workers[w].InCall?
    case SetStop => s.main.Gathering? && s.main.stage.TimedStage?
    case Gathered => s.main.Gathering? && AllExited(s.crew.workers)
    case StartPass => s.main.DrainTest? && s.books.pending != []
    case PollHead(_) => s.main.DrainPass? && s.main.batch != [] && s.main.batch[0].adapter in s.adapters
    case KeepHead => s.main.DrainPass? && s.main.batch != [] && s.main.batch[0].adapter !in s.adapters
    case EndPass => s.main.DrainPass? && s.main.batch == []
    case EndDrain => s.main.DrainTest?
  }

  function Apply(s: State, step: Step): State
    requires Enabled(s, step)
  {
    match step
    case BeginStage => Begin(s)
    case Dequeue(w) => s.(crew := Move(s.crew, w, InCall(s.crew.queue[0])).(queue := s.crew.queue[1..]))
    case FindQueueEmpty(w) => s.(crew := Move(s.crew, w, Exited))
    case StartTimed(w, unit) => s.(crew := Move(s.crew, w, InCall(unit)))
    case SeeStop(w) => s.(crew := Move(s.crew, w, Exited))
    case Die(w) => s.(crew := Move(s.crew, w, Exited))
    case Fail(w, recorded, success) => FailWorker(s, w, recorded, success)
    case Answered(w, answer) => ReceiveAnswer(s, w, answer)
    case SetStop => s.(crew := s.crew.(stop := true))
    case Gathered => Gather(s)
    case StartPass => s.(main := DrainPass(s.main.scenario, s.main.last, s.books.pending, []))
    case PollHead(reply) => Poll(s, reply)
    case KeepHead => s.(main := KeepTask(s.main))
    case EndPass => FinishPass(s)
    case EndDrain => LeaveDrain(s)
  }

  // ---------------------------------------------------------------- runs

  ghost predicate Legal(s: State, steps: seq<Step>)
    decreases |steps|
  {
    steps == [] || (Enabled(s, steps[0]) && Legal(Apply(s, steps[0]), steps[1..]))
  }

  ghost function Run(s: State, steps: seq<Step>): State
    requires Legal(s, steps)
    decreases |steps|
  {
    if steps == [] then s else Run(Apply(s, steps[0]), steps[1..])
  }

  function Initial(program: seq<Stage>, adapters: set<string>): State {
    State(program, AtStage, adapters, Crew(None, false, [], [], 0), Books([], [], [], []))
  }

  // ---------------------------------------------------------------- what every step keeps

  ghost function Tasks(events: seq<Event>): multiset<Task> {
    if events == [] then multiset{} else Tasks(events[..|events| - 1]) + multiset{events[|events| - 1].task}
  }

  /** The tasks not yet recorded: during a pass, those still in the pass. */
  ghost function Outstanding(m: Main, b: Books): multiset<Task> {
    if m.DrainPass? then multiset(m.batch) + multiset(m.remaining) else multiset(b.pending)
  }

  ghost predicate Conserved(m: Main, b: Books) {
    multiset(b.registered) == Outstanding(m, b) + Tasks(b.events)
  }

  /** Every terminal record but a final one repeats a successful poll of that task. */
  ghost predicate Justified(b: Books) {
    forall e | e in b.events && e.status != Incomplete ::
      PollRequest(e.scenario, e.task, Reply(true, Some(e.status))) in b.requests
  }

  ghost function Calls(ws: seq<Worker>): multiset<Unit> {
    if ws == [] then multiset{} else Calls(ws[..|ws| - 1]) + Call(ws[|ws| - 1])
  }

  ghost function Call(w: Worker): multiset<Unit> {
    if w.InCall? then multiset{w.unit} else multiset{}
  }

  /** The units of the requests. */
  ghost function Served(requests: seq<Request>): multiset<Unit> {
    if requests == [] then multiset{}
    else
      var r := requests[|requests| - 1];
      Served(requests[..|requests| - 1]) + if r.UnitRequest? then multiset{r.unit} else multiset{}
  }

  /** A queue stage: each unit is queued, in a call or served, and workers leave only an empty queue. */
  ghost predicate QueueKept(c: Crew, requests: seq<Request>) {
    && c.mark <= |requests|
    && (Serving(c, false) ==>
          && |c.workers| > 0
          && multiset(c.stage.value.units) == multiset(c.queue) + Calls(c.workers) + Served(requests[c.mark..])
          && (c.queue != [] ==> forall i | 0 <= i < |c.workers| :: !c.workers[i].Exited?))
  }

  /** While workers are alive the main coroutine gathers them, unless the run was aborted. */
  ghost predicate CrewKept(m: Main, c: Crew, requests: seq<Request>) {
    && (!m.Gathering? && !m.Aborted? ==> AllExited(c.workers))
    && (m.Gathering? ==> c.stage == Some(m.stage) && IsWork(m.stage) && QueueKept(c, requests))
  }

  ghost predicate FinalIsLast(todo: seq<Stage>) {
    && todo != [] && todo[|todo| - 1].FinalDrain?
    && forall i | 0 <= i < |todo| - 1 :: !todo[i].FinalDrain?
  }

  /** The final drain is still to come, or is running, or all is over and nothing is pending; or the run was aborted. */
  ghost predicate Closing(m: Main, todo: seq<Stage>, pending: seq<Task>) {
    if m.Aborted? then true
    else if m.Ended? then pending == []
    else if (m.DrainTest? || m.DrainPass?) && m.last then m.scenario == "final_drain"
    else FinalIsLast(todo)
  }

  ghost predicate Inv(s: State) {
    && Conserved(s.main, s.books)
    && Justified(s.books)
    && CrewKept(s.main, s.crew, s.books.requests)
    && Closing(s.main, s.todo, s.books.pending)
  }

  lemma TasksAppend(events: seq<Event>, e: Event)
    ensures Tasks(events + [e]) == Tasks(events) + multiset{e.task}
  {
    assert (events + [e])[..|events|] == events;
  }

  lemma IncompletesAppend(tasks: seq<Task>, task: Task, scenario: string)
    ensures Incompletes(tasks + [task], scenario) == Incompletes(tasks, scenario) + [Event(task, scenario, Incomplete)]
  {
  }

  lemma {:induction false} TasksOfIncompletes(events: seq<Event>, tasks: seq<Task>, scenario: string)
    ensures Tasks(events + Incompletes(tasks, scenario)) == Tasks(events) + multiset(tasks)
    decreases |tasks|
  {
    if tasks == [] {
      assert events + Incompletes(tasks, scenario) == events;
    } else {
      var init, last := tasks[..|tasks| - 1], tasks[|tasks| - 1];
      var e := Event(last, scenario, Incomplete);
      assert tasks == init + [last];
      IncompletesAppend(init, last, scenario);
      assert events + Incompletes(tasks, scenario) == (events + Incompletes(init, scenario)) + [e];
      TasksAppend(events + Incompletes(init, scenario), e);
      TasksOfIncompletes(events, init, scenario);
    }
  }

  lemma ServedAppend(requests: seq<Request>, r: Request)
    ensures Served(requests + [r]) == Served(requests) + (if r.UnitRequest? then multiset{r.unit} else multiset{})
  {
    assert (requests + [r])[..|requests|] == requests;
  }

  lemma Shuffle(a: multiset<Unit>, b: multiset<Unit>, c: multiset<Unit>, x: multiset<Unit>, y: multiset<Unit>)
    requires a + x == b + y
    ensures a + c + x == b + c + y
  {
    assert a + c + x == (a + x) + c && b + c + y == (b + y) + c;
  }

  lemma {:induction false} CallsUpdate(ws: seq<Worker>, i: nat, w: Worker)
    requires i < |ws|
    ensures Calls(ws[i := w]) + Call(ws[i]) == Calls(ws) + Call(w)
    decreases |ws|
  {
    var n := |ws| - 1;
    if i == n {
      assert ws[i := w][..n] == ws[..n];
      assert Calls(ws[i := w]) == Calls(ws[..n]) + Call(w);
    } else {
      assert ws[i := w][..n] == ws[..n][i := w];
      CallsUpdate(ws[..n], i, w);
      Shuffle(Calls(ws[..n][i := w]), Calls(ws[..n]), Call(ws[n]), Call(ws[i]), Call(w));
    }
  }

  lemma {:induction false} NoCalls(ws: seq<Worker>)
    requires forall i | 0 <= i < |ws| :: !ws[i].InCall?
    ensures Calls(ws) == multiset{}
    decreases |ws|
  {
    if ws != [] { NoCalls(ws[..|ws| - 1]); }
  }

  /** While a worker is alive the main coroutine waits for it or is over: no drain runs beside a registration. */
  lemma LiveWorkerIsGathered(s: State, w: nat)
    requires Inv(s) && w < |s.crew.workers| && !s.crew.workers[w].Exited?
    ensures s.main.Aborted? || (s.main.Gathering? && s.crew.stage == Some(s.main.stage))
  {
  }

  lemma FinalizeKeeps(m: Main, b: Books, scenario: string)
    requires Conserved(m, b) && Justified(b) && !m.DrainPass?
    ensures Conserved(m, Finalize(b, scenario)) && Justified(Finalize(b, scenario))
  {
    TasksOfIncompletes(b.events, b.pending, scenario);
    assert forall e | e in Finalize(b, scenario).events && e.status != Incomplete :: e in b.events;
  }

  /** More requests justify no less. */
  lemma JustifiedMore(b: Books, r: Request)
    requires Justified(b)
    ensures Justified(AddRequest(b, r))
  {
    assert forall q | q in b.requests :: q in AddRequest(b, r).requests;
  }

  lemma FreshCrewKept(stage: Stage, queue: seq<Unit>, n: int, requests: seq<Request>)
    requires stage.QueueStage? ==> n > 0 && queue == stage.units
    ensures QueueKept(Crew(Some(stage), false, queue, ReadyWorkers(n), |requests|), requests)
  {
    NoCalls(ReadyWorkers(n));
    assert requests[|requests|..] == [];
  }

  lemma EnterDrainKeeps(s: State, scenario: string, timeout: int, last: bool)
    requires Conserved(s.main, s.books) && Justified(s.books) && AllExited(s.crew.workers) && s.main.AtStage?
    requires if last then scenario == "final_drain" else FinalIsLast(s.todo)
    ensures Inv(EnterDrain(s, scenario, timeout, last))
  {
    FinalizeKeeps(s.main, s.books, scenario);
  }

  lemma FinalStaysLast(todo: seq<Stage>)
    requires FinalIsLast(todo) && !todo[0].FinalDrain?
    ensures FinalIsLast(todo[1..])
  {
  }

  lemma BeginWorkKeeps(s: State)
    requires Inv(s) && s.main.AtStage? && s.todo != [] && IsWork(s.todo[0])
    ensures Inv(Begin(s))
  {
    var stage := s.todo[0];
    FinalStaysLast(s.todo);
    if stage.QueueStage? {
      FreshCrewKept(stage, stage.units, Max(1, stage.concurrency), s.books.requests);
    } else {
      FreshCrewKept(stage, [], stage.concurrency, s.books.requests);
    }
  }

  lemma BeginDrainKeeps(s: State)
    requires Inv(s) && s.main.AtStage? && s.todo != [] && !IsWork(s.todo[0])
    ensures Inv(Begin(s))
  {
    var stage, t := s.todo[0], s.(todo := s.todo[1..]);
    if stage.Drain? {
      FinalStaysLast(s.todo);
      EnterDrainKeeps(t, stage.scenario, stage.timeout, false);
    } else {
      EnterDrainKeeps(t, "final_drain", stage.timeout, true);
    }
  }

  lemma RecordServes(requests: seq<Request>, mark: nat, r: Request)
    requires mark <= |requests|
    ensures Served((requests + [r])[mark..])
         == Served(requests[mark..]) + (if r.UnitRequest? then multiset{r.unit} else multiset{})
  {
    assert (requests + [r])[mark..] == requests[mark..] + [r];
    ServedAppend(requests[mark..], r);
  }

  lemma UnitDequeued(total: multiset<Unit>, queue: seq<Unit>, calls: multiset<Unit>, calls': multiset<Unit>, served: multiset<Unit>)
    requires queue != [] && total == multiset(queue) + calls + served
    requires calls' + multiset{} == calls + multiset{queue[0]}
    ensures total == multiset(queue[1..]) + calls' + served
  {
    assert queue == [queue[0]] + queue[1..];
    assert multiset(queue) == multiset{queue[0]} + multiset(queue[1..]);
    assert calls' == calls + multiset{queue[0]};
  }

  lemma UnitServed(total: multiset<Unit>, queue: multiset<Unit>, calls: multiset<Unit>, calls': multiset<Unit>, served: multiset<Unit>, unit: Unit)
    requires total == queue + calls + served && calls' + multiset{unit} == calls + multiset{}
    ensures total == queue + calls' + (served + multiset{unit})
  {
    assert calls == calls' + multiset{unit};
  }

  lemma DequeueKeeps(c: Crew, w: nat, requests: seq<Request>)
    requires QueueKept(c, requests) && Serving(c, false) && IsReady(c, w) && c.queue != []
    ensures QueueKept(Move(c, w, InCall(c.queue[0])).(queue := c.queue[1..]), requests)
  {
    CallsUpdate(c.workers, w, InCall(c.queue[0]));
    UnitDequeued(multiset(c.stage.value.units), c.queue, Calls(c.workers), Calls(c.workers[w := InCall(c.queue[0])]),
                 Served(requests[c.mark..]));
  }

  /** A worker that changes its state without a request, where that cannot break a queue. */
  lemma MoveKeeps(c: Crew, w: nat, to: Worker, requests: seq<Request>)
    requires QueueKept(c, requests) && w < |c.workers|
    requires Serving(c, false) ==> c.workers[w].Ready? && to.Exited? && c.queue == []
    ensures QueueKept(Move(c, w, to), requests)
  {
    CallsUpdate(c.workers, w, to);
    if Serving(c, false) {
      var after := Calls(c.workers[w := to]);
      assert after + multiset{} == after && Calls(c.workers) + multiset{} == Calls(c.workers);
    }
  }

  lemma AnswerServes(c: Crew, w: nat, r: Request, requests: seq<Request>)
    requires QueueKept(c, requests) && w < |c.workers| && c.workers[w].InCall?
    requires r.UnitRequest? && r.unit == c.workers[w].unit
    ensures QueueKept(Move(c, w, Ready), requests + [r])
  {
    CallsUpdate(c.workers, w, Ready);
    RecordServes(requests, c.mark, r);
    if Serving(c, false) {
      UnitServed(multiset(c.stage.value.units), multiset(c.queue), Calls(c.workers), Calls(c.workers[w := Ready]),
                 Served(requests[c.mark..]), r.unit);
    }
  }

  lemma RegisterConserves(m: Main, b: Books, stage: Stage, answer: Answer)
    requires Conserved(m, b) && !m.DrainPass? && IsWork(stage)
    ensures Conserved(m, Register(b, stage, answer))
  {
    var b' := Register(b, stage, answer);
    if b' != b {
      var task := Task(stage.adapter, answer.taskId.value, stage.scenario);
      assert multiset(b'.pending) == multiset(b.pending) + multiset{task};
      assert multiset(b'.registered) == multiset(b.registered) + multiset{task};
    }
  }

  lemma AnsweredKeeps(s: State, w: nat, answer: Answer)
    requires Inv(s) && Enabled(s, Answered(w, answer))
    ensures Inv(ReceiveAnswer(s, w, answer))
  {
    LiveWorkerIsGathered(s, w);
    var stage := s.crew.stage.value;
    var r := UnitRequest(stage.scenario, s.crew.workers[w].unit, answer.success);
    if s.main.Gathering? { AnswerServes(s.crew, w, r, s.books.requests); }
    JustifiedMore(s.books, r);
    RegisterConserves(s.main, AddRequest(s.books, r), stage, answer);
  }

  lemma FailKeeps(s: State, w: nat, recorded: bool, success: bool)
    requires Inv(s) && Enabled(s, Fail(w, recorded, success))
    ensures Inv(FailWorker(s, w, recorded, success))
  {
    LiveWorkerIsGathered(s, w);
    JustifiedMore(s.books, UnitRequest(s.crew.stage.value.scenario, s.crew.workers[w].unit, success));
  }

  lemma KeepTaskConserves(m: Main, b: Books)
    requires m.DrainPass? && m.batch != [] && Conserved(m, b)
    ensures Conserved(KeepTask(m), b)
  {
    assert m.batch == [m.batch[0]] + m.batch[1..];
    assert multiset(m.batch) == multiset{m.batch[0]} + multiset(m.batch[1..]);
    assert multiset(KeepTask(m).remaining) == multiset(m.remaining) + multiset{m.batch[0]};
  }

  lemma SettleConserves(m: Main, b: Books, e: Event)
    requires m.DrainPass? && m.batch != [] && e.task == m.batch[0] && Conserved(m, b)
    ensures Conserved(m.(batch := m.batch[1..]), b.(events := b.events + [e]))
  {
    assert m.batch == [m.batch[0]] + m.batch[1..];
    assert multiset(m.batch) == multiset{m.batch[0]} + multiset(m.batch[1..]);
    TasksAppend(b.events, e);
  }

  lemma PollKeeps(s: State, reply: Reply)
    requires Inv(s) && s.main.DrainPass? && s.main.batch != []
    ensures Inv(Poll(s, reply))
  {
    var task := s.main.batch[0];
    var r := PollRequest(s.main.scenario, task, reply);
    var b := AddRequest(s.books, r);
    JustifiedMore(s.books, r);
    if Settles(reply) {
      assert b.requests[|s.books.requests|] == r;
      SettleConserves(s.main, b, Event(task, s.main.scenario, reply.status.value));
    } else {
      KeepTaskConserves(s.main, b);
    }
  }

  lemma StepKeepsInv(s: State, step: Step)
    requires Inv(s) && Enabled(s, step)
    ensures Inv(Apply(s, step))
  {
    match step
    case BeginStage => if IsWork(s.todo[0]) { BeginWorkKeeps(s); } else { BeginDrainKeeps(s); }
    case Dequeue(w) => LiveWorkerIsGathered(s, w); if s.main.Gathering? { DequeueKeeps(s.crew, w, s.books.requests); }
    case FindQueueEmpty(w) => LiveWorkerIsGathered(s, w); if s.main.Gathering? { MoveKeeps(s.crew, w, Exited, s.books.requests); }
    case StartTimed(w, unit) => LiveWorkerIsGathered(s, w); if s.main.Gathering? { MoveKeeps(s.crew, w, InCall(unit), s.books.requests); }
    case SeeStop(w) => LiveWorkerIsGathered(s, w); if s.main.Gathering? { MoveKeeps(s.crew, w, Exited, s.books.requests); }
    case Die(w) => LiveWorkerIsGathered(s, w); if s.main.Gathering? { MoveKeeps(s.crew, w, Exited, s.books.requests); }
    case Fail(w, recorded, success) => FailKeeps(s, w, recorded, success);
    case Answered(w, answer) => AnsweredKeeps(s, w, answer);
    case SetStop =>
    case Gathered => JustifiedMore(s.books, WaitRequest(if IsWork(s.main.stage) then s.main.stage.scenario else ""));
    case StartPass =>
    case PollHead(reply) => PollKeeps(s, reply);
    case KeepHead => KeepTaskConserves(s.main, s.books);
    case EndPass =>
    case EndDrain => FinalizeKeeps(s.main, s.books, s.main.scenario);
  }

  lemma {:induction false} RunKeepsInv(s: State, steps: seq<Step>)
    requires Inv(s) && Legal(s, steps)
    ensures Inv(Run(s, steps))
    decreases |steps|
  {
    if steps != [] {
      StepKeepsInv(s, steps[0]);
      RunKeepsInv(Apply(s, steps[0]), steps[1..]);
    }
  }

  // ---------------------------------------------------------------- the runner's program

  /** What `_run_adapter` does for one adapter. */
  datatype AdapterPlan = AdapterPlan(
    name: string, files: seq<Unit>, messages: seq<Unit>, sessions: seq<Unit>,
    warmupSeconds: int, phaseSeconds: int, mixedSeconds: int,
    resourceConcurrency: int, sessionConcurrency: int, searchConcurrency: int,
    commitConcurrency: int, mixedConcurrency: int)

  function AdapterStages(p: AdapterPlan, drainTimeout: int): seq<Stage> {
    [TimedStage(p.name, "warmup", p.warmupSeconds, 1),
     QueueStage(p.name, "add_resources", p.files, p.resourceConcurrency, true),
     Drain(p.name + ":resource_drain", drainTimeout),
     QueueStage(p.name, "session_messages", p.messages, p.sessionConcurrency, false),
     TimedStage(p.name, "retrieval", p.phaseSeconds, p.searchConcurrency),
     QueueStage(p.name, "session_commit", p.sessions, p.commitConcurrency, false),
     Drain(p.name + ":commit_drain", drainTimeout),
     TimedStage(p.name, "mixed", p.mixedSeconds, p.mixedConcurrency),
     Drain(p.name + ":mixed_drain", drainTimeout)]
  }

  function Program(plans: seq<AdapterPlan>, drainTimeout: int): seq<Stage> {
    if plans == [] then [FinalDrain(drainTimeout)]
    else AdapterStages(plans[0], drainTimeout) + Program(plans[1..], drainTimeout)
  }

  lemma {:induction false} ProgramCloses(plans: seq<AdapterPlan>, drainTimeout: int)
    ensures var p := Program(plans, drainTimeout); FinalIsLast(p)
    decreases |plans|
  {
    if plans != [] { ProgramCloses(plans[1..], drainTimeout); }
  }

  lemma ReachableInv(plans: seq<AdapterPlan>, drainTimeout: int, adapters: set<string>, steps: seq<Step>)
    requires Legal(Initial(Program(plans, drainTimeout), adapters), steps)
    ensures Inv(Run(Initial(Program(plans, drainTimeout), adapters), steps))
  {
    ProgramCloses(plans, drainTimeout);
    RunKeepsInv(Initial(Program(plans, drainTimeout), adapters), steps);
  }

  /** In every run that ends, each registration has exactly one terminal record and none is pending. */
  lemma EveryTaskSettledOnce(plans: seq<AdapterPlan>, drainTimeout: int, adapters: set<string>, steps: seq<Step>)
    requires Legal(Initial(Program(plans, drainTimeout), adapters), steps)
    requires Run(Initial(Program(plans, drainTimeout), adapters), steps).main.Ended?
    ensures var s := Run(Initial(Program(plans, drainTimeout), adapters), steps);
            s.books.pending == [] && multiset(s.books.registered) == Tasks(s.books.events) && Justified(s.books)
  {
    ReachableInv(plans, drainTimeout, adapters, steps);
  }

  /** A run that is aborted by a worker's exception has lost no registration either: each is pending or recorded. */
  lemma AbortLosesNothing(plans: seq<AdapterPlan>, drainTimeout: int, adapters: set<string>, steps: seq<Step>)
    requires Legal(Initial(Program(plans, drainTimeout), adapters), steps)
    requires Run(Initial(Program(plans, drainTimeout), adapters), steps).main.Aborted?
    ensures var s := Run(Initial(Program(plans, drainTimeout), adapters), steps);
            multiset(s.books.registered) == multiset(s.books.pending) + Tasks(s.books.events) && Justified(s.books)
  {
    ReachableInv(plans, drainTimeout, adapters, steps);
  }

  /** At every test of the drain loop: registered is pending plus recorded, and no worker is alive. */
  lemma DrainLosesNothing(plans: seq<AdapterPlan>, drainTimeout: int, adapters: set<string>, steps: seq<Step>)
    requires Legal(Initial(Program(plans, drainTimeout), adapters), steps)
    requires Run(Initial(Program(plans, drainTimeout), adapters), steps).main.DrainTest?
    ensures var s := Run(Initial(Program(plans, drainTimeout), adapters), steps);
            multiset(s.books.registered) == multiset(s.books.pending) + Tasks(s.books.events) && AllExited(s.crew.workers)
  {
    ReachableInv(plans, drainTimeout, adapters, steps);
  }

  /** A queue stage ends with an empty queue and one request for each unit it was given. */
  lemma QueueServedOnce(plans: seq<AdapterPlan>, drainTimeout: int, adapters: set<string>, steps: seq<Step>)
    requires Legal(Initial(Program(plans, drainTimeout), adapters), steps)
    requires var s := Run(Initial(Program(plans, drainTimeout), adapters), steps);
             Enabled(s, Gathered) && s.main.stage.QueueStage?
    ensures var s := Run(Initial(Program(plans, drainTimeout), adapters), steps);
            && s.crew.queue == [] && s.crew.mark <= |s.books.requests|
            && Served(s.books.requests[s.crew.mark..]) == multiset(s.main.stage.units)
  {
    ReachableInv(plans, drainTimeout, adapters, steps);
    NoCalls(Run(Initial(Program(plans, drainTimeout), adapters), steps).crew.workers);
  }
}
