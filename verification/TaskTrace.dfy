/**
 What the steps of a run announce, told from the answers and replies in them alone, and what the
 runner's lists hold after the run: exactly that, in the same order.
 */
module TaskTrace {
  import opened Wrappers
  import opened TaskLifecycle

  /** The background task an answer announces: a successful one with a non-empty id. */
  function Announced(stage: Stage, answer: Answer): (tasks: seq<Task>)
    requires IsWork(stage)
    ensures answer.success && answer.taskId.Some? && answer.taskId.value != "" ==>
      tasks == [Task(stage.adapter, answer.taskId.value, stage.scenario)]
    ensures !answer.success || answer.taskId.None? || answer.taskId.value == "" ==> tasks == []
  {
    match answer
    case Answer(true, Some(id)) => if id == "" then [] else [Task(stage.adapter, id, stage.scenario)]
    case _ => []
  }

  /** What a step brings to light, at the state it starts from. */
  datatype News = News(tasks: seq<Task>, terminal: seq<Event>, requests: seq<Request>)

  const NO_NEWS := News([], [], [])

  /** An answer to a worker: its request, and the task it announces. */
  ghost function AnswerNews(s: State, w: nat, answer: Answer): News
    requires Enabled(s, Answered(w, answer))
  {
    var stage := s.crew.stage.value;
    News(Announced(stage, answer), [], [UnitRequest(stage.scenario, s.crew.workers[w].unit, answer.success)])
  }

  /** A reply to a poll: its request, and a terminal record if it is a success that says completed or failed. */
  ghost function ReplyNews(s: State, reply: Reply): News
    requires Enabled(s, PollHead(reply))
  {
    var task, scenario := s.main.batch[0], s.main.scenario;
    var terminal :=
      match reply
      case Reply(true, Some(Completed)) => [Event(task, scenario, Completed)]
      case Reply(true, Some(Failed)) => [Event(task, scenario, Failed)]
      case _ => [];
    News([], terminal, [PollRequest(scenario, task, reply)])
  }

  ghost function StepNews(s: State, step: Step): News
    requires Enabled(s, step)
  {
    match step
    case Answered(w, answer) => AnswerNews(s, w, answer)
    case PollHead(reply) => ReplyNews(s, reply)
    case Gathered =>
      if s.main.stage.QueueStage? && s.main.stage.waits then News([], [], [WaitRequest(s.main.stage.scenario)]) else NO_NEWS
    case Fail(w, recorded, success) =>
      if recorded then News([], [], [UnitRequest(s.crew.stage.value.scenario, s.crew.workers[w].unit, success)]) else NO_NEWS
    case _ => NO_NEWS
  }

  /** The news of a run, in order. */
  ghost function RunNews(s: State, steps: seq<Step>): News
    requires Legal(s, steps)
    decreases |steps|
  {
    if steps == [] then NO_NEWS
    else
      var first, rest := StepNews(s, steps[0]), RunNews(Apply(s, steps[0]), steps[1..]);
      News(first.tasks + rest.tasks, first.terminal + rest.terminal, first.requests + rest.requests)
  }

  /** The records of tasks that came to an end at the server. */
  ghost function Terminal(events: seq<Event>): seq<Event> {
    if events == [] then []
    else
      var last := events[|events| - 1];
      Terminal(events[..|events| - 1]) + if last.status == Incomplete then [] else [last]
  }

  lemma TerminalMore(events: seq<Event>, e: Event)
    ensures Terminal(events + [e]) == Terminal(events) + if e.status == Incomplete then [] else [e]
  {
    assert (events + [e])[..|events|] == events;
  }

  lemma {:induction false} TerminalOfIncompletes(events: seq<Event>, tasks: seq<Task>, scenario: string)
    ensures Terminal(events + Incompletes(tasks, scenario)) == Terminal(events)
    decreases |tasks|
  {
    if tasks == [] {
      assert events + Incompletes(tasks, scenario) == events;
    } else {
      var init, last := tasks[..|tasks| - 1], tasks[|tasks| - 1];
      assert tasks == init + [last];
      IncompletesAppend(init, last, scenario);
      assert events + Incompletes(tasks, scenario) == (events + Incompletes(init, scenario)) + [Event(last, scenario, Incomplete)];
      TerminalMore(events + Incompletes(init, scenario), Event(last, scenario, Incomplete));
      TerminalOfIncompletes(events, init, scenario);
    }
  }

  /** The lists after a step hold what they held, and its news. */
  ghost predicate Noted(before: Books, news: News, after: Books) {
    && after.registered == before.registered + news.tasks
    && Terminal(after.events) == Terminal(before.events) + news.terminal
    && after.requests == before.requests + news.requests
  }

  lemma FinalizeNotes(b: Books, scenario: string)
    ensures Noted(b, NO_NEWS, Finalize(b, scenario))
  {
    TerminalOfIncompletes(b.events, b.pending, scenario);
  }

  lemma StepNotes(s: State, step: Step)
    requires Enabled(s, step)
    ensures Noted(s.books, StepNews(s, step), Apply(s, step).books)
  {
    match step
    case BeginStage =>
      FinalizeNotes(s.books, if s.todo[0].Drain? then s.todo[0].scenario else "final_drain");
    case EndDrain => FinalizeNotes(s.books, s.main.scenario);
    case PollHead(reply) => PollNotes(s, reply);
    case _ =>
  }

  lemma PollNotes(s: State, reply: Reply)
    requires Enabled(s, PollHead(reply))
    ensures Noted(s.books, ReplyNews(s, reply), Poll(s, reply).books)
  {
    if Settles(reply) {
      TerminalMore(s.books.events, Event(s.main.batch[0], s.main.scenario, reply.status.value));
    }
  }

  lemma NotedTwice(a: Books, first: News, b: Books, rest: News, c: Books)
    requires Noted(a, first, b) && Noted(b, rest, c)
    ensures Noted(a, News(first.tasks + rest.tasks, first.terminal + rest.terminal, first.requests + rest.requests), c)
  {
  }

  lemma {:induction false} RunNotes(s: State, steps: seq<Step>)
    requires Legal(s, steps)
    ensures Noted(s.books, RunNews(s, steps), Run(s, steps).books)
    decreases |steps|
  {
    if steps != [] {
      StepNotes(s, steps[0]);
      RunNotes(Apply(s, steps[0]), steps[1..]);
      NotedTwice(s.books, StepNews(s, steps[0]), Apply(s, steps[0]).books, RunNews(Apply(s, steps[0]), steps[1..]),
                 Run(s, steps).books);
    }
  }

  /**
   In every run from the start, aborted or not: the registrations are the announced tasks, the terminal
   records that are not incomplete are the settling replies, and the requests are the calls that were
   answered, each in the order of the steps.
   */
  lemma ListsTellTheRun(program: seq<Stage>, adapters: set<string>, steps: seq<Step>)
    requires Legal(Initial(program, adapters), steps)
    ensures var b, news := Run(Initial(program, adapters), steps).books, RunNews(Initial(program, adapters), steps);
      b.registered == news.tasks && Terminal(b.events) == news.terminal && b.requests == news.requests
  {
    RunNotes(Initial(program, adapters), steps);
  }

  /** A settling reply is recorded once with its status, and a task whose reply does not settle it stays in the pass. */
  lemma ReplySettles(s: State, reply: Reply)
    requires Enabled(s, PollHead(reply))
    ensures var r := Poll(s, reply); var task := s.main.batch[0];
      if reply.success && (reply.status == Some(Completed) || reply.status == Some(Failed))
      then r.books.events == s.books.events + [Event(task, s.main.scenario, reply.status.value)] && r.main.remaining == s.main.remaining
      else r.books.events == s.books.events && r.main.remaining == s.main.remaining + [task]
  {
  }
}
