/**
 `_register_task_if_present`, `_drain_tasks` and `_finalize_incomplete_tasks` as methods on the
 runner's lists. Whatever the server and the clock answer, a call of `DrainTasks` is a legal run of
 the steps of `TaskLifecycle`, so everything proved there of all runs holds of it.
 */
module TaskDrain {
  import opened Wrappers
  import opened TaskLifecycle
  import opened TaskTrace

  lemma {:induction false} RunAppend(s: State, steps: seq<Step>, step: Step)
    requires Legal(s, steps) && Enabled(Run(s, steps), step)
    ensures Legal(s, steps + [step]) && Run(s, steps + [step]) == Apply(Run(s, steps), step)
    decreases |steps|
  {
    if steps == [] {
      assert [step][1..] == [];
    } else {
      assert (steps + [step])[1..] == steps[1..] + [step];
      RunAppend(Apply(s, steps[0]), steps[1..], step);
    }
  }

  class Runner {
    const adapters: set<string>
    var pendingTasks: seq<Task>
    var taskEvents: seq<Event>
    var requestEvents: seq<Request>
    ghost var registered: seq<Task>

    ghost function Lists(): Books
      reads this
    {
      Books(pendingTasks, taskEvents, requestEvents, registered)
    }

    constructor (adapters: set<string>)
      ensures this.adapters == adapters && Lists() == Books([], [], [], [])
    {
      this.adapters := adapters;
      pendingTasks, taskEvents, requestEvents, registered := [], [], [], [];
    }

    method RegisterTaskIfPresent(stage: Stage, answer: Answer)
      requires IsWork(stage)
      modifies this
      ensures Lists() == Register(old(Lists()), stage, answer)
      ensures taskEvents == old(taskEvents) && requestEvents == old(requestEvents)
      ensures pendingTasks == old(pendingTasks) + Announced(stage, answer)
      ensures registered == old(registered) + Announced(stage, answer)
    {
      if !answer.success { return; }
      if answer.taskId.None? || answer.taskId.value == "" { return; }
      var task := Task(stage.adapter, answer.taskId.value, stage.scenario);
      pendingTasks := pendingTasks + [task];
      registered := registered + [task];
    }

    method FinalizeIncompleteTasks(scenario: string)
      modifies this`pendingTasks, this`taskEvents
      ensures Lists() == Finalize(old(Lists()), scenario)
      ensures pendingTasks == [] && |taskEvents| == |old(taskEvents)| + |old(pendingTasks)|
      ensures old(taskEvents) <= taskEvents
      ensures forall i | 0 <= i < |old(pendingTasks)| ::
        taskEvents[|old(taskEvents)| + i] == Event(old(pendingTasks)[i], scenario, Incomplete)
    {
      for i := 0 to |pendingTasks|
        invariant pendingTasks == old(pendingTasks)
        invariant taskEvents == old(taskEvents) + Incompletes(pendingTasks, scenario)[..i]
      {
        taskEvents := taskEvents + [Event(pendingTasks[i], scenario, Incomplete)];
      }
      pendingTasks := [];
    }

    /** Any answer the server may give. */
    method GetTask(task: Task) returns (reply: Reply)
      ensures reply.status != Some(Incomplete)
    {
      reply := *;
      if reply.status == Some(Incomplete) { reply := Reply(false, None); }
    }

    /** A later reading of the clock. */
    method Clock(now: int) returns (later: int)
      ensures later > now
    {
      later :| later > now;
    }

    ghost function At(main: Main, todo: seq<Stage>, crew: Crew): State
      reads this
    {
      State(todo, main, adapters, crew, Lists())
    }

    /** One turn of the polling loop: every task of the snapshot is asked once. */
    method Pass(scenario: string, ghost last: bool, ghost todo: seq<Stage>, ghost crew: Crew, ghost start: State, ghost before: seq<Step>)
      returns (ghost steps: seq<Step>)
      requires pendingTasks != []
      requires Legal(start, before) && Run(start, before) == At(DrainTest(scenario, last), todo, crew)
      modifies this`pendingTasks, this`taskEvents, this`requestEvents
      ensures Legal(start, steps) && Run(start, steps) == At(DrainTest(scenario, last), todo, crew)
    {
      RunAppend(start, before, StartPass);
      steps := before + [StartPass];
      var batch, remaining := pendingTasks, [];
      assert batch[0..] == batch;
      for i := 0 to |batch|
        invariant pendingTasks == batch
        invariant Legal(start, steps)
        invariant Run(start, steps) == At(DrainPass(scenario, last, batch[i..], remaining), todo, crew)
      {
        var task := batch[i];
        assert batch[i..][0] == task && batch[i..][1..] == batch[i + 1..];
        if task.adapter !in adapters {
          RunAppend(start, steps, KeepHead);
          steps := steps + [KeepHead];
          remaining := remaining + [task];
        } else {
          var reply := GetTask(task);
          RunAppend(start, steps, PollHead(reply));
          steps := steps + [PollHead(reply)];
          requestEvents := requestEvents + [PollRequest(scenario, task, reply)];
          if Settles(reply) {
            taskEvents := taskEvents + [Event(task, scenario, reply.status.value)];
          } else {
            remaining := remaining + [task];
          }
        }
      }
      RunAppend(start, steps, EndPass);
      steps := steps + [EndPass];
      pendingTasks := remaining;
    }

    method DrainTasks(scenario: string, timeout: int, ghost last: bool, ghost todo: seq<Stage>, ghost crew: Crew)
      returns (ghost steps: seq<Step>)
      modifies this`pendingTasks, this`taskEvents, this`requestEvents
      ensures var start := EnterDrain(old(At(AtStage, todo, crew)), scenario, timeout, last);
              Legal(start, steps) && Run(start, steps) == At(AfterDrain(last), todo, crew)
    {
      ghost var start := EnterDrain(At(AtStage, todo, crew), scenario, timeout, last);
      steps := [];
      if pendingTasks == [] || timeout <= 0 {
        FinalizeIncompleteTasks(scenario);
        return;
      }
      var now: int := *;
      var deadline := now + timeout;
      while pendingTasks != [] && now < deadline
        invariant Legal(start, steps) && Run(start, steps) == At(DrainTest(scenario, last), todo, crew)
        decreases deadline - now
      {
        steps := Pass(scenario, last, todo, crew, start, steps);
        now := Clock(now);
      }
      RunAppend(start, steps, EndDrain);
      steps := steps + [EndDrain];
      if scenario == "final_drain" {
        FinalizeIncompleteTasks(scenario);
      }
    }
  }
}
