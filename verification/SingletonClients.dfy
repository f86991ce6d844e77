/**
 How many clients `__init__` builds for one instance. Without close, reset and exceptions it is at
 most one as long as no two threads are between the guard and its end at once, and it can be two as
 soon as two are.
 */
module SingletonClients {
  import opened Wrappers
  import opened Singleton

  /** Past the guard of instance o, and not yet through with it. */
  predicate Building(at: Thread, o: nat) {
    (at.Clear? || at.BuildClient? || at.StoreClient? || at.MarkReady?) && at.o == o
  }

  /** The client for instance o was just built. */
  predicate HasBuilt(at: Thread, o: nat) {
    (at.StoreClient? || at.MarkReady?) && at.o == o
  }

  /** At most one thread is building a client for o. */
  ghost predicate Alone(s: State, o: nat) {
    forall t, u | 0 <= t < u < |s.threads| :: !(Building(s.threads[t], o) && Building(s.threads[u], o))
  }

  function Builds(built: seq<nat>, o: nat): nat {
    if built == [] then 0
    else Builds(built[..|built| - 1], o) + if built[|built| - 1] == o then 1 else 0
  }

  lemma OneMoreBuild(built: seq<nat>, x: nat, o: nat)
    ensures Builds(built + [x], o) == Builds(built, o) + if x == o then 1 else 0
  {
    assert (built + [x])[..|built|] == built;
  }

  // ---------------------------------------------------------------- alone, at most one client

  /** A step of a constructor call that meets no exception. */
  predicate IsQuiet(action: Action) { action.CallNew? || action.Go? }

  /** Only such steps, and after none of them are two threads building for o. */
  ghost predicate AloneThroughout(s: State, steps: seq<Step>, o: nat)
    requires Legal(s, steps)
    decreases |steps|
  {
    && Alone(s, o)
    && (steps != [] ==> IsQuiet(steps[0].action) && AloneThroughout(Apply(s, steps[0]), steps[1..], o))
  }

  /** No close and no reset. */
  predicate IsCalm(at: Thread) {
    && !at.Close? && !at.Closed?
    && !at.WantResetLock? && !at.ResetCheck? && !at.ResetClose? && !at.ResetClosed? && !at.ClearInstance?
  }

  predicate IsReady(c: Shared, o: nat) { o < |c.instances| && c.instances[o].ready }

  /** A thread that builds for o finds it not ready, and has built the only client or none was built. */
  ghost predicate BuilderOk(c: Shared, at: Thread, o: nat) {
    && IsCalm(at)
    && (Building(at, o) ==> !IsReady(c, o) && Builds(c.built, o) == if HasBuilt(at, o) then 1 else 0)
  }

  ghost predicate NoneBuilding(s: State, o: nat) {
    forall t | 0 <= t < |s.threads| :: !Building(s.threads[t], o)
  }

  ghost predicate OneClient(s: State, o: nat) {
    && (forall t | 0 <= t < |s.threads| :: BuilderOk(s.shared, s.threads[t], o))
    && Builds(s.shared.built, o) <= 1
    && (NoneBuilding(s, o) ==> Builds(s.shared.built, o) == if IsReady(s.shared, o) then 1 else 0)
  }

  /** A thread that does not build for o leaves its readiness and its clients as they are. */
  lemma OthersLeaveAlone(c: Shared, t: nat, at: Thread, action: Action, o: nat)
    requires CountOk(c) && HistoryOk(c) && ThreadOk(c, t, at) && MayAct(c, at, action)
    requires IsQuiet(action) && IsCalm(at) && !Building(at, o)
    ensures var (d, to) := Act(c, t, at, action);
      && IsCalm(to)
      && (IsReady(d, o) <==> IsReady(c, o))
      && Builds(d.built, o) == Builds(c.built, o)
      && (Building(to, o) ==> to == Clear(o) && !IsReady(c, o))
  {
    if at.BuildClient? {
      OneMoreBuild(c.built, at.o, o);
    }
  }

  /** What the one thread that builds for o does. */
  lemma BuilderMoves(c: Shared, t: nat, at: Thread, action: Action, o: nat)
    requires CountOk(c) && HistoryOk(c) && ThreadOk(c, t, at) && MayAct(c, at, action)
    requires IsQuiet(action) && Building(at, o) && BuilderOk(c, at, o)
    ensures var (d, to) := Act(c, t, at, action);
      && BuilderOk(d, to, o)
      && Builds(d.built, o) <= 1
      && (!Building(to, o) ==> IsReady(d, o) && Builds(d.built, o) == 1)
  {
    OneMoreBuild(c.built, o, o);
  }

  lemma StepKeepsOneClient(s: State, step: Step, o: nat)
    requires Inv(s) && Enabled(s, step) && IsQuiet(step.action)
    requires OneClient(s, o) && Alone(s, o) && Alone(Apply(s, step), o)
    ensures OneClient(Apply(s, step), o)
  {
    var t, at, r := step.t, s.threads[step.t], Apply(s, step);
    var to := r.threads[t];
    assert BuilderOk(s.shared, at, o);
    if Building(at, o) {
      BuilderMoves(s.shared, t, at, step.action, o);
      forall u | 0 <= u < |r.threads| && u != t
        ensures !Building(r.threads[u], o) && IsCalm(r.threads[u])
      {
        assert BuilderOk(s.shared, s.threads[u], o);
        assert t < u || u < t;
      }
    } else {
      OthersLeaveAlone(s.shared, t, at, step.action, o);
      forall u | 0 <= u < |r.threads|
        ensures BuilderOk(r.shared, r.threads[u], o)
      {
        if u != t {
          assert BuilderOk(s.shared, s.threads[u], o);
        } else if Building(to, o) {
          assert NoneBuilding(s, o) by { AloneWhenEntering(s, r, t, o); }
        }
      }
      if NoneBuilding(r, o) {
        assert forall u | 0 <= u < |s.threads| && u != t :: s.threads[u] == r.threads[u];
      }
    }
  }

  lemma AloneWhenEntering(s: State, r: State, t: nat, o: nat)
    requires t < |s.threads| == |r.threads| && r.threads == s.threads[t := r.threads[t]]
    requires !Building(s.threads[t], o) && Building(r.threads[t], o) && Alone(r, o)
    ensures NoneBuilding(s, o)
  {
    forall u | 0 <= u < |s.threads|
      ensures !Building(s.threads[u], o)
    {
      assert u == t || s.threads[u] == r.threads[u];
      assert u < t || u == t || t < u;
    }
  }

  lemma {:induction false} RunKeepsOneClient(s: State, steps: seq<Step>, o: nat)
    requires Inv(s) && Legal(s, steps) && AloneThroughout(s, steps, o) && OneClient(s, o)
    ensures OneClient(Run(s, steps), o)
    decreases |steps|
  {
    if steps != [] {
      StepKeepsInv(s, steps[0]);
      StepKeepsOneClient(s, steps[0], o);
      RunKeepsOneClient(Apply(s, steps[0]), steps[1..], o);
    }
  }

  /** Without close, reset and exceptions, threads that build one at a time build one client at most. */
  lemma OneAtATimeBuildsOne(n: nat, steps: seq<Step>, o: nat)
    requires Legal(Initial(n), steps) && AloneThroughout(Initial(n), steps, o)
    ensures Builds(Run(Initial(n), steps).shared.built, o) <= 1
  {
    RunKeepsOneClient(Initial(n), steps, o);
  }

  // ---------------------------------------------------------------- two at once, two clients

  /** Threads that have just built for o have each added a client. */
  ghost predicate PairOk(c: Shared, at: Thread, other: Thread) {
    forall o | HasBuilt(at, o) && HasBuilt(other, o) :: Builds(c.built, o) >= 2
  }

  ghost predicate AllBuilt(s: State) {
    && (forall t, o | 0 <= t < |s.threads| && HasBuilt(s.threads[t], o) :: Builds(s.shared.built, o) >= 1)
    && (forall t, u | 0 <= t < u < |s.threads| :: PairOk(s.shared, s.threads[t], s.threads[u]))
  }

  lemma BuiltGrows(c: Shared, t: nat, at: Thread, action: Action, o: nat)
    requires MayAct(c, at, action)
    ensures var (d, to) := Act(c, t, at, action);
      && Builds(d.built, o) >= Builds(c.built, o)
      && (HasBuilt(to, o) && !HasBuilt(at, o) ==> Builds(d.built, o) == Builds(c.built, o) + 1)
  {
    if at.BuildClient? {
      OneMoreBuild(c.built, at.o, o);
    }
  }

  lemma StepKeepsAllBuilt(s: State, step: Step)
    requires Enabled(s, step) && AllBuilt(s)
    ensures AllBuilt(Apply(s, step))
  {
    var t, r := step.t, Apply(s, step);
    forall u, o | 0 <= u < |r.threads| && HasBuilt(r.threads[u], o)
      ensures Builds(r.shared.built, o) >= 1
    {
      BuiltGrows(s.shared, t, s.threads[t], step.action, o);
    }
    forall u, v | 0 <= u < v < |r.threads|
      ensures PairOk(r.shared, r.threads[u], r.threads[v])
    {
      forall o | HasBuilt(r.threads[u], o) && HasBuilt(r.threads[v], o)
        ensures Builds(r.shared.built, o) >= 2
      {
        BuiltGrows(s.shared, t, s.threads[t], step.action, o);
        assert PairOk(s.shared, s.threads[u], s.threads[v]);
      }
    }
  }

  lemma {:induction false} RunKeepsAllBuilt(s: State, steps: seq<Step>)
    requires AllBuilt(s) && Legal(s, steps)
    ensures AllBuilt(Run(s, steps))
    decreases |steps|
  {
    if steps != [] {
      StepKeepsAllBuilt(s, steps[0]);
      RunKeepsAllBuilt(Apply(s, steps[0]), steps[1..]);
    }
  }

  /** Further steps of the run in which only constructor calls go on. */
  ghost predicate GoesOn(s: State, more: seq<Step>) {
    Legal(s, more) && forall k | 0 <= k < |more| :: more[k].action == Go
  }

  lemma OneGo(s: State, more: seq<Step>, t: nat)
    requires GoesOn(s, more) && Inv(s) && t < |Run(s, more).threads|
    requires Run(s, more).threads[t].Clear? || Run(s, more).threads[t].BuildClient?
    ensures Enabled(Run(s, more), Step(t, Go))
    ensures GoesOn(s, more + [Step(t, Go)]) && Run(s, more + [Step(t, Go)]) == Apply(Run(s, more), Step(t, Go))
  {
    RunKeepsInv(s, more);
    assert ThreadOk(Run(s, more).shared, t, Run(s, more).threads[t]);
    RunOneMore(s, more, Step(t, Go));
  }

  /** A thread that builds for o goes on until it has built; no other thread moves. */
  lemma GoUntilBuilt(s: State, before: seq<Step>, t: nat, o: nat) returns (more: seq<Step>)
    requires Inv(s) && GoesOn(s, before) && t < |Run(s, before).threads| && Building(Run(s, before).threads[t], o)
    ensures GoesOn(s, more)
    ensures exists at: Thread :: HasBuilt(at, o) && Run(s, more).threads == Run(s, before).threads[t := at]
  {
    more := before;
    var threads := Run(s, before).threads;
    assert threads == threads[t := threads[t]];
    if Run(s, more).threads[t].Clear? {
      OneGo(s, more, t);
      more := more + [Step(t, Go)];
      assert Run(s, more).threads == threads[t := BuildClient(o)];
    }
    if Run(s, more).threads[t].BuildClient? {
      OneGo(s, more, t);
      more := more + [Step(t, Go)];
      assert Run(s, more).threads == threads[t := StoreClient(o)];
    }
    assert HasBuilt(Run(s, more).threads[t], o);
  }

  /** Wherever two threads are building for o, their going on builds two clients for it. */
  lemma TwoAtOnceBuildTwo(n: nat, s: State, t: nat, u: nat, o: nat) returns (more: seq<Step>)
    requires Reachable(n, s) && t < u < |s.threads| && Building(s.threads[t], o) && Building(s.threads[u], o)
    ensures GoesOn(s, more) && Builds(Run(s, more).shared.built, o) >= 2
  {
    ReachableInv(n, s);
    var steps :| Legal(Initial(n), steps) && Run(Initial(n), steps) == s;
    RunKeepsAllBuilt(Initial(n), steps);
    more := GoUntilBuilt(s, [], t, o);
    more := GoUntilBuilt(s, more, u, o);
    RunKeepsAllBuilt(s, more);
    assert PairOk(Run(s, more).shared, Run(s, more).threads[t], Run(s, more).threads[u]);
  }
}
