/** The deadlock that nesting allows: which configurations can reach it, and how. */
module SchedulerDeadlock {
  import opened Prelude
  import opened Scheduler
  import opened SchedulerTheorems

  /** Nothing can move although somebody is unfinished, and neither the user nor a deleted record is the
      reason. */
  ghost predicate Deadlocked(config: Config, s: State) {
    Stuck(config, s) && Undisturbed(s) && !AllFinished(s)
  }

  // ---------- A run into the deadlock ----------

  function QueuedChild(parent: Id): Agent {
    Agent(2, Some(parent), Research, AutoMode, None, Waiting, [Queued], false, None, 0, true)
  }

  function Parent(phase: Phase, history: seq<Status>, blockedOn: Option<Id>): Agent {
    Agent(1, None, Research, AutoMode, None, phase, history, false, blockedOn, 0, true)
  }

  function BlockedParent(child: Id): Agent {
    Parent(Active, [Queued, Running], Some(child))
  }

  function StartedParent(): Agent {
    Parent(Active, [Queued, Running], None)
  }

  /** Each of the first `n` top-level subagents is spawned, gets its permit and starts. */
  function StartingRun(n: nat): seq<Step> {
    if n == 0 then []
    else
      var id := 2 * (n - 1);
      StartingRun(n - 1) + [SpawnTop(id, Research, AutoMode, false)] + [Acquire(id)] + [Begin(id)]
  }

  /** Only once all `n` have started do the first `k` of them delegate, so every child asks for a permit
      after all parents have theirs. */
  function DelegatingRun(n: nat, k: nat): seq<Step> {
    if k == 0 then StartingRun(n)
    else DelegatingRun(n, k - 1) + [SpawnChild(2 * (k - 1), 2 * (k - 1) + 1, Research, false)]
  }

  function StartedAgents(n: nat): map<Id, Agent> {
    if n == 0 then map[] else StartedAgents(n - 1)[2 * (n - 1) := StartedParent()]
  }

  function DelegatingAgents(n: nat, k: nat): map<Id, Agent> {
    if k == 0 then StartedAgents(n)
    else
      var id := 2 * (k - 1);
      DelegatingAgents(n, k - 1)[id + 1 := QueuedChild(id)][id := BlockedParent(id + 1)]
  }

  lemma {:induction false} StartedKeys(n: nat)
    ensures forall x :: x in StartedAgents(n) <==> 0 <= x < 2 * n && x % 2 == 0
    ensures forall x :: x in StartedAgents(n) ==> StartedAgents(n)[x] == StartedParent()
  {
    hide StartedParent;
    if n > 0 {
      StartedKeys(n - 1);
    }
  }

  lemma {:induction false} DelegatingKeys(n: nat, k: nat)
    requires k <= n
    ensures forall x :: x in DelegatingAgents(n, k) <==> 0 <= x < 2 * n && (x % 2 == 0 || x < 2 * k)
    ensures forall x :: x in DelegatingAgents(n, k) ==>
              DelegatingAgents(n, k)[x] ==
              if x >= 2 * k then StartedParent() else if x % 2 == 0 then BlockedParent(x + 1) else QueuedChild(x - 1)
  {
    hide BlockedParent, QueuedChild, StartedParent, StartedAgents;
    StartedKeys(n);
    if k > 0 {
      DelegatingKeys(n, k - 1);
    }
  }

  lemma Spawns(config: Config, n: nat, available: nat)
    ensures 2 * n !in StartedAgents(n)
    ensures var s := State(StartedAgents(n), available, {});
            && Enabled(config, s, SpawnTop(2 * n, Research, AutoMode, false))
            && Next(config, s, SpawnTop(2 * n, Research, AutoMode, false))
               == State(StartedAgents(n)[2 * n := Parent(Waiting, [Queued], None)], available, {})
  {
    StartedKeys(n);
  }

  lemma Starts(config: Config, agents: map<Id, Agent>, available: nat, id: Id)
    requires available > 0
    ensures var s := State(agents[id := Parent(Waiting, [Queued], None)], available, {});
            && Enabled(config, s, Acquire(id))
            && Next(config, s, Acquire(id)) == State(agents[id := Parent(Starting, [Queued], None)], available - 1, {})
  {
    assert agents[id := Parent(Waiting, [Queued], None)][id := Parent(Starting, [Queued], None)]
        == agents[id := Parent(Starting, [Queued], None)];
  }

  lemma Begins(config: Config, agents: map<Id, Agent>, available: nat, id: Id)
    ensures var s := State(agents[id := Parent(Starting, [Queued], None)], available, {});
            && Enabled(config, s, Begin(id))
            && Next(config, s, Begin(id)) == State(agents[id := StartedParent()], available, {})
  {
    assert [Queued] + [Running] == [Queued, Running];
    assert agents[id := Parent(Starting, [Queued], None)][id := StartedParent()] == agents[id := StartedParent()];
  }

  lemma Delegates(config: Config, agents: map<Id, Agent>, available: nat, id: Id, child: Id)
    requires config.maxConcurrent >= 2 && id in agents && agents[id] == StartedParent() && child !in agents
    ensures var s := State(agents, available, {});
            && Enabled(config, s, SpawnChild(id, child, Research, false))
            && Next(config, s, SpawnChild(id, child, Research, false))
               == State(agents[child := QueuedChild(id)][id := BlockedParent(child)], available, {})
  {
  }

  lemma {:induction false} StartingReaches(config: Config, n: nat)
    requires config.maxConcurrent >= 2 && n <= config.maxConcurrent
    ensures Run(config, StartingRun(n)) == Some(State(StartedAgents(n), config.maxConcurrent - n, {}))
  {
    hide Enabled, Next, Run, Parent, StartedParent;
    if n == 0 {
      NothingRuns(config);
    } else {
      var m, id := n - 1, 2 * (n - 1);
      var agents, left := StartedAgents(m), config.maxConcurrent - m;
      StartingReaches(config, m);
      Spawns(config, m, left);
      Starts(config, agents, left, id);
      Begins(config, agents, left - 1, id);
      var run, spawn := StartingRun(m), SpawnTop(id, Research, AutoMode, false);
      RunSnoc(config, run, State(agents, left, {}), spawn);
      RunSnoc(config, run + [spawn], State(agents[id := Parent(Waiting, [Queued], None)], left, {}), Acquire(id));
      RunSnoc(config, run + [spawn] + [Acquire(id)],
              State(agents[id := Parent(Starting, [Queued], None)], left - 1, {}), Begin(id));
    }
  }

  lemma {:induction false} DelegatingReaches(config: Config, n: nat, k: nat)
    requires config.maxConcurrent >= 2 && k <= n <= config.maxConcurrent
    ensures Run(config, DelegatingRun(n, k)) == Some(State(DelegatingAgents(n, k), config.maxConcurrent - n, {}))
  {
    hide Enabled, Next, Run, StartingRun, StartedAgents, QueuedChild, BlockedParent, StartedParent;
    if k == 0 {
      StartingReaches(config, n);
    } else {
      var id := 2 * (k - 1);
      DelegatingReaches(config, n, k - 1);
      DelegatingKeys(n, k - 1);
      var agents, left := DelegatingAgents(n, k - 1), config.maxConcurrent - n;
      Delegates(config, agents, left, id, id + 1);
      RunSnoc(config, DelegatingRun(n, k - 1), State(agents, left, {}), SpawnChild(id, id + 1, Research, false));
    }
  }

  lemma NothingRuns(config: Config)
    requires config.maxConcurrent >= 2
    ensures Run(config, StartingRun(0)) == Some(State(StartedAgents(0), config.maxConcurrent, {}))
  {
  }

  /** When every permit is held by a delegating parent, nothing moves. */
  lemma DelegatingDeadlocks(config: Config)
    requires config.maxConcurrent >= 2
    ensures Run(config, DelegatingRun(config.maxConcurrent, config.maxConcurrent)).Some?
    ensures Deadlocked(config, Run(config, DelegatingRun(config.maxConcurrent, config.maxConcurrent)).value)
  {
    hide Run, DelegatingRun, DelegatingAgents, Inv, Stuck;
    var n := config.maxConcurrent;
    DelegatingReaches(config, n, n);
    DelegatingKeys(n, n);
    RunInv(config, DelegatingRun(n, n));
    var s := State(DelegatingAgents(n, n), 0, {});
    forall id | id in s.agents ensures Idle(s, s.agents[id]) && !s.agents[id].phase.Done? {
    }
    StuckMeansIdle(config, s);
    assert 0 in s.agents;
  }

  /** Below two slots nesting is off, and an undisturbed state with nothing to do has finished. */
  lemma NoNestingNoDeadlock(config: Config, steps: seq<Step>)
    requires Run(config, steps).Some? && config.maxConcurrent < 2
    ensures !Deadlocked(config, Run(config, steps).value)
  {
    hide Run;
    var s := Run(config, steps).value;
    RunInv(config, steps);
    forall id | id in s.agents ensures FamilyOk(config, s, id) && s.agents[id].blockedOn.None? {
    }
    forall id ensures !Starved(s, id) {
    }
    assert BlockedParents(s) == {};
    if Undisturbed(s) && !AllFinished(s) {
      var step := FewBlockedMeansProgress(config, steps);
    }
  }

  /** A deadlock is reachable exactly when nesting is available at all: two slots are enough to try it,
      and no number of slots is enough to make it safe. */
  lemma DeadlockReachable(config: Config)
    ensures (exists steps :: Run(config, steps).Some? && Deadlocked(config, Run(config, steps).value))
            <==> config.maxConcurrent >= MIN_CONCURRENCY_FOR_NESTING
  {
    if config.maxConcurrent >= 2 {
      DelegatingDeadlocks(config);
    } else {
      forall steps | Run(config, steps).Some? ensures !Deadlocked(config, Run(config, steps).value) {
        NoNestingNoDeadlock(config, steps);
      }
    }
  }

  // ---------- What ends a deadlock ----------

  /** A timeout or a stop of a subagent that holds a permit. */
  ghost predicate Breaks(s: State, step: Step) {
    (step.Timeout? || step.Stop?) && step.id in Holders(s)
  }

  /** In a deadlock every permit is held by a starved parent. */
  lemma DeadlockShape(config: Config, s: State)
    requires Inv(config, s) && Deadlocked(config, s)
    ensures AllIdle(s) && s.available == 0 && forall id :: id in Holders(s) ==> Starved(s, id)
  {
    hide Inv, Stuck, Undisturbed, Starved, AllIdle;
    StuckMeansIdle(config, s);
    StuckExactly(config, s);
  }

  /** Only the outside world can act in a deadlock: it can spawn at the top, send messages, stop, time out a
      holder, or delete a finished record. */
  lemma OutsideSteps(config: Config, s: State, step: Step)
    requires Inv(config, s) && Deadlocked(config, s) && Enabled(config, s, step)
    ensures step.SpawnTop? || step.SpawnFails? || step.SendMessage? || step.Stop? || step.Timeout? || step.Cleanup?
    ensures step.Timeout? ==> step.id in Holders(s)
  {
    hide Inv, Undisturbed, AllIdle, SpawnCheck, ChildFinished;
    DeadlockShape(config, s);
    assert !step.Internal();
    forall id | id in Holders(s) ensures !Driving(s.agents[id]) {
      assert Starved(s, id);
    }
    assert step.id in s.agents && Driving(s.agents[step.id]) ==> step.id in Holders(s);
  }

  /** A step that does not break the deadlock changes no permit, no awaited record and no cancellation of a
      holder. */
  lemma StaysDeadlocked(config: Config, s: State, step: Step)
    requires Inv(config, s) && Deadlocked(config, s) && Enabled(config, s, step) && !Breaks(s, step)
    ensures Deadlocked(config, Next(config, s, step)) && Holders(Next(config, s, step)) == Holders(s)
  {
    hide Inv, Stuck, SpawnCheck, EffectiveMode, CanSpawnChildren;
    var s' := Next(config, s, step);
    NextInv(config, s, step);
    DeadlockShape(config, s);
    OutsideSteps(config, s, step);
    forall id | id in s.agents ensures SameOutlook(s, s', id) {
      QuietStep(config, s, step, id);
    }
    forall id | id in s'.agents ensures Idle(s', s'.agents[id]) {
      if id in s.agents {
        assert SameOutlook(s, s', id) && Idle(s, s.agents[id]);
        OutlookIdle(config, s, s', id);
      }
    }
    assert Holders(s') == Holders(s) by {
      assert forall id :: id in s.agents ==> SameOutlook(s, s', id);
    }
    StuckMeansIdle(config, s');
    var waiting :| waiting in s.agents && !s.agents[waiting].phase.Done?;
    assert SameOutlook(s, s', waiting);
    forall id | id in s'.agents && s'.agents[id].phase.Active?
      ensures s'.agents[id].history != [] && !s'.agents[id].Status().WaitingInput?
      ensures s'.agents[id].blockedOn.Some? && s'.agents[id].blockedOn.value in s'.agents ==>
                s'.agents[s'.agents[id].blockedOn.value].listed
    {
      assert id in s.agents && SameOutlook(s, s', id);
      assert id in Holders(s) && Starved(s, id);
      assert SameOutlook(s, s', s.agents[id].blockedOn.value);
    }
  }

  /** What matters of an agent here is the same before and after. */
  ghost predicate SameOutlook(s: State, s': State, id: Id)
    requires id in s.agents
  {
    id in s'.agents && s'.available == s.available &&
    var a, b := s.agents[id], s'.agents[id];
    && a.phase == b.phase && a.history == b.history && a.blockedOn == b.blockedOn
    && (a.phase.Active? ==> a.cancelled == b.cancelled)
    && (!a.phase.Done? ==> a.listed == b.listed)
  }

  lemma QuietStep(config: Config, s: State, step: Step, id: Id)
    requires Enabled(config, s, step) && id in s.agents && !Breaks(s, step)
    requires step.SpawnTop? || step.SpawnFails? || step.SendMessage? || step.Stop? || step.Cleanup?
    ensures SameOutlook(s, Next(config, s, step), id)
  {
    hide SpawnCheck, EffectiveMode, CanSpawnChildren;
  }

  lemma OutlookIdle(config: Config, s: State, s': State, id: Id)
    requires id in s.agents && Idle(s, s.agents[id]) && SameOutlook(s, s', id)
    requires id in Holders(s) ==> Starved(s, id)
    requires forall x :: x in s.agents ==> SameOutlook(s, s', x)
    ensures Idle(s', s'.agents[id])
  {
    if id in Holders(s) {
      assert SameOutlook(s, s', s.agents[id].blockedOn.value);
    }
  }

  /** A holder that times out frees its permit, and one that is stopped can observe it: either way something
      can move again. */
  lemma BreakingFrees(config: Config, s: State, step: Step)
    requires Inv(config, s) && Deadlocked(config, s) && Enabled(config, s, step) && Breaks(s, step)
    ensures !Stuck(config, Next(config, s, step))
  {
    hide Inv, Stuck, Undisturbed, AllIdle, SpawnCheck;
    var s' := Next(config, s, step);
    DeadlockShape(config, s);
    assert Starved(s, step.id);
    var move := if step.Stop? then ObserveCancel(step.id) else Acquire(s.agents[step.id].blockedOn.value);
    assert Enabled(config, s', move) && move.Internal();
    NotStuck(config, s', move);
  }

  lemma NotStuck(config: Config, s: State, step: Step)
    requires Enabled(config, s, step) && step.Internal()
    ensures !Stuck(config, s)
  {
    hide Enabled;
  }

  /** The exact account of one step: a deadlock survives every step of the outside world except a timeout
      or a stop of a permit holder. Messages, new subagents, deleted records and stops of queued children
      leave it as it is. */
  lemma DeadlockStep(config: Config, s: State, step: Step)
    requires Inv(config, s) && Deadlocked(config, s) && Enabled(config, s, step)
    ensures Deadlocked(config, Next(config, s, step)) <==> !Breaks(s, step)
  {
    hide Inv, Stuck, Undisturbed, AllFinished, Enabled, Next;
    if Breaks(s, step) {
      BreakingFrees(config, s, step);
    } else {
      StaysDeadlocked(config, s, step);
    }
  }

  /** ... and of whole runs: once deadlocked, a run stays so throughout if and only if no later step is a
      timeout or a stop of one of the subagents that held the permits then. */
  lemma {:induction false} DeadlockLasts(config: Config, steps: seq<Step>, more: seq<Step>)
    requires Run(config, steps).Some? && Deadlocked(config, Run(config, steps).value) && Run(config, steps + more).Some?
    ensures LastsThrough(config, steps, more) <==> NoBreak(Run(config, steps).value, more)
    ensures NoBreak(Run(config, steps).value, more) ==>
              Holders(Run(config, steps + more).value) == Holders(Run(config, steps).value)
    decreases |more|
  {
    hide Deadlocked, Enabled, Next, Holders, Inv;
    if more == [] {
      assert steps + more == steps;
      assert forall k :: 0 <= k <= |more| ==> steps + more[..k] == steps;
    } else {
      var front, last := more[..|more| - 1], more[|more| - 1];
      var s0 := Run(config, steps).value;
      assert (steps + more)[..|steps + more| - 1] == steps + front && more[..|more|] == more;
      DeadlockLasts(config, steps, front);
      LastsSnoc(config, steps, more);
      NoBreakSnoc(s0, more);
      if NoBreak(s0, front) {
        var s := Run(config, steps + front).value;
        assert front[..|front|] == front;
        RunInv(config, steps + front);
        DeadlockStep(config, s, last);
        if !Breaks(s, last) {
          StaysDeadlocked(config, s, last);
        }
        SameBreaks(s0, s, last);
      }
    }
  }

  /** Every state from the end of `steps` to the end of `more` is deadlocked. */
  ghost predicate LastsThrough(config: Config, steps: seq<Step>, more: seq<Step>) {
    forall k :: 0 <= k <= |more| ==>
      Run(config, steps + more[..k]).Some? && Deadlocked(config, Run(config, steps + more[..k]).value)
  }

  ghost predicate NoBreak(s: State, more: seq<Step>) {
    forall k :: 0 <= k < |more| ==> !Breaks(s, more[k])
  }

  lemma LastsSnoc(config: Config, steps: seq<Step>, more: seq<Step>)
    requires more != []
    ensures LastsThrough(config, steps, more) <==>
            && LastsThrough(config, steps, more[..|more| - 1])
            && Run(config, steps + more).Some? && Deadlocked(config, Run(config, steps + more).value)
  {
    hide Deadlocked, Run;
    var front := more[..|more| - 1];
    assert forall k :: 0 <= k <= |front| ==> front[..k] == more[..k];
    assert more[..|more|] == more;
  }

  lemma NoBreakSnoc(s: State, more: seq<Step>)
    requires more != []
    ensures NoBreak(s, more) <==> NoBreak(s, more[..|more| - 1]) && !Breaks(s, more[|more| - 1])
  {
    hide Breaks;
    var front := more[..|more| - 1];
    assert forall k :: 0 <= k < |front| ==> front[k] == more[k];
  }

  lemma SameBreaks(a: State, b: State, step: Step)
    requires Holders(a) == Holders(b)
    ensures Breaks(a, step) <==> Breaks(b, step)
  {
    hide Holders;
  }
}
