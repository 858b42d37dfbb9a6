/** The subagent scheduler as a step system: every action of the manager, of a worker task, of the
    `agent_spawn` tool and of the outside world is one step on the shared state. */
module Scheduler {
  import opened Prelude

  /** Subagent ids are fresh, unique tokens. */
  type Id = nat

  const MAX_SUBAGENT_DEPTH := 2
  const MIN_CONCURRENCY_FOR_NESTING := 2

  datatype Status = Queued | Running | WaitingInput | Completed | Failed | Stopped | TimedOut | Interrupted {
    predicate IsTerminal() {
      !(Queued? || Running? || WaitingInput?)
    }
  }

  datatype Mode = Research | Plan | Implement | Review {
    predicate AllowsWrites() {
      Implement?
    }
  }

  datatype Permission = AutoMode | PlanMode | ApproveMode | ManualMode

  /** Where a worker task is: waiting for a permit, holding one but not yet past the cancellation
      check, driving turns, or finished. */
  datatype Phase = Waiting | Starting | Active | Done

  datatype Agent = Agent(
    depth: nat, parent: Option<Id>, mode: Mode, permission: Permission, worktree: Option<nat>,
    phase: Phase, history: seq<Status>, cancelled: bool, blockedOn: Option<Id>, inbox: nat, listed: bool)
  {
    function Status(): Status
      requires history != []
    {
      history[|history| - 1]
    }

    predicate HoldsPermit() {
      phase.Starting? || phase.Active?
    }
  }

  /** `shortId` gives the id prefix a worktree is named after; distinct ids may share one. */
  datatype Config = Config(maxConcurrent: nat, shortId: Id -> nat) {
    function Permits(): nat {
      if maxConcurrent == 0 then 1 else maxConcurrent
    }
  }

  datatype State = State(agents: map<Id, Agent>, available: nat, claimed: set<nat>)

  function Initial(config: Config): State {
    State(map[], config.Permits(), {})
  }

  // ---------- Spawning ----------

  datatype SpawnError =
    MaxDepthExceeded | WorktreeRequiresImplementMode | ImplementDeniedInPlanMode | WorktreeInUse | NotCreated

  function EffectiveMode(requested: Mode, parent: Permission): Mode {
    if parent.PlanMode? && requested.AllowsWrites() then Research else requested
  }

  function SpawnCheck(config: Config, s: State, id: Id, depth: nat, mode: Mode, permission: Permission, worktree: bool)
    : Option<SpawnError>
  {
    if depth > MAX_SUBAGENT_DEPTH then Some(MaxDepthExceeded)
    else if worktree && !mode.Implement? then Some(WorktreeRequiresImplementMode)
    else if permission.PlanMode? && (mode.Implement? || worktree) then Some(ImplementDeniedInPlanMode)
    else if EffectiveMode(mode, permission).AllowsWrites() && config.shortId(id) in s.claimed then Some(WorktreeInUse)
    else None
  }

  function Spawned(config: Config, s: State, id: Id, depth: nat, parent: Option<Id>, mode: Mode,
                   permission: Permission): State
  {
    var effective := EffectiveMode(mode, permission);
    var worktree := if effective.AllowsWrites() then Some(config.shortId(id)) else None;
    var agent := Agent(depth, parent, effective, permission, worktree, Waiting, [Queued], false, None, 0, true);
    State(s.agents[id := agent], s.available,
          if effective.AllowsWrites() then s.claimed + {config.shortId(id)} else s.claimed)
  }

  /** The worktree could not be created, or the record not saved: nothing is spawned, but the name stays claimed. */
  function LoseClaim(config: Config, s: State, id: Id): State {
    s.(claimed := s.claimed + {config.shortId(id)})
  }

  // ---------- Steps ----------

  datatype Step =
    // The outside world.
    | SpawnTop(id: Id, mode: Mode, permission: Permission, worktree: bool)
    | SpawnChild(id: Id, child: Id, mode: Mode, worktree: bool)
    | SpawnFails(id: Id, depth: nat, mode: Mode, permission: Permission, worktree: bool)
    | SendMessage(id: Id)
    | Stop(id: Id)
    | Timeout(id: Id)
    | Cleanup(id: Id)
    // The worker tasks.
    | Acquire(id: Id)
    | Begin(id: Id)
    | Complete(id: Id)
    | Continue(id: Id)
    | Fail(id: Id)
    | AskInput(id: Id)
    | Resume(id: Id)
    | ObserveCancel(id: Id)
    | ChildDone(id: Id)
    | ChildWaitCancelled(id: Id)
  {
    predicate Spawns() {
      SpawnTop? || SpawnChild? || SpawnFails?
    }

    /** Steps the system takes by itself; the others need a user, a clock or a model's decision to
        delegate. */
    predicate Internal() {
      !(Spawns() || SendMessage? || Stop? || Timeout? || Cleanup?)
    }
  }

  /** Driving a turn: running, and not inside a blocking `agent_spawn` call. */
  predicate Driving(a: Agent) {
    a.phase.Active? && a.history != [] && a.Status().Running? && a.blockedOn.None?
  }

  /** The `agent_spawn` poll: the child's persisted record exists and is terminal. */
  predicate ChildFinished(s: State, a: Agent) {
    a.blockedOn.Some? && a.blockedOn.value in s.agents &&
    var child := s.agents[a.blockedOn.value];
    child.listed && child.phase.Done?
  }

  predicate CanSpawnChildren(config: Config, a: Agent) {
    a.depth < MAX_SUBAGENT_DEPTH && config.maxConcurrent >= MIN_CONCURRENCY_FOR_NESTING
  }

  predicate Enabled(config: Config, s: State, step: Step) {
    match step
    case SpawnTop(id, mode, permission, worktree) =>
      id !in s.agents && SpawnCheck(config, s, id, 1, mode, permission, worktree) == None
    case SpawnChild(id, child, mode, worktree) =>
      id in s.agents && child !in s.agents && Driving(s.agents[id]) && CanSpawnChildren(config, s.agents[id])
      && SpawnCheck(config, s, child, s.agents[id].depth + 1, mode, s.agents[id].permission, worktree) == None
    case SpawnFails(id, depth, mode, permission, worktree) =>
      id !in s.agents && EffectiveMode(mode, permission).AllowsWrites()
      && SpawnCheck(config, s, id, depth, mode, permission, worktree) == None
    case SendMessage(id) => id in s.agents && !s.agents[id].phase.Done?
    case Stop(id) => id in s.agents && !s.agents[id].phase.Done?
    case Timeout(id) => id in s.agents && s.agents[id].phase.Active?
    case Cleanup(id) => id in s.agents && s.agents[id].phase.Done? && s.agents[id].listed
    case Acquire(id) => id in s.agents && s.agents[id].phase.Waiting? && s.available > 0
    case Begin(id) => id in s.agents && s.agents[id].phase.Starting?
    case Complete(id) => id in s.agents && Driving(s.agents[id]) && s.agents[id].inbox == 0
    case Continue(id) => id in s.agents && Driving(s.agents[id]) && s.agents[id].inbox > 0
    case Fail(id) => id in s.agents && Driving(s.agents[id])
    case AskInput(id) => id in s.agents && Driving(s.agents[id])
    case Resume(id) =>
      id in s.agents && s.agents[id].phase.Active? && s.agents[id].history != [] && s.agents[id].Status().WaitingInput?
      && s.agents[id].inbox > 0
    case ObserveCancel(id) => id in s.agents && s.agents[id].phase.Active? && s.agents[id].cancelled
    case ChildDone(id) => id in s.agents && s.agents[id].phase.Active? && ChildFinished(s, s.agents[id])
    case ChildWaitCancelled(id) =>
      id in s.agents && s.agents[id].phase.Active? && s.agents[id].blockedOn.Some? && s.agents[id].cancelled
  }

  function SetStatus(a: Agent, status: Status): Agent {
    a.(history := a.history + [status])
  }

  /** `finish`: the terminal status is recorded and persisted, and the permit released. */
  function Finished(a: Agent, status: Status): Agent {
    SetStatus(a, status).(phase := Done, blockedOn := None, listed := true)
  }

  /** The acting agent after its step. */
  function Stepped(a: Agent, step: Step): Agent {
    match step
    case SendMessage(_) => a.(inbox := a.inbox + 1)
    case Stop(_) => a.(cancelled := true)
    case Timeout(_) => Finished(a, TimedOut).(cancelled := true)
    case Cleanup(_) => a.(listed := false)
    case Acquire(_) => a.(phase := Starting)
    case Begin(_) =>
      if a.cancelled then Finished(a, Stopped) else SetStatus(a, Running).(phase := Active, listed := true)
    case Complete(_) => Finished(a, Completed)
    case Continue(_) => a.(inbox := 0)
    case Fail(_) => Finished(a, Failed)
    case AskInput(_) => SetStatus(a, WaitingInput).(listed := true)
    case Resume(_) => SetStatus(a, Running).(inbox := 0, listed := true)
    case ObserveCancel(_) => Finished(a, Stopped)
    case ChildDone(_) => a.(blockedOn := None)
    case ChildWaitCancelled(_) => a.(blockedOn := None)
    case _ => a
  }

  function Count(b: bool): nat {
    if b then 1 else 0
  }

  /** The acting agent is replaced, and its permit taken from or returned to the pool. */
  function Replace(s: State, id: Id, a: Agent): State
    requires id in s.agents && s.available + Count(s.agents[id].HoldsPermit()) >= Count(a.HoldsPermit())
  {
    State(s.agents[id := a], s.available + Count(s.agents[id].HoldsPermit()) - Count(a.HoldsPermit()), s.claimed)
  }

  lemma PermitThere(config: Config, s: State, step: Step)
    requires Enabled(config, s, step) && !step.Spawns()
    ensures step.id in s.agents
    ensures var a := s.agents[step.id];
            s.available + Count(a.HoldsPermit()) >= Count(Stepped(a, step).HoldsPermit())
  {
    hide SpawnCheck, ChildFinished, CanSpawnChildren, EffectiveMode;
  }

  function Next(config: Config, s: State, step: Step): State
    requires Enabled(config, s, step)
  {
    match step
    case SpawnTop(id, mode, permission, _) => Spawned(config, s, id, 1, None, mode, permission)
    case SpawnChild(id, child, mode, _) =>
      var parent := s.agents[id];
      var spawned := Spawned(config, s, child, parent.depth + 1, Some(id), mode, parent.permission);
      spawned.(agents := spawned.agents[id := parent.(blockedOn := Some(child))])
    case SpawnFails(id, _, _, _, _) => LoseClaim(config, s, id)
    case _ =>
      PermitThere(config, s, step);
      Replace(s, step.id, Stepped(s.agents[step.id], step))
  }

  // ---------- Runs ----------

  /** The state after a sequence of steps, or `None` when one of them was not possible. */
  function Run(config: Config, steps: seq<Step>): Option<State> {
    if steps == [] then Some(Initial(config))
    else
      var before := Run(config, steps[..|steps| - 1]);
      if before.Some? && Enabled(config, before.value, steps[|steps| - 1])
      then Some(Next(config, before.value, steps[|steps| - 1]))
      else None
  }
}
