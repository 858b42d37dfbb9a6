/** The manager's own operations, as methods on the shared state the scheduler's steps run on. */
module SubagentManagers {
  import opened Prelude
  import opened Scheduler
  import opened SchedulerTheorems

  datatype ManagerError = NotFound | InvalidState(status: Status) | NotSaved

  class SubagentManager {
    const config: Config
    var state: State

    ghost predicate Valid()
      reads this
    {
      Inv(config, state)
    }

    constructor (config: Config)
      ensures Valid() && this.config == config && state == Initial(config)
    {
      this.config, state := config, Initial(config);
      InitialInv(config);
    }

    /** The record held in memory: a deleted one is gone. */
    predicate Known(id: Id)
      reads this
    {
      id in state.agents && state.agents[id].listed
    }

    /** A top-level spawn: refused with the first check that fails, and then nothing has changed; otherwise
        queued, with its worktree claimed. `created` tells whether the worktree could be created and the record
        saved; if not, nothing is spawned, but a claimed name stays claimed. */
    method Spawn(id: Id, mode: Mode, permission: Permission, worktree: bool, created: bool)
      returns (result: Result<Id, SpawnError>)
      requires Valid() && id !in state.agents
      modifies this`state
      ensures Valid()
      ensures var step := SpawnTop(id, mode, permission, worktree);
              && (result.Ok? <==> Enabled(config, old(state), step) && created)
              && (result.Ok? ==> result.value == id && state == Next(config, old(state), step))
      ensures result.Err? ==>
                var check := SpawnCheck(config, old(state), id, 1, mode, permission, worktree);
                && result.error == (if check.Some? then check.value else NotCreated)
                && state == if check.None? && mode.AllowsWrites() then LoseClaim(config, old(state), id) else old(state)
    {
      SpawnedIfAllowed(config, state, id, mode, permission, worktree);
      if worktree && !mode.Implement? {
        return Err(WorktreeRequiresImplementMode);
      }
      if permission.PlanMode? && (mode.Implement? || worktree) {
        return Err(ImplementDeniedInPlanMode);
      }
      var effective := EffectiveMode(mode, permission);
      var target := config.shortId(id);
      if effective.AllowsWrites() {
        if target in state.claimed {
          return Err(WorktreeInUse);
        }
        LoseClaimInv(config, state, id);
        state := state.(claimed := state.claimed + {target});
      }
      if !created {
        return Err(NotCreated);
      }
      var agent := Agent(1, None, effective, permission, if effective.AllowsWrites() then Some(target) else None,
                         Waiting, [Queued], false, None, 0, true);
      state := state.(agents := state.agents[id := agent]);
      return Ok(id);
    }

    /** A follow-up message: refused for an unknown or finished subagent or when its record is not saved,
        otherwise queued. */
    method SendMessageTo(id: Id, saved: bool) returns (result: Result<(), ManagerError>)
      requires Valid()
      modifies this`state
      ensures Valid()
      ensures result.Ok? <==> Enabled(config, old(state), SendMessage(id)) && saved
      ensures result.Ok? ==> state == Next(config, old(state), SendMessage(id))
      ensures result.Err? ==> state == old(state)
      ensures result.Err? ==>
                result.error ==
                  if !Known(id) then NotFound
                  else if state.agents[id].phase.Done? then InvalidState(state.agents[id].Status())
                  else NotSaved
    {
      var refused := Refused(id);
      if refused.Some? {
        return Err(refused.value);
      }
      if !saved {
        return Err(NotSaved);
      }
      NextInv(config, state, SendMessage(id));
      state := Replace(state, id, state.agents[id].(inbox := state.agents[id].inbox + 1));
      return Ok(());
    }

    /** A stop request: it cancels the token and nothing else; the status changes only when the worker
        observes it. */
    method StopAgent(id: Id) returns (result: Result<(), ManagerError>)
      requires Valid()
      modifies this`state
      ensures Valid()
      ensures result.Ok? <==> Enabled(config, old(state), Stop(id))
      ensures result.Ok? ==>
                state == Next(config, old(state), Stop(id)) && state.agents[id].history == old(state).agents[id].history
      ensures result.Err? ==> state == old(state)
      ensures result.Err? ==>
                result.error == if !Known(id) then NotFound else InvalidState(state.agents[id].Status())
    {
      var refused := Refused(id);
      if refused.Some? {
        return Err(refused.value);
      }
      NextInv(config, state, Stop(id));
      state := Replace(state, id, state.agents[id].(cancelled := true));
      return Ok(());
    }

    /** Why a message or a stop is refused: exactly for unknown records and terminal statuses. */
    method Refused(id: Id) returns (error: Option<ManagerError>)
      requires Valid()
      ensures error.None? <==> id in state.agents && !state.agents[id].phase.Done?
      ensures error.Some? ==> error.value == if !Known(id) then NotFound else InvalidState(state.agents[id].Status())
      ensures !Known(id) ==> error == Some(NotFound)
    {
      if !Known(id) {
        return Some(NotFound);
      }
      assert LocalOk(state.agents[id]);
      if state.agents[id].Status().IsTerminal() {
        return Some(InvalidState(state.agents[id].Status()));
      }
      return None;
    }
  }

  lemma SpawnedIfAllowed(config: Config, s: State, id: Id, mode: Mode, permission: Permission, worktree: bool)
    requires Inv(config, s) && id !in s.agents
    ensures var step := SpawnTop(id, mode, permission, worktree);
            Enabled(config, s, step) ==> Inv(config, Next(config, s, step))
  {
    hide Inv;
    var step := SpawnTop(id, mode, permission, worktree);
    if Enabled(config, s, step) {
      NextInv(config, s, step);
    }
  }
}
