/** What every run of the subagent scheduler keeps, and exactly where it can get stuck. */
module SchedulerTheorems {
  import opened Prelude
  import opened Scheduler

  // ---------- The lifecycle ----------

  /** The status changes a subagent may go through. */
  predicate Follows(from: Status, to: Status) {
    match from
    case Queued => to.Running? || to.Stopped? || to.Interrupted?
    case Running => to.WaitingInput? || to.IsTerminal()
    case WaitingInput => to.Running? || to.Stopped? || to.TimedOut? || to.Interrupted?
    case _ => false
  }

  /** A status history: it starts queued and every change is allowed, so nothing follows a terminal
      status and `finish` happens at most once. */
  predicate Lifecycle(history: seq<Status>) {
    history != [] && history[0] == Queued && forall i :: 0 < i < |history| ==> Follows(history[i - 1], history[i])
  }

  lemma LifecycleSnoc(history: seq<Status>, status: Status)
    requires Lifecycle(history) && Follows(history[|history| - 1], status)
    ensures Lifecycle(history + [status])
  {
  }

  // ---------- The invariant ----------

  /** One agent's own part of the invariant. */
  predicate LocalOk(a: Agent) {
    && a.history != [] && Lifecycle(a.history)
    && ((a.phase.Waiting? || a.phase.Starting?) ==> a.history == [Queued])
    && (a.phase.Active? ==> (a.Status().Running? || a.Status().WaitingInput?))
    && (a.phase.Done? <==> a.Status().IsTerminal())
    && (a.blockedOn.Some? ==> a.phase.Active? && a.Status().Running?)
    && (a.mode.AllowsWrites() <==> a.worktree.Some?)
    && (a.mode.AllowsWrites() ==> !a.permission.PlanMode?)
    && (!a.phase.Done? ==> a.listed)
  }

  /** How an agent fits the others: top-level agents have no parent; a child is at depth 2, under a
      depth-1 parent with the same permissions; only such a parent is ever blocked, on its own child,
      and only when the pool allows nesting. */
  ghost predicate FamilyOk(config: Config, s: State, id: Id)
    requires id in s.agents
  {
    var a := s.agents[id];
    && ((a.depth == 1 && a.parent.None?)
        || (a.depth == 2 && a.parent.Some? && a.parent.value in s.agents && s.agents[a.parent.value].depth == 1
            && s.agents[a.parent.value].permission == a.permission))
    && (a.blockedOn.Some? ==>
          a.depth == 1 && config.maxConcurrent >= MIN_CONCURRENCY_FOR_NESTING
          && a.blockedOn.value in s.agents && s.agents[a.blockedOn.value].parent == Some(id))
  }

  ghost function Holders(s: State): set<Id> {
    set id | id in s.agents && s.agents[id].HoldsPermit()
  }

  /** Every permit is either in the pool or held by exactly one agent. */
  ghost predicate PermitsOk(config: Config, s: State) {
    s.available + |Holders(s)| == config.Permits()
  }

  /** No two subagents share a worktree, and every worktree in use is claimed. */
  ghost predicate WorktreesOk(s: State) {
    && (forall id :: id in s.agents && s.agents[id].worktree.Some? ==> s.agents[id].worktree.value in s.claimed)
    && (forall i, j :: i in s.agents && j in s.agents && i != j && s.agents[i].worktree.Some? ==>
          s.agents[i].worktree != s.agents[j].worktree)
  }

  ghost predicate AllLocalOk(s: State) {
    forall id :: id in s.agents ==> LocalOk(s.agents[id])
  }

  ghost predicate AllFamilyOk(config: Config, s: State) {
    forall id :: id in s.agents ==> FamilyOk(config, s, id)
  }

  ghost predicate Inv(config: Config, s: State) {
    PermitsOk(config, s) && AllLocalOk(s) && AllFamilyOk(config, s) && WorktreesOk(s)
  }

  // ---------- Preservation ----------

  /** What never changes about an agent. */
  predicate SameIdentity(a: Agent, b: Agent) {
    && a.depth == b.depth && a.parent == b.parent && a.mode == b.mode && a.permission == b.permission
    && a.worktree == b.worktree
  }

  lemma ReplacePermits(config: Config, s: State, id: Id, a: Agent)
    requires PermitsOk(config, s) && id in s.agents
    requires s.available + Count(s.agents[id].HoldsPermit()) >= Count(a.HoldsPermit())
    ensures PermitsOk(config, Replace(s, id, a))
  {
    hide *;
    var s' := Replace(s, id, a);
    ReplaceHolders(s, id, a);
    SizeAround(Holders(s), id);
    SizeAround(Holders(s'), id);
    PoolAfter(config, s, id, a);
  }

  lemma ReplaceHolders(s: State, id: Id, a: Agent)
    requires id in s.agents && s.available + Count(s.agents[id].HoldsPermit()) >= Count(a.HoldsPermit())
    ensures Holders(Replace(s, id, a)) - {id} == Holders(s) - {id}
    ensures id in Holders(s) <==> s.agents[id].HoldsPermit()
    ensures id in Holders(Replace(s, id, a)) <==> a.HoldsPermit()
  {
  }

  lemma PoolAfter(config: Config, s: State, id: Id, a: Agent)
    requires PermitsOk(config, s) && id in s.agents
    requires s.available + Count(s.agents[id].HoldsPermit()) >= Count(a.HoldsPermit())
    requires |Holders(s)| - Count(s.agents[id].HoldsPermit()) == |Holders(Replace(s, id, a))| - Count(a.HoldsPermit())
    ensures PermitsOk(config, Replace(s, id, a))
  {
    hide Holders;
  }

  lemma SizeAround(ids: set<Id>, id: Id)
    ensures |ids| == |ids - {id}| + Count(id in ids)
  {
    assert ids == (ids - {id}) + (if id in ids then {id} else {});
  }

  lemma ReplaceFamily(config: Config, s: State, id: Id, a: Agent)
    requires AllFamilyOk(config, s) && WorktreesOk(s) && id in s.agents
    requires s.available + Count(s.agents[id].HoldsPermit()) >= Count(a.HoldsPermit())
    requires SameIdentity(s.agents[id], a) && (a.blockedOn == None || a.blockedOn == s.agents[id].blockedOn)
    ensures AllFamilyOk(config, Replace(s, id, a)) && WorktreesOk(Replace(s, id, a))
  {
    var s' := Replace(s, id, a);
    assert FamilyOk(config, s, id);
    forall x | x in s'.agents ensures FamilyOk(config, s', x) {
      assert FamilyOk(config, s, x);
    }
  }

  /** What a step demands of the agent it is about. */
  predicate Allowed(a: Agent, step: Step) {
    match step
    case SpawnTop(_, _, _, _) => false
    case SpawnChild(_, _, _, _) => false
    case SpawnFails(_, _, _, _, _) => false
    case SendMessage(_) => !a.phase.Done?
    case Stop(_) => !a.phase.Done?
    case Cleanup(_) => a.phase.Done?
    case Acquire(_) => a.phase.Waiting?
    case Begin(_) => a.phase.Starting?
    case Resume(_) => a.phase.Active? && a.history != [] && a.Status().WaitingInput?
    case Timeout(_) => a.phase.Active?
    case ObserveCancel(_) => a.phase.Active?
    case ChildDone(_) => a.phase.Active?
    case ChildWaitCancelled(_) => a.phase.Active?
    case _ => Driving(a)
  }

  lemma EnabledAllows(config: Config, s: State, step: Step)
    requires Enabled(config, s, step) && !step.Spawns()
    ensures step.id in s.agents && Allowed(s.agents[step.id], step)
  {
    hide ChildFinished, SpawnCheck, CanSpawnChildren, Driving;
  }

  lemma AllowedKeepsLocal(a: Agent, step: Step)
    requires LocalOk(a) && Allowed(a, step)
    ensures LocalOk(Stepped(a, step))
  {
    hide Lifecycle;
    forall status | Follows(a.Status(), status) ensures Lifecycle(a.history + [status]) {
      LifecycleSnoc(a.history, status);
    }
  }

  lemma SteppedLocal(config: Config, s: State, step: Step)
    requires AllLocalOk(s) && Enabled(config, s, step) && !step.Spawns()
    ensures LocalOk(Stepped(s.agents[step.id], step))
  {
    hide LocalOk, Allowed, Stepped;
    EnabledAllows(config, s, step);
    AllowedKeepsLocal(s.agents[step.id], step);
  }

  lemma SteppedFrame(config: Config, s: State, step: Step)
    requires AllLocalOk(s) && Enabled(config, s, step) && !step.Spawns()
    ensures var a, b := s.agents[step.id], Stepped(s.agents[step.id], step);
            && SameIdentity(a, b) && (b.blockedOn == None || b.blockedOn == a.blockedOn)
            && s.available + Count(a.HoldsPermit()) >= Count(b.HoldsPermit())
  {
    hide Lifecycle, ChildFinished, SpawnCheck;
    assert LocalOk(s.agents[step.id]);
  }

  lemma SpawnedInv(config: Config, s: State, id: Id, depth: nat, parent: Option<Id>, mode: Mode, permission: Permission,
                   worktree: bool)
    requires Inv(config, s) && id !in s.agents
    requires SpawnCheck(config, s, id, depth, mode, permission, worktree) == None
    requires (depth == 1 && parent.None?)
             || (depth == 2 && parent.Some? && parent.value in s.agents && s.agents[parent.value].depth == 1
                 && s.agents[parent.value].permission == permission)
    ensures Inv(config, Spawned(config, s, id, depth, parent, mode, permission))
  {
    hide WorktreesOk, Follows;
    var s' := Spawned(config, s, id, depth, parent, mode, permission);
    assert Holders(s') == Holders(s);
    forall x | x in s'.agents ensures FamilyOk(config, s', x) {
      assert x != id ==> FamilyOk(config, s, x);
    }
    SpawnedWorktrees(config, s, id, depth, parent, mode, permission, worktree);
  }

  lemma SpawnedWorktrees(config: Config, s: State, id: Id, depth: nat, parent: Option<Id>, mode: Mode,
                         permission: Permission, worktree: bool)
    requires WorktreesOk(s) && id !in s.agents
    requires SpawnCheck(config, s, id, depth, mode, permission, worktree) == None
    ensures WorktreesOk(Spawned(config, s, id, depth, parent, mode, permission))
  {
    var s' := Spawned(config, s, id, depth, parent, mode, permission);
    forall i, j | i in s'.agents && j in s'.agents && i != j && s'.agents[i].worktree.Some?
      ensures s'.agents[i].worktree != s'.agents[j].worktree
    {
      if i == id && s'.agents[j].worktree.Some? {
        assert s.agents[j].worktree.value in s.claimed;
      }
      if j == id {
        assert s.agents[i].worktree.value in s.claimed;
      }
    }
  }

  lemma BlockedInv(config: Config, s: State, id: Id, child: Id)
    requires Inv(config, s) && id in s.agents && child in s.agents && id != child
    requires Driving(s.agents[id]) && s.agents[id].depth == 1 && config.maxConcurrent >= MIN_CONCURRENCY_FOR_NESTING
    requires s.agents[child].parent == Some(id)
    ensures Inv(config, s.(agents := s.agents[id := s.agents[id].(blockedOn := Some(child))]))
  {
    hide Lifecycle;
    var s' := s.(agents := s.agents[id := s.agents[id].(blockedOn := Some(child))]);
    assert Holders(s') == Holders(s);
    forall x | x in s'.agents ensures LocalOk(s'.agents[x]) && FamilyOk(config, s', x) {
      assert LocalOk(s.agents[x]) && FamilyOk(config, s, x);
    }
  }

  lemma LoseClaimInv(config: Config, s: State, id: Id)
    requires Inv(config, s)
    ensures Inv(config, LoseClaim(config, s, id))
  {
    hide LocalOk;
    var s' := LoseClaim(config, s, id);
    assert Holders(s') == Holders(s);
    forall x | x in s'.agents ensures FamilyOk(config, s', x) {
      assert FamilyOk(config, s, x);
    }
  }

  /** Every step keeps the invariant. */
  lemma NextInv(config: Config, s: State, step: Step)
    requires Inv(config, s) && Enabled(config, s, step)
    ensures Inv(config, Next(config, s, step))
  {
    hide LocalOk, FamilyOk, PermitsOk, WorktreesOk, SpawnCheck, Driving, Spawned;
    match step
    case SpawnTop(id, mode, permission, worktree) =>
      SpawnedInv(config, s, id, 1, None, mode, permission, worktree);
    case SpawnChild(id, child, mode, worktree) =>
      ChildInv(config, s, id, child, mode, worktree);
    case SpawnFails(id, _, _, _, _) =>
      LoseClaimInv(config, s, id);
    case _ =>
      var b := Stepped(s.agents[step.id], step);
      SteppedLocal(config, s, step);
      SteppedFrame(config, s, step);
      ReplacePermits(config, s, step.id, b);
      ReplaceFamily(config, s, step.id, b);
  }

  lemma ChildInv(config: Config, s: State, id: Id, child: Id, mode: Mode, worktree: bool)
    requires Inv(config, s) && Enabled(config, s, SpawnChild(id, child, mode, worktree))
    ensures Inv(config, Next(config, s, SpawnChild(id, child, mode, worktree)))
  {
    hide PermitsOk, WorktreesOk, LocalOk, SpawnCheck;
    var parent := s.agents[id];
    assert FamilyOk(config, s, id);
    var spawned := Spawned(config, s, child, parent.depth + 1, Some(id), mode, parent.permission);
    SpawnedInv(config, s, child, parent.depth + 1, Some(id), mode, parent.permission, worktree);
    BlockedInv(config, spawned, id, child);
  }

  /** ... and so does every run. */
  lemma {:induction false} RunInv(config: Config, steps: seq<Step>)
    requires Run(config, steps).Some?
    ensures Inv(config, Run(config, steps).value)
  {
    hide Inv;
    if steps == [] {
      InitialInv(config);
    } else {
      RunInv(config, steps[..|steps| - 1]);
      NextInv(config, Run(config, steps[..|steps| - 1]).value, steps[|steps| - 1]);
    }
  }

  lemma InitialInv(config: Config)
    ensures Inv(config, Initial(config))
  {
    assert Holders(Initial(config)) == {};
  }

  // ---------- Permits, lifecycle and permissions ----------

  /** Permit conservation and its bound, in every reachable state. */
  lemma PermitBound(config: Config, steps: seq<Step>)
    requires Run(config, steps).Some?
    ensures var s, permits := Run(config, steps).value, if config.maxConcurrent > 0 then config.maxConcurrent else 1;
            s.available + |Holders(s)| == permits && |Holders(s)| <= permits
  {
    RunInv(config, steps);
  }

  /** Every status history in a reachable state is a lifecycle, and permits are held exactly from the
      start of a run to its terminal status. */
  lemma LifecycleOk(config: Config, steps: seq<Step>, id: Id)
    requires Run(config, steps).Some? && id in Run(config, steps).value.agents
    ensures var a := Run(config, steps).value.agents[id];
            && Lifecycle(a.history)
            && (forall i :: 0 <= i < |a.history| - 1 ==> !a.history[i].IsTerminal())
            && ((a.Status().Running? || a.Status().WaitingInput?) ==> a.HoldsPermit())
            && (a.Status().IsTerminal() ==> !a.HoldsPermit())
  {
    hide Run;
    RunInv(config, steps);
    var a := Run(config, steps).value.agents[id];
    assert LocalOk(a);
    forall i | 0 <= i < |a.history| - 1 ensures !a.history[i].IsTerminal() {
      assert Follows(a.history[i], a.history[i + 1]);
    }
  }

  /** Nesting never gains permissions: in every reachable state a subagent that may write has its own
      worktree, which no other subagent has; nobody under plan mode may write; a child has exactly its
      parent's permissions and is at depth 2. */
  lemma PermissionsContained(config: Config, steps: seq<Step>, id: Id)
    requires Run(config, steps).Some? && id in Run(config, steps).value.agents
    ensures var s := Run(config, steps).value;
            var a := s.agents[id];
            && (a.mode.AllowsWrites() ==> a.worktree.Some? && !a.permission.PlanMode?)
            && (a.worktree.Some? ==> forall x :: x in s.agents && x != id ==> s.agents[x].worktree != a.worktree)
            && a.depth in {1, 2}
            && (a.depth == 2 <==> a.parent.Some?)
            && (a.parent.Some? ==> a.parent.value in s.agents && s.agents[a.parent.value].depth == 1
                                   && s.agents[a.parent.value].permission == a.permission)
  {
    RunInv(config, steps);
    var s := Run(config, steps).value;
    assert LocalOk(s.agents[id]) && FamilyOk(config, s, id);
    if s.agents[id].worktree.Some? {
      forall x | x in s.agents && x != id ensures s.agents[x].worktree != s.agents[id].worktree {
        assert s.agents[id].worktree != s.agents[x].worktree;
      }
    }
  }

  /** The checks of `spawn` leave the mode adjustment nothing to do: a request that passes them runs in
      the mode it asked for. */
  lemma SpawnNeverDowngrades(config: Config, s: State, id: Id, depth: nat, mode: Mode, permission: Permission,
                             worktree: bool)
    requires SpawnCheck(config, s, id, depth, mode, permission, worktree) == None
    ensures EffectiveMode(mode, permission) == mode
  {
  }

  /** The step that spawned `id`, and the mode it asked for. */
  predicate SpawnedBy(step: Step, id: Id, mode: Mode) {
    || (step.SpawnTop? && step.id == id && step.mode == mode)
    || (step.SpawnChild? && step.child == id && step.mode == mode)
  }

  /** Over whole runs: every subagent of a reachable state has the mode its spawn asked for. */
  lemma {:induction false} ModeAsRequested(config: Config, steps: seq<Step>, id: Id)
    requires Run(config, steps).Some? && id in Run(config, steps).value.agents
    ensures exists k :: 0 <= k < |steps| && SpawnedBy(steps[k], id, Run(config, steps).value.agents[id].mode)
  {
    hide Enabled, Next, SpawnedBy;
    if steps != [] {
      var front, last := steps[..|steps| - 1], steps[|steps| - 1];
      var before := Run(config, front).value;
      ModeKept(config, before, last, id);
      if id in before.agents {
        ModeAsRequested(config, front, id);
        var k :| 0 <= k < |front| && SpawnedBy(front[k], id, before.agents[id].mode);
        assert steps[k] == front[k];
        if before.agents[id].mode != Next(config, before, last).agents[id].mode {
          assert SpawnedBy(steps[|steps| - 1], id, Next(config, before, last).agents[id].mode);
        }
      } else {
        assert SpawnedBy(steps[|steps| - 1], id, Next(config, before, last).agents[id].mode);
      }
    }
  }

  lemma ModeKept(config: Config, s: State, step: Step, id: Id)
    requires Enabled(config, s, step) && id in Next(config, s, step).agents
    ensures (id in s.agents && Next(config, s, step).agents[id].mode == s.agents[id].mode)
            || SpawnedBy(step, id, Next(config, s, step).agents[id].mode)
  {
    hide ChildFinished, CanSpawnChildren;
  }

  /** Cancelled while still queued, and so never to run. */
  predicate NeverRuns(s: State, id: Id) {
    id in s.agents &&
    var a := s.agents[id];
    a.cancelled && ((a.history == [Queued] && (a.phase.Waiting? || a.phase.Starting?))
                    || (a.history == [Queued, Stopped] && a.phase.Done?))
  }

  lemma NeverRunsStep(config: Config, s: State, step: Step, id: Id)
    requires NeverRuns(s, id) && Enabled(config, s, step)
    ensures NeverRuns(Next(config, s, step), id)
  {
    hide SpawnCheck, EffectiveMode, CanSpawnChildren, ChildFinished;
  }

  /** A step that claims a worktree name: a spawn of a writing subagent, whether it succeeds or fails. */
  predicate ClaimsName(config: Config, step: Step, name: nat) {
    || ((step.SpawnTop? || step.SpawnFails?) && step.mode.AllowsWrites() && config.shortId(step.id) == name)
    || (step.SpawnChild? && step.mode.AllowsWrites() && config.shortId(step.child) == name)
  }

  lemma ClaimedStep(config: Config, s: State, step: Step, name: nat)
    requires Enabled(config, s, step)
    ensures name in Next(config, s, step).claimed <==> name in s.claimed || ClaimsName(config, step, name)
  {
    hide CanSpawnChildren, ChildFinished, Driving;
    if step.SpawnTop? {
      SpawnNeverDowngrades(config, s, step.id, 1, step.mode, step.permission, step.worktree);
    } else if step.SpawnChild? {
      var parent := s.agents[step.id];
      SpawnNeverDowngrades(config, s, step.child, parent.depth + 1, step.mode, parent.permission, step.worktree);
    } else if step.SpawnFails? {
      SpawnNeverDowngrades(config, s, step.id, step.depth, step.mode, step.permission, step.worktree);
    }
  }

  /** Over whole runs: the claimed names are those of all writing subagents that were ever asked for, so a failed
      spawn keeps its name claimed, and no later spawn gets it. */
  lemma {:induction false} ClaimedMeans(config: Config, steps: seq<Step>, name: nat)
    requires Run(config, steps).Some?
    ensures name in Run(config, steps).value.claimed <==>
            exists k :: 0 <= k < |steps| && ClaimsName(config, steps[k], name)
  {
    hide Enabled, Next, ClaimsName;
    if steps != [] {
      var front, last := steps[..|steps| - 1], steps[|steps| - 1];
      ClaimedMeans(config, front, name);
      ClaimedStep(config, Run(config, front).value, last, name);
      if k :| 0 <= k < |steps| && ClaimsName(config, steps[k], name) {
        assert k < |front| ==> front[k] == steps[k];
      }
      if k :| 0 <= k < |front| && ClaimsName(config, front[k], name) {
        assert steps[k] == front[k];
      }
      assert steps[|front|] == last;
    }
  }

  /** A subagent stopped before it gets its permit never becomes `Running`, in any continuation. */
  lemma {:induction false} StoppedInQueue(config: Config, steps: seq<Step>, more: seq<Step>, id: Id)
    requires Run(config, steps).Some? && Run(config, steps + more).Some?
    requires id in Run(config, steps).value.agents
    requires Run(config, steps).value.agents[id].phase.Waiting? && Run(config, steps).value.agents[id].cancelled
    ensures id in Run(config, steps + more).value.agents
    ensures Run(config, steps + more).value.agents[id].history in {[Queued], [Queued, Stopped]}
  {
    RunInv(config, steps);
    assert LocalOk(Run(config, steps).value.agents[id]);
    NeverRunsOn(config, steps, more, id);
  }

  lemma {:induction false} NeverRunsOn(config: Config, steps: seq<Step>, more: seq<Step>, id: Id)
    requires Run(config, steps).Some? && Run(config, steps + more).Some? && NeverRuns(Run(config, steps).value, id)
    ensures NeverRuns(Run(config, steps + more).value, id)
    decreases |more|
  {
    hide NeverRuns, Enabled, Next;
    if more == [] {
      assert steps + more == steps;
    } else {
      var front := more[..|more| - 1];
      assert (steps + more)[..|steps + more| - 1] == steps + front;
      NeverRunsOn(config, steps, front, id);
      NeverRunsStep(config, Run(config, steps + front).value, more[|more| - 1], id);
    }
  }

  lemma RunSnoc(config: Config, steps: seq<Step>, s: State, step: Step)
    requires Run(config, steps) == Some(s) && Enabled(config, s, step)
    ensures Run(config, steps + [step]) == Some(Next(config, s, step))
  {
    hide Enabled, Next;
    assert (steps + [step])[..|steps + [step]| - 1] == steps;
  }

  /** And such a run exists: spawned, stopped in the queue, then given its permit. */
  lemma StoppedWhileQueued(config: Config)
    ensures var steps := [SpawnTop(0, Research, AutoMode, false), Stop(0), Acquire(0), Begin(0)];
            && Run(config, steps).Some? && 0 in Run(config, steps).value.agents
            && Run(config, steps).value.agents[0].history == [Queued, Stopped]
  {
    hide Run;
    var spawn := SpawnTop(0, Research, AutoMode, false);
    var queued := Agent(1, None, Research, AutoMode, None, Waiting, [Queued], false, None, 0, true);
    var permits := config.Permits();
    var stopped, starting := queued.(cancelled := true), queued.(cancelled := true, phase := Starting);
    var agents: map<Id, Agent> := map[];
    assert agents[0 := queued][0 := stopped] == agents[0 := stopped];
    assert agents[0 := stopped][0 := starting] == agents[0 := starting];
    assert [Queued] + [Stopped] == [Queued, Stopped];
    NothingYet(config);
    var r0: seq<Step> := [];
    var r1, r2, r3 := r0 + [spawn], r0 + [spawn] + [Stop(0)], r0 + [spawn] + [Stop(0)] + [Acquire(0)];
    RunSnoc(config, r0, Initial(config), spawn);
    RunSnoc(config, r1, State(agents[0 := queued], permits, {}), Stop(0));
    RunSnoc(config, r2, State(agents[0 := stopped], permits, {}), Acquire(0));
    RunSnoc(config, r3, State(agents[0 := starting], permits - 1, {}), Begin(0));
    assert r3 + [Begin(0)] == [spawn, Stop(0), Acquire(0), Begin(0)];
  }

  lemma NothingYet(config: Config)
    ensures Run(config, []) == Some(Initial(config))
  {
  }

  // ---------- Stuck states ----------

  ghost predicate Stuck(config: Config, s: State) {
    forall step: Step :: step.Internal() ==> !Enabled(config, s, step)
  }

  /** An agent that cannot move by itself: finished; queued with no permit left; waiting for a message
      nobody has sent; or blocked, uncancelled, on a child that is still queued, still busy, or
      finished but deleted before the parent looked. */
  predicate Idle(s: State, a: Agent) {
    match a.phase
    case Done => true
    case Waiting => s.available == 0
    case Starting => false
    case Active =>
      && !a.cancelled
      && (if a.blockedOn.Some? then !ChildFinished(s, a)
          else a.history != [] && a.Status().WaitingInput? && a.inbox == 0)
  }

  ghost predicate AllIdle(s: State) {
    forall id :: id in s.agents ==> Idle(s, s.agents[id])
  }

  lemma IdleCannotMove(config: Config, s: State, step: Step)
    requires AllLocalOk(s) && AllIdle(s) && step.Internal()
    ensures !Enabled(config, s, step)
  {
    hide Lifecycle;
    if step.id in s.agents {
      assert LocalOk(s.agents[step.id]) && Idle(s, s.agents[step.id]);
    }
  }

  lemma NotIdleMoves(config: Config, s: State, id: Id) returns (step: Step)
    requires AllLocalOk(s) && id in s.agents && !Idle(s, s.agents[id])
    ensures step.Internal() && Enabled(config, s, step)
  {
    hide Lifecycle;
    var a := s.agents[id];
    assert LocalOk(a);
    step := if a.phase.Waiting? then Acquire(id)
            else if a.phase.Starting? then Begin(id)
            else if a.cancelled then ObserveCancel(id)
            else if a.blockedOn.Some? then ChildDone(id)
            else if a.Status().WaitingInput? then Resume(id)
            else Fail(id);
  }

  /** A reachable state is stuck exactly when every agent is idle. */
  lemma StuckMeansIdle(config: Config, s: State)
    requires Inv(config, s)
    ensures Stuck(config, s) <==> AllIdle(s)
  {
    if AllIdle(s) {
      forall step: Step | step.Internal() ensures !Enabled(config, s, step) {
        IdleCannotMove(config, s, step);
      }
    }
    if !AllIdle(s) {
      var id :| id in s.agents && !Idle(s, s.agents[id]);
      var step := NotIdleMoves(config, s, id);
    }
  }

  /** Nobody is waiting for the user, and no finished child was deleted while its parent waits. */
  ghost predicate Undisturbed(s: State) {
    forall id :: id in s.agents && s.agents[id].phase.Active? ==>
      && s.agents[id].history != [] && !s.agents[id].Status().WaitingInput?
      && (s.agents[id].blockedOn.Some? && s.agents[id].blockedOn.value in s.agents ==>
            s.agents[s.agents[id].blockedOn.value].listed)
  }

  /** A permit holder that nesting has stopped: an uncancelled depth-1 parent blocked on a queued child. */
  predicate Starved(s: State, id: Id) {
    id in s.agents &&
    var a := s.agents[id];
    && a.phase.Active? && a.depth == 1 && !a.cancelled
    && a.blockedOn.Some? && a.blockedOn.value in s.agents && s.agents[a.blockedOn.value].phase.Waiting?
  }

  ghost predicate AllFinished(s: State) {
    forall id :: id in s.agents ==> s.agents[id].phase.Done?
  }

  /** The waits-for relation has no cycle, not even a chain: whoever a parent waits for waits for nobody. */
  lemma WaitsForIsFlat(config: Config, s: State, id: Id)
    requires Inv(config, s) && id in s.agents && s.agents[id].blockedOn.Some?
    ensures var child := s.agents[id].blockedOn.value;
            child != id && child in s.agents && s.agents[child].depth == 2 && s.agents[child].blockedOn.None?
  {
    var child := s.agents[id].blockedOn.value;
    assert FamilyOk(config, s, id);
    assert FamilyOk(config, s, child);
  }

  /** In an undisturbed stuck state, every permit holder is starved. */
  lemma HoldersStarve(config: Config, s: State, id: Id)
    requires Inv(config, s) && Undisturbed(s) && AllIdle(s) && id in Holders(s)
    ensures Starved(s, id)
  {
    hide Lifecycle;
    var a := s.agents[id];
    assert Idle(s, a) && LocalOk(a) && FamilyOk(config, s, id);
    var child := a.blockedOn.value;
    WaitsForIsFlat(config, s, id);
    assert Idle(s, s.agents[child]) && LocalOk(s.agents[child]);
  }

  /** The exact characterization. With nobody waiting for input and no awaited record deleted, a
      reachable state has no enabled step other than those of the outside world if and only if
      everything has finished, or every permit is taken and every holder is a depth-1 parent blocked on
      a child that is still queued for a permit. */
  lemma StuckExactly(config: Config, s: State)
    requires Inv(config, s) && Undisturbed(s)
    ensures Stuck(config, s) <==>
            AllFinished(s) || (s.available == 0 && forall id :: id in Holders(s) ==> Starved(s, id))
  {
    hide Inv, Starved, Undisturbed;
    StuckMeansIdle(config, s);
    if AllIdle(s) {
      forall id | id in Holders(s) ensures Starved(s, id) {
        HoldersStarve(config, s, id);
      }
      if !AllFinished(s) {
        SomeoneWaits(config, s);
      }
    }
    if AllFinished(s) || (s.available == 0 && forall id :: id in Holders(s) ==> Starved(s, id)) {
      forall id | id in s.agents ensures Idle(s, s.agents[id]) {
        StarvedIsIdle(config, s, id);
      }
    }
  }

  lemma SomeoneWaits(config: Config, s: State)
    requires Inv(config, s) && Undisturbed(s) && AllIdle(s) && !AllFinished(s)
    ensures s.available == 0
  {
    var id :| id in s.agents && !s.agents[id].phase.Done?;
    assert Idle(s, s.agents[id]);
    if !s.agents[id].phase.Waiting? {
      assert id in Holders(s);
      HoldersStarve(config, s, id);
      assert Idle(s, s.agents[s.agents[id].blockedOn.value]);
    }
  }

  lemma StarvedIsIdle(config: Config, s: State, id: Id)
    requires Inv(config, s) && id in s.agents
    requires s.agents[id].phase.Done? || (s.available == 0 && (id in Holders(s) ==> Starved(s, id)))
    ensures Idle(s, s.agents[id])
  {
  }

  ghost function BlockedParents(s: State): set<Id> {
    set id | id in s.agents && Starved(s, id)
  }

  /** Fewer starved parents than permits implies progress: unless everything has finished, some worker
      can take a step. */
  lemma FewBlockedMeansProgress(config: Config, steps: seq<Step>) returns (step: Step)
    requires Run(config, steps).Some?
    requires var s := Run(config, steps).value;
             Undisturbed(s) && !AllFinished(s) && |BlockedParents(s)| < config.Permits()
    ensures step.Internal() && Enabled(config, Run(config, steps).value, step)
  {
    hide Inv, Enabled, Undisturbed, Starved;
    var s := Run(config, steps).value;
    RunInv(config, steps);
    InvPermits(config, s);
    StuckExactly(config, s);
    if Stuck(config, s) {
      HoldersInAgents(s);
      assert Holders(s) <= BlockedParents(s);
      SubsetSize(Holders(s), BlockedParents(s));
    }
    step :| step.Internal() && Enabled(config, s, step);
  }

  lemma InvPermits(config: Config, s: State)
    requires Inv(config, s)
    ensures s.available + |Holders(s)| == config.Permits()
  {
  }

  lemma HoldersInAgents(s: State)
    ensures forall id :: id in Holders(s) ==> id in s.agents
  {
  }

  lemma SubsetSize(a: set<Id>, b: set<Id>)
    requires a <= b
    ensures |a| <= |b|
  {
    assert b == a + (b - a);
  }
}
