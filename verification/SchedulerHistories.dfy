/** What the records of subagents say about the run of the scheduler: which step wrote each status, who was
    cancelled, which messages were read, and which requests are refused. */
module SchedulerHistories {
  import opened Prelude
  import opened Scheduler
  import opened SchedulerTheorems

  // ---------- Statuses ----------

  /** Exactly these steps about a subagent record this status. */
  predicate Causes(step: Step, id: Id, cancelled: bool, status: Status) {
    match status
    case Queued => (step.SpawnTop? && step.id == id) || (step.SpawnChild? && step.child == id)
    case Running => (step == Begin(id) && !cancelled) || step == Resume(id)
    case WaitingInput => step == AskInput(id)
    case Completed => step == Complete(id)
    case Failed => step == Fail(id)
    case TimedOut => step == Timeout(id)
    case Stopped => step == ObserveCancel(id) || (step == Begin(id) && cancelled)
    case Interrupted => false
  }

  function HistoryAt(config: Config, steps: seq<Step>, id: Id): seq<Status> {
    var s := Run(config, steps);
    if s.Some? && id in s.value.agents then s.value.agents[id].history else []
  }

  predicate CancelledAt(config: Config, steps: seq<Step>, id: Id) {
    var s := Run(config, steps);
    s.Some? && id in s.value.agents && s.value.agents[id].cancelled
  }

  function HistoryOf(s: State, id: Id): seq<Status> {
    if id in s.agents then s.agents[id].history else []
  }

  /** A history is kept, or gets the one status the step causes. */
  ghost predicate Recorded(step: Step, id: Id, cancelled: bool, before: seq<Status>, after: seq<Status>) {
    if after == before then forall status :: !Causes(step, id, cancelled, status)
    else
      && |after| == |before| + 1 && after[..|before|] == before
      && forall status :: Causes(step, id, cancelled, status) <==> status == after[|before|]
  }

  lemma OwnStepRecords(a: Agent, step: Step)
    requires !step.Spawns()
    ensures Recorded(step, step.id, a.cancelled, a.history, Stepped(a, step).history)
  {
  }

  lemma OtherStepRecords(step: Step, id: Id, cancelled: bool, history: seq<Status>)
    requires if step.SpawnChild? then step.child != id else step.SpawnTop? ==> step.id != id
    requires step.Spawns() || step.id != id
    ensures Recorded(step, id, cancelled, history, history)
  {
  }

  lemma SpawnRecords(step: Step, id: Id)
    requires (step.SpawnTop? && step.id == id) || (step.SpawnChild? && step.child == id)
    ensures Recorded(step, id, false, [], [Queued])
  {
  }

  lemma NextHistory(config: Config, s: State, step: Step, id: Id)
    requires Enabled(config, s, step)
    ensures HistoryOf(Next(config, s, step), id) ==
            if (step.SpawnTop? && step.id == id) || (step.SpawnChild? && step.child == id) then [Queued]
            else if step.Spawns() || step.id != id then HistoryOf(s, id)
            else Stepped(s.agents[id], step).history
    ensures (step.SpawnTop? && step.id == id) || (step.SpawnChild? && step.child == id) ==> id !in s.agents
    ensures !step.Spawns() ==> step.id in s.agents
  {
    hide SpawnCheck, EffectiveMode, CanSpawnChildren, ChildFinished, Driving, Stepped;
  }

  lemma StepRecords(config: Config, s: State, step: Step, id: Id)
    requires Enabled(config, s, step)
    ensures var cancelled := id in s.agents && s.agents[id].cancelled;
            Recorded(step, id, cancelled, HistoryOf(s, id), HistoryOf(Next(config, s, step), id))
  {
    hide Enabled, Next, Recorded, Stepped;
    NextHistory(config, s, step, id);
    if (step.SpawnTop? && step.id == id) || (step.SpawnChild? && step.child == id) {
      SpawnRecords(step, id);
    } else if step.Spawns() || step.id != id {
      OtherStepRecords(step, id, id in s.agents && s.agents[id].cancelled, HistoryOf(s, id));
    } else {
      OwnStepRecords(s.agents[id], step);
    }
  }

  lemma RunFront(config: Config, steps: seq<Step>)
    requires Run(config, steps).Some? && steps != []
    ensures var front, last := steps[..|steps| - 1], steps[|steps| - 1];
            && Run(config, front).Some? && Enabled(config, Run(config, front).value, last)
            && Run(config, steps) == Some(Next(config, Run(config, front).value, last))
  {
    hide Enabled, Next;
  }

  /** Over whole runs: every status on record was written by one step of the run, and it is the one status which that
      step causes; the history before it was the one the step found. */
  lemma {:induction false} StatusCause(config: Config, steps: seq<Step>, id: Id, i: nat) returns (k: nat)
    requires Run(config, steps).Some? && i < |HistoryAt(config, steps, id)|
    ensures k < |steps| && Run(config, steps[..k]).Some?
    ensures HistoryAt(config, steps[..k], id) == HistoryAt(config, steps, id)[..i]
    ensures forall status ::
              Causes(steps[k], id, CancelledAt(config, steps[..k], id), status) <==>
              status == HistoryAt(config, steps, id)[i]
    decreases |steps|
  {
    hide Enabled, Next, Causes;
    if steps == [] {
      assert false;
    } else {
      var front, last := steps[..|steps| - 1], steps[|steps| - 1];
      RunFront(config, steps);
      StepRecords(config, Run(config, front).value, last, id);
      var before, after := HistoryAt(config, front, id), HistoryAt(config, steps, id);
      if i < |before| {
        k := StatusCause(config, front, id, i);
        assert front[..k] == steps[..k] && before[..i] == after[..i] && before[i] == after[i];
      } else {
        k := |front|;
        assert steps[..k] == front && before == after[..i];
      }
    }
  }

  /** The final status of a finished subagent, and so its whole outcome: completed, failed or timed out exactly when
      the step that finished it was that one, and stopped exactly when it observed its cancellation, or was given its
      permit after it. Nothing is recorded afterwards, and nothing finishes as interrupted. */
  lemma FinalStatus(config: Config, steps: seq<Step>, id: Id) returns (k: nat)
    requires Run(config, steps).Some? && id in Run(config, steps).value.agents
    requires Run(config, steps).value.agents[id].phase.Done?
    ensures k < |steps| && Run(config, steps[..k]).Some? && id in Run(config, steps[..k]).value.agents
    ensures !Run(config, steps[..k]).value.agents[id].phase.Done?
    ensures var history, before := HistoryAt(config, steps, id), Run(config, steps[..k]).value.agents[id];
            && history != [] && before.history == history[..|history| - 1]
            && var status := history[|history| - 1];
               && (status == Completed <==> steps[k] == Complete(id))
               && (status == Failed <==> steps[k] == Fail(id))
               && (status == TimedOut <==> steps[k] == Timeout(id))
               && (status == Stopped <==> steps[k] == ObserveCancel(id) || (steps[k] == Begin(id) && before.cancelled))
               && status in {Completed, Failed, TimedOut, Stopped}
  {
    hide Run, Follows;
    RunInv(config, steps);
    var history := HistoryAt(config, steps, id);
    assert LocalOk(Run(config, steps).value.agents[id]);
    k := StatusCause(config, steps, id, |history| - 1);
    RunInv(config, steps[..k]);
    var status := history[|history| - 1];
    assert Causes(steps[k], id, CancelledAt(config, steps[..k], id), status);
    FinishedIsLater(history);
    assert HistoryAt(config, steps[..k], id) != [];
    var before := Run(config, steps[..k]).value.agents[id];
    assert LocalOk(before);
    assert before.history[|history| - 2] == history[|history| - 2];
    NotLast(history);
  }

  lemma FinishedIsLater(history: seq<Status>)
    requires Lifecycle(history) && history[|history| - 1].IsTerminal()
    ensures |history| > 1
  {
  }

  lemma NotLast(history: seq<Status>)
    requires Lifecycle(history) && |history| > 1
    ensures !history[|history| - 2].IsTerminal()
  {
    assert Follows(history[|history| - 2], history[|history| - 1]);
  }

  /** Running is recorded only by a worker that begins uncancelled or resumes, and waiting for input only by asking. */
  lemma RunningAndWaiting(config: Config, steps: seq<Step>, id: Id, i: nat) returns (k: nat)
    requires Run(config, steps).Some? && i < |HistoryAt(config, steps, id)|
    ensures k < |steps| && HistoryAt(config, steps[..k], id) == HistoryAt(config, steps, id)[..i]
    ensures var status := HistoryAt(config, steps, id)[i];
            && (status == Running <==>
                (steps[k] == Begin(id) && !CancelledAt(config, steps[..k], id)) || steps[k] == Resume(id))
            && (status == WaitingInput <==> steps[k] == AskInput(id))
  {
    k := StatusCause(config, steps, id, i);
    assert Causes(steps[k], id, CancelledAt(config, steps[..k], id), HistoryAt(config, steps, id)[i]);
  }

  // ---------- Cancellation ----------

  lemma CancelStep(config: Config, s: State, step: Step, id: Id)
    requires Enabled(config, s, step)
    ensures id in Next(config, s, step).agents && Next(config, s, step).agents[id].cancelled <==>
            (id in s.agents && s.agents[id].cancelled) || step == Stop(id) || step == Timeout(id)
  {
    hide SpawnCheck, EffectiveMode, CanSpawnChildren, ChildFinished, Driving;
  }

  /** A subagent is cancelled exactly when it was stopped or timed out at some point; that is never undone, and
      stopping one does not cancel another. */
  lemma {:induction false} CancelledMeans(config: Config, steps: seq<Step>, id: Id)
    requires Run(config, steps).Some?
    ensures CancelledAt(config, steps, id) <==>
            exists k :: 0 <= k < |steps| && (steps[k] == Stop(id) || steps[k] == Timeout(id))
  {
    hide Enabled, Next;
    if steps != [] {
      var front, last := steps[..|steps| - 1], steps[|steps| - 1];
      RunFront(config, steps);
      CancelledMeans(config, front, id);
      CancelStep(config, Run(config, front).value, last, id);
      assert forall k :: 0 <= k < |front| ==> front[k] == steps[k];
      assert steps[|front|] == last;
    }
  }

  lemma StopNeedsCancel(config: Config, s: State, step: Step)
    requires Enabled(config, s, step) && step.ObserveCancel?
    ensures step.id in s.agents && s.agents[step.id].cancelled
  {
    hide SpawnCheck, ChildFinished, CanSpawnChildren, Driving;
  }

  lemma DoneStep(config: Config, s: State, step: Step, id: Id)
    requires Enabled(config, s, step)
    ensures id in s.agents && s.agents[id].phase.Done? ==>
              id in Next(config, s, step).agents && Next(config, s, step).agents[id].phase.Done?
    ensures step == Timeout(id) ==> id in Next(config, s, step).agents && Next(config, s, step).agents[id].phase.Done?
  {
    hide SpawnCheck, EffectiveMode, CanSpawnChildren, ChildFinished;
  }

  lemma {:induction false} TimeoutFinishes(config: Config, steps: seq<Step>, j: nat, id: Id)
    requires Run(config, steps).Some? && j < |steps| && steps[j] == Timeout(id)
    ensures var s := Run(config, steps).value; id in s.agents && s.agents[id].phase.Done?
  {
    hide Enabled, Next;
    var front, last := steps[..|steps| - 1], steps[|steps| - 1];
    RunFront(config, steps);
    DoneStep(config, Run(config, front).value, last, id);
    if j < |front| {
      TimeoutFinishes(config, front, j, id);
    }
  }

  /** Nobody ends as stopped who was not asked to stop. */
  lemma StoppedWasAsked(config: Config, steps: seq<Step>, id: Id) returns (j: nat)
    requires Run(config, steps).Some? && id in Run(config, steps).value.agents
    requires Run(config, steps).value.agents[id].phase.Done?
    requires HistoryAt(config, steps, id) != []
    requires HistoryAt(config, steps, id)[|HistoryAt(config, steps, id)| - 1] == Stopped
    ensures j < |steps| && steps[j] == Stop(id)
  {
    hide Run, Enabled;
    var k := FinalStatus(config, steps, id);
    StepTaken(config, steps, k);
    var before := Run(config, steps[..k]).value;
    if steps[k] == ObserveCancel(id) {
      StopNeedsCancel(config, before, steps[k]);
    }
    assert CancelledAt(config, steps[..k], id);
    CancelledMeans(config, steps[..k], id);
    j :| 0 <= j < k && (steps[..k][j] == Stop(id) || steps[..k][j] == Timeout(id));
    if steps[..k][j] == Timeout(id) {
      TimeoutFinishes(config, steps[..k], j, id);
    }
  }

  // ---------- Deleted records ----------

  lemma ListedStep(config: Config, s: State, step: Step, id: Id)
    requires Inv(config, s) && Enabled(config, s, step) && id in Next(config, s, step).agents
    ensures Next(config, s, step).agents[id].listed <==>
            (id in s.agents ==> s.agents[id].listed) && step != Cleanup(id)
  {
    hide SpawnCheck, EffectiveMode, CanSpawnChildren, PermitsOk, AllFamilyOk, WorktreesOk, Lifecycle;
    if id in s.agents {
      assert LocalOk(s.agents[id]);
    }
  }

  /** A record is there until it is deleted, and deleting is final. */
  lemma {:induction false} ListedMeans(config: Config, steps: seq<Step>, id: Id)
    requires Run(config, steps).Some? && id in Run(config, steps).value.agents
    ensures Run(config, steps).value.agents[id].listed <==> Cleanup(id) !in steps
  {
    hide Enabled, Next, Inv;
    if steps != [] {
      var front, last := steps[..|steps| - 1], steps[|steps| - 1];
      RunFront(config, steps);
      RunInv(config, front);
      var before := Run(config, front).value;
      ListedStep(config, before, last, id);
      if id in before.agents {
        ListedMeans(config, front, id);
      } else {
        NotYetDeleted(config, front, id);
      }
      assert steps == front + [last];
    }
  }

  lemma {:induction false} NotYetDeleted(config: Config, steps: seq<Step>, id: Id)
    requires Run(config, steps).Some? && id !in Run(config, steps).value.agents
    ensures Cleanup(id) !in steps
  {
    hide Enabled, Next;
    if steps != [] {
      var front, last := steps[..|steps| - 1], steps[|steps| - 1];
      RunFront(config, steps);
      AgentsStay(config, Run(config, front).value, last, id);
      NotYetDeleted(config, front, id);
      assert steps == front + [last];
    }
  }

  lemma AgentsStay(config: Config, s: State, step: Step, id: Id)
    requires Enabled(config, s, step)
    ensures id in s.agents ==> id in Next(config, s, step).agents
    ensures step == Cleanup(id) ==> id in s.agents
  {
    hide SpawnCheck, EffectiveMode, CanSpawnChildren, ChildFinished, Driving;
  }

  // ---------- Messages ----------

  /** Every message to the subagent has been read: a later step took up its inbox. */
  ghost predicate AllRead(steps: seq<Step>, id: Id) {
    forall j :: 0 <= j < |steps| && steps[j] == SendMessage(id) ==>
      exists l :: j < l < |steps| && (steps[l] == Continue(id) || steps[l] == Resume(id))
  }

  lemma InboxStep(config: Config, s: State, step: Step, id: Id)
    requires Enabled(config, s, step)
    ensures var s' := Next(config, s, step);
            id in s'.agents ==>
              if step == SendMessage(id) then id in s.agents && s'.agents[id].inbox == s.agents[id].inbox + 1
              else if step == Continue(id) || step == Resume(id) then s'.agents[id].inbox == 0
              else s'.agents[id].inbox == if id in s.agents then s.agents[id].inbox else 0
    ensures id in s.agents ==> id in Next(config, s, step).agents
    ensures step == SendMessage(id) || step == Continue(id) || step == Resume(id) ==> id in s.agents
  {
    hide SpawnCheck, EffectiveMode, CanSpawnChildren, ChildFinished, Driving;
  }

  lemma AllReadStep(steps: seq<Step>, id: Id)
    requires steps != []
    ensures var front, last := steps[..|steps| - 1], steps[|steps| - 1];
            AllRead(steps, id) <==>
            last != SendMessage(id) && (AllRead(front, id) || last == Continue(id) || last == Resume(id))
  {
    var n := |steps| - 1;
    var front, last := steps[..n], steps[n];
    if last != SendMessage(id) && (last == Continue(id) || last == Resume(id)) {
      forall j | 0 <= j < |steps| && steps[j] == SendMessage(id)
        ensures exists l :: j < l < |steps| && (steps[l] == Continue(id) || steps[l] == Resume(id))
      {
        assert j < n && steps[n] == last;
      }
    } else if last != SendMessage(id) {
      if AllRead(front, id) {
        forall j | 0 <= j < |steps| && steps[j] == SendMessage(id)
          ensures exists l :: j < l < |steps| && (steps[l] == Continue(id) || steps[l] == Resume(id))
        {
          assert front[j] == SendMessage(id);
          var l :| j < l < |front| && (front[l] == Continue(id) || front[l] == Resume(id));
          assert steps[l] == front[l];
        }
      }
      if AllRead(steps, id) {
        forall j | 0 <= j < |front| && front[j] == SendMessage(id)
          ensures exists l :: j < l < |front| && (front[l] == Continue(id) || front[l] == Resume(id))
        {
          assert steps[j] == SendMessage(id);
          var l :| j < l < |steps| && (steps[l] == Continue(id) || steps[l] == Resume(id));
          assert front[l] == steps[l];
        }
      }
    } else {
      assert steps[n] == SendMessage(id);
    }
  }

  lemma {:induction false} InboxMeans(config: Config, steps: seq<Step>, id: Id)
    requires Run(config, steps).Some?
    ensures var s := Run(config, steps).value;
            if id in s.agents then s.agents[id].inbox == 0 <==> AllRead(steps, id) else AllRead(steps, id)
  {
    hide Enabled, Next, AllRead;
    if steps == [] {
      NothingSent(id);
    } else {
      var front, last := steps[..|steps| - 1], steps[|steps| - 1];
      RunFront(config, steps);
      InboxMeans(config, front, id);
      InboxStep(config, Run(config, front).value, last, id);
      AllReadStep(steps, id);
    }
  }

  lemma NothingSent(id: Id)
    ensures AllRead([], id)
  {
  }

  lemma {:induction false} StepTaken(config: Config, steps: seq<Step>, k: nat)
    requires Run(config, steps).Some? && k < |steps|
    ensures Run(config, steps[..k]).Some? && Enabled(config, Run(config, steps[..k]).value, steps[k])
  {
    hide Enabled, Next;
    var front := steps[..|steps| - 1];
    RunFront(config, steps);
    if k < |front| {
      StepTaken(config, front, k);
      assert front[..k] == steps[..k];
    } else {
      assert steps[..k] == front;
    }
  }

  lemma DrivingNeedsInbox(config: Config, s: State, step: Step)
    requires Enabled(config, s, step)
    ensures step.Complete? ==> step.id in s.agents && s.agents[step.id].inbox == 0
    ensures step.Continue? || step.Resume? ==> step.id in s.agents && s.agents[step.id].inbox > 0
  {
    hide SpawnCheck, ChildFinished, CanSpawnChildren;
  }

  /** No message is lost to a completion: a subagent completes only once every message sent to it before has been taken
      up, and it goes on or resumes only for a message that has not. */
  lemma CompletesWhenRead(config: Config, steps: seq<Step>, k: nat, id: Id)
    requires Run(config, steps).Some? && k < |steps|
    ensures steps[k] == Complete(id) ==> AllRead(steps[..k], id)
    ensures steps[k] == Continue(id) || steps[k] == Resume(id) ==> !AllRead(steps[..k], id)
  {
    hide Enabled, Run, AllRead;
    StepTaken(config, steps, k);
    InboxMeans(config, steps[..k], id);
    DrivingNeedsInbox(config, Run(config, steps[..k]).value, steps[k]);
  }

  // ---------- What is possible when ----------

  /** The subagent is inside a delegation: its last one is neither over nor given up. */
  ghost predicate Waits(steps: seq<Step>, id: Id) {
    exists j :: 0 <= j < |steps| && steps[j].SpawnChild? && steps[j].id == id &&
      forall l :: j < l < |steps| ==> steps[l] != ChildDone(id) && steps[l] != ChildWaitCancelled(id)
  }

  lemma WaitsStep(steps: seq<Step>, id: Id)
    requires steps != []
    ensures var front, last := steps[..|steps| - 1], steps[|steps| - 1];
            Waits(steps, id) <==>
            || (last.SpawnChild? && last.id == id)
            || (Waits(front, id) && last != ChildDone(id) && last != ChildWaitCancelled(id))
  {
    var n := |steps| - 1;
    var front, last := steps[..n], steps[n];
    if Waits(steps, id) && !(last.SpawnChild? && last.id == id) {
      var j :| 0 <= j < |steps| && steps[j].SpawnChild? && steps[j].id == id &&
        forall l :: j < l < |steps| ==> steps[l] != ChildDone(id) && steps[l] != ChildWaitCancelled(id);
      assert front[j] == steps[j] && steps[n] == last;
      assert forall l :: j < l < n ==> front[l] == steps[l];
    }
    if last.SpawnChild? && last.id == id {
      assert steps[n].SpawnChild?;
    }
    if Waits(front, id) && last != ChildDone(id) && last != ChildWaitCancelled(id) {
      var j :| 0 <= j < n && front[j].SpawnChild? && front[j].id == id &&
        forall l :: j < l < n ==> front[l] != ChildDone(id) && front[l] != ChildWaitCancelled(id);
      assert steps[j] == front[j];
      assert forall l :: j < l < n ==> steps[l] == front[l];
    }
  }

  lemma BlockedStep(config: Config, s: State, step: Step, id: Id)
    requires Enabled(config, s, step)
    ensures var s' := Next(config, s, step);
            id in s'.agents && !s'.agents[id].phase.Done? ==>
              && (id in s.agents ==> !s.agents[id].phase.Done?)
              && (s'.agents[id].blockedOn.Some? <==>
                  || (step.SpawnChild? && step.id == id)
                  || (id in s.agents && s.agents[id].blockedOn.Some? && step != ChildDone(id)
                      && step != ChildWaitCancelled(id)))
    ensures step.SpawnChild? ==> step.id in s.agents
  {
    hide SpawnCheck, EffectiveMode, CanSpawnChildren, ChildFinished, Driving;
  }

  lemma {:induction false} BlockedMeans(config: Config, steps: seq<Step>, id: Id)
    requires Run(config, steps).Some?
    ensures var s := Run(config, steps).value;
            && (id !in s.agents ==> !Waits(steps, id))
            && (id in s.agents && !s.agents[id].phase.Done? ==> (s.agents[id].blockedOn.Some? <==> Waits(steps, id)))
  {
    hide Enabled, Next, Waits;
    if steps == [] {
      NobodyWaits(id);
    } else {
      var front, last := steps[..|steps| - 1], steps[|steps| - 1];
      RunFront(config, steps);
      BlockedMeans(config, front, id);
      BlockedStep(config, Run(config, front).value, last, id);
      AgentsStay(config, Run(config, front).value, last, id);
      WaitsStep(steps, id);
    }
  }

  lemma NobodyWaits(id: Id)
    ensures !Waits([], id)
  {
  }

  lemma WaitingStep(config: Config, s: State, step: Step, id: Id)
    requires Enabled(config, s, step)
    ensures var s' := Next(config, s, step);
            id in s'.agents ==>
              (s'.agents[id].phase.Waiting? <==>
               step != Acquire(id) && (id in s.agents ==> s.agents[id].phase.Waiting?))
    ensures step == Acquire(id) ==> id in s.agents
  {
    hide SpawnCheck, EffectiveMode, CanSpawnChildren, ChildFinished;
  }

  lemma {:induction false} WaitingMeans(config: Config, steps: seq<Step>, id: Id)
    requires Run(config, steps).Some?
    ensures var s := Run(config, steps).value;
            if id in s.agents then s.agents[id].phase.Waiting? <==> Acquire(id) !in steps else Acquire(id) !in steps
  {
    hide Enabled, Next;
    if steps != [] {
      var front, last := steps[..|steps| - 1], steps[|steps| - 1];
      RunFront(config, steps);
      WaitingMeans(config, front, id);
      WaitingStep(config, Run(config, front).value, last, id);
      AgentsStay(config, Run(config, front).value, last, id);
      assert steps == front + [last];
    }
  }

  /** The steps of a worker by status; `read`: no message is left, `held`: the permit is there. */
  lemma WorkerSteps(config: Config, s: State, id: Id, read: bool, held: bool)
    requires id in s.agents && LocalOk(s.agents[id])
    requires read <==> s.agents[id].inbox == 0
    requires held <==> !s.agents[id].phase.Waiting?
    ensures var a := s.agents[id];
            var driving := a.Status() == Running && a.blockedOn == None;
            && (Enabled(config, s, Acquire(id)) <==> a.Status() == Queued && !held && s.available > 0)
            && (Enabled(config, s, Begin(id)) <==> a.Status() == Queued && held)
            && (Enabled(config, s, Complete(id)) <==> driving && read)
            && (Enabled(config, s, Continue(id)) <==> driving && !read)
            && (Enabled(config, s, Fail(id)) <==> driving)
            && (Enabled(config, s, AskInput(id)) <==> driving)
            && (Enabled(config, s, Resume(id)) <==> a.Status() == WaitingInput && !read)
  {
    hide SpawnCheck, EffectiveMode, CanSpawnChildren, ChildFinished, Lifecycle;
  }

  lemma OtherSteps(config: Config, s: State, id: Id)
    requires id in s.agents && LocalOk(s.agents[id])
    ensures var a := s.agents[id];
            var started, open := a.Status() in {Running, WaitingInput}, a.Status() in {Queued, Running, WaitingInput};
            && (Enabled(config, s, ObserveCancel(id)) <==> started && a.cancelled)
            && (Enabled(config, s, Timeout(id)) <==> started)
            && (Enabled(config, s, SendMessage(id)) <==> open)
            && (Enabled(config, s, Stop(id)) <==> open)
            && (Enabled(config, s, Cleanup(id)) <==> !open && a.listed)
            && (Enabled(config, s, ChildWaitCancelled(id)) <==>
                a.Status() == Running && a.blockedOn != None && a.cancelled)
  {
    hide SpawnCheck, EffectiveMode, CanSpawnChildren, ChildFinished, Driving, Lifecycle;
  }

  /** Which steps a subagent's status and the steps so far leave possible, each exactly. */
  lemma PossibleSteps(config: Config, steps: seq<Step>, id: Id)
    requires Run(config, steps).Some? && id in Run(config, steps).value.agents
    ensures var s, history := Run(config, steps).value, HistoryAt(config, steps, id);
            && history != []
            && var slots := if config.maxConcurrent > 0 then config.maxConcurrent else 1;
               var status, cancelled := history[|history| - 1], CancelledAt(config, steps, id);
               var driving := status == Running && !Waits(steps, id);
               var started, open := status in {Running, WaitingInput}, status in {Queued, Running, WaitingInput};
               && (Enabled(config, s, Acquire(id)) <==>
                   status == Queued && Acquire(id) !in steps && |Holders(s)| < slots)
               && (Enabled(config, s, Begin(id)) <==> status == Queued && Acquire(id) in steps)
               && (Enabled(config, s, Complete(id)) <==> driving && AllRead(steps, id))
               && (Enabled(config, s, Continue(id)) <==> driving && !AllRead(steps, id))
               && (Enabled(config, s, Fail(id)) <==> driving)
               && (Enabled(config, s, AskInput(id)) <==> driving)
               && (Enabled(config, s, Resume(id)) <==> status == WaitingInput && !AllRead(steps, id))
               && (Enabled(config, s, ObserveCancel(id)) <==> started && cancelled)
               && (Enabled(config, s, ChildWaitCancelled(id)) <==> status == Running && Waits(steps, id) && cancelled)
               && (Enabled(config, s, Timeout(id)) <==> started)
               && (Enabled(config, s, SendMessage(id)) <==> open)
               && (Enabled(config, s, Stop(id)) <==> open)
               && (Enabled(config, s, Cleanup(id)) <==> !open && Cleanup(id) !in steps)
  {
    hide Run, Lifecycle, AllRead, Waits, Holders, Enabled;
    RunInv(config, steps);
    PermitBound(config, steps);
    InboxMeans(config, steps, id);
    BlockedMeans(config, steps, id);
    WaitingMeans(config, steps, id);
    ListedMeans(config, steps, id);
    var s := Run(config, steps).value;
    assert LocalOk(s.agents[id]);
    WorkerSteps(config, s, id, AllRead(steps, id), Acquire(id) in steps);
    OtherSteps(config, s, id);
  }

  // ---------- Requests ----------

  /** Which spawn requests are accepted: within the depth, with a worktree only to implement, implementing only outside
      plan mode and only under an unclaimed name. */
  lemma SpawnAccepted(config: Config, s: State, id: Id, depth: nat, mode: Mode, permission: Permission, worktree: bool)
    ensures SpawnCheck(config, s, id, depth, mode, permission, worktree) == None <==>
            && depth <= 2 && (worktree ==> mode == Implement)
            && (mode == Implement ==> permission != PlanMode && config.shortId(id) !in s.claimed)
  {
  }

  /** Which error a refused request gets: the first of the four that applies. */
  lemma SpawnRefused(config: Config, s: State, id: Id, depth: nat, mode: Mode, permission: Permission, worktree: bool)
    ensures var check := SpawnCheck(config, s, id, depth, mode, permission, worktree);
            && (check == Some(MaxDepthExceeded) <==> depth > 2)
            && (check == Some(WorktreeRequiresImplementMode) <==> depth <= 2 && worktree && mode != Implement)
            && (check == Some(ImplementDeniedInPlanMode) <==> depth <= 2 && mode == Implement && permission == PlanMode)
            && (check == Some(WorktreeInUse) <==>
                depth <= 2 && mode == Implement && permission != PlanMode && config.shortId(id) in s.claimed)
  {
  }

  lemma SpawnSteps(config: Config, s: State, id: Id, child: Id, mode: Mode, worktree: bool)
    requires id in s.agents && LocalOk(s.agents[id]) && FamilyOk(config, s, id)
    ensures var a := s.agents[id];
            Enabled(config, s, SpawnChild(id, child, mode, worktree)) <==>
            && child !in s.agents && a.Status() == Running && a.blockedOn == None && a.depth == 1
            && config.maxConcurrent >= 2
            && SpawnCheck(config, s, child, 2, mode, a.permission, worktree) == None
    ensures var a := s.agents[id];
            Enabled(config, s, ChildDone(id)) <==>
            && a.Status() == Running && a.blockedOn.Some? && a.blockedOn.value in s.agents
            && s.agents[a.blockedOn.value].phase.Done? && s.agents[a.blockedOn.value].listed
  {
    hide SpawnCheck, EffectiveMode, Lifecycle;
  }

  /** Who may delegate and until when: exactly a running depth-1 subagent that does not wait already, with at least two
      slots, to a new child whose request is accepted; and exactly a finished child whose record is there ends its
      wait. */
  lemma Delegation(config: Config, steps: seq<Step>, id: Id, child: Id, mode: Mode, worktree: bool)
    requires Run(config, steps).Some? && id in Run(config, steps).value.agents
    ensures var s, history := Run(config, steps).value, HistoryAt(config, steps, id);
            var a := s.agents[id];
            && history != []
            && (Enabled(config, s, SpawnChild(id, child, mode, worktree)) <==>
                && child !in s.agents && history[|history| - 1] == Running && !Waits(steps, id) && a.depth == 1
                && config.maxConcurrent >= 2 && (worktree ==> mode == Implement)
                && (mode == Implement ==> a.permission != PlanMode && config.shortId(child) !in s.claimed))
            && (Enabled(config, s, ChildDone(id)) <==>
                && history[|history| - 1] == Running && a.blockedOn.Some? && Cleanup(a.blockedOn.value) !in steps
                && var ended := HistoryAt(config, steps, a.blockedOn.value);
                   ended != [] && ended[|ended| - 1] in {Completed, Failed, TimedOut, Stopped, Interrupted})
  {
    hide Run, SpawnCheck, Enabled, Waits, Lifecycle;
    RunInv(config, steps);
    BlockedMeans(config, steps, id);
    var s := Run(config, steps).value;
    var a := s.agents[id];
    assert LocalOk(a) && FamilyOk(config, s, id);
    SpawnSteps(config, s, id, child, mode, worktree);
    SpawnAccepted(config, s, child, 2, mode, a.permission, worktree);
    if a.blockedOn.Some? && a.blockedOn.value in s.agents {
      assert LocalOk(s.agents[a.blockedOn.value]);
      ListedMeans(config, steps, a.blockedOn.value);
    }
  }
}
