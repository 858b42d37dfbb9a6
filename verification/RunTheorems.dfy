/** What holds of every run, for every environment: read off the logs and completions that `Drive` is
    proved to produce. */
module RunTheorems {
  import opened Prelude
  import opened Progress
  import opened RunLog
  import opened AgentRun

  // ---------- Validation and recovery ----------

  /** Read over the whole trace: some change has no passing validation after it. */
  lemma {:induction false} UnvalidatedMeans(trace: seq<Event>)
    ensures Unvalidated(trace) <==>
            exists i :: 0 <= i < |trace| && IsChange(trace[i].result)
              && forall j :: i < j < |trace| ==> !IsPassedValidation(trace[j].call, trace[j].result)
  {
    hide IsChange, IsPassedValidation;
    if trace != [] {
      UnvalidatedMeans(Front(trace));
      if IsChange(Last(trace).result) {
        assert IsChange(trace[|trace| - 1].result);
      } else if Unvalidated(Front(trace)) && !IsPassedValidation(Last(trace).call, Last(trace).result) {
        var i :| 0 <= i < |Front(trace)| && IsChange(Front(trace)[i].result)
                 && forall j :: i < j < |Front(trace)| ==>
                    !IsPassedValidation(Front(trace)[j].call, Front(trace)[j].result);
        assert IsChange(trace[i].result);
        forall j | i < j < |trace| ensures !IsPassedValidation(trace[j].call, trace[j].result) {
          assert j < |Front(trace)| ==> Front(trace)[j] == trace[j];
        }
      }
      if i :| 0 <= i < |trace| && IsChange(trace[i].result)
              && forall j :: i < j < |trace| ==> !IsPassedValidation(trace[j].call, trace[j].result) {
        if i < |trace| - 1 {
          assert IsChange(Front(trace)[i].result);
          assert !IsPassedValidation(trace[|trace| - 1].call, trace[|trace| - 1].result);
          forall j | i < j < |Front(trace)| ensures !IsPassedValidation(Front(trace)[j].call, Front(trace)[j].result) {
            assert Front(trace)[j] == trace[j];
          }
        }
      }
    }
  }

  /** Read over the whole trace: some failed validation has no recovery step after it. */
  lemma {:induction false} NeedsRecoveryMeans(trace: seq<Event>)
    ensures NeedsRecovery(trace) <==>
            exists i :: 0 <= i < |trace| && IsFailedValidation(trace[i].call, trace[i].result)
              && forall j :: i < j < |trace| ==> !IsRecovery(trace[j].call, trace[j].result)
  {
    hide IsFailedValidation, IsRecovery;
    if trace != [] {
      var front := Front(trace);
      NeedsRecoveryMeans(front);
      if IsFailedValidation(Last(trace).call, Last(trace).result) {
        assert IsFailedValidation(trace[|trace| - 1].call, trace[|trace| - 1].result);
      } else if NeedsRecovery(front) && !IsRecovery(Last(trace).call, Last(trace).result) {
        var i :| 0 <= i < |front| && IsFailedValidation(front[i].call, front[i].result)
                 && forall j :: i < j < |front| ==> !IsRecovery(front[j].call, front[j].result);
        assert IsFailedValidation(trace[i].call, trace[i].result);
        forall j | i < j < |trace| ensures !IsRecovery(trace[j].call, trace[j].result) {
          assert j < |front| ==> front[j] == trace[j];
        }
      }
      if i :| 0 <= i < |trace| && IsFailedValidation(trace[i].call, trace[i].result)
              && forall j :: i < j < |trace| ==> !IsRecovery(trace[j].call, trace[j].result) {
        if i < |trace| - 1 {
          assert IsFailedValidation(front[i].call, front[i].result);
          assert !IsRecovery(trace[|trace| - 1].call, trace[|trace| - 1].result);
          forall j | i < j < |front| ensures !IsRecovery(front[j].call, front[j].result) {
            assert front[j] == trace[j];
          }
        }
      }
    }
  }

  /** Normal completion means validated: every successful file change is followed by a validation that
      passed. A run that would end otherwise ends as `ValidationPending` instead. */
  lemma NormalMeansValidated(limits: AgentLimits, log: seq<TurnLog>, i: nat)
    requires EndsWith(limits, log, Normal)
    requires i < |Trace(log)| && IsChange(Trace(log)[i].result)
    ensures exists j :: i < j < |Trace(log)| && IsPassedValidation(Trace(log)[j].call, Trace(log)[j].result)
  {
    UnvalidatedMeans(Trace(log));
  }

  /** A run ends as `ValidationPending` only with a change nothing has validated since. */
  lemma PendingMeansUnvalidated(limits: AgentLimits, log: seq<TurnLog>) returns (i: nat)
    requires EndsWith(limits, log, BudgetExhausted(ValidationPending))
    ensures i < |Trace(log)| && IsChange(Trace(log)[i].result)
    ensures forall j :: i < j < |Trace(log)| ==> !IsPassedValidation(Trace(log)[j].call, Trace(log)[j].result)
  {
    hide IsChange, IsPassedValidation, Unvalidated;
    UnvalidatedMeans(Trace(log));
    i :| 0 <= i < |Trace(log)| && IsChange(Trace(log)[i].result)
         && forall j :: i < j < |Trace(log)| ==> !IsPassedValidation(Trace(log)[j].call, Trace(log)[j].result);
  }

  /** The recovery gate: an edit reaches its tool if and only if every earlier failed validation has
      been followed, before the edit, by a recovery step. */
  lemma RecoveryGate(env: Environment, limits: AgentLimits, trace: seq<Event>, i: nat)
    requires TraceOk(env, limits, trace) && i < |trace| && IsEditingCall(trace[i].call)
    ensures trace[i].executed <==>
            forall j :: 0 <= j < i && IsFailedValidation(trace[j].call, trace[j].result) ==>
              exists k :: j < k < i && IsRecovery(trace[k].call, trace[k].result)
  {
    hide IsFailedValidation, IsRecovery, StopAfter, NeedsRecovery, IsEditingCall;
    var before := trace[..i];
    assert EventOk(env, before, trace[i]);
    NeedsRecoveryMeans(before);
    assert forall j :: 0 <= j < i ==> before[j] == trace[j];
    if !trace[i].executed {
      var j :| 0 <= j < |before| && IsFailedValidation(before[j].call, before[j].result)
               && forall k :: j < k < |before| ==> !IsRecovery(before[k].call, before[k].result);
      assert IsFailedValidation(trace[j].call, trace[j].result);
    } else {
      forall j | 0 <= j < i && IsFailedValidation(trace[j].call, trace[j].result)
        ensures exists k :: j < k < i && IsRecovery(trace[k].call, trace[k].result)
      {
        assert IsFailedValidation(before[j].call, before[j].result);
        var k :| j < k < |before| && IsRecovery(before[k].call, before[k].result);
        assert IsRecovery(trace[k].call, trace[k].result);
      }
    }
  }

  // ---------- Bounds ----------

  /** Three equal requests with equal evidence in a row are always the last three calls of the run, so
      no run ever makes the same call four times in a row. */
  lemma RepeatsEndTheRun(env: Environment, limits: AgentLimits, trace: seq<Event>, i: nat)
    requires TraceOk(env, limits, trace) && i + 3 <= |trace|
    requires SignatureOf(trace[i]) == SignatureOf(trace[i + 1]) == SignatureOf(trace[i + 2])
    ensures i + 3 == |trace|
  {
    ThreeRepeats(trace, i);
    var stop := StopAfter(limits, trace[..i + 3]);
    assert stop != None;
  }

  lemma ThreeRepeats(trace: seq<Event>, i: nat)
    requires i + 3 <= |trace|
    requires SignatureOf(trace[i]) == SignatureOf(trace[i + 1]) == SignatureOf(trace[i + 2])
    ensures TrailingRepeats(trace[..i + 3]) >= 3
  {
    hide SignatureOf;
    var t := trace[..i + 3];
    assert Front(t) == trace[..i + 2] && Front(Front(t)) == trace[..i + 1];
    assert TrailingRepeats(Front(Front(t))) >= 1;
    assert TrailingRepeats(Front(t)) >= 2;
  }

  /** Three explorations in a row with the same comparable output are the last three calls. */
  lemma StaleEndsTheRun(env: Environment, limits: AgentLimits, trace: seq<Event>, i: nat)
    requires TraceOk(env, limits, trace) && i + 3 <= |trace|
    requires forall j :: i <= j < i + 3 ==>
               IsComparable(trace[j].call, trace[j].result) && trace[j].result.content == trace[i].result.content
    ensures i + 3 == |trace|
  {
    ThreeStale(trace, i);
    var stop := StopAfter(limits, trace[..i + 3]);
    assert stop != None;
  }

  lemma ThreeStale(trace: seq<Event>, i: nat)
    requires i + 3 <= |trace|
    requires forall j :: i <= j < i + 3 ==>
               IsComparable(trace[j].call, trace[j].result) && trace[j].result.content == trace[i].result.content
    ensures TrailingStale(trace[..i + 3]) >= 3
  {
    hide IsComparable;
    var t := trace[..i + 3];
    assert Last(Front(Front(t))) == trace[i] && Last(Front(t)) == trace[i + 1] && Last(t) == trace[i + 2];
    assert TrailingStale(Front(Front(t))) >= 1;
    assert TrailingStale(Front(t)) >= 2;
  }

  lemma {:induction false} FailuresInARow(trace: seq<Event>, n: nat)
    requires n <= |trace| && forall j :: |trace| - n <= j < |trace| ==> trace[j].result.status != Success
    ensures TrailingFailures(trace) >= n
  {
    if n > 0 {
      assert forall j :: |trace| - n <= j < |trace| - 1 ==> Front(trace)[j] == trace[j];
      FailuresInARow(Front(trace), n - 1);
    }
  }

  /** As many failures in a row as the limit allows are the last calls of the run (and with a limit of
      zero the first call already is). */
  lemma FailuresEndTheRun(env: Environment, limits: AgentLimits, trace: seq<Event>, i: nat)
    requires TraceOk(env, limits, trace) && 0 < i <= |trace| && limits.maxConsecutiveFailures <= i
    requires forall j :: i - limits.maxConsecutiveFailures <= j < i ==> trace[j].result.status != Success
    ensures i == |trace|
  {
    hide TrailingRepeats, TrailingStale, EventOk;
    FailuresInARow(trace[..i], limits.maxConsecutiveFailures);
    var stop := StopAfter(limits, trace[..i]);
    assert stop != None;
  }

  /** The counters meant literally: each equals the length of a maximal run at the end of the trace. */
  lemma {:induction false} TrailingFailuresExact(trace: seq<Event>)
    ensures TrailingFailures(trace) <= |trace|
    ensures forall j :: |trace| - TrailingFailures(trace) <= j < |trace| ==> trace[j].result.status != Success
    ensures TrailingFailures(trace) < |trace| ==> trace[|trace| - 1 - TrailingFailures(trace)].result.status == Success
  {
    if trace != [] {
      TrailingFailuresExact(Front(trace));
    }
  }

  lemma {:induction false} TrailingRepeatsExact(trace: seq<Event>)
    requires trace != []
    ensures var n := TrailingRepeats(trace);
            && 1 <= n <= |trace|
            && (forall j :: |trace| - n <= j < |trace| ==> SignatureOf(trace[j]) == SignatureOf(trace[|trace| - 1]))
            && (n < |trace| ==> SignatureOf(trace[|trace| - 1 - n]) != SignatureOf(trace[|trace| - 1]))
  {
    hide SignatureOf;
    if |trace| > 1 {
      TrailingRepeatsExact(Front(trace));
    }
  }

  ghost function FailedCalls(trace: seq<Event>): set<int> {
    set i | 0 <= i < |trace| && trace[i].result.status != Success
  }

  lemma {:induction false} FailuresBounded(trace: seq<Event>)
    ensures Failures(trace) == |FailedCalls(trace)| <= |trace|
  {
    if trace == [] {
      assert FailedCalls(trace) == {};
    } else {
      FailuresBounded(Front(trace));
      assert FailedCalls(trace)
          == FailedCalls(Front(trace)) + (if Last(trace).result.status != Success then {|trace| - 1} else {});
    }
  }

  /** Every completed run is bounded, and its counters count what happened. */
  lemma BoundedRun(env: Environment, limits: AgentLimits, seed: seq<ChatMessage>, prompt: string, log: seq<TurnLog>,
                   completion: AgentCompletion)
    requires LogOk(env, limits, log) && EndOk(env, limits, seed, prompt, log, completion)
    ensures completion.stats.turns <= limits.maxTurns + 1
    ensures completion.termination == Normal ==> completion.stats.turns <= limits.maxTurns
    ensures completion.stats.failedToolCalls <= completion.stats.toolCalls <= limits.maxTotalToolCalls
    ensures forall k :: 0 <= k < |log| && log[k].events != [] ==> |log[k].calls| <= limits.maxToolCallsPerTurn
  {
    FailuresBounded(Trace(log));
    forall k | 0 <= k < |log| && log[k].events != [] ensures |log[k].calls| <= limits.maxToolCallsPerTurn {
      assert TurnOk(env, limits, k, log[k]);
    }
  }

  /** If nothing is ever cancelled, the provider never fails and no turn asks for more calls than one
      turn may, the run completes. */
  lemma QuietRunCompletes(env: Environment, limits: AgentLimits, log: seq<TurnLog>, error: AgentError)
    requires LogOk(env, limits, log) && ErrorOk(env, limits, log, error)
    ensures (exists k :: env.cancelledAtTurn(k) || !env.turn(k).Replied?)
            || (exists n :: env.cancelledAtCall(n) || env.tool(n).ToolCancelled?)
            || env.cancelledAtLanding || env.landing.TurnCancelled?
            || (exists k :: env.turn(k).Replied? && |env.turn(k).calls| > limits.maxToolCallsPerTurn)
  {
    var k, n := |log|, |Trace(log)|;
    match error
    case RunCancelled =>
      assert env.cancelledAtTurn(k) || !env.turn(k).Replied? || env.cancelledAtCall(n) || env.tool(n).ToolCancelled?
          || env.cancelledAtLanding || env.landing.TurnCancelled?;
    case ProviderError(_) =>
      assert !env.turn(k).Replied?;
    case LimitReached(_) =>
      assert TurnOk(env, limits, k - 1, log[k - 1]);
      assert env.turn(k - 1).calls == log[k - 1].calls;
  }
}
