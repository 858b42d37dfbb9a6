/** The environment determines a run: the logs a run can produce are stages of one another, and only one
    of them justifies an outcome. */
module RunUniqueness {
  import opened Prelude
  import opened Progress
  import opened RunLog
  import opened AgentRun

  // ---------- Prefixes of a log ----------

  lemma {:induction false} TracePrefix(log: seq<TurnLog>, n: nat)
    requires n <= |log|
    ensures Trace(log[..n]) <= Trace(log)
  {
    if n == |log| {
      assert log[..n] == log;
    } else {
      TracePrefix(log[..|log| - 1], n);
      assert log[..|log| - 1][..n] == log[..n];
    }
  }

  lemma TraceOkPrefix(env: Environment, limits: AgentLimits, trace: seq<Event>, n: nat)
    requires TraceOk(env, limits, trace) && n <= |trace|
    ensures TraceOk(env, limits, trace[..n])
  {
    hide EventOk, StopAfter;
    var front := trace[..n];
    forall k | 0 <= k < n
      ensures EventOk(env, front[..k], front[k]) && (k > 0 ==> StopAfter(limits, front[..k]) == None)
    {
      assert front[..k] == trace[..k];
    }
  }

  lemma LogPrefix(env: Environment, limits: AgentLimits, log: seq<TurnLog>, n: nat)
    requires LogOk(env, limits, log) && n <= |log|
    ensures LogOk(env, limits, log[..n])
    ensures n < |log| ==> forall k :: 0 <= k < n ==> Complete(log[k])
  {
    hide Trace, TraceOk, GoesOn, TurnFits, TurnOk, Complete;
    var front := log[..n];
    TracePrefix(log, n);
    TraceOkPrefix(env, limits, Trace(log), |Trace(front)|);
    assert Trace(log)[..|Trace(front)|] == Trace(front);
    forall k | 0 <= k < n ensures StartOk(limits, front, k) && TurnOk(env, limits, k, front[k]) {
      assert StartOk(limits, log, k) && TurnOk(env, limits, k, log[k]);
      assert front[..k] == log[..k] && front[..k + 1] == log[..k + 1];
    }
  }

  // ---------- Equal environments, equal turns ----------

  /** What the log says about the i-th call of its last turn. */
  lemma LastEvent(env: Environment, limits: AgentLimits, front: seq<TurnLog>, turn: TurnLog, i: nat)
    requires LogOk(env, limits, front + [turn]) && i < |turn.events|
    ensures i < |turn.calls| && turn.events[i].call == turn.calls[i]
    ensures EventOk(env, Trace(front) + turn.events[..i], turn.events[i])
  {
    hide EventOk, StartOk, StopAfter;
    var log := front + [turn];
    assert log[..|front|] == front && log[|front|] == turn;
    assert TurnOk(env, limits, |front|, turn);
    var trace := Trace(log);
    assert trace == Trace(front) + turn.events;
    var k := |Trace(front)| + i;
    assert trace[..k] == Trace(front) + turn.events[..i] && trace[k] == turn.events[i];
  }

  /** A call handled after the same calls gets the same result. */
  lemma SameEvent(env: Environment, before: seq<Event>, a: Event, b: Event)
    requires EventOk(env, before, a) && EventOk(env, before, b) && a.call == b.call
    ensures a == b
  {
  }

  lemma {:induction false} SameEvents(env: Environment, limits: AgentLimits, front: seq<TurnLog>, x: TurnLog,
                                      y: TurnLog, n: nat)
    requires LogOk(env, limits, front + [x]) && LogOk(env, limits, front + [y])
    requires x.calls == y.calls && n <= |x.events| && n <= |y.events|
    ensures x.events[..n] == y.events[..n]
  {
    hide LogOk, EventOk;
    if n > 0 {
      SameEvents(env, limits, front, x, y, n - 1);
      LastEvent(env, limits, front, x, n - 1);
      LastEvent(env, limits, front, y, n - 1);
      SameEvent(env, Trace(front) + x.events[..n - 1], x.events[n - 1], y.events[n - 1]);
      assert x.events[..n] == x.events[..n - 1] + [x.events[n - 1]];
      assert y.events[..n] == y.events[..n - 1] + [y.events[n - 1]];
    }
  }

  lemma LastTurn(env: Environment, limits: AgentLimits, log: seq<TurnLog>)
    requires LogOk(env, limits, log) && log != []
    ensures var turn := log[|log| - 1];
            && !env.cancelledAtTurn(|log| - 1) && env.turn(|log| - 1).Replied?
            && env.turn(|log| - 1).text == turn.text && env.turn(|log| - 1).calls == turn.calls
            && |turn.events| <= |turn.calls|
    ensures log == log[..|log| - 1] + [log[|log| - 1]]
  {
    assert TurnOk(env, limits, |log| - 1, log[|log| - 1]);
  }

  /** Completely handled logs of the same length are equal. */
  lemma {:induction false} CompleteUnique(env: Environment, limits: AgentLimits, a: seq<TurnLog>, b: seq<TurnLog>)
    requires LogOk(env, limits, a) && LogOk(env, limits, b) && |a| == |b|
    requires forall k :: 0 <= k < |a| ==> Complete(a[k]) && Complete(b[k])
    ensures a == b
  {
    hide LogOk;
    if a != [] {
      var n := |a| - 1;
      LogPrefix(env, limits, a, n);
      LogPrefix(env, limits, b, n);
      CompleteUnique(env, limits, a[..n], b[..n]);
      LastTurn(env, limits, a);
      LastTurn(env, limits, b);
      assert Complete(a[n]) && Complete(b[n]);
      SameEvents(env, limits, a[..n], a[n], b[n], |a[n].calls|);
      assert a[n].events[..|a[n].calls|] == a[n].events && b[n].events[..|a[n].calls|] == b[n].events;
    }
  }

  // ---------- Stages ----------

  /** `a` is `b`, or what `b` was at an earlier point of the run. */
  ghost predicate Stage(a: seq<TurnLog>, b: seq<TurnLog>) {
    |a| <= |b| &&
    (a != [] ==>
       var i := |a| - 1;
       a[..i] == b[..i] && a[i].text == b[i].text && a[i].calls == b[i].calls && a[i].events <= b[i].events)
  }

  /** Of two logs the environment allows, one is a stage of the other. */
  lemma Comparable(env: Environment, limits: AgentLimits, a: seq<TurnLog>, b: seq<TurnLog>)
    requires LogOk(env, limits, a) && LogOk(env, limits, b) && |a| <= |b|
    ensures Stage(a, b) || Stage(b, a)
  {
    hide LogOk;
    if a != [] {
      var n := |a| - 1;
      LogPrefix(env, limits, a, n);
      LogPrefix(env, limits, b, n);
      LogPrefix(env, limits, b, n + 1);
      assert forall k :: 0 <= k < n ==> a[..n][k] == a[k] && b[..n][k] == b[k];
      CompleteUnique(env, limits, a[..n], b[..n]);
      var c := b[..n + 1];
      assert c[..n] == b[..n];
      LastTurn(env, limits, a);
      LastTurn(env, limits, c);
      var shorter := Min(|a[n].events|, |b[n].events|);
      SameEvents(env, limits, a[..n], a[n], b[n], shorter);
      assert a[n].events <= b[n].events || b[n].events <= a[n].events;
      assert |b| > n + 1 ==> Complete(b[n]);
    }
  }

  // ---------- Only one stage can end ----------

  /** The log ends the run, one way or another. */
  ghost predicate Final(env: Environment, limits: AgentLimits, log: seq<TurnLog>) {
    (exists t :: Ends(env, limits, log, t)) || (exists e :: ErrorOk(env, limits, log, e))
  }

  /** A run goes on in the middle of its calls unless cancellation is seen there. */
  lemma InCallsNotFinal(env: Environment, limits: AgentLimits, log: seq<TurnLog>)
    requires InCalls(limits, log) && !env.cancelledAtCall(|Trace(log)|) && !ToolGivesUp(env, log)
    ensures !Final(env, limits, log)
  {
    hide StopAfter, Unvalidated;
    forall t ensures !Ends(env, limits, log, t) {
    }
  }

  /** A run goes on between two turns when the provider replies. */
  lemma HeadNotFinal(env: Environment, limits: AgentLimits, log: seq<TurnLog>)
    requires AtHead(limits, log) && |log| < limits.maxTurns && !env.cancelledAtTurn(|log|) && env.turn(|log|).Replied?
    ensures !Final(env, limits, log)
  {
    hide StopAfter, Unvalidated;
    forall t ensures !Ends(env, limits, log, t) {
    }
  }

  /** Where a later stage has one more call, the earlier one had not ended. */
  lemma NextCallStarts(env: Environment, limits: AgentLimits, a: seq<TurnLog>, b: seq<TurnLog>)
    requires LogOk(env, limits, b) && Stage(a, b) && a != [] && |a[|a| - 1].events| < |b[|a| - 1].events|
    ensures !Final(env, limits, a)
  {
    hide StopAfter, EventOk, Gated;
    var n := |a| - 1;
    var x, y := a[n], b[n];
    LogPrefix(env, limits, b, n + 1);
    var c := b[..n + 1];
    assert c == a[..n] + [y];
    LastEvent(env, limits, a[..n], y, |x.events|);
    assert y.events[..|x.events|] == x.events && Trace(a) == Trace(a[..n]) + x.events;
    EventMeans(env, Trace(a), y.events[|x.events|]);
    assert StartOk(limits, b, n) && b[..n + 1][..n] == a[..n];
    assert TurnFits(limits, a);
    StopsLater(env, limits, a[..n], x, y);
    InCallsNotFinal(env, limits, a);
  }

  lemma EventMeans(env: Environment, before: seq<Event>, e: Event)
    requires EventOk(env, before, e)
    ensures !env.cancelledAtCall(|before|) && (Gated(before, e.call) || env.tool(|before|).Finished?)
  {
  }

  lemma StopsLater(env: Environment, limits: AgentLimits, front: seq<TurnLog>, x: TurnLog, y: TurnLog)
    requires LogOk(env, limits, front + [y]) && x.events <= y.events && |x.events| < |y.events|
    ensures GoesOn(limits, front + [x])
  {
    hide StopAfter, EventOk, StartOk, TurnOk, Complete;
    assert (front + [x])[..|front|] == front && (front + [y])[..|front|] == front;
    var trace := Trace(front) + y.events;
    var k := |Trace(front)| + |x.events|;
    assert trace[..k] == Trace(front) + x.events;
    assert TraceOk(env, limits, trace);
  }

  /** Where a later stage has one more turn, the earlier one had not ended. */
  lemma NextTurnStarts(env: Environment, limits: AgentLimits, b: seq<TurnLog>, n: nat)
    requires LogOk(env, limits, b) && n < |b|
    ensures !Final(env, limits, b[..n])
  {
    hide Trace, TraceOk, GoesOn, TurnFits, Final;
    var a := b[..n];
    assert StartOk(limits, b, n) && TurnOk(env, limits, n, b[n]);
    if n > 0 {
      assert Complete(b[n - 1]);
    }
    NothingGoesOn(limits);
    HeadNotFinal(env, limits, a);
  }

  lemma NothingGoesOn(limits: AgentLimits)
    ensures GoesOn(limits, [])
  {
  }

  lemma SameStage(a: seq<TurnLog>, b: seq<TurnLog>)
    requires Stage(a, b) && (a != [] ==> |a[|a| - 1].events| == |b[|a| - 1].events|)
    ensures a == b[..|a|]
  {
    if a != [] {
      var i := |a| - 1;
      assert a[i] == b[i];
      assert a == a[..i] + [a[i]] && b[..|a|] == b[..i] + [b[i]];
    }
  }

  /** A final stage is the last one. */
  lemma FinalIsLast(env: Environment, limits: AgentLimits, a: seq<TurnLog>, b: seq<TurnLog>)
    requires LogOk(env, limits, b) && Stage(a, b) && Final(env, limits, a)
    ensures a == b
  {
    hide LogOk, Final;
    if a != [] && |a[|a| - 1].events| < |b[|a| - 1].events| {
      NextCallStarts(env, limits, a, b);
    } else {
      SameStage(a, b);
      if |a| < |b| {
        NextTurnStarts(env, limits, b, |a|);
      } else {
        assert b[..|a|] == b;
      }
    }
  }

  /** The log of a run is unique. */
  lemma LogUnique(env: Environment, limits: AgentLimits, a: seq<TurnLog>, b: seq<TurnLog>)
    requires LogOk(env, limits, a) && LogOk(env, limits, b) && Final(env, limits, a) && Final(env, limits, b)
    ensures a == b
  {
    hide LogOk, Final, Stage;
    if |a| <= |b| {
      Comparable(env, limits, a, b);
    } else {
      Comparable(env, limits, b, a);
    }
    if Stage(a, b) {
      FinalIsLast(env, limits, a, b);
    } else {
      FinalIsLast(env, limits, b, a);
    }
  }

  // ---------- Only one outcome ----------

  lemma EndUnique(env: Environment, limits: AgentLimits, log: seq<TurnLog>, t: TerminationReason, u: TerminationReason)
    requires LogOk(env, limits, log) && Ends(env, limits, log, t) && Ends(env, limits, log, u)
    ensures t == u
  {
    hide StopAfter, Unvalidated, StartOk, TurnOk, Trace;
    StopReasons(limits, Trace(log));
    EventsInTrace(log);
    if log != [] {
      LastTurn(env, limits, log);
    }
  }

  lemma EventsInTrace(log: seq<TurnLog>)
    ensures log != [] && log[|log| - 1].events != [] ==> Trace(log) != []
  {
  }

  /** A run that ends does not also fail, except by a cancellation seen while landing. */
  lemma EndOrError(env: Environment, limits: AgentLimits, log: seq<TurnLog>, t: TerminationReason, e: AgentError)
    requires LogOk(env, limits, log) && Ends(env, limits, log, t) && ErrorOk(env, limits, log, e)
    ensures e == RunCancelled && t.BudgetExhausted? && (env.cancelledAtLanding || env.landing.TurnCancelled?)
  {
    hide StopAfter, Unvalidated, StartOk, TurnOk, Trace;
    EventsInTrace(log);
    InCallsFits(limits, log);
    if e.RunCancelled? {
      forall limit | Ends(env, limits, log, BudgetExhausted(limit)) ensures t == BudgetExhausted(limit) {
        EndUnique(env, limits, log, t, BudgetExhausted(limit));
      }
    }
  }

  lemma InCallsFits(limits: AgentLimits, log: seq<TurnLog>)
    ensures InCalls(limits, log) && log[|log| - 1].events == [] ==>
              |Trace(log)| + |log[|log| - 1].calls| <= limits.maxTotalToolCalls
  {
  }

  lemma ErrorUnique(env: Environment, limits: AgentLimits, log: seq<TurnLog>, e: AgentError, f: AgentError)
    requires LogOk(env, limits, log) && ErrorOk(env, limits, log, e) && ErrorOk(env, limits, log, f)
    ensures e == f
  {
  }

  /** The run's outcome is a function of the environment, the limits and the request: however the loop is
      read, nothing but this completion or this error can come out. */
  lemma OutcomeUnique(env: Environment, limits: AgentLimits, seed: seq<ChatMessage>, prompt: string,
                      a: seq<TurnLog>, first: Result<AgentCompletion, AgentError>,
                      b: seq<TurnLog>, second: Result<AgentCompletion, AgentError>)
    requires Explains(env, limits, seed, prompt, a, first) && Explains(env, limits, seed, prompt, b, second)
    ensures a == b && first == second
  {
    hide LogOk, Ends, ErrorOk, Trace, Render;
    LogUnique(env, limits, a, b);
    if first.Ok? && second.Ok? {
      EndUnique(env, limits, a, first.value.termination, second.value.termination);
    } else if first.Err? && second.Err? {
      ErrorUnique(env, limits, a, first.error, second.error);
    } else if first.Ok? {
      EndOrError(env, limits, a, first.value.termination, second.error);
    } else {
      EndOrError(env, limits, a, second.value.termination, first.error);
    }
  }
}
