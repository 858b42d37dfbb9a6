/** One agent run: the inference-then-tool loop of `Agent::drive` and its soft landing. The provider
    and the tools are an arbitrary environment; `log` records what happened. */
module AgentRun {
  import opened Prelude
  import opened Progress
  import opened RunLog

  /** How one provider turn ends: a reply, or an error that ends the run. */
  datatype TurnOutcome =
    | Replied(text: Option<string>, calls: seq<ToolCall>, inputTokens: Option<nat>)
    | TurnCancelled
    | TurnFailed(error: string)

  /** How one tool execution ends. The result answers the call that was made, so it carries no id. */
  datatype ToolOutcome =
    | Finished(status: ToolStatus, content: string, outputTruncated: bool, exitCode: Option<int>, truncated: bool,
               affectedFiles: seq<string>)
    | ToolCancelled

  /** Everything a run cannot determine itself: replies by turn number, tool outcomes by call number,
      when cancellation is seen, and the reply and fallback text of the landing turn. */
  datatype Environment = Environment(
    turn: nat -> TurnOutcome,
    tool: nat -> ToolOutcome,
    cancelledAtTurn: nat -> bool,
    cancelledAtCall: nat -> bool,
    cancelledAtLanding: bool,
    landing: TurnOutcome,
    fallbackSummary: (AgentLimit, set<string>, seq<string>) -> string)

  datatype TerminationReason = Normal | BudgetExhausted(limit: AgentLimit)

  datatype AgentRunStats = AgentRunStats(turns: nat, toolCalls: nat, failedToolCalls: nat, lastInputTokens: Option<nat>)

  datatype AgentError = RunCancelled | ProviderError(error: string) | LimitReached(limit: AgentLimit)

  datatype AgentCompletion = AgentCompletion(finalText: string, stats: AgentRunStats, history: seq<ChatMessage>,
                                             termination: TerminationReason)

  const SOFT_LANDING_PROMPT := "You've reached this run's safety budget and must stop now."
  const VALIDATION_PENDING_PROMPT := "You changed project files but did not validate them."
  const RECOVERY_EVIDENCE_REQUIRED := "The last validation failed."

  function LandingPrompt(limit: AgentLimit): string {
    if limit.ValidationPending? then VALIDATION_PENDING_PROMPT else SOFT_LANDING_PROMPT
  }

  function BlockedResult(call: ToolCall): ToolResult {
    ToolResult(call.id, Failed, RECOVERY_EVIDENCE_REQUIRED, false, None, false, [])
  }

  function ResultOf(call: ToolCall, outcome: ToolOutcome): ToolResult
    requires outcome.Finished?
  {
    ToolResult(call.id, outcome.status, outcome.content, outcome.outputTruncated, outcome.exitCode, outcome.truncated,
               outcome.affectedFiles)
  }

  // ---------- Which logs a run can produce ----------

  /** An edit while a failed validation is unrecovered. */
  predicate Gated(before: seq<Event>, call: ToolCall) {
    NeedsRecovery(before) && IsEditingCall(call)
  }

  /** Nobody had cancelled when the call's turn came. It reached its tool unless it was gated; either way
      its recorded result is the one it got. */
  ghost predicate EventOk(env: Environment, before: seq<Event>, e: Event) {
    && !env.cancelledAtCall(|before|)
    && if Gated(before, e.call) then !e.executed && e.result == BlockedResult(e.call)
       else e.executed && env.tool(|before|).Finished? && e.result == ResultOf(e.call, env.tool(|before|))
  }

  ghost predicate TraceOk(env: Environment, limits: AgentLimits, trace: seq<Event>) {
    && (forall k :: 0 <= k < |trace| ==> EventOk(env, trace[..k], trace[k]))
    && (forall k :: 0 < k < |trace| ==> StopAfter(limits, trace[..k]) == None)
    && |trace| <= limits.maxTotalToolCalls
  }

  /** The calls of a turn are handled in request order. */
  ghost predicate TurnOk(env: Environment, limits: AgentLimits, k: nat, turn: TurnLog) {
    && !env.cancelledAtTurn(k)
    && env.turn(k).Replied? && env.turn(k).text == turn.text && env.turn(k).calls == turn.calls
    && |turn.events| <= |turn.calls|
    && (forall i :: 0 <= i < |turn.events| ==>
          turn.events[i].call == turn.calls[i] && turn.events[i].result.callId == turn.calls[i].id)
    && (turn.events != [] ==> |turn.calls| <= limits.maxToolCallsPerTurn)
  }

  ghost predicate Complete(turn: TurnLog) {
    turn.calls != [] && |turn.events| == |turn.calls|
  }

  /** No stop condition holds, so the run may go on. */
  ghost predicate GoesOn(limits: AgentLimits, log: seq<TurnLog>) {
    Trace(log) == [] || StopAfter(limits, Trace(log)) == None
  }

  /** Between two turns. */
  ghost predicate AtHead(limits: AgentLimits, log: seq<TurnLog>) {
    (log != [] ==> Complete(log[|log| - 1])) && GoesOn(limits, log)
  }

  /** The calls of the last turn may all be handled within the limits. */
  ghost predicate TurnFits(limits: AgentLimits, log: seq<TurnLog>)
    requires log != []
  {
    var calls := log[|log| - 1].calls;
    |calls| <= limits.maxToolCallsPerTurn && |Trace(log[..|log| - 1])| + |calls| <= limits.maxTotalToolCalls
  }

  /** In the middle of a turn's calls. */
  ghost predicate InCalls(limits: AgentLimits, log: seq<TurnLog>) {
    log != [] && |log[|log| - 1].events| < |log[|log| - 1].calls| && TurnFits(limits, log) && GoesOn(limits, log)
  }

  /** Turn `k` began between two turns, and its calls were handled only if they all fitted. */
  ghost predicate StartOk(limits: AgentLimits, log: seq<TurnLog>, k: nat)
    requires k < |log|
  {
    (k > 0 ==> GoesOn(limits, log[..k])) && (log[k].events != [] ==> TurnFits(limits, log[..k + 1]))
  }

  /** A log some run can have produced: the environment's replies in order, every turn but the last
      handled completely, and no stop condition met before the last call. */
  ghost predicate LogOk(env: Environment, limits: AgentLimits, log: seq<TurnLog>) {
    && |log| <= limits.maxTurns
    && (forall k :: 0 <= k < |log| ==> StartOk(limits, log, k))
    && (forall k :: 0 <= k < |log| ==> TurnOk(env, limits, k, log[k]))
    && (forall k :: 0 <= k < |log| - 1 ==> Complete(log[k]))
    && TraceOk(env, limits, Trace(log))
  }

  /** What justifies each way of ending a run. */
  ghost predicate EndsWith(limits: AgentLimits, log: seq<TurnLog>, termination: TerminationReason) {
    var trace := Trace(log);
    match termination
    case Normal => log != [] && log[|log| - 1].calls == [] && !Unvalidated(trace)
    case BudgetExhausted(MaxTurns) => |log| == limits.maxTurns && AtHead(limits, log)
    case BudgetExhausted(ValidationPending) => log != [] && log[|log| - 1].calls == [] && Unvalidated(trace)
    case BudgetExhausted(MaxTotalToolCalls) =>
      log != [] && log[|log| - 1].events == [] && |trace| + |log[|log| - 1].calls| > limits.maxTotalToolCalls
    case BudgetExhausted(MaxToolCallsPerTurn) => false
    case BudgetExhausted(limit) => log != [] && log[|log| - 1].events != [] && StopAfter(limits, trace) == Some(limit)
  }

  /** ... and nobody has cancelled when the turn limit is found to be reached. */
  ghost predicate Ends(env: Environment, limits: AgentLimits, log: seq<TurnLog>, termination: TerminationReason) {
    EndsWith(limits, log, termination) && (termination == BudgetExhausted(MaxTurns) ==> !env.cancelledAtTurn(|log|))
  }

  ghost predicate EndOk(env: Environment, limits: AgentLimits, seed: seq<ChatMessage>, prompt: string,
                        log: seq<TurnLog>, completion: AgentCompletion) {
    var base := seed + [User(prompt)] + Render(log);
    && Ends(env, limits, log, completion.termination)
    && completion.stats.toolCalls == |Trace(log)|
    && completion.stats.failedToolCalls == Failures(Trace(log))
    && match completion.termination
       case Normal =>
         completion.history == base && completion.stats.turns == |log|
         && completion.stats.lastInputTokens == LastTokens(env, |log|)
         && completion.finalText == TextOr(log[|log| - 1].text, "")
       case BudgetExhausted(limit) =>
         var fallback := env.fallbackSummary(limit, ChangedFiles(Trace(log)), RecentLabels(Trace(log)));
         && !env.cancelledAtLanding && !env.landing.TurnCancelled?
         && completion.history == base + [User(LandingPrompt(limit)), Assistant(Some(completion.finalText), [])]
         && completion.stats.turns == |log| + (if env.landing.Replied? then 1 else 0)
         && completion.stats.lastInputTokens == TokensAfter(env.landing, LastTokens(env, |log|))
         && completion.finalText == if env.landing.Replied? then TextOr(env.landing.text, fallback) else fallback
  }

  /** What justifies each error: cancellation seen at a turn, in a turn, at a call, in a tool or while
      landing; a provider failure; or a turn that asks for more calls than one turn may. */
  ghost predicate ErrorOk(env: Environment, limits: AgentLimits, log: seq<TurnLog>, error: AgentError) {
    var k, n := |log|, |Trace(log)|;
    match error
    case RunCancelled =>
      || (AtHead(limits, log) && (env.cancelledAtTurn(k) || (k < limits.maxTurns && env.turn(k).TurnCancelled?)))
      || (InCalls(limits, log) && (env.cancelledAtCall(n) || ToolGivesUp(env, log)))
      || ((env.cancelledAtLanding || env.landing.TurnCancelled?)
          && exists limit :: Ends(env, limits, log, BudgetExhausted(limit)))
    case ProviderError(message) =>
      AtHead(limits, log) && !env.cancelledAtTurn(k) && k < limits.maxTurns && env.turn(k) == TurnFailed(message)
    case LimitReached(limit) =>
      && limit == MaxToolCallsPerTurn && log != [] && log[k - 1].events == []
      && n + |log[k - 1].calls| <= limits.maxTotalToolCalls && |log[k - 1].calls| > limits.maxToolCallsPerTurn
  }

  /** The next call reaches its tool, which reports cancellation. */
  ghost predicate ToolGivesUp(env: Environment, log: seq<TurnLog>)
    requires log != [] && |log[|log| - 1].events| < |log[|log| - 1].calls|
  {
    var turn := log[|log| - 1];
    !Gated(Trace(log), turn.calls[|turn.events|]) && env.tool(|Trace(log)|).ToolCancelled?
  }

  function TokensAfter(outcome: TurnOutcome, before: Option<nat>): Option<nat> {
    if outcome.Replied? && outcome.inputTokens.Some? then outcome.inputTokens else before
  }

  /** The input tokens the provider last reported in the first `n` turns. */
  function LastTokens(env: Environment, n: nat): Option<nat> {
    if n == 0 then None else TokensAfter(env.turn(n - 1), LastTokens(env, n - 1))
  }

  function TextOr(text: Option<string>, default: string): string {
    if text.Some? then text.value else default
  }

  // ---------- The run ----------

  class Run {
    const env: Environment
    const limits: AgentLimits
    const seed: seq<ChatMessage>
    const prompt: string
    const progress: TaskProgress
    var history: seq<ChatMessage>
    var turns: nat
    var toolCalls: nat
    var failedToolCalls: nat
    var lastInputTokens: Option<nat>
    var consecutiveFailures: nat
    var lastCallSignature: Option<Signature>
    var sameCallRepeatCount: nat
    var changedFiles: set<string>
    var recentToolLog: seq<string>
    ghost var log: seq<TurnLog>

    constructor (env: Environment, limits: AgentLimits, seed: seq<ChatMessage>, prompt: string)
      ensures Valid() && log == [] && turns == 0
      ensures this.env == env && this.limits == limits && this.seed == seed && this.prompt == prompt
      ensures fresh(progress)
    {
      this.env, this.limits, this.seed, this.prompt := env, limits, seed, prompt;
      progress := new TaskProgress();
      history := seed + [User(prompt)];
      turns, toolCalls, failedToolCalls, lastInputTokens := 0, 0, 0, None;
      consecutiveFailures, lastCallSignature, sameCallRepeatCount := 0, None, 0;
      changedFiles, recentToolLog, log := {}, [], [];
    }

    /** Every counter is the function of the trace it stands for. */
    ghost predicate Tracks(trace: seq<Event>)
      reads this, progress
    {
      && toolCalls == |trace| && failedToolCalls == Failures(trace)
      && consecutiveFailures == TrailingFailures(trace)
      && lastCallSignature == LastSignature(trace) && sameCallRepeatCount == TrailingRepeats(trace)
      && changedFiles == ChangedFiles(trace) && recentToolLog == RecentLabels(trace)
      && progress.View() == FactsOf(trace)
    }

    ghost predicate Valid()
      reads this, progress
    {
      && turns == |log| && lastInputTokens == LastTokens(env, |log|) && Tracks(Trace(log)) && LogOk(env, limits, log)
      && history == seed + [User(prompt)] + Render(log)
    }

    method CountRepeat(signature: Signature)
      modifies `lastCallSignature, `sameCallRepeatCount
      ensures lastCallSignature == Some(signature)
      ensures sameCallRepeatCount ==
              if old(lastCallSignature) == Some(signature) then old(sameCallRepeatCount) + 1 else 1
    {
      if lastCallSignature == Some(signature) {
        sameCallRepeatCount := sameCallRepeatCount + 1;
      } else {
        lastCallSignature := Some(signature);
        sameCallRepeatCount := 1;
      }
    }

    method LogCall(call: ToolCall, result: ToolResult)
      modifies `recentToolLog
      ensures var pushed := old(recentToolLog) + [call.name + " -> " + StatusLabel(result.status)];
              recentToolLog == if |pushed| > RECENT_TOOL_LOG_CAPACITY then pushed[1..] else pushed
    {
      recentToolLog := recentToolLog + [call.name + " -> " + StatusLabel(result.status)];
      if |recentToolLog| > RECENT_TOOL_LOG_CAPACITY {
        recentToolLog := recentToolLog[1..];
      }
    }

    method CountResult(result: ToolResult)
      modifies `consecutiveFailures, `failedToolCalls, `changedFiles
      ensures consecutiveFailures == if result.status == Success then 0 else 1 + old(consecutiveFailures)
      ensures failedToolCalls == old(failedToolCalls) + (if result.status == Success then 0 else 1)
      ensures changedFiles == old(changedFiles) + (set f | f in result.affectedFiles)
    {
      if result.status == Success {
        consecutiveFailures := 0;
      } else {
        failedToolCalls := failedToolCalls + 1;
        consecutiveFailures := consecutiveFailures + 1;
      }
      changedFiles := changedFiles + (set f | f in result.affectedFiles);
    }

    /** Updates the progress facts and answers the call in the transcript, with the one-time recovery
        reminder after a failed validation. */
    method AnswerCall(call: ToolCall, result: ToolResult, ghost executed: bool, ghost trace: seq<Event>)
      requires progress.View() == FactsOf(trace)
      modifies `history, progress
      ensures progress.View() == FactsOf(trace + [Event(call, result, executed)])
      ensures history == old(history) + RenderEvent(Event(call, result, executed))
    {
      RecordFacts(trace, Event(call, result, executed));
      var _ := progress.Observe(call, result);
      history := history + [Tool(result.callId, result.content)];
      var reminder := progress.TakeRecoveryReminder();
      if reminder.Some? {
        history := history + [System(reminder.value)];
      }
    }

    /** The counters and the transcript after one call. */
    method RecordCall(call: ToolCall, result: ToolResult, executed: bool)
      requires Tracks(Trace(log))
      modifies this, progress
      ensures Tracks(Trace(log) + [Event(call, result, executed)])
      ensures log == old(log) && turns == old(turns) && lastInputTokens == old(lastInputTokens)
      ensures history == old(history) + RenderEvent(Event(call, result, executed))
    {
      hide Failures, TrailingFailures, TrailingRepeats, LastSignature, ChangedFiles, RecentLabels, FactsOf, Trace,
           RenderEvent, Render, LogOk, IsChange, IsComparable, IsFailedValidation, IsPassedValidation, IsRecovery,
           LastOutput, TrailingStale, Unvalidated, NeedsRecovery, StatusLabel;
      ghost var trace := Trace(log);
      RecordFacts(trace, Event(call, result, executed));
      RecentLabelsStep(trace, Event(call, result, executed));
      toolCalls := toolCalls + 1;
      AnswerCall(call, result, executed, trace);
      CountRepeat(SignatureOf(Event(call, result, executed)));
      LogCall(call, result);
      CountResult(result);
    }

    /** One call of the current turn: cancellation, the recovery gate, execution, and the books. */
    method HandleCall(call: ToolCall) returns (error: Option<AgentError>, stop: Option<AgentLimit>)
      requires Valid() && GoesOn(limits, log)
      requires InCalls(limits, log) && call == log[|log| - 1].calls[|log[|log| - 1].events|]
      modifies this, progress
      ensures error.Some? ==> log == old(log) && ErrorOk(env, limits, log, error.value)
      ensures error.None? ==> Valid() && stop == StopAfter(limits, Trace(log))
      ensures error.None? ==> exists e :: log == Extended(old(log), e) && e.call == call
    {
      hide LogOk, TraceOk, TurnOk, Trace, Render, StopAfter, Unvalidated, NeedsRecovery, TrailingStale, TrailingRepeats,
           TrailingFailures, Failures, LastSignature, LastOutput, ChangedFiles, RecentLabels, IsEditingCall, TurnFits,
           GoesOn;
      if env.cancelledAtCall(toolCalls) {
        return Some(RunCancelled), None;
      }
      var result := BlockedResult(call);
      var blocked := progress.BlocksEdit(call);
      if !blocked {
        var outcome := env.tool(toolCalls);
        if outcome.ToolCancelled? {
          return Some(RunCancelled), None;
        }
        result := ResultOf(call, outcome);
      }
      ghost var e := Event(call, result, !blocked);
      ghost var before := log;
      RecordCall(call, result, !blocked);
      ExtendedFacts(before, e);
      ExtendedOk(env, limits, before, e);
      log := Extended(before, e);
      stop := StopNow();
      return None, stop;
    }

    method StopNow() returns (stop: Option<AgentLimit>)
      requires Tracks(Trace(log))
      ensures stop == StopAfter(limits, Trace(log))
    {
      if sameCallRepeatCount >= 3 {
        return Some(RepeatedToolCall);
      }
      if progress.HasNoProgress() {
        return Some(NoProgress);
      }
      if consecutiveFailures >= limits.maxConsecutiveFailures {
        return Some(ConsecutiveFailures);
      }
      return None;
    }

    /** The inner loop: the calls of the current turn in request order, until one stops the run. */
    method HandleCalls(calls: seq<ToolCall>) returns (error: Option<AgentError>, stop: Option<AgentLimit>)
      requires Valid() && GoesOn(limits, log)
      requires log != [] && log[|log| - 1].calls == calls && log[|log| - 1].events == []
      requires TurnFits(limits, log)
      modifies this, progress
      ensures LogOk(env, limits, log)
      ensures error.Some? ==> ErrorOk(env, limits, log, error.value)
      ensures error.None? ==> Valid() && log != [] && |log| == |old(log)|
      ensures error.None? && stop.None? ==>
                GoesOn(limits, log) && log[|log| - 1].calls == calls && |log[|log| - 1].events| == |calls|
      ensures error.None? && stop.Some? ==> log[|log| - 1].events != [] && StopAfter(limits, Trace(log)) == stop
    {
      hide LogOk, TraceOk, TurnOk, Trace, Render, StopAfter, Tracks, EventOk, TurnFits, GoesOn;
      ghost var before := log;
      assert LogOk(env, limits, log);
      var i := 0;
      while i < |calls|
        invariant i <= |calls| && Valid() && GoesOn(limits, log) && log != [] && |log| == |before|
        invariant log[|log| - 1].calls == calls && |log[|log| - 1].events| == i && TurnFits(limits, log)
      {
        ghost var now := log;
        assert LogOk(env, limits, log);
        error, stop := HandleCall(calls[i]);
        if error.Some? {
          return error, None;
        }
        ghost var e :| log == Extended(now, e) && e.call == calls[i];
        ExtendedFits(limits, now, e);
        if stop.Some? {
          return None, stop;
        }
        GoesOnMeans(limits, log);
        i := i + 1;
      }
      return None, None;
    }

    /** The turn just received becomes part of the log and of the transcript. */
    method RecordTurn(text: Option<string>, calls: seq<ToolCall>, inputTokens: Option<nat>)
      requires Valid() && GoesOn(limits, log) && |log| < limits.maxTurns
      requires log != [] ==> Complete(log[|log| - 1])
      requires !env.cancelledAtTurn(turns) && env.turn(turns) == Replied(text, calls, inputTokens)
      modifies this
      ensures Valid() && GoesOn(limits, log)
      ensures log == old(log) + [TurnLog(text, calls, [])] && Trace(log) == Trace(old(log))
    {
      hide LogOk, StopAfter, FactsOf, Failures, TrailingFailures, TrailingRepeats, LastSignature, ChangedFiles,
           RecentLabels, Trace, Render;
      ghost var before, turn := log, TurnLog(text, calls, []);
      turns := turns + 1;
      if inputTokens.Some? {
        lastInputTokens := inputTokens;
      }
      history := history + [Assistant(text, calls)];
      log := log + [turn];
      AddedTurn(before, turn);
      AddedOk(env, limits, before, turn);
    }

    /** The outer loop: inference turns until the model stops asking for tools, a limit is reached, or
        an error ends the run. */
    method DriveLoop() returns (error: Option<AgentError>, normalText: string, exhausted: Option<AgentLimit>)
      requires Valid() && log == []
      modifies this, progress
      ensures LogOk(env, limits, log)
      ensures error.Some? ==> ErrorOk(env, limits, log, error.value)
      ensures error.None? ==>
                Valid() && Ends(env, limits, log, if exhausted.Some? then BudgetExhausted(exhausted.value) else Normal)
      ensures error.None? && exhausted.None? ==> normalText == TextOr(log[|log| - 1].text, "")
    {
      hide LogOk, TraceOk, TurnOk, Trace, Render, StopAfter, Tracks;
      normalText := "";
      assert LogOk(env, limits, log);
      TraceOfNothing();
      while true
        invariant Valid() && GoesOn(limits, log) && |log| <= limits.maxTurns
        invariant log != [] ==> Complete(log[|log| - 1])
        decreases limits.maxTurns - |log|
      {
        assert LogOk(env, limits, log);
        if env.cancelledAtTurn(turns) {
          return Some(RunCancelled), "", None;
        }
        if turns >= limits.maxTurns {
          return None, "", Some(MaxTurns);
        }
        var outcome := env.turn(turns);
        if outcome.TurnCancelled? {
          return Some(RunCancelled), "", None;
        }
        if outcome.TurnFailed? {
          return Some(ProviderError(outcome.error)), "", None;
        }
        var calls := outcome.calls;
        RecordTurn(outcome.text, calls, outcome.inputTokens);
        assert LogOk(env, limits, log);
        PendingIsUnvalidated();
        if calls == [] {
          if progress.RequiresValidation() {
            return None, "", Some(ValidationPending);
          }
          return None, TextOr(outcome.text, ""), None;
        }
        ToolCallsAreTrace();
        FreshFits(limits, log);
        if toolCalls + |calls| > limits.maxTotalToolCalls {
          return None, "", Some(MaxTotalToolCalls);
        }
        if |calls| > limits.maxToolCallsPerTurn {
          return Some(LimitReached(MaxToolCallsPerTurn)), "", None;
        }
        ghost var length := |log|;
        var stop: Option<AgentLimit>;
        error, stop := HandleCalls(calls);
        if error.Some? {
          return error, "", None;
        }
        if stop.Some? {
          StopReasons(limits, Trace(log));
          return None, "", stop;
        }
        LogLength(env, limits, log);
      }
    }

    /** Wraps up a run that hit a limit: one final turn without tools, or a local summary. */
    method SoftLand(limit: AgentLimit) returns (summary: Result<string, AgentError>)
      requires Valid() && Ends(env, limits, log, BudgetExhausted(limit))
      modifies this
      ensures log == old(log) && toolCalls == old(toolCalls) && failedToolCalls == old(failedToolCalls)
      ensures summary.Err? ==> ErrorOk(env, limits, log, summary.error)
      ensures summary.Ok? ==> !env.cancelledAtLanding && !env.landing.TurnCancelled?
      ensures summary.Ok? ==>
                history == old(history) + [User(LandingPrompt(limit)), Assistant(Some(summary.value), [])]
      ensures summary.Ok? ==> turns == old(turns) + (if env.landing.Replied? then 1 else 0)
      ensures summary.Ok? ==> lastInputTokens == TokensAfter(env.landing, old(lastInputTokens))
      ensures summary.Ok? ==>
                var fallback := env.fallbackSummary(limit, ChangedFiles(Trace(log)), RecentLabels(Trace(log)));
                summary.value == if env.landing.Replied? then TextOr(env.landing.text, fallback) else fallback
    {
      hide LogOk, Trace, Render, FactsOf, Ends, AtHead, InCalls;
      if env.cancelledAtLanding {
        return Err(RunCancelled);
      }
      history := history + [User(LandingPrompt(limit))];
      var text := env.fallbackSummary(limit, changedFiles, recentToolLog);
      match env.landing {
        case Replied(reply, _, inputTokens) =>
          turns := turns + 1;
          if inputTokens.Some? {
            lastInputTokens := inputTokens;
          }
          text := TextOr(reply, text);
        case TurnCancelled =>
          return Err(RunCancelled);
        case TurnFailed(_) =>
      }
      history := history + [Assistant(Some(text), [])];
      return Ok(text);
    }

    lemma PendingIsUnvalidated()
      requires Valid()
      ensures progress.RequiresValidation() == Unvalidated(Trace(log))
    {
    }

    lemma ToolCallsAreTrace()
      requires Valid()
      ensures toolCalls == |Trace(log)| && turns == |log|
    {
    }
  }

  /** The log explains the outcome: a run can produce it, and it justifies the completion or the error. */
  ghost predicate Explains(env: Environment, limits: AgentLimits, seed: seq<ChatMessage>, prompt: string,
                           log: seq<TurnLog>, outcome: Result<AgentCompletion, AgentError>) {
    && LogOk(env, limits, log)
    && (outcome.Ok? ==> EndOk(env, limits, seed, prompt, log, outcome.value))
    && (outcome.Err? ==> ErrorOk(env, limits, log, outcome.error))
  }

  /** One complete agent run. Whatever the environment does, there is a log the loop can produce such that a
      completion is justified by it and its transcript and counters are exactly the log's, and an error
      has its cause. */
  method Drive(env: Environment, limits: AgentLimits, seed: seq<ChatMessage>, prompt: string)
    returns (outcome: Result<AgentCompletion, AgentError>)
    ensures exists log :: Explains(env, limits, seed, prompt, log, outcome)
  {
    hide LogOk, ErrorOk, EndsWith, Trace, Render, FactsOf;
    var run := new Run(env, limits, seed, prompt);
    var error, normalText, exhausted := run.DriveLoop();
    ghost var log := run.log;
    if error.Some? {
      outcome := Err(error.value);
      assert Explains(env, limits, seed, prompt, log, outcome);
      return;
    }
    if exhausted.None? {
      var stats := AgentRunStats(run.turns, run.toolCalls, run.failedToolCalls, run.lastInputTokens);
      outcome := Ok(AgentCompletion(normalText, stats, run.history, Normal));
      assert Explains(env, limits, seed, prompt, log, outcome);
      return;
    }
    var limit := exhausted.value;
    var summary := run.SoftLand(limit);
    if summary.Err? {
      outcome := Err(summary.error);
      assert Explains(env, limits, seed, prompt, log, outcome);
      return;
    }
    var stats := AgentRunStats(run.turns, run.toolCalls, run.failedToolCalls, run.lastInputTokens);
    outcome := Ok(AgentCompletion(summary.value, stats, run.history, BudgetExhausted(limit)));
    assert Explains(env, limits, seed, prompt, log, outcome);
  }

  lemma TraceOfNothing()
    ensures Trace([]) == []
  {
  }

  lemma LogLength(env: Environment, limits: AgentLimits, log: seq<TurnLog>)
    requires LogOk(env, limits, log)
    ensures |log| <= limits.maxTurns
  {
  }

  lemma StopReasons(limits: AgentLimits, trace: seq<Event>)
    ensures StopAfter(limits, trace) in {None, Some(RepeatedToolCall), Some(NoProgress), Some(ConsecutiveFailures)}
  {
  }

  lemma {:induction false} AddedTurn(log: seq<TurnLog>, turn: TurnLog)
    requires turn.events == []
    ensures Trace(log + [turn]) == Trace(log)
    ensures Render(log + [turn]) == Render(log) + [Assistant(turn.text, turn.calls)]
  {
    assert (log + [turn])[..|log|] == log;
    assert Trace(log) + [] == Trace(log);
    assert [Assistant(turn.text, turn.calls)] + RenderEvents([]) == [Assistant(turn.text, turn.calls)];
  }

  lemma GoesOnMeans(limits: AgentLimits, log: seq<TurnLog>)
    ensures GoesOn(limits, log) <==> Trace(log) == [] || StopAfter(limits, Trace(log)) == None
  {
  }

  lemma FreshFits(limits: AgentLimits, log: seq<TurnLog>)
    requires log != [] && log[|log| - 1].events == []
    ensures var calls := log[|log| - 1].calls;
            TurnFits(limits, log) <==>
            |calls| <= limits.maxToolCallsPerTurn && |Trace(log)| + |calls| <= limits.maxTotalToolCalls
  {
  }

  lemma AddedOk(env: Environment, limits: AgentLimits, log: seq<TurnLog>, turn: TurnLog)
    requires LogOk(env, limits, log) && AtHead(limits, log)
    requires turn.events == [] && TurnOk(env, limits, |log|, turn) && |log| < limits.maxTurns
    ensures LogOk(env, limits, log + [turn])
  {
    hide TraceOk, Trace, TurnFits, GoesOn, TurnOk;
    AddedTurn(log, turn);
    var log' := log + [turn];
    forall k | 0 <= k < |log'| ensures StartOk(limits, log', k) {
      assert k < |log| ==> StartOk(limits, log, k) && log'[..k + 1] == log[..k + 1];
      assert log'[..k] == log[..k];
      assert log[..|log|] == log;
    }
  }

  /** The log with one more call handled in its last turn. */
  function Extended(log: seq<TurnLog>, e: Event): seq<TurnLog>
    requires log != []
  {
    var turn := log[|log| - 1];
    log[..|log| - 1] + [turn.(events := turn.events + [e])]
  }

  lemma {:induction false} ExtendedFacts(log: seq<TurnLog>, e: Event)
    requires log != []
    ensures Trace(Extended(log, e)) == Trace(log) + [e]
    ensures Render(Extended(log, e)) == Render(log) + RenderEvent(e)
  {
    var k := |log| - 1;
    var turn, log' := log[k], Extended(log, e);
    assert log'[..k] == log[..k];
    assert Trace(log[..k]) + (turn.events + [e]) == Trace(log[..k]) + turn.events + [e];
    assert Front(turn.events + [e]) == turn.events;
    assert [Assistant(turn.text, turn.calls)] + (RenderEvents(turn.events) + RenderEvent(e))
        == [Assistant(turn.text, turn.calls)] + RenderEvents(turn.events) + RenderEvent(e);
    assert Render(log[..k]) + (RenderTurn(turn) + RenderEvent(e)) ==
           Render(log[..k]) + RenderTurn(turn) + RenderEvent(e);
  }

  lemma TraceExtends(env: Environment, limits: AgentLimits, trace: seq<Event>, e: Event)
    requires TraceOk(env, limits, trace) && (trace == [] || StopAfter(limits, trace) == None)
    requires EventOk(env, trace, e) && |trace| < limits.maxTotalToolCalls
    ensures TraceOk(env, limits, trace + [e])
  {
    hide StopAfter, EventOk;
    var after := trace + [e];
    forall k | 0 <= k < |after| ensures EventOk(env, after[..k], after[k]) {
      assert after[..k] == trace[..k];
      if k == |trace| {
        assert trace[..k] == trace;
      }
    }
    forall k | 0 < k < |after| ensures StopAfter(limits, after[..k]) == None {
      assert after[..k] == trace[..k];
      if k == |trace| {
        assert trace[..k] == trace;
      }
    }
  }

  lemma ExtendedTurnOk(env: Environment, limits: AgentLimits, k: nat, turn: TurnLog, e: Event)
    requires TurnOk(env, limits, k, turn) && |turn.events| < |turn.calls| <= limits.maxToolCallsPerTurn
    requires e.call == turn.calls[|turn.events|] && e.result.callId == e.call.id
    ensures TurnOk(env, limits, k, turn.(events := turn.events + [e]))
  {
  }

  lemma ExtendedFits(limits: AgentLimits, log: seq<TurnLog>, e: Event)
    requires log != [] && TurnFits(limits, log)
    ensures TurnFits(limits, Extended(log, e))
  {
    hide Trace;
    assert Extended(log, e)[..|log| - 1] == log[..|log| - 1];
  }

  lemma ExtendedStarts(limits: AgentLimits, log: seq<TurnLog>, e: Event)
    requires log != [] && TurnFits(limits, log) && forall k :: 0 <= k < |log| ==> StartOk(limits, log, k)
    ensures forall k :: 0 <= k < |log| ==> StartOk(limits, Extended(log, e), k)
  {
    hide Trace, TurnFits, GoesOn;
    var log' := Extended(log, e);
    ExtendedFits(limits, log, e);
    assert log'[..|log|] == log';
    forall k | 0 <= k < |log| ensures StartOk(limits, log', k) {
      assert StartOk(limits, log, k) && log'[..k] == log[..k];
      assert k < |log| - 1 ==> log'[..k + 1] == log[..k + 1];
    }
  }

  lemma CallsBelowLimit(limits: AgentLimits, log: seq<TurnLog>)
    requires InCalls(limits, log)
    ensures |Trace(log)| < limits.maxTotalToolCalls && |log[|log| - 1].calls| <= limits.maxToolCallsPerTurn
  {
    hide StopAfter;
  }

  lemma ExtendedOk(env: Environment, limits: AgentLimits, log: seq<TurnLog>, e: Event)
    requires LogOk(env, limits, log) && InCalls(limits, log)
    requires e.call == log[|log| - 1].calls[|log[|log| - 1].events|] && e.result.callId == e.call.id
    requires EventOk(env, Trace(log), e)
    ensures LogOk(env, limits, Extended(log, e))
  {
    hide TraceOk, EventOk, StopAfter, Trace, TurnOk, StartOk, TurnFits;
    CallsBelowLimit(limits, log);
    ExtendedFacts(log, e);
    ExtendedStarts(limits, log, e);
    TraceExtends(env, limits, Trace(log), e);
    var log' := Extended(log, e);
    forall k | 0 <= k < |log'| ensures TurnOk(env, limits, k, log'[k]) {
      assert TurnOk(env, limits, k, log[k]);
      if k == |log| - 1 {
        ExtendedTurnOk(env, limits, k, log[k], e);
      }
    }
    forall k | 0 <= k < |log'| - 1 ensures Complete(log'[k]) {
      assert Complete(log[k]);
    }
  }

  /** How each counter moves when the trace grows by one call. */
  lemma RecordFacts(trace: seq<Event>, e: Event)
    ensures var after := trace + [e];
            && Failures(after) == Failures(trace) + (if e.result.status == Success then 0 else 1)
            && TrailingFailures(after) == (if e.result.status == Success then 0 else 1 + TrailingFailures(trace))
            && LastSignature(after) == Some(SignatureOf(e))
            && TrailingRepeats(after) ==
               (if LastSignature(trace) == Some(SignatureOf(e)) then 1 + TrailingRepeats(trace) else 1)
            && ChangedFiles(after) == ChangedFiles(trace) + (set f | f in e.result.affectedFiles)
            && Unvalidated(after) ==
               (IsChange(e.result) || (Unvalidated(trace) && !IsPassedValidation(e.call, e.result)))
            && NeedsRecovery(after)
               == (IsFailedValidation(e.call, e.result) || (NeedsRecovery(trace) && !IsRecovery(e.call, e.result)))
            && LastOutput(after) == (if IsComparable(e.call, e.result) then Some(e.result.content) else None)
            && TrailingStale(after)
               == (if LastOutput(after).None? then 0
                   else if LastOutput(trace) == LastOutput(after) then 1 + TrailingStale(trace)
                   else 1)
  {
    assert Front(trace + [e]) == trace;
  }

  lemma RecentLabelsStep(trace: seq<Event>, e: Event)
    ensures var pushed := RecentLabels(trace) + [e.call.name + " -> " + StatusLabel(e.result.status)];
            RecentLabels(trace + [e]) == if |pushed| > RECENT_TOOL_LOG_CAPACITY then pushed[1..] else pushed
  {
    assert Labels(trace + [e]) == Labels(trace) + [e.call.name + " -> " + StatusLabel(e.result.status)];
  }
}
