/** Why a run ends, what its completion carries and what its transcript says, read off the calls and results
    themselves. */
module RunEndings {
  import opened Prelude
  import opened Progress
  import opened RunLog
  import opened AgentRun
  import opened RunTheorems

  // ---------- What one call was ----------

  /** It succeeded and changed some file. */
  predicate Changes(e: Event) {
    e.result.status == Success && e.result.affectedFiles != []
  }

  /** A validation that passed: it succeeded, with exit code zero or none, and changed nothing. */
  predicate ValidationPassed(e: Event) {
    && IsValidationCall(e.call) && e.result.status == Success && e.result.affectedFiles == []
    && (e.result.exitCode == None || e.result.exitCode == Some(0))
  }

  /** A validation that failed: it did not succeed, or changed nothing and exited with another code. */
  predicate ValidationFailed(e: Event) {
    && IsValidationCall(e.call)
    && (e.result.status == Success ==>
          e.result.affectedFiles == [] && e.result.exitCode != None && e.result.exitCode != Some(0))
  }

  /** New evidence: a look at the project that succeeded. */
  predicate Looked(e: Event) {
    && e.result.status == Success && e.result.affectedFiles == []
    && (e.call.name == "read_file" || e.call.name == "search" || e.call.name == "list_files")
  }

  lemma KindsMean(e: Event)
    ensures IsChange(e.result) <==> Changes(e)
    ensures IsPassedValidation(e.call, e.result) <==> ValidationPassed(e)
    ensures IsFailedValidation(e.call, e.result) <==> ValidationFailed(e)
    ensures IsRecovery(e.call, e.result) <==> ValidationPassed(e) || Looked(e)
  {
  }

  // ---------- The three counters, meant literally ----------

  /** The same request with the same evidence. */
  predicate SameCall(a: Event, b: Event) {
    && a.call.name == b.call.name && a.call.arguments.printed == b.call.arguments.printed
    && a.result.status == b.result.status && a.result.exitCode == b.result.exitCode
    && a.result.truncated == b.result.truncated && a.result.outputTruncated == b.result.outputTruncated
    && a.result.content == b.result.content
  }

  /** An exploration whose output says something: a success that changed nothing and was no validation. */
  predicate Explores(e: Event) {
    && e.result.status == Success && e.result.affectedFiles == [] && !IsValidationCall(e.call)
    && !e.result.outputTruncated && e.result.content != ""
  }

  /** The last three of the first `n` calls are the same. */
  predicate Repeats(trace: seq<Event>, n: nat)
    requires n <= |trace|
  {
    n >= 3 && SameCall(trace[n - 3], trace[n - 1]) && SameCall(trace[n - 2], trace[n - 1])
  }

  /** The last three of the first `n` calls explore and find the same. */
  predicate Stalls(trace: seq<Event>, n: nat)
    requires n <= |trace|
  {
    && n >= 3 && Explores(trace[n - 3]) && Explores(trace[n - 2]) && Explores(trace[n - 1])
    && trace[n - 3].result.content == trace[n - 1].result.content
    && trace[n - 2].result.content == trace[n - 1].result.content
  }

  /** None of the last `allowed` of the first `n` calls succeeded. */
  predicate Fails(trace: seq<Event>, n: nat, allowed: nat)
    requires n <= |trace|
  {
    allowed <= n && forall i :: n - allowed <= i < n ==> trace[i].result.status != Success
  }

  lemma SignaturesMean(a: Event, b: Event)
    ensures SignatureOf(a) == SignatureOf(b) <==> SameCall(a, b)
  {
  }

  lemma ComparableMeans(e: Event)
    ensures IsComparable(e.call, e.result) <==> Explores(e)
  {
  }

  lemma RepeatsMean(trace: seq<Event>)
    ensures TrailingRepeats(trace) >= 3 <==> Repeats(trace, |trace|)
  {
    hide SignatureOf, SameCall;
    if |trace| >= 3 {
      SignaturesMean(trace[|trace| - 3], trace[|trace| - 1]);
      SignaturesMean(trace[|trace| - 2], trace[|trace| - 1]);
      SignaturesMean(trace[|trace| - 3], trace[|trace| - 2]);
      var front := Front(trace);
      assert Front(front) == trace[..|trace| - 2];
      TrailingRepeatsExact(trace);
      TrailingRepeatsExact(front);
      TrailingRepeatsExact(Front(front));
    } else if trace != [] {
      TrailingRepeatsExact(trace);
    }
  }

  lemma StallsMean(trace: seq<Event>)
    ensures TrailingStale(trace) >= 3 <==> Stalls(trace, |trace|)
  {
    hide IsComparable, Explores;
    forall i | 0 <= i < |trace| ensures IsComparable(trace[i].call, trace[i].result) <==> Explores(trace[i]) {
      ComparableMeans(trace[i]);
    }
    if |trace| >= 3 {
      var front := Front(trace);
      assert Last(front) == trace[|trace| - 2] && Last(Front(front)) == trace[|trace| - 3];
      StaleUnfolds(trace);
      StaleUnfolds(front);
      StaleUnfolds(Front(front));
    } else if |trace| > 0 {
      StaleUnfolds(trace);
      if |trace| == 2 {
        StaleUnfolds(Front(trace));
      }
    }
  }

  lemma StaleUnfolds(trace: seq<Event>)
    requires trace != []
    ensures IsComparable(Last(trace).call, Last(trace).result) <==> TrailingStale(trace) > 0
    ensures TrailingStale(trace) > 1 <==>
            && IsComparable(Last(trace).call, Last(trace).result) && |trace| > 1
            && IsComparable(Last(Front(trace)).call, Last(Front(trace)).result)
            && Last(Front(trace)).result.content == Last(trace).result.content
    ensures TrailingStale(trace) > 1 ==> TrailingStale(trace) == 1 + TrailingStale(Front(trace))
  {
    hide IsComparable;
  }

  lemma FailsMean(trace: seq<Event>, allowed: nat)
    ensures TrailingFailures(trace) >= allowed <==> Fails(trace, |trace|, allowed)
  {
    TrailingFailuresExact(trace);
    if Fails(trace, |trace|, allowed) {
      FailuresInARow(trace, allowed);
    }
  }

  /** The decision after every call, without the counters. */
  lemma StopMeans(limits: AgentLimits, trace: seq<Event>)
    ensures var n := |trace|;
            StopAfter(limits, trace) ==
            if Repeats(trace, n) then Some(RepeatedToolCall)
            else if Stalls(trace, n) then Some(NoProgress)
            else if Fails(trace, n, limits.maxConsecutiveFailures) then Some(ConsecutiveFailures)
            else None
  {
    hide Repeats, Stalls, Fails, TrailingRepeats, TrailingStale, TrailingFailures;
    RepeatsMean(trace);
    StallsMean(trace);
    FailsMean(trace, limits.maxConsecutiveFailures);
  }

  // ---------- Why a run ends ----------

  function LastTurn(log: seq<TurnLog>): TurnLog
    requires log != []
  {
    log[|log| - 1]
  }

  lemma TurnShape(env: Environment, limits: AgentLimits, log: seq<TurnLog>, k: nat)
    requires LogOk(env, limits, log) && k < |log|
    ensures |log[k].events| <= |log[k].calls| && |Trace(log)| <= limits.maxTotalToolCalls
  {
    hide Trace, StartOk, EventOk, StopAfter;
    assert TurnOk(env, limits, k, log[k]);
  }

  lemma NothingRepeats(limits: AgentLimits, log: seq<TurnLog>)
    requires Trace(log) == []
    ensures !Repeats(Trace(log), 0) && !Stalls(Trace(log), 0)
  {
  }

  /** One of the three reasons to stop holds after the first `n` calls. */
  predicate Stops(limits: AgentLimits, trace: seq<Event>, n: nat)
    requires n <= |trace|
  {
    n > 0 && (Repeats(trace, n) || Stalls(trace, n) || Fails(trace, n, limits.maxConsecutiveFailures))
  }

  lemma GoesOnMeans(limits: AgentLimits, log: seq<TurnLog>)
    ensures GoesOn(limits, log) <==> !Stops(limits, Trace(log), |Trace(log)|)
  {
    hide Repeats, Stalls, Fails, StopAfter;
    StopMeans(limits, Trace(log));
  }

  /** The stops of a prefix are those of the whole, seen earlier. */
  lemma StopsEarlier(limits: AgentLimits, trace: seq<Event>, n: nat)
    requires n <= |trace|
    ensures Stops(limits, trace[..n], n) <==> Stops(limits, trace, n)
  {
    hide SameCall, Explores;
    assert forall i :: 0 <= i < n ==> trace[..n][i] == trace[i];
  }

  /** While a run is under way no reason to stop has held: each call but the last left it going. */
  lemma NoEarlierStop(env: Environment, limits: AgentLimits, log: seq<TurnLog>, n: nat)
    requires LogOk(env, limits, log) && n < |Trace(log)|
    ensures !Stops(limits, Trace(log), n)
  {
    hide Repeats, Stalls, Fails, StopAfter, EventOk, StartOk, TurnOk;
    var trace := Trace(log);
    if n > 0 {
      assert StopAfter(limits, trace[..n]) == None;
      StopMeans(limits, trace[..n]);
      StopsEarlier(limits, trace, n);
    }
  }

  lemma {:induction false} LastEvents(log: seq<TurnLog>)
    requires log != []
    ensures log[|log| - 1].events == [] ==> Trace(log) == Trace(log[..|log| - 1])
    ensures log[|log| - 1].events != [] ==> Trace(log) != []
  {
  }

  /** A run that ends before it handles any call of its last turn was not stopped by a call. */
  lemma FreshTurnGoesOn(env: Environment, limits: AgentLimits, log: seq<TurnLog>)
    requires LogOk(env, limits, log) && log != [] && log[|log| - 1].events == []
    ensures !Stops(limits, Trace(log), |Trace(log)|)
  {
    hide Stops, TraceOk, TurnOk, Trace, TurnFits;
    var k := |log| - 1;
    assert StartOk(limits, log, k);
    LastEvents(log);
    if k > 0 {
      GoesOnMeans(limits, log[..k]);
    } else {
      assert log[..k] == [];
      NoCallsNoStop(limits, log[..k]);
    }
  }

  lemma NoCallsNoStop(limits: AgentLimits, log: seq<TurnLog>)
    requires log == []
    ensures !Stops(limits, Trace(log), |Trace(log)|)
  {
  }

  /** Every call that changed a file was followed by a validation that passed. */
  ghost predicate Validated(trace: seq<Event>) {
    forall i :: 0 <= i < |trace| && Changes(trace[i]) ==> exists j :: i < j < |trace| && ValidationPassed(trace[j])
  }

  lemma ValidatedMeans(trace: seq<Event>)
    ensures Validated(trace) <==> !Unvalidated(trace)
  {
    hide IsChange, IsPassedValidation, Unvalidated, Changes, ValidationPassed;
    UnvalidatedMeans(trace);
    forall i | 0 <= i < |trace|
      ensures Changes(trace[i]) <==> IsChange(trace[i].result)
      ensures ValidationPassed(trace[i]) <==> IsPassedValidation(trace[i].call, trace[i].result)
    {
      KindsMean(trace[i]);
    }
    if Unvalidated(trace) {
      var i :| 0 <= i < |trace| && IsChange(trace[i].result)
               && forall j :: i < j < |trace| ==> !IsPassedValidation(trace[j].call, trace[j].result);
      assert Changes(trace[i]);
    } else {
      forall i | 0 <= i < |trace| && Changes(trace[i])
        ensures exists j :: i < j < |trace| && ValidationPassed(trace[j])
      {
        assert IsChange(trace[i].result);
        var j :| i < j < |trace| && IsPassedValidation(trace[j].call, trace[j].result);
        assert ValidationPassed(trace[j]);
      }
    }
  }

  /** The exact reason of every completed run, with no other that could have been given:
      no call but the last left the run with a reason to stop; the last one left it with the first reason that holds
      after it; and a run that no call stopped ends at its turn limit after a turn handled completely, or with a turn
      that asks for more calls than are left, or with a turn that asks for none, normally or with a change that
      nothing validated. */
  lemma EndingReasons(env: Environment, limits: AgentLimits, seed: seq<ChatMessage>, prompt: string, log: seq<TurnLog>,
                      completion: AgentCompletion)
    requires Explains(env, limits, seed, prompt, log, Ok(completion))
    ensures forall n :: 0 <= n < |Trace(log)| ==> !Stops(limits, Trace(log), n)
    ensures var trace, reason := Trace(log), completion.termination;
            var n := |trace|;
            && (reason == BudgetExhausted(RepeatedToolCall) <==> Repeats(trace, n))
            && (reason == BudgetExhausted(NoProgress) <==> !Repeats(trace, n) && Stalls(trace, n))
            && (reason == BudgetExhausted(ConsecutiveFailures) <==>
                n > 0 && !Repeats(trace, n) && !Stalls(trace, n) && Fails(trace, n, limits.maxConsecutiveFailures))
    ensures var trace, reason := Trace(log), completion.termination;
            && (reason == BudgetExhausted(MaxTurns) <==>
                && |log| == limits.maxTurns && !Stops(limits, trace, |trace|)
                && (log == [] || (LastTurn(log).calls != [] && |LastTurn(log).events| == |LastTurn(log).calls|)))
            && (reason == BudgetExhausted(MaxTotalToolCalls) <==>
                log != [] && LastTurn(log).calls != [] && LastTurn(log).events == [])
            && (reason == BudgetExhausted(MaxTotalToolCalls) ==>
                  |trace| + |LastTurn(log).calls| > limits.maxTotalToolCalls)
            && (reason == BudgetExhausted(ValidationPending) <==>
                log != [] && LastTurn(log).calls == [] && !Validated(trace))
            && (reason == Normal <==> log != [] && LastTurn(log).calls == [] && Validated(trace))
  {
    hide Repeats, Stalls, Fails, StopAfter, EventOk, TurnOk, StartOk, Trace, Validated, Unvalidated, Failures;
    var trace := Trace(log);
    forall n | 0 <= n < |trace| ensures !Stops(limits, trace, n) {
      NoEarlierStop(env, limits, log, n);
    }
    ValidatedMeans(trace);
    GoesOnMeans(limits, log);
    StopMeans(limits, trace);
    if log == [] {
      TraceOfNothing();
      NothingRepeats(limits, log);
    } else {
      var k := |log| - 1;
      LastEvents(log);
      TurnShape(env, limits, log, k);
      if log[k].events == [] {
        FreshTurnGoesOn(env, limits, log);
      }
      if trace == [] {
        NothingRepeats(limits, log);
      }
    }
  }

  /** The exact place of every error: a provider failure between two turns of a run that had turns left and no reason
      to stop; or a turn that asks for more calls than one turn may, though they are left. */
  lemma ErrorReasons(env: Environment, limits: AgentLimits, seed: seq<ChatMessage>, prompt: string, log: seq<TurnLog>,
                     error: AgentError)
    requires Explains(env, limits, seed, prompt, log, Err(error))
    ensures forall n :: 0 <= n < |Trace(log)| ==> !Stops(limits, Trace(log), n)
    ensures error.ProviderError? ==>
              && |log| < limits.maxTurns && env.turn(|log|) == TurnFailed(error.error) && !env.cancelledAtTurn(|log|)
              && (log == [] || (LastTurn(log).calls != [] && |LastTurn(log).events| == |LastTurn(log).calls|))
              && !Stops(limits, Trace(log), |Trace(log)|)
    ensures error.LimitReached? ==>
              && error.limit == MaxToolCallsPerTurn && log != [] && LastTurn(log).events == []
              && |LastTurn(log).calls| > limits.maxToolCallsPerTurn
              && |Trace(log)| + |LastTurn(log).calls| <= limits.maxTotalToolCalls
  {
    hide Repeats, Stalls, Fails, StopAfter, EventOk, TurnOk, StartOk, Trace, InCalls, Ends;
    forall n | 0 <= n < |Trace(log)| ensures !Stops(limits, Trace(log), n) {
      NoEarlierStop(env, limits, log, n);
    }
    GoesOnMeans(limits, log);
  }

  /** Cancellation is never overlooked and never made up: no turn began and no call was handled once it could be seen,
      nothing was landed after it, and a run is cancelled only where the environment cancels it next. */
  lemma CancellationSeen(env: Environment, limits: AgentLimits, seed: seq<ChatMessage>, prompt: string,
                         log: seq<TurnLog>, outcome: Result<AgentCompletion, AgentError>)
    requires Explains(env, limits, seed, prompt, log, outcome)
    ensures forall k :: 0 <= k < |log| ==>
              && !env.cancelledAtTurn(k) && env.turn(k).Replied?
              && log[k].text == env.turn(k).text && log[k].calls == env.turn(k).calls
    ensures forall n :: 0 <= n < |Trace(log)| ==> !env.cancelledAtCall(n)
    ensures outcome.Ok? && outcome.value.termination.BudgetExhausted? ==>
              !env.cancelledAtLanding && env.landing != TurnCancelled
    ensures outcome.Ok? && outcome.value.termination == BudgetExhausted(MaxTurns) ==> !env.cancelledAtTurn(|log|)
    ensures outcome == Err(RunCancelled) ==>
              || env.cancelledAtTurn(|log|) || env.turn(|log|) == TurnCancelled
              || env.cancelledAtCall(|Trace(log)|) || env.tool(|Trace(log)|) == ToolCancelled
              || env.cancelledAtLanding || env.landing == TurnCancelled
  {
    hide StopAfter, StartOk, Trace, Render, AtHead, InCalls, EndsWith, LastTokens, ChangedFiles, RecentLabels, Failures;
    forall k | 0 <= k < |log|
      ensures !env.cancelledAtTurn(k) && env.turn(k).Replied?
      ensures log[k].text == env.turn(k).text && log[k].calls == env.turn(k).calls
    {
      assert TurnOk(env, limits, k, log[k]);
    }
    forall n | 0 <= n < |Trace(log)| ensures !env.cancelledAtCall(n) {
      HandledCalls(env, limits, log, n);
    }
  }

  // ---------- What was handled ----------

  /** Each handled call, against the environment: nobody had cancelled, and its result is what its tool returned for
      that call number, or, when it is held back, a failure that says so, has no exit code and changed nothing. Only
      edits are ever held back. */
  lemma HandledCalls(env: Environment, limits: AgentLimits, log: seq<TurnLog>, n: nat)
    requires LogOk(env, limits, log) && n < |Trace(log)|
    ensures var e := Trace(log)[n];
            && !env.cancelledAtCall(n) && e.result.callId == e.call.id
            && (e.executed ==>
                  && env.tool(n).Finished?
                  && e.result.status == env.tool(n).status && e.result.content == env.tool(n).content
                  && e.result.outputTruncated == env.tool(n).outputTruncated
                  && e.result.exitCode == env.tool(n).exitCode
                  && e.result.truncated == env.tool(n).truncated && e.result.affectedFiles == env.tool(n).affectedFiles)
            && (!e.executed ==>
                  && (e.call.name == "write_file" || e.call.name == "apply_patch")
                  && e.result.status == Failed && e.result.content == "The last validation failed."
                  && e.result.exitCode == None && !e.result.truncated && !e.result.outputTruncated
                  && e.result.affectedFiles == [])
  {
    hide StopAfter, NeedsRecovery, Trace, StartOk, TurnOk;
    var trace := Trace(log);
    assert EventOk(env, trace[..n], trace[n]);
  }

  /** The recovery gate over a whole run: an edit is held back exactly when some earlier validation failed and
      neither a passing validation nor a look at the project came between the two. */
  lemma EditsGated(env: Environment, limits: AgentLimits, log: seq<TurnLog>, n: nat)
    requires LogOk(env, limits, log) && n < |Trace(log)|
    requires Trace(log)[n].call.name == "write_file" || Trace(log)[n].call.name == "apply_patch"
    ensures var trace := Trace(log);
            !trace[n].executed <==>
            exists j :: 0 <= j < n && ValidationFailed(trace[j])
              && forall k :: j < k < n ==> !ValidationPassed(trace[k]) && !Looked(trace[k])
  {
    hide StopAfter, NeedsRecovery, Trace, StartOk, TurnOk, EventOk, IsFailedValidation, IsRecovery;
    hide ValidationFailed, ValidationPassed, Looked;
    var trace := Trace(log);
    RecoveryGate(env, limits, trace, n);
    forall j | 0 <= j < |trace|
      ensures ValidationFailed(trace[j]) <==> IsFailedValidation(trace[j].call, trace[j].result)
      ensures ValidationPassed(trace[j]) || Looked(trace[j]) <==> IsRecovery(trace[j].call, trace[j].result)
    {
      KindsMean(trace[j]);
    }
    if trace[n].executed {
      forall j | 0 <= j < n && ValidationFailed(trace[j])
        ensures exists k :: j < k < n && (ValidationPassed(trace[k]) || Looked(trace[k]))
      {
        assert IsFailedValidation(trace[j].call, trace[j].result);
        var k :| j < k < n && IsRecovery(trace[k].call, trace[k].result);
        assert ValidationPassed(trace[k]) || Looked(trace[k]);
      }
    } else {
      var j :| 0 <= j < n && IsFailedValidation(trace[j].call, trace[j].result)
               && forall k :: j < k < n ==> !IsRecovery(trace[k].call, trace[k].result);
      assert ValidationFailed(trace[j]);
    }
  }

  const SCRIPTS: set<seq<string>> := {
    ["test"], ["build"], ["lint"], ["check"], ["run", "test"], ["run", "build"], ["run", "lint"], ["run", "check"]}

  /** The validating commands: for each program the first words one of which its arguments have to begin with. */
  const VALIDATIONS: map<string, set<seq<string>>> := map[
    "cargo" := {["build"], ["check"], ["clippy"], ["fmt"], ["test"]}, "go" := {["build"], ["test"], ["vet"]},
    "npm" := SCRIPTS, "pnpm" := SCRIPTS, "yarn" := SCRIPTS, "bun" := SCRIPTS,
    "pytest" := {[]}, "ruff" := {[]}, "eslint" := {[]}, "tsc" := {[]}, "mypy" := {[]}, "gradle" := {[]},
    "./gradlew" := {[]}, "mvn" := {[]}, "./mvnw" := {[]}, "curl" := {[]}, "wget" := {[]}, "http" := {[]},
    "https" := {[]}, "Invoke-WebRequest" := {[]}, "Invoke-RestMethod" := {[]}, "iwr" := {[]}, "irm" := {[]}]

  predicate BeginsWith(args: seq<Option<string>>, words: seq<string>) {
    |words| <= |args| && forall i :: 0 <= i < |words| ==> args[i] == Some(words[i])
  }

  /** Some words of the table open the arguments. */
  ghost predicate Listed(args: seq<Option<string>>, table: set<seq<string>>) {
    exists words :: words in table && BeginsWith(args, words)
  }

  predicate FirstWord(args: seq<Option<string>>, words: set<string>) {
    |args| > 0 && args[0].Some? && args[0].value in words
  }

  lemma OneWord(args: seq<Option<string>>, word: string)
    ensures BeginsWith(args, [word]) <==> |args| > 0 && args[0] == Some(word)
  {
  }

  lemma TwoWords(args: seq<Option<string>>, first: string, second: string)
    ensures BeginsWith(args, [first, second]) <==> |args| > 1 && args[0] == Some(first) && args[1] == Some(second)
  {
  }

  lemma CargoListed(args: seq<Option<string>>)
    ensures Listed(args, {["build"], ["check"], ["clippy"], ["fmt"], ["test"]}) <==>
            FirstWord(args, {"build", "check", "clippy", "fmt", "test"})
  {
    hide BeginsWith;
    forall word: string ensures BeginsWith(args, [word]) <==> |args| > 0 && args[0] == Some(word) {
      OneWord(args, word);
    }
  }

  lemma GoListed(args: seq<Option<string>>)
    ensures Listed(args, {["build"], ["test"], ["vet"]}) <==> FirstWord(args, {"build", "test", "vet"})
  {
    hide BeginsWith;
    forall word: string ensures BeginsWith(args, [word]) <==> |args| > 0 && args[0] == Some(word) {
      OneWord(args, word);
    }
  }

  lemma ScriptsListed(args: seq<Option<string>>)
    ensures Listed(args, SCRIPTS) <==>
            || FirstWord(args, {"test", "build", "lint", "check"})
            || (FirstWord(args, {"run"}) && FirstWord(args[1..], {"test", "build", "lint", "check"}))
  {
    hide BeginsWith;
    forall word: string ensures BeginsWith(args, [word]) <==> |args| > 0 && args[0] == Some(word) {
      OneWord(args, word);
    }
    forall second: string
      ensures BeginsWith(args, ["run", second]) <==> |args| > 1 && args[0] == Some("run") && args[1] == Some(second)
    {
      TwoWords(args, "run", second);
    }
  }

  lemma AnyListed(args: seq<Option<string>>)
    ensures Listed(args, {[]})
  {
    var none: seq<string> := [];
    assert none in {none} && BeginsWith(args, none);
  }

  lemma Table(program: string)
    ensures program == "cargo" <==>
            program in VALIDATIONS && VALIDATIONS[program] == {["build"], ["check"], ["clippy"], ["fmt"], ["test"]}
    ensures program == "go" <==> program in VALIDATIONS && VALIDATIONS[program] == {["build"], ["test"], ["vet"]}
    ensures program in ["npm", "pnpm", "yarn", "bun"] <==> program in VALIDATIONS && VALIDATIONS[program] == SCRIPTS
    ensures program in VALIDATIONS ==>
              || program in ["cargo", "go", "npm", "pnpm", "yarn", "bun"]
              || (program in ["pytest", "ruff", "eslint", "tsc", "mypy", "gradle", "./gradlew", "mvn", "./mvnw", "curl",
                              "wget", "http", "https", "Invoke-WebRequest", "Invoke-RestMethod", "iwr", "irm"]
                  && VALIDATIONS[program] == {[]})
    ensures program in ["pytest", "ruff", "eslint", "tsc", "mypy", "gradle", "./gradlew", "mvn", "./mvnw", "curl",
                        "wget", "http", "https", "Invoke-WebRequest", "Invoke-RestMethod", "iwr", "irm"] ==>
              program in VALIDATIONS && VALIDATIONS[program] == {[]}
  {
    assert ["build"] in {["build"], ["test"], ["vet"]} && ["build"] !in {[]};
  }

  /** A call counts as a validation exactly when it runs a command of the table. */
  lemma ValidationCallsMean(call: ToolCall)
    ensures IsValidationCall(call) <==>
            && call.name == "run_command" && call.arguments.program.Some?
            && call.arguments.program.value in VALIDATIONS
            && Listed(call.arguments.args, VALIDATIONS[call.arguments.program.value])
  {
    hide Listed;
    if call.arguments.program.Some? {
      var args := call.arguments.args;
      Table(call.arguments.program.value);
      CargoListed(args);
      GoListed(args);
      ScriptsListed(args);
      AnyListed(args);
    }
  }

  // ---------- The transcript ----------

  /** The messages about one call: its result under its id, and right after it, if it was a validation that failed, a
      reminder with the beginning of its output. */
  function RetoldOnce(e: Event): seq<ChatMessage> {
    var evidence := e.result.content[..Min(4000, |e.result.content|)];
    [Tool(e.result.callId, e.result.content)]
    + (if ValidationFailed(e) then [System("Runtime recovery requirement:" + evidence)] else [])
  }

  function Retold(events: seq<Event>): seq<ChatMessage> {
    if events == [] then [] else RetoldOnce(events[0]) + Retold(events[1..])
  }

  function ToldTurn(turn: TurnLog): seq<ChatMessage> {
    [Assistant(turn.text, turn.calls)] + Retold(turn.events)
  }

  /** The messages of a run, first turn to last. */
  function Told(log: seq<TurnLog>): seq<ChatMessage> {
    if log == [] then [] else ToldTurn(log[0]) + Told(log[1..])
  }

  lemma RetoldOne(e: Event)
    ensures Retold([e]) == RenderEvent(e)
  {
    var events: seq<Event> := [e];
    assert events[1..] == [];
  }

  lemma Regroup<T>(a: seq<T>, b: seq<T>, c: seq<T>)
    ensures a + b + c == a + (b + c)
  {
  }

  lemma RetoldCons(e: Event, rest: seq<Event>)
    ensures Retold([e] + rest) == RetoldOnce(e) + Retold(rest)
  {
    hide RetoldOnce;
    assert ([e] + rest)[1..] == rest;
  }

  lemma {:induction false} RetoldAppend(a: seq<Event>, b: seq<Event>)
    ensures Retold(a + b) == Retold(a) + Retold(b)
  {
    hide Retold;
    if a == [] {
      assert a + b == b;
      NothingRetold();
    } else {
      RetoldAppend(a[1..], b);
      RetoldCons(a[0], a[1..] + b);
      RetoldCons(a[0], a[1..]);
      assert a == [a[0]] + a[1..] && a + b == [a[0]] + (a[1..] + b);
      Regroup(RetoldOnce(a[0]), Retold(a[1..]), Retold(b));
    }
  }

  lemma {:induction false} EventsRetold(events: seq<Event>)
    ensures RenderEvents(events) == Retold(events)
  {
    hide RenderEvent, Retold;
    if events == [] {
      NothingRetold();
    } else {
      EventsRetold(Front(events));
      RetoldAppend(Front(events), [Last(events)]);
      RetoldOne(Last(events));
      assert events == Front(events) + [Last(events)];
    }
  }

  lemma NothingRetold()
    ensures Retold([]) == []
  {
  }

  lemma ToldCons(turn: TurnLog, rest: seq<TurnLog>)
    ensures Told([turn] + rest) == ToldTurn(turn) + Told(rest)
  {
    hide ToldTurn;
    assert ([turn] + rest)[1..] == rest;
  }

  lemma {:induction false} ToldAppend(a: seq<TurnLog>, b: seq<TurnLog>)
    ensures Told(a + b) == Told(a) + Told(b)
  {
    hide Told;
    if a == [] {
      assert a + b == b;
      NothingTold();
    } else {
      ToldAppend(a[1..], b);
      ToldCons(a[0], a[1..] + b);
      ToldCons(a[0], a[1..]);
      assert a == [a[0]] + a[1..] && a + b == [a[0]] + (a[1..] + b);
      Regroup(ToldTurn(a[0]), Told(a[1..]), Told(b));
    }
  }

  lemma NothingTold()
    ensures Told([]) == []
  {
  }

  /** The transcript of a run tells its turns first to last, each with its reply, its calls and what came of them. */
  lemma {:induction false} TranscriptTold(log: seq<TurnLog>)
    ensures Render(log) == Told(log)
  {
    hide Retold, RenderEvents;
    if log != [] {
      var front, turn := log[..|log| - 1], log[|log| - 1];
      TranscriptTold(front);
      ToldAppend(front, [turn]);
      EventsRetold(turn.events);
      var one: seq<TurnLog> := [turn];
      assert one[1..] == [] && Told(one) == RenderTurn(turn);
      assert log == front + [turn];
    }
  }

  // ---------- What a completion carries ----------

  lemma {:induction false} ChangedMeans(trace: seq<Event>, file: string)
    ensures file in ChangedFiles(trace) <==>
            exists i :: 0 <= i < |trace| && file in trace[i].result.affectedFiles
  {
    if trace != [] {
      ChangedMeans(Front(trace), file);
      assert forall i :: 0 <= i < |trace| - 1 ==> Front(trace)[i] == trace[i];
    }
  }

  /** The calls a local summary lists: the last five, oldest first, with what came of them. */
  lemma RecentMeans(trace: seq<Event>, i: nat)
    requires i < Min(5, |trace|)
    ensures |RecentLabels(trace)| == Min(5, |trace|)
    ensures var e := trace[|trace| - Min(5, |trace|) + i];
            RecentLabels(trace)[i] == e.call.name + " -> " +
            (match e.result.status
             case Success => "ok"
             case Failed => "failed"
             case Cancelled => "cancelled"
             case Denied => "denied")
  {
    hide StatusLabel;
    StatusLabels();
  }

  lemma StatusLabels()
    ensures StatusLabel(Success) == "ok" && StatusLabel(Failed) == "failed"
    ensures StatusLabel(Cancelled) == "cancelled" && StatusLabel(Denied) == "denied"
  {
  }

  /** The input tokens of a run: those of the last turn that reported any. */
  lemma {:induction false} TokensMean(env: Environment, n: nat)
    ensures LastTokens(env, n).Some? ==>
              exists k :: 0 <= k < n && Reports(env.turn(k)) && LastTokens(env, n) == env.turn(k).inputTokens
                && forall j :: k < j < n ==> !Reports(env.turn(j))
    ensures LastTokens(env, n).None? ==> forall k :: 0 <= k < n ==> !Reports(env.turn(k))
  {
    if n > 0 && !Reports(env.turn(n - 1)) {
      TokensMean(env, n - 1);
    }
  }

  predicate Reports(outcome: TurnOutcome) {
    outcome.Replied? && outcome.inputTokens.Some?
  }

  /** What a completion carries. Its transcript is the history, the prompt and what `Told` tells, and when a limit
      ended the run the landing prompt and the summary; its counters count the calls and those that did not succeed;
      its text is the last reply, or the landing reply, or, without one, the local summary. */
  lemma CompletionMeans(env: Environment, limits: AgentLimits, seed: seq<ChatMessage>, prompt: string,
                        log: seq<TurnLog>, completion: AgentCompletion)
    requires Explains(env, limits, seed, prompt, log, Ok(completion))
    ensures var told := seed + [User(prompt)] + Told(log);
            completion.history ==
            match completion.termination
            case Normal => told
            case BudgetExhausted(ValidationPending) =>
              told + [User("You changed project files but did not validate them."),
                      Assistant(Some(completion.finalText), [])]
            case BudgetExhausted(_) =>
              told + [User("You've reached this run's safety budget and must stop now."),
                      Assistant(Some(completion.finalText), [])]
    ensures completion.termination == Normal ==>
              && log != [] && completion.stats.turns == |log|
              && completion.finalText == (if LastTurn(log).text.Some? then LastTurn(log).text.value else "")
    ensures completion.termination.BudgetExhausted? ==>
              && completion.stats.turns == |log| + (if env.landing.Replied? then 1 else 0)
              && (env.landing.Replied? && env.landing.text.Some? ==> completion.finalText == env.landing.text.value)
              && (!env.landing.Replied? || env.landing.text.None? ==>
                    completion.finalText ==
                    env.fallbackSummary(completion.termination.limit, ChangedFiles(Trace(log)),
                                        RecentLabels(Trace(log))))
    ensures completion.stats.toolCalls == |Trace(log)|
    ensures completion.stats.lastInputTokens ==
            if completion.termination.BudgetExhausted? && Reports(env.landing) then env.landing.inputTokens
            else LastTokens(env, |log|)
  {
    hide LogOk, Trace, Render, Told, ChangedFiles, RecentLabels, LastTokens, StopAfter, Unvalidated, Failures, AtHead;
    TranscriptTold(log);
    assert seed + [User(prompt)] + Render(log) == seed + [User(prompt)] + Told(log);
  }
}
