/** Deterministic progress facts about one agent run: the validation obligation, the recovery gate and
    the detection of stale exploration. */
module Progress {
  import opened Prelude

  datatype ToolStatus = Success | Failed | Cancelled | Denied

  /** The parts of a call's JSON arguments the runtime looks at, and their printed form. */
  datatype Arguments = Arguments(program: Option<string>, args: seq<Option<string>>, printed: string)

  datatype ToolCall = ToolCall(id: string, name: string, arguments: Arguments)

  datatype ToolResult = ToolResult(callId: string, status: ToolStatus, content: string, outputTruncated: bool,
                                   exitCode: Option<int>, truncated: bool, affectedFiles: seq<string>)

  const MAX_UNCHANGED_EXPLORATION_RESULTS := 3
  const MAX_RECOVERY_EVIDENCE_CHARS := 4000

  function ArgumentAt(arguments: Arguments, i: nat): string {
    if i < |arguments.args| && arguments.args[i].Some? then arguments.args[i].value else ""
  }

  predicate IsValidationCall(call: ToolCall) {
    call.name == "run_command" && call.arguments.program.Some? &&
    var program := call.arguments.program.value;
    var first, second := ArgumentAt(call.arguments, 0), ArgumentAt(call.arguments, 1);
    if program == "cargo" then first in ["build", "check", "clippy", "fmt", "test"]
    else if program == "go" then first in ["build", "test", "vet"]
    else if program in ["npm", "pnpm", "yarn", "bun"] then
      first in ["test", "build", "lint", "check"] || (first == "run" && second in ["test", "build", "lint", "check"])
    else
      program in ["pytest", "ruff", "eslint", "tsc", "mypy", "gradle", "./gradlew", "mvn", "./mvnw", "curl", "wget",
                  "http", "https", "Invoke-WebRequest", "Invoke-RestMethod", "iwr", "irm"]
  }

  predicate IsEditingCall(call: ToolCall) {
    call.name in ["write_file", "apply_patch"]
  }

  predicate IsRecoveryEvidence(call: ToolCall, result: ToolResult) {
    result.status == Success && call.name in ["read_file", "search", "list_files"]
  }

  predicate ValidationSucceeded(result: ToolResult) {
    result.status == Success && (result.exitCode.None? || result.exitCode.value == 0)
  }

  function RecoveryReminder(result: ToolResult): string {
    "Runtime recovery requirement:" + result.content[..Min(MAX_RECOVERY_EVIDENCE_CHARS, |result.content|)]
  }

  // ---------- What one call counts as ----------

  predicate IsChange(result: ToolResult) {
    result.affectedFiles != [] && result.status == Success
  }

  predicate IsPassedValidation(call: ToolCall, result: ToolResult) {
    !IsChange(result) && IsValidationCall(call) && ValidationSucceeded(result)
  }

  predicate IsFailedValidation(call: ToolCall, result: ToolResult) {
    !IsChange(result) && IsValidationCall(call) && !ValidationSucceeded(result)
  }

  predicate IsExploration(call: ToolCall, result: ToolResult) {
    !IsChange(result) && !IsValidationCall(call)
  }

  /** A recovery step: an exploration that is evidence, or a validation that passed. */
  predicate IsRecovery(call: ToolCall, result: ToolResult) {
    IsPassedValidation(call, result) || (IsExploration(call, result) && IsRecoveryEvidence(call, result))
  }

  /** An exploration whose complete, non-empty output can be compared with the next one. */
  predicate IsComparable(call: ToolCall, result: ToolResult) {
    IsExploration(call, result) && result.status == Success && !result.outputTruncated && result.content != []
  }

  // ---------- The progress state ----------

  datatype Facts = Facts(validationPending: bool, recoveryRequired: bool, lastExplorationOutput: Option<string>,
                         unchangedExplorationResults: nat, recoveryReminder: Option<string>)

  datatype ActionClass = Exploration | Change | Validation

  class TaskProgress {
    var validationPending: bool
    var recoveryRequired: bool
    var lastExplorationOutput: Option<string>
    var unchangedExplorationResults: nat
    var recoveryReminder: Option<string>

    constructor ()
      ensures View() == Facts(false, false, None, 0, None)
    {
      validationPending, recoveryRequired := false, false;
      lastExplorationOutput, unchangedExplorationResults, recoveryReminder := None, 0, None;
    }

    ghost function View(): Facts
      reads this
    {
      Facts(validationPending, recoveryRequired, lastExplorationOutput, unchangedExplorationResults, recoveryReminder)
    }

    predicate RequiresValidation()
      reads this
    {
      validationPending
    }

    predicate BlocksEdit(call: ToolCall)
      reads this
    {
      recoveryRequired && IsEditingCall(call)
    }

    predicate HasNoProgress()
      reads this
    {
      unchangedExplorationResults >= MAX_UNCHANGED_EXPLORATION_RESULTS
    }

    method TakeRecoveryReminder() returns (reminder: Option<string>)
      modifies this
      ensures reminder == old(recoveryReminder)
      ensures View() == old(View()).(recoveryReminder := None)
    {
      reminder := recoveryReminder;
      recoveryReminder := None;
    }

    method ResetExplorationProgress()
      modifies this
      ensures View() == old(View()).(lastExplorationOutput := None, unchangedExplorationResults := 0)
    {
      lastExplorationOutput := None;
      unchangedExplorationResults := 0;
    }

    method ObserveExplorationResult(result: ToolResult)
      modifies this
      ensures var before := old(View());
              View() ==
              if result.status != Success || result.outputTruncated || result.content == [] then
                before.(lastExplorationOutput := None, unchangedExplorationResults := 0)
              else if before.lastExplorationOutput == Some(result.content) then
                before.(unchangedExplorationResults := before.unchangedExplorationResults + 1)
              else
                before.(lastExplorationOutput := Some(result.content), unchangedExplorationResults := 1)
    {
      if result.status != Success || result.outputTruncated || result.content == [] {
        ResetExplorationProgress();
        return;
      }
      if lastExplorationOutput == Some(result.content) {
        unchangedExplorationResults := unchangedExplorationResults + 1;
      } else {
        lastExplorationOutput := Some(result.content);
        unchangedExplorationResults := 1;
      }
    }

    /** Records a completed call: each fact afterwards, in terms of what kind of call it was. */
    method Observe(call: ToolCall, result: ToolResult) returns (action: ActionClass)
      modifies this
      ensures action == if IsChange(result) then Change else if IsValidationCall(call) then Validation else Exploration
      ensures validationPending == (IsChange(result) || (old(validationPending) && !IsPassedValidation(call, result)))
      ensures recoveryRequired ==
              (IsFailedValidation(call, result) || (old(recoveryRequired) && !IsRecovery(call, result)))
      ensures lastExplorationOutput == if IsComparable(call, result) then Some(result.content) else None
      ensures unchangedExplorationResults ==
              if !IsComparable(call, result) then 0
              else if old(lastExplorationOutput) == Some(result.content) then old(unchangedExplorationResults) + 1
              else 1
      ensures recoveryReminder ==
              if IsFailedValidation(call, result) then Some(RecoveryReminder(result))
              else if IsPassedValidation(call, result) then None
              else old(recoveryReminder)
    {
      if result.affectedFiles != [] && result.status == Success {
        validationPending := true;
        ResetExplorationProgress();
        return Change;
      } else if IsValidationCall(call) {
        if ValidationSucceeded(result) {
          validationPending := false;
          recoveryRequired := false;
          recoveryReminder := None;
        } else {
          recoveryRequired := true;
          recoveryReminder := Some(RecoveryReminder(result));
        }
        ResetExplorationProgress();
        return Validation;
      } else {
        if recoveryRequired && IsRecoveryEvidence(call, result) {
          recoveryRequired := false;
        }
        ObserveExplorationResult(result);
        return Exploration;
      }
    }
  }
}
