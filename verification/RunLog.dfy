/** What one agent run did, turn by turn and call by call, and the counters and transcript that any
    such record determines. */
module RunLog {
  import opened Prelude
  import opened Progress

  datatype Event = Event(call: ToolCall, result: ToolResult, executed: bool)

  /** One inference turn: the assistant's reply and the calls handled so far, in request order. */
  datatype TurnLog = TurnLog(text: Option<string>, calls: seq<ToolCall>, events: seq<Event>)

  datatype AgentLimit =
    | MaxTurns
    | MaxTotalToolCalls
    | MaxToolCallsPerTurn
    | ConsecutiveFailures
    | RepeatedToolCall
    | ValidationPending
    | NoProgress

  datatype AgentLimits = AgentLimits(maxTurns: nat, maxTotalToolCalls: nat, maxToolCallsPerTurn: nat,
                                     maxConsecutiveFailures: nat)

  const RECENT_TOOL_LOG_CAPACITY := 5

  function Trace(log: seq<TurnLog>): seq<Event> {
    if log == [] then [] else Trace(log[..|log| - 1]) + log[|log| - 1].events
  }

  // ---------- Counters as functions of the trace ----------

  function Last(trace: seq<Event>): Event
    requires trace != []
  {
    trace[|trace| - 1]
  }

  function Front(trace: seq<Event>): seq<Event>
    requires trace != []
  {
    trace[..|trace| - 1]
  }

  /** The request and its evidence: what a repeat has to repeat. */
  datatype Signature = Signature(name: string, arguments: string, status: ToolStatus, exitCode: Option<int>,
                                 truncated: bool, outputTruncated: bool, content: string)

  function SignatureOf(e: Event): Signature {
    Signature(e.call.name, e.call.arguments.printed, e.result.status, e.result.exitCode, e.result.truncated,
              e.result.outputTruncated, e.result.content)
  }

  function LastSignature(trace: seq<Event>): Option<Signature> {
    if trace == [] then None else Some(SignatureOf(Last(trace)))
  }

  /** The length of the trailing run of calls with the same signature. */
  function TrailingRepeats(trace: seq<Event>): nat {
    if trace == [] then 0
    else if LastSignature(Front(trace)) == LastSignature(trace) then 1 + TrailingRepeats(Front(trace))
    else 1
  }

  /** The length of the trailing run of calls that did not succeed. */
  function TrailingFailures(trace: seq<Event>): nat {
    if trace == [] || Last(trace).result.status == Success then 0 else 1 + TrailingFailures(Front(trace))
  }

  function Failures(trace: seq<Event>): nat {
    if trace == [] then 0 else Failures(Front(trace)) + (if Last(trace).result.status == Success then 0 else 1)
  }

  function LastOutput(trace: seq<Event>): Option<string> {
    if trace != [] && IsComparable(Last(trace).call, Last(trace).result) then Some(Last(trace).result.content) else None
  }

  /** The length of the trailing run of explorations that returned the same comparable output. */
  function TrailingStale(trace: seq<Event>): nat {
    if LastOutput(trace).None? then 0
    else if LastOutput(Front(trace)) == LastOutput(trace) then 1 + TrailingStale(Front(trace))
    else 1
  }

  /** A file change no later validation has passed since. */
  predicate Unvalidated(trace: seq<Event>) {
    trace != [] &&
    (IsChange(Last(trace).result)
     || (!IsPassedValidation(Last(trace).call, Last(trace).result) && Unvalidated(Front(trace))))
  }

  /** A failed validation nothing has recovered from since. */
  predicate NeedsRecovery(trace: seq<Event>) {
    trace != [] &&
    (IsFailedValidation(Last(trace).call, Last(trace).result)
     || (!IsRecovery(Last(trace).call, Last(trace).result) && NeedsRecovery(Front(trace))))
  }

  function ChangedFiles(trace: seq<Event>): set<string> {
    if trace == [] then {} else ChangedFiles(Front(trace)) + (set f | f in Last(trace).result.affectedFiles)
  }

  function StatusLabel(status: ToolStatus): string {
    match status
    case Success => "ok"
    case Failed => "failed"
    case Cancelled => "cancelled"
    case Denied => "denied"
  }

  function Labels(trace: seq<Event>): seq<string> {
    seq(|trace|, i requires 0 <= i < |trace| => trace[i].call.name + " -> " + StatusLabel(trace[i].result.status))
  }

  function RecentLabels(trace: seq<Event>): seq<string> {
    if |trace| <= RECENT_TOOL_LOG_CAPACITY then Labels(trace) else Labels(trace)[|trace| - RECENT_TOOL_LOG_CAPACITY..]
  }

  function FactsOf(trace: seq<Event>): Facts {
    Facts(Unvalidated(trace), NeedsRecovery(trace), LastOutput(trace), TrailingStale(trace), None)
  }

  /** Why the loop stops right after this trace, if it does; earlier reasons win. */
  function StopAfter(limits: AgentLimits, trace: seq<Event>): Option<AgentLimit> {
    if TrailingRepeats(trace) >= 3 then Some(RepeatedToolCall)
    else if TrailingStale(trace) >= MAX_UNCHANGED_EXPLORATION_RESULTS then Some(NoProgress)
    else if TrailingFailures(trace) >= limits.maxConsecutiveFailures then Some(ConsecutiveFailures)
    else None
  }

  // ---------- The transcript as a function of the log ----------

  datatype ChatMessage =
    | System(text: string)
    | User(text: string)
    | Assistant(reply: Option<string>, toolCalls: seq<ToolCall>)
    | Tool(toolCallId: string, content: string)

  /** The answer to a call, followed by the recovery reminder if it was a validation that failed. */
  function RenderEvent(e: Event): seq<ChatMessage> {
    [Tool(e.result.callId, e.result.content)]
    + (if IsFailedValidation(e.call, e.result) then [System(RecoveryReminder(e.result))] else [])
  }

  function RenderEvents(events: seq<Event>): seq<ChatMessage> {
    if events == [] then [] else RenderEvents(Front(events)) + RenderEvent(Last(events))
  }

  function RenderTurn(turn: TurnLog): seq<ChatMessage> {
    [Assistant(turn.text, turn.calls)] + RenderEvents(turn.events)
  }

  function Render(log: seq<TurnLog>): seq<ChatMessage> {
    if log == [] then [] else Render(log[..|log| - 1]) + RenderTurn(log[|log| - 1])
  }
}
