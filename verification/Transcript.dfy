/** The transcript that every run leaves behind and that later requests are built on: which tool
    messages it may contain, which calls it answers, and what compaction keeps of it. */
module Transcript {
  import opened Prelude
  import opened Progress
  import opened RunLog
  import opened AgentRun
  import opened RunUniqueness
  import Text

  // ---------- Every tool message has its request ----------

  function CallIds(calls: seq<ToolCall>): set<string> {
    set c | c in calls :: c.id
  }

  /** The call ids assistant messages have listed since the latest user message. */
  function Open(history: seq<ChatMessage>): set<string> {
    if history == [] then {}
    else
      var front, last := Open(history[..|history| - 1]), history[|history| - 1];
      match last
      case User(_) => {}
      case Assistant(_, calls) => front + CallIds(calls)
      case _ => front
  }

  predicate Safe(history: seq<ChatMessage>) {
    history != [] ==>
      var front, last := history[..|history| - 1], history[|history| - 1];
      Safe(front) && (last.Tool? ==> last.toolCallId in Open(front))
  }

  ghost predicate Requests(history: seq<ChatMessage>, a: nat, t: nat, id: string)
    requires a < t <= |history|
  {
    && history[a].Assistant? && id in CallIds(history[a].toolCalls)
    && forall u :: a < u < t ==> !history[u].User?
  }

  lemma {:induction false} OpenMeans(history: seq<ChatMessage>, id: string)
    ensures id in Open(history) <==> exists a :: 0 <= a < |history| && Requests(history, a, |history|, id)
  {
    hide CallIds;
    if history != [] {
      var front, n := history[..|history| - 1], |history| - 1;
      OpenMeans(front, id);
      if a :| 0 <= a < |front| && Requests(front, a, |front|, id) && !history[n].User? {
        assert history[a] == front[a];
        forall u | a < u < |history| ensures !history[u].User? {
          assert u < n ==> front[u] == history[u];
        }
        assert Requests(history, a, |history|, id);
      }
      if history[n].Assistant? && id in CallIds(history[n].toolCalls) {
        assert Requests(history, n, |history|, id);
      }
      if a :| 0 <= a < |history| && Requests(history, a, |history|, id) {
        if a < n {
          assert !history[n].User?;
          assert front[a] == history[a];
          forall u | a < u < n ensures !front[u].User? {
            assert front[u] == history[u];
          }
          assert Requests(front, a, |front|, id);
        }
      }
    }
  }

  /** Safety, read over the whole history: every tool message answers a call that an assistant message
      listed since the latest user message. */
  lemma {:induction false} SafeMeans(history: seq<ChatMessage>)
    ensures Safe(history) <==>
            forall t :: 0 <= t < |history| && history[t].Tool? ==>
              exists a :: 0 <= a < t && Requests(history, a, t, history[t].toolCallId)
  {
    hide Requests, Open;
    if history != [] {
      var front, n := history[..|history| - 1], |history| - 1;
      SafeMeans(front);
      forall t: nat, a: nat, id | a < t <= n ensures Requests(front, a, t, id) <==> Requests(history, a, t, id) {
        RequestsPrefix(history, n, a, t, id);
      }
      if history[n].Tool? {
        OpenMeans(front, history[n].toolCallId);
      }
      assert forall t :: 0 <= t < n ==> front[t] == history[t];
    }
  }

  lemma RequestsPrefix(history: seq<ChatMessage>, n: nat, a: nat, t: nat, id: string)
    requires a < t <= n <= |history|
    ensures Requests(history[..n], a, t, id) <==> Requests(history, a, t, id)
  {
    var front := history[..n];
    assert forall u :: 0 <= u < n ==> front[u] == history[u];
  }

  /** Appending one message. */
  lemma {:induction false} SafeSnoc(history: seq<ChatMessage>, m: ChatMessage)
    ensures Safe(history + [m]) <==> Safe(history) && (m.Tool? ==> m.toolCallId in Open(history))
    ensures Open(history + [m]) ==
            match m
            case User(_) => {}
            case Assistant(_, calls) => Open(history) + CallIds(calls)
            case _ => Open(history)
  {
    assert (history + [m])[..|history|] == history;
  }

  /** A history may be cut in front of any user message: the two parts are safe exactly when it is. */
  lemma {:induction false} SafeCut(a: seq<ChatMessage>, b: seq<ChatMessage>)
    requires b != [] && b[0].User?
    ensures Safe(a + b) <==> Safe(a) && Safe(b)
    ensures Open(a + b) == Open(b)
  {
    var front, last := b[..|b| - 1], b[|b| - 1];
    assert b == front + [last];
    SafeSnoc(front, last);
    SafeSnoc(a + front, last);
    assert a + b == a + front + [last];
    if front != [] {
      SafeCut(a, front);
    } else {
      assert a + front == a;
      assert Safe([]) && Open([]) == {};
    }
  }

  // ---------- Runs keep it ----------

  lemma {:induction false} EventsSafe(base: seq<ChatMessage>, events: seq<Event>)
    requires Safe(base) && forall i :: 0 <= i < |events| ==> events[i].result.callId in Open(base)
    ensures Safe(base + RenderEvents(events)) && Open(base + RenderEvents(events)) == Open(base)
  {
    hide Safe, Open, IsFailedValidation;
    if events == [] {
      assert base + RenderEvents(events) == base;
    } else {
      var front, last := Front(events), Last(events);
      assert forall i :: 0 <= i < |front| ==> front[i] == events[i];
      EventsSafe(base, front);
      var h, answer := base + RenderEvents(front), Tool(last.result.callId, last.result.content);
      SafeSnoc(h, answer);
      SafeSnoc(h + [answer], System(RecoveryReminder(last.result)));
      assert RenderEvent(last) == [answer] || RenderEvent(last) == [answer] + [System(RecoveryReminder(last.result))];
      assert base + RenderEvents(events) == h + RenderEvent(last);
      assert h + ([answer] + [System(RecoveryReminder(last.result))]) ==
             h + [answer] + [System(RecoveryReminder(last.result))];
    }
  }

  lemma TurnSafe(base: seq<ChatMessage>, turn: TurnLog)
    requires Safe(base)
    requires |turn.events| <= |turn.calls|
    requires forall i :: 0 <= i < |turn.events| ==> turn.events[i].result.callId == turn.calls[i].id
    ensures Safe(base + RenderTurn(turn))
  {
    hide Safe, Open;
    var asked := base + [Assistant(turn.text, turn.calls)];
    SafeSnoc(base, Assistant(turn.text, turn.calls));
    forall i | 0 <= i < |turn.events| ensures turn.events[i].result.callId in Open(asked) {
      assert turn.calls[i] in turn.calls;
    }
    EventsSafe(asked, turn.events);
    assert base + RenderTurn(turn) == asked + RenderEvents(turn.events);
  }

  lemma {:induction false} LogSafe(env: Environment, limits: AgentLimits, base: seq<ChatMessage>, log: seq<TurnLog>)
    requires Safe(base) && forall k :: 0 <= k < |log| ==> TurnOk(env, limits, k, log[k])
    ensures Safe(base + Render(log))
  {
    hide Safe, RenderTurn;
    if log == [] {
      assert base + Render(log) == base;
    } else {
      var front, turn := log[..|log| - 1], log[|log| - 1];
      forall k | 0 <= k < |front| ensures TurnOk(env, limits, k, front[k]) {
        assert TurnOk(env, limits, k, log[k]);
      }
      LogSafe(env, limits, base, front);
      assert TurnOk(env, limits, |log| - 1, log[|log| - 1]);
      TurnSafe(base + Render(front), turn);
      assert base + Render(log) == base + Render(front) + RenderTurn(turn);
    }
  }

  /** Whatever a completed run's reason for ending, its transcript is safe if its seed was. */
  lemma RunKeepsSafe(env: Environment, limits: AgentLimits, seed: seq<ChatMessage>, prompt: string, log: seq<TurnLog>,
                     completion: AgentCompletion)
    requires Safe(seed) && LogOk(env, limits, log) && EndOk(env, limits, seed, prompt, log, completion)
    ensures Safe(completion.history)
  {
    hide Safe, Open, Render, TraceOk, EndsWith;
    var base := seed + [User(prompt)] + Render(log);
    SafeSnoc(seed, User(prompt));
    LogSafe(env, limits, seed + [User(prompt)], log);
    if completion.termination.BudgetExhausted? {
      var landing := User(LandingPrompt(completion.termination.limit));
      var summary := Assistant(Some(completion.finalText), []);
      SafeSnoc(base, landing);
      SafeSnoc(base + [landing], summary);
      assert base + [landing, summary] == base + [landing] + [summary];
    }
  }

  // ---------- Every call is answered ----------

  function Ids(calls: seq<ToolCall>): seq<string> {
    seq(|calls|, i requires 0 <= i < |calls| => calls[i].id)
  }

  /** The ids of the tool messages before the next assistant or user message. */
  function AnswersAhead(history: seq<ChatMessage>): seq<string> {
    if history == [] || history[0].Assistant? || history[0].User? then []
    else (if history[0].Tool? then [history[0].toolCallId] else []) + AnswersAhead(history[1..])
  }

  /** Every assistant message is followed, before the next assistant or user message, by exactly one
      tool message per requested call, in request order. */
  predicate AllAnswered(history: seq<ChatMessage>) {
    history != [] ==>
      (history[0].Assistant? ==> AnswersAhead(history[1..]) == Ids(history[0].toolCalls)) && AllAnswered(history[1..])
  }

  predicate StartsTurn(history: seq<ChatMessage>) {
    history == [] || history[0].Assistant? || history[0].User?
  }

  lemma {:induction false} AnswersStop(a: seq<ChatMessage>, b: seq<ChatMessage>)
    requires StartsTurn(b)
    ensures AnswersAhead(a + b) == AnswersAhead(a)
  {
    if a == [] {
      assert a + b == b;
    } else {
      assert (a + b)[1..] == a[1..] + b;
      AnswersStop(a[1..], b);
    }
  }

  lemma {:induction false} AnsweredConcat(a: seq<ChatMessage>, b: seq<ChatMessage>)
    requires StartsTurn(b)
    ensures AllAnswered(a + b) <==> AllAnswered(a) && AllAnswered(b)
  {
    if a == [] {
      assert a + b == b;
    } else {
      assert (a + b)[1..] == a[1..] + b;
      AnswersStop(a[1..], b);
      AnsweredConcat(a[1..], b);
    }
  }

  function EventIds(events: seq<Event>): seq<string> {
    seq(|events|, i requires 0 <= i < |events| => events[i].result.callId)
  }

  lemma {:induction false} AnswersConcat(a: seq<ChatMessage>, b: seq<ChatMessage>)
    requires forall m :: m in a ==> m.Tool? || m.System?
    ensures AnswersAhead(a + b) == AnswersAhead(a) + AnswersAhead(b)
    ensures AllAnswered(a)
  {
    if a == [] {
      assert a + b == b;
    } else {
      assert (a + b)[1..] == a[1..] + b;
      assert a[0] in a;
      AnswersConcat(a[1..], b);
    }
  }

  lemma {:induction false} EventsAnswer(events: seq<Event>)
    ensures AnswersAhead(RenderEvents(events)) == EventIds(events)
    ensures forall m :: m in RenderEvents(events) ==> m.Tool? || m.System?
    ensures AllAnswered(RenderEvents(events))
  {
    hide AnswersAhead, AllAnswered;
    if events != [] {
      EventsAnswer(Front(events));
      AnswersConcat(RenderEvents(Front(events)), RenderEvent(Last(events)));
      OneAnswer(Last(events));
      AnswersConcat(RenderEvents(events), []);
      assert EventIds(events) == EventIds(Front(events)) + [Last(events).result.callId];
    } else {
      NoAnswer();
    }
  }

  lemma NoAnswer()
    ensures AnswersAhead([]) == [] && AllAnswered([])
  {
  }

  lemma OneAnswer(e: Event)
    ensures AnswersAhead(RenderEvent(e)) == [e.result.callId]
  {
    hide IsFailedValidation;
    var answer, reminder := Tool(e.result.callId, e.result.content), System(RecoveryReminder(e.result));
    assert [answer][1..] == [] && [reminder][1..] == [];
    assert ([answer] + [reminder])[1..] == [reminder];
    assert AnswersAhead([reminder]) == [];
    assert RenderEvent(e) == [answer] || RenderEvent(e) == [answer] + [reminder];
  }

  lemma TurnAnswered(turn: TurnLog)
    requires |turn.events| <= |turn.calls|
    requires forall i :: 0 <= i < |turn.events| ==> turn.events[i].result.callId == turn.calls[i].id
    ensures AllAnswered(RenderTurn(turn)) <==> |turn.events| == |turn.calls|
  {
    EventsAnswer(turn.events);
    var h := RenderTurn(turn);
    assert h[1..] == RenderEvents(turn.events);
    assert |EventIds(turn.events)| == |turn.events| && |Ids(turn.calls)| == |turn.calls|;
  }

  lemma {:induction false} LogAnswered(env: Environment, limits: AgentLimits, log: seq<TurnLog>)
    requires forall k :: 0 <= k < |log| ==> TurnOk(env, limits, k, log[k])
    ensures AllAnswered(Render(log)) <==> forall k :: 0 <= k < |log| ==> |log[k].events| == |log[k].calls|
    ensures StartsTurn(Render(log))
  {
    hide AllAnswered;
    if log == [] {
      NoAnswer();
    } else {
      var front, turn := log[..|log| - 1], log[|log| - 1];
      forall k | 0 <= k < |front| ensures TurnOk(env, limits, k, front[k]) {
        assert TurnOk(env, limits, k, log[k]);
      }
      LogAnswered(env, limits, front);
      assert TurnOk(env, limits, |log| - 1, log[|log| - 1]);
      TurnAnswered(turn);
      AnsweredConcat(Render(front), RenderTurn(turn));
      assert forall k :: 0 <= k < |front| ==> front[k] == log[k];
    }
  }

  /** What the run appended answers every tool call it contains if and only if the last turn was
      handled completely; runs that end normally always are. */
  lemma CallsAnswered(env: Environment, limits: AgentLimits, seed: seq<ChatMessage>, prompt: string, log: seq<TurnLog>,
                      completion: AgentCompletion)
    requires LogOk(env, limits, log) && EndOk(env, limits, seed, prompt, log, completion)
    ensures seed <= completion.history
    ensures AllAnswered(completion.history[|seed|..]) <==>
            log == [] || |log[|log| - 1].events| == |log[|log| - 1].calls|
    ensures completion.termination == Normal ==> AllAnswered(completion.history[|seed|..])
  {
    hide AllAnswered, Render, TraceOk;
    LogAnswered(env, limits, log);
    assert log != [] ==> TurnOk(env, limits, |log| - 1, log[|log| - 1]);
    forall k | 0 <= k < |log| - 1 ensures |log[k].events| == |log[k].calls| {
      assert Complete(log[k]);
    }
    AnsweredUser(prompt);
    AnsweredConcat([User(prompt)], Render(log));
    var appended := [User(prompt)] + Render(log);
    if completion.termination.BudgetExhausted? {
      var limit := completion.termination.limit;
      LandingAnswered(LandingPrompt(limit), completion.finalText);
      var landing := [User(LandingPrompt(limit)), Assistant(Some(completion.finalText), [])];
      AnsweredConcat(appended, landing);
      assert completion.history == seed + (appended + landing);
      assert completion.history[|seed|..] == appended + landing;
    } else {
      assert completion.history == seed + appended;
      assert completion.history[|seed|..] == appended;
    }
  }

  predicate LastTurnHandled(log: seq<TurnLog>) {
    log == [] || |log[|log| - 1].events| == |log[|log| - 1].calls|
  }

  /** Read by the reason a run ended: always when it ended between turns, never when the last turn asked for
      more calls than the run had left, and otherwise exactly when the stopping call was its turn's last. */
  lemma AnsweredByReason(env: Environment, limits: AgentLimits, seed: seq<ChatMessage>, prompt: string,
                         log: seq<TurnLog>, completion: AgentCompletion)
    requires LogOk(env, limits, log) && EndOk(env, limits, seed, prompt, log, completion)
    ensures seed <= completion.history
    ensures AllAnswered(completion.history[|seed|..]) <==>
            match completion.termination
            case Normal => true
            case BudgetExhausted(MaxTurns) => true
            case BudgetExhausted(ValidationPending) => true
            case BudgetExhausted(MaxTotalToolCalls) => false
            case BudgetExhausted(_) => LastTurnHandled(log)
  {
    hide AllAnswered, Trace, Render, StopAfter, Unvalidated, StartOk, TurnOk, GoesOn;
    CallsAnswered(env, limits, seed, prompt, log, completion);
    if log != [] {
      EventsWithinCalls(env, limits, log);
    }
  }

  lemma EventsWithinCalls(env: Environment, limits: AgentLimits, log: seq<TurnLog>)
    requires LogOk(env, limits, log) && log != []
    ensures |log[|log| - 1].events| <= |log[|log| - 1].calls| && |Trace(log)| <= limits.maxTotalToolCalls
  {
    assert TurnOk(env, limits, |log| - 1, log[|log| - 1]);
  }

  /** A first turn that asks for more calls than the whole run may make. */
  predicate AsksTooMuch(env: Environment, limits: AgentLimits) {
    && limits.maxTurns > 0 && !env.cancelledAtTurn(0) && env.turn(0).Replied?
    && |env.turn(0).calls| > limits.maxTotalToolCalls
    && !env.cancelledAtLanding && !env.landing.TurnCancelled?
  }

  /** In every such environment the run completes and leaves all calls of the turn unanswered. */
  lemma UnansweredRun(env: Environment, limits: AgentLimits, seed: seq<ChatMessage>, prompt: string)
    returns (log: seq<TurnLog>, completion: AgentCompletion)
    requires AsksTooMuch(env, limits)
    ensures Explains(env, limits, seed, prompt, log, Ok(completion))
    ensures completion.termination == BudgetExhausted(MaxTotalToolCalls)
    ensures seed <= completion.history && !AllAnswered(completion.history[|seed|..])
  {
    hide AllAnswered, Render;
    var first := TurnLog(env.turn(0).text, env.turn(0).calls, []);
    log := [first];
    TraceOfNothing();
    assert |log[..0]| == 0 && Trace(log) == [];
    assert TurnOk(env, limits, 0, first);
    var fallback := env.fallbackSummary(MaxTotalToolCalls, ChangedFiles([]), RecentLabels([]));
    var text := if env.landing.Replied? then TextOr(env.landing.text, fallback) else fallback;
    var turns := 1 + (if env.landing.Replied? then 1 else 0);
    completion := AgentCompletion(
      text, AgentRunStats(turns, 0, 0, TokensAfter(env.landing, LastTokens(env, 1))),
      seed + [User(prompt)] + Render(log) + [User(LandingPrompt(MaxTotalToolCalls)), Assistant(Some(text), [])],
      BudgetExhausted(MaxTotalToolCalls));
    assert Ends(env, limits, log, completion.termination);
    AnsweredByReason(env, limits, seed, prompt, log, completion);
  }

  /** ... and there is one: a single call against a budget of none. */
  lemma UnansweredExample(call: ToolCall)
    ensures exists env: Environment :: AsksTooMuch(env, AgentLimits(1, 0, 1, 1)) && env.turn(0).calls == [call]
  {
    var env := Environment(
      (k: nat) => Replied(None, [call], None), (n: nat) => ToolCancelled, (k: nat) => false, (n: nat) => false, false,
      TurnFailed(""), (limit: AgentLimit, files: set<string>, labels: seq<string>) => "");
    assert env.turn(0).calls == [call];
  }

  lemma AnsweredUser(prompt: string)
    ensures AllAnswered([User(prompt)])
  {
    assert [User(prompt)][1..] == [];
  }

  lemma LandingAnswered(prompt: string, summary: string)
    ensures AllAnswered([User(prompt), Assistant(Some(summary), [])])
  {
    var h := [User(prompt), Assistant(Some(summary), [])];
    assert h[1..] == [Assistant(Some(summary), [])] && h[1..][1..] == [];
    assert Ids([]) == [];
  }

  // ---------- Compaction ----------

  function UserIndices(history: seq<ChatMessage>): seq<nat> {
    if history == [] then []
    else
      var n := |history| - 1;
      UserIndices(history[..n]) + (if history[n].User? then [n] else [])
  }

  /** The i-th listed index is a user message with exactly i user messages before it. */
  lemma {:induction false} UsersBefore(history: seq<ChatMessage>, i: nat)
    requires i < |UserIndices(history)|
    ensures UserIndices(history)[i] < |history| && history[UserIndices(history)[i]].User?
    ensures |UserIndices(history[..UserIndices(history)[i]])| == i
  {
    var n, users := |history| - 1, UserIndices(history);
    if i < |UserIndices(history[..n])| {
      UsersBefore(history[..n], i);
      assert history[..n][..users[i]] == history[..users[i]];
    }
  }

  /** `split_for_compaction`: everything older, and the most recent `keep` user turns. Asking to keep
      no turn of a history that has some would index past the last one. */
  function Split(history: seq<ChatMessage>, keep: nat): (seq<ChatMessage>, seq<ChatMessage>)
    requires keep >= 1 || UserIndices(history) == []
  {
    var users := UserIndices(history);
    if |users| <= keep then ([], history)
    else
      UsersBefore(history, |users| - keep);
      var at := users[|users| - keep];
      (history[..at], history[at..])
  }

  lemma {:induction false} UsersConcat(a: seq<ChatMessage>, b: seq<ChatMessage>)
    ensures |UserIndices(a + b)| == |UserIndices(a)| + |UserIndices(b)|
  {
    if b == [] {
      assert a + b == a;
    } else {
      var n := |b| - 1;
      assert (a + b)[..|a + b| - 1] == a + b[..n];
      UsersConcat(a, b[..n]);
    }
  }

  /** The split loses nothing, cuts only in front of a user message, keeps exactly the requested number
      of user turns, and both halves of a safe history are safe. */
  lemma SplitFacts(history: seq<ChatMessage>, keep: nat)
    requires keep >= 1
    ensures var (older, recent) := Split(history, keep);
            && older + recent == history
            && (older != [] ==> recent != [] && recent[0].User?)
            && |UserIndices(recent)| == Min(keep, |UserIndices(history)|)
            && (Safe(history) ==> Safe(older) && Safe(recent))
  {
    hide Safe, Open, UserIndices;
    SafeNothing();
    SplitCases(history, keep);
    var (older, recent) := Split(history, keep);
    if older != [] {
      UsersConcat(older, recent);
      SafeCut(older, recent);
    }
  }

  lemma SplitCases(history: seq<ChatMessage>, keep: nat)
    requires keep >= 1
    ensures var (older, recent) := Split(history, keep);
            && older + recent == history
            && (older == [] ==> recent == history && |UserIndices(history)| <= keep)
            && (older != [] ==>
                  recent != [] && recent[0].User? && |UserIndices(older)| + keep == |UserIndices(history)|)
  {
    hide UserIndices;
    NoUsers();
    var users := UserIndices(history);
    if |users| > keep {
      UsersBefore(history, |users| - keep);
      var at := users[|users| - keep];
      assert history[..at] + history[at..] == history;
      assert at == 0 ==> history[..at] == [];
    }
  }

  lemma NoUsers()
    ensures UserIndices([]) == []
  {
  }

  lemma SafeNothing()
    ensures Safe([]) && Open([]) == {}
  {
  }

  const COMPACT_KEEP_RECENT_TURNS := 2

  /** The message that stands for the older part: what the model sent, without whitespace around it, or a note that it
      sent nothing. */
  function Summarized(summary: string): ChatMessage {
    var text := Text.Trim(summary);
    User("(Earlier conversation was compacted:)\n" + (if text == "" then "(no summary was produced)" else text))
  }

  /** The history after a compaction whose model turn sent `summary`. */
  function Compact(history: seq<ChatMessage>, summary: string): seq<ChatMessage> {
    var (older, recent) := Split(history, COMPACT_KEEP_RECENT_TURNS);
    if older == [] then history else [Summarized(summary)] + recent
  }

  /** Compaction keeps the transcript safe, and the last two user turns word for word. */
  lemma CompactKeepsSafe(history: seq<ChatMessage>, summary: string)
    requires Safe(history)
    ensures Safe(Compact(history, summary))
    ensures var recent := Split(history, COMPACT_KEEP_RECENT_TURNS).1;
            |recent| <= |Compact(history, summary)|
            && Compact(history, summary)[|Compact(history, summary)| - |recent|..] == recent
  {
    hide Safe, Open, Split;
    SplitFacts(history, COMPACT_KEEP_RECENT_TURNS);
    var (older, recent) := Split(history, COMPACT_KEEP_RECENT_TURNS);
    if older != [] {
      SafeNothing();
      SafeSnoc([], Summarized(summary));
      assert [] + [Summarized(summary)] == [Summarized(summary)];
      SafeCut([Summarized(summary)], recent);
    } else {
      assert [] + recent == recent;
    }
  }

  /** How many user turns a history has. */
  function UserTurns(history: seq<ChatMessage>): nat {
    |set i | 0 <= i < |history| && history[i].User?|
  }

  lemma {:induction false} UserTurnsCount(history: seq<ChatMessage>)
    ensures |UserIndices(history)| == UserTurns(history)
  {
    var users := set i | 0 <= i < |history| && history[i].User?;
    if history == [] {
      assert users == {};
    } else {
      var n := |history| - 1;
      var front := history[..n];
      UserTurnsCount(front);
      assert users == (set i | 0 <= i < |front| && front[i].User?) + (if history[n].User? then {n} else {});
    }
  }

  /** What compaction does: nothing to a history of at most two user turns; any other becomes one user message with the
      summary, followed by exactly the last two user turns as they were. */
  lemma CompactMeans(history: seq<ChatMessage>, summary: string) returns (at: nat)
    ensures UserTurns(history) <= 2 ==> Compact(history, summary) == history
    ensures UserTurns(history) > 2 ==>
              && 0 < at < |history| && history[at].User? && UserTurns(history[at..]) == 2
              && |Compact(history, summary)| == 1 + |history| - at && Compact(history, summary)[1..] == history[at..]
              && Compact(history, summary)[0] ==
                 User("(Earlier conversation was compacted:)\n" +
                      (if Text.Trim(summary) == "" then "(no summary was produced)" else Text.Trim(summary)))
  {
    hide UserIndices, Text.Trim;
    NoUsers();
    UserTurnsCount(history);
    SplitFacts(history, 2);
    SplitCases(history, 2);
    var (older, recent) := Split(history, 2);
    UserTurnsCount(recent);
    at := |older|;
    assert history[at..] == recent;
    if UserTurns(history) > 2 {
      assert older != [];
    }
  }

  /** Compacting again replaces the old summary and touches nothing else. */
  lemma CompactAgain(history: seq<ChatMessage>, first: string, second: string)
    ensures Compact(Compact(history, first), second) == Compact(history, second)
  {
    var (older, recent) := Split(history, COMPACT_KEEP_RECENT_TURNS);
    SplitFacts(history, COMPACT_KEEP_RECENT_TURNS);
    if older != [] {
      var compacted := [Summarized(first)] + recent;
      UsersConcat([Summarized(first)], recent);
      assert UserIndices([Summarized(first)]) == [0] by {
        assert [Summarized(first)][..0] == [];
      }
      assert compacted[1].User?;
      SecondUser(compacted);
      assert compacted[1..] == recent && compacted[..1] == [Summarized(first)];
    }
  }

  /** When the first two messages are user messages, the second one is at index 1. */
  lemma SecondUser(history: seq<ChatMessage>)
    requires |history| >= 2 && history[0].User? && history[1].User?
    ensures |UserIndices(history)| >= 2 && UserIndices(history)[1] == 1
  {
    var two := history[..2];
    UsersPrefix(history, 2);
    assert two[..1][..0] == [] && two[..1][0] == history[0];
    assert UserIndices(two[..1]) == [0];
    assert UserIndices(two) == [0, 1];
  }

  lemma {:induction false} UsersPrefix(history: seq<ChatMessage>, n: nat)
    requires n <= |history|
    ensures UserIndices(history[..n]) <= UserIndices(history)
  {
    if n < |history| {
      UsersPrefix(history[..|history| - 1], n);
      assert history[..|history| - 1][..n] == history[..n];
    } else {
      assert history[..n] == history;
    }
  }

  // ---------- Requests ----------

  const SUMMARY_PROMPT := "Summarize the conversation so far."

  /** What the provider is sent for turn `k`. */
  function Asked(seed: seq<ChatMessage>, prompt: string, log: seq<TurnLog>, k: nat): seq<ChatMessage>
    requires k <= |log|
  {
    seed + [User(prompt)] + Render(log[..k])
  }

  /** Every request of a run is safe, the one for the landing turn included, whether the run completes or
      fails. */
  lemma RequestsSafe(env: Environment, limits: AgentLimits, seed: seq<ChatMessage>, prompt: string, log: seq<TurnLog>,
                     outcome: Result<AgentCompletion, AgentError>, k: nat)
    requires Safe(seed) && Explains(env, limits, seed, prompt, log, outcome) && k <= |log|
    ensures Safe(Asked(seed, prompt, log, k))
    ensures forall limit :: Safe(Asked(seed, prompt, log, |log|) + [User(LandingPrompt(limit))])
  {
    hide Safe, Open, Render, Ends, ErrorOk, EndOk;
    var base := seed + [User(prompt)];
    SafeSnoc(seed, User(prompt));
    LogPrefix(env, limits, log, k);
    LogSafe(env, limits, base, log[..k]);
    LogSafe(env, limits, base, log);
    assert log[..|log|] == log;
    forall limit ensures Safe(Asked(seed, prompt, log, |log|) + [User(LandingPrompt(limit))]) {
      SafeSnoc(Asked(seed, prompt, log, |log|), User(LandingPrompt(limit)));
    }
  }

  // ---------- Sessions ----------

  /** A session: runs, each seeded with the history so far, and compactions in between. Only a completed run
      replaces the history. */
  datatype SessionStep =
    | Ran(env: Environment, limits: AgentLimits, prompt: string, log: seq<TurnLog>,
          outcome: Result<AgentCompletion, AgentError>)
    | Compacted(summary: string)

  function AfterStep(history: seq<ChatMessage>, step: SessionStep): seq<ChatMessage> {
    match step
    case Ran(_, _, _, _, outcome) => if outcome.Ok? then outcome.value.history else history
    case Compacted(summary) => Compact(history, summary)
  }

  function AfterSteps(steps: seq<SessionStep>): seq<ChatMessage> {
    if steps == [] then [] else AfterStep(AfterSteps(steps[..|steps| - 1]), steps[|steps| - 1])
  }

  /** The requests a step sends: one per turn of a run, one to land it, and one for a summary. */
  ghost predicate Sends(history: seq<ChatMessage>, step: SessionStep, request: seq<ChatMessage>) {
    match step
    case Ran(_, _, prompt, log, _) =>
      || (exists k :: 0 <= k <= |log| && request == Asked(history, prompt, log, k))
      || (exists limit :: request == Asked(history, prompt, log, |log|) + [User(LandingPrompt(limit))])
    case Compacted(_) =>
      var older := Split(history, COMPACT_KEEP_RECENT_TURNS).0;
      older != [] && request == older + [User(SUMMARY_PROMPT)]
  }

  /** A failed run leaves no trace: leaving it out of a session does not change the history. */
  lemma {:induction false} FailedRunForgotten(steps: seq<SessionStep>, k: nat)
    requires k < |steps| && steps[k].Ran? && steps[k].outcome.Err?
    ensures AfterSteps(steps[..k] + steps[k + 1..]) == AfterSteps(steps)
    decreases |steps|
  {
    hide Compact;
    var front, last := steps[..|steps| - 1], steps[|steps| - 1];
    if k == |front| {
      assert steps[..k] + steps[k + 1..] == front;
    } else {
      FailedRunForgotten(front, k);
      var shorter := steps[..k] + steps[k + 1..];
      assert shorter[..|shorter| - 1] == front[..k] + front[k + 1..] && shorter[|shorter| - 1] == last;
    }
  }

  /** A completed run continues the history: its completion is kept, and begins with what was kept before and the
      prompt. */
  lemma CompletedRunKept(steps: seq<SessionStep>)
    requires steps != [] && steps[|steps| - 1].Ran? && steps[|steps| - 1].outcome.Ok?
    requires RunOk(AfterSteps(steps[..|steps| - 1]), steps[|steps| - 1])
    ensures var before, run := AfterSteps(steps[..|steps| - 1]), steps[|steps| - 1];
            AfterSteps(steps) == run.outcome.value.history && before + [User(run.prompt)] <= AfterSteps(steps)
  {
    hide Explains, Compact;
    var before, run := AfterSteps(steps[..|steps| - 1]), steps[|steps| - 1];
    CompletionContinues(run.env, run.limits, before, run.prompt, run.log, run.outcome.value);
  }

  lemma CompletionContinues(env: Environment, limits: AgentLimits, seed: seq<ChatMessage>, prompt: string,
                            log: seq<TurnLog>, completion: AgentCompletion)
    requires Explains(env, limits, seed, prompt, log, Ok(completion))
    ensures seed + [User(prompt)] <= completion.history
  {
    hide LogOk, Render, Ends, Failures, LastTokens, ChangedFiles, RecentLabels, LandingPrompt, TextOr;
  }

  /** Every run in the session is one `Drive` can have produced from the history before it. */
  ghost predicate SessionOk(steps: seq<SessionStep>) {
    forall k :: 0 <= k < |steps| && steps[k].Ran? ==> RunOk(AfterSteps(steps[..k]), steps[k])
  }

  ghost predicate RunOk(history: seq<ChatMessage>, step: SessionStep)
    requires step.Ran?
  {
    Explains(step.env, step.limits, history, step.prompt, step.log, step.outcome)
  }

  lemma StepSafe(history: seq<ChatMessage>, step: SessionStep)
    requires Safe(history) && (step.Ran? ==> RunOk(history, step))
    ensures Safe(AfterStep(history, step))
    ensures forall request :: Sends(history, step, request) ==> Safe(request)
  {
    hide Safe, LogOk, EndOk, ErrorOk, Compact, Asked, Split, Explains;
    match step
    case Ran(env, limits, prompt, log, outcome) =>
      forall request | Sends(history, step, request) ensures Safe(request) {
        RequestsSafe(env, limits, history, prompt, log, outcome, 0);
        forall k | 0 <= k <= |log| ensures Safe(Asked(history, prompt, log, k)) {
          RequestsSafe(env, limits, history, prompt, log, outcome, k);
        }
      }
      CompletionSafe(history, step);
    case Compacted(summary) =>
      CompactKeepsSafe(history, summary);
      SplitFacts(history, COMPACT_KEEP_RECENT_TURNS);
      SafeSnoc(Split(history, COMPACT_KEEP_RECENT_TURNS).0, User(SUMMARY_PROMPT));
  }

  lemma CompletionSafe(history: seq<ChatMessage>, step: SessionStep)
    requires Safe(history) && step.Ran? && RunOk(history, step)
    ensures Safe(AfterStep(history, step))
  {
    hide Safe, LogOk, EndOk, ErrorOk;
    if step.outcome.Ok? {
      RunKeepsSafe(step.env, step.limits, history, step.prompt, step.log, step.outcome.value);
    }
  }

  /** Over a whole session, however runs end and whenever the history is compacted, no request that is sent,
      and no history that is kept, carries a tool message whose call is not listed since the latest user
      message. */
  lemma {:induction false} SessionSafe(steps: seq<SessionStep>)
    requires SessionOk(steps)
    ensures Safe(AfterSteps(steps))
    ensures forall k, request :: 0 <= k < |steps| && Sends(AfterSteps(steps[..k]), steps[k], request) ==> Safe(request)
    decreases |steps|
  {
    hide Safe, RunOk, Sends, AfterStep;
    SafeNothing();
    if steps != [] {
      var n := |steps| - 1;
      var front, step := steps[..n], steps[n];
      assert forall k :: 0 <= k < n ==> front[k] == steps[k] && front[..k] == steps[..k];
      SessionSafe(front);
      StepSafe(AfterSteps(front), step);
      forall k, request | 0 <= k < |steps| && Sends(AfterSteps(steps[..k]), steps[k], request) ensures Safe(request) {
        assert k < n ==> Sends(AfterSteps(front[..k]), front[k], request);
      }
    }
  }
}
