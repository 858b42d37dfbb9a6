/** The line loop over a provider's event stream: chunks of text in, mapped events out, with a bound on
    the text held back. */
module SseStream {
  import opened Prelude
  import opened Text
  import opened Utf8

  const MAX_PENDING_SSE_BYTES: nat := 1024 * 1024

  const DATA_PREFIX := "data:"

  /** What the receiver gets. */
  datatype Item<E> = Event(event: E) | InvalidPayload | TooLarge | NetworkFailed

  /** What the loop waits for: the next part of the body, a network error, or a cancellation. The body ends with
      the last arrival. */
  datatype Arrival = Data(text: string) | Broken | Cancelled

  function TrimCrs(line: string): string {
    if line != [] && line[|line| - 1] == '\r' then TrimCrs(line[..|line| - 1]) else line
  }

  /** The payload of a data line; other lines carry none. */
  function Payload(line: string): Option<string> {
    var trimmed := TrimCrs(line);
    if DATA_PREFIX <= trimmed then Some(Trim(trimmed[|DATA_PREFIX|..])) else None
  }

  // ---------- The whole stream ----------

  /** The lines of a text that have been ended by a newline. */
  function CompleteLines(text: string): seq<string> {
    var i := FirstNewline(text);
    if i == |text| then [] else [text[..i]] + CompleteLines(text[i + 1..])
  }

  /** The text after the last newline. */
  function Unfinished(text: string): string {
    var i := FirstNewline(text);
    if i == |text| then text else Unfinished(text[i + 1..])
  }

  function Payloads(lines: seq<string>): seq<string> {
    if lines == [] then []
    else
      var rest := Payloads(lines[1..]);
      if Payload(lines[0]).Some? then [Payload(lines[0]).value] + rest else rest
  }

  function Events<E>(events: seq<E>): seq<Item<E>> {
    if events == [] then [] else Events(events[..|events| - 1]) + [Event(events[|events| - 1])]
  }

  datatype Report<E> = Report(items: seq<Item<E>>, failed: bool)

  /** `second` is only reached when `first` did not fail. */
  function Then<E>(first: Report<E>, second: Report<E>): Report<E> {
    if first.failed then first else Report(first.items + second.items, second.failed)
  }

  function ReportOne<E>(payload: string, mapData: string -> Option<seq<E>>): Report<E> {
    var events := mapData(payload);
    if events.None? then Report([InvalidPayload], true) else Report(Events(events.value), false)
  }

  /** The events of the payloads, up to the first one that cannot be mapped. */
  function ReportOf<E>(payloads: seq<string>, mapData: string -> Option<seq<E>>): Report<E> {
    if payloads == [] then Report([], false)
    else Then(ReportOne(payloads[0], mapData), ReportOf(payloads[1..], mapData))
  }

  function StreamReport<E>(stream: string, mapData: string -> Option<seq<E>>): Report<E> {
    ReportOf(Payloads(CompleteLines(stream)), mapData)
  }

  function Concat(chunks: seq<string>): string {
    if chunks == [] then [] else Concat(chunks[..|chunks| - 1]) + chunks[|chunks| - 1]
  }

  /** Chunk `k` is too much to hold: with the unfinished line before it, it exceeds the bound. */
  predicate Overflows(chunks: seq<string>, k: nat)
    requires k < |chunks|
  {
    Size(Unfinished(Concat(chunks[..k])) + chunks[k]) > MAX_PENDING_SSE_BYTES
  }

  // ---------- Lines across chunks ----------

  lemma {:induction false} FirstNewlineAppend(a: string, b: string)
    ensures FirstNewline(a) < |a| ==> FirstNewline(a + b) == FirstNewline(a)
    ensures FirstNewline(a) == |a| ==> FirstNewline(a + b) == |a| + FirstNewline(b)
  {
    if a == [] {
      assert a + b == b;
    } else {
      FirstNewlineAppend(a[1..], b);
      assert (a + b)[1..] == a[1..] + b;
    }
  }

  /** Only the unfinished line has to be kept from one chunk to the next. */
  lemma {:induction false} LinesAppend(a: string, b: string)
    ensures CompleteLines(a + b) == CompleteLines(a) + CompleteLines(Unfinished(a) + b)
    ensures Unfinished(a + b) == Unfinished(Unfinished(a) + b)
    decreases |a|
  {
    hide FirstNewline;
    var i := FirstNewline(a);
    FirstNewlineAppend(a, b);
    if i < |a| {
      LinesAppend(a[i + 1..], b);
      assert (a + b)[..i] == a[..i] && (a + b)[i + 1..] == a[i + 1..] + b;
    }
  }

  /** The lines and the unfinished rest are the text, and none of them contains a newline. */
  lemma {:induction false} LinesMeans(text: string)
    ensures Unlines(CompleteLines(text)) + Unfinished(text) == text
    ensures '\n' !in Unfinished(text) && forall line :: line in CompleteLines(text) ==> '\n' !in line
  {
    hide FirstNewline;
    var i := FirstNewline(text);
    if i < |text| {
      LinesMeans(text[i + 1..]);
      assert text == text[..i] + ['\n'] + text[i + 1..];
      var lines := CompleteLines(text);
      assert lines[1..] == CompleteLines(text[i + 1..]);
      assert Unlines(lines) == text[..i] + ['\n'] + Unlines(lines[1..]);
    } else {
      assert text[..i] == text;
    }
  }

  lemma {:induction false} PayloadsAppend(a: seq<string>, b: seq<string>)
    ensures Payloads(a + b) == Payloads(a) + Payloads(b)
  {
    hide Payload;
    if a == [] {
      assert a + b == b;
    } else {
      PayloadsAppend(a[1..], b);
      assert (a + b)[1..] == a[1..] + b;
    }
  }

  lemma ThenLaws<E>(a: Report<E>, b: Report<E>, c: Report<E>)
    ensures Then(Report([], false), a) == a && Then(a, Report([], false)) == a
    ensures Then(Then(a, b), c) == Then(a, Then(b, c))
  {
  }

  lemma {:induction false} ReportAppend<E>(a: seq<string>, b: seq<string>, mapData: string -> Option<seq<E>>)
    ensures ReportOf(a + b, mapData) == Then(ReportOf(a, mapData), ReportOf(b, mapData))
  {
    hide Then, ReportOne;
    var second := ReportOf(b, mapData);
    if a == [] {
      assert a + b == b;
      ThenLaws(second, second, second);
    } else {
      ReportAppend(a[1..], b, mapData);
      assert (a + b)[1..] == a[1..] + b;
      ThenLaws(ReportOne(a[0], mapData), ReportOf(a[1..], mapData), second);
    }
  }

  // ---------- The loop ----------

  /** What is still sent when `pending` is held back; a report counts as failed once the loop has returned. */
  function RelayedFrom<E>(pending: string, arrivals: seq<Arrival>, mapData: string -> Option<seq<E>>): Report<E>
    decreases |arrivals|
  {
    if arrivals == [] then Report([], false)
    else
      match arrivals[0]
      case Cancelled => Report([], true)
      case Broken => Report([NetworkFailed], true)
      case Data(text) =>
        var held := pending + text;
        if Size(held) > MAX_PENDING_SSE_BYTES then Report([TooLarge], true)
        else
          Then(ReportOf(Payloads(CompleteLines(held)), mapData), RelayedFrom(Unfinished(held), arrivals[1..], mapData))
  }

  function Relayed<E>(arrivals: seq<Arrival>, mapData: string -> Option<seq<E>>): Report<E> {
    RelayedFrom("", arrivals, mapData)
  }

  /** The items a receiver gets that goes away after `room` of them. */
  function FirstItems<E>(items: seq<Item<E>>, room: nat): seq<Item<E>> {
    if |items| <= room then items else items[..room]
  }

  /** The loop that reads the response body: what arrives is drained line by line, and the loop returns at the
      first payload that cannot be mapped, when too much is pending, on a network error, on cancellation, or
      once the receiver is gone. */
  method Relay<E>(arrivals: seq<Arrival>, room: nat, mapData: string -> Option<seq<E>>) returns (sent: seq<Item<E>>)
    ensures var all := Relayed(arrivals, mapData).items; sent == all[..Min(room, |all|)]
  {
    hide FirstNewline, CompleteLines, Unfinished, Payload, Payloads, ReportOf, Size, RelayedFrom, Then;
    var pending := "";
    sent := [];
    var read := 0;
    ghost var whole := Relayed(arrivals, mapData);
    ThenLaws(whole, whole, whole);
    while read < |arrivals|
      invariant read <= |arrivals| && |sent| <= room
      invariant whole == Then(Report(sent, false), RelayedFrom(pending, arrivals[read..], mapData))
    {
      ghost var later := arrivals[read + 1..];
      assert arrivals[read..][1..] == later;
      RelayedStep(pending, arrivals[read..], mapData);
      if arrivals[read].Cancelled? {
        SentAll(sent, [], room);
        return;
      } else if arrivals[read].Broken? {
        SentAll(sent, [NetworkFailed], room);
        return if |sent| < room then sent + [NetworkFailed] else sent;
      }
      pending := pending + arrivals[read].text;
      if Size(pending) > MAX_PENDING_SSE_BYTES {
        SentAll(sent, [TooLarge], room);
        return if |sent| < room then sent + [TooLarge] else sent;
      }
      var newline := FirstNewline(pending);
      while newline < |pending|
        invariant newline == FirstNewline(pending) <= |pending| && |sent| <= room
        invariant whole == Then(Report(sent, false), Drained(pending, later, mapData))
        decreases |pending|
      {
        var line := pending[..newline];
        DrainLine(pending, line, later, mapData);
        pending := pending[newline + 1..];
        newline := FirstNewline(pending);
        var data := Payload(line);
        if data.Some? {
          var events := mapData(data.value);
          if events.None? {
            StopsHere(sent, [InvalidPayload], Drained(pending, later, mapData), room);
            return if |sent| < room then sent + [InvalidPayload] else sent;
          }
          ghost var before := sent;
          for j := 0 to |events.value|
            invariant |sent| <= room && sent == before + Events(events.value[..j])
          {
            EventsOn(events.value, j);
            if |sent| == room {
              Cut(sent, before, events.value, j, Drained(pending, later, mapData));
              return;
            }
            sent := sent + [Event(events.value[j])];
          }
          assert events.value[..|events.value|] == events.value;
          GoesOn(before, Events(events.value), Drained(pending, later, mapData));
        } else {
          ThenLaws(Drained(pending, later, mapData), whole, whole);
        }
      }
      AllDrained(pending, later, mapData);
      read := read + 1;
    }
    assert arrivals[read..] == [];
    NothingLeft(sent, pending, mapData);
  }

  /** What is sent from `pending`, once within the bound, and everything that arrives after it. */
  function Drained<E>(pending: string, later: seq<Arrival>, mapData: string -> Option<seq<E>>): Report<E> {
    Then(ReportOf(Payloads(CompleteLines(pending)), mapData), RelayedFrom(Unfinished(pending), later, mapData))
  }

  lemma RelayedStep<E>(pending: string, arrivals: seq<Arrival>, mapData: string -> Option<seq<E>>)
    requires arrivals != []
    ensures RelayedFrom(pending, arrivals, mapData) ==
            match arrivals[0]
            case Cancelled => Report([], true)
            case Broken => Report([NetworkFailed], true)
            case Data(text) =>
              if Size(pending + text) > MAX_PENDING_SSE_BYTES then Report([TooLarge], true)
              else Drained(pending + text, arrivals[1..], mapData)
  {
    hide Size, CompleteLines, Unfinished, Payloads, ReportOf, Then;
  }

  lemma SentAll<E>(sent: seq<Item<E>>, last: seq<Item<E>>, room: nat)
    requires |sent| <= room && |last| <= 1
    ensures FirstItems(Then(Report(sent, false), Report(last, true)).items, room) ==
            if |sent| + |last| <= room then sent + last else sent
  {
  }

  lemma StopsHere<E>(sent: seq<Item<E>>, last: seq<Item<E>>, rest: Report<E>, room: nat)
    requires |sent| <= room && |last| == 1
    ensures FirstItems(Then(Report(sent, false), Then(Report(last, true), rest)).items, room) ==
            if |sent| < room then sent + last else sent
  {
  }

  lemma EventsOn<E>(events: seq<E>, j: nat)
    requires j < |events|
    ensures Events(events[..j + 1]) == Events(events[..j]) + [Event(events[j])]
  {
    assert events[..j + 1][..j] == events[..j];
  }

  lemma {:induction false} EventsPrefix<E>(events: seq<E>, j: nat)
    requires j <= |events|
    ensures Events(events[..j]) <= Events(events)
  {
    if j == |events| {
      assert events[..j] == events;
    } else {
      EventsPrefix(events[..|events| - 1], j);
      assert events[..|events| - 1][..j] == events[..j];
    }
  }

  /** The receiver went away in the middle of the events of one payload. */
  lemma Cut<E>(sent: seq<Item<E>>, before: seq<Item<E>>, events: seq<E>, j: nat, rest: Report<E>)
    requires j <= |events| && sent == before + Events(events[..j])
    ensures FirstItems(Then(Report(before, false), Then(Report(Events(events), false), rest)).items, |sent|) == sent
  {
    EventsPrefix(events, j);
    var all := Then(Report(before, false), Then(Report(Events(events), false), rest)).items;
    assert all == before + (Events(events) + rest.items);
    assert sent <= all;
  }

  lemma GoesOn<E>(before: seq<Item<E>>, events: seq<Item<E>>, rest: Report<E>)
    ensures Then(Report(before, false), Then(Report(events, false), rest)) == Then(Report(before + events, false), rest)
  {
  }

  lemma NothingLeft<E>(sent: seq<Item<E>>, pending: string, mapData: string -> Option<seq<E>>)
    ensures Then(Report(sent, false), RelayedFrom(pending, [], mapData)).items == sent
  {
  }

  /** One more line drained: its payload, if any, is reported next. */
  lemma DrainLine<E>(pending: string, line: string, later: seq<Arrival>, mapData: string -> Option<seq<E>>)
    requires FirstNewline(pending) < |pending| && line == pending[..FirstNewline(pending)]
    ensures Drained(pending, later, mapData) ==
            Then(LineReport(line, mapData), Drained(pending[|line| + 1..], later, mapData))
  {
    hide FirstNewline, Payloads, LineReport, ReportOf, Then, RelayedFrom;
    var rest := pending[|line| + 1..];
    LineReports(line, mapData);
    PayloadsAppend([line], CompleteLines(rest));
    ReportAppend(Payloads([line]), Payloads(CompleteLines(rest)), mapData);
    ThenLaws(LineReport(line, mapData), ReportOf(Payloads(CompleteLines(rest)), mapData),
             RelayedFrom(Unfinished(rest), later, mapData));
  }

  function LineReport<E>(line: string, mapData: string -> Option<seq<E>>): Report<E> {
    if Payload(line).Some? then ReportOne(Payload(line).value, mapData) else Report([], false)
  }

  lemma LineReports<E>(line: string, mapData: string -> Option<seq<E>>)
    ensures ReportOf(Payloads([line]), mapData) == LineReport(line, mapData)
  {
    hide Payload, ReportOne, Then;
    var lines: seq<string> := [line];
    assert |lines[1..]| == 0;
    if Payload(line).Some? {
      assert Payloads([line]) == [Payload(line).value];
      var one := ReportOne(Payload(line).value, mapData);
      ThenLaws(one, one, one);
    }
  }

  lemma AllDrained<E>(pending: string, later: seq<Arrival>, mapData: string -> Option<seq<E>>)
    requires FirstNewline(pending) == |pending|
    ensures Drained(pending, later, mapData) == RelayedFrom(pending, later, mapData)
  {
    hide RelayedFrom;
    var rest := RelayedFrom(pending, later, mapData);
    ThenLaws(rest, rest, rest);
  }

  // ---------- What is sent, read off the whole text ----------

  function Texts(arrivals: seq<Arrival>): seq<string> {
    if arrivals == [] then []
    else (if arrivals[0].Data? then [arrivals[0].text] else []) + Texts(arrivals[1..])
  }

  /** Why reading ends at arrival `n`. */
  function EndAt<E>(arrivals: seq<Arrival>, n: nat): Report<E> {
    if n >= |arrivals| then Report([], false)
    else
      match arrivals[n]
      case Cancelled => Report([], true)
      case Broken => Report([NetworkFailed], true)
      case Data(_) => Report([TooLarge], true)
  }

  /** `n` is the first arrival that is not text or is too much to hold after the `chunks` before it; all of them
      when there is none. */
  ghost predicate StopsReading(arrivals: seq<Arrival>, chunks: seq<string>, n: nat) {
    && n <= |arrivals| && (forall k :: 0 <= k < n ==> arrivals[k].Data?)
    && (n < |arrivals| && arrivals[n].Data? ==>
          Size(Unfinished(Concat(chunks)) + arrivals[n].text) > MAX_PENDING_SSE_BYTES)
  }

  lemma {:induction false} RelayedAfter<E>(before: seq<string>, arrivals: seq<Arrival>,
                                           mapData: string -> Option<seq<E>>)
    returns (n: nat)
    ensures n <= |arrivals|
    ensures var chunks := before + Texts(arrivals[..n]);
            && StopsReading(arrivals, chunks, n)
            && (forall k :: |before| <= k < |chunks| ==> !Overflows(chunks, k))
            && Then(StreamReport(Concat(before), mapData),
                    RelayedFrom(Unfinished(Concat(before)), arrivals, mapData)) ==
               Then(StreamReport(Concat(chunks), mapData), EndAt(arrivals, n))
    decreases |arrivals|
  {
    hide Size, CompleteLines, Unfinished, Concat, StreamReport, Then, RelayedFrom;
    var pending := Unfinished(Concat(before));
    NoTexts(before, arrivals);
    if arrivals != [] {
      RelayedStep(pending, arrivals, mapData);
    } else {
      NothingRelayed(pending, mapData);
    }
    if arrivals == [] || !arrivals[0].Data? || Size(pending + arrivals[0].text) > MAX_PENDING_SSE_BYTES {
      n := 0;
    } else {
      var text, rest := arrivals[0].text, arrivals[1..];
      n := RelayedAfter(before + [text], rest, mapData);
      OneMoreText(before, arrivals, n);
      OneMoreChunk(before, text, rest, mapData);
      var chunks := before + Texts(arrivals[..n + 1]);
      assert chunks[..|before|] == before && chunks[|before|] == text;
      OverflowsMeans(chunks, |before|);
      n := n + 1;
    }
  }

  lemma NoTexts(before: seq<string>, arrivals: seq<Arrival>)
    ensures before + Texts(arrivals[..0]) == before
  {
  }

  lemma NothingRelayed<E>(pending: string, mapData: string -> Option<seq<E>>)
    ensures RelayedFrom(pending, [], mapData) == Report([], false)
  {
  }

  lemma OneMoreText(before: seq<string>, arrivals: seq<Arrival>, n: nat)
    requires arrivals != [] && arrivals[0].Data? && n < |arrivals|
    ensures before + [arrivals[0].text] + Texts(arrivals[1..][..n]) == before + Texts(arrivals[..n + 1])
  {
    assert arrivals[..n + 1][1..] == arrivals[1..][..n];
  }

  lemma OneMoreChunk<E>(before: seq<string>, text: string, later: seq<Arrival>, mapData: string -> Option<seq<E>>)
    ensures var stream, all := Concat(before), Concat(before + [text]);
            Then(StreamReport(stream, mapData), Drained(Unfinished(stream) + text, later, mapData)) ==
            Then(StreamReport(all, mapData), RelayedFrom(Unfinished(all), later, mapData))
  {
    hide CompleteLines, Unfinished, Payloads, ReportOf, Then, RelayedFrom;
    var stream, all := Concat(before), Concat(before + [text]);
    assert (before + [text])[..|before|] == before;
    assert all == stream + text;
    LinesAppend(stream, text);
    var first, second := CompleteLines(stream), CompleteLines(Unfinished(stream) + text);
    PayloadsAppend(first, second);
    ReportAppend(Payloads(first), Payloads(second), mapData);
    ThenLaws(ReportOf(Payloads(first), mapData), ReportOf(Payloads(second), mapData),
             RelayedFrom(Unfinished(all), later, mapData));
  }

  lemma OverflowsMeans(chunks: seq<string>, k: nat)
    requires k < |chunks|
    ensures Overflows(chunks, k) <==> Size(Unfinished(Concat(chunks[..k])) + chunks[k]) > MAX_PENDING_SSE_BYTES
  {
  }

  /** What is sent is the report of the whole text that was read, up to the first failing payload, and then why
      reading ended: `n` is the first arrival that is not text, or too much to hold after the text before it. */
  lemma RelayedMeans<E>(arrivals: seq<Arrival>, mapData: string -> Option<seq<E>>) returns (n: nat)
    ensures n <= |arrivals|
    ensures var chunks := Texts(arrivals[..n]);
            && StopsReading(arrivals, chunks, n)
            && (forall k :: 0 <= k < |chunks| ==> !Overflows(chunks, k))
            && Relayed(arrivals, mapData) == Then(StreamReport(Concat(chunks), mapData), EndAt(arrivals, n))
  {
    hide Size, CompleteLines, Unfinished, StreamReport, Then, RelayedFrom;
    n := RelayedAfter([], arrivals, mapData);
    assert [] + Texts(arrivals[..n]) == Texts(arrivals[..n]);
    var whole := Relayed(arrivals, mapData);
    NothingRead(mapData);
    ThenLaws(whole, whole, whole);
  }

  lemma NothingRead<E>(mapData: string -> Option<seq<E>>)
    ensures Unfinished("") == "" && Concat([]) == "" && StreamReport("", mapData) == Report([], false)
  {
  }

  /** A body read to its end without ever too much to hold: the report does not depend on how it was cut. */
  lemma RelayedWhole<E>(arrivals: seq<Arrival>, mapData: string -> Option<seq<E>>)
    requires forall k :: 0 <= k < |arrivals| ==> arrivals[k].Data?
    requires forall k :: 0 <= k < |Texts(arrivals)| ==> !Overflows(Texts(arrivals), k)
    ensures Relayed(arrivals, mapData) == StreamReport(Concat(Texts(arrivals)), mapData)
  {
    hide Size, StreamReport, Then, Relayed, Concat;
    var n := RelayedMeans(arrivals, mapData);
    TextsAt(arrivals, n);
    if n < |arrivals| {
      OverflowsMeans(Texts(arrivals), n);
    } else {
      assert arrivals[..n] == arrivals;
      var whole := StreamReport(Concat(Texts(arrivals)), mapData);
      ThenLaws(whole, whole, whole);
    }
  }

  lemma {:induction false} TextsAt(arrivals: seq<Arrival>, n: nat)
    requires n <= |arrivals| && forall k :: 0 <= k < |arrivals| ==> arrivals[k].Data?
    ensures |Texts(arrivals)| == |arrivals| && Texts(arrivals)[..n] == Texts(arrivals[..n])
    ensures n < |arrivals| ==> Texts(arrivals)[n] == arrivals[n].text
  {
    if arrivals != [] {
      var rest := arrivals[1..];
      TextsAt(rest, if n == 0 then 0 else n - 1);
      if n > 0 {
        assert arrivals[..n][1..] == rest[..n - 1];
      }
    }
  }

  // ---------- The bound ----------

  lemma {:induction false} ConcatPrefix(chunks: seq<string>, k: nat)
    requires k <= |chunks|
    ensures Concat(chunks[..k]) <= Concat(chunks)
  {
    if k == |chunks| {
      assert chunks[..k] == chunks;
    } else {
      var front := chunks[..|chunks| - 1];
      ConcatPrefix(front, k);
      assert front[..k] == chunks[..k];
    }
  }

  lemma {:induction false} UnfinishedIsEnd(text: string)
    ensures exists i :: 0 <= i <= |text| && Unfinished(text) == text[i..]
  {
    LinesMeans(text);
    var i := |Unlines(CompleteLines(text))|;
    assert Unfinished(text) == text[i..];
  }

  /** What is checked against the bound is the end of the text received so far, so a stream that is small
      as a whole is never cut off. */
  lemma SmallStreamsPass(chunks: seq<string>, k: nat)
    requires Size(Concat(chunks)) <= MAX_PENDING_SSE_BYTES && k < |chunks|
    ensures !Overflows(chunks, k)
  {
    hide Encode, Unfinished, Concat, Size;
    var before, chunk := Concat(chunks[..k]), chunks[k];
    ConcatPrefix(chunks, k + 1);
    assert chunks[..k + 1][..k] == chunks[..k];
    ConcatSnoc(chunks[..k + 1]);
    UnfinishedIsEnd(before);
    var i :| 0 <= i <= |before| && Unfinished(before) == before[i..];
    EndOfPrefix(before, chunk, i, Concat(chunks));
  }

  lemma EndOfPrefix(before: string, chunk: string, i: nat, stream: string)
    requires before + chunk <= stream && i <= |before|
    ensures Size(before[i..] + chunk) <= Size(stream)
  {
    hide Encode, Size;
    var a, b, c := before[..i], before[i..] + chunk, stream[|before + chunk|..];
    assert stream == a + b + c;
    PartIsSmaller(a, b, c);
  }

  lemma PartIsSmaller(a: string, b: string, c: string)
    ensures Size(b) <= Size(a + b + c)
  {
    hide Size;
    SizeAppend(a + b, c);
    SizeAppend(a, b);
  }

  lemma ConcatSnoc(chunks: seq<string>)
    requires chunks != []
    ensures Concat(chunks) == Concat(chunks[..|chunks| - 1]) + chunks[|chunks| - 1]
  {
  }
}
