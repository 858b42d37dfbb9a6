/** What a line of an event stream carries, and so what a stream of events is relayed as. */
module SseEvents {
  import opened Prelude
  import opened Text
  import opened TextMeaning
  import opened Utf8
  import opened SseStream

  lemma {:induction false} TrimCrsCut(line: string) returns (crs: string)
    ensures line == TrimCrs(line) + crs && forall i :: 0 <= i < |crs| ==> crs[i] == '\r'
    ensures TrimCrs(line) != [] ==> TrimCrs(line)[|TrimCrs(line)| - 1] != '\r'
  {
    if line != [] && line[|line| - 1] == '\r' {
      crs := TrimCrsCut(line[..|line| - 1]);
      assert line == line[..|line| - 1] + ['\r'];
      crs := crs + ['\r'];
    } else {
      crs := [];
    }
  }

  /** A carriage return belongs to the end of a line, never to its first five characters. */
  lemma PrefixKept(line: string)
    ensures "data:" <= TrimCrs(line) <==> "data:" <= line
  {
    hide TrimCrs;
    var crs := TrimCrsCut(line);
    var trimmed := TrimCrs(line);
    forall i | |trimmed| <= i < |line| ensures line[i] == '\r' {
      assert line[i] == crs[i - |trimmed|];
    }
    assert "data:" <= line ==> line[4] == ':';
  }

  /** A data line carries exactly the text behind `data:`, without the whitespace around it and whatever carriage
      returns end it; any other line carries nothing. */
  lemma PayloadMeans(line: string)
    ensures !("data:" <= line) ==> Payload(line) == None
    ensures "data:" <= line ==> Payload(line) == Some(Trim(line[5..]))
  {
    hide TrimCrs, Trim, IsWhitespace;
    PrefixKept(line);
    if "data:" <= line {
      var crs := TrimCrsCut(line);
      var trimmed := TrimCrs(line);
      assert line[5..] == trimmed[5..] + crs;
      CrsAreWhitespace(crs);
      var none := "";
      TrimSkips(none, trimmed[5..], crs);
      assert none + trimmed[5..] + crs == line[5..];
    }
  }

  lemma CrsAreWhitespace(crs: string)
    requires forall i :: 0 <= i < |crs| ==> crs[i] == '\r'
    ensures AllWhitespace(crs) && AllWhitespace("")
  {
  }

  /** The same, written out: whatever whitespace stands around the payload. */
  lemma DataLine(before: string, payload: string, after: string)
    requires AllWhitespace(before) && AllWhitespace(after)
    ensures Payload("data:" + before + payload + after) == Some(Trim(payload))
  {
    hide Payload, Trim, IsWhitespace;
    var line := "data:" + before + payload + after;
    PayloadMeans(line);
    assert line[5..] == before + payload + after;
    TrimSkips(before, payload, after);
  }

  // ---------- Streams of events ----------

  /** The stream that carries some payloads, one event each. */
  function Printed(payloads: seq<string>): string {
    if payloads == [] then "" else "data: " + payloads[0] + "\n\n" + Printed(payloads[1..])
  }

  /** What a receiver has to get for them: everything each payload maps to, in order, up to the first that maps to
      nothing. */
  function Expected<E>(payloads: seq<string>, mapData: string -> Option<seq<E>>): seq<Item<E>> {
    if payloads == [] then []
    else
      match mapData(Trim(payloads[0]))
      case None => [InvalidPayload]
      case Some(events) =>
        seq(|events|, i requires 0 <= i < |events| => Event(events[i])) + Expected(payloads[1..], mapData)
  }

  lemma {:induction false} EventsMean<E>(events: seq<E>)
    ensures Events(events) == seq(|events|, i requires 0 <= i < |events| => Event(events[i]))
  {
    if events != [] {
      EventsMean(events[..|events| - 1]);
    }
  }

  lemma PrintedLine(payload: string, rest: string)
    requires '\n' !in payload
    ensures var line := "data: " + payload;
            CompleteLines(line + "\n\n" + rest) == [line, ""] + CompleteLines(rest)
  {
    hide FirstNewline;
    var line := "data: " + payload;
    var text := line + "\n\n" + rest;
    assert '\n' !in line;
    assert text == line + ['\n'] + ("\n" + rest);
    FirstNewlineAt(line, "\n" + rest);
    assert text[..|line|] == line && text[|line| + 1..] == "\n" + rest;
    BlankLine(rest);
  }

  lemma BlankLine(rest: string)
    ensures CompleteLines("\n" + rest) == [""] + CompleteLines(rest)
  {
    hide FirstNewline;
    var none := "";
    FirstNewlineAt(none, rest);
    var text := "\n" + rest;
    assert text == none + ['\n'] + rest;
    assert text[..0] == none && text[1..] == rest;
  }

  lemma PrintedPayloads(payload: string, rest: seq<string>)
    ensures Payloads(["data: " + payload, ""] + rest) == [Trim(payload)] + Payloads(rest)
  {
    hide Payload, Trim, IsWhitespace;
    var line, none := "data: " + payload, "";
    OneBlank();
    DataLine(" ", payload, none);
    assert line == "data:" + " " + payload + none;
    PayloadMeans(none);
    assert ([line, none] + rest)[1..] == [none] + rest && ([none] + rest)[1..] == rest;
  }

  lemma OneBlank()
    ensures AllWhitespace(" ") && AllWhitespace("")
  {
  }

  lemma {:induction false} PrintedReport<E>(payloads: seq<string>, mapData: string -> Option<seq<E>>)
    requires forall i :: 0 <= i < |payloads| ==> '\n' !in payloads[i]
    ensures StreamReport(Printed(payloads), mapData).items == Expected(payloads, mapData)
    ensures StreamReport(Printed(payloads), mapData).failed <==>
            exists i :: 0 <= i < |payloads| && mapData(Trim(payloads[i])).None?
  {
    hide CompleteLines, Payloads, Trim, Events;
    if payloads == [] {
      NothingPrinted(mapData);
    } else {
      var rest := Printed(payloads[1..]);
      PrintedReport(payloads[1..], mapData);
      PrintedLine(payloads[0], rest);
      PrintedPayloads(payloads[0], CompleteLines(rest));
      var all := [Trim(payloads[0])] + Payloads(CompleteLines(rest));
      assert all[1..] == Payloads(CompleteLines(rest));
      if mapData(Trim(payloads[0])).Some? {
        EventsMean(mapData(Trim(payloads[0])).value);
      }
      assert forall i :: 0 <= i < |payloads| - 1 ==> payloads[1..][i] == payloads[i + 1];
    }
  }

  lemma NothingPrinted<E>(mapData: string -> Option<seq<E>>)
    ensures StreamReport("", mapData) == Report([], false)
  {
  }

  /** End to end: a stream of events within a megabyte, cut into chunks anywhere, is relayed as what its payloads map
      to, in order, up to the first that cannot be mapped. */
  lemma EventsRelayed<E>(payloads: seq<string>, arrivals: seq<Arrival>, mapData: string -> Option<seq<E>>)
    requires forall i :: 0 <= i < |payloads| ==> '\n' !in payloads[i]
    requires forall k :: 0 <= k < |arrivals| ==> arrivals[k].Data?
    requires Concat(Texts(arrivals)) == Printed(payloads) && Size(Printed(payloads)) <= 1_048_576
    ensures Relayed(arrivals, mapData).items == Expected(payloads, mapData)
  {
    hide Relayed, StreamReport, Size, Overflows, Printed, Expected, Concat, Texts;
    PrintedReport(payloads, mapData);
    forall k | 0 <= k < |Texts(arrivals)| ensures !Overflows(Texts(arrivals), k) {
      SmallStreamsPass(Texts(arrivals), k);
    }
    RelayedWhole(arrivals, mapData);
  }

  /** A stream that breaks off at arrival `n`: everything before it is relayed, and then, unless a payload could not be
      mapped, the network error, or nothing more when the run was cancelled. */
  lemma EventsCut<E>(payloads: seq<string>, arrivals: seq<Arrival>, n: nat, mapData: string -> Option<seq<E>>)
    requires forall i :: 0 <= i < |payloads| ==> '\n' !in payloads[i]
    requires n < |arrivals| && !arrivals[n].Data? && forall k :: 0 <= k < n ==> arrivals[k].Data?
    requires Concat(Texts(arrivals[..n])) == Printed(payloads) && Size(Printed(payloads)) <= 1_048_576
    ensures Relayed(arrivals, mapData).items ==
            Expected(payloads, mapData) +
            if arrivals[n].Broken? && forall i :: 0 <= i < |payloads| ==> mapData(Trim(payloads[i])).Some?
            then [NetworkFailed] else []
  {
    hide Relayed, StreamReport, Size, Overflows, Printed, Expected, Concat, Texts, Unfinished;
    var chunks := Texts(arrivals[..n]);
    PrintedReport(payloads, mapData);
    var m := RelayedMeans(arrivals, mapData);
    TextsAt(arrivals[..n], m);
    if m < n {
      assert arrivals[..n][..m] == arrivals[..m] && arrivals[..n][m] == arrivals[m];
      SmallStreamsPass(chunks, m);
      OverflowsMeans(chunks, m);
    }
  }

  /** And the bound is that: one more byte held back ends the stream. */
  lemma BoundIsMegabyte<E>(text: string, mapData: string -> Option<seq<E>>)
    requires '\n' !in text
    ensures Relayed([Data(text)], mapData).items == if Size(text) > 1_048_576 then [TooLarge] else []
  {
    hide Size, FirstNewline;
    var arrivals: seq<Arrival> := [Data(text)];
    assert |arrivals[1..]| == 0 && "" + text == text;
    assert FirstNewline(text) == |text|;
    assert CompleteLines(text) == [];
    RelayedStep("", arrivals, mapData);
    assert ReportOf(Payloads(CompleteLines(text)), mapData) == Report([], false);
    assert Drained(text, arrivals[1..], mapData) == Report([], false);
  }
}
