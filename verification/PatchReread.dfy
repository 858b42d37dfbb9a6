/** Reading a patched file back: which split texts survive being joined and split again, and so when an edit
    keeps the byte-order mark, the line endings and the final newline. */
module PatchReread {
  import opened Prelude
  import opened Text
  import opened PatchFormat
  import opened PatchRoundTrip
  import opened PatchApply
  import opened PatchFiles

  predicate EndsCr(line: string) {
    line != [] && line[|line| - 1] == '\r'
  }

  /** The lines as they are joined: a final newline is an empty last line. */
  function Joined(s: SplitContent): seq<string> {
    if s.trailingNewline && s.lines != [] then s.lines + [[]] else s.lines
  }

  /** Lines without newlines; no lines only for the empty text; a last line without newline is not empty; a
      plain newline does not follow a carriage return; and a carriage-return ending is really used. */
  predicate Faithful(s: SplitContent) {
    && NoNewline(s.lines)
    && (s.lines == [] ==> s.ending == "\n" && !s.trailingNewline)
    && (s.lines != [] && !s.trailingNewline ==> s.lines[|s.lines| - 1] != [])
    && (s.ending == "\n" ==> forall i :: 0 <= i < |Joined(s)| - 1 ==> !EndsCr(Joined(s)[i]))
    && (s.ending == CRLF ==> |Joined(s)| > 1)
  }

  // ---------- Joining ----------

  lemma {:induction false} JoinEnding(lines: seq<string>, ending: string)
    requires NoNewline(lines)
    ensures JoinLines(lines, ending) == WithEnding(JoinLines(lines, "\n"), ending)
  {
    hide WithEnding;
    if |lines| == 1 {
      assert lines[0] in lines;
      WithEndingPlain(lines[0], ending);
    } else if lines == [] {
      OneNewline(ending);
    } else {
      assert lines[0] in lines;
      var rest := JoinLines(lines[1..], "\n");
      JoinEnding(lines[1..], ending);
      WithEndingLine(lines[0], rest, ending);
    }
  }

  lemma {:induction false} JoinSnocEmpty(lines: seq<string>, ending: string)
    requires lines != []
    ensures JoinLines(lines + [[]], ending) == JoinLines(lines, ending) + ending
  {
    var more := lines + [[]];
    if |lines| == 1 {
      assert more[1..] == [[]] && JoinLines([[]], ending) == [];
    } else {
      assert more[1..] == lines[1..] + [[]];
      JoinSnocEmpty(lines[1..], ending);
    }
  }

  lemma JoinJoined(s: SplitContent)
    ensures Join(s) == JoinLines(Joined(s), s.ending)
  {
    if s.trailingNewline && s.lines != [] {
      JoinSnocEmpty(s.lines, s.ending);
    }
  }

  lemma JoinedNoNewline(s: SplitContent)
    requires NoNewline(s.lines)
    ensures NoNewline(Joined(s))
  {
  }

  lemma {:induction false} NormalizeCrlf(text: string)
    ensures Normalize(WithEnding(text, CRLF)) == text
    ensures WithEnding(text, CRLF) != [] ==> WithEnding(text, CRLF)[0] != '\n'
  {
    if text != [] {
      var rest := WithEnding(text[1..], CRLF);
      NormalizeCrlf(text[1..]);
      var written := WithEnding(text, CRLF);
      if text[0] == '\n' {
        assert written == CRLF + rest && written[2..] == rest;
      } else {
        assert written == [text[0]] + rest && written[1..] == rest;
        assert |written| > 1 ==> written[1] == rest[0] && rest[0] != '\n';
      }
    }
  }

  /** Where carriage-return newlines come from in joined lines. */
  lemma CrlfAcross(line: string, rest: string)
    requires '\n' !in line
    ensures HasCrlf(line + "\n" + rest) <==> EndsCr(line) || HasCrlf(rest)
  {
    var text, n := line + "\n" + rest, |line|;
    assert forall i :: 0 <= i < |rest| ==> text[n + 1 + i] == rest[i];
    forall i | 0 <= i < n ensures text[i] != '\n' {
      assert line[i] in line;
    }
    if EndsCr(line) {
      assert text[n - 1] == '\r' && text[n] == '\n';
    }
    if i :| 0 < i < |rest| && rest[i - 1] == '\r' && rest[i] == '\n' {
      assert text[n + 1 + i - 1] == '\r' && text[n + 1 + i] == '\n';
    }
    if i :| 0 < i < |text| && text[i - 1] == '\r' && text[i] == '\n' {
      if i > n {
        assert i > n + 1;
        assert rest[i - n - 2] == '\r' && rest[i - n - 1] == '\n';
      }
    }
  }

  lemma {:induction false} CrlfOfLines(lines: seq<string>)
    requires NoNewline(lines)
    ensures HasCrlf(JoinLines(lines, "\n")) <==> exists i :: 0 <= i < |lines| - 1 && EndsCr(lines[i])
  {
    hide HasCrlf, EndsCr;
    if lines == [] {
      NoCrlf([]);
    } else if |lines| == 1 {
      assert lines[0] in lines;
      NoCrlf(lines[0]);
    } else {
      var rest := lines[1..];
      assert lines[0] in lines;
      CrlfOfLines(rest);
      CrlfAcross(lines[0], JoinLines(rest, "\n"));
      forall i | 0 <= i < |rest| - 1 ensures EndsCr(rest[i]) <==> EndsCr(lines[i + 1]) {
      }
      if i :| 0 <= i < |rest| - 1 && EndsCr(rest[i]) {
        assert EndsCr(lines[i + 1]);
      }
      if i :| 0 <= i < |lines| - 1 && EndsCr(lines[i]) {
        assert i > 0 ==> EndsCr(rest[i - 1]);
      }
    }
  }

  lemma NoCrlf(text: string)
    requires '\n' !in text
    ensures !HasCrlf(text)
  {
  }

  lemma {:induction false} CrlfWritten(text: string)
    ensures HasCrlf(WithEnding(text, CRLF)) <==> '\n' in text
  {
    var written := WithEnding(text, CRLF);
    if '\n' in text {
      var i := FirstNewline(text);
      assert text[..|text|] == text;
      var line, rest := text[..i], text[i + 1..];
      assert text == line + ['\n'] + rest;
      WithEndingLine(line, rest, CRLF);
      assert written[|line|] == '\r' && written[|line| + 1] == '\n';
    } else {
      WithEndingPlain(text, CRLF);
      NoCrlf(text);
    }
  }

  // ---------- Splitting ----------

  lemma {:induction false} SplitJoined(lines: seq<string>)
    requires lines != [] && NoNewline(lines)
    ensures SplitLines(JoinLines(lines, "\n")) == lines
  {
    assert lines[0] in lines;
    if |lines| == 1 {
      PlainLineSplits(lines[0]);
    } else {
      var rest := JoinLines(lines[1..], "\n");
      SplitJoined(lines[1..]);
      FirstNewlineAt(lines[0], rest);
      var text := lines[0] + ['\n'] + rest;
      assert text[..|lines[0]|] == lines[0] && text[|lines[0]| + 1..] == rest;
    }
  }

  lemma PlainLineSplits(line: string)
    requires '\n' !in line
    ensures SplitLines(line) == [line]
  {
    var i := FirstNewline(line);
    assert forall k :: 0 <= k < |line| ==> line[k] in line;
  }

  /** The lines of a text: free of newlines, and the last one is empty exactly after a final newline. */
  lemma {:induction false} SplitShape(text: string)
    ensures SplitLines(text) != [] && NoNewline(SplitLines(text))
    ensures var lines := SplitLines(text); lines[|lines| - 1] == [] <==> text == [] || text[|text| - 1] == '\n'
    ensures |SplitLines(text)| > 1 <==> '\n' in text
    decreases |text|
  {
    hide FirstNewline;
    var i := FirstNewline(text);
    assert text[..|text|] == text;
    if i < |text| {
      var rest := text[i + 1..];
      SplitShape(rest);
      assert SplitLines(text) == [text[..i]] + SplitLines(rest);
      assert text[i] in text;
    }
  }

  lemma {:induction false} NormalizeNewline(content: string)
    ensures '\n' in Normalize(content) <==> '\n' in content
  {
    if content != [] {
      if CRLF <= content {
        assert content[1] == '\n' && content[1] in content && Normalize(content)[0] == '\n';
      } else {
        NormalizeNewline(content[1..]);
        assert content == [content[0]] + content[1..];
      }
    }
  }

  /** Every split text is faithful. */
  lemma SplitFaithful(content: string)
    ensures Faithful(Split(content)) && Split(content).ending in {"\n", CRLF}
  {
    hide Normalize, SplitLines, JoinLines, HasCrlf, EndsCr;
    var s, normalized := Split(content), Normalize(content);
    var trailing := normalized != [] && normalized[|normalized| - 1] == '\n';
    var trimmed := if trailing then normalized[..|normalized| - 1] else normalized;
    SplitShape(trimmed);
    EmptyNormalizes(content);
    if HasCrlf(content) {
      CrlfHasNewline(content);
      NormalizeNewline(content);
      assert trailing ==> normalized == trimmed + ['\n'];
    } else {
      SplitJoinIdentity(content);
      JoinJoined(s);
      JoinedNoNewline(s);
      CrlfOfLines(Joined(s));
    }
  }

  lemma EmptyNormalizes(content: string)
    ensures Normalize(content) == [] <==> content == []
    ensures content == [] ==> !HasCrlf(content)
  {
  }

  lemma CrlfHasNewline(content: string)
    requires HasCrlf(content)
    ensures '\n' in content
  {
    var i :| 0 < i < |content| && content[i - 1] == '\r' && content[i] == '\n';
    assert content[i] in content;
  }

  lemma {:induction false} JoinEnds(lines: seq<string>)
    requires lines != [] && NoNewline(lines)
    ensures var text := JoinLines(lines, "\n");
            (text == [] || text[|text| - 1] == '\n') <==> lines[|lines| - 1] == []
    ensures '\n' in JoinLines(lines, "\n") <==> |lines| > 1
  {
    hide JoinLines, SplitLines;
    SplitJoined(lines);
    SplitShape(JoinLines(lines, "\n"));
  }

  /** Joining and splitting a faithful text gives it back. */
  lemma FaithfulSplits(s: SplitContent)
    requires Faithful(s) && s.ending in {"\n", CRLF}
    ensures Split(Join(s)) == s
  {
    hide Normalize, SplitLines, JoinLines, HasCrlf, EndsCr, WithEnding, Join;
    var lines := Joined(s);
    var text := JoinLines(lines, "\n");
    JoinJoined(s);
    JoinedNoNewline(s);
    JoinEnding(lines, s.ending);
    CrlfOfLines(lines);
    if s.lines == [] {
      OneNewline("\n");
      EmptyNormalizes([]);
    } else {
      JoinEnds(lines);
      SplitJoined(s.lines);
      if s.ending == CRLF {
        NormalizeCrlf(text);
        CrlfWritten(text);
      } else {
        WithNewline(text);
        NormalizePlain(text);
      }
      if s.trailingNewline {
        JoinSnocEmpty(s.lines, "\n");
      } else {
        JoinEnds(s.lines);
      }
    }
  }

  /** The exact condition: a split text survives being joined and split again if and only if it is faithful. */
  lemma SplitJoinExactly(s: SplitContent)
    requires s.ending in {"\n", CRLF}
    ensures Split(Join(s)) == s <==> Faithful(s)
  {
    hide Split, Join, Faithful;
    SplitFaithful(Join(s));
    if Faithful(s) {
      FaithfulSplits(s);
    }
  }

  // ---------- Patched files ----------

  /** Reading a patched file back gives the spliced lines with the same byte-order mark, ending and final
      newline if and only if those lines are faithful to that ending, and a file without mark was not given
      one by its new first line. */
  lemma PatchedReadsBack(original: string, hunks: seq<Hunk>)
    requires ApplyHunks(original, hunks).Ok?
    ensures var split := Split(Body(original));
            var spliced := SpliceHunks(split.lines, hunks, 0, 0);
            && spliced.Ok?
            && var edited := split.(lines := spliced.value.lines);
               var result := ApplyHunks(original, hunks).value.0;
               (([BOM] <= result <==> [BOM] <= original) && Split(Body(result)) == edited) <==>
               Faithful(edited) && ([BOM] <= original || !([BOM] <= Join(edited)))
  {
    hide Split, Join, Faithful, SpliceHunks;
    var split := Split(Body(original));
    var edited := split.(lines := SpliceHunks(split.lines, hunks, 0, 0).value.lines);
    SplitFaithful(Body(original));
    SplitJoinExactly(edited);
    var joined := Join(edited);
    assert ([BOM] + joined)[1..] == joined;
  }

  /** Splicing lines without newlines into lines without newlines, as a parsed patch does, makes no others. */
  lemma SplicedNoNewline(original: seq<string>, hunks: seq<Hunk>)
    requires NoNewline(original) && (forall i :: 0 <= i < |hunks| ==> NoNewline(hunks[i].newLines))
    requires SpliceHunks(original, hunks, 0, 0).Ok?
    ensures NoNewline(SpliceHunks(original, hunks, 0, 0).value.lines)
  {
    SplicedFrom(original, hunks, 0, 0);
  }

  lemma {:induction false} SplicedFrom(lines: seq<string>, hunks: seq<Hunk>, cursor: nat, fuzzy: nat)
    requires cursor <= |lines| && NoNewline(lines) && (forall i :: 0 <= i < |hunks| ==> NoNewline(hunks[i].newLines))
    requires SpliceHunks(lines, hunks, cursor, fuzzy).Ok?
    ensures NoNewline(SpliceHunks(lines, hunks, cursor, fuzzy).value.lines)
    decreases |hunks|
  {
    hide PlaceOf, Locate, SpliceHunks, Splice, NoNewline;
    if hunks == [] {
      NothingSpliced(lines, cursor, fuzzy);
    } else {
      var at, kind := FirstPlace(lines, hunks, cursor, fuzzy);
      var next := Splice(lines, at, |hunks[0].oldLines|, hunks[0].newLines);
      SpliceNoNewline(lines, at, |hunks[0].oldLines|, hunks[0].newLines);
      SplicedFrom(next, hunks[1..], at + |hunks[0].newLines|, if kind.Exact? then fuzzy else fuzzy + 1);
    }
  }

  lemma NothingSpliced(lines: seq<string>, cursor: nat, fuzzy: nat)
    requires cursor <= |lines|
    ensures SpliceHunks(lines, [], cursor, fuzzy) == Ok(Spliced(lines, fuzzy))
  {
  }

  lemma SpliceNoNewline(lines: seq<string>, at: nat, remove: nat, insert: seq<string>)
    requires at + remove <= |lines| && NoNewline(lines) && NoNewline(insert)
    ensures NoNewline(Splice(lines, at, remove, insert))
            && |Splice(lines, at, remove, insert)| == |lines| - remove + |insert|
  {
  }
}
