/** What the pieces of a patch do, read off the lines and the workspace themselves. */
module PatchMeaning {
  import opened Prelude
  import opened Text
  import opened TextMeaning
  import opened PatchFormat
  import opened PatchRoundTrip
  import opened PatchApply
  import opened UndoHistory
  import opened PatchFiles
  import opened PatchReread
  import G = PatchGrammar

  // ---------- Matching ----------

  /** A block matches a needle exactly when its lines are the same, and fuzzily when each line has the same beginning
      and only whitespace after it. */
  lemma SameBlockMeans(block: seq<string>, needle: seq<string>)
    requires |block| == |needle|
    ensures SameBlock(block, needle, Exact) <==> forall i :: 0 <= i < |needle| ==> block[i] == needle[i]
    ensures SameBlock(block, needle, FuzzyTrailingWhitespace) <==>
            forall i :: 0 <= i < |needle| ==> SameButForEnd(block[i], needle[i])
  {
    hide TrimEnd, SameButForEnd;
    forall i | 0 <= i < |needle|
      ensures TrimEnd(block[i]) == TrimEnd(needle[i]) <==> SameButForEnd(block[i], needle[i])
    {
      TrimEndMeans(block[i], needle[i]);
    }
  }

  /** The places of a needle from some line on. */
  ghost function Places(lines: seq<string>, needle: seq<string>, from: nat, kind: MatchKind): set<nat> {
    set at: nat | at <= |lines| && IsMatch(lines, needle, from, at, kind)
  }

  lemma {:induction false} Increasing(found: seq<nat>, s: set<nat>)
    requires forall i, j :: 0 <= i < j < |found| ==> found[i] < found[j]
    requires forall x: nat :: x in s <==> x in found
    ensures |s| == |found|
  {
    if found == [] {
      assert s == {};
    } else {
      var front, last := found[..|found| - 1], found[|found| - 1];
      forall x: nat ensures x in s - {last} <==> x in front {
        assert x in found <==> x in front || x == last by {
          assert found == front + [last];
        }
      }
      Increasing(front, s - {last});
    }
  }

  lemma PlacesCount(lines: seq<string>, needle: seq<string>, from: nat, kind: MatchKind)
    ensures |FindAll(lines, needle, from, kind)| == |Places(lines, needle, from, kind)|
  {
    hide FindAll, MatchesAt;
    var found := FindAll(lines, needle, from, kind);
    FindAllComplete(lines, needle, from, kind);
    Increasing(found, Places(lines, needle, from, kind));
  }

  /** Why a hunk is refused: several exact places, or none and several fuzzy ones, with their number; or no place at
      all. */
  lemma LocateFails(lines: seq<string>, hunk: Hunk, cursor: nat)
    ensures var exact := |Places(lines, hunk.oldLines, cursor, Exact)|;
            var fuzzy := |Places(lines, hunk.oldLines, cursor, FuzzyTrailingWhitespace)|;
            && (Locate(lines, hunk, cursor) == Err(ContextMissing) <==> exact == 0 && fuzzy == 0)
            && (forall n :: Locate(lines, hunk, cursor) == Err(Ambiguous(n)) <==> exact == n && n > 1)
            && (forall n :: Locate(lines, hunk, cursor) == Err(AmbiguousFuzzy(n)) <==>
                  exact == 0 && fuzzy == n && n > 1)
  {
    hide FindAll, Places;
    PlacesCount(lines, hunk.oldLines, cursor, Exact);
    PlacesCount(lines, hunk.oldLines, cursor, FuzzyTrailingWhitespace);
  }

  // ---------- Operations ----------

  /** An added file holds its lines, each ended with a newline. */
  lemma {:induction false} AddedTextMeans(content: seq<string>)
    ensures AddedText(content) == Unlines(content)
  {
    if |content| > 1 {
      AddedTextMeans(content[1..]);
    } else if |content| == 1 {
      assert content[1..] == [];
      assert content[0] + ['\n'] + [] == content[0] + "\n";
    }
  }

  /** The exact result of every operation, errors first to last. */
  lemma OperationMeans(files: Files, op: FileOperation, disk: Disk)
    ensures var r, path := ApplyOperation(files, op, disk), op.path;
            if path in disk.unresolved then r == Err(Unresolved(path))
            else if op.Add? && path in files then r == Err(AlreadyExists(path))
            else if !op.Add? && path !in files then r == Err(NotFound(path))
            else if op.Update? && ApplyHunks(files[path], op.hunks).Err? then
              r == Err(HunkFailed(path, ApplyHunks(files[path], op.hunks).error))
            else if path in disk.readOnly then r == Err(Unwritable(path))
            else
              && r.Ok? && r.value.1.path == path
              && (forall other :: other != path ==> Read(r.value.0, other) == Read(files, other))
              && match op
                 case Add(_, content) =>
                   Read(r.value.0, path) == Some(Unlines(content)) && r.value.1 == AppliedChange(path, Created, 0)
                 case Delete(_) =>
                   Read(r.value.0, path) == None && r.value.1 == AppliedChange(path, Deleted, 0)
                 case Update(_, hunks) =>
                   var (text, fuzzy) := ApplyHunks(files[path], hunks).value;
                   Read(r.value.0, path) == Some(text) && r.value.1 == AppliedChange(path, Modified, fuzzy)
  {
    hide ApplyHunks, AddedText, Unlines;
    if op.Add? {
      AddedTextMeans(op.content);
    }
  }

  /** The reported kind, read off the workspace: created files were missing and are there, deleted ones were there and
      are missing, modified ones were there and still are. */
  lemma KindsMean(files: Files, op: FileOperation, disk: Disk)
    requires ApplyOperation(files, op, disk).Ok?
    ensures var (after, change) := ApplyOperation(files, op, disk).value;
            && (change.kind == Created <==> op.path !in files && op.path in after)
            && (change.kind == Deleted <==> op.path in files && op.path !in after)
            && (change.kind == Modified <==> op.path in files && op.path in after)
  {
    hide ApplyHunks, AddedText;
  }

  /** How many hunks a change reports as fuzzy: as many as found their place only up to trailing whitespace. */
  lemma FuzzyMeans(original: string, hunks: seq<Hunk>, sites: seq<Site>)
    requires Sited(Split(Body(original)).lines, hunks, sites, 0)
    ensures ApplyHunks(original, hunks).Ok?
    ensures ApplyHunks(original, hunks).value.1 ==
            |set i | 0 <= i < |sites| && sites[i].kind == FuzzyTrailingWhitespace|
  {
    hide Sited, Split, Join, SpliceHunks, Substitute, FuzzyCount;
    ApplyIsSubstitution(Split(Body(original)).lines, hunks);
    FuzzyCounts(sites);
  }

  lemma {:induction false} FuzzyCountSnoc(sites: seq<Site>)
    requires sites != []
    ensures FuzzyCount(sites) ==
            FuzzyCount(sites[..|sites| - 1]) + (if sites[|sites| - 1].kind == FuzzyTrailingWhitespace then 1 else 0)
  {
    if |sites| > 1 {
      FuzzyCountSnoc(sites[1..]);
      assert sites[1..][..|sites| - 2] == sites[..|sites| - 1][1..];
    } else {
      assert sites[1..] == [];
    }
  }

  lemma {:induction false} FuzzyCounts(sites: seq<Site>)
    ensures FuzzyCount(sites) == |set i | 0 <= i < |sites| && sites[i].kind == FuzzyTrailingWhitespace|
  {
    hide FuzzyCount;
    var fuzzy := set i | 0 <= i < |sites| && sites[i].kind == FuzzyTrailingWhitespace;
    if sites == [] {
      NoneFuzzy();
      assert fuzzy == {};
    } else {
      var n := |sites| - 1;
      var front := sites[..n];
      FuzzyCountSnoc(sites);
      FuzzyCounts(front);
      var earlier := set i | 0 <= i < |front| && front[i].kind == FuzzyTrailingWhitespace;
      assert fuzzy == earlier + (if sites[n].kind == FuzzyTrailingWhitespace then {n} else {});
    }
  }

  lemma NoneFuzzy()
    ensures FuzzyCount([]) == 0
  {
  }

  /** Over whole patches: a file that an operation adds, and no later one names, ends with exactly its lines. */
  lemma {:induction false} AddedFileHolds(files: Files, ops: seq<FileOperation>, i: nat, disk: Disk)
    requires ApplyOperations(files, ops, disk).1.Ok? && i < |ops| && ops[i].Add?
    requires forall j :: i < j < |ops| ==> ops[j].path != ops[i].path
    ensures Read(ApplyOperations(files, ops, disk).0, ops[i].path) == Some(Unlines(ops[i].content))
  {
    hide ApplyOperation, Unlines;
    var front, last := ops[..|ops| - 1], ops[|ops| - 1];
    var before := ApplyOperations(files, front, disk).0;
    OperationMeans(before, last, disk);
    if i < |front| {
      AddedFileHolds(files, front, i, disk);
    }
  }

  /** Reading an added file back gives its lines again, with plain newlines and a final one, if and only if none of them
      ends in a carriage return; a file added without lines is empty. */
  lemma AddedReadsBack(content: seq<string>)
    requires NoNewline(content)
    ensures Split(Unlines(content)) == SplitContent(content, "\n", content != []) <==>
            forall i :: 0 <= i < |content| ==> content[i] == "" || content[i][|content[i]| - 1] != '\r'
  {
    hide Split, Join, Unlines;
    var s := SplitContent(content, "\n", content != []);
    AddedTextMeans(content);
    assert Unlines(content) == Join(s) by {
      AddedJoins(content);
    }
    SplitJoinExactly(s);
    assert content != [] ==> Joined(s) == content + [[]];
    assert forall i :: 0 <= i < |content| ==> (content + [[]])[i] == content[i];
  }

  lemma AddedJoins(content: seq<string>)
    ensures AddedText(content) == Join(SplitContent(content, "\n", content != []))
  {
  }

  lemma {:induction false} NormalizeLast(content: string)
    ensures Normalize(content) == [] <==> content == []
    ensures content != [] ==>
              (Normalize(content)[|Normalize(content)| - 1] == '\n' <==> content[|content| - 1] == '\n')
    decreases |content|
  {
    if content != [] {
      if CRLF <= content {
        assert content[1] == '\n';
        NormalizeLast(content[2..]);
      } else {
        NormalizeLast(content[1..]);
      }
    }
  }

  /** What is kept about a text beside its lines: whether a carriage return stands before any newline of it, whether it
      ends in a newline, and whether it begins with a byte-order mark. */
  lemma EndingsMean(content: string)
    ensures Split(content).ending ==
            if exists i :: 0 < i < |content| && content[i - 1] == '\r' && content[i] == '\n' then "\r\n" else "\n"
    ensures Split(content).trailingNewline <==> content != "" && content[|content| - 1] == '\n'
    ensures Body(content) == if content != "" && content[0] == '\U{FEFF}' then content[1..] else content
  {
    hide Normalize, SplitLines;
    NormalizeLast(content);
    assert content != "" ==> ([BOM] <= content <==> content[0] == BOM);
  }

  // ---------- Documents ----------

  /** One line of an added file loses the plus it starts with, if it does. */
  lemma AddedContentMeans(section: seq<string>, i: nat)
    requires i < |section|
    ensures |AddedContent(section)| == |section|
    ensures section[i] != "" && section[i][0] == '+' ==> section[i] == ['+'] + AddedContent(section)[i]
    ensures section[i] == "" || section[i][0] != '+' ==> AddedContent(section)[i] == section[i]
  {
    if section[i] != "" {
      assert "+" <= section[i] <==> section[i][0] == '+';
    }
  }

  /** The errors of the document itself. */
  lemma DocumentErrors(lines: seq<string>)
    ensures ParseLines(lines) == Err(EmptyPatch) <==> lines == []
    ensures ParseLines(lines) == Err(MissingBegin) <==> lines != [] && Trim(lines[0]) != "*** Begin Patch"
    ensures ParseLines(lines) == Err(MissingEnd) <==>
            && lines != [] && Trim(lines[0]) == "*** Begin Patch"
            && forall i :: 0 < i < |lines| ==> Trim(lines[i]) != "*** End Patch"
  {
    hide Trim, ParseBody, EndIndex;
    if lines != [] {
      var body := lines[1..];
      BodyErrors(body[..EndIndex(body)]);
      assert forall i :: 0 < i < |lines| ==> lines[i] == body[i - 1];
      assert forall i :: 0 <= i < |body| ==> body[i] == lines[i + 1];
    }
  }

  lemma {:induction false} BodyErrors(body: seq<string>)
    ensures ParseBody(body) !in {Err(EmptyPatch), Err(MissingBegin), Err(MissingEnd)}
    decreases |body|
  {
    hide Trim, MarkerPath, AddedContent, SectionLength, Groups, HunksOf, FirstBadLine;
    if body != [] {
      var rest := body[1..];
      BodyErrors(rest[SectionLength(rest)..]);
      BodyErrors(rest);
    }
  }

  // ---------- A document, written out ----------

  const SAMPLE_LINES := [
    "*** Begin Patch", "*** Update File: a.txt", "@@ here", " x", "-y", "+z", "", "*** Add File: b.txt", "+one", "two",
    "*** Delete File: c.txt", "*** End Patch"]

  const SAMPLE_EDITS := [G.Context("x"), G.Removed("y"), G.Added("z"), G.Blank]
  const SAMPLE_BODY := G.Body([], [G.Group(" here", SAMPLE_EDITS)])
  const SAMPLE_UPDATE := G.UpdateEntry("a.txt", SAMPLE_BODY)
  const SAMPLE_ADD := G.AddEntry("b.txt", ["+one", "two"])
  const SAMPLE_DELETE := G.DeleteEntry("c.txt")

  lemma OneMoreEdit(edits: seq<G.EditLine>, edit: G.EditLine)
    ensures G.OldSide(edits + [edit]) == G.OldSide(edits) + edit.Old()
    ensures G.NewSide(edits + [edit]) == G.NewSide(edits) + edit.New()
    ensures G.EditLines(edits + [edit]) == G.EditLines(edits) + [edit.Line()]
  {
    assert (edits + [edit])[..|edits|] == edits;
  }

  lemma NoEdits()
    ensures G.OldSide([]) == [] && G.NewSide([]) == [] && G.EditLines([]) == []
  {
  }

  lemma SampleSides()
    ensures G.OldSide(SAMPLE_EDITS) == ["x", "y", ""] && G.NewSide(SAMPLE_EDITS) == ["x", "z", ""]
    ensures G.EditLines(SAMPLE_EDITS) == [" x", "-y", "+z", ""]
  {
    hide G.OldSide, G.NewSide, G.EditLines;
    NoEdits();
    OneMoreEdit([], G.Context("x"));
    OneMoreEdit([] + [G.Context("x")], G.Removed("y"));
    OneMoreEdit([] + [G.Context("x")] + [G.Removed("y")], G.Added("z"));
    OneMoreEdit([] + [G.Context("x")] + [G.Removed("y")] + [G.Added("z")], G.Blank);
    assert SAMPLE_EDITS == [] + [G.Context("x")] + [G.Removed("y")] + [G.Added("z")] + [G.Blank];
    assert [' '] + "x" == " x" && ['-'] + "y" == "-y" && ['+'] + "z" == "+z";
  }

  lemma SampleBody()
    ensures G.BodyLines(SAMPLE_BODY) == ["@@ here", " x", "-y", "+z", ""]
    ensures G.BodyHunks(SAMPLE_BODY) == [Hunk(["x", "y", ""], ["x", "z", ""])]
  {
    hide G.OldSide, G.NewSide, G.EditLines;
    SampleSides();
    NoEdits();
    assert "@@" + " here" == "@@ here";
    var first := G.Body([], SAMPLE_BODY.more[..0]);
    assert first.more == [] && G.BodyLines(first) == [] && G.BodyHunks(first) == [];
    assert G.BodyLines(SAMPLE_BODY) == [] + ["@@ here"] + [" x", "-y", "+z", ""];
    assert G.BodyHunks(SAMPLE_BODY) == [] + [Hunk(["x", "y", ""], ["x", "z", ""])];
  }

  lemma SampleUpdate()
    ensures G.EntryLines(SAMPLE_UPDATE) == ["*** Update File: a.txt", "@@ here", " x", "-y", "+z", ""]
    ensures G.EntryOps(SAMPLE_UPDATE) == [Update("a.txt", [Hunk(["x", "y", ""], ["x", "z", ""])])]
    ensures G.EntryOk(SAMPLE_UPDATE)
  {
    hide G.BodyLines, G.BodyHunks, Trim;
    SampleBody();
    TrimFixed("a.txt");
    assert UPDATE_PREFIX + "a.txt" == "*** Update File: a.txt";
  }

  lemma SampleAdd()
    ensures G.EntryLines(SAMPLE_ADD) == ["*** Add File: b.txt", "+one", "two"]
    ensures G.EntryOps(SAMPLE_ADD) == [Add("b.txt", ["one", "two"])]
    ensures G.EntryOk(SAMPLE_ADD)
  {
    hide Trim;
    TrimFixed("b.txt");
    assert ADD_PREFIX + "b.txt" == "*** Add File: b.txt";
    assert "+one"[1..] == "one";
    var section: seq<string> := ["+one", "two"];
    AddedContentMeans(section, 0);
    AddedContentMeans(section, 1);
    assert AddedContent(section) == ["one", "two"];
    assert SAMPLE_ADD.lines == section;
    forall i | 0 <= i < 2 ensures !IsSectionMarker(section[i]) {
      assert |section[i]| < 12;
    }
  }

  lemma SampleDelete()
    ensures G.EntryLines(SAMPLE_DELETE) == ["*** Delete File: c.txt"]
    ensures G.EntryOps(SAMPLE_DELETE) == [Delete("c.txt")]
  {
    hide Trim;
    TrimFixed("c.txt");
    assert DELETE_PREFIX + "c.txt" == "*** Delete File: c.txt";
  }

  lemma SampleEntries()
    ensures var entries := [SAMPLE_UPDATE, SAMPLE_ADD, SAMPLE_DELETE];
            && G.EntriesLines(entries) == SAMPLE_LINES[1..11]
            && G.EntriesOps(entries) ==
               [Update("a.txt", [Hunk(["x", "y", ""], ["x", "z", ""])]), Add("b.txt", ["one", "two"]), Delete("c.txt")]
            && G.EntriesOk(entries)
  {
    hide G.EntryLines, G.EntryOps, G.EntryOk;
    SampleUpdate();
    SampleAdd();
    SampleDelete();
    DeleteIsOk();
    var entries := [SAMPLE_UPDATE, SAMPLE_ADD, SAMPLE_DELETE];
    var two, one: seq<G.Entry> := [SAMPLE_ADD, SAMPLE_DELETE], [SAMPLE_DELETE];
    assert entries[1..] == two && two[1..] == one && |one[1..]| == 0;
    assert G.EntriesLines(one[1..]) == [] && G.EntriesOps(one[1..]) == [] && G.EntriesOk(one[1..]);
    assert G.EntriesLines(one) == ["*** Delete File: c.txt"] && G.EntriesOps(one) == [Delete("c.txt")];
    assert G.EntriesOk(one) && G.EntriesOk(two);
    assert G.EntriesLines(two) == ["*** Add File: b.txt", "+one", "two", "*** Delete File: c.txt"];
    assert G.EntriesOps(two) == [Add("b.txt", ["one", "two"]), Delete("c.txt")];
  }

  lemma DeleteIsOk()
    ensures G.EntryOk(SAMPLE_DELETE)
  {
  }

  lemma ShorterThanEnd(line: string)
    requires |line| < 13
    ensures Trim(line) != "*** End Patch"
  {
    var a, b := TrimMeans(line);
  }

  lemma SampleNotEnded()
    ensures forall line :: line in SAMPLE_LINES[1..11] ==> Trim(line) != "*** End Patch"
  {
    hide Trim;
    TrimFixed("*** Update File: a.txt");
    TrimFixed("*** Add File: b.txt");
    TrimFixed("*** Delete File: c.txt");
    forall line | line in SAMPLE_LINES[1..11] ensures Trim(line) != "*** End Patch" {
      if |line| < 13 {
        ShorterThanEnd(line);
      }
    }
  }

  /** One document with every kind of line, and what it means. */
  lemma SampleReads()
    ensures ParseLines(SAMPLE_LINES) ==
            Ok([Update("a.txt", [Hunk(["x", "y", ""], ["x", "z", ""])]), Add("b.txt", ["one", "two"]), Delete("c.txt")])
  {
    hide ParseLines, Trim, G.EntriesLines, G.EntriesOps, G.EntriesOk;
    var entries := [SAMPLE_UPDATE, SAMPLE_ADD, SAMPLE_DELETE];
    var doc := G.Document("*** Begin Patch", entries, "*** End Patch", []);
    SampleEntries();
    SampleNotEnded();
    TrimFixed("*** Begin Patch");
    TrimFixed("*** End Patch");
    G.DocumentReads(doc);
    assert G.DocumentLines(doc) == SAMPLE_LINES;
  }
}
