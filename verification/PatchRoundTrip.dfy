/** The parser against a canonical printer of the documented format, and against the path scan used
    to snapshot files before a patch. */
module PatchRoundTrip {
  import opened Prelude
  import opened Text
  import opened PatchFormat

  // ---------- A canonical printer ----------

  function Prefixed(mark: char, lines: seq<string>): seq<string> {
    seq(|lines|, i requires 0 <= i < |lines| => [mark] + lines[i])
  }

  function PrintHunk(hunk: Hunk): seq<string> {
    [HUNK_MARKER] + Prefixed('-', hunk.oldLines) + Prefixed('+', hunk.newLines)
  }

  function PrintHunks(hunks: seq<Hunk>): seq<string> {
    if hunks == [] then [] else PrintHunks(hunks[..|hunks| - 1]) + PrintHunk(hunks[|hunks| - 1])
  }

  function Header(op: FileOperation): string {
    match op
    case Update(path, _) => UPDATE_PREFIX + path
    case Add(path, _) => ADD_PREFIX + path
    case Delete(path) => DELETE_PREFIX + path
  }

  function Section(op: FileOperation): seq<string> {
    match op
    case Update(_, hunks) => PrintHunks(hunks)
    case Add(_, content) => Prefixed('+', content)
    case Delete(_) => []
  }

  function PrintBody(ops: seq<FileOperation>): seq<string> {
    if ops == [] then [] else [Header(ops[0])] + Section(ops[0]) + PrintBody(ops[1..])
  }

  function PrintLines(ops: seq<FileOperation>): seq<string> {
    [BEGIN_MARKER] + PrintBody(ops) + [END_MARKER]
  }

  function Print(ops: seq<FileOperation>): string {
    Unlines(PrintLines(ops))
  }

  // ---------- What can be printed ----------

  predicate NoNewline(lines: seq<string>) {
    forall line :: line in lines ==> '\n' !in line
  }

  predicate NoFinalCr(lines: seq<string>) {
    forall i :: 0 <= i < |lines| ==> StripCr(lines[i]) == lines[i]
  }

  /** What every parsed operation satisfies: a trimmed path, and hunks that each have old lines. */
  predicate WellShaped(op: FileOperation) {
    && Trim(op.path) == op.path && '\n' !in op.path
    && match op
       case Update(_, hunks) =>
         hunks != [] && forall h :: h in hunks ==> h.oldLines != [] && NoNewline(h.oldLines) && NoNewline(h.newLines)
       case Add(_, content) => NoNewline(content)
       case Delete(_) => true
  }

  predicate HunksKeepLineEnds(hunks: seq<Hunk>) {
    forall i :: 0 <= i < |hunks| ==> NoFinalCr(hunks[i].oldLines) && NoFinalCr(hunks[i].newLines)
  }

  /** No content line ends in a carriage return, which reading lines would strip. */
  predicate KeepsLineEnds(op: FileOperation) {
    match op
    case Update(_, hunks) => HunksKeepLineEnds(hunks)
    case Add(_, content) => NoFinalCr(content)
    case Delete(_) => true
  }

  predicate AllWellShaped(ops: seq<FileOperation>) {
    forall i :: 0 <= i < |ops| ==> WellShaped(ops[i])
  }

  predicate AllKeepLineEnds(ops: seq<FileOperation>) {
    forall i :: 0 <= i < |ops| ==> KeepsLineEnds(ops[i])
  }

  // ---------- Printing then parsing, line by line ----------

  /** Lines that belong to the body of a section: neither markers nor the end of the patch. */
  predicate PlainLine(line: string) {
    line != [] && line[0] in "-+@"
  }

  lemma PlainLineFacts(line: string)
    requires PlainLine(line)
    ensures !IsSectionMarker(line) && Trim(line) != END_MARKER
  {
    assert TrimStart(line) == line;
    TrimEndFirst(line);
    assert Trim(line)[0] == line[0];
  }

  lemma HeaderFacts(op: FileOperation)
    requires Trim(op.path) == op.path
    ensures IsSectionMarker(Header(op)) && Trim(Header(op)) != END_MARKER
    ensures MarkerPath(Header(op)) == op.path
    ensures op.Update? <==> UPDATE_PREFIX <= Header(op)
    ensures op.Add? <==> ADD_PREFIX <= Header(op)
  {
    var line := Header(op);
    assert TrimStart(line) == line;
    assert Trim(line) <= line;
    assert line[4] != END_MARKER[4];
    match op
    case Update(path, _) => assert line[|UPDATE_PREFIX|..] == path;
    case Add(path, _) => assert line[|ADD_PREFIX|..] == path;
    case Delete(path) => assert line[|DELETE_PREFIX|..] == path;
  }

  lemma {:induction false} PrintedHunksArePlain(hunks: seq<Hunk>)
    ensures forall line :: line in PrintHunks(hunks) ==> PlainLine(line)
  {
    if hunks != [] {
      PrintedHunksArePlain(hunks[..|hunks| - 1]);
    }
  }

  lemma {:induction false} GroupsLine(lines: seq<string>, line: string)
    ensures var groups := Groups(lines);
            Groups(lines + [line]) ==
            if IsHunkMarker(line) then groups + [[]]
            else groups[..|groups| - 1] + [groups[|groups| - 1] + [line]]
  {
    assert (lines + [line])[..|lines|] == lines;
  }

  /** Lines without a hunk marker extend the open group. */
  lemma {:induction false} GroupsExtend(lines: seq<string>, more: seq<string>)
    requires forall i :: 0 <= i < |more| ==> !IsHunkMarker(more[i])
    ensures var groups := Groups(lines);
            Groups(lines + more) == groups[..|groups| - 1] + [groups[|groups| - 1] + more]
  {
    hide Groups;
    var groups := Groups(lines);
    if more == [] {
      assert lines + more == lines && groups[|groups| - 1] + more == groups[|groups| - 1];
    } else {
      var front, last := more[..|more| - 1], more[|more| - 1];
      GroupsExtend(lines, front);
      GroupsLine(lines + front, last);
      assert lines + more == lines + front + [last];
      assert groups[|groups| - 1] + front + [last] == groups[|groups| - 1] + more;
    }
  }

  lemma {:induction false} OldNewSnoc(group: seq<string>, line: string)
    ensures OldOf(group + [line]) == PushOld(OldOf(group), line)
    ensures NewOf(group + [line]) == PushNew(NewOf(group), line)
  {
    assert (group + [line])[..|group|] == group;
  }

  lemma {:induction false} OldNewPrefixed(group: seq<string>, mark: char, lines: seq<string>)
    requires mark == '-' || mark == '+'
    ensures OldOf(group + Prefixed(mark, lines)) == OldOf(group) + (if mark == '-' then lines else [])
    ensures NewOf(group + Prefixed(mark, lines)) == NewOf(group) + (if mark == '+' then lines else [])
  {
    hide OldOf, NewOf;
    if lines == [] {
      assert group + Prefixed(mark, lines) == group;
    } else {
      var front, last := lines[..|lines| - 1], lines[|lines| - 1];
      OldNewPrefixed(group, mark, front);
      OldNewSnoc(group + Prefixed(mark, front), [mark] + last);
      assert group + Prefixed(mark, lines) == group + Prefixed(mark, front) + [[mark] + last];
      assert ([mark] + last)[1..] == last && front + [last] == lines;
    }
  }

  /** The group a printed hunk becomes, without its marker. */
  function HunkGroup(hunk: Hunk): seq<string> {
    Prefixed('-', hunk.oldLines) + Prefixed('+', hunk.newLines)
  }

  lemma HunkGroupIsPlain(hunk: Hunk)
    ensures forall i :: 0 <= i < |HunkGroup(hunk)| ==> !IsHunkMarker(HunkGroup(hunk)[i])
  {
    forall i | 0 <= i < |HunkGroup(hunk)| ensures !IsHunkMarker(HunkGroup(hunk)[i]) {
      assert HunkGroup(hunk)[i][0] in "-+";
    }
  }

  lemma HunkGroupReadsBack(hunk: Hunk)
    ensures OldOf(HunkGroup(hunk)) == hunk.oldLines && NewOf(HunkGroup(hunk)) == hunk.newLines
  {
    OldNewPrefixed([], '-', hunk.oldLines);
    assert [] + Prefixed('-', hunk.oldLines) == Prefixed('-', hunk.oldLines);
    OldNewPrefixed(Prefixed('-', hunk.oldLines), '+', hunk.newLines);
  }

  function HunkGroups(hunks: seq<Hunk>): seq<seq<string>> {
    seq(|hunks|, i requires 0 <= i < |hunks| => HunkGroup(hunks[i]))
  }

  lemma PrintHunkSplit(lines: seq<string>, hunk: Hunk)
    ensures lines + PrintHunk(hunk) == lines + [HUNK_MARKER] + HunkGroup(hunk)
  {
  }

  /** A printed hunk closes the open group and leaves its own as the new open one. */
  lemma GroupsOfHunk(lines: seq<string>, hunk: Hunk)
    ensures Groups(lines + [HUNK_MARKER] + HunkGroup(hunk)) == Groups(lines) + [HunkGroup(hunk)]
  {
    hide Groups, HunkGroup;
    var group := HunkGroup(hunk);
    GroupsLine(lines, HUNK_MARKER);
    HunkGroupIsPlain(hunk);
    GroupsExtend(lines + [HUNK_MARKER], group);
    var groups := Groups(lines) + [[]];
    assert groups[..|groups| - 1] == Groups(lines) && groups[|groups| - 1] + group == group;
  }

  lemma HunkGroupsSnoc(hunks: seq<Hunk>, hunk: Hunk)
    ensures HunkGroups(hunks + [hunk]) == HunkGroups(hunks) + [HunkGroup(hunk)]
  {
  }

  lemma {:induction false} PrintedGroups(hunks: seq<Hunk>)
    ensures Groups(PrintHunks(hunks)) == [[]] + HunkGroups(hunks)
  {
    if hunks != [] {
      var front, h := hunks[..|hunks| - 1], hunks[|hunks| - 1];
      PrintedGroups(front);
      hide Groups, PrintHunk, HunkGroup, HunkGroups;
      PrintHunkSplit(PrintHunks(front), h);
      GroupsOfHunk(PrintHunks(front), h);
      HunkGroupsSnoc(front, h);
      assert front + [h] == hunks;
      assert [[]] + (HunkGroups(front) + [HunkGroup(h)]) == [[]] + HunkGroups(front) + [HunkGroup(h)];
    } else {
      assert HunkGroups(hunks) == [];
    }
  }

  lemma {:induction false} PrintedHunksReadBack(hunks: seq<Hunk>)
    requires forall h :: h in hunks ==> h.oldLines != []
    ensures HunksOf([[]] + HunkGroups(hunks)) == hunks
  {
    var groups := [[]] + HunkGroups(hunks);
    if hunks == [] {
      assert groups == [[]] && groups[..0] == [];
    } else {
      var front, h := hunks[..|hunks| - 1], hunks[|hunks| - 1];
      PrintedHunksReadBack(front);
      HunkGroupReadsBack(h);
      assert groups[..|groups| - 1] == [[]] + HunkGroups(front);
      assert |HunkGroup(h)| > 0;
    }
  }

  lemma {:induction false} NoBadPlainLine(lines: seq<string>)
    requires forall i :: 0 <= i < |lines| ==> !IsBadHunkLine(lines[i])
    ensures FirstBadLine(lines) == None
  {
    if lines != [] {
      NoBadPlainLine(lines[1..]);
    }
  }

  lemma {:induction false} PrintedHunksAreGood(hunks: seq<Hunk>)
    ensures forall i :: 0 <= i < |PrintHunks(hunks)| ==> !IsBadHunkLine(PrintHunks(hunks)[i])
  {
    if hunks != [] {
      PrintedHunksAreGood(hunks[..|hunks| - 1]);
      var front, last := PrintHunks(hunks[..|hunks| - 1]), PrintHunk(hunks[|hunks| - 1]);
      forall i | 0 <= i < |front + last| ensures !IsBadHunkLine((front + last)[i]) {
        if i >= |front| {
          assert !IsBadHunkLine(last[i - |front|]);
        }
      }
    }
  }

  lemma SectionReadsBack(hunks: seq<Hunk>)
    requires hunks != [] && forall h :: h in hunks ==> h.oldLines != []
    ensures ParseHunks(PrintHunks(hunks)) == Ok(hunks)
  {
    hide PrintHunks, Groups, HunksOf, FirstBadLine;
    PrintedHunksAreGood(hunks);
    NoBadPlainLine(PrintHunks(hunks));
    PrintedGroups(hunks);
    PrintedHunksReadBack(hunks);
  }

  lemma AddReadsBack(content: seq<string>)
    ensures AddedContent(Prefixed('+', content)) == content
  {
    var lines := Prefixed('+', content);
    forall i | 0 <= i < |lines| ensures AddedContent(lines)[i] == content[i] {
      assert lines[i][..1] == "+" && lines[i][1..] == content[i];
    }
  }

  lemma {:induction false} SectionSplit(section: seq<string>, rest: seq<string>)
    requires forall line :: line in section ==> !IsSectionMarker(line)
    requires rest == [] || IsSectionMarker(rest[0])
    ensures SectionLength(section + rest) == |section|
  {
    if section == [] {
      assert section + rest == rest;
    } else {
      assert (section + rest)[1..] == section[1..] + rest;
      SectionSplit(section[1..], rest);
    }
  }

  lemma SectionIsPlain(op: FileOperation)
    ensures forall line :: line in Section(op) ==> PlainLine(line)
  {
    if op.Update? {
      PrintedHunksArePlain(op.hunks);
    }
  }

  lemma {:induction false} BodyReadsBack(ops: seq<FileOperation>)
    requires AllWellShaped(ops)
    ensures ParseBody(PrintBody(ops)) == Ok(ops)
    ensures ops != [] ==> IsSectionMarker(PrintBody(ops)[0])
  {
    hide ParseBody, Section, Header, IsSectionMarker, Trim;
    ParseNothing();
    if ops != [] {
      BodyReadsBack(ops[1..]);
      OperationReadsBack(ops[0], PrintBody(ops[1..]));
      assert [ops[0]] + ops[1..] == ops;
      assert PrintBody(ops) == [Header(ops[0])] + (Section(ops[0]) + PrintBody(ops[1..]));
      HeaderFacts(ops[0]);
    }
  }

  lemma OperationReadsBack(op: FileOperation, rest: seq<string>)
    requires WellShaped(op) && (rest == [] || IsSectionMarker(rest[0]))
    ensures ParseBody([Header(op)] + (Section(op) + rest)) == Prepend(op, ParseBody(rest))
  {
    hide ParseHunks, AddedContent, PrintHunks, Prefixed, Trim, IsSectionMarker, MarkerPath, Header, SectionLength;
    var lines, section := [Header(op)] + (Section(op) + rest), Section(op);
    HeaderFacts(op);
    SectionIsPlain(op);
    forall line | line in section ensures !IsSectionMarker(line) {
      PlainLineFacts(line);
    }
    SectionSplit(section, rest);
    assert lines[1..] == section + rest && (section + rest)[..|section|] == section
           && (section + rest)[|section|..] == rest;
    match op
    case Update(_, hunks) => SectionReadsBack(hunks);
    case Add(_, content) => AddReadsBack(content);
    case Delete(_) =>
      MarkerKinds(Header(op));
  }

  lemma MarkerKinds(line: string)
    requires IsSectionMarker(line) && !(UPDATE_PREFIX <= line) && !(ADD_PREFIX <= line)
    ensures DELETE_PREFIX <= line
  {
  }

  lemma {:induction false} EndAfter(body: seq<string>, rest: seq<string>)
    requires forall line :: line in body ==> Trim(line) != END_MARKER
    requires rest != [] && Trim(rest[0]) == END_MARKER
    ensures EndIndex(body + rest) == |body|
  {
    if body == [] {
      assert body + rest == rest;
    } else {
      assert (body + rest)[1..] == body[1..] + rest;
      EndAfter(body[1..], rest);
    }
  }

  lemma {:induction false} BodyHasNoEnd(ops: seq<FileOperation>)
    requires AllWellShaped(ops)
    ensures forall line :: line in PrintBody(ops) ==> Trim(line) != END_MARKER
  {
    if ops != [] {
      BodyHasNoEnd(ops[1..]);
      HeaderFacts(ops[0]);
      SectionIsPlain(ops[0]);
      forall line | line in Section(ops[0]) ensures Trim(line) != END_MARKER {
        PlainLineFacts(line);
      }
    }
  }

  lemma LinesReadBack(ops: seq<FileOperation>)
    requires ops != [] && AllWellShaped(ops)
    ensures ParseLines(PrintLines(ops)) == Ok(ops)
  {
    hide ParseBody, PrintBody, WellShaped;
    var body := PrintBody(ops);
    TrimFixed(BEGIN_MARKER);
    TrimFixed(END_MARKER);
    assert PrintLines(ops)[1..] == body + [END_MARKER];
    BodyHasNoEnd(ops);
    EndAfter(body, [END_MARKER]);
    BodyReadsBack(ops);
    assert (body + [END_MARKER])[..|body|] == body;
  }

  // ---------- Through the text ----------

  function StripHunk(hunk: Hunk): Hunk {
    Hunk(StripCrs(hunk.oldLines), StripCrs(hunk.newLines))
  }

  function StripHunks(hunks: seq<Hunk>): seq<Hunk> {
    seq(|hunks|, i requires 0 <= i < |hunks| => StripHunk(hunks[i]))
  }

  /** The operation with one final carriage return removed from each of its lines. */
  function StripOp(op: FileOperation): FileOperation {
    match op
    case Update(path, hunks) => Update(path, StripHunks(hunks))
    case Add(path, content) => Add(path, StripCrs(content))
    case Delete(path) => op
  }

  function StripOps(ops: seq<FileOperation>): seq<FileOperation> {
    seq(|ops|, i requires 0 <= i < |ops| => StripOp(ops[i]))
  }

  lemma StripCrsConcat(a: seq<string>, b: seq<string>)
    ensures StripCrs(a + b) == StripCrs(a) + StripCrs(b)
  {
  }

  lemma StripPrefixed(mark: char, lines: seq<string>)
    requires mark != '\r'
    ensures StripCrs(Prefixed(mark, lines)) == Prefixed(mark, StripCrs(lines))
  {
    forall i | 0 <= i < |lines| ensures StripCr([mark] + lines[i]) == [mark] + StripCr(lines[i]) {
      var line := [mark] + lines[i];
      if lines[i] != [] {
        assert line[|line| - 1] == lines[i][|lines[i]| - 1];
        assert line[..|line| - 1] == [mark] + lines[i][..|lines[i]| - 1];
      }
    }
  }

  lemma {:induction false} StripPrintedHunks(hunks: seq<Hunk>)
    ensures StripCrs(PrintHunks(hunks)) == PrintHunks(StripHunks(hunks))
  {
    if hunks != [] {
      var front, h := hunks[..|hunks| - 1], hunks[|hunks| - 1];
      StripPrintedHunks(front);
      StripPrefixed('-', h.oldLines);
      StripPrefixed('+', h.newLines);
      StripCrsConcat([HUNK_MARKER] + Prefixed('-', h.oldLines), Prefixed('+', h.newLines));
      StripCrsConcat([HUNK_MARKER], Prefixed('-', h.oldLines));
      assert StripCrs([HUNK_MARKER]) == [HUNK_MARKER];
      StripCrsConcat(PrintHunks(front), PrintHunk(h));
      assert StripHunks(hunks)[..|front|] == StripHunks(front);
    }
  }

  lemma StripHeader(op: FileOperation)
    requires Trim(op.path) == op.path
    ensures StripCr(Header(op)) == Header(op)
  {
    TrimFixed(op.path);
    var line := Header(op);
    if op.path != [] {
      assert line[|line| - 1] == op.path[|op.path| - 1];
    }
  }

  lemma {:induction false} StripPrintedBody(ops: seq<FileOperation>)
    requires AllWellShaped(ops)
    ensures StripCrs(PrintBody(ops)) == PrintBody(StripOps(ops))
  {
    if ops != [] {
      var op, rest := ops[0], ops[1..];
      StripPrintedBody(rest);
      StripHeader(op);
      StripSection(op);
      StripCrsConcat([Header(op)] + Section(op), PrintBody(rest));
      StripCrsConcat([Header(op)], Section(op));
      assert StripCrs([Header(op)]) == [Header(op)];
      assert StripOps(ops)[1..] == StripOps(rest);
      assert Header(StripOp(op)) == Header(op);
    }
  }

  lemma StripSection(op: FileOperation)
    ensures StripCrs(Section(op)) == Section(StripOp(op))
  {
    match op
    case Update(_, hunks) => StripPrintedHunks(hunks);
    case Add(_, content) => StripPrefixed('+', content);
    case Delete(_) =>
  }

  lemma {:induction false} PrintedHunksNoNewline(hunks: seq<Hunk>)
    requires forall h :: h in hunks ==> NoNewline(h.oldLines) && NoNewline(h.newLines)
    ensures NoNewline(PrintHunks(hunks))
  {
    if hunks != [] {
      PrintedHunksNoNewline(hunks[..|hunks| - 1]);
    }
  }

  lemma {:induction false} PrintedNoNewline(ops: seq<FileOperation>)
    requires AllWellShaped(ops)
    ensures NoNewline(PrintBody(ops))
  {
    if ops != [] {
      hide WellShaped, Header, Section;
      PrintedNoNewline(ops[1..]);
      PrintedOpNoNewline(ops[0]);
    }
  }

  lemma PrintedOpNoNewline(op: FileOperation)
    requires WellShaped(op)
    ensures '\n' !in Header(op) && NoNewline(Section(op))
  {
    match op
    case Update(_, hunks) => PrintedHunksNoNewline(hunks);
    case Add(_, content) =>
      forall line | line in Prefixed('+', content) ensures '\n' !in line {
        var i :| 0 <= i < |content| && line == ['+'] + content[i];
        assert content[i] in content;
      }
    case Delete(_) =>
  }

  lemma StripCrsNoNewline(lines: seq<string>)
    requires NoNewline(lines)
    ensures NoNewline(StripCrs(lines))
  {
    forall line | line in StripCrs(lines) ensures '\n' !in line {
      var i :| 0 <= i < |lines| && line == StripCr(lines[i]);
      assert lines[i] in lines;
    }
  }

  lemma StripHunksShape(hunks: seq<Hunk>)
    requires forall h :: h in hunks ==> h.oldLines != [] && NoNewline(h.oldLines) && NoNewline(h.newLines)
    ensures forall h :: h in StripHunks(hunks) ==> h.oldLines != [] && NoNewline(h.oldLines) && NoNewline(h.newLines)
  {
    hide NoNewline;
    forall h | h in StripHunks(hunks) ensures h.oldLines != [] && NoNewline(h.oldLines) && NoNewline(h.newLines) {
      var j :| 0 <= j < |hunks| && h == StripHunk(hunks[j]);
      assert hunks[j] in hunks;
      StripCrsNoNewline(hunks[j].oldLines);
      StripCrsNoNewline(hunks[j].newLines);
    }
  }

  lemma StripKeepsShape(ops: seq<FileOperation>)
    requires AllWellShaped(ops)
    ensures AllWellShaped(StripOps(ops))
  {
    forall i | 0 <= i < |ops| ensures WellShaped(StripOp(ops[i])) {
      assert WellShaped(ops[i]);
      match ops[i]
      case Update(_, hunks) => StripHunksShape(hunks);
      case Add(_, content) => StripCrsNoNewline(content);
      case Delete(_) =>
    }
  }

  /** Printing and parsing well-shaped operations gives them back with final carriage returns removed. */
  lemma TextReadsBack(ops: seq<FileOperation>)
    requires ops != [] && AllWellShaped(ops)
    ensures Parse(Print(ops)) == Ok(StripOps(ops))
  {
    hide ParseLines, PrintBody, WellShaped, Lines, Unlines;
    PrintedNoNewline(ops);
    LinesUnlines(PrintLines(ops));
    StripPrintedBody(ops);
    StripCrsConcat([BEGIN_MARKER] + PrintBody(ops), [END_MARKER]);
    StripCrsConcat([BEGIN_MARKER], PrintBody(ops));
    assert StripCrs([BEGIN_MARKER]) == [BEGIN_MARKER] && StripCrs([END_MARKER]) == [END_MARKER];
    StripKeepsShape(ops);
    LinesReadBack(StripOps(ops));
  }

  // ---------- What a parse can produce ----------

  lemma {:induction false} OldNewNoNewline(group: seq<string>)
    requires NoNewline(group)
    ensures NoNewline(OldOf(group)) && NoNewline(NewOf(group))
  {
    if group != [] {
      OldNewNoNewline(group[..|group| - 1]);
      assert group[|group| - 1] in group;
    }
  }

  lemma {:induction false} GroupsNoNewline(lines: seq<string>)
    requires NoNewline(lines)
    ensures forall g :: g in Groups(lines) ==> NoNewline(g)
  {
    if lines != [] {
      GroupsNoNewline(lines[..|lines| - 1]);
      assert lines[|lines| - 1] in lines;
      var groups := Groups(lines[..|lines| - 1]);
      assert groups[|groups| - 1] in groups;
    }
  }

  lemma {:induction false} HunksOfNoNewline(groups: seq<seq<string>>)
    requires forall g :: g in groups ==> NoNewline(g)
    ensures forall h :: h in HunksOf(groups) ==> NoNewline(h.oldLines) && NoNewline(h.newLines)
  {
    if groups != [] {
      HunksOfNoNewline(groups[..|groups| - 1]);
      assert groups[|groups| - 1] in groups;
      OldNewNoNewline(groups[|groups| - 1]);
    }
  }

  lemma ParsedHunks(section: seq<string>)
    requires NoNewline(section) && ParseHunks(section).Ok?
    ensures var hunks := ParseHunks(section).value;
            hunks != [] && forall h :: h in hunks ==> h.oldLines != [] && NoNewline(h.oldLines) && NoNewline(h.newLines)
  {
    GroupsNoNewline(section);
    HunksOfNoNewline(Groups(section));
  }

  lemma MarkerPathShape(line: string)
    requires IsSectionMarker(line) && '\n' !in line
    ensures Trim(MarkerPath(line)) == MarkerPath(line) && '\n' !in MarkerPath(line)
  {
    if UPDATE_PREFIX <= line {
      TrimTrimmed(line[|UPDATE_PREFIX|..]);
    } else if ADD_PREFIX <= line {
      TrimTrimmed(line[|ADD_PREFIX|..]);
    } else {
      TrimTrimmed(line[|DELETE_PREFIX|..]);
    }
  }

  lemma AddedNoNewline(section: seq<string>)
    requires NoNewline(section)
    ensures NoNewline(AddedContent(section))
  {
    forall line | line in AddedContent(section) ensures '\n' !in line {
      var i :| 0 <= i < |section| && line == AddedContent(section)[i];
      assert section[i] in section;
    }
  }

  lemma {:induction false} ParsedBodyShape(body: seq<string>)
    requires NoNewline(body) && ParseBody(body).Ok?
    ensures AllWellShaped(ParseBody(body).value)
    decreases |body|
  {
    if body != [] {
      hide ParseHunks, AddedContent, MarkerPath, Trim, SectionLength;
      var line, rest := body[0], body[1..];
      var n := SectionLength(rest);
      assert line in body;
      if UPDATE_PREFIX <= line {
        ParsedHunks(rest[..n]);
        MarkerPathShape(line);
        ParsedBodyShape(rest[n..]);
      } else if ADD_PREFIX <= line {
        AddedNoNewline(rest[..n]);
        MarkerPathShape(line);
        ParsedBodyShape(rest[n..]);
      } else {
        if DELETE_PREFIX <= line {
          MarkerPathShape(line);
        }
        ParsedBodyShape(rest);
      }
    }
  }

  /** Every successful parse is non-empty and well shaped. */
  lemma ParsedShape(patch: string)
    requires Parse(patch).Ok?
    ensures Parse(patch).value != [] && AllWellShaped(Parse(patch).value)
  {
    hide WellShaped, ParseBody, Lines;
    LinesHaveNoNewline(patch);
    var body := Lines(patch)[1..];
    ParsedBodyShape(body[..EndIndex(body)]);
  }

  lemma StripHunksFixed(hunks: seq<Hunk>)
    ensures StripHunks(hunks) == hunks <==> HunksKeepLineEnds(hunks)
  {
    forall i | 0 <= i < |hunks|
      ensures StripHunk(hunks[i]) == hunks[i] <==> NoFinalCr(hunks[i].oldLines) && NoFinalCr(hunks[i].newLines)
    {
      StripCrsFixed(hunks[i].oldLines);
      StripCrsFixed(hunks[i].newLines);
    }
    if StripHunks(hunks) == hunks {
      forall i | 0 <= i < |hunks| ensures NoFinalCr(hunks[i].oldLines) && NoFinalCr(hunks[i].newLines) {
        assert StripHunks(hunks)[i] == StripHunk(hunks[i]);
      }
    }
  }

  lemma StripCrsFixed(lines: seq<string>)
    ensures StripCrs(lines) == lines <==> NoFinalCr(lines)
  {
    if StripCrs(lines) == lines {
      forall i | 0 <= i < |lines| ensures StripCr(lines[i]) == lines[i] {
        assert StripCrs(lines)[i] == StripCr(lines[i]);
      }
    }
  }

  lemma StripOpFixed(op: FileOperation)
    ensures StripOp(op) == op <==> KeepsLineEnds(op)
  {
    match op
    case Update(_, hunks) => StripHunksFixed(hunks);
    case Add(_, content) => StripCrsFixed(content);
    case Delete(_) =>
  }

  lemma StripFixed(ops: seq<FileOperation>)
    ensures StripOps(ops) == ops <==> AllKeepLineEnds(ops)
  {
    hide StripOp, KeepsLineEnds;
    forall i | 0 <= i < |ops| ensures StripOp(ops[i]) == ops[i] <==> KeepsLineEnds(ops[i]) {
      StripOpFixed(ops[i]);
    }
    if StripOps(ops) == ops {
      forall i | 0 <= i < |ops| ensures StripOp(ops[i]) == ops[i] {
        assert StripOps(ops)[i] == StripOp(ops[i]);
      }
    }
  }

  /** The parser inverts the printer exactly on the operation lists the format can express: non-empty,
      paths trimmed and on one line, every hunk with old lines, every line free of newlines and of a
      final carriage return. */
  lemma RoundTrip(ops: seq<FileOperation>)
    ensures Parse(Print(ops)) == Ok(ops) <==> ops != [] && AllWellShaped(ops) && AllKeepLineEnds(ops)
  {
    hide WellShaped, KeepsLineEnds, Parse, Print, StripOps;
    if Parse(Print(ops)) == Ok(ops) {
      ParsedShape(Print(ops));
    }
    if ops != [] && AllWellShaped(ops) {
      TextReadsBack(ops);
      StripFixed(ops);
    }
  }

  // ---------- The path scan ----------

  function PathsOf(ops: seq<FileOperation>): seq<string> {
    seq(|ops|, i requires 0 <= i < |ops| => ops[i].path)
  }

  lemma {:induction false} TouchedConcat(a: seq<string>, b: seq<string>)
    ensures TouchedIn(a + b) == TouchedIn(a) + TouchedIn(b)
  {
    if a == [] {
      assert a + b == b;
    } else {
      assert (a + b)[1..] == a[1..] + b;
      TouchedConcat(a[1..], b);
    }
  }

  lemma {:induction false} TouchedNone(lines: seq<string>)
    requires forall i :: 0 <= i < |lines| ==> !IsSectionMarker(lines[i])
    ensures TouchedIn(lines) == []
  {
    if lines != [] {
      TouchedNone(lines[1..]);
    }
  }

  lemma {:induction false} TouchedBody(body: seq<string>)
    requires ParseBody(body).Ok?
    ensures TouchedIn(body) == PathsOf(ParseBody(body).value)
    decreases |body|
  {
    if body != [] {
      hide ParseHunks, AddedContent, MarkerPath;
      var line, rest := body[0], body[1..];
      if UPDATE_PREFIX <= line || ADD_PREFIX <= line {
        var n := SectionLength(rest);
        TouchedNone(rest[..n]);
        TouchedConcat(rest[..n], rest[n..]);
        assert rest == rest[..n] + rest[n..];
        TouchedBody(rest[n..]);
        TouchedStep(line, rest, ParseBody(rest[n..]).value, ParseBody(body).value);
      } else {
        TouchedBody(rest);
        TouchedStep(line, rest, ParseBody(rest).value, ParseBody(body).value);
      }
    }
  }

  lemma TouchedStep(line: string, rest: seq<string>, before: seq<FileOperation>, after: seq<FileOperation>)
    requires TouchedIn(rest) == PathsOf(before)
    requires if IsSectionMarker(line) then |after| == |before| + 1 && after[0].path == MarkerPath(line)
             && after[1..] == before
             else after == before
    ensures TouchedIn([line] + rest) == PathsOf(after)
  {
    assert ([line] + rest)[1..] == rest;
    if IsSectionMarker(line) {
      assert PathsOf(after) == [after[0].path] + PathsOf(after[1..]);
    }
  }

  /** Whenever a patch parses, the scanned paths are its operations' paths in order, followed only by
      whatever marker lines come after the end of the patch: no operation is missed by the snapshots. */
  lemma ScanCoversParse(patch: string)
    requires Parse(patch).Ok?
    ensures var body := Lines(patch)[1..];
            TouchedPaths(patch) == PathsOf(Parse(patch).value) + TouchedIn(body[EndIndex(body)..])
  {
    hide ParseBody, TouchedIn, Lines;
    var lines := Lines(patch);
    var body := lines[1..];
    var end := EndIndex(body);
    TouchedBody(body[..end]);
    TouchedConcat(body[..end], body[end..]);
    assert body == body[..end] + body[end..];
    if IsSectionMarker(lines[0]) {
      MarkerIsNoBegin(lines[0]);
    }
    TouchedFirst(lines);
  }

  lemma TouchedFirst(lines: seq<string>)
    requires lines != [] && !IsSectionMarker(lines[0])
    ensures TouchedIn(lines) == TouchedIn(lines[1..])
  {
  }

  lemma MarkerIsNoBegin(line: string)
    requires IsSectionMarker(line)
    ensures Trim(line) != BEGIN_MARKER
  {
    assert TrimStart(line) == line;
    assert Trim(line) <= line;
    assert line[4] != BEGIN_MARKER[4];
  }
}
