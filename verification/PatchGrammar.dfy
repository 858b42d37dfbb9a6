/** Everything the patch parser accepts, as a grammar: context and blank lines, text after hunk markers, a
    first hunk without marker, blank lines between operations, and text after the end of the patch. */
module PatchGrammar {
  import opened Prelude
  import opened Text
  import opened PatchFormat
  import opened PatchRoundTrip

  // ---------- Sections of an update ----------

  /** One line of a hunk. An empty line stands for an empty line of context. */
  datatype EditLine = Context(text: string) | Blank | Removed(text: string) | Added(text: string) {
    function Line(): string {
      match this
      case Context(text) => [' '] + text
      case Blank => []
      case Removed(text) => ['-'] + text
      case Added(text) => ['+'] + text
    }

    function Old(): seq<string> {
      match this
      case Context(text) => [text]
      case Blank => [[]]
      case Removed(text) => [text]
      case Added(_) => []
    }

    function New(): seq<string> {
      match this
      case Context(text) => [text]
      case Blank => [[]]
      case Removed(_) => []
      case Added(text) => [text]
    }
  }

  /** The lines behind a hunk marker, which may carry any text. */
  datatype Group = Group(note: string, edits: seq<EditLine>)

  /** The body of an update section: the first group needs no marker. */
  datatype Body = Body(first: seq<EditLine>, more: seq<Group>)

  function EditLines(edits: seq<EditLine>): seq<string> {
    seq(|edits|, i requires 0 <= i < |edits| => edits[i].Line())
  }

  function OldSide(edits: seq<EditLine>): seq<string> {
    if edits == [] then [] else OldSide(edits[..|edits| - 1]) + edits[|edits| - 1].Old()
  }

  function NewSide(edits: seq<EditLine>): seq<string> {
    if edits == [] then [] else NewSide(edits[..|edits| - 1]) + edits[|edits| - 1].New()
  }

  /** Groups without lines are skipped; every other one is a hunk. */
  function HunkOf(edits: seq<EditLine>): seq<Hunk> {
    if edits == [] then [] else [Hunk(OldSide(edits), NewSide(edits))]
  }

  function BodyLines(body: Body): seq<string>
    decreases |body.more|
  {
    if body.more == [] then EditLines(body.first)
    else
      var last := body.more[|body.more| - 1];
      BodyLines(Body(body.first, body.more[..|body.more| - 1])) + [HUNK_MARKER + last.note] + EditLines(last.edits)
  }

  function BodyHunks(body: Body): seq<Hunk>
    decreases |body.more|
  {
    if body.more == [] then HunkOf(body.first)
    else BodyHunks(Body(body.first, body.more[..|body.more| - 1])) + HunkOf(body.more[|body.more| - 1].edits)
  }

  lemma EditLineFacts(edit: EditLine)
    ensures var line := edit.Line();
            && !IsHunkMarker(line) && !IsBadHunkLine(line) && !IsSectionMarker(line)
            && forall lines :: PushOld(lines, line) == lines + edit.Old() && PushNew(lines, line) == lines + edit.New()
  {
    var line := edit.Line();
    assert line != [] ==> line[0] in " -+" && line[1..] == edit.text;
  }

  lemma {:induction false} SidesOfLines(edits: seq<EditLine>)
    ensures OldOf(EditLines(edits)) == OldSide(edits) && NewOf(EditLines(edits)) == NewSide(edits)
  {
    hide PushOld, PushNew;
    if edits != [] {
      var front, last := edits[..|edits| - 1], edits[|edits| - 1];
      SidesOfLines(front);
      EditLineFacts(last);
      assert EditLines(edits) == EditLines(front) + [last.Line()];
      OldNewSnoc(EditLines(front), last.Line());
    }
  }

  lemma {:induction false} HunksSnoc(groups: seq<seq<string>>, edits: seq<EditLine>)
    ensures HunksOf(groups + [EditLines(edits)]) == HunksOf(groups) + HunkOf(edits)
  {
    SidesOfLines(edits);
    assert (groups + [EditLines(edits)])[..|groups|] == groups;
  }

  /** The edits after the last hunk marker. */
  function LastEdits(body: Body): seq<EditLine> {
    if body.more == [] then body.first else body.more[|body.more| - 1].edits
  }

  /** The parser's line groups of a body give its hunks. */
  lemma {:induction false} GroupsOfBody(body: Body)
    ensures var groups := Groups(BodyLines(body));
            groups[|groups| - 1] == EditLines(LastEdits(body)) && HunksOf(groups) == BodyHunks(body)
    decreases |body.more|
  {
    hide HunksOf, Groups, HunkOf;
    if body.more == [] {
      assert BodyLines(body) == [] + EditLines(body.first);
      LinesExtend([], body.first);
      EmptyGroups();
      assert [] + EditLines(body.first) == EditLines(body.first);
      HunksSnoc([], body.first);
      assert Groups(BodyLines(body)) == [] + [EditLines(body.first)];
      assert [] + HunkOf(body.first) == HunkOf(body.first);
    } else {
      var before, last := Body(body.first, body.more[..|body.more| - 1]), body.more[|body.more| - 1];
      GroupsOfBody(before);
      var lines := BodyLines(before);
      var groups := Groups(lines);
      var marker := HUNK_MARKER + last.note;
      GroupsLine(lines, marker);
      assert IsHunkMarker(marker);
      LinesExtend(lines + [marker], last.edits);
      assert (groups + [[]])[..|groups|] == groups && [] + EditLines(last.edits) == EditLines(last.edits);
      HunksSnoc(groups, last.edits);
      assert Groups(BodyLines(body)) == groups + [EditLines(last.edits)];
    }
  }

  lemma EmptyGroups()
    ensures Groups([]) == [[]] && HunksOf([]) == []
  {
  }

  lemma LinesExtend(lines: seq<string>, edits: seq<EditLine>)
    ensures var groups := Groups(lines);
            Groups(lines + EditLines(edits)) == groups[..|groups| - 1] + [groups[|groups| - 1] + EditLines(edits)]
  {
    forall i | 0 <= i < |edits| ensures !IsHunkMarker(EditLines(edits)[i]) {
      EditLineFacts(edits[i]);
    }
    GroupsExtend(lines, EditLines(edits));
  }

  lemma {:induction false} BodyLineFacts(body: Body)
    ensures forall line :: line in BodyLines(body) ==> !IsBadHunkLine(line) && !IsSectionMarker(line)
    decreases |body.more|
  {
    hide IsBadHunkLine, IsSectionMarker;
    var edits := if body.more == [] then body.first else body.more[|body.more| - 1].edits;
    forall line | line in EditLines(edits) ensures !IsBadHunkLine(line) && !IsSectionMarker(line) {
      var i :| 0 <= i < |edits| && EditLines(edits)[i] == line;
      EditLineFacts(edits[i]);
    }
    if body.more != [] {
      BodyLineFacts(Body(body.first, body.more[..|body.more| - 1]));
      MarkerFacts(body.more[|body.more| - 1].note);
    }
  }

  lemma MarkerFacts(note: string)
    ensures !IsBadHunkLine(HUNK_MARKER + note) && !IsSectionMarker(HUNK_MARKER + note)
  {
    assert (HUNK_MARKER + note)[0] == '@';
  }

  /** What the parser makes of a body. */
  lemma ParsesBody(body: Body)
    ensures ParseHunks(BodyLines(body)) ==
            if BodyHunks(body) == [] then Err(NoHunkContent)
            else if HasEmptyOld(BodyHunks(body)) then Err(HunkWithoutOldLines)
            else Ok(BodyHunks(body))
  {
    hide HunksOf, Groups, BodyHunks, IsBadHunkLine, HasEmptyOld;
    var lines := BodyLines(body);
    GroupsOfBody(body);
    BodyLineFacts(body);
    assert forall i :: 0 <= i < |lines| ==> lines[i] in lines;
    NoBadPlainLine(lines);
  }

  /** Every section without a bad line is the lines of a body. */
  lemma {:induction false} ReadBody(section: seq<string>) returns (body: Body)
    requires forall i :: 0 <= i < |section| ==> !IsBadHunkLine(section[i])
    ensures BodyLines(body) == section
  {
    hide IsBadHunkLine;
    if section == [] {
      body := Body([], []);
    } else {
      var front, line := section[..|section| - 1], section[|section| - 1];
      var before := ReadBody(front);
      if IsHunkMarker(line) {
        body := Body(before.first, before.more + [Group(line[|HUNK_MARKER|..], [])]);
        assert body.more[..|before.more|] == before.more;
        assert HUNK_MARKER + line[|HUNK_MARKER|..] == line;
      } else {
        var edit := ReadEdit(line);
        body := Extended(before, edit);
      }
      assert section == front + [line];
    }
  }

  lemma ReadEdit(line: string) returns (edit: EditLine)
    requires !IsHunkMarker(line) && !IsBadHunkLine(line)
    ensures edit.Line() == line
  {
    edit := if line == [] then Blank
            else if line[0] == ' ' then Context(line[1..])
            else if line[0] == '-' then Removed(line[1..])
            else Added(line[1..]);
  }

  lemma Extended(before: Body, edit: EditLine) returns (body: Body)
    ensures BodyLines(body) == BodyLines(before) + [edit.Line()]
  {
    var n := |before.more|;
    if n == 0 {
      body := Body(before.first + [edit], []);
    } else {
      var last := before.more[n - 1];
      body := Body(before.first, before.more[..n - 1] + [Group(last.note, last.edits + [edit])]);
      assert body.more[..n - 1] == before.more[..n - 1];
      assert EditLines(last.edits + [edit]) == EditLines(last.edits) + [edit.Line()];
    }
  }

  // ---------- Documents ----------

  /** One entry of a patch. The path is written behind the prefix, with any whitespace around it. */
  datatype Entry =
    | UpdateEntry(path: string, body: Body)
    | AddEntry(path: string, lines: seq<string>)
    | DeleteEntry(path: string)
    | BlankEntry(line: string)

  function EntryLines(entry: Entry): seq<string> {
    match entry
    case UpdateEntry(path, body) => [UPDATE_PREFIX + path] + BodyLines(body)
    case AddEntry(path, lines) => [ADD_PREFIX + path] + lines
    case DeleteEntry(path) => [DELETE_PREFIX + path]
    case BlankEntry(line) => [line]
  }

  function EntryOps(entry: Entry): seq<FileOperation> {
    match entry
    case UpdateEntry(path, body) => [Update(Trim(path), BodyHunks(body))]
    case AddEntry(path, lines) => [Add(Trim(path), AddedContent(lines))]
    case DeleteEntry(path) => [Delete(Trim(path))]
    case BlankEntry(_) => []
  }

  /** An update has hunks, each with old lines; added lines are no section markers. */
  predicate EntryOk(entry: Entry) {
    match entry
    case UpdateEntry(_, body) => BodyHunks(body) != [] && !HasEmptyOld(BodyHunks(body))
    case AddEntry(_, lines) => forall i :: 0 <= i < |lines| ==> !IsSectionMarker(lines[i])
    case DeleteEntry(_) => true
    case BlankEntry(line) => Trim(line) == [] && !IsSectionMarker(line)
  }

  /** A blank line is an entry of its own only where no section would take it. */
  predicate EntriesOk(entries: seq<Entry>) {
    entries == [] ||
    (&& EntryOk(entries[0]) && EntriesOk(entries[1..])
     && (entries[0].UpdateEntry? || entries[0].AddEntry? ==> |entries| == 1 || !entries[1].BlankEntry?))
  }

  function EntriesLines(entries: seq<Entry>): seq<string> {
    if entries == [] then [] else EntryLines(entries[0]) + EntriesLines(entries[1..])
  }

  function EntriesOps(entries: seq<Entry>): seq<FileOperation> {
    if entries == [] then [] else EntryOps(entries[0]) + EntriesOps(entries[1..])
  }

  lemma PathBehind(prefix: string, path: string)
    requires prefix in {UPDATE_PREFIX, ADD_PREFIX, DELETE_PREFIX}
    ensures var line := prefix + path;
            && IsSectionMarker(line) && MarkerPath(line) == Trim(path)
            && (UPDATE_PREFIX <= line <==> prefix == UPDATE_PREFIX) && (ADD_PREFIX <= line <==> prefix == ADD_PREFIX)
            && (DELETE_PREFIX <= line <==> prefix == DELETE_PREFIX)
  {
    hide Trim;
    var line := prefix + path;
    assert line[4] == prefix[4] && line[|prefix|..] == path && line[..|prefix|] == prefix;
  }

  /** Entries other than blank lines begin with a section marker. */
  lemma EntriesStart(entries: seq<Entry>)
    requires EntriesOk(entries) && entries != [] && !entries[0].BlankEntry?
    ensures EntriesLines(entries) != [] && IsSectionMarker(EntriesLines(entries)[0])
  {
    hide Trim, EntriesOk, IsSectionMarker;
    match entries[0]
    case UpdateEntry(path, _) => PathBehind(UPDATE_PREFIX, path);
    case AddEntry(path, _) => PathBehind(ADD_PREFIX, path);
    case DeleteEntry(path) => PathBehind(DELETE_PREFIX, path);
  }

  /** Entries read back as their operations. */
  lemma {:induction false} EntriesRead(entries: seq<Entry>)
    requires EntriesOk(entries)
    ensures ParseBody(EntriesLines(entries)) == Ok(EntriesOps(entries))
  {
    hide ParseBody, Trim, IsSectionMarker, EntryLines, EntryOps;
    if entries == [] {
      ParseNothing();
    } else {
      var rest := EntriesLines(entries[1..]);
      EntriesRead(entries[1..]);
      if |entries| > 1 && !entries[1].BlankEntry? {
        EntriesStart(entries[1..]);
      }
      EntryReads(entries[0], rest);
      PrependEntry(entries[0], EntriesOps(entries[1..]));
    }
  }

  lemma PrependEntry(entry: Entry, ops: seq<FileOperation>)
    ensures PrependAll(EntryOps(entry), Ok(ops)) == Ok(EntryOps(entry) + ops)
  {
  }

  lemma EntryReads(entry: Entry, rest: seq<string>)
    requires EntryOk(entry) && (entry.UpdateEntry? || entry.AddEntry? ==> rest == [] || IsSectionMarker(rest[0]))
    ensures ParseBody(EntryLines(entry) + rest) == PrependAll(EntryOps(entry), ParseBody(rest))
  {
    match entry
    case UpdateEntry(path, body) => UpdateReads(path, body, rest);
    case AddEntry(path, lines) => AddReads(path, lines, rest);
    case DeleteEntry(path) => DeleteReads(path, rest);
    case BlankEntry(line) => BlankReads(line, rest);
  }

  lemma UpdateUnfolds(lines: seq<string>)
    requires lines != [] && UPDATE_PREFIX <= lines[0]
    ensures var rest, n := lines[1..], SectionLength(lines[1..]);
            ParseBody(lines) ==
            if ParseHunks(rest[..n]).Err? then Err(ParseHunks(rest[..n]).error)
            else Prepend(Update(MarkerPath(lines[0]), ParseHunks(rest[..n]).value), ParseBody(rest[n..]))
  {
    hide ParseHunks, AddedContent, Trim, MarkerPath, SectionLength, Prepend;
  }

  /** How the parser takes an update section. */
  lemma SectionParses(line: string, section: seq<string>, rest: seq<string>)
    requires UPDATE_PREFIX <= line && (forall l :: l in section ==> !IsSectionMarker(l))
    requires rest == [] || IsSectionMarker(rest[0])
    ensures ParseBody([line] + section + rest) ==
            if ParseHunks(section).Err? then Err(ParseHunks(section).error)
            else Prepend(Update(MarkerPath(line), ParseHunks(section).value), ParseBody(rest))
  {
    hide ParseBody, ParseHunks, MarkerPath, SectionLength, Prepend;
    var lines := [line] + section + rest;
    SectionSplit(section, rest);
    assert lines[1..] == section + rest && (section + rest)[..|section|] == section
           && (section + rest)[|section|..] == rest;
    UpdateUnfolds(lines);
  }

  lemma UpdateReads(path: string, body: Body, rest: seq<string>)
    requires EntryOk(UpdateEntry(path, body)) && (rest == [] || IsSectionMarker(rest[0]))
    ensures ParseBody([UPDATE_PREFIX + path] + BodyLines(body) + rest)
            == PrependAll([Update(Trim(path), BodyHunks(body))], ParseBody(rest))
  {
    hide ParseBody, ParseHunks, Trim, IsSectionMarker, IsBadHunkLine, MarkerPath, BodyHunks, BodyLines, HasEmptyOld;
    var section := BodyLines(body);
    PathBehind(UPDATE_PREFIX, path);
    BodyLineFacts(body);
    SectionParses(UPDATE_PREFIX + path, section, rest);
    ParsesBody(body);
  }

  lemma AddReads(path: string, content: seq<string>, rest: seq<string>)
    requires EntryOk(AddEntry(path, content)) && (rest == [] || IsSectionMarker(rest[0]))
    ensures ParseBody([ADD_PREFIX + path] + content + rest)
            == PrependAll([Add(Trim(path), AddedContent(content))], ParseBody(rest))
  {
    hide ParseHunks, AddedContent, Trim, IsSectionMarker, MarkerPath, SectionLength;
    var lines := [ADD_PREFIX + path] + content + rest;
    PathBehind(ADD_PREFIX, path);
    SectionSplit(content, rest);
    assert lines[1..] == content + rest && (content + rest)[..|content|] == content
           && (content + rest)[|content|..] == rest;
  }

  lemma DeleteReads(path: string, rest: seq<string>)
    ensures ParseBody([DELETE_PREFIX + path] + rest) == PrependAll([Delete(Trim(path))], ParseBody(rest))
  {
    hide ParseHunks, AddedContent, Trim, IsSectionMarker, MarkerPath, SectionLength;
    PathBehind(DELETE_PREFIX, path);
    assert ([DELETE_PREFIX + path] + rest)[1..] == rest;
  }

  lemma BlankReads(line: string, rest: seq<string>)
    requires Trim(line) == [] && !IsSectionMarker(line)
    ensures ParseBody([line] + rest) == PrependAll([], ParseBody(rest))
  {
    hide ParseHunks, AddedContent, Trim, MarkerPath, SectionLength;
    assert ([line] + rest)[1..] == rest;
    PrependNothing(ParseBody(rest));
  }

  /** How many lines after the first belong to its section. */
  function TakenBy(lines: seq<string>): nat
    requires lines != []
  {
    if UPDATE_PREFIX <= lines[0] || ADD_PREFIX <= lines[0] then SectionLength(lines[1..]) else 0
  }

  lemma BodyCases(lines: seq<string>)
    requires lines != [] && ParseBody(lines).Ok?
    ensures var rest, n := lines[1..], TakenBy(lines);
            && n <= |rest| && ParseBody(rest[n..]).Ok?
            && (UPDATE_PREFIX <= lines[0] ==> ParseHunks(rest[..n]).Ok?)
            && (UPDATE_PREFIX <= lines[0] || ADD_PREFIX <= lines[0] || DELETE_PREFIX <= lines[0]
                || Trim(lines[0]) == [])
            && (UPDATE_PREFIX <= lines[0] || ADD_PREFIX <= lines[0] ==>
                  && (forall i :: 0 <= i < n ==> !IsSectionMarker(rest[..n][i]))
                  && (n < |rest| ==> IsSectionMarker(rest[n..][0])))
  {
    hide ParseHunks, AddedContent, Trim, MarkerPath, IsSectionMarker;
    assert lines[1..][0..] == lines[1..];
  }

  lemma ConsEntries(entry: Entry, more: seq<Entry>)
    requires EntryOk(entry) && EntriesOk(more)
    requires entry.UpdateEntry? || entry.AddEntry? ==> more == [] || !more[0].BlankEntry?
    ensures EntriesOk([entry] + more) && EntriesLines([entry] + more) == EntryLines(entry) + EntriesLines(more)
  {
    hide EntryOk, EntryLines;
    assert ([entry] + more)[1..] == more;
  }

  /** Everything the parser accepts as a body is written by some entries. */
  lemma {:induction false} ReadEntries(lines: seq<string>) returns (entries: seq<Entry>)
    requires ParseBody(lines).Ok?
    ensures EntriesOk(entries) && EntriesLines(entries) == lines
    ensures lines != [] && IsSectionMarker(lines[0]) ==> entries != [] && !entries[0].BlankEntry?
    decreases |lines|
  {
    hide ParseBody, ParseHunks, Trim, EntryOk, EntryLines, EntriesOk, EntriesLines, TakenBy, IsSectionMarker;
    if lines == [] {
      entries := NoEntries();
    } else {
      var line, rest, n := lines[0], lines[1..], TakenBy(lines);
      BodyCases(lines);
      var more := ReadEntries(rest[n..]);
      var entry: Entry;
      if UPDATE_PREFIX <= line || ADD_PREFIX <= line {
        entry := ReadSection(line, rest[..n]);
        NextIsSection(rest[n..], more);
        assert lines == ([line] + rest[..n]) + rest[n..];
      } else {
        entry := if DELETE_PREFIX <= line then DeleteEntry(line[|DELETE_PREFIX|..]) else BlankEntry(line);
        LoneEntry(line, entry);
        NothingTaken(lines);
        assert lines == [line] + rest[n..];
      }
      ConsEntries(entry, more);
      entries := [entry] + more;
    }
  }

  lemma NothingTaken(lines: seq<string>)
    requires lines != [] && !(UPDATE_PREFIX <= lines[0]) && !(ADD_PREFIX <= lines[0])
    ensures TakenBy(lines) == 0
  {
  }

  lemma NoEntries() returns (entries: seq<Entry>)
    ensures entries == [] && EntriesOk(entries) && EntriesLines(entries) == []
  {
    entries := [];
  }

  lemma NextIsSection(rest: seq<string>, more: seq<Entry>)
    requires EntriesLines(more) == rest && (rest == [] || IsSectionMarker(rest[0]))
    requires rest != [] && IsSectionMarker(rest[0]) ==> more != [] && !more[0].BlankEntry?
    ensures more == [] || !more[0].BlankEntry?
  {
  }

  lemma LoneEntry(line: string, entry: Entry)
    requires !(UPDATE_PREFIX <= line) && !(ADD_PREFIX <= line)
    requires entry == if DELETE_PREFIX <= line then DeleteEntry(line[|DELETE_PREFIX|..]) else BlankEntry(line)
    requires DELETE_PREFIX <= line || Trim(line) == []
    ensures EntryOk(entry) && EntryLines(entry) == [line]
    ensures IsSectionMarker(line) ==> !entry.BlankEntry?
  {
    hide Trim;
    if DELETE_PREFIX <= line {
      assert DELETE_PREFIX + line[|DELETE_PREFIX|..] == line;
    }
  }

  lemma ReadSection(line: string, section: seq<string>) returns (entry: Entry)
    requires UPDATE_PREFIX <= line || ADD_PREFIX <= line
    requires forall i :: 0 <= i < |section| ==> !IsSectionMarker(section[i])
    requires UPDATE_PREFIX <= line ==> ParseHunks(section).Ok?
    ensures EntryOk(entry) && EntryLines(entry) == [line] + section && (entry.UpdateEntry? || entry.AddEntry?)
  {
    hide Trim, IsSectionMarker, HunksOf, Groups, BodyHunks, HasEmptyOld, IsBadHunkLine;
    if UPDATE_PREFIX <= line {
      AllGood(section);
      var body := ReadBody(section);
      ParsesBody(body);
      entry := UpdateEntry(line[|UPDATE_PREFIX|..], body);
      assert UPDATE_PREFIX + line[|UPDATE_PREFIX|..] == line;
    } else {
      entry := AddEntry(line[|ADD_PREFIX|..], section);
      assert ADD_PREFIX + line[|ADD_PREFIX|..] == line;
    }
  }

  lemma {:induction false} AllGood(lines: seq<string>)
    requires FirstBadLine(lines) == None
    ensures forall i :: 0 <= i < |lines| ==> !IsBadHunkLine(lines[i])
  {
    hide IsBadHunkLine;
    if lines != [] {
      AllGood(lines[1..]);
      assert forall i :: 1 <= i < |lines| ==> lines[i] == lines[1..][i - 1];
    }
  }

  /** A patch document: anything after the end marker is ignored. */
  datatype Document = Document(begin: string, entries: seq<Entry>, end: string, trailer: seq<string>)

  /** What a document's writer has to respect, apart from the end marker. */
  predicate DocumentShape(doc: Document) {
    && Trim(doc.begin) == BEGIN_MARKER && Trim(doc.end) == END_MARKER
    && EntriesOk(doc.entries) && EntriesOps(doc.entries) != []
  }

  /** No line of an entry reads as the end of the patch. */
  predicate NoEarlyEnd(doc: Document) {
    forall line :: line in EntriesLines(doc.entries) ==> Trim(line) != END_MARKER
  }

  predicate DocumentOk(doc: Document) {
    DocumentShape(doc) && NoEarlyEnd(doc)
  }

  function DocumentLines(doc: Document): seq<string> {
    [doc.begin] + (EntriesLines(doc.entries) + ([doc.end] + doc.trailer))
  }

  /** The grammar: the parser accepts exactly the lines of well-formed documents, and reads off exactly their
      operations. A line that trims to the end marker ends the patch, even as a line of context. */
  lemma AcceptsGrammar(lines: seq<string>, ops: seq<FileOperation>)
    ensures ParseLines(lines) == Ok(ops) <==>
            exists doc :: DocumentOk(doc) && DocumentLines(doc) == lines && EntriesOps(doc.entries) == ops
  {
    hide ParseLines, DocumentOk, DocumentLines;
    if ParseLines(lines) == Ok(ops) {
      var doc := ReadDocument(lines);
      DocumentReads(doc);
    }
    if doc :| DocumentOk(doc) && DocumentLines(doc) == lines && EntriesOps(doc.entries) == ops {
      DocumentReads(doc);
    }
  }

  lemma DocumentReads(doc: Document)
    requires DocumentOk(doc)
    ensures ParseLines(DocumentLines(doc)) == Ok(EntriesOps(doc.entries))
  {
    hide ParseBody, EntriesOk, EntriesLines, EntriesOps, Trim;
    var body, tail := EntriesLines(doc.entries), [doc.end] + doc.trailer;
    assert DocumentLines(doc)[1..] == body + tail;
    EndAfter(body, tail);
    assert (body + tail)[..|body|] == body;
    EntriesRead(doc.entries);
  }

  lemma ReadDocument(lines: seq<string>) returns (doc: Document)
    requires ParseLines(lines).Ok?
    ensures DocumentOk(doc) && DocumentLines(doc) == lines
  {
    hide ParseBody, EntriesOk, EntriesLines, EntriesOps, Trim, EndIndex;
    var body := lines[1..];
    var end := EndIndex(body);
    EndFacts(body);
    var entries := ReadEntries(body[..end]);
    EntriesRead(entries);
    doc := Document(lines[0], entries, body[end], body[end + 1..]);
    assert body == body[..end] + ([body[end]] + body[end + 1..]);
    assert lines == [lines[0]] + body;
  }

  lemma EndFacts(body: seq<string>)
    ensures var end := EndIndex(body);
            && end <= |body| && (end < |body| ==> Trim(body[end]) == END_MARKER)
            && forall line :: line in body[..end] ==> Trim(line) != END_MARKER
  {
    hide EndIndex, Trim;
  }

  // ---------- Where a document is cut short ----------

  function OldCount(line: string): nat {
    if !IsHunkMarker(line) && (line == [] || line[0] == ' ' || line[0] == '-') then 1 else 0
  }

  /** The lines that go to an old side. */
  function Olds(lines: seq<string>): nat {
    if lines == [] then 0 else Olds(lines[..|lines| - 1]) + OldCount(lines[|lines| - 1])
  }

  function OldTotal(hunks: seq<Hunk>): nat {
    if hunks == [] then 0 else OldTotal(hunks[..|hunks| - 1]) + |hunks[|hunks| - 1].oldLines|
  }

  function GroupOlds(groups: seq<seq<string>>): nat {
    if groups == [] then 0 else GroupOlds(groups[..|groups| - 1]) + |OldOf(groups[|groups| - 1])|
  }

  lemma {:induction false} HunksOlds(groups: seq<seq<string>>)
    ensures OldTotal(HunksOf(groups)) == GroupOlds(groups)
  {
    if groups != [] {
      var front, group := groups[..|groups| - 1], groups[|groups| - 1];
      HunksOlds(front);
      if group != [] {
        assert HunksOf(groups)[..|HunksOf(front)|] == HunksOf(front);
      }
    }
  }

  lemma {:induction false} GroupsOlds(lines: seq<string>)
    ensures GroupOlds(Groups(lines)) == Olds(lines)
  {
    hide OldOf;
    NoOlds();
    if lines != [] {
      var front, line := lines[..|lines| - 1], lines[|lines| - 1];
      GroupsOlds(front);
      var groups := Groups(front);
      var last := groups[|groups| - 1];
      if IsHunkMarker(line) {
        assert (groups + [[]])[..|groups|] == groups;
      } else {
        OldNewSnoc(last, line);
        var after := groups[..|groups| - 1] + [last + [line]];
        assert after[..|groups| - 1] == groups[..|groups| - 1];
      }
    }
  }

  lemma NoOlds()
    ensures OldOf([]) == [] && GroupOlds([[]]) == 0 && Groups([]) == [[]]
  {
    var groups: seq<seq<string>> := [[]];
    assert |groups[..0]| == 0 && GroupOlds(groups[..0]) == 0;
  }

  lemma {:induction false} OldsGrow(lines: seq<string>, e: nat)
    requires e < |lines| && OldCount(lines[e]) == 1
    ensures Olds(lines[..e]) < Olds(lines)
  {
    hide OldCount;
    var front := lines[..|lines| - 1];
    if e < |front| {
      OldsGrow(front, e);
      assert front[..e] == lines[..e];
    }
  }

  /** In an update only a line of context can read as the end of the patch. */
  lemma EndIsContext(line: string)
    requires !IsBadHunkLine(line) && Trim(line) == END_MARKER
    ensures OldCount(line) == 1
  {
    if line != [] && line[0] in "-+@" {
      PlainLineFacts(line);
    }
  }

  /** A header never does, and neither does a blank line. */
  lemma FirstLineNotEnd(entry: Entry)
    requires EntryOk(entry)
    ensures EntryLines(entry) != [] && Trim(EntryLines(entry)[0]) != END_MARKER
  {
    var line := EntryLines(entry)[0];
    if !entry.BlankEntry? {
      var prefix :=
        match entry
        case UpdateEntry(_, _) => UPDATE_PREFIX
        case AddEntry(_, _) => ADD_PREFIX
        case _ => DELETE_PREFIX;
      assert line[0] == prefix[0] && line[4] == prefix[4] && prefix[4] != END_MARKER[4];
      assert TrimStart(line) == line;
      assert Trim(line) <= line;
    }
  }

  /** A body cut in front of a line of context has lost old lines. */
  lemma CutBody(body: Body, e: nat)
    requires e < |BodyLines(body)| && Trim(BodyLines(body)[e]) == END_MARKER
    ensures HunksOf(Groups(BodyLines(body)[..e])) != BodyHunks(body)
    ensures forall line :: line in BodyLines(body)[..e] ==> !IsSectionMarker(line)
  {
    hide HunksOf, Groups, BodyHunks, IsSectionMarker, Trim, IsBadHunkLine, OldCount;
    var lines := BodyLines(body);
    BodyLineFacts(body);
    assert lines[e] in lines && forall line :: line in lines[..e] ==> line in lines;
    EndIsContext(lines[e]);
    OldsGrow(lines, e);
    GroupsOfBody(body);
    GroupsOlds(lines);
    GroupsOlds(lines[..e]);
    HunksOlds(Groups(lines));
    HunksOlds(Groups(lines[..e]));
  }

  lemma CutUpdate(path: string, body: Body, e: nat, ops: seq<FileOperation>)
    requires e < |BodyLines(body)| && Trim(BodyLines(body)[e]) == END_MARKER
    ensures ParseBody([UPDATE_PREFIX + path] + BodyLines(body)[..e]) != Ok([Update(Trim(path), BodyHunks(body))] + ops)
  {
    hide ParseBody, HunksOf, Groups, BodyHunks, BodyLines, IsSectionMarker, Trim, FirstBadLine, HasEmptyOld, MarkerPath;
    var section := BodyLines(body)[..e];
    var lines := [UPDATE_PREFIX + path] + section;
    CutBody(body, e);
    PathBehind(UPDATE_PREFIX, path);
    SectionParses(UPDATE_PREFIX + path, section, []);
    assert lines + [] == lines;
    ParseNothing();
    var hunks := HunksOf(Groups(section));
    assert ParseHunks(section).Ok? ==> ParseHunks(section).value == hunks;
    assert ([Update(Trim(path), BodyHunks(body))] + ops)[0] == Update(Trim(path), BodyHunks(body));
  }

  lemma CutAdd(path: string, content: seq<string>, e: nat, ops: seq<FileOperation>)
    requires e < |content| && forall i :: 0 <= i < |content| ==> !IsSectionMarker(content[i])
    ensures ParseBody([ADD_PREFIX + path] + content[..e]) != Ok([Add(Trim(path), AddedContent(content))] + ops)
  {
    hide IsSectionMarker, Trim, SectionLength, MarkerPath;
    var section := content[..e];
    var lines := [ADD_PREFIX + path] + section;
    PathBehind(ADD_PREFIX, path);
    SectionSplit(section, []);
    assert section + [] == section && lines[1..] == section && section[..|section|] == section
           && section[|section|..] == [];
    ParseNothing();
    assert |AddedContent(section)| == e < |AddedContent(content)|;
    assert ([Add(Trim(path), AddedContent(content))] + ops)[0] == Add(Trim(path), AddedContent(content));
  }

  /** A document cut short in front of a line never reads as the whole of it. */
  lemma {:induction false} CutEntries(entries: seq<Entry>, e: nat)
    requires EntriesOk(entries) && e < |EntriesLines(entries)| && Trim(EntriesLines(entries)[e]) == END_MARKER
    ensures ParseBody(EntriesLines(entries)[..e]) != Ok(EntriesOps(entries))
  {
    hide ParseBody, Trim, IsSectionMarker, EntryLines, EntryOps, EntryOk;
    var entry, lines, rest := entries[0], EntryLines(entries[0]), EntriesLines(entries[1..]);
    FirstLineNotEnd(entry);
    if e < |lines| {
      CutEntry(entry, e, EntriesOps(entries[1..]));
      assert (lines + rest)[..e] == lines[..e];
    } else {
      var k := e - |lines|;
      CutEntries(entries[1..], k);
      assert (lines + rest)[..e] == lines + rest[..k];
      if (entry.UpdateEntry? || entry.AddEntry?) && rest[..k] != [] {
        EntriesStart(entries[1..]);
        assert rest[..k][0] == rest[0];
      }
      EntryReads(entry, rest[..k]);
      DifferentRest(entry, ParseBody(rest[..k]), EntriesOps(entries[1..]));
    }
  }

  lemma DifferentRest(entry: Entry, rest: Result<seq<FileOperation>, PatchError>, ops: seq<FileOperation>)
    requires rest != Ok(ops)
    ensures PrependAll(EntryOps(entry), rest) != Ok(EntryOps(entry) + ops)
  {
    hide EntryOps;
    var own := EntryOps(entry);
    assert (own + ops)[|own|..] == ops;
    assert rest.Ok? ==> (own + rest.value)[|own|..] == rest.value;
  }

  lemma CutEntry(entry: Entry, e: nat, ops: seq<FileOperation>)
    requires EntryOk(entry) && 0 < e < |EntryLines(entry)| && Trim(EntryLines(entry)[e]) == END_MARKER
    ensures ParseBody(EntryLines(entry)[..e]) != Ok(EntryOps(entry) + ops)
  {
    hide ParseBody, Trim, IsSectionMarker, BodyHunks, HasEmptyOld, BodyLines, AddedContent;
    var lines := EntryLines(entry);
    match entry
    case UpdateEntry(path, body) =>
      assert lines[..e] == [UPDATE_PREFIX + path] + BodyLines(body)[..e - 1];
      CutUpdate(path, body, e - 1, ops);
    case AddEntry(path, content) =>
      assert lines[..e] == [ADD_PREFIX + path] + content[..e - 1];
      CutAdd(path, content, e - 1, ops);
    case _ =>
  }

  /** The exact condition. A well-shaped document reads back as written if and only if no line of its entries
      reads as the end of the patch; otherwise it is refused or, silently, read as something else. */
  lemma ReadsBackExactly(doc: Document)
    requires DocumentShape(doc)
    ensures ParseLines(DocumentLines(doc)) == Ok(EntriesOps(doc.entries)) <==> NoEarlyEnd(doc)
  {
    hide ParseBody, EntriesOk, EntriesLines, EntriesOps, Trim, EndIndex;
    if NoEarlyEnd(doc) {
      DocumentReads(doc);
    } else {
      var lines := EntriesLines(doc.entries);
      var body := lines + ([doc.end] + doc.trailer);
      assert DocumentLines(doc)[1..] == body;
      var line :| line in lines && Trim(line) == END_MARKER;
      var i :| 0 <= i < |lines| && lines[i] == line;
      var e := EndIndex(body);
      EndBefore(body, i);
      assert body[e] == lines[e] && body[..e] == lines[..e];
      CutEntries(doc.entries, e);
    }
  }

  lemma EndBefore(body: seq<string>, i: nat)
    requires i < |body| && Trim(body[i]) == END_MARKER
    ensures EndIndex(body) <= i && Trim(body[EndIndex(body)]) == END_MARKER
  {
    hide Trim, EndIndex;
    var e := EndIndex(body);
    assert e <= |body| && forall j :: 0 <= j < e ==> Trim(body[j]) != END_MARKER;
  }

  const WRITTEN_EDITS := [Removed("a"), Context(END_MARKER), Added("b")]

  /** The smallest silent case: the line of context ends the patch, and what is read is a deletion instead of
      the replacement that was written. */
  lemma ContextEndsPatch()
    ensures var written := Document(BEGIN_MARKER, [UpdateEntry("f", Body(WRITTEN_EDITS, []))], END_MARKER, []);
            && DocumentShape(written)
            && DocumentLines(written) == [BEGIN_MARKER, "*** Update File: f", "-a", " *** End Patch", "+b", END_MARKER]
            && EntriesOps(written.entries) == [Update("f", [Hunk(["a", END_MARKER], [END_MARKER, "b"])])]
            && ParseLines(DocumentLines(written)) == Ok([Update("f", [Hunk(["a"], [])])])
  {
    hide ParseLines, Trim, EntriesOk, EntriesLines, EntriesOps, BodyLines, BodyHunks;
    MarkerTrims();
    WrittenEntry();
    ReadEntry();
    var written := Document(BEGIN_MARKER, [UpdateEntry("f", Body(WRITTEN_EDITS, []))], END_MARKER, []);
    var read := Document(BEGIN_MARKER, [UpdateEntry("f", Body([Removed("a")], []))], " *** End Patch",
                         ["+b", END_MARKER]);
    DocumentReads(read);
    assert DocumentLines(read) == [BEGIN_MARKER, "*** Update File: f", "-a", " *** End Patch", "+b", END_MARKER];
    assert DocumentLines(written) == [BEGIN_MARKER, "*** Update File: f", "-a", " *** End Patch", "+b", END_MARKER];
  }

  lemma WrittenEntry()
    ensures var entries := [UpdateEntry("f", Body(WRITTEN_EDITS, []))];
            && EntriesOk(entries) && EntriesLines(entries) == ["*** Update File: f", "-a", " *** End Patch", "+b"]
            && EntriesOps(entries) == [Update("f", [Hunk(["a", END_MARKER], [END_MARKER, "b"])])]
  {
    hide Trim, EntriesOk, EntriesLines, EntriesOps, IsSectionMarker;
    var edits := WRITTEN_EDITS;
    var two := edits[..2];
    var one := two[..1];
    assert one == [Removed("a")] && |one[..0]| == 0;
    assert OldSide(one) == ["a"] && NewSide(one) == [];
    assert OldSide(two) == ["a", END_MARKER] && NewSide(two) == [END_MARKER];
    assert OldSide(edits) == ["a", END_MARKER] && NewSide(edits) == [END_MARKER, "b"];
    assert ['-'] + "a" == "-a" && [' '] + END_MARKER == " *** End Patch" && ['+'] + "b" == "+b";
    assert EditLines(edits) == ["-a", " *** End Patch", "+b"];
    OneUpdate("f", Body(edits, []));
    MarkerTrims();
    assert UPDATE_PREFIX + "f" == "*** Update File: f";
    assert BodyHunks(Body(edits, [])) == [Hunk(["a", END_MARKER], [END_MARKER, "b"])];
  }

  lemma ReadEntry()
    ensures var entries := [UpdateEntry("f", Body([Removed("a")], []))];
            && EntriesOk(entries) && EntriesLines(entries) == ["*** Update File: f", "-a"]
            && EntriesOps(entries) == [Update("f", [Hunk(["a"], [])])]
            && forall line :: line in EntriesLines(entries) ==> Trim(line) != END_MARKER
  {
    hide Trim, EntriesOk, EntriesLines, EntriesOps;
    var edits := [Removed("a")];
    assert |edits[..0]| == 0 && OldSide(edits) == ["a"] && NewSide(edits) == [];
    assert ['-'] + "a" == "-a" && EditLines(edits) == ["-a"];
    OneUpdate("f", Body(edits, []));
    MarkerTrims();
    assert UPDATE_PREFIX + "f" == "*** Update File: f";
    assert BodyHunks(Body(edits, [])) == [Hunk(["a"], [])];
    PlainLineFacts("-a");
    FirstLineNotEnd(UpdateEntry("f", Body(edits, [])));
  }

  lemma OneUpdate(path: string, body: Body)
    ensures var entries := [UpdateEntry(path, body)];
            && EntriesLines(entries) == [UPDATE_PREFIX + path] + BodyLines(body)
            && EntriesOps(entries) == [Update(Trim(path), BodyHunks(body))]
            && (EntryOk(entries[0]) ==> EntriesOk(entries))
  {
    hide Trim, BodyLines, BodyHunks, HasEmptyOld;
    var entries := [UpdateEntry(path, body)];
    assert |entries[1..]| == 0;
  }

  lemma MarkerTrims()
    ensures Trim(BEGIN_MARKER) == BEGIN_MARKER && Trim(END_MARKER) == END_MARKER && Trim(" *** End Patch") == END_MARKER
    ensures Trim("f") == "f"
  {
    TrimFixed(BEGIN_MARKER);
    TrimFixed(END_MARKER);
    TrimFixed("f");
    assert " *** End Patch"[1..] == END_MARKER;
    assert TrimStart(" *** End Patch") == TrimStart(END_MARKER);
  }
}
