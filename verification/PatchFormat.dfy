/** The `*** Begin Patch` document: its parser, the paths it names, and a canonical printer. */
module PatchFormat {
  import opened Prelude
  import opened Text

  const BEGIN_MARKER := "*** Begin Patch"
  const END_MARKER := "*** End Patch"
  const UPDATE_PREFIX := "*** Update File: "
  const ADD_PREFIX := "*** Add File: "
  const DELETE_PREFIX := "*** Delete File: "
  const HUNK_MARKER := "@@"

  datatype Hunk = Hunk(oldLines: seq<string>, newLines: seq<string>)

  datatype FileOperation =
    | Update(path: string, hunks: seq<Hunk>)
    | Add(path: string, content: seq<string>)
    | Delete(path: string)

  datatype PatchError =
    | EmptyPatch
    | MissingBegin
    | MissingEnd
    | UnrecognizedLine(line: string)
    | NoOperations
    | BadHunkLine(line: string)
    | NoHunkContent
    | HunkWithoutOldLines

  predicate IsSectionMarker(line: string) {
    UPDATE_PREFIX <= line || ADD_PREFIX <= line || DELETE_PREFIX <= line
  }

  /** The path named by a section marker. */
  function MarkerPath(line: string): string
    requires IsSectionMarker(line)
  {
    if UPDATE_PREFIX <= line then Trim(line[|UPDATE_PREFIX|..])
    else if ADD_PREFIX <= line then Trim(line[|ADD_PREFIX|..])
    else Trim(line[|DELETE_PREFIX|..])
  }

  /** How many lines follow before the next section marker. */
  function SectionLength(lines: seq<string>): (n: nat)
    ensures n <= |lines|
    ensures forall i :: 0 <= i < n ==> !IsSectionMarker(lines[i])
    ensures n < |lines| ==> IsSectionMarker(lines[n])
  {
    if lines == [] || IsSectionMarker(lines[0]) then 0 else 1 + SectionLength(lines[1..])
  }

  // ---------- Hunks ----------

  predicate IsHunkMarker(line: string) {
    HUNK_MARKER <= line
  }

  predicate IsBadHunkLine(line: string) {
    !IsHunkMarker(line) && line != [] && line[0] !in " -+"
  }

  /** The lines of a section between hunk markers, empty groups included. */
  function Groups(lines: seq<string>): (groups: seq<seq<string>>)
    ensures groups != []
  {
    if lines == [] then [[]]
    else
      var groups, line := Groups(lines[..|lines| - 1]), lines[|lines| - 1];
      if IsHunkMarker(line) then groups + [[]]
      else groups[..|groups| - 1] + [groups[|groups| - 1] + [line]]
  }

  function PushOld(lines: seq<string>, line: string): seq<string> {
    if line == [] then lines + [[]]
    else if line[0] == ' ' || line[0] == '-' then lines + [line[1..]]
    else lines
  }

  function PushNew(lines: seq<string>, line: string): seq<string> {
    if line == [] then lines + [[]]
    else if line[0] == ' ' || line[0] == '+' then lines + [line[1..]]
    else lines
  }

  /** What a group expects to find: its context and removed lines. */
  function OldOf(group: seq<string>): seq<string> {
    if group == [] then [] else PushOld(OldOf(group[..|group| - 1]), group[|group| - 1])
  }

  /** What a group leaves in its place: its context and added lines. */
  function NewOf(group: seq<string>): seq<string> {
    if group == [] then [] else PushNew(NewOf(group[..|group| - 1]), group[|group| - 1])
  }

  function HunksOf(groups: seq<seq<string>>): seq<Hunk> {
    if groups == [] then []
    else
      var front, group := HunksOf(groups[..|groups| - 1]), groups[|groups| - 1];
      if group == [] then front else front + [Hunk(OldOf(group), NewOf(group))]
  }

  function FirstBadLine(lines: seq<string>): Option<string> {
    if lines == [] then None
    else if IsBadHunkLine(lines[0]) then Some(lines[0])
    else FirstBadLine(lines[1..])
  }

  predicate HasEmptyOld(hunks: seq<Hunk>) {
    exists i :: 0 <= i < |hunks| && hunks[i].oldLines == []
  }

  function ParseHunks(section: seq<string>): Result<seq<Hunk>, PatchError> {
    var bad, hunks := FirstBadLine(section), HunksOf(Groups(section));
    if bad.Some? then Err(BadHunkLine(bad.value))
    else if hunks == [] then Err(NoHunkContent)
    else if HasEmptyOld(hunks) then Err(HunkWithoutOldLines)
    else Ok(hunks)
  }

  function AddedContent(section: seq<string>): seq<string> {
    seq(|section|, i requires 0 <= i < |section| => if "+" <= section[i] then section[i][1..] else section[i])
  }

  // ---------- The document ----------

  function Prepend(op: FileOperation, rest: Result<seq<FileOperation>, PatchError>)
    : Result<seq<FileOperation>, PatchError>
  {
    if rest.Ok? then Ok([op] + rest.value) else rest
  }

  function PrependAll(ops: seq<FileOperation>, rest: Result<seq<FileOperation>, PatchError>)
    : Result<seq<FileOperation>, PatchError>
  {
    if rest.Ok? then Ok(ops + rest.value) else rest
  }

  function ParseBody(body: seq<string>): Result<seq<FileOperation>, PatchError> {
    if body == [] then Ok([])
    else
      var line, rest := body[0], body[1..];
      var n := SectionLength(rest);
      if UPDATE_PREFIX <= line then
        var hunks := ParseHunks(rest[..n]);
        if hunks.Err? then Err(hunks.error)
        else Prepend(Update(MarkerPath(line), hunks.value), ParseBody(rest[n..]))
      else if ADD_PREFIX <= line then
        Prepend(Add(MarkerPath(line), AddedContent(rest[..n])), ParseBody(rest[n..]))
      else if DELETE_PREFIX <= line then
        Prepend(Delete(MarkerPath(line)), ParseBody(rest))
      else if Trim(line) == [] then ParseBody(rest)
      else Err(UnrecognizedLine(line))
  }

  /** The first line that closes the patch, or the number of lines when none does. */
  function EndIndex(body: seq<string>): (n: nat)
    ensures n <= |body|
    ensures n < |body| ==> Trim(body[n]) == END_MARKER
    ensures forall i :: 0 <= i < n ==> Trim(body[i]) != END_MARKER
  {
    if body == [] || Trim(body[0]) == END_MARKER then 0 else 1 + EndIndex(body[1..])
  }

  function ParseLines(lines: seq<string>): Result<seq<FileOperation>, PatchError> {
    if lines == [] then Err(EmptyPatch)
    else if Trim(lines[0]) != BEGIN_MARKER then Err(MissingBegin)
    else
      var body := lines[1..];
      var end := EndIndex(body);
      if end == |body| then Err(MissingEnd)
      else
        var ops := ParseBody(body[..end]);
        if ops == Ok([]) then Err(NoOperations) else ops
  }

  function Parse(patch: string): Result<seq<FileOperation>, PatchError> {
    ParseLines(Lines(patch))
  }

  /** The paths of every section marker line, in order. */
  function TouchedIn(lines: seq<string>): seq<string> {
    if lines == [] then []
    else (if IsSectionMarker(lines[0]) then [MarkerPath(lines[0])] else []) + TouchedIn(lines[1..])
  }

  function TouchedPaths(patch: string): seq<string> {
    TouchedIn(Lines(patch))
  }

  // ---------- The parser as written ----------

  method ParseHunksAt(body: seq<string>, start: nat) returns (result: Result<seq<Hunk>, PatchError>, next: nat)
    requires start <= |body|
    ensures var n := SectionLength(body[start..]);
            result == ParseHunks(body[start..start + n]) && (result.Ok? ==> next == start + n)
  {
    hide Groups, HunksOf, OldOf, NewOf, FirstBadLine, SectionLength, IsSectionMarker, IsHunkMarker;
    ghost var n := SectionLength(body[start..]);
    ghost var section := body[start..start + n];
    ghost var closed: seq<seq<string>>, open: seq<string> := [], [];
    var index := start;
    var hunks: seq<Hunk> := [];
    var current := Hunk([], []);
    var hasContent := false;
    ScanNothing();
    while index < |body| && !IsSectionMarker(body[index])
      invariant start <= index <= start + n
      invariant Scanned(section[..index - start], closed, open)
      invariant hunks == HunksOf(closed) && current == Hunk(OldOf(open), NewOf(open)) && hasContent == (open != [])
    {
      InSection(body, start, index);
      var line := body[index];
      ghost var seen := section[..index - start];
      assert section[..index - start + 1] == seen + [line];
      if IsHunkMarker(line) {
        ScanMarker(seen, line, closed, open);
        if hasContent {
          hunks := hunks + [current];
          current := Hunk([], []);
          hasContent := false;
        }
        closed, open := closed + [open], [];
      } else {
        if IsBadHunkLine(line) {
          ScanBad(seen, line, section[index - start + 1..]);
          assert section == seen + [line] + section[index - start + 1..];
          return Err(BadHunkLine(line)), index;
        }
        current := PushLine(current, line);
        hasContent := true;
        ScanLine(seen, line, closed, open);
        open := open + [line];
      }
      index := index + 1;
    }
    SectionEnds(body, start, index);
    assert section[..n] == section;
    if hasContent {
      hunks := hunks + [current];
    }
    ScanEnd(section, closed, open);
    if hunks == [] {
      return Err(NoHunkContent), index;
    }
    if HasEmptyOld(hunks) {
      return Err(HunkWithoutOldLines), index;
    }
    return Ok(hunks), index;
  }

  /** Where one body line of a hunk goes: context to both sides, removed and added lines to one. */
  method PushLine(hunk: Hunk, line: string) returns (r: Hunk)
    requires !IsHunkMarker(line) && !IsBadHunkLine(line)
    ensures r == Hunk(PushOld(hunk.oldLines, line), PushNew(hunk.newLines, line))
  {
    if line != [] && line[0] == ' ' {
      r := Hunk(hunk.oldLines + [line[1..]], hunk.newLines + [line[1..]]);
    } else if line != [] && line[0] == '-' {
      r := hunk.(oldLines := hunk.oldLines + [line[1..]]);
    } else if line != [] && line[0] == '+' {
      r := hunk.(newLines := hunk.newLines + [line[1..]]);
    } else {
      r := Hunk(hunk.oldLines + [[]], hunk.newLines + [[]]);
    }
  }

  /** What the scan has established about the lines seen so far: none is malformed, and they fall into
      the closed groups and the one still open. */
  ghost predicate Scanned(seen: seq<string>, closed: seq<seq<string>>, open: seq<string>) {
    FirstBadLine(seen) == None && Groups(seen) == closed + [open]
  }

  lemma ScanNothing()
    ensures Scanned([], [], []) && HunksOf([]) == [] && OldOf([]) == [] && NewOf([]) == []
  {
    var none: seq<seq<string>> := [];
    assert none + [[]] == [[]];
  }

  lemma ScanMarker(seen: seq<string>, line: string, closed: seq<seq<string>>, open: seq<string>)
    requires Scanned(seen, closed, open) && IsHunkMarker(line)
    ensures Scanned(seen + [line], closed + [open], []) && OldOf([]) == [] && NewOf([]) == []
    ensures HunksOf(closed + [open]) ==
            if open == [] then HunksOf(closed) else HunksOf(closed) + [Hunk(OldOf(open), NewOf(open))]
  {
    FirstBadSnoc(seen, line);
    assert (seen + [line])[..|seen|] == seen;
    assert (closed + [open])[..|closed|] == closed;
  }

  lemma ScanLine(seen: seq<string>, line: string, closed: seq<seq<string>>, open: seq<string>)
    requires Scanned(seen, closed, open) && !IsHunkMarker(line) && !IsBadHunkLine(line)
    ensures Scanned(seen + [line], closed, open + [line])
    ensures OldOf(open + [line]) == PushOld(OldOf(open), line) && NewOf(open + [line]) == PushNew(NewOf(open), line)
  {
    FirstBadSnoc(seen, line);
    assert (seen + [line])[..|seen|] == seen;
    assert (closed + [open])[..|closed|] == closed;
    assert (open + [line])[..|open|] == open;
  }

  lemma ScanBad(seen: seq<string>, line: string, rest: seq<string>)
    requires FirstBadLine(seen) == None && IsBadHunkLine(line)
    ensures FirstBadLine(seen + [line] + rest) == Some(line)
  {
    FirstBadSnoc(seen, line);
    FirstBadPrefix(seen + [line], rest);
  }

  lemma ScanEnd(section: seq<string>, closed: seq<seq<string>>, open: seq<string>)
    requires Scanned(section, closed, open)
    ensures FirstBadLine(section) == None
    ensures HunksOf(Groups(section)) ==
            if open == [] then HunksOf(closed) else HunksOf(closed) + [Hunk(OldOf(open), NewOf(open))]
  {
    assert (closed + [open])[..|closed|] == closed;
  }

  lemma InSection(body: seq<string>, start: nat, index: nat)
    requires start <= index < |body| && index <= start + SectionLength(body[start..]) && !IsSectionMarker(body[index])
    ensures index < start + SectionLength(body[start..])
  {
    assert body[start..][index - start] == body[index];
  }

  lemma SectionEnds(body: seq<string>, start: nat, index: nat)
    requires start <= |body| && start <= index <= start + SectionLength(body[start..])
    requires index == |body| || IsSectionMarker(body[index])
    ensures index == start + SectionLength(body[start..])
  {
    assert index < |body| ==> body[start..][index - start] == body[index];
  }

  lemma {:induction false} FirstBadSnoc(lines: seq<string>, line: string)
    ensures FirstBadLine(lines + [line]) ==
            if FirstBadLine(lines).Some? then FirstBadLine(lines)
            else if IsBadHunkLine(line) then Some(line) else None
  {
    if lines != [] {
      FirstBadSnoc(lines[1..], line);
      assert (lines + [line])[1..] == lines[1..] + [line];
    } else {
      assert ([] + [line])[1..] == [];
    }
  }

  lemma {:induction false} FirstBadPrefix(a: seq<string>, b: seq<string>)
    requires FirstBadLine(a).Some?
    ensures FirstBadLine(a + b) == FirstBadLine(a)
  {
    if !IsBadHunkLine(a[0]) {
      FirstBadPrefix(a[1..], b);
    }
    assert (a + b)[1..] == a[1..] + b;
  }

  method ParseAddBody(body: seq<string>, start: nat) returns (content: seq<string>, next: nat)
    requires start <= |body|
    ensures next == start + SectionLength(body[start..])
    ensures content == AddedContent(body[start..next])
  {
    hide SectionLength, IsSectionMarker;
    var index := start;
    content := [];
    while index < |body| && !IsSectionMarker(body[index])
      invariant start <= index <= start + SectionLength(body[start..])
      invariant content == AddedContent(body[start..index])
    {
      InSection(body, start, index);
      var line := body[index];
      content := content + [if "+" <= line then line[1..] else line];
      index := index + 1;
    }
    SectionEnds(body, start, index);
    next := index;
  }

  /** One round of the parser's main loop: the operation that starts at `index`, or `None` for a blank
      line, and where the next round starts. */
  method ParseOperation(body: seq<string>, index: nat)
    returns (result: Result<Option<FileOperation>, PatchError>, next: nat)
    requires index < |body|
    ensures result.Err? ==> ParseBody(body[index..]) == Err(result.error)
    ensures result.Ok? ==> index < next <= |body|
    ensures result.Ok? && result.value.Some? ==>
            ParseBody(body[index..]) == Prepend(result.value.value, ParseBody(body[next..]))
    ensures result.Ok? && result.value.None? ==> ParseBody(body[index..]) == ParseBody(body[next..])
  {
    hide ParseBody, ParseHunks, AddedContent, Trim, SectionLength;
    ParseBodyAt(body, index);
    var line := body[index];
    if UPDATE_PREFIX <= line {
      var hunks, after := ParseHunksAt(body, index + 1);
      if hunks.Err? {
        return Err(hunks.error), index;
      }
      return Ok(Some(Update(Trim(line[|UPDATE_PREFIX|..]), hunks.value))), after;
    } else if ADD_PREFIX <= line {
      var content, after := ParseAddBody(body, index + 1);
      return Ok(Some(Add(Trim(line[|ADD_PREFIX|..]), content))), after;
    } else if DELETE_PREFIX <= line {
      return Ok(Some(Delete(Trim(line[|DELETE_PREFIX|..])))), index + 1;
    } else if Trim(line) == [] {
      return Ok(None), index + 1;
    } else {
      return Err(UnrecognizedLine(line)), index;
    }
  }

  lemma ParseBodyAt(body: seq<string>, index: nat)
    requires index < |body|
    ensures var line, start := body[index], index + 1;
            var after := start + SectionLength(body[start..]);
            ParseBody(body[index..]) ==
            if UPDATE_PREFIX <= line then
              var hunks := ParseHunks(body[start..after]);
              if hunks.Err? then Err(hunks.error)
              else Prepend(Update(Trim(line[|UPDATE_PREFIX|..]), hunks.value), ParseBody(body[after..]))
            else if ADD_PREFIX <= line then
              Prepend(Add(Trim(line[|ADD_PREFIX|..]), AddedContent(body[start..after])), ParseBody(body[after..]))
            else if DELETE_PREFIX <= line then
              Prepend(Delete(Trim(line[|DELETE_PREFIX|..])), ParseBody(body[start..]))
            else if Trim(line) == [] then ParseBody(body[start..])
            else Err(UnrecognizedLine(line))
  {
    hide ParseHunks, AddedContent, Trim;
    var rest := body[index + 1..];
    var n := SectionLength(rest);
    assert body[index..][0] == body[index] && body[index..][1..] == rest;
    assert body[index + 1..index + 1 + n] == rest[..n] && body[index + 1 + n..] == rest[n..];
  }

  method ParsePatch(patch: string) returns (result: Result<seq<FileOperation>, PatchError>)
    ensures result == Parse(patch)
  {
    hide ParseBody;
    var lines := Lines(patch);
    if lines == [] {
      return Err(EmptyPatch);
    }
    if Trim(lines[0]) != BEGIN_MARKER {
      return Err(MissingBegin);
    }
    var end := EndIndex(lines[1..]);
    if end == |lines[1..]| {
      return Err(MissingEnd);
    }
    result := ParseOperations(lines[1..][..end]);
    if result == Ok([]) {
      return Err(NoOperations);
    }
  }

  method ParseOperations(body: seq<string>) returns (result: Result<seq<FileOperation>, PatchError>)
    ensures result == ParseBody(body)
  {
    hide ParseBody, Prepend;
    var operations: seq<FileOperation> := [];
    var index := 0;
    PrependNothing(ParseBody(body));
    assert body[0..] == body;
    while index < |body|
      invariant index <= |body|
      invariant ParseBody(body) == PrependAll(operations, ParseBody(body[index..]))
    {
      ghost var done := operations;
      var round, next := ParseOperation(body, index);
      if round.Err? {
        return Err(round.error);
      }
      if round.value.Some? {
        operations := operations + [round.value.value];
      }
      index := next;
      PrependStep(done, operations, ParseBody(body[index..]));
    }
    ParseNothing();
    assert body[index..] == [] && operations + [] == operations;
    return Ok(operations);
  }

  lemma ParseNothing()
    ensures ParseBody([]) == Ok([])
  {
  }

  lemma PrependStep(done: seq<FileOperation>, operations: seq<FileOperation>,
                    rest: Result<seq<FileOperation>, PatchError>)
    requires operations == done || (|operations| == |done| + 1 && done <= operations)
    ensures PrependAll(operations, rest) ==
            PrependAll(done, if operations == done then rest else Prepend(operations[|done|], rest))
  {
    if operations != done && rest.Ok? {
      assert operations == done + [operations[|done|]];
      assert operations + rest.value == done + ([operations[|done|]] + rest.value);
    }
  }

  lemma PrependNothing(rest: Result<seq<FileOperation>, PatchError>)
    ensures PrependAll([], rest) == rest
  {
    assert rest.Ok? ==> [] + rest.value == rest.value;
  }
}
