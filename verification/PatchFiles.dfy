/** Applying a patch document to file texts and to the workspace, and undoing it. */
module PatchFiles {
  import opened Prelude
  import opened Text
  import opened PatchFormat
  import opened PatchRoundTrip
  import opened PatchApply
  import opened UndoHistory
  import opened UndoTheorems
  import opened UndoRuns

  const CRLF := "\r\n"
  const BOM := '\U{FEFF}'

  // ---------- Splitting a text into lines and joining it again ----------

  datatype SplitContent = SplitContent(lines: seq<string>, ending: string, trailingNewline: bool)

  predicate HasCrlf(content: string) {
    exists i :: 0 < i < |content| && content[i - 1] == '\r' && content[i] == '\n'
  }

  /** Every carriage-return newline pair replaced by a newline. */
  function Normalize(content: string): string {
    if content == [] then []
    else if CRLF <= content then ['\n'] + Normalize(content[2..])
    else [content[0]] + Normalize(content[1..])
  }

  /** `str::split('\n')`. */
  function SplitLines(text: string): seq<string>
    decreases |text|
  {
    var i := FirstNewline(text);
    if i == |text| then [text] else [text[..i]] + SplitLines(text[i + 1..])
  }

  function Split(content: string): SplitContent {
    var ending := if HasCrlf(content) then CRLF else "\n";
    var normalized := Normalize(content);
    var trailing := normalized != [] && normalized[|normalized| - 1] == '\n';
    var trimmed := if trailing then normalized[..|normalized| - 1] else normalized;
    SplitContent(if trimmed == [] && !trailing then [] else SplitLines(trimmed), ending, trailing)
  }

  function JoinLines(lines: seq<string>, ending: string): string {
    if lines == [] then [] else if |lines| == 1 then lines[0] else lines[0] + ending + JoinLines(lines[1..], ending)
  }

  function Join(split: SplitContent): string {
    JoinLines(split.lines, split.ending) + (if split.trailingNewline && split.lines != [] then split.ending else [])
  }

  /** Every newline replaced by `ending`. */
  function WithEnding(text: string, ending: string): string {
    if text == [] then []
    else (if text[0] == '\n' then ending else [text[0]]) + WithEnding(text[1..], ending)
  }

  lemma {:induction false} WithEndingConcat(a: string, b: string, ending: string)
    ensures WithEnding(a + b, ending) == WithEnding(a, ending) + WithEnding(b, ending)
  {
    if a == [] {
      assert a + b == b;
    } else {
      assert (a + b)[1..] == a[1..] + b;
      WithEndingConcat(a[1..], b, ending);
    }
  }

  lemma {:induction false} WithEndingPlain(text: string, ending: string)
    requires '\n' !in text
    ensures WithEnding(text, ending) == text
  {
    if text != [] {
      WithEndingPlain(text[1..], ending);
    }
  }

  lemma {:induction false} JoinSplitLines(text: string, ending: string)
    ensures JoinLines(SplitLines(text), ending) == WithEnding(text, ending)
    decreases |text|
  {
    hide *;
    var i := FirstNewline(text);
    SplitLinesCases(text);
    if i == |text| {
      assert text[..i] == text;
      WithEndingPlain(text, ending);
      JoinLinesOne(text, ending);
    } else {
      var line, rest := text[..i], text[i + 1..];
      JoinSplitLines(rest, ending);
      JoinLinesCons(line, SplitLines(rest), ending);
      WithEndingLine(line, rest, ending);
      assert text == line + ['\n'] + rest;
    }
  }

  lemma {:induction false} SplitLinesCases(text: string)
    ensures SplitLines(text) != []
    ensures var i := FirstNewline(text);
            SplitLines(text) == if i == |text| then [text] else [text[..i]] + SplitLines(text[i + 1..])
    ensures FirstNewline(text) < |text| ==> SplitLines(text[FirstNewline(text) + 1..]) != []
  {
  }

  lemma JoinLinesOne(line: string, ending: string)
    ensures JoinLines([line], ending) == line
  {
  }

  lemma JoinLinesCons(line: string, lines: seq<string>, ending: string)
    requires lines != []
    ensures JoinLines([line] + lines, ending) == line + ending + JoinLines(lines, ending)
  {
    assert ([line] + lines)[1..] == lines;
  }

  lemma WithEndingLine(line: string, rest: string, ending: string)
    requires '\n' !in line
    ensures WithEnding(line + ['\n'] + rest, ending) == line + ending + WithEnding(rest, ending)
  {
    WithEndingPlain(line, ending);
    WithEndingConcat(line + ['\n'], rest, ending);
    WithEndingConcat(line, ['\n'], ending);
    assert WithEnding(['\n'], ending) == ending + WithEnding([], ending) == ending;
  }

  /** Splitting and joining rewrites every line ending to the one the file is taken to use. */
  lemma JoinSplit(content: string)
    ensures Join(Split(content)) == WithEnding(Normalize(content), Split(content).ending)
  {
    hide Normalize, SplitLines, JoinLines, WithEnding, HasCrlf, FirstNewline;
    var normalized, ending := Normalize(content), Split(content).ending;
    if normalized != [] && normalized[|normalized| - 1] == '\n' {
      var trimmed := normalized[..|normalized| - 1];
      JoinSplitLines(trimmed, ending);
      SplitLinesCases(trimmed);
      WithEndingConcat(trimmed, ['\n'], ending);
      OneNewline(ending);
      assert normalized == trimmed + ['\n'];
    } else {
      JoinSplitLines(normalized, ending);
      OneNewline(ending);
    }
  }

  lemma OneNewline(ending: string)
    ensures WithEnding(['\n'], ending) == ending && WithEnding([], ending) == [] && JoinLines([], ending) == []
  {
    assert WithEnding(['\n'], ending) == ending + WithEnding([], ending) == ending;
  }

  /** No newline without a carriage return before it. */
  predicate NoBareNewline(content: string) {
    forall i :: 0 <= i < |content| && content[i] == '\n' ==> i > 0 && content[i - 1] == '\r'
  }

  lemma CrlfInFront(content: string)
    requires CRLF <= content
    ensures HasCrlf(content)
  {
    assert content[1 - 1] == CRLF[0] && content[1] == CRLF[1];
  }

  lemma {:induction false} NormalizePlain(content: string)
    requires !HasCrlf(content)
    ensures Normalize(content) == content
  {
    if content != [] {
      if CRLF <= content {
        CrlfInFront(content);
      }
      assert forall i :: 0 < i < |content[1..]| ==>
             content[1..][i - 1] == content[i] && content[1..][i] == content[i + 1];
      NormalizePlain(content[1..]);
    }
  }

  lemma {:induction false} WithNewline(text: string)
    ensures WithEnding(text, "\n") == text
  {
    if text != [] {
      WithNewline(text[1..]);
    }
  }

  /** Rewriting to carriage-return newlines only ever adds characters, one per bare newline. */
  lemma {:induction false} RewriteToCrlf(content: string)
    ensures |WithEnding(Normalize(content), CRLF)| >= |content|
    ensures WithEnding(Normalize(content), CRLF) == content <==> NoBareNewline(content)
    ensures |WithEnding(Normalize(content), CRLF)| == |content| ==> NoBareNewline(content)
    decreases |content|
  {
    hide WithEnding, Normalize, NoBareNewline;
    if content == [] {
      NothingToRewrite();
    } else {
      var k := if CRLF <= content then 2 else 1;
      var head, after := CrlfHead(content), WithEnding(Normalize(content[k..]), CRLF);
      RewriteHead(content, k);
      RewriteToCrlf(content[k..]);
      NoBareAfter(content, k);
      assert content == content[..k] + content[k..];
      assert |head| == k ==> (head + after == content <==> head == content[..k] && after == content[k..]);
    }
  }

  lemma NothingToRewrite()
    ensures WithEnding(Normalize(""), CRLF) == "" && NoBareNewline("")
  {
  }

  function CrlfHead(content: string): string
    requires content != []
  {
    if CRLF <= content || content[0] == '\n' then CRLF else [content[0]]
  }

  lemma {:induction false} RewriteHead(content: string, k: nat)
    requires content != [] && k == if CRLF <= content then 2 else 1
    ensures WithEnding(Normalize(content), CRLF) == CrlfHead(content) + WithEnding(Normalize(content[k..]), CRLF)
  {
    var head := if k == 2 then '\n' else content[0];
    assert Normalize(content) == [head] + Normalize(content[k..]);
    assert Normalize(content)[1..] == Normalize(content[k..]);
  }

  lemma NoBareAfter(content: string, k: nat)
    requires 1 <= k <= |content| && (k < |content| && content[k] == '\n' ==> content[k - 1] != '\r')
    requires k == 2 ==> CRLF <= content
    requires k <= 2
    ensures NoBareNewline(content) <==> NoBareNewline(content[k..]) && (k == 1 ==> content[0] != '\n')
  {
    var rest := content[k..];
    if NoBareNewline(content) {
      forall i | 0 <= i < |rest| && rest[i] == '\n' ensures i > 0 && rest[i - 1] == '\r' {
        assert content[i + k] == '\n';
      }
    }
    if NoBareNewline(rest) && (k == 1 ==> content[0] != '\n') {
      forall i | 0 <= i < |content| && content[i] == '\n' ensures i > 0 && content[i - 1] == '\r' {
        if i >= k {
          assert rest[i - k] == '\n';
        }
      }
    }
  }

  /** The exact condition under which editing keeps untouched lines byte for byte: splitting and
      joining a file is the identity if and only if its line endings are uniform. */
  lemma SplitJoinIdentity(content: string)
    ensures Join(Split(content)) == content <==> !HasCrlf(content) || NoBareNewline(content)
  {
    JoinSplit(content);
    if HasCrlf(content) {
      RewriteToCrlf(content);
    } else {
      NormalizePlain(content);
      WithNewline(content);
    }
  }

  // ---------- Applying hunks to one file ----------

  function ApplyHunks(original: string, hunks: seq<Hunk>): Result<(string, nat), ApplyError> {
    var hadBom := [BOM] <= original;
    var split := Split(if hadBom then original[1..] else original);
    var spliced := SpliceHunks(split.lines, hunks, 0, 0);
    if spliced.Err? then Err(spliced.error)
    else
      var joined := Join(split.(lines := spliced.value.lines));
      Ok((if hadBom then [BOM] + joined else joined, spliced.value.fuzzy))
  }

  method ApplyHunksToText(original: string, hunks: seq<Hunk>) returns (result: Result<(string, nat), ApplyError>)
    ensures result == ApplyHunks(original, hunks)
  {
    var hadBom := [BOM] <= original;
    var split := Split(if hadBom then original[1..] else original);
    var spliced := SpliceAll(split.lines, hunks);
    if spliced.Err? {
      return Err(spliced.error);
    }
    var text := Join(split.(lines := spliced.value.lines));
    if hadBom {
      text := [BOM] + text;
    }
    return Ok((text, spliced.value.fuzzy));
  }

  /** Substituting blocks by themselves, matched exactly, gives the original back. */
  lemma {:induction false} SubstituteSame(original: seq<string>, hunks: seq<Hunk>, sites: seq<Site>, from: nat)
    requires from <= |original| && Sited(original, hunks, sites, from)
    requires forall i :: 0 <= i < |hunks| ==> hunks[i].newLines == hunks[i].oldLines && sites[i].kind == Exact
    ensures Substitute(original, hunks, sites, from) == original[from..]
    decreases |hunks|
  {
    if hunks != [] {
      var at, end := sites[0].at, End(sites[0], hunks[0]);
      PlaceBounds(original, hunks[0].oldLines, from, at, Exact);
      assert original[at..end] == hunks[0].oldLines;
      SubstituteSame(original, hunks[1..], sites[1..], end);
      assert original[from..] == original[from..at] + original[at..end] + original[end..];
    }
  }

  /** The text behind the byte-order mark, if there is one. */
  function Body(original: string): string {
    if [BOM] <= original then original[1..] else original
  }

  /** A patch of pure context that matches exactly leaves the file unchanged if and only if the file's
      line endings are uniform; otherwise it silently rewrites them. */
  lemma ContextOnlyPatch(original: string, hunks: seq<Hunk>, sites: seq<Site>)
    requires Sited(Split(Body(original)).lines, hunks, sites, 0)
    requires forall i :: 0 <= i < |hunks| ==> hunks[i].newLines == hunks[i].oldLines && sites[i].kind == Exact
    ensures ApplyHunks(original, hunks).Ok?
    ensures ApplyHunks(original, hunks).value.0 == original <==> !HasCrlf(original) || NoBareNewline(original)
  {
    hide Split, Join, HasCrlf, NoBareNewline, Sited, Substitute, SpliceHunks;
    var body := Body(original);
    var lines := Split(body).lines;
    ApplyIsSubstitution(lines, hunks);
    SubstituteSame(lines, hunks, sites, 0);
    assert lines[0..] == lines;
    SplitJoinIdentity(body);
    if [BOM] <= original {
      assert original == [BOM] + body;
      MarkKeepsEndings(body);
    }
  }

  lemma MarkKeepsEndings(body: string)
    ensures HasCrlf([BOM] + body) <==> HasCrlf(body)
    ensures NoBareNewline([BOM] + body) <==> NoBareNewline(body)
  {
    hide HasCrlf, NoBareNewline;
    MarkKeepsCrlf(body);
    MarkKeepsBare(body);
  }

  lemma MarkKeepsCrlf(body: string)
    ensures HasCrlf([BOM] + body) <==> HasCrlf(body)
  {
    var original := [BOM] + body;
    if i :| 0 < i < |body| && body[i - 1] == '\r' && body[i] == '\n' {
      assert original[i] == '\r' && original[i + 1] == '\n';
    }
    if i :| 0 < i < |original| && original[i - 1] == '\r' && original[i] == '\n' {
      assert original[0] == BOM && i > 1;
      assert body[i - 2] == '\r' && body[i - 1] == '\n';
    }
  }

  lemma MarkKeepsBare(body: string)
    ensures NoBareNewline([BOM] + body) <==> NoBareNewline(body)
  {
    var original := [BOM] + body;
    assert original[0] == BOM && BOM != '\r' && BOM != '\n';
    if NoBareNewline(original) {
      forall i | 0 <= i < |body| && body[i] == '\n' ensures i > 0 && body[i - 1] == '\r' {
        assert original[i + 1] == '\n' && original[i] == '\r';
      }
    }
    if NoBareNewline(body) {
      forall i | 0 <= i < |original| && original[i] == '\n' ensures i > 0 && original[i - 1] == '\r' {
        assert body[i - 1] == '\n';
      }
    }
  }

  /** The smallest file with mixed endings: leaving a line as it is rewrites the other line's ending. */
  lemma MixedEndings()
    ensures Join(Split("a\r\nb\n")) == "a\r\nb\r\n"
    ensures ApplyHunks("a\r\nb\n", [Hunk(["b"], ["b"])]) == Ok(("a\r\nb\r\n", 0))
  {
    hide Split, Join, SpliceHunks;
    var text := "a\r\nb\n";
    MixedSplit();
    MixedSplice();
    MixedJoin();
    assert text[0] == 'a' && !([BOM] <= text);
  }

  lemma MixedSplice()
    ensures SpliceHunks(["a", "b"], [Hunk(["b"], ["b"])], 0, 0) == Ok(Spliced(["a", "b"], 0))
  {
    hide SpliceHunks, Substitute;
    var hunks := [Hunk(["b"], ["b"])];
    var lines := ["a", "b"];
    var sites := [Site(1, Exact)];
    assert MatchesAt(lines, ["b"], 1, Exact) by { assert lines[1..2] == ["b"]; }
    assert !MatchesAt(lines, ["b"], 0, Exact) by { assert lines[0..1] == ["a"]; }
    assert Sited(lines, hunks, sites, 0);
    ApplyIsSubstitution(lines, hunks);
    SubstituteSame(lines, hunks, sites, 0);
    assert lines[0..] == lines && FuzzyCount(sites) == 0;
  }

  lemma MixedJoin()
    ensures Join(SplitContent(["a", "b"], CRLF, true)) == "a\r\nb\r\n"
  {
    var lines := ["a", "b"];
    assert JoinLines(["b"], CRLF) == "b";
    assert lines[1..] == ["b"];
    assert JoinLines(lines, CRLF) == "a" + CRLF + "b";
  }

  lemma MixedSplit()
    ensures Split("a\r\nb\n") == SplitContent(["a", "b"], CRLF, true)
  {
    var text := "a\r\nb\n";
    assert text[1] == '\r' && text[2] == '\n' && HasCrlf(text);
    assert text[1..] == "\r\nb\n" && text[1..][2..] == "b\n" && text[1..][2..][1..] == "\n"
           && text[1..][2..][1..][1..] == "";
    assert Normalize("\n") == "\n";
    assert Normalize("b\n") == "b\n";
    assert Normalize("\r\nb\n") == "\nb\n";
    assert Normalize(text) == "a\nb\n";
    assert "a\nb\n"[..3] == "a\nb";
    assert FirstNewline("\nb") == 0 && "a\nb"[1..] == "\nb" && FirstNewline("a\nb") == 1;
    assert "b"[1..] == "" && FirstNewline("b") == 1;
    assert "a\nb"[..1] == "a" && "a\nb"[2..] == "b";
    assert SplitLines("b") == ["b"];
    assert SplitLines("a\nb") == ["a"] + ["b"];
  }

  // ---------- Applying a patch to the workspace ----------

  datatype ChangeKind = Created | Modified | Deleted

  datatype AppliedChange = AppliedChange(path: Path, kind: ChangeKind, fuzzyHunks: nat)

  datatype PatchFailure =
    | Malformed(error: PatchError)
    | Unresolved(path: Path)
    | NotFound(path: Path)
    | AlreadyExists(path: Path)
    | HunkFailed(path: Path, failure: ApplyError)
    | Unwritable(path: Path)

  /** The content an added file gets: each line ended with a newline. */
  function AddedText(content: seq<string>): string {
    if content == [] then [] else JoinLines(content, "\n") + "\n"
  }

  function ApplyOperation(files: Files, op: FileOperation, disk: Disk)
    : Result<(Files, AppliedChange), PatchFailure>
  {
    if op.path in disk.unresolved then Err(Unresolved(op.path))
    else
      match op
      case Update(path, hunks) =>
        if path !in files then Err(NotFound(path))
        else
          var updated := ApplyHunks(files[path], hunks);
          if updated.Err? then Err(HunkFailed(path, updated.error))
          else if path in disk.readOnly then Err(Unwritable(path))
          else Ok((files[path := updated.value.0], AppliedChange(path, Modified, updated.value.1)))
      case Add(path, content) =>
        if path in files then Err(AlreadyExists(path))
        else if path in disk.readOnly then Err(Unwritable(path))
        else Ok((files[path := AddedText(content)], AppliedChange(path, Created, 0)))
      case Delete(path) =>
        if path !in files then Err(NotFound(path))
        else if path in disk.readOnly then Err(Unwritable(path))
        else Ok((files - {path}, AppliedChange(path, Deleted, 0)))
  }

  /** The workspace and report after the operations in order; the first failure stops the rest and
      does not roll back what came before it. */
  function ApplyOperations(files: Files, ops: seq<FileOperation>, disk: Disk)
    : (Files, Result<seq<AppliedChange>, PatchFailure>)
  {
    if ops == [] then (files, Ok([]))
    else
      var (before, changes) := ApplyOperations(files, ops[..|ops| - 1], disk);
      if changes.Err? then (before, changes)
      else
        var step := ApplyOperation(before, ops[|ops| - 1], disk);
        if step.Err? then (before, Err(step.error))
        else (step.value.0, Ok(changes.value + [step.value.1]))
  }

  function RunPatch(files: Files, patch: string, disk: Disk): (Files, Result<seq<AppliedChange>, PatchFailure>) {
    var ops := Parse(patch);
    if ops.Err? then (files, Err(Malformed(ops.error))) else ApplyOperations(files, ops.value, disk)
  }

  method ApplyPatch(workspace: Workspace, patch: string)
    returns (result: Result<seq<AppliedChange>, PatchFailure>)
    modifies workspace
    ensures (workspace.files, result) == RunPatch(old(workspace.files), patch, workspace.disk)
  {
    hide ApplyHunks, Parse;
    var parsed := ParsePatch(patch);
    if parsed.Err? {
      return Err(Malformed(parsed.error));
    }
    var ops := parsed.value;
    var changes: seq<AppliedChange> := [];
    for i := 0 to |ops|
      invariant ApplyOperations(old(workspace.files), ops[..i], workspace.disk) == (workspace.files, Ok(changes))
    {
      assert ops[..i + 1][..i] == ops[..i];
      var op := ops[i];
      var step := ApplyOperation(workspace.files, op, workspace.disk);
      if step.Err? {
        OperationsStop(old(workspace.files), ops, i + 1, workspace.disk);
        return Err(step.error);
      }
      workspace.files := step.value.0;
      changes := changes + [step.value.1];
    }
    assert ops[..|ops|] == ops;
    return Ok(changes);
  }

  /** A failure is final: later operations are never attempted. */
  lemma {:induction false} OperationsStop(files: Files, ops: seq<FileOperation>, k: nat, disk: Disk)
    requires k <= |ops| && ApplyOperations(files, ops[..k], disk).1.Err?
    ensures ApplyOperations(files, ops, disk) == ApplyOperations(files, ops[..k], disk)
    decreases |ops|
  {
    if k == |ops| {
      assert ops[..k] == ops;
    } else {
      var front := ops[..|ops| - 1];
      assert front[..k] == ops[..k];
      OperationsStop(files, front, k, disk);
    }
  }

  /** A failed patch leaves exactly the effect of the operations before the failing one. */
  lemma {:induction false} FailureIsPartial(files: Files, ops: seq<FileOperation>, disk: Disk) returns (k: nat)
    requires ApplyOperations(files, ops, disk).1.Err?
    ensures k < |ops| && ApplyOperations(files, ops[..k], disk).1.Ok?
    ensures ApplyOperations(files, ops[..k], disk).0 == ApplyOperations(files, ops, disk).0
    ensures ApplyOperation(ApplyOperations(files, ops, disk).0, ops[k], disk)
            == Err(ApplyOperations(files, ops, disk).1.error)
  {
    hide ApplyOperation;
    k := |ops| - 1;
    if ApplyOperations(files, ops[..k], disk).1.Err? {
      var front := ops[..k];
      k := FailureIsPartial(files, front, disk);
      assert front[..k] == ops[..k];
    }
  }

  lemma {:induction false} OperationsFrame(files: Files, ops: seq<FileOperation>, disk: Disk, path: Path)
    requires forall i :: 0 <= i < |ops| ==> ops[i].path != path
    ensures Read(ApplyOperations(files, ops, disk).0, path) == Read(files, path)
  {
    hide ApplyHunks;
    if ops != [] {
      OperationsFrame(files, ops[..|ops| - 1], disk, path);
    }
  }

  lemma {:induction false} ChangesNamePaths(files: Files, ops: seq<FileOperation>, disk: Disk)
    requires ApplyOperations(files, ops, disk).1.Ok?
    ensures var changes := ApplyOperations(files, ops, disk).1.value;
            |changes| == |ops| && forall i :: 0 <= i < |ops| ==> changes[i].path == ops[i].path
  {
    hide ApplyHunks;
    if ops != [] {
      ChangesNamePaths(files, ops[..|ops| - 1], disk);
    }
  }

  // ---------- Patches that fail half-way ----------

  /** An operation sees and changes nothing but its own path. */
  lemma OperationLocal(a: Files, b: Files, op: FileOperation, disk: Disk)
    requires Read(a, op.path) == Read(b, op.path)
    ensures ApplyOperation(a, op, disk).Ok? <==> ApplyOperation(b, op, disk).Ok?
    ensures ApplyOperation(a, op, disk).Ok? ==>
              && Read(ApplyOperation(a, op, disk).value.0, op.path) ==
                 Read(ApplyOperation(b, op, disk).value.0, op.path)
              && forall path :: path != op.path ==> Read(ApplyOperation(a, op, disk).value.0, path) == Read(a, path)
  {
    hide ApplyHunks;
  }

  /** The operations on one path, in order. */
  function OpsOn(ops: seq<FileOperation>, path: Path): seq<FileOperation> {
    if ops == [] then []
    else
      var last := ops[|ops| - 1];
      OpsOn(ops[..|ops| - 1], path) + (if last.path == path then [last] else [])
  }

  /** The workspace with one file at most. */
  function Only(files: Files, path: Path): Files {
    if path in files then map[path := files[path]] else map[]
  }

  /** What the operations on `path` alone make of it. */
  function Alone(files: Files, ops: seq<FileOperation>, path: Path, disk: Disk): Option<Content> {
    Read(ApplyOperations(Only(files, path), OpsOn(ops, path), disk).0, path)
  }

  /** Operations on different files do not interact: each file ends as its own operations alone leave it. */
  lemma {:induction false} PathsIndependent(files: Files, ops: seq<FileOperation>, path: Path, disk: Disk)
    requires ApplyOperations(files, ops, disk).1.Ok?
    ensures ApplyOperations(Only(files, path), OpsOn(ops, path), disk).1.Ok?
    ensures Read(ApplyOperations(files, ops, disk).0, path) == Alone(files, ops, path, disk)
  {
    hide ApplyOperation;
    if ops != [] {
      var front, last := ops[..|ops| - 1], ops[|ops| - 1];
      PathsIndependent(files, front, path, disk);
      var before := ApplyOperations(files, front, disk).0;
      var own := ApplyOperations(Only(files, path), OpsOn(front, path), disk).0;
      if last.path == path {
        OperationLocal(before, own, last, disk);
        assert OpsOn(ops, path)[..|OpsOn(front, path)|] == OpsOn(front, path);
      } else {
        OperationLocal(before, before, last, disk);
        assert OpsOn(ops, path) == OpsOn(front, path);
      }
    }
  }

  /** The first `k` operations succeed and the next one fails. */
  ghost predicate FailsAt(files: Files, ops: seq<FileOperation>, k: nat, disk: Disk) {
    && k < |ops| && ApplyOperations(files, ops[..k], disk).1.Ok?
    && ApplyOperation(ApplyOperations(files, ops[..k], disk).0, ops[k], disk).Err?
  }

  lemma FailsAtMeans(files: Files, ops: seq<FileOperation>, k: nat, disk: Disk)
    requires FailsAt(files, ops, k, disk)
    ensures k < |ops| && ApplyOperations(files, ops, disk).1.Err?
    ensures ApplyOperations(files, ops, disk).0 == ApplyOperations(files, ops[..k], disk).0
  {
    hide ApplyOperation;
    assert ops[..k + 1][..k] == ops[..k];
    OperationsStop(files, ops, k + 1, disk);
  }

  /** The exact condition. A patch that fails at its k-th operation leaves the workspace as it found it if
      and only if, for every file, the operations on it before the failing one lead back to its content. */
  lemma FailedPatchUnchanged(files: Files, ops: seq<FileOperation>, k: nat, disk: Disk)
    requires FailsAt(files, ops, k, disk)
    ensures ApplyOperations(files, ops, disk).0 == files <==>
            forall path :: Alone(files, ops[..k], path, disk) == Read(files, path)
  {
    hide ApplyOperation, ApplyOperations, OpsOn, Alone;
    var after := ApplyOperations(files, ops, disk).0;
    FailsAtMeans(files, ops, k, disk);
    forall path ensures Alone(files, ops[..k], path, disk) == Read(after, path) {
      PathsIndependent(files, ops[..k], path, disk);
    }
    if forall path :: Alone(files, ops[..k], path, disk) == Read(files, path) {
      forall path ensures Read(after, path) == Read(files, path) {
        assert Alone(files, ops[..k], path, disk) == Read(after, path);
      }
      SameFiles(after, files);
    }
  }

  /** An update whose result is the text it found. */
  ghost predicate Idle(files: Files, op: FileOperation) {
    op.Update? && op.path in files && ApplyHunks(files[op.path], op.hunks).Ok?
    && ApplyHunks(files[op.path], op.hunks).value.0 == files[op.path]
  }

  /** With distinct paths that means: every operation before the failing one is an update that changes
      nothing. So a patch whose first operation fails always leaves the workspace alone. */
  lemma FailedPatchDistinct(files: Files, ops: seq<FileOperation>, k: nat, disk: Disk)
    requires FailsAt(files, ops, k, disk)
    requires forall i, j :: 0 <= i < j < k ==> ops[i].path != ops[j].path
    ensures ApplyOperations(files, ops, disk).0 == files <==> forall i :: 0 <= i < k ==> Idle(files, ops[i])
  {
    hide ApplyOperation, ApplyOperations, OpsOn, Idle;
    var front := ops[..k];
    FailedPatchUnchanged(files, ops, k, disk);
    forall i | 0 <= i < k
      ensures Alone(files, front, ops[i].path, disk) == Read(files, ops[i].path) <==> Idle(files, ops[i])
    {
      OpsOnOne(front, i);
      PathsIndependent(files, front, ops[i].path, disk);
      OneOperation(files, front[i], disk);
    }
    forall path | forall i :: 0 <= i < k ==> ops[i].path != path
      ensures Alone(files, front, path, disk) == Read(files, path)
    {
      PathsIndependent(files, front, path, disk);
      OperationsFrame(files, front, disk, path);
    }
  }

  lemma {:induction false} OpsOnOne(ops: seq<FileOperation>, i: nat)
    requires i < |ops| && forall a, b :: 0 <= a < b < |ops| ==> ops[a].path != ops[b].path
    ensures OpsOn(ops, ops[i].path) == [ops[i]]
  {
    var front := ops[..|ops| - 1];
    if i < |front| {
      OpsOnOne(front, i);
    } else {
      OpsOnNone(front, ops[i].path);
    }
  }

  lemma {:induction false} OpsOnNone(ops: seq<FileOperation>, path: Path)
    requires forall i :: 0 <= i < |ops| ==> ops[i].path != path
    ensures OpsOn(ops, path) == []
  {
    if ops != [] {
      OpsOnNone(ops[..|ops| - 1], path);
    }
  }

  lemma OneOperation(files: Files, op: FileOperation, disk: Disk)
    requires ApplyOperations(Only(files, op.path), [op], disk).1.Ok?
    ensures Read(ApplyOperations(Only(files, op.path), [op], disk).0, op.path) == Read(files, op.path) <==>
            Idle(files, op)
  {
    hide ApplyHunks;
    var ops: seq<FileOperation> := [op];
    assert |ops[..0]| == 0 && ApplyOperations(Only(files, op.path), ops[..0], disk) == (Only(files, op.path), Ok([]));
  }

  // ---------- Undoing a patch ----------

  /** The tool call that runs a patch: its arguments name the paths the patch mentions, and it reports the
      applied changes, or nothing when it fails. */
  function PatchCall(files: Files, patch: string, disk: Disk): Call {
    var (after, changes) := RunPatch(files, patch, disk);
    Call(TouchedPaths(patch),
         if changes.Ok? then seq(|changes.value|, i requires 0 <= i < |changes.value| => changes.value[i].path) else [],
         after)
  }

  /** A successful patch reports every path it changed, each named by the patch. */
  lemma PatchReports(files: Files, patch: string, disk: Disk)
    requires RunPatch(files, patch, disk).1.Ok?
    ensures Reports(files, [PatchCall(files, patch, disk)])
  {
    hide ApplyOperations, Parse, TouchedPaths;
    var ops := Parse(patch).value;
    var call := PatchCall(files, patch, disk);
    ChangesNamePaths(files, ops, disk);
    ScanCoversParse(patch);
    forall path | path in call.reported ensures path in call.named {
      var i :| 0 <= i < |call.reported| && call.reported[i] == path;
      assert PathsOf(ops)[i] == path && PathsOf(ops)[i] in PathsOf(ops);
    }
    forall path | path !in call.reported ensures Read(files, path) == Read(call.after, path) {
      forall i | 0 <= i < |ops| ensures ops[i].path != path {
        assert call.reported[i] == ops[i].path;
      }
      OperationsFrame(files, ops, disk, path);
    }
    var calls: seq<Call> := [call];
    assert |calls[..0]| == 0 && Reports(files, calls[..0]);
  }

  /** Every successful patch can be undone: even when it names a file several times, the snapshots of
      the call apply cleanly right after it and restore the workspace it found. */
  lemma PatchIsUndoable(files: Files, patch: string, disk: Disk)
    requires RunPatch(files, patch, disk).1.Ok?
    ensures var call := PatchCall(files, patch, disk);
            && ConflictsOf(call.after, SnapshotsOf(files, call), Undo) == []
            && WriteAll(call.after, SnapshotsOf(files, call), Undo) == files
  {
    hide RunPatch, ConflictsOf, WriteAll, Reports, RepeatsAgree, PatchCall;
    var call := PatchCall(files, patch, disk);
    PatchReports(files, patch, disk);
    OneCallAgrees(files, call);
    RunUndoRestores(files, [call]);
    OneCallCollected(files, call);
  }

  lemma OneCallCollected(files: Files, call: Call)
    ensures Collected(files, [call]) == SnapshotsOf(files, call) && FilesAfter(files, [call]) == call.after
  {
    var calls: seq<Call> := [call];
    assert |calls[..0]| == 0 && Collected(files, calls[..0]) == [] && FilesAfter(files, calls[..0]) == files;
  }

  /** A run whose one call is a patch that fails is never committed: both stacks stay as they were, and the
      workspace holds what the operations before the failing one left. */
  lemma FailedPatchRun(s: State, patch: string, disk: Disk, run: Run, maxEntries: nat)
    requires RunPatch(s.files, patch, disk).1.Err? && run.calls == [PatchCall(s.files, patch, disk)]
    ensures AfterRun(s, run, maxEntries) == s.(files := RunPatch(s.files, patch, disk).0)
  {
    hide RunPatch, TouchedPaths;
    OneCallCollected(s.files, PatchCall(s.files, patch, disk));
  }

  /** So the next undo takes the transaction before the run. If that one led here from `previous`, undoing it
      finds no conflict if and only if the failed patch left every file it names as it was; and it leads back
      to `previous` if and only if the patch left every file as it was. */
  lemma FailedPatchUndo(s: State, previous: Files, patch: string, k: nat, disk: Disk, run: Run, maxEntries: nat)
    requires Parse(patch).Ok? && FailsAt(s.files, Parse(patch).value, k, disk)
    requires run.calls == [PatchCall(s.files, patch, disk)]
    requires s.undo != [] && Records(previous, s.Top(Undo), s.files)
    ensures var front := Parse(patch).value[..k];
            var (s', outcome) := ApplyUpTo(1, AfterRun(s, run, maxEntries), false, Undo);
            && (outcome.conflict == None <==>
                forall path :: Touches(s.Top(Undo).files, path) ==>
                  Alone(s.files, front, path, disk) == Read(s.files, path))
            && (outcome.conflict == None && s'.files == previous <==>
                forall path :: Alone(s.files, front, path, disk) == Read(s.files, path))
  {
    hide Parse, ApplyOperations, FailsAt, Alone, Records, ConflictsOf, WriteAll, AfterRun, PatchCall;
    var ops, top := Parse(patch).value, s.Top(Undo);
    FailsAtMeans(s.files, ops, k, disk);
    FailedPatchRun(s, patch, disk, run, maxEntries);
    var after := ApplyOperations(s.files, ops, disk).0;
    assert RunPatch(s.files, patch, disk).0 == after;
    forall path ensures Alone(s.files, ops[..k], path, disk) == Read(after, path) {
      FailedAlone(s.files, ops, k, disk, path);
    }
    UndoElsewhere(s, previous, after);
    FailedPatchUnchanged(s.files, ops, k, disk);
    SameReads(after, s.files);
  }

  lemma FailedAlone(files: Files, ops: seq<FileOperation>, k: nat, disk: Disk, path: Path)
    requires FailsAt(files, ops, k, disk)
    ensures Alone(files, ops[..k], path, disk) == Read(ApplyOperations(files, ops, disk).0, path)
  {
    hide ApplyOperation, ApplyOperations, OpsOn, Alone;
    FailsAtMeans(files, ops, k, disk);
    PathsIndependent(files, ops[..k], path, disk);
  }

  /** The smallest case: the added file stays behind, and the failed call has no snapshot of it. */
  lemma FailedPatchLeavesFiles(disk: Disk)
    requires "new.txt" !in disk.unresolved + disk.readOnly && "gone.txt" !in disk.unresolved
    ensures var ops := [Add("new.txt", ["x"]), Delete("gone.txt")];
            var (after, changes) := ApplyOperations(map[], ops, disk);
            FailsAt(map[], ops, 1, disk) && after == map["new.txt" := "x\n"] && changes == Err(NotFound("gone.txt"))
  {
    var ops := [Add("new.txt", ["x"]), Delete("gone.txt")];
    assert ops[..1] == [Add("new.txt", ["x"])] && ops[..1][..0] == [];
    assert ApplyOperations(map[], [], disk) == (map[], Ok([]));
    assert AddedText(["x"]) == "x\n";
    assert ApplyOperations(map[], ops[..1], disk).0 == map["new.txt" := "x\n"];
  }
}
