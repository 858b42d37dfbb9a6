/** The undo/redo history of the agent's own file edits (`UndoStore`), its conflict check and the
    workspace it writes to. The workspace is a map from resolved paths to contents; an absent path
    is a file that does not exist. */
module UndoHistory {
  import opened Prelude

  type Path = string
  type Content = string
  type Files = map<Path, Content>

  datatype FileSnapshot = FileSnapshot(path: Path, before: Option<Content>, after: Option<Content>)

  datatype Transaction = Transaction(id: string, createdAt: int, description: string, files: seq<FileSnapshot>)

  datatype Direction = Undo | Redo {
    function Opposite(): Direction {
      if Undo? then Redo else Undo
    }
  }

  datatype FileAction = Restored | Removed | Recreated

  datatype AppliedFile = AppliedFile(path: Path, action: FileAction)

  datatype ConflictFile = ConflictFile(path: Path, expected: Option<Content>, actual: Option<Content>)

  datatype AppliedTransaction = AppliedTransaction(id: string, description: string, files: seq<AppliedFile>)

  datatype Conflict = Conflict(id: string, description: string, files: seq<ConflictFile>)

  datatype Outcome = Outcome(applied: seq<AppliedTransaction>, conflict: Option<Conflict>)

  /** Both stacks (top last) and the workspace: everything an undo or redo request can change. */
  datatype State = State(undo: seq<Transaction>, redo: seq<Transaction>, files: Files) {
    function Source(direction: Direction): seq<Transaction> {
      if direction.Undo? then undo else redo
    }

    function Top(direction: Direction): Transaction
      requires Source(direction) != []
    {
      Source(direction)[|Source(direction)| - 1]
    }
  }

  function Read(files: Files, path: Path): Option<Content> {
    if path in files then Some(files[path]) else None
  }

  function Write(files: Files, path: Path, content: Option<Content>): Files {
    if content.Some? then files[path := content.value] else files - {path}
  }

  function ExpectedBefore(snapshot: FileSnapshot, direction: Direction): Option<Content> {
    if direction.Undo? then snapshot.after else snapshot.before
  }

  function ExpectedAfter(snapshot: FileSnapshot, direction: Direction): Option<Content> {
    if direction.Undo? then snapshot.before else snapshot.after
  }

  function ActionOf(snapshot: FileSnapshot, direction: Direction): FileAction {
    if ExpectedAfter(snapshot, direction).None? then Removed
    else if ExpectedBefore(snapshot, direction).None? then Recreated
    else Restored
  }

  /** The files of a transaction that no longer hold what the transaction expects, in order. */
  function ConflictsOf(files: Files, snapshots: seq<FileSnapshot>, direction: Direction): seq<ConflictFile> {
    if snapshots == [] then []
    else
      var last := snapshots[|snapshots| - 1];
      var expected, actual := ExpectedBefore(last, direction), Read(files, last.path);
      ConflictsOf(files, snapshots[..|snapshots| - 1], direction)
      + (if actual != expected then [ConflictFile(last.path, expected, actual)] else [])
  }

  /** The workspace once every snapshot has been written in order. */
  function WriteAll(files: Files, snapshots: seq<FileSnapshot>, direction: Direction): Files {
    if snapshots == [] then files
    else
      var last := snapshots[|snapshots| - 1];
      Write(WriteAll(files, snapshots[..|snapshots| - 1], direction), last.path, ExpectedAfter(last, direction))
  }

  function AppliedFiles(snapshots: seq<FileSnapshot>, direction: Direction): seq<AppliedFile> {
    seq(|snapshots|, i requires 0 <= i < |snapshots| =>
        AppliedFile(snapshots[i].path, ActionOf(snapshots[i], direction)))
  }

  /** Moves the top transaction of one stack to the other and writes its files. */
  function MoveTop(s: State, direction: Direction): State
    requires s.Source(direction) != []
  {
    var t := s.Top(direction);
    var files := WriteAll(s.files, t.files, direction);
    if direction.Undo? then State(s.undo[..|s.undo| - 1], s.redo + [t], files)
    else State(s.undo + [t], s.redo[..|s.redo| - 1], files)
  }

  /** What one `undo(n)` or `redo(n)` request leaves behind and reports when no write is refused. */
  function ApplyUpTo(n: nat, s: State, force: bool, direction: Direction): (State, Outcome) {
    if n == 0 || s.Source(direction) == [] then (s, Outcome([], None))
    else
      var t := s.Top(direction);
      var conflicts := ConflictsOf(s.files, t.files, direction);
      if conflicts != [] && !force then
        (s, Outcome([], Some(Conflict(t.id, t.description, conflicts))))
      else
        var (s', rest) := ApplyUpTo(n - 1, MoveTop(s, direction), force, direction);
        var here := AppliedTransaction(t.id, t.description, AppliedFiles(t.files, direction));
        (s', Outcome([here] + rest.applied, rest.conflict))
  }

  // ---------- A file system that refuses ----------

  /** The paths that do not resolve inside the workspace, and the files that cannot be written or removed. A
      path that does not resolve reads as absent. */
  datatype Disk = Disk(unresolved: set<Path>, readOnly: set<Path>)

  /** Removing a file that does not exist always succeeds. */
  predicate Refuses(disk: Disk, files: Files, snapshot: FileSnapshot, direction: Direction) {
    || snapshot.path in disk.unresolved
    || (snapshot.path in disk.readOnly && (ExpectedAfter(snapshot, direction).Some? || snapshot.path in files))
  }

  /** How many snapshots are written, up to the first that is refused. */
  function Written(disk: Disk, files: Files, snapshots: seq<FileSnapshot>, direction: Direction): (k: nat)
    ensures k <= |snapshots|
  {
    if snapshots == [] then 0
    else
      var front := snapshots[..|snapshots| - 1];
      var k := Written(disk, files, front, direction);
      if k < |front| || Refuses(disk, WriteAll(files, front, direction), snapshots[|front|], direction) then k
      else |snapshots|
  }

  lemma {:induction false} WrittenStops(
    disk: Disk, files: Files, snapshots: seq<FileSnapshot>, direction: Direction, i: nat)
    requires i < |snapshots| && Written(disk, files, snapshots[..i], direction) == i
    requires Refuses(disk, WriteAll(files, snapshots[..i], direction), snapshots[i], direction)
    ensures Written(disk, files, snapshots, direction) == i
  {
    hide Refuses;
    if i < |snapshots| - 1 {
      var front := snapshots[..|snapshots| - 1];
      assert front[..i] == snapshots[..i];
      WrittenStops(disk, files, front, direction, i);
    }
  }

  lemma NothingWritten(disk: Disk, files: Files, snapshots: seq<FileSnapshot>, direction: Direction)
    ensures WriteAll(files, snapshots[..0], direction) == files && Written(disk, files, snapshots[..0], direction) == 0
    ensures AppliedFiles(snapshots[..0], direction) == []
  {
  }

  lemma WrittenOn(disk: Disk, files: Files, snapshots: seq<FileSnapshot>, direction: Direction, i: nat)
    requires i < |snapshots| && Written(disk, files, snapshots[..i], direction) == i
    ensures var (before, snapshot) := (WriteAll(files, snapshots[..i], direction), snapshots[i]);
            && (!Refuses(disk, before, snapshot, direction) ==>
                Written(disk, files, snapshots[..i + 1], direction) == i + 1)
            && WriteAll(files, snapshots[..i + 1], direction) ==
               Write(before, snapshot.path, ExpectedAfter(snapshot, direction))
            && AppliedFiles(snapshots[..i + 1], direction) ==
               AppliedFiles(snapshots[..i], direction) + [AppliedFile(snapshot.path, ActionOf(snapshot, direction))]
  {
    hide Refuses, ActionOf;
    assert snapshots[..i + 1][..i] == snapshots[..i];
  }

  /** A refused write: the top transaction is gone from its stack, and what was written before stays. */
  function LoseTop(s: State, direction: Direction, written: nat): State
    requires s.Source(direction) != [] && written <= |s.Top(direction).files|
  {
    var files := WriteAll(s.files, s.Top(direction).files[..written], direction);
    if direction.Undo? then State(s.undo[..|s.undo| - 1], s.redo, files)
    else State(s.undo, s.redo[..|s.redo| - 1], files)
  }

  /** One turn of the loop: a transaction was applied, met a conflict, or was refused at a path. */
  datatype Turn = Applied(transaction: AppliedTransaction) | Stopped(conflict: Conflict) | Refused(path: Path)

  function TurnOf(disk: Disk, s: State, force: bool, direction: Direction): (State, Turn)
    requires s.Source(direction) != []
  {
    var t := s.Top(direction);
    var conflicts := ConflictsOf(s.files, t.files, direction);
    var written := Written(disk, s.files, t.files, direction);
    if conflicts != [] && !force then (s, Stopped(Conflict(t.id, t.description, conflicts)))
    else if written < |t.files| then (LoseTop(s, direction, written), Refused(t.files[written].path))
    else (MoveTop(s, direction), Applied(AppliedTransaction(t.id, t.description, AppliedFiles(t.files, direction))))
  }

  type Answer = Result<Outcome, Path>

  /** What one `undo(n)` or `redo(n)` request leaves behind and answers on such a disk. */
  function TryUpTo(disk: Disk, n: nat, s: State, force: bool, direction: Direction): (State, Answer) {
    if n == 0 || s.Source(direction) == [] then (s, Ok(Outcome([], None)))
    else
      var (s', turn) := TurnOf(disk, s, force, direction);
      match turn
      case Stopped(conflict) => (s', Ok(Outcome([], Some(conflict))))
      case Refused(path) => (s', Err(path))
      case Applied(here) => After([here], TryUpTo(disk, n - 1, s', force, direction))
  }

  /** The answer of a request whose first transactions have already been applied. */
  function After(applied: seq<AppliedTransaction>, rest: (State, Answer)): (State, Answer) {
    match rest.1
    case Ok(outcome) => (rest.0, Ok(Outcome(applied + outcome.applied, outcome.conflict)))
    case Err(path) => rest
  }

  lemma AfterMeans(done: seq<AppliedTransaction>, s: State, conflict: Option<Conflict>)
    ensures After(done, (s, Ok(Outcome([], conflict)))) == (s, Ok(Outcome(done, conflict)))
  {
    assert done + [] == done;
  }

  lemma AfterRefused(done: seq<AppliedTransaction>, s: State, path: Path)
    ensures After(done, (s, Err(path))) == (s, Err(path))
  {
  }

  lemma AfterNothing(r: (State, Answer))
    ensures After([], r) == r
  {
    if r.1.Ok? {
      assert [] + r.1.value.applied == r.1.value.applied;
    }
  }

  lemma AfterTwice(done: seq<AppliedTransaction>, here: AppliedTransaction, r: (State, Answer))
    ensures After(done, After([here], r)) == After(done + [here], r)
  {
    if r.1.Ok? {
      assert done + ([here] + r.1.value.applied) == (done + [here]) + r.1.value.applied;
    }
  }

  /** The undo stack after a commit: the newest `maxEntries` transactions. */
  function Capped(stack: seq<Transaction>, maxEntries: nat): seq<Transaction> {
    if |stack| > maxEntries then stack[|stack| - maxEntries..] else stack
  }

  // ---------- The imperative store ----------

  class Workspace {
    var files: Files
    const disk: Disk

    constructor (files: Files, disk: Disk)
      ensures this.files == files && this.disk == disk
    {
      this.files, this.disk := files, disk;
    }
  }

  class UndoStore {
    var undoStack: seq<Transaction>
    var redoStack: seq<Transaction>
    var maxEntries: nat

    constructor (maxEntries: nat)
      ensures undoStack == [] && redoStack == [] && this.maxEntries == maxEntries
    {
      undoStack, redoStack, this.maxEntries := [], [], maxEntries;
    }

    ghost function Snapshot(workspace: Workspace): State
      reads this, workspace
    {
      State(undoStack, redoStack, workspace.files)
    }

    method Commit(transaction: Transaction)
      modifies this
      ensures redoStack == [] && maxEntries == old(maxEntries)
      ensures undoStack == Capped(old(undoStack) + [transaction], maxEntries)
      ensures |undoStack| == Min(|old(undoStack)| + 1, maxEntries)
      ensures undoStack == (old(undoStack) + [transaction])[|old(undoStack)| + 1 - |undoStack|..]
    {
      redoStack := [];
      undoStack := undoStack + [transaction];
      if |undoStack| > maxEntries {
        var overflow := |undoStack| - maxEntries;
        undoStack := undoStack[overflow..];
      }
    }

    method DetectConflicts(transaction: Transaction, workspace: Workspace, direction: Direction)
      returns (conflicts: seq<ConflictFile>)
      ensures conflicts == ConflictsOf(workspace.files, transaction.files, direction)
    {
      conflicts := [];
      for i := 0 to |transaction.files|
        invariant conflicts == ConflictsOf(workspace.files, transaction.files[..i], direction)
      {
        assert transaction.files[..i + 1][..i] == transaction.files[..i];
        var snapshot := transaction.files[i];
        var expected, actual := ExpectedBefore(snapshot, direction), Read(workspace.files, snapshot.path);
        if actual != expected {
          conflicts := conflicts + [ConflictFile(snapshot.path, expected, actual)];
        }
      }
      assert transaction.files[..|transaction.files|] == transaction.files;
    }

    method ApplyTransaction(transaction: Transaction, workspace: Workspace, direction: Direction)
      returns (applied: Result<seq<AppliedFile>, Path>)
      modifies workspace
      ensures var written := Written(workspace.disk, old(workspace.files), transaction.files, direction);
              && workspace.files == WriteAll(old(workspace.files), transaction.files[..written], direction)
              && applied == if written < |transaction.files| then Err(transaction.files[written].path)
                            else Ok(AppliedFiles(transaction.files, direction))
    {
      hide Refuses, WriteAll, Written, AppliedFiles;
      NothingWritten(workspace.disk, workspace.files, transaction.files, direction);
      var files := [];
      for i := 0 to |transaction.files|
        invariant workspace.files == WriteAll(old(workspace.files), transaction.files[..i], direction)
        invariant Written(workspace.disk, old(workspace.files), transaction.files[..i], direction) == i
        invariant files == AppliedFiles(transaction.files[..i], direction)
      {
        WrittenOn(workspace.disk, old(workspace.files), transaction.files, direction, i);
        var snapshot := transaction.files[i];
        var before, target := ExpectedBefore(snapshot, direction), ExpectedAfter(snapshot, direction);
        if Refuses(workspace.disk, workspace.files, snapshot, direction) {
          WrittenStops(workspace.disk, old(workspace.files), transaction.files, direction, i);
          return Err(snapshot.path);
        }
        var action: FileAction;
        if target.Some? {
          workspace.files := workspace.files[snapshot.path := target.value];
          action := if before.None? then Recreated else Restored;
        } else {
          workspace.files := workspace.files - {snapshot.path};
          action := Removed;
        }
        files := files + [AppliedFile(snapshot.path, action)];
      }
      assert transaction.files[..|transaction.files|] == transaction.files;
      return Ok(files);
    }

    /** One turn of `apply`: pops the top transaction, then writes it and moves it to the other stack, or
        reports the conflict and puts it back, or stops at a refused write without putting it back. */
    method ApplyTop(workspace: Workspace, force: bool, direction: Direction) returns (turn: Turn)
      requires Snapshot(workspace).Source(direction) != []
      modifies this, workspace
      ensures maxEntries == old(maxEntries)
      ensures (Snapshot(workspace), turn) == TurnOf(workspace.disk, old(Snapshot(workspace)), force, direction)
    {
      hide ConflictsOf, WriteAll, Written, AppliedFiles;
      var source := if direction.Undo? then undoStack else redoStack;
      var transaction := source[|source| - 1];
      assert source == source[..|source| - 1] + [transaction];
      if direction.Undo? {
        undoStack := undoStack[..|undoStack| - 1];
      } else {
        redoStack := redoStack[..|redoStack| - 1];
      }
      var conflicts := DetectConflicts(transaction, workspace, direction);
      if conflicts != [] && !force {
        // Nothing was written, so pushing the transaction back leaves the store as it was.
        if direction.Undo? {
          undoStack := undoStack + [transaction];
        } else {
          redoStack := redoStack + [transaction];
        }
        return Stopped(Conflict(transaction.id, transaction.description, conflicts));
      }
      var applied := ApplyTransaction(transaction, workspace, direction);
      if applied.Err? {
        return Refused(applied.error);
      }
      assert transaction.files[..|transaction.files|] == transaction.files;
      if direction.Undo? {
        redoStack := redoStack + [transaction];
      } else {
        undoStack := undoStack + [transaction];
      }
      return Applied(AppliedTransaction(transaction.id, transaction.description, applied.value));
    }

    method Apply(n: nat, workspace: Workspace, force: bool, direction: Direction) returns (answer: Answer)
      modifies this, workspace
      ensures maxEntries == old(maxEntries)
      ensures (Snapshot(workspace), answer) == TryUpTo(workspace.disk, n, old(Snapshot(workspace)), force, direction)
    {
      hide TurnOf, After;
      var applied: seq<AppliedTransaction> := [];
      ghost var whole := TryUpTo(workspace.disk, n, Snapshot(workspace), force, direction);
      AfterNothing(whole);
      var i := 0;
      while i < n
        invariant i <= n && maxEntries == old(maxEntries)
        invariant whole == After(applied, TryUpTo(workspace.disk, n - i, Snapshot(workspace), force, direction))
      {
        var source := if direction.Undo? then undoStack else redoStack;
        if source == [] {
          break;
        }
        var turn := ApplyTop(workspace, force, direction);
        match turn {
          case Stopped(conflict) =>
            AfterMeans(applied, Snapshot(workspace), Some(conflict));
            return Ok(Outcome(applied, Some(conflict)));
          case Refused(path) =>
            AfterRefused(applied, Snapshot(workspace), path);
            return Err(path);
          case Applied(here) =>
            AfterTwice(applied, here, TryUpTo(workspace.disk, n - i - 1, Snapshot(workspace), force, direction));
            applied := applied + [here];
        }
        i := i + 1;
      }
      AfterMeans(applied, Snapshot(workspace), None);
      return Ok(Outcome(applied, None));
    }

    method UndoRequest(n: nat, workspace: Workspace, force: bool) returns (answer: Answer)
      modifies this, workspace
      ensures maxEntries == old(maxEntries)
      ensures (Snapshot(workspace), answer) == TryUpTo(workspace.disk, n, old(Snapshot(workspace)), force, Undo)
    {
      answer := Apply(n, workspace, force, Undo);
    }

    method RedoRequest(n: nat, workspace: Workspace, force: bool) returns (answer: Answer)
      modifies this, workspace
      ensures maxEntries == old(maxEntries)
      ensures (Snapshot(workspace), answer) == TryUpTo(workspace.disk, n, old(Snapshot(workspace)), force, Redo)
    {
      answer := Apply(n, workspace, force, Redo);
    }
  }
}
