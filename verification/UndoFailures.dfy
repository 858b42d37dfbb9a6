/** Requests on a disk that refuses some writes: when that makes a difference, and what a refusal leaves behind. */
module UndoFailures {
  import opened Prelude
  import opened UndoHistory
  import opened UndoTheorems

  /** A list of snapshots is written in full exactly when none of them is refused when its turn comes. */
  lemma {:induction false} WrittenInFull(disk: Disk, files: Files, snapshots: seq<FileSnapshot>, direction: Direction)
    ensures Written(disk, files, snapshots, direction) == |snapshots| <==>
            forall i :: 0 <= i < |snapshots| ==>
              !Refuses(disk, WriteAll(files, snapshots[..i], direction), snapshots[i], direction)
  {
    hide Refuses, WriteAll;
    if snapshots != [] {
      var front := snapshots[..|snapshots| - 1];
      WrittenInFull(disk, files, front, direction);
      assert forall i :: 0 <= i < |front| ==> front[..i] == snapshots[..i] && front[i] == snapshots[i];
      assert snapshots[..|front|] == front;
    }
  }

  /** Each of the next `k` transactions can be written in full when its turn comes. */
  ghost predicate AllWritten(disk: Disk, k: nat, s: State, direction: Direction)
    decreases k
  {
    k == 0
    || (s.Source(direction) != []
        && Written(disk, s.files, s.Top(direction).files, direction) == |s.Top(direction).files|
        && AllWritten(disk, k - 1, MoveTop(s, direction), direction))
  }

  /** A request is answered exactly when everything it would apply can be written in full, and then the disk
      makes no difference. */
  lemma {:induction false} AnsweredIff(disk: Disk, n: nat, s: State, force: bool, direction: Direction)
    ensures var (s', outcome) := ApplyUpTo(n, s, force, direction);
            && (TryUpTo(disk, n, s, force, direction).1.Ok? <==> AllWritten(disk, |outcome.applied|, s, direction))
            && (TryUpTo(disk, n, s, force, direction).1.Ok? ==>
                  TryUpTo(disk, n, s, force, direction) == (s', Ok(outcome)))
    decreases n
  {
    hide ConflictsOf, WriteAll, Written, AppliedFiles, MoveTop, LoseTop;
    if n != 0 && s.Source(direction) != [] && (force || Clean(s, direction)) {
      var rest := ApplyUpTo(n - 1, MoveTop(s, direction), force, direction).1;
      AnsweredIff(disk, n - 1, MoveTop(s, direction), force, direction);
      assert |ApplyUpTo(n, s, force, direction).1.applied| == 1 + |rest.applied|;
    }
  }

  /** A disk that refuses nothing the request would write is as good as one that never refuses. */
  lemma {:induction false} Unhindered(disk: Disk, n: nat, s: State, force: bool, direction: Direction)
    requires forall i :: 0 <= i < |s.Source(direction)| && i >= |s.Source(direction)| - n ==>
               forall snapshot :: snapshot in s.Source(direction)[i].files ==>
                 snapshot.path !in disk.unresolved && snapshot.path !in disk.readOnly
    ensures TryUpTo(disk, n, s, force, direction) ==
            (ApplyUpTo(n, s, force, direction).0, Ok(ApplyUpTo(n, s, force, direction).1))
    decreases n
  {
    hide ConflictsOf, WriteAll, Written, AppliedFiles;
    var source := s.Source(direction);
    if n != 0 && source != [] && (force || Clean(s, direction)) {
      WrittenInFull(disk, s.files, s.Top(direction).files, direction);
      assert source[|source| - 1] == s.Top(direction);
      Unhindered(disk, n - 1, MoveTop(s, direction), force, direction);
    }
  }

  /** The whole effect of a refused request: `k` transactions were applied as without a refusal, the next one, found
      free of conflicts unless forced, was written up to the refused file, and it is on neither stack any more. */
  lemma {:induction false} RefusedRequest(disk: Disk, n: nat, s: State, force: bool, direction: Direction)
    returns (k: nat)
    requires TryUpTo(disk, n, s, force, direction).1.Err?
    ensures k < n && k < |s.Source(direction)| && Moved(k, s, direction).Source(direction) != []
    ensures var last := Moved(k, s, direction);
            var t := last.Top(direction);
            var written := Written(disk, last.files, t.files, direction);
            && t == s.Source(direction)[|s.Source(direction)| - 1 - k]
            && written < |t.files|
            && (!force ==> CleanFor(k, s, direction) && Clean(last, direction))
            && TryUpTo(disk, n, s, force, direction) == (LoseTop(last, direction, written), Err(t.files[written].path))
    decreases n
  {
    hide ConflictsOf, WriteAll, Written, AppliedFiles;
    var (s', turn) := TurnOf(disk, s, force, direction);
    if turn.Refused? {
      k := 0;
    } else {
      k := RefusedRequest(disk, n - 1, s', force, direction);
      k := k + 1;
    }
  }

  /** So the transaction at which it was refused is lost: one request, one transaction less in the history. */
  lemma {:induction false} TransactionLost(disk: Disk, n: nat, s: State, force: bool, direction: Direction)
    requires TryUpTo(disk, n, s, force, direction).1.Err?
    ensures var s' := TryUpTo(disk, n, s, force, direction).0;
            |s'.undo| + |s'.redo| == |s.undo| + |s.redo| - 1
  {
    hide TryUpTo, Moved, Written, WriteAll;
    var k := RefusedRequest(disk, n, s, force, direction);
    MovedShape(k, s, direction);
  }

  // ---------- A refusal on a linear history ----------

  /** A line with one step missing: the undo stack leads along its first part and the redo stack along the
      rest. The workspace may be anywhere. */
  ghost predicate Broken(line: seq<Files>, s: State) {
    && |line| == |s.undo| + |s.redo| + 2
    && LeadsHere(line[..|s.undo| + 1], s.undo)
    && LeadsOn(line[|s.undo| + 1..], s.redo)
  }

  /** A refused request takes one step out of a linear history. */
  lemma LinearRefused(line: seq<Files>, disk: Disk, n: nat, s: State, force: bool, direction: Direction)
    requires Linear(line, s) && TryUpTo(disk, n, s, force, direction).1.Err?
    ensures Broken(line, TryUpTo(disk, n, s, force, direction).0)
  {
    hide TryUpTo, Moved, Written, WriteAll, Records;
    var k := RefusedRequest(disk, n, s, force, direction);
    LinearMoved(line, s, k, direction);
    var last := Moved(k, s, direction);
    var i := |last.undo|;
    if direction.Undo? {
      assert line[..i + 1][..i] == line[..i];
    } else {
      assert line[i..][1..] == line[i + 1..];
    }
  }

  /** After that the next request meets no conflict exactly when every file that its transaction names is as it was on
      that transaction's side of the gap. */
  lemma BrokenNext(line: seq<Files>, s: State, direction: Direction)
    requires Broken(line, s) && s.Source(direction) != []
    ensures var place := if direction.Undo? then line[|s.undo|] else line[|s.undo| + 1];
            Clean(s, direction) <==>
            forall path :: Touches(s.Top(direction).files, path) ==> Read(s.files, path) == Read(place, path)
  {
    hide ConflictsOf;
    var t, n := s.Top(direction), |s.undo|;
    NoConflictIff(s.files, t.files, direction);
    var place := if direction.Undo? then line[n] else line[n + 1];
    if direction.Undo? {
      LeadsHereAt(line[..n + 1], s.undo, n - 1);
    } else {
      LeadsOnAt(line[n + 1..], s.redo, 0);
    }
    assert forall i :: 0 <= i < |t.files| ==> Read(place, t.files[i].path) == ExpectedBefore(t.files[i], direction);
    if Clean(s, direction) {
      forall path | Touches(t.files, path) ensures Read(s.files, path) == Read(place, path) {
        var i :| 0 <= i < |t.files| && t.files[i].path == path;
      }
    } else {
      var i :| 0 <= i < |t.files| && Read(s.files, t.files[i].path) != ExpectedBefore(t.files[i], direction);
      assert Touches(t.files, t.files[i].path);
    }
  }
}
