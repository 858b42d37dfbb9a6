/** What undo and redo promise over whole requests and whole runs. */
module UndoTheorems {
  import opened Prelude
  import opened UndoHistory

  ghost predicate Touches(snapshots: seq<FileSnapshot>, path: Path) {
    exists i :: 0 <= i < |snapshots| && snapshots[i].path == path
  }

  /** All snapshots of one path are equal: it occurs once, or always with the same contents. */
  ghost predicate RepeatsAgree(snapshots: seq<FileSnapshot>) {
    forall i, j :: 0 <= i < |snapshots| && 0 <= j < |snapshots| && snapshots[i].path == snapshots[j].path ==>
      snapshots[i] == snapshots[j]
  }

  // ---------- One transaction ----------

  /** A transaction applies cleanly exactly when every one of its files holds what it expects. */
  lemma {:induction false} NoConflictIff(files: Files, snapshots: seq<FileSnapshot>, direction: Direction)
    ensures ConflictsOf(files, snapshots, direction) == [] <==>
            forall i :: 0 <= i < |snapshots| ==>
              Read(files, snapshots[i].path) == ExpectedBefore(snapshots[i], direction)
  {
    if snapshots != [] {
      var front := snapshots[..|snapshots| - 1];
      NoConflictIff(files, front, direction);
      assert forall i :: 0 <= i < |front| ==> front[i] == snapshots[i];
    }
  }

  /** The conflict report names exactly the files whose content differs, with what was expected and found. */
  lemma {:induction false} ConflictReportExact(files: Files, snapshots: seq<FileSnapshot>, direction: Direction,
                                               c: ConflictFile)
    ensures c in ConflictsOf(files, snapshots, direction) <==>
            exists i :: 0 <= i < |snapshots| && c.path == snapshots[i].path
              && c.expected == ExpectedBefore(snapshots[i], direction)
              && c.actual == Read(files, c.path) && c.actual != c.expected
  {
    if snapshots != [] {
      var front := snapshots[..|snapshots| - 1];
      ConflictReportExact(files, front, direction, c);
      assert snapshots == front + [snapshots[|snapshots| - 1]];
    }
  }

  /** Paths outside the transaction keep their content. */
  lemma {:induction false} WriteAllFrame(files: Files, snapshots: seq<FileSnapshot>, direction: Direction, path: Path)
    requires !Touches(snapshots, path)
    ensures Read(WriteAll(files, snapshots, direction), path) == Read(files, path)
  {
    if snapshots != [] {
      WriteAllFrame(files, snapshots[..|snapshots| - 1], direction, path);
    }
  }

  /** Writing in order, the last snapshot of a path decides. */
  lemma {:induction false} WriteAllReads(files: Files, snapshots: seq<FileSnapshot>, direction: Direction, i: nat)
    requires i < |snapshots|
    requires forall j :: i < j < |snapshots| ==> snapshots[j].path != snapshots[i].path
    ensures Read(WriteAll(files, snapshots, direction), snapshots[i].path) == ExpectedAfter(snapshots[i], direction)
  {
    if i < |snapshots| - 1 {
      WriteAllReads(files, snapshots[..|snapshots| - 1], direction, i);
    }
  }

  /** The last snapshot of a path. */
  lemma {:induction false} LastTouch(snapshots: seq<FileSnapshot>, path: Path) returns (i: nat)
    requires Touches(snapshots, path)
    ensures i < |snapshots| && snapshots[i].path == path
    ensures forall j :: i < j < |snapshots| ==> snapshots[j].path != path
  {
    i := |snapshots| - 1;
    if snapshots[i].path != path {
      var front := snapshots[..i];
      var k :| 0 <= k < |snapshots| && snapshots[k].path == path;
      assert front[k].path == path;
      i := LastTouch(front, path);
    }
  }

  lemma WriteAllAgreeing(files: Files, snapshots: seq<FileSnapshot>, direction: Direction, i: nat)
    requires i < |snapshots|
    requires forall j :: 0 <= j < |snapshots| && snapshots[j].path == snapshots[i].path ==>
               ExpectedAfter(snapshots[j], direction) == ExpectedAfter(snapshots[i], direction)
    ensures Read(WriteAll(files, snapshots, direction), snapshots[i].path) == ExpectedAfter(snapshots[i], direction)
  {
    assert snapshots[i].path == snapshots[i].path;
    var last := LastTouch(snapshots, snapshots[i].path);
    WriteAllReads(files, snapshots, direction, last);
  }

  lemma SameFiles(a: Files, b: Files)
    requires forall path :: Read(a, path) == Read(b, path)
    ensures a == b
  {
    forall path ensures path in a <==> path in b {
      assert Read(a, path) == Read(b, path);
    }
    forall path | path in a ensures a[path] == b[path] {
      assert Read(a, path) == Read(b, path);
    }
  }

  ghost predicate Clean(s: State, direction: Direction)
    requires s.Source(direction) != []
  {
    ConflictsOf(s.files, s.Top(direction).files, direction) == []
  }

  /** Writing a clean transaction one way makes it clean the other way, and writing it back restores the
      workspace, if and only if its snapshots of one path agree. */
  lemma WriteBack(files: Files, snapshots: seq<FileSnapshot>, direction: Direction)
    requires ConflictsOf(files, snapshots, direction) == []
    ensures var written := WriteAll(files, snapshots, direction);
            && (ConflictsOf(written, snapshots, direction.Opposite()) == [] <==> RepeatsAgree(snapshots))
            && (RepeatsAgree(snapshots) ==> WriteAll(written, snapshots, direction.Opposite()) == files)
  {
    hide ConflictsOf, WriteAll;
    var written, opposite := WriteAll(files, snapshots, direction), direction.Opposite();
    NoConflictIff(files, snapshots, direction);
    NoConflictIff(written, snapshots, opposite);
    if RepeatsAgree(snapshots) {
      forall i | 0 <= i < |snapshots|
        ensures Read(written, snapshots[i].path) == ExpectedBefore(snapshots[i], opposite)
      {
        WriteAllAgreeing(files, snapshots, direction, i);
      }
      WritesBack(files, snapshots, direction);
    }
  }

  lemma WritesBack(files: Files, snapshots: seq<FileSnapshot>, direction: Direction)
    requires RepeatsAgree(snapshots) && ConflictsOf(files, snapshots, direction) == []
    ensures WriteAll(WriteAll(files, snapshots, direction), snapshots, direction.Opposite()) == files
  {
    hide ConflictsOf, WriteAll;
    NoConflictIff(files, snapshots, direction);
    var written, opposite := WriteAll(files, snapshots, direction), direction.Opposite();
    var back := WriteAll(written, snapshots, opposite);
    forall path ensures Read(back, path) == Read(files, path) {
      if Touches(snapshots, path) {
        var i :| 0 <= i < |snapshots| && snapshots[i].path == path;
        WriteAllAgreeing(written, snapshots, opposite, i);
      } else {
        WriteAllFrame(files, snapshots, direction, path);
        WriteAllFrame(written, snapshots, opposite, path);
      }
    }
    SameFiles(back, files);
  }

  /** After moving a clean transaction over, the way back is clean if and only if its snapshots agree, and
      then going back restores the workspace and both stacks. */
  lemma MoveBack(s: State, direction: Direction)
    requires s.Source(direction) != [] && Clean(s, direction)
    ensures var s' := MoveTop(s, direction);
            && s'.Source(direction.Opposite()) != []
            && (Clean(s', direction.Opposite()) <==> RepeatsAgree(s.Top(direction).files))
            && (RepeatsAgree(s.Top(direction).files) ==> MoveTop(s', direction.Opposite()) == s)
  {
    hide ConflictsOf, WriteAll, RepeatsAgree;
    WriteBack(s.files, s.Top(direction).files, direction);
    assert s.undo != [] ==> s.undo[..|s.undo| - 1] + [s.undo[|s.undo| - 1]] == s.undo;
    assert s.redo != [] ==> s.redo[..|s.redo| - 1] + [s.redo[|s.redo| - 1]] == s.redo;
  }

  // ---------- One request ----------

  /** None of the next `k` transactions conflicts when its turn comes. */
  ghost predicate CleanFor(k: nat, s: State, direction: Direction)
    decreases k
  {
    k == 0 || (s.Source(direction) != [] && Clean(s, direction) && CleanFor(k - 1, MoveTop(s, direction), direction))
  }

  /** The state after the next `k` transactions have moved over. */
  ghost function Moved(k: nat, s: State, direction: Direction): State
    decreases k
  {
    if k == 0 || s.Source(direction) == [] then s else Moved(k - 1, MoveTop(s, direction), direction)
  }

  lemma {:induction false} MovedShape(k: nat, s: State, direction: Direction)
    requires k <= |s.Source(direction)|
    ensures var s' := Moved(k, s, direction);
            && |s'.Source(direction)| == |s.Source(direction)| - k
            && |s'.Source(direction.Opposite())| == |s.Source(direction.Opposite())| + k
    decreases k
  {
    if k > 0 {
      MovedShape(k - 1, MoveTop(s, direction), direction);
    }
  }

  /** The snapshots in each of the top `k` transactions of a stack agree. */
  ghost predicate TopAgrees(k: nat, stack: seq<Transaction>) {
    forall i :: |stack| - k <= i < |stack| && 0 <= i ==> RepeatsAgree(stack[i].files)
  }

  /** A clean run can be extended at its far end. */
  lemma {:induction false} CleanSnoc(k: nat, s: State, direction: Direction)
    requires CleanFor(k, s, direction)
    requires Moved(k, s, direction).Source(direction) != [] && Clean(Moved(k, s, direction), direction)
    ensures CleanFor(k + 1, s, direction)
    ensures Moved(k + 1, s, direction) == MoveTop(Moved(k, s, direction), direction)
    decreases k
  {
    if k > 0 {
      CleanSnoc(k - 1, MoveTop(s, direction), direction);
    } else {
      assert Moved(0, MoveTop(s, direction), direction) == MoveTop(s, direction);
    }
  }

  /** An unforced request applies min(n, available) transactions unless a conflict stops it earlier. */
  lemma {:induction false} RequestCount(n: nat, s: State, direction: Direction)
    ensures var outcome := ApplyUpTo(n, s, false, direction).1;
            && |outcome.applied| <= Min(n, |s.Source(direction)|)
            && (outcome.conflict.None? <==> |outcome.applied| == Min(n, |s.Source(direction)|))
    decreases n
  {
    if n != 0 && s.Source(direction) != [] && Clean(s, direction) {
      RequestCount(n - 1, MoveTop(s, direction), direction);
    }
  }

  /** What it applied is a clean run from the top of the stack, and nothing else was touched. */
  lemma {:induction false} RequestEffect(n: nat, s: State, direction: Direction)
    ensures var k := |ApplyUpTo(n, s, false, direction).1.applied|;
            CleanFor(k, s, direction) && ApplyUpTo(n, s, false, direction).0 == Moved(k, s, direction)
    decreases n
  {
    if n != 0 && s.Source(direction) != [] && Clean(s, direction) {
      RequestEffect(n - 1, MoveTop(s, direction), direction);
    }
  }

  /** The transaction that stopped a request is still on top of its stack, reported with exactly its
      mismatching files; it wrote nothing, and the ones applied before it stay applied. */
  lemma {:induction false} ConflictEffect(n: nat, s: State, direction: Direction)
    requires ApplyUpTo(n, s, false, direction).1.conflict.Some?
    ensures var (s', outcome) := ApplyUpTo(n, s, false, direction);
            && s' == Moved(|outcome.applied|, s, direction)
            && s'.Source(direction) != [] && !Clean(s', direction)
            && outcome.conflict.value == Conflict(s'.Top(direction).id, s'.Top(direction).description,
                                                  ConflictsOf(s'.files, s'.Top(direction).files, direction))
    decreases n
  {
    if Clean(s, direction) {
      ConflictEffect(n - 1, MoveTop(s, direction), direction);
    }
  }

  /** What the report says of an applied transaction. */
  function Reported(t: Transaction, direction: Direction): AppliedTransaction {
    AppliedTransaction(t.id, t.description, AppliedFiles(t.files, direction))
  }

  /** Applied transactions are reported in full, from the top of their stack down. */
  lemma {:induction false} ReportOrder(n: nat, s: State, force: bool, direction: Direction, j: nat)
    requires j < |ApplyUpTo(n, s, force, direction).1.applied|
    ensures j < |s.Source(direction)|
    ensures ApplyUpTo(n, s, force, direction).1.applied[j]
            == Reported(s.Source(direction)[|s.Source(direction)| - 1 - j], direction)
    decreases n
  {
    hide ConflictsOf, WriteAll, AppliedFiles;
    if j > 0 {
      ReportOrder(n - 1, MoveTop(s, direction), force, direction, j - 1);
    }
  }

  /** A request whose first `k` transactions are clean applies all `k`. */
  lemma {:induction false} CleanRequest(k: nat, s: State, direction: Direction)
    requires CleanFor(k, s, direction)
    ensures var (s', outcome) := ApplyUpTo(k, s, false, direction);
            s' == Moved(k, s, direction) && |outcome.applied| == k && outcome.conflict == None
    decreases k
  {
    if k > 0 {
      CleanRequest(k - 1, MoveTop(s, direction), direction);
    }
  }

  /** Going back `k` steps after going `k` clean steps. */
  lemma {:induction false} MovedBack(k: nat, s: State, direction: Direction)
    requires CleanFor(k, s, direction) && TopAgrees(k, s.Source(direction))
    ensures CleanFor(k, Moved(k, s, direction), direction.Opposite())
    ensures Moved(k, Moved(k, s, direction), direction.Opposite()) == s
    decreases k
  {
    hide MoveTop, Clean, RepeatsAgree, TopAgrees;
    if k > 0 {
      var next := MoveTop(s, direction);
      AgreesBelow(k, s, direction);
      MovedBack(k - 1, next, direction);
      MoveBack(s, direction);
      CleanSnoc(k - 1, Moved(k - 1, next, direction), direction.Opposite());
    }
  }

  lemma AgreesBelow(k: nat, s: State, direction: Direction)
    requires 0 < k && s.Source(direction) != []
    ensures var next := MoveTop(s, direction);
            TopAgrees(k, s.Source(direction)) <==>
            RepeatsAgree(s.Top(direction).files) && TopAgrees(k - 1, next.Source(direction))
  {
    hide RepeatsAgree;
    var stack := s.Source(direction);
    var below := MoveTop(s, direction).Source(direction);
    assert below == stack[..|stack| - 1];
    forall i | 0 <= i < |below| ensures below[i] == stack[i] {
    }
  }

  /** Only agreeing transactions can be moved back without conflict. */
  lemma {:induction false} BackAgrees(k: nat, s: State, direction: Direction)
    requires CleanFor(k, s, direction) && CleanFor(k, Moved(k, s, direction), direction.Opposite())
    ensures TopAgrees(k, s.Source(direction))
    decreases k
  {
    hide MoveTop, Clean, RepeatsAgree, TopAgrees;
    if k == 0 {
      NothingToAgree(s.Source(direction));
    } else {
      var next := MoveTop(s, direction);
      var far := Moved(k - 1, next, direction);
      CleanPrefix(k, far, direction.Opposite());
      BackAgrees(k - 1, next, direction);
      MovedBack(k - 1, next, direction);
      MoveBack(s, direction);
      AgreesBelow(k, s, direction);
    }
  }

  lemma NothingToAgree(stack: seq<Transaction>)
    ensures TopAgrees(0, stack)
  {
  }

  /** A clean run of `k` steps is a clean run of `k - 1` steps and one more clean step. */
  lemma {:induction false} CleanPrefix(k: nat, s: State, direction: Direction)
    requires k > 0 && CleanFor(k, s, direction)
    ensures CleanFor(k - 1, s, direction)
    ensures var last := Moved(k - 1, s, direction); last.Source(direction) != [] && Clean(last, direction)
    decreases k
  {
    hide MoveTop, Clean;
    if k > 1 {
      CleanPrefix(k - 1, MoveTop(s, direction), direction);
    }
  }

  lemma {:induction false} RequestAllClean(k: nat, s: State, direction: Direction)
    requires |ApplyUpTo(k, s, false, direction).1.applied| == k
    ensures CleanFor(k, s, direction)
  {
    RequestEffect(k, s, direction);
  }

  /** Undo then redo (and redo then undo) is the identity exactly for agreeing transactions: when an unforced
      request has applied `k` transactions, the opposite request for `k` applies all of them without
      conflict if and only if the snapshots in each of them agree, and then it restores the workspace and
      both stacks. */
  lemma UndoThenRedo(n: nat, s: State, direction: Direction)
    ensures var (s', outcome) := ApplyUpTo(n, s, false, direction);
            var k := |outcome.applied|;
            var (s'', back) := ApplyUpTo(k, s', false, direction.Opposite());
            && (|back.applied| == k <==> TopAgrees(k, s.Source(direction)))
            && (TopAgrees(k, s.Source(direction)) ==> s'' == s && back.conflict == None)
  {
    hide ApplyUpTo, TopAgrees, CleanFor, Moved;
    RequestEffect(n, s, direction);
    var k := |ApplyUpTo(n, s, false, direction).1.applied|;
    var far := Moved(k, s, direction);
    if TopAgrees(k, s.Source(direction)) {
      MovedBack(k, s, direction);
      CleanRequest(k, far, direction.Opposite());
    }
    if |ApplyUpTo(k, far, false, direction.Opposite()).1.applied| == k {
      RequestAllClean(k, far, direction.Opposite());
      BackAgrees(k, s, direction);
    }
  }

  /** A path that none of the next `n` transactions names keeps its content through any request for `n`,
      forced or not. */
  lemma {:induction false} RequestFrame(n: nat, s: State, force: bool, direction: Direction, path: Path)
    requires var source := s.Source(direction);
             forall j :: |source| - n <= j < |source| && 0 <= j ==> !Touches(source[j].files, path)
    ensures Read(ApplyUpTo(n, s, force, direction).0.files, path) == Read(s.files, path)
    decreases n
  {
    hide ConflictsOf, WriteAll, Touches;
    if n != 0 && s.Source(direction) != [] {
      WriteAllFrame(s.files, s.Top(direction).files, direction, path);
      RequestFrame(n - 1, MoveTop(s, direction), force, direction, path);
    }
  }

  /** A forced request never reports a conflict and applies as many transactions as there are. */
  lemma {:induction false} ForcedRequest(n: nat, s: State, direction: Direction)
    ensures ApplyUpTo(n, s, true, direction).0 == Moved(n, s, direction)
    ensures ApplyUpTo(n, s, true, direction).1.conflict == None
    decreases n
  {
    if n != 0 && s.Source(direction) != [] {
      ForcedRequest(n - 1, MoveTop(s, direction), direction);
    }
  }

  lemma {:induction false} ForcedCount(n: nat, s: State, direction: Direction)
    ensures |ApplyUpTo(n, s, true, direction).1.applied| == Min(n, |s.Source(direction)|)
    decreases n
  {
    if n != 0 && s.Source(direction) != [] {
      ForcedCount(n - 1, MoveTop(s, direction), direction);
    }
  }

  // ---------- Linear history over whole runs ----------

  /** `t` records exactly how the workspace went from `a` to `b`. */
  ghost predicate Records(a: Files, t: Transaction, b: Files) {
    && (forall i :: 0 <= i < |t.files| ==>
          Read(a, t.files[i].path) == t.files[i].before && Read(b, t.files[i].path) == t.files[i].after)
    && (forall path :: !Touches(t.files, path) ==> Read(a, path) == Read(b, path))
  }

  /** The steps on an undo stack lead, oldest first, along `line` to its end. */
  ghost predicate LeadsHere(line: seq<Files>, stack: seq<Transaction>)
    decreases stack
  {
    var n := |stack|;
    && |line| == n + 1
    && (n > 0 ==> Records(line[n - 1], stack[n - 1], line[n]) && LeadsHere(line[..n], stack[..n - 1]))
  }

  /** The steps on a redo stack lead, top first, along `line` from its start. */
  ghost predicate LeadsOn(line: seq<Files>, stack: seq<Transaction>)
    decreases stack
  {
    var n := |stack|;
    && |line| == n + 1
    && (n > 0 ==> Records(line[0], stack[n - 1], line[1]) && LeadsOn(line[1..], stack[..n - 1]))
  }

  /** `line` is one linear history S0..Sm: the workspace is the state at the boundary between the
      stacks, the undo stack holds the steps that led to it and the redo stack, read downwards, the
      steps that lead on from it. */
  ghost predicate Linear(line: seq<Files>, s: State) {
    var i := |s.undo|;
    && |line| == i + |s.redo| + 1
    && line[i] == s.files
    && LeadsHere(line[..i + 1], s.undo)
    && LeadsOn(line[i..], s.redo)
  }

  /** Step by step: every transaction on either stack records the move between two neighbours. */
  lemma {:induction false} LeadsHereAt(line: seq<Files>, stack: seq<Transaction>, k: nat)
    requires LeadsHere(line, stack) && k < |stack|
    ensures Records(line[k], stack[k], line[k + 1])
    decreases stack
  {
    var n := |stack|;
    if k < n - 1 {
      LeadsHereAt(line[..n], stack[..n - 1], k);
    }
  }

  lemma {:induction false} LeadsOnAt(line: seq<Files>, stack: seq<Transaction>, k: nat)
    requires LeadsOn(line, stack) && k < |stack|
    ensures Records(line[k], stack[|stack| - 1 - k], line[k + 1])
    decreases stack
  {
    if k > 0 {
      LeadsOnAt(line[1..], stack[..|stack| - 1], k - 1);
    }
  }

  /** Forgetting the oldest steps shortens the line. */
  lemma {:induction false} LeadsHereDrop(line: seq<Files>, stack: seq<Transaction>, d: nat)
    requires LeadsHere(line, stack) && d <= |stack|
    ensures LeadsHere(line[d..], stack[d..])
    decreases stack
  {
    var n := |stack|;
    if d < n {
      LeadsHereDrop(line[..n], stack[..n - 1], d);
      assert line[..n][d..] == line[d..][..n - d];
      assert stack[..n - 1][d..] == stack[d..][..n - d - 1];
    }
  }

  lemma RecordsApply(a: Files, t: Transaction, b: Files)
    requires Records(a, t, b)
    ensures ConflictsOf(b, t.files, Undo) == [] && WriteAll(b, t.files, Undo) == a
    ensures ConflictsOf(a, t.files, Redo) == [] && WriteAll(a, t.files, Redo) == b
  {
    NoConflictIff(b, t.files, Undo);
    NoConflictIff(a, t.files, Redo);
    forall path
      ensures Read(WriteAll(b, t.files, Undo), path) == Read(a, path)
      ensures Read(WriteAll(a, t.files, Redo), path) == Read(b, path)
    {
      if Touches(t.files, path) {
        var i :| 0 <= i < |t.files| && t.files[i].path == path;
        WriteAllAgreeing(b, t.files, Undo, i);
        WriteAllAgreeing(a, t.files, Redo, i);
      } else {
        WriteAllFrame(b, t.files, Undo, path);
        WriteAllFrame(a, t.files, Redo, path);
      }
    }
    SameFiles(WriteAll(b, t.files, Undo), a);
    SameFiles(WriteAll(a, t.files, Redo), b);
  }

  lemma SameReads(a: Files, b: Files)
    ensures a == b <==> forall path :: Read(a, path) == Read(b, path)
  {
    if forall path :: Read(a, path) == Read(b, path) {
      SameFiles(a, b);
    }
  }

  /** Undoing a step after the workspace has moved on from its end without a commit. */
  lemma UndoElsewhere(s: State, previous: Files, after: Files)
    requires s.undo != [] && Records(previous, s.Top(Undo), s.files)
    ensures var (s', outcome) := ApplyUpTo(1, s.(files := after), false, Undo);
            && (outcome.conflict == None <==>
                forall path :: Touches(s.Top(Undo).files, path) ==> Read(after, path) == Read(s.files, path))
            && (outcome.conflict == None && s'.files == previous <==>
                forall path :: Read(after, path) == Read(s.files, path))
  {
    hide ConflictsOf, WriteAll;
    var start, t := s.(files := after), s.Top(Undo);
    assert start.Top(Undo) == t;
    NoConflictIff(after, t.files, Undo);
    assert ApplyUpTo(0, MoveTop(start, Undo), false, Undo) == (MoveTop(start, Undo), Outcome([], None));
    if ConflictsOf(after, t.files, Undo) == [] {
      forall path | Touches(t.files, path) ensures Read(after, path) == Read(s.files, path) {
        var i :| 0 <= i < |t.files| && t.files[i].path == path;
      }
      forall path | !Touches(t.files, path) ensures Read(WriteAll(after, t.files, Undo), path) == Read(after, path) {
        WriteAllFrame(after, t.files, Undo, path);
      }
    } else {
      var i :| 0 <= i < |t.files| && Read(after, t.files[i].path) != ExpectedBefore(t.files[i], Undo);
      assert Touches(t.files, t.files[i].path);
    }
    if forall path :: Read(after, path) == Read(s.files, path) {
      SameFiles(after, s.files);
      RecordsApply(previous, t, s.files);
    }
  }

  lemma LinearUndo(line: seq<Files>, s: State)
    requires Linear(line, s) && s.undo != []
    ensures Clean(s, Undo) && Linear(line, MoveTop(s, Undo))
  {
    var i := |s.undo|;
    var t := s.undo[i - 1];
    RecordsApply(line[i - 1], t, line[i]);
    assert line[..i + 1][..i] == line[..i];
    assert line[i - 1..][1..] == line[i..];
    assert (s.redo + [t])[..|s.redo|] == s.redo;
  }

  lemma LinearRedo(line: seq<Files>, s: State)
    requires Linear(line, s) && s.redo != []
    ensures Clean(s, Redo) && Linear(line, MoveTop(s, Redo))
  {
    var i := |s.undo|;
    var t := s.redo[|s.redo| - 1];
    RecordsApply(line[i], t, line[i + 1]);
    assert line[..i + 2][..i + 1] == line[..i + 1];
    assert line[i..][1..] == line[i + 1..];
    assert (s.undo + [t])[..i] == s.undo;
  }

  lemma LinearStep(line: seq<Files>, s: State, direction: Direction)
    requires Linear(line, s) && s.Source(direction) != []
    ensures Clean(s, direction) && Linear(line, MoveTop(s, direction))
    ensures |MoveTop(s, direction).Source(direction)| == |s.Source(direction)| - 1
  {
    if direction.Undo? {
      LinearUndo(line, s);
    } else {
      LinearRedo(line, s);
    }
  }

  lemma {:induction false} LinearMoved(line: seq<Files>, s: State, k: nat, direction: Direction)
    requires Linear(line, s) && k <= |s.Source(direction)|
    ensures Linear(line, Moved(k, s, direction)) && CleanFor(k, s, direction)
    decreases k
  {
    hide Linear, MoveTop, Clean;
    if k > 0 {
      LinearStep(line, s, direction);
      LinearMoved(line, MoveTop(s, direction), k - 1, direction);
    }
  }

  /** On a linear history, `undo(n)`/`redo(n)` apply exactly min(n, count) transactions without
      conflict, and leave the workspace that many places back or forward on the same line. */
  lemma LinearRequest(line: seq<Files>, s: State, n: nat, direction: Direction)
    requires Linear(line, s)
    ensures var (s', outcome) := ApplyUpTo(n, s, false, direction);
            var k := Min(n, |s.Source(direction)|);
            && outcome.conflict == None && |outcome.applied| == k
            && Linear(line, s')
            && s'.files == line[if direction.Undo? then |s.undo| - k else |s.undo| + k]
            && |s'.undo| + |s'.redo| == |s.undo| + |s.redo|
  {
    var k := Min(n, |s.Source(direction)|);
    LinearMoved(line, s, k, direction);
    MovedShape(k, s, direction);
    CleanRequest(k, s, direction);
    CountAsked(n, s, direction);
  }

  /** The place on the line of the step that the j-th reported transaction records. */
  function Position(s: State, direction: Direction, j: nat): int {
    if direction.Undo? then |s.undo| - 1 - j else |s.undo| + j
  }

  /** The report lists its steps in the order they happened. */
  ghost predicate OldestFirst(s: State, n: nat, direction: Direction) {
    forall i, j :: 0 <= i < j < |ApplyUpTo(n, s, false, direction).1.applied| ==>
      Position(s, direction, i) < Position(s, direction, j)
  }

  /** The j-th reported transaction is the step at its place on the line. */
  ghost predicate Placed(line: seq<Files>, s: State, n: nat, direction: Direction, j: nat) {
    var p, applied := Position(s, direction, j), ApplyUpTo(n, s, false, direction).1.applied;
    && j < |s.Source(direction)| && j < |applied| && 0 <= p < |line| - 1
    && var t := s.Source(direction)[|s.Source(direction)| - 1 - j];
       Records(line[p], t, line[p + 1]) && applied[j] == Reported(t, direction)
  }

  /** On a linear history every reported transaction is the step at its place on the line, so the report
      is oldest first for every redo, and for an undo only when it asks for, or finds, at most one. */
  lemma ReportPlaces(line: seq<Files>, s: State, n: nat, direction: Direction)
    requires Linear(line, s)
    ensures forall j :: 0 <= j < |ApplyUpTo(n, s, false, direction).1.applied| ==> Placed(line, s, n, direction, j)
    ensures OldestFirst(s, n, direction) <==> direction.Redo? || Min(n, |s.undo|) <= 1
  {
    hide ApplyUpTo, Records, LeadsHere, LeadsOn, Reported;
    var i := |s.undo|;
    var applied := ApplyUpTo(n, s, false, direction).1.applied;
    LinearRequest(line, s, n, direction);
    forall j | 0 <= j < |applied| ensures Placed(line, s, n, direction, j) {
      ReportOrder(n, s, false, direction, j);
      if direction.Undo? {
        LeadsHereAt(line[..i + 1], s.undo, i - 1 - j);
      } else {
        LeadsOnAt(line[i..], s.redo, j);
      }
    }
    if direction.Undo? && |applied| > 1 {
      assert Position(s, direction, 0) > Position(s, direction, 1);
    }
  }

  /** Asking for more than there is asks for everything. */
  lemma {:induction false} CountAsked(n: nat, s: State, direction: Direction)
    ensures ApplyUpTo(n, s, false, direction) == ApplyUpTo(Min(n, |s.Source(direction)|), s, false, direction)
    decreases n
  {
    if n != 0 && s.Source(direction) != [] {
      CountAsked(n - 1, MoveTop(s, direction), direction);
    }
  }

  /** What can happen to a store and its workspace: an agent run edits files and is committed as one
      transaction, or the user asks for an unforced undo or redo. */
  datatype Event =
    | Committed(transaction: Transaction, files: Files)
    | Undone(n: nat)
    | Redone(n: nat)

  function AfterEvent(s: State, event: Event, maxEntries: nat): State {
    match event
    case Committed(t, files) => State(Capped(s.undo + [t], maxEntries), [], files)
    case Undone(n) => ApplyUpTo(n, s, false, Undo).0
    case Redone(n) => ApplyUpTo(n, s, false, Redo).0
  }

  function AfterEvents(s: State, events: seq<Event>, maxEntries: nat): State {
    if events == [] then s
    else AfterEvent(AfterEvents(s, events[..|events| - 1], maxEntries), events[|events| - 1], maxEntries)
  }

  /** Every commit records exactly what its run changed. */
  ghost predicate Accurate(s: State, events: seq<Event>, maxEntries: nat) {
    forall k :: 0 <= k < |events| && events[k].Committed? ==>
      Records(AfterEvents(s, events[..k], maxEntries).files, events[k].transaction, events[k].files)
  }

  lemma LinearCommit(line: seq<Files>, s: State, t: Transaction, files: Files, maxEntries: nat)
    returns (line': seq<Files>)
    requires Linear(line, s) && Records(s.files, t, files)
    ensures Linear(line', AfterEvent(s, Committed(t, files), maxEntries))
  {
    hide Linear, LeadsHere, Records;
    var whole := LinePushed(line, s, t, files);
    var stack := s.undo + [t];
    var drop := if |stack| > maxEntries then |stack| - maxEntries else 0;
    LeadsHereDrop(whole, stack, drop);
    line' := whole[drop..];
    CommitLine(line', stack[drop..], files);
  }

  /** The line up to the workspace, and the state the committed run left. */
  lemma LinePushed(line: seq<Files>, s: State, t: Transaction, files: Files) returns (whole: seq<Files>)
    requires Linear(line, s) && Records(s.files, t, files)
    ensures LeadsHere(whole, s.undo + [t]) && |whole| == |s.undo| + 2 && whole[|s.undo| + 1] == files
  {
    hide Records;
    var i := |s.undo|;
    whole := line[..i + 1] + [files];
    var stack := s.undo + [t];
    assert whole[..i + 1] == line[..i + 1] && stack[..i] == s.undo;
  }

  lemma CommitLine(line: seq<Files>, stack: seq<Transaction>, files: Files)
    requires LeadsHere(line, stack) && line[|stack|] == files
    ensures Linear(line, State(stack, [], files))
  {
    assert line[..|stack| + 1] == line && line[|stack|..] == [files];
  }

  /** Linear history, for every run: after any sequence of accurate commits, unforced undos and
      unforced redos, the two stacks and the workspace still form one line of states, and the stacks
      together never hold more than `maxEntries` transactions. */
  lemma {:induction false} LinearHistory(files: Files, events: seq<Event>, maxEntries: nat) returns (line: seq<Files>)
    requires Accurate(State([], [], files), events, maxEntries)
    ensures var s := AfterEvents(State([], [], files), events, maxEntries);
            Linear(line, s) && |s.undo| + |s.redo| <= maxEntries
    decreases |events|
  {
    var empty := State([], [], files);
    if events == [] {
      line := [files];
    } else {
      var front, event := events[..|events| - 1], events[|events| - 1];
      assert forall k :: 0 <= k < |front| ==> front[..k] == events[..k];
      line := LinearHistory(files, front, maxEntries);
      var s := AfterEvents(empty, front, maxEntries);
      match event
      case Committed(t, files') =>
        assert events[..|front|] == front;
        line := LinearCommit(line, s, t, files', maxEntries);
      case Undone(n) => LinearRequest(line, s, n, Undo);
      case Redone(n) => LinearRequest(line, s, n, Redo);
    }
  }

  /** After any accurate run, asking for `n` undos and then the same number of redos returns to the
      present, and neither request can conflict. */
  lemma NeverConflicts(files: Files, events: seq<Event>, maxEntries: nat, n: nat, direction: Direction)
    requires Accurate(State([], [], files), events, maxEntries)
    ensures var s := AfterEvents(State([], [], files), events, maxEntries);
            var (s', outcome) := ApplyUpTo(n, s, false, direction);
            && outcome.conflict == None && |outcome.applied| == Min(n, |s.Source(direction)|)
            && ApplyUpTo(|outcome.applied|, s', false, direction.Opposite()).0 == s
  {
    var s := AfterEvents(State([], [], files), events, maxEntries);
    var line := LinearHistory(files, events, maxEntries);
    LinearRequest(line, s, n, direction);
    LinearAgrees(line, s, direction);
    UndoThenRedo(n, s, direction);
  }

  const FIRST := Transaction("t", 0, "", [FileSnapshot("a", None, Some("1"))])
  const SECOND := Transaction("u", 1, "", [FileSnapshot("b", None, Some("2"))])
  const TWO_COMMITS := [Committed(FIRST, map["a" := "1"]), Committed(SECOND, map["a" := "1", "b" := "2"])]

  lemma TwoCommits()
    ensures Accurate(State([], [], map[]), TWO_COMMITS, 50)
    ensures AfterEvents(State([], [], map[]), TWO_COMMITS, 50) ==
            State([FIRST, SECOND], [], map["a" := "1", "b" := "2"])
  {
    var start, first := State([], [], map[]), TWO_COMMITS[..1];
    assert first[..0] == [] && AfterEvents(start, first, 50) == State([FIRST], [], map["a" := "1"]);
    assert Touches(FIRST.files, "a") by { assert FIRST.files[0].path == "a"; }
    assert Touches(SECOND.files, "b") by { assert SECOND.files[0].path == "b"; }
    assert Records(map[], FIRST, map["a" := "1"]);
    assert Records(map["a" := "1"], SECOND, map["a" := "1", "b" := "2"]);
  }

  /** A reachable report that is not oldest first: two commits, both undone in one request. */
  lemma NewestFirst()
    ensures var s := AfterEvents(State([], [], map[]), TWO_COMMITS, 50);
            && Accurate(State([], [], map[]), TWO_COMMITS, 50)
            && ApplyUpTo(2, s, false, Undo).1.applied == [Reported(SECOND, Undo), Reported(FIRST, Undo)]
            && !OldestFirst(s, 2, Undo)
  {
    hide ApplyUpTo, Linear, Reported, OldestFirst, Accurate, AfterEvents;
    var s := AfterEvents(State([], [], map[]), TWO_COMMITS, 50);
    TwoCommits();
    var line := LinearHistory(map[], TWO_COMMITS, 50);
    LinearRequest(line, s, 2, Undo);
    ReportPlaces(line, s, 2, Undo);
    ReportOrder(2, s, false, Undo, 0);
    ReportOrder(2, s, false, Undo, 1);
  }

  lemma LinearAgrees(line: seq<Files>, s: State, direction: Direction)
    requires Linear(line, s)
    ensures forall t :: t in s.Source(direction) ==> RepeatsAgree(t.files)
  {
    hide RepeatsAgree, Records;
    forall t | t in s.Source(direction) ensures RepeatsAgree(t.files) {
      var k :| 0 <= k < |s.Source(direction)| && s.Source(direction)[k] == t;
      if direction.Undo? {
        LeadsHereAt(line[..|s.undo| + 1], s.undo, k);
        RecordsAgree(line[k], t, line[k + 1]);
      } else {
        var p := |s.redo| - 1 - k;
        LeadsOnAt(line[|s.undo|..], s.redo, p);
        RecordsAgree(line[|s.undo|..][p], t, line[|s.undo|..][p + 1]);
      }
    }
  }

  lemma RecordsAgree(a: Files, t: Transaction, b: Files)
    requires Records(a, t, b)
    ensures RepeatsAgree(t.files)
  {
  }
}
