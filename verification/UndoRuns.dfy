/** One agent run's file changes collected into one undo transaction, as the event bridge collects them:
    one snapshot per change that a tool call reports, read before and after the whole call. A path can
    occur several times, in one call or in several. */
module UndoRuns {
  import opened Prelude
  import opened UndoHistory
  import opened UndoTheorems

  /** One tool call: the paths its arguments name, the paths of the changes it reports, in order, and the
      workspace it leaves. */
  datatype Call = Call(named: seq<Path>, reported: seq<Path>, after: Files)

  function FilesAfter(files: Files, calls: seq<Call>): Files {
    if calls == [] then files else calls[|calls| - 1].after
  }

  /** The snapshot of one reported change. What was not read before the call counts as absent. */
  function SnapshotOf(before: Files, call: Call, path: Path): FileSnapshot {
    FileSnapshot(path, if path in call.named then Read(before, path) else None, Read(call.after, path))
  }

  function SnapshotsOf(before: Files, call: Call): seq<FileSnapshot> {
    seq(|call.reported|, i requires 0 <= i < |call.reported| => SnapshotOf(before, call, call.reported[i]))
  }

  /** The snapshots of a run, in the order they are sent. */
  function Collected(files: Files, calls: seq<Call>): seq<FileSnapshot> {
    if calls == [] then []
    else
      var front := calls[..|calls| - 1];
      Collected(files, front) + SnapshotsOf(FilesAfter(files, front), calls[|calls| - 1])
  }

  /** The collecting loops: before each call the paths it names are read, and after it every reported
      change is read again and its snapshot appended. */
  method CollectRun(workspace: Workspace, calls: seq<Call>) returns (snapshots: seq<FileSnapshot>)
    modifies workspace
    ensures workspace.files == FilesAfter(old(workspace.files), calls)
    ensures snapshots == Collected(old(workspace.files), calls)
  {
    snapshots := [];
    for i := 0 to |calls|
      invariant workspace.files == FilesAfter(old(workspace.files), calls[..i])
      invariant snapshots == Collected(old(workspace.files), calls[..i])
    {
      assert calls[..i + 1][..i] == calls[..i];
      snapshots := CollectCall(workspace, calls[i], snapshots);
    }
    assert calls[..|calls|] == calls;
  }

  method CollectCall(workspace: Workspace, call: Call, collected: seq<FileSnapshot>)
    returns (snapshots: seq<FileSnapshot>)
    modifies workspace
    ensures workspace.files == call.after
    ensures snapshots == collected + SnapshotsOf(old(workspace.files), call)
  {
    var before: map<Path, Option<Content>> := map[];
    for i := 0 to |call.named|
      invariant workspace.files == old(workspace.files)
      invariant forall path :: path in before <==> path in call.named[..i]
      invariant forall path :: path in before ==> before[path] == Read(old(workspace.files), path)
    {
      before := before[call.named[i] := Read(workspace.files, call.named[i])];
      assert call.named[..i + 1] == call.named[..i] + [call.named[i]];
    }
    assert call.named[..|call.named|] == call.named;
    workspace.files := call.after;
    snapshots := collected;
    ghost var all := SnapshotsOf(old(workspace.files), call);
    for i := 0 to |call.reported|
      invariant workspace.files == call.after && snapshots == collected + all[..i]
    {
      var path := call.reported[i];
      var was := if path in before then before[path] else None;
      snapshots := snapshots + [FileSnapshot(path, was, Read(workspace.files, path))];
      assert all[..i + 1] == all[..i] + [all[i]];
    }
    assert all[..|call.reported|] == all;
  }

  // ---------- What the snapshots say ----------

  /** Every call reports each path it changed, and reports only paths its arguments name. */
  ghost predicate Reports(files: Files, calls: seq<Call>) {
    calls == [] ||
    (var front, call := calls[..|calls| - 1], calls[|calls| - 1];
     && Reports(files, front)
     && (forall path :: path in call.reported ==> path in call.named)
     && (forall path :: path !in call.reported ==> Read(FilesAfter(files, front), path) == Read(call.after, path)))
  }

  lemma {:induction false} CollectedSnoc(files: Files, calls: seq<Call>, i: nat)
    requires calls != [] && Reports(files, calls) && i < |Collected(files, calls)|
    ensures var front, all := calls[..|calls| - 1], Collected(files, calls);
            var s, n := all[i], |Collected(files, front)|;
            && (i < n ==> s == Collected(files, front)[i])
            && (i >= n ==> s.path in calls[|calls| - 1].reported
                           && s.before == Read(FilesAfter(files, front), s.path)
                           && s.after == Read(FilesAfter(files, calls), s.path))
  {
  }

  lemma TouchesConcat(a: seq<FileSnapshot>, b: seq<FileSnapshot>, path: Path)
    ensures Touches(a + b, path) <==> Touches(a, path) || Touches(b, path)
  {
    if i :| 0 <= i < |a| && a[i].path == path {
      assert (a + b)[i].path == path;
    }
    if i :| 0 <= i < |b| && b[i].path == path {
      assert (a + b)[|a| + i].path == path;
    }
  }

  lemma CallTouches(before: Files, call: Call, path: Path)
    ensures Touches(SnapshotsOf(before, call), path) <==> path in call.reported
  {
    var snapshots := SnapshotsOf(before, call);
    if i :| 0 <= i < |call.reported| && call.reported[i] == path {
      assert snapshots[i].path == path;
    }
  }

  lemma ReportedTouches(files: Files, calls: seq<Call>, path: Path)
    requires calls != []
    ensures Touches(Collected(files, calls), path) <==>
            Touches(Collected(files, calls[..|calls| - 1]), path) || path in calls[|calls| - 1].reported
  {
    hide Touches, SnapshotsOf;
    var front, call := calls[..|calls| - 1], calls[|calls| - 1];
    TouchesConcat(Collected(files, front), SnapshotsOf(FilesAfter(files, front), call), path);
    CallTouches(FilesAfter(files, front), call, path);
  }

  /** A path no call reported is as the run found it. */
  lemma {:induction false} Unreported(files: Files, calls: seq<Call>, path: Path)
    requires Reports(files, calls) && !Touches(Collected(files, calls), path)
    ensures Read(FilesAfter(files, calls), path) == Read(files, path)
  {
    if calls != [] {
      ReportedTouches(files, calls, path);
      Unreported(files, calls[..|calls| - 1], path);
    }
  }

  /** A path is as its last snapshot says. */
  lemma {:induction false} LastAfter(files: Files, calls: seq<Call>, i: nat)
    requires Reports(files, calls) && i < |Collected(files, calls)|
    requires forall j :: i < j < |Collected(files, calls)| ==>
             Collected(files, calls)[j].path != Collected(files, calls)[i].path
    ensures Collected(files, calls)[i].after == Read(FilesAfter(files, calls), Collected(files, calls)[i].path)
  {
    var front, call, all := calls[..|calls| - 1], calls[|calls| - 1], Collected(files, calls);
    var earlier, path := Collected(files, front), all[i].path;
    CollectedSnoc(files, calls, i);
    if i < |earlier| {
      forall k | 0 <= k < |call.reported| ensures call.reported[k] != path {
        assert all[|earlier| + k].path == call.reported[k];
      }
      forall j | i < j < |earlier| ensures earlier[j].path != path {
        assert all[j] == earlier[j];
      }
      LastAfter(files, front, i);
    }
  }

  /** A snapshot starts from what the run found, or from what an earlier snapshot of its path left. */
  lemma {:induction false} BeforeLinks(files: Files, calls: seq<Call>, i: nat)
    requires Reports(files, calls) && i < |Collected(files, calls)|
    ensures var all := Collected(files, calls);
            all[i].before == Read(files, all[i].path)
            || exists l :: 0 <= l < i && all[l].path == all[i].path && all[i].before == all[l].after
  {
    var front, all := calls[..|calls| - 1], Collected(files, calls);
    var earlier, path := Collected(files, front), all[i].path;
    CollectedSnoc(files, calls, i);
    if i < |earlier| {
      BeforeLinks(files, front, i);
      if all[i].before != Read(files, path) {
        var l :| 0 <= l < i && earlier[l].path == path && all[i].before == earlier[l].after;
        assert all[l] == earlier[l];
      }
    } else if Touches(earlier, path) {
      var l := LastTouch(earlier, path);
      LastAfter(files, front, l);
      assert all[l] == earlier[l];
    } else {
      Unreported(files, front, path);
    }
  }

  /** Of two snapshots of a path, the later starts where the earlier does, if they come from one call, or
      from what an earlier snapshot left. */
  lemma {:induction false} PairLinks(files: Files, calls: seq<Call>, i: nat, j: nat)
    requires Reports(files, calls) && i < j < |Collected(files, calls)|
    requires Collected(files, calls)[i].path == Collected(files, calls)[j].path
    ensures var all := Collected(files, calls);
            all[j].before == all[i].before
            || exists l :: 0 <= l < j && all[l].path == all[j].path && all[j].before == all[l].after
  {
    var front, all := calls[..|calls| - 1], Collected(files, calls);
    var earlier, path := Collected(files, front), all[i].path;
    CollectedSnoc(files, calls, i);
    CollectedSnoc(files, calls, j);
    if j < |earlier| {
      PairLinks(files, front, i, j);
      if all[j].before != all[i].before {
        var l :| 0 <= l < j && earlier[l].path == path && all[j].before == earlier[l].after;
        assert all[l] == earlier[l];
      }
    } else if i < |earlier| {
      assert earlier[i].path == path;
      var l := LastTouch(earlier, path);
      LastAfter(files, front, l);
      assert all[l] == earlier[l];
    }
  }

  // ---------- Undoing a run ----------

  ghost predicate AftersAgree(snapshots: seq<FileSnapshot>) {
    forall i, j :: 0 <= i < |snapshots| && 0 <= j < |snapshots| && snapshots[i].path == snapshots[j].path ==>
      snapshots[i].after == snapshots[j].after
  }

  /** The run's transaction is free of conflicts with the workspace it has just produced exactly when all
      snapshots of one path end with the same content. */
  lemma FreshRunConflicts(files: Files, calls: seq<Call>)
    requires Reports(files, calls)
    ensures ConflictsOf(FilesAfter(files, calls), Collected(files, calls), Undo) == [] <==>
            AftersAgree(Collected(files, calls))
  {
    hide ConflictsOf, FilesAfter, Collected, Reports;
    var end, all := FilesAfter(files, calls), Collected(files, calls);
    NoConflictIff(end, all, Undo);
    forall i | 0 <= i < |all|
      ensures exists k :: 0 <= k < |all| && all[k].path == all[i].path && all[k].after == Read(end, all[i].path)
    {
      assert all[i].path == all[i].path;
      var k := LastTouch(all, all[i].path);
      LastAfter(files, calls, k);
    }
  }

  /** If all snapshots of one path are equal, undo restores what the run found. */
  lemma RunUndoRestores(files: Files, calls: seq<Call>)
    requires Reports(files, calls) && RepeatsAgree(Collected(files, calls))
    ensures ConflictsOf(FilesAfter(files, calls), Collected(files, calls), Undo) == []
    ensures WriteAll(FilesAfter(files, calls), Collected(files, calls), Undo) == files
  {
    hide ConflictsOf, FilesAfter, Collected, Reports, WriteAll;
    var end, all := FilesAfter(files, calls), Collected(files, calls);
    FreshRunConflicts(files, calls);
    var back := WriteAll(end, all, Undo);
    forall path ensures Read(back, path) == Read(files, path) {
      if Touches(all, path) {
        var i := LastTouch(all, path);
        WriteAllReads(end, all, Undo, i);
        FirstBefore(files, calls, i);
      } else {
        WriteAllFrame(end, all, Undo, path);
        Unreported(files, calls, path);
      }
    }
    SameFiles(back, files);
  }

  lemma {:induction false} FirstBefore(files: Files, calls: seq<Call>, i: nat)
    requires Reports(files, calls) && RepeatsAgree(Collected(files, calls)) && i < |Collected(files, calls)|
    ensures Collected(files, calls)[i].before == Read(files, Collected(files, calls)[i].path)
    decreases i
  {
    hide Collected, Reports;
    var all := Collected(files, calls);
    if k :| 0 <= k < i && all[k].path == all[i].path {
      FirstBefore(files, calls, k);
    } else {
      BeforeLinks(files, calls, i);
    }
  }

  /** And only then: if undo right after the run applies without force and restores the workspace, all
      snapshots of one path are equal. */
  lemma RunUndoRestoresOnly(files: Files, calls: seq<Call>)
    requires Reports(files, calls)
    requires ConflictsOf(FilesAfter(files, calls), Collected(files, calls), Undo) == []
    requires WriteAll(FilesAfter(files, calls), Collected(files, calls), Undo) == files
    ensures RepeatsAgree(Collected(files, calls))
  {
    hide ConflictsOf, FilesAfter, Collected, Reports, WriteAll;
    var all := Collected(files, calls);
    FreshRunConflicts(files, calls);
    forall i | 0 <= i < |all| ensures all[i].before == Read(files, all[i].path) {
      assert all[i].path == all[i].path;
      var last := LastTouch(all, all[i].path);
      WriteAllReads(FilesAfter(files, calls), all, Undo, last);
      BeforeLinks(files, calls, i);
      if i < last {
        PairLinks(files, calls, i, last);
      }
    }
  }

  // ---------- Whole runs ----------

  /** One agent run. It has ended when it was completed or cancelled; a provider error ends it without that
      event. */
  datatype Run = Run(id: string, createdAt: int, description: string, calls: seq<Call>, ended: bool)

  function TransactionOf(files: Files, run: Run): Transaction {
    Transaction(run.id, run.createdAt, run.description, Collected(files, run.calls))
  }

  /** A run is committed when it has ended and some change was reported. */
  predicate Commits(files: Files, run: Run) {
    run.ended && Collected(files, run.calls) != []
  }

  /** What a run leaves: the workspace of its last call, and both stacks as they were unless it is committed. */
  function AfterRun(s: State, run: Run, maxEntries: nat): State {
    var files := FilesAfter(s.files, run.calls);
    if Commits(s.files, run) then AfterEvent(s, Committed(TransactionOf(s.files, run), files), maxEntries)
    else s.(files := files)
  }

  /** The event bridge for one run: collect the snapshots, and commit them at the end if there are any. */
  method RecordRun(store: UndoStore, workspace: Workspace, run: Run)
    modifies store, workspace
    ensures store.maxEntries == old(store.maxEntries)
    ensures store.Snapshot(workspace) == AfterRun(old(store.Snapshot(workspace)), run, store.maxEntries)
  {
    hide Collected, FilesAfter;
    var snapshots := CollectRun(workspace, run.calls);
    if run.ended && snapshots != [] {
      store.Commit(Transaction(run.id, run.createdAt, run.description, snapshots));
    }
  }

  lemma {:induction false} NothingCollected(files: Files, calls: seq<Call>)
    ensures Collected(files, calls) == [] <==> forall k :: 0 <= k < |calls| ==> calls[k].reported == []
  {
    if calls != [] {
      var front, last := calls[..|calls| - 1], calls[|calls| - 1];
      NothingCollected(files, front);
      assert SnapshotsOf(FilesAfter(files, front), last) == [] <==> last.reported == [];
      assert forall k :: 0 <= k < |front| ==> front[k] == calls[k];
    }
  }

  /** Which runs are committed: one that was completed or cancelled and reported some change leaves one transaction
      more, with its description and snapshots, and nothing to redo; any other leaves both stacks as they were. */
  lemma RunCommits(s: State, run: Run, maxEntries: nat)
    ensures var s' := AfterRun(s, run, maxEntries);
            && s'.files == FilesAfter(s.files, run.calls)
            && if run.ended && exists k :: 0 <= k < |run.calls| && run.calls[k].reported != [] then
                 && s'.redo == [] && |s'.undo| == Min(|s.undo| + 1, maxEntries)
                 && (maxEntries > 0 ==>
                       s'.Top(Undo) ==
                       Transaction(run.id, run.createdAt, run.description, Collected(s.files, run.calls)))
               else s'.undo == s.undo && s'.redo == s.redo
  {
    hide Collected, FilesAfter;
    NothingCollected(s.files, run.calls);
  }

  /** A change that a call reports without naming it: its snapshot says that the file was missing, so undoing the
      call removes it, whatever was there before. */
  lemma UnnamedIsRemoved(files: Files, call: Call, path: Path)
    requires path in call.reported && path !in call.named
    ensures var snapshots := SnapshotsOf(files, call);
            && ConflictsOf(call.after, snapshots, Undo) == []
            && Read(WriteAll(call.after, snapshots, Undo), path) == None
  {
    hide ConflictsOf, WriteAll;
    var snapshots := SnapshotsOf(files, call);
    NoConflictIff(call.after, snapshots, Undo);
    var i :| 0 <= i < |call.reported| && call.reported[i] == path;
    WriteAllAgreeing(call.after, snapshots, Undo, i);
  }

  /** The exact condition. Undoing a committed run once, without force, restores the files it found if and
      only if all its snapshots of one path are equal (a store that may keep nothing restores nothing). */
  lemma RunIsUndoable(s: State, run: Run, maxEntries: nat)
    requires Reports(s.files, run.calls) && Commits(s.files, run)
    ensures var (s', outcome) := ApplyUpTo(1, AfterRun(s, run, maxEntries), false, Undo);
            (outcome.conflict == None && s'.files == s.files) <==>
            if maxEntries == 0 then FilesAfter(s.files, run.calls) == s.files
            else RepeatsAgree(Collected(s.files, run.calls))
  {
    hide ConflictsOf, WriteAll, RepeatsAgree, Collected, Reports, FilesAfter;
    var start := AfterRun(s, run, maxEntries);
    var snapshots := Collected(s.files, run.calls);
    if maxEntries > 0 {
      assert start.undo != [] && start.Top(Undo) == TransactionOf(s.files, run);
      if RepeatsAgree(snapshots) {
        RunUndoRestores(s.files, run.calls);
      }
      if ConflictsOf(start.files, snapshots, Undo) == [] && WriteAll(start.files, snapshots, Undo) == s.files {
        RunUndoRestoresOnly(s.files, run.calls);
      }
      assert ApplyUpTo(0, MoveTop(start, Undo), false, Undo) == (MoveTop(start, Undo), Outcome([], None));
    }
  }

  /** A run that reports nothing is no step at all: neither the workspace nor a stack changes, so the next
      undo takes the transaction before it. */
  lemma QuietRun(s: State, run: Run, maxEntries: nat)
    requires Reports(s.files, run.calls) && Collected(s.files, run.calls) == []
    ensures AfterRun(s, run, maxEntries) == s
  {
    hide Collected, Reports, FilesAfter;
    forall path ensures Read(FilesAfter(s.files, run.calls), path) == Read(s.files, path) {
      Unreported(s.files, run.calls, path);
    }
    SameFiles(FilesAfter(s.files, run.calls), s.files);
  }

  /** A run of one call always meets the condition, whatever it reports and however often. */
  lemma OneCallAgrees(files: Files, call: Call)
    ensures RepeatsAgree(Collected(files, [call]))
  {
    var calls: seq<Call> := [call];
    assert |calls[..0]| == 0 && Collected(files, calls[..0]) == [];
    assert Collected(files, calls) == SnapshotsOf(files, call);
  }

  /** A run's transaction records its step of the history exactly when its snapshots of one path agree. */
  lemma RunRecords(files: Files, calls: seq<Call>, t: Transaction)
    requires Reports(files, calls) && t.files == Collected(files, calls)
    ensures Records(files, t, FilesAfter(files, calls)) <==> RepeatsAgree(t.files)
  {
    hide FilesAfter, Collected, Reports, ConflictsOf;
    if RepeatsAgree(t.files) {
      FreshRunConflicts(files, calls);
      NoConflictIff(FilesAfter(files, calls), t.files, Undo);
      forall i | 0 <= i < |t.files| ensures Read(files, t.files[i].path) == t.files[i].before {
        FirstBefore(files, calls, i);
      }
      forall path | !Touches(t.files, path) ensures Read(files, path) == Read(FilesAfter(files, calls), path) {
        Unreported(files, calls, path);
      }
    }
  }

  // ---------- Whole sessions ----------

  datatype SessionEvent = Ran(run: Run) | UndoAsked(n: nat) | RedoAsked(n: nat)

  function AfterStep(s: State, event: SessionEvent, maxEntries: nat): State {
    match event
    case Ran(run) => AfterRun(s, run, maxEntries)
    case UndoAsked(n) => ApplyUpTo(n, s, false, Undo).0
    case RedoAsked(n) => ApplyUpTo(n, s, false, Redo).0
  }

  function AfterSession(s: State, events: seq<SessionEvent>, maxEntries: nat): State {
    if events == [] then s
    else AfterStep(AfterSession(s, events[..|events| - 1], maxEntries), events[|events| - 1], maxEntries)
  }

  /** Every run reports what it changes, has ended, and its snapshots of one path agree. */
  ghost predicate Orderly(s: State, events: seq<SessionEvent>, maxEntries: nat) {
    forall k :: 0 <= k < |events| && events[k].Ran? ==>
      OrderlyRun(AfterSession(s, events[..k], maxEntries).files, events[k].run)
  }

  ghost predicate OrderlyRun(files: Files, run: Run) {
    run.ended && Reports(files, run.calls) && RepeatsAgree(Collected(files, run.calls))
  }

  /** Linear history for whole sessions of real runs: whatever was run, undone and redone, and however much
      was trimmed, stacks and workspace form one line of states. */
  lemma {:induction false} SessionLinear(files: Files, events: seq<SessionEvent>, maxEntries: nat)
    returns (line: seq<Files>)
    requires Orderly(State([], [], files), events, maxEntries)
    ensures Linear(line, AfterSession(State([], [], files), events, maxEntries))
    decreases |events|
  {
    hide OrderlyRun, AfterRun, ApplyUpTo, Linear;
    var empty := State([], [], files);
    if events == [] {
      line := [files];
      LinearStart(files);
    } else {
      var front, event := events[..|events| - 1], events[|events| - 1];
      assert forall k :: 0 <= k < |front| ==> front[..k] == events[..k];
      line := SessionLinear(files, front, maxEntries);
      var s := AfterSession(empty, front, maxEntries);
      match event
      case Ran(run) =>
        assert events[..|front|] == front;
        line := RunLinear(line, s, run, maxEntries);
      case UndoAsked(n) => LinearRequest(line, s, n, Undo);
      case RedoAsked(n) => LinearRequest(line, s, n, Redo);
    }
  }

  lemma LinearStart(files: Files)
    ensures Linear([files], State([], [], files))
  {
  }

  lemma RunLinear(line: seq<Files>, s: State, run: Run, maxEntries: nat) returns (line': seq<Files>)
    requires Linear(line, s) && OrderlyRun(s.files, run)
    ensures Linear(line', AfterRun(s, run, maxEntries))
  {
    hide Linear, Reports, Collected, FilesAfter, RepeatsAgree, Records;
    if Collected(s.files, run.calls) == [] {
      QuietRun(s, run, maxEntries);
      line' := line;
    } else {
      var t := TransactionOf(s.files, run);
      RunRecords(s.files, run.calls, t);
      line' := LinearCommit(line, s, t, FilesAfter(s.files, run.calls), maxEntries);
    }
  }

  /** A concrete run that cannot be undone without force: two calls write one file. */
  lemma TwoWritesConflict()
    ensures var calls := [Call(["a"], ["a"], map["a" := "1"]), Call(["a"], ["a"], map["a" := "2"])];
            Reports(map[], calls) && ConflictsOf(FilesAfter(map[], calls), Collected(map[], calls), Undo) != []
  {
    var calls := [Call(["a"], ["a"], map["a" := "1"]), Call(["a"], ["a"], map["a" := "2"])];
    var front := calls[..1];
    assert front[..0] == [] && calls[..1] == front;
    assert Reports(map[], front[..0]) && Reports(map[], front);
    assert Collected(map[], front) == [FileSnapshot("a", None, Some("1"))];
    var all := Collected(map[], calls);
    assert all == [FileSnapshot("a", None, Some("1")), FileSnapshot("a", Some("1"), Some("2"))];
    assert all[0].path == all[1].path && all[0].after != all[1].after;
    FreshRunConflicts(map[], calls);
  }
}
