/** What commits keep and how far undo reaches, also over sessions of runs, and what the reports and refusals of a
    request say about the workspace. */
module UndoCommits {
  import opened Prelude
  import opened UndoHistory
  import opened UndoTheorems
  import opened UndoFailures
  import opened UndoRuns

  // ---------- What a commit keeps ----------

  /** A commit leaves the newest end of the stack and the new transaction, as long as the cap allows. */
  lemma CommitKeeps(s: State, t: Transaction, files: Files, maxEntries: nat)
    ensures var s', all := AfterEvent(s, Committed(t, files), maxEntries), s.undo + [t];
            && s'.redo == [] && s'.files == files
            && |s'.undo| == Min(|s.undo| + 1, maxEntries)
            && s'.undo == all[|all| - |s'.undo|..]
  {
    var all := s.undo + [t];
    assert all[0..] == all;
  }

  /** The last `k` events are commits. */
  predicate LastCommits(events: seq<Event>, k: nat) {
    k <= |events| && forall i :: |events| - k <= i < |events| ==> events[i].Committed?
  }

  /** The top `d` entries of the stack are the last `d` commits, in order. */
  predicate OnTop(stack: seq<Transaction>, events: seq<Event>, d: nat)
    requires LastCommits(events, d)
  {
    d <= |stack| &&
    forall i :: |events| - d <= i < |events| ==> stack[|stack| - |events| + i] == events[i].transaction
  }

  lemma NoneOnTop(stack: seq<Transaction>, events: seq<Event>)
    ensures OnTop(stack, events, 0)
  {
  }

  lemma PushedOnTop(stack: seq<Transaction>, stack': seq<Transaction>, events: seq<Event>, d: nat, d': nat)
    requires events != [] && events[|events| - 1].Committed?
    requires LastCommits(events[..|events| - 1], d) && OnTop(stack, events[..|events| - 1], d)
    requires |stack'| <= |stack| + 1
    requires stack' == (stack + [events[|events| - 1].transaction])[|stack| + 1 - |stack'|..]
    requires d' <= d + 1 && d' <= |stack'|
    ensures LastCommits(events, d') && OnTop(stack', events, d')
  {
    var front := events[..|events| - 1];
    forall i | |events| - d' <= i < |events|
      ensures events[i].Committed? && stack'[|stack'| - |events| + i] == events[i].transaction
    {
      if i < |front| {
        assert front[i] == events[i];
      }
    }
  }

  /** After `k` commits in a row the stack has grown by `k`, up to the cap, and they are on top of it. */
  lemma {:induction false} CommitsStack(start: State, events: seq<Event>, k: nat, maxEntries: nat)
    requires LastCommits(events, k)
    requires |AfterEvents(start, events[..|events| - k], maxEntries).undo| <= maxEntries
    ensures var before := AfterEvents(start, events[..|events| - k], maxEntries);
            var s := AfterEvents(start, events, maxEntries);
            && |s.undo| == Min(|before.undo| + k, maxEntries)
            && OnTop(s.undo, events, Min(k, maxEntries))
    decreases k
  {
    hide Capped, AfterEvents, AfterEvent, ApplyUpTo, OnTop;
    if k == 0 {
      assert events[..|events|] == events;
      NoneOnTop(AfterEvents(start, events, maxEntries).undo, events);
    } else {
      var front, last := events[..|events| - 1], events[|events| - 1];
      assert front[..|front| - (k - 1)] == events[..|events| - k];
      CommitsStack(start, front, k - 1, maxEntries);
      var s := AfterEvents(start, front, maxEntries);
      CommitKeeps(s, last.transaction, last.files, maxEntries);
      LastEvent(start, events, maxEntries);
      PushedOnTop(s.undo, AfterEvents(start, events, maxEntries).undo, events, Min(k - 1, maxEntries),
                  Min(k, maxEntries));
    }
  }

  lemma LastEvent(start: State, events: seq<Event>, maxEntries: nat)
    requires events != []
    ensures var front, last := events[..|events| - 1], events[|events| - 1];
            AfterEvents(start, events, maxEntries) ==
            AfterEvent(AfterEvents(start, front, maxEntries), last, maxEntries)
  {
    hide AfterEvent;
  }

  /** The stack that requests move from loses its top, one by one. */
  lemma {:induction false} MovedStack(k: nat, s: State)
    requires k <= |s.undo|
    ensures Moved(k, s, Undo).undo == s.undo[..|s.undo| - k]
    decreases k
  {
    hide WriteAll;
    if k > 0 {
      MovedStack(k - 1, MoveTop(s, Undo));
    } else {
      assert s.undo[..|s.undo|] == s.undo;
    }
  }

  /** Undoing `d` of the last commits goes back to the workspace before them. */
  lemma {:induction false} CommitsMoved(start: State, events: seq<Event>, d: nat, maxEntries: nat)
    requires Accurate(start, events, maxEntries) && LastCommits(events, d)
    requires OnTop(AfterEvents(start, events, maxEntries).undo, events, d)
    ensures var s := AfterEvents(start, events, maxEntries);
            && CleanFor(d, s, Undo)
            && Moved(d, s, Undo).files == AfterEvents(start, events[..|events| - d], maxEntries).files
    decreases d
  {
    hide Records, ConflictsOf, WriteAll, Capped, ApplyUpTo, AfterEvents, CleanFor, Moved;
    var s := AfterEvents(start, events, maxEntries);
    if d == 0 {
      assert events[..|events|] == events;
      NothingMoved(s);
    } else {
      CommitsMoved(start, events, d - 1, maxEntries);
      var now, i := Moved(d - 1, s, Undo), |events| - d;
      MovedStack(d - 1, s);
      assert now.Top(Undo) == events[i].transaction;
      CommitAt(start, events, i, maxEntries);
      RecordsApply(AfterEvents(start, events[..i], maxEntries).files, events[i].transaction, now.files);
      CleanSnoc(d - 1, s, Undo);
    }
  }

  lemma NothingMoved(s: State)
    ensures CleanFor(0, s, Undo) && Moved(0, s, Undo) == s
  {
  }

  lemma CommitAt(start: State, events: seq<Event>, i: nat, maxEntries: nat)
    requires Accurate(start, events, maxEntries) && i < |events| && events[i].Committed?
    ensures AfterEvents(start, events[..i + 1], maxEntries).files == events[i].files
    ensures Records(AfterEvents(start, events[..i], maxEntries).files, events[i].transaction,
                    AfterEvents(start, events[..i + 1], maxEntries).files)
  {
    hide Records, ApplyUpTo, Capped;
    assert events[..i + 1][..i] == events[..i] && events[..i + 1][i] == events[i];
  }

  /** How far undo reaches: after a run that ends in `k` accurate commits, undo(n) takes back exactly the last
      min(n, k, max) of them, and leaves the workspace as it was before those. (It may reach further only when
      it asks for more than `k` and something was committed before them.) */
  lemma CommitsUndo(files: Files, events: seq<Event>, k: nat, n: nat, maxEntries: nat)
    requires Accurate(State([], [], files), events, maxEntries) && LastCommits(events, k)
    requires n <= k || k == |events|
    ensures var start := State([], [], files);
            var d := Min(Min(n, k), maxEntries);
            var (s', outcome) := ApplyUpTo(n, AfterEvents(start, events, maxEntries), false, Undo);
            && outcome.conflict == None && |outcome.applied| == d
            && s'.files == AfterEvents(start, events[..|events| - d], maxEntries).files
  {
    hide Records, ApplyUpTo, AfterEvents, Moved, CleanFor, Accurate, Linear;
    var start, d := State([], [], files), Min(Min(n, k), maxEntries);
    var front := events[..|events| - k];
    AccurateFront(start, events, |front|, maxEntries);
    var line := LinearHistory(files, front, maxEntries);
    CommitsStack(start, events, k, maxEntries);
    var s := AfterEvents(start, events, maxEntries);
    if k == |events| {
      NothingYet(start, front, maxEntries);
    }
    CommitsMoved(start, events, d, maxEntries);
    CountAsked(n, s, Undo);
    CleanRequest(d, s, Undo);
  }

  lemma AccurateFront(start: State, events: seq<Event>, n: nat, maxEntries: nat)
    requires Accurate(start, events, maxEntries) && n <= |events|
    ensures Accurate(start, events[..n], maxEntries)
  {
    hide Records, AfterEvents;
    assert forall i :: 0 <= i < n ==> events[..n][..i] == events[..i] && events[..n][i] == events[i];
  }

  lemma NothingYet(start: State, events: seq<Event>, maxEntries: nat)
    requires events == []
    ensures AfterEvents(start, events, maxEntries) == start
  {
  }

  // ---------- Sessions of runs ----------

  /** What a step of a session does to the history: a run that is committed is one commit, any other none. */
  function EventOf(s: State, step: SessionEvent): seq<Event> {
    match step
    case Ran(run) =>
      if Commits(s.files, run) then [Committed(TransactionOf(s.files, run), FilesAfter(s.files, run.calls))] else []
    case UndoAsked(n) => [Undone(n)]
    case RedoAsked(n) => [Redone(n)]
  }

  function AsEvents(s: State, steps: seq<SessionEvent>, maxEntries: nat): seq<Event> {
    if steps == [] then []
    else
      var front := steps[..|steps| - 1];
      AsEvents(s, front, maxEntries) + EventOf(AfterSession(s, front, maxEntries), steps[|steps| - 1])
  }

  lemma StepIsEvent(s: State, step: SessionEvent, maxEntries: nat)
    requires step.Ran? ==> OrderlyRun(s.files, step.run)
    ensures var events := EventOf(s, step);
            && (events == [] ==> AfterStep(s, step, maxEntries) == s)
            && (events != [] ==>
                  && |events| == 1 && AfterEvent(s, events[0], maxEntries) == AfterStep(s, step, maxEntries)
                  && (events[0].Committed? ==> Records(s.files, events[0].transaction, events[0].files)))
  {
    hide Records, Collected, FilesAfter, ApplyUpTo, RepeatsAgree, Reports, Capped;
    if step.Ran? {
      if Commits(s.files, step.run) {
        RunRecords(s.files, step.run.calls, TransactionOf(s.files, step.run));
      } else {
        QuietRun(s, step.run, maxEntries);
      }
    }
  }

  lemma {:induction false} SessionAsEvents(start: State, steps: seq<SessionEvent>, maxEntries: nat)
    requires Orderly(start, steps, maxEntries)
    ensures var events := AsEvents(start, steps, maxEntries);
            AfterEvents(start, events, maxEntries) == AfterSession(start, steps, maxEntries)
            && Accurate(start, events, maxEntries)
    decreases |steps|
  {
    hide Records, OrderlyRun, AfterStep, AfterEvent, EventOf;
    if steps != [] {
      var front, step := steps[..|steps| - 1], steps[|steps| - 1];
      assert forall k :: 0 <= k < |front| ==> front[..k] == steps[..k];
      SessionAsEvents(start, front, maxEntries);
      assert steps[..|front|] == front;
      var s, before := AfterSession(start, front, maxEntries), AsEvents(start, front, maxEntries);
      StepIsEvent(s, step, maxEntries);
      if EventOf(s, step) != [] {
        OneMoreEvent(start, before, EventOf(s, step)[0], maxEntries);
        assert EventOf(s, step) == [EventOf(s, step)[0]];
      } else {
        assert before + [] == before;
      }
    }
  }

  lemma OneMoreEvent(start: State, events: seq<Event>, event: Event, maxEntries: nat)
    requires Accurate(start, events, maxEntries)
    requires var s := AfterEvents(start, events, maxEntries);
             event.Committed? ==> Records(s.files, event.transaction, event.files)
    ensures AfterEvents(start, events + [event], maxEntries) ==
            AfterEvent(AfterEvents(start, events, maxEntries), event, maxEntries)
    ensures Accurate(start, events + [event], maxEntries)
  {
    hide Records, AfterEvent;
    var all := events + [event];
    assert all[..|events|] == events;
    assert forall k :: 0 <= k < |events| ==> all[..k] == events[..k];
  }

  predicate ReportingRun(step: SessionEvent) {
    step.Ran? && exists c :: 0 <= c < |step.run.calls| && step.run.calls[c].reported != []
  }

  /** The last `k` steps are runs that report some change. */
  predicate LastRuns(steps: seq<SessionEvent>, k: nat) {
    k <= |steps| && forall i :: |steps| - k <= i < |steps| ==> ReportingRun(steps[i])
  }

  lemma ReportingRunCommits(s: State, step: SessionEvent)
    requires ReportingRun(step) && OrderlyRun(s.files, step.run)
    ensures |EventOf(s, step)| == 1 && EventOf(s, step)[0].Committed?
  {
    hide Collected, Reports, RepeatsAgree, FilesAfter;
    NothingCollected(s.files, step.run.calls);
  }

  lemma LastRunsSnoc(steps: seq<SessionEvent>, k: nat)
    requires 0 < k && LastRuns(steps, k)
    ensures k <= |steps| && LastRuns(steps[..|steps| - 1], k - 1) && ReportingRun(steps[|steps| - 1])
    ensures steps[|steps| - 1].Ran?
  {
  }

  lemma OrderlyFront(start: State, steps: seq<SessionEvent>, n: nat, maxEntries: nat)
    requires n <= |steps| && Orderly(start, steps, maxEntries)
    ensures Orderly(start, steps[..n], maxEntries)
    ensures n < |steps| && steps[n].Ran? ==>
              OrderlyRun(AfterSession(start, steps[..n], maxEntries).files, steps[n].run)
  {
    hide OrderlyRun, AfterSession;
    assert forall j :: 0 <= j < n ==> steps[..n][..j] == steps[..j] && steps[..n][j] == steps[j];
  }

  lemma LastCommitsSnoc(events: seq<Event>, event: Event, k: nat)
    requires LastCommits(events, k) && event.Committed?
    ensures LastCommits(events + [event], k + 1)
    ensures (events + [event])[..|events| - k] == events[..|events| - k]
  {
  }

  lemma {:induction false} LastRunsCommit(start: State, steps: seq<SessionEvent>, k: nat, maxEntries: nat)
    requires k <= |steps| && Orderly(start, steps, maxEntries) && LastRuns(steps, k)
    ensures var events := AsEvents(start, steps, maxEntries);
            && LastCommits(events, k)
            && events[..|events| - k] == AsEvents(start, steps[..|steps| - k], maxEntries)
    decreases k
  {
    hide EventOf, AfterSession, Orderly, OrderlyRun, ReportingRun, LastRuns;
    var events := AsEvents(start, steps, maxEntries);
    if k == 0 {
      assert steps[..|steps|] == steps && events[..|events|] == events;
    } else {
      LastRunsSnoc(steps, k);
      var n := |steps| - 1;
      var front := steps[..n];
      OrderlyFront(start, steps, n, maxEntries);
      LastRunsCommit(start, front, k - 1, maxEntries);
      assert front[..n - (k - 1)] == steps[..|steps| - k];
      var before, last := AsEvents(start, front, maxEntries), EventOf(AfterSession(start, front, maxEntries), steps[n]);
      ReportingRunCommits(AfterSession(start, front, maxEntries), steps[n]);
      LastCommitsSnoc(before, last[0], k - 1);
      assert last == [last[0]] && events == before + last;
    }
  }

  /** How far a user can go back: after a session whose last `k` runs each reported some change, undo(n) takes back
      exactly the last min(n, k, max) runs, and leaves the workspace as it was before those. */
  lemma SessionUndo(files: Files, steps: seq<SessionEvent>, k: nat, n: nat, maxEntries: nat)
    requires Orderly(State([], [], files), steps, maxEntries) && LastRuns(steps, k)
    requires n <= k || k == |steps|
    ensures var start := State([], [], files);
            var d := Min(Min(n, k), maxEntries);
            var (s', outcome) := ApplyUpTo(n, AfterSession(start, steps, maxEntries), false, Undo);
            && outcome.conflict == None && |outcome.applied| == d
            && s'.files == AfterSession(start, steps[..|steps| - d], maxEntries).files
  {
    hide Orderly, LastRuns, AsEvents, AfterEvents, AfterSession, ApplyUpTo, Accurate, LastCommits;
    var start, d := State([], [], files), Min(Min(n, k), maxEntries);
    var events := AsEvents(start, steps, maxEntries);
    SessionAsEvents(start, steps, maxEntries);
    LastRunsFit(steps, k, d);
    LastRunsCommit(start, steps, k, maxEntries);
    LastRunsCommit(start, steps, d, maxEntries);
    if k == |steps| {
      NoEvents(start, steps[..|steps| - k], maxEntries);
    }
    LastCommitsFit(events, k);
    CommitsUndo(files, events, k, n, maxEntries);
    OrderlyFront(start, steps, |steps| - d, maxEntries);
    SessionAsEvents(start, steps[..|steps| - d], maxEntries);
  }

  lemma LastRunsFit(steps: seq<SessionEvent>, k: nat, d: nat)
    requires LastRuns(steps, k) && d <= k
    ensures k <= |steps| && LastRuns(steps, d)
  {
    hide ReportingRun;
  }

  lemma LastCommitsFit(events: seq<Event>, k: nat)
    requires LastCommits(events, k)
    ensures k <= |events|
  {
  }

  lemma NoEvents(start: State, steps: seq<SessionEvent>, maxEntries: nat)
    requires steps == []
    ensures AsEvents(start, steps, maxEntries) == []
  {
  }

  // ---------- What a report says ----------

  /** The reported actions, read off the workspace: a file is reported as removed exactly when it is gone
      afterwards, and, if there was no conflict, as recreated exactly when it was missing before and as restored
      exactly when it was there before and after. */
  lemma ActionsMean(files: Files, snapshots: seq<FileSnapshot>, direction: Direction, i: nat)
    requires RepeatsAgree(snapshots) && i < |snapshots|
    ensures var written, report := WriteAll(files, snapshots, direction), AppliedFiles(snapshots, direction)[i];
            && report.path == snapshots[i].path
            && (report.action == Removed <==> report.path !in written)
            && (ConflictsOf(files, snapshots, direction) == [] ==>
                  && (report.action == Recreated <==> report.path in written && report.path !in files)
                  && (report.action == Restored <==> report.path in written && report.path in files))
  {
    hide WriteAll, ConflictsOf;
    WriteAllAgreeing(files, snapshots, direction, i);
    NoConflictIff(files, snapshots, direction);
  }

  // ---------- What a disk refuses ----------

  /** When the snapshots of one path agree, a transaction is written in full exactly when every path resolves and
      the read-only ones among them are missing and to be removed. */
  lemma WrittenExactly(disk: Disk, files: Files, snapshots: seq<FileSnapshot>, direction: Direction)
    requires RepeatsAgree(snapshots)
    ensures Written(disk, files, snapshots, direction) == |snapshots| <==>
            forall i :: 0 <= i < |snapshots| ==>
              && snapshots[i].path !in disk.unresolved
              && (snapshots[i].path in disk.readOnly ==>
                    snapshots[i].path !in files && ExpectedAfter(snapshots[i], direction) == None)
  {
    hide Written, WriteAll;
    WrittenInFull(disk, files, snapshots, direction);
    forall i | 0 <= i < |snapshots|
      ensures Refuses(disk, WriteAll(files, snapshots[..i], direction), snapshots[i], direction) ==>
                Refuses(disk, files, snapshots[i], direction)
    {
      RefusedHere(disk, files, snapshots, direction, i);
    }
    if i :| 0 <= i < |snapshots| && Refuses(disk, files, snapshots[i], direction) {
      var first := FirstOf(snapshots, i);
      WriteAllFrame(files, snapshots[..first], direction, snapshots[first].path);
      assert Refuses(disk, WriteAll(files, snapshots[..first], direction), snapshots[first], direction);
    }
  }

  lemma RefusedHere(disk: Disk, files: Files, snapshots: seq<FileSnapshot>, direction: Direction, i: nat)
    requires RepeatsAgree(snapshots) && i < |snapshots|
    ensures Refuses(disk, WriteAll(files, snapshots[..i], direction), snapshots[i], direction) ==>
              Refuses(disk, files, snapshots[i], direction)
  {
    hide WriteAll;
    var before, path := snapshots[..i], snapshots[i].path;
    if Touches(before, path) {
      var l := LastTouch(before, path);
      assert before[l] == snapshots[l];
      WriteAllReads(files, before, direction, l);
    } else {
      WriteAllFrame(files, before, direction, path);
    }
  }

  /** The first snapshot of a path. */
  lemma {:induction false} FirstOf(snapshots: seq<FileSnapshot>, i: nat) returns (first: nat)
    requires i < |snapshots|
    ensures first <= i && snapshots[first].path == snapshots[i].path
    ensures !Touches(snapshots[..first], snapshots[first].path)
    decreases i
  {
    if j :| 0 <= j < i && snapshots[j].path == snapshots[i].path {
      first := FirstOf(snapshots, j);
    } else {
      first := i;
    }
  }
}
