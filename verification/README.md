# Gocode: a verified model of its stateful core

Gocode is a terminal coding agent written in Rust. This project models five of its components in
Dafny and proves what they promise over all inputs, all runs and all reachable states:

1. **Undo and redo** (`Undo.dfy`, `UndoTheorems.dfy`, `UndoFailures.dfy`, `UndoCommits.dfy`, `UndoRuns.dfy`): the two
   capped stacks, the conflict check against the workspace, writes that the disk refuses, and the transactions an agent
   run is collected into. The stacks and the workspace form one linear history that every operation keeps, undo reaches
   exactly as far back as the cap allows, and a refused write takes exactly one step out of the line.
2. **The patch engine** (`Text.dfy`, `TextMeaning.dfy`, `PatchFormat.dfy`, `PatchRoundTrip.dfy`, `PatchGrammar.dfy`,
   `PatchApply.dfy`, `PatchFiles.dfy`, `PatchReread.dfy`, `PatchMeaning.dfy`): the patch parser and a grammar of exactly
   what it accepts, locating and splicing hunks, line endings, and whole patches on a workspace. The splice loop refines
   substitution of disjoint blocks in the original file, the parser inverts a printer exactly on the lists the format
   can express, patched files are read back, and every operation's result and error is given on the workspace itself.
3. **The agent run** (`Progress.dfy`, `RunLog.dfy`, `AgentRun.dfy`, `RunUniqueness.dfy`, `RunTheorems.dfy`,
   `RunEndings.dfy`, `Transcript.dfy`, `ToolCalls.dfy`): the drive loop with its counters, the proof that its
   specification leaves exactly one outcome per environment, an if-and-only-if for every reason a run ends with, the
   validation and recovery obligations, the transcript it leaves and the requests it sends, compaction of that
   transcript, and the assembly of streamed tool calls. The provider, the tools and cancellation are an arbitrary
   `Environment`.
4. **The subagent scheduler** (`Scheduler.dfy`, `SchedulerTheorems.dfy`, `SchedulerHistories.dfy`,
   `SchedulerDeadlock.dfy`, `SubagentManager.dfy`, `SubagentRecords.dfy`): manager, workers, nested spawning and the
   outside world as one step system over shared state, with permits, lifecycles, the step behind every recorded
   status, worktrees and an exact account of where it can get stuck.
5. **Stream and text codecs** (`BoundedBuffer.dfy`, `BoundedText.dfy`, `Redaction.dfy`, `RedactionTheorems.dfy`,
   `Utf8.dfy`, `Framing.dfy`, `FramingHeaders.dfy`, `SseStream.dfy`, `SseEvents.dfy`): bounded output capture, secret
   redaction, framed messages and the event-stream line loop, each against a specification on the whole input.

Code that changes state is a class or a method with loops, proved against a function of its inputs or its
old state; the theorems are lemmas about those functions. `Prelude.dfy` holds the shared datatypes.
`dafny verify dfyconfig.toml` checks everything.

What the proofs show to be different from what a reader of the code or its documentation may expect:

- **A run in which two calls change one file usually cannot be undone without force.** One snapshot is kept per
  reported change, read before and after its whole call, so a path can occur several times in a transaction, and
  the conflict check compares the file with every `after`. Undo restores the run's start if and only if all
  snapshots of one path are equal (`RunIsUndoable`). A single call always meets that, however often a patch names a
  file (`OneCallAgrees`); two different writes in two calls do not (`TwoWritesConflict`).
- **A run that reports no change commits nothing**, so the next undo takes the transaction before it
  (`main.rs:567`, `RecordRun`, `QuietRun`). What was changed without a report stays through every request that
  moves no transaction naming it (`RequestFrame`).
- **A change that a call reports without naming it is undone by removing the file**, because its `before` was never read
  (`UnnamedIsRemoved`).
- **A refused write loses a transaction.** It has been popped and is put on neither stack, and what was written before
  the refusal stays (`RefusedRequest`, `TransactionLost`). On a linear history both stacks still lead along their part
  of the line; the next request meets no conflict if and only if the files it names are as they were on its side of the
  gap (`LinearRefused`, `BrokenNext`).
- **Nesting can deadlock with any number of slots.** `subagent_manager.rs:133-140` explains that two slots
  are enough for a blocked parent and its child. `DeadlockReachable` shows that a state in which every
  permit holder waits for a queued child is reachable whenever nesting is enabled at all, and it survives every
  step except a timeout or a stop of a permit holder: stopping a queued child, messages and new subagents do not
  help (`DeadlockStep`, `DeadlockLasts`).
- **A patch that fails half-way stays applied, and its run commits nothing** (`FailedPatchRun`). It leaves the
  workspace as found if and only if the operations before the failing one lead every file back to its content; when
  they name distinct files, exactly when each is an update that changes nothing (`FailedPatchUnchanged`,
  `FailedPatchDistinct`). The next undo takes the transaction before the run: it meets no conflict if and only if the
  patch left the files that transaction names as they were (`FailedPatchUndo`).
- **Editing a file with mixed line endings rewrites all of them** (`SplitJoinIdentity`, `ContextOnlyPatch`; the
  smallest case is `MixedEndings`).
- **A context line that reads `*** End Patch` ends the patch**, and the rest can be lost silently: a written replacement
  is accepted as a deletion (`ContextEndsPatch`). A well-shaped document reads back as written if and only if no line
  of its entries trims to that marker (`ReadsBackExactly`).
- **A patched file need not be read back as it was spliced**: lines that end in a carriage return, an emptied file or an
  ending that is no longer used change how it splits. `SplitJoinExactly` and `PatchedReadsBack` are the exact
  conditions.
- **Captured output can depend on how it was chunked**: a later character can fill the room that a
  multi-byte character left at the limit, ahead of it (`ChunkingIndependent` is the exact condition, `TextSkips` a
  real text).
- **Redacting chunk by chunk promises less than redacting the whole output.** The stream satisfies the same
  post-condition if and only if at every cut no replaced secret goes on and a marker that is cut is followed by a
  replacement (`ChunksGuarded`); a marker cut in two is not found at all (`CutMarkerMissed`).
- `undo.rs:101` documents applied transactions as listed oldest first; the loop lists them from the top of their stack
  down, so on a linear history an undo is oldest first if and only if min(n, available) is at most one
  (`ReportPlaces`, `NewestFirst`).
- `docs/SUBAGENTS.md:83-90` omits Queued to Stopped; a run reaches it (`StoppedInQueue`, `StoppedWhileQueued`).
- **A spawn that fails after its checks keeps its worktree name claimed** for good (`ClaimedMeans`).
- The mode adjustment of `effective_subagent_mode` never changes a request that `spawn` accepts
  (`SpawnNeverDowngrades`): the checks before it already refuse those requests.

## Model

| member | source | states |
|---|---|---|
| `UndoHistory.UndoStore.Commit` | crates/gocode-tools/src/undo.rs:171-178 | a commit empties the redo stack and leaves min(old + 1, max_entries) transactions to undo: the newest end of the old ones followed by the new one; the workspace stays |
| `UndoHistory.UndoStore.DetectConflicts` | crates/gocode-tools/src/undo.rs:343-361 | the loop reports one conflict per file that differs from the expected side, in order |
| `UndoHistory.UndoStore.ApplyTransaction` | crates/gocode-tools/src/undo.rs:363-396 | the loop writes the other side of every snapshot in order up to the first refused write; it reports what it did to each file, or the refused path |
| `UndoHistory.UndoStore.ApplyTop` | crates/gocode-tools/src/undo.rs:220-256 | one turn of the apply loop: a conflict puts the transaction back and writes nothing, a refused write loses it, otherwise it moves to the other stack |
| `UndoHistory.UndoStore.Apply` | crates/gocode-tools/src/undo.rs:212-259 | the loop's effect on both stacks and the workspace, and its answer or error, are the request function of the old state and the disk |
| `UndoHistory.UndoStore.UndoRequest` | crates/gocode-tools/src/undo.rs:187-194 | undo is the request in the undo direction |
| `UndoHistory.UndoStore.RedoRequest` | crates/gocode-tools/src/undo.rs:203-210 | redo is the request in the redo direction |
| `UndoTheorems.NoConflictIff` | crates/gocode-tools/src/undo.rs:343-361 | a transaction is free of conflicts exactly when every file holds the side it expects |
| `UndoTheorems.ConflictReportExact` | crates/gocode-tools/src/undo.rs:343-361 | the report names exactly the differing files, with expected and actual content |
| `UndoTheorems.WriteAllFrame` | crates/gocode-tools/src/undo.rs:363-396 | paths outside a transaction keep their content |
| `UndoTheorems.WriteAllReads` | crates/gocode-tools/src/undo.rs:363-396 | a path ends with what its last snapshot says |
| `UndoTheorems.WriteBack` | crates/gocode-tools/src/undo.rs:328-396 | once written, a conflict-free transaction is conflict-free the other way if and only if its snapshots of one path are equal, and then writing it back restores the workspace |
| `UndoTheorems.RequestCount` | crates/gocode-tools/src/undo.rs:212-259 | an unforced request applies min(n, available) transactions if and only if no conflict stopped it, and never more |
| `UndoTheorems.RequestEffect` | crates/gocode-tools/src/undo.rs:212-259 | what it applied is a conflict-free run from the top of the stack and nothing else changed |
| `UndoTheorems.ConflictEffect` | crates/gocode-tools/src/undo.rs:225-243 | a conflicting transaction writes nothing, stays on top and is reported; earlier ones of the request stay applied |
| `UndoTheorems.ReportOrder` | crates/gocode-tools/src/undo.rs:244-256 | every applied transaction is reported in full (id, description, files), from the top of its stack down |
| `UndoTheorems.UndoThenRedo` | crates/gocode-tools/src/undo.rs:187-259 | if an unforced request applies k transactions, the opposite request for k applies them all if and only if in each of them the snapshots of one path are equal, and then it restores the workspace and both stacks |
| `UndoTheorems.ForcedRequest` | crates/gocode-tools/src/undo.rs:225-243 | a forced request never reports a conflict and moves every transaction asked for |
| `UndoTheorems.ForcedCount` | crates/gocode-tools/src/undo.rs:212-259 | a forced request applies min(n, available) transactions |
| `UndoTheorems.LinearRequest` | crates/gocode-tools/src/undo.rs:187-259 | on a linear history undo(n) and redo(n) apply exactly min(n, count) without conflict and move that many places along the line |
| `UndoTheorems.ReportPlaces` | crates/gocode-tools/src/undo.rs:99-106 | on a linear history each reported transaction is the step at its place, and the report is oldest first if and only if the request is a redo or min(n, available) is at most one (the comment on the field says always) |
| `UndoTheorems.NewestFirst` | crates/gocode-tools/src/undo.rs:99-106 | two commits and undo(2): the newer one is reported first |
| `UndoTheorems.RequestFrame` | crates/gocode-tools/src/undo.rs:212-259 | a path that none of the top n transactions names keeps its content through any request for n, forced or not |
| `UndoTheorems.UndoElsewhere` | crates/gocode-tools/src/undo.rs:187-259 | undoing a step after the workspace has moved on: no conflict if and only if the files it names have not, and back to its start if and only if nothing has |
| `UndoTheorems.LinearCommit` | crates/gocode-tools/src/undo.rs:171-178 | an accurate commit, trimmed or not, continues the line |
| `UndoTheorems.LinearHistory` | crates/gocode-tools/src/undo.rs:171-259 | after any sequence of accurate commits, unforced undos and unforced redos the stacks and the workspace form one line of states, with at most max_entries transactions; a transaction may name a file several times |
| `UndoTheorems.NeverConflicts` | crates/gocode-tools/src/undo.rs:187-259 | after any such run a request never conflicts, and the opposite request returns to the present |
| `UndoCommits.CommitKeeps` | crates/gocode-tools/src/undo.rs:171-178 | the same of a commit anywhere in a session: what stays is the newest end, as much of it as the cap allows |
| `UndoCommits.CommitsStack` | crates/gocode-tools/src/undo.rs:171-178 | after k commits in a row the undo stack has grown by k up to the cap, and the newest min(k, max_entries) of them are on top in order |
| `UndoCommits.CommitsMoved` | crates/gocode-tools/src/undo.rs:187-259 | undoing d of the last accurate commits meets no conflict and leaves the workspace as it was before those d |
| `UndoCommits.CommitsUndo` | crates/gocode-tools/src/undo.rs:171-259 | over whole runs: after k accurate commits undo(n) applies exactly min(n, k, max_entries) transactions without conflict and restores the workspace before the last that many |
| `UndoCommits.ActionsMean` | crates/gocode-tools/src/undo.rs:363-396 | a file is reported as removed exactly when it is gone afterwards, as recreated exactly when it was missing and is back, as restored exactly when it was there before and after |
| `UndoFailures.WrittenInFull` | crates/gocode-tools/src/undo.rs:363-396 | a transaction is written in full if and only if no write is refused when its turn comes |
| `UndoFailures.AnsweredIff` | crates/gocode-tools/src/undo.rs:212-259 | a request is answered if and only if everything it would apply can be written in full, and then exactly as on a disk that refuses nothing |
| `UndoFailures.Unhindered` | crates/gocode-tools/src/undo.rs:212-259 | in particular when the top n transactions name no path the disk refuses |
| `UndoFailures.RefusedRequest` | crates/gocode-tools/src/undo.rs:220-256 | the whole effect of a refused request: k transactions applied, the next one conflict-free, written up to the refused file and on neither stack |
| `UndoFailures.TransactionLost` | crates/gocode-tools/src/undo.rs:245 | a refused request leaves one transaction less in the history |
| `UndoFailures.LinearRefused` | crates/gocode-tools/src/undo.rs:187-259 | on a linear history a refused request takes one step out of the line; both stacks still lead along the rest |
| `UndoFailures.BrokenNext` | crates/gocode-tools/src/undo.rs:343-361 | after that the next request is free of conflicts if and only if the files it names are as on its side of the gap |
| `UndoCommits.WrittenExactly` | crates/gocode-tools/src/undo.rs:363-396 | a transaction whose snapshots of one path agree is written in full if and only if every path resolves and those that cannot be written are missing and to be removed |
| `UndoRuns.CollectRun` | crates/gocode-agent/src/agent.rs:262-328 | collecting over a run's calls yields one snapshot per reported change, in order |
| `UndoRuns.CollectCall` | crates/gocode-agent/src/agent.rs:269-328 | one call: `before` is read for the named paths before it, `after` for every reported change after it |
| `UndoRuns.RecordRun` | crates/gocode/src/main.rs:567-616 | a run is committed if and only if it has ended and reported some change; otherwise both stacks stay as they were |
| `UndoRuns.RunCommits` | crates/gocode/src/main.rs:567-616 | exactly a run that has ended and of which some call reported a change adds one transaction, on top, within the cap; any other leaves both stacks |
| `UndoRuns.UnnamedIsRemoved` | crates/gocode-agent/src/agent.rs:269-328 | a change reported for a path the call did not name is undone by removing the file, whatever was there before |
| `UndoRuns.FreshRunConflicts` | crates/gocode-tools/src/undo.rs:343-361 | a run's own transaction is free of conflicts exactly when all snapshots of one path end with the same content |
| `UndoRuns.RunUndoRestores` | crates/gocode-tools/src/undo.rs:343-396 | undo restores the start of a run whose snapshots of one path are all equal |
| `UndoRuns.RunUndoRestoresOnly` | crates/gocode-tools/src/undo.rs:343-396 | and only of such a run |
| `UndoRuns.RunIsUndoable` | crates/gocode/src/main.rs:567-616 | undoing a committed run once restores the files if and only if all its snapshots of one path are equal, for any calls that report what they change, in any number and order; a store that may keep nothing restores only a run that changed nothing |
| `UndoRuns.QuietRun` | crates/gocode/src/main.rs:567-576 | a run that reports nothing changes neither workspace nor stacks |
| `UndoRuns.OneCallAgrees` | crates/gocode-agent/src/agent.rs:311-328 | a run of one call always meets the condition, whatever it reports and however often |
| `UndoRuns.RunRecords` | crates/gocode-agent/src/agent.rs:311-328 | a run's transaction records its step of the history if and only if its snapshots of one path are equal |
| `UndoRuns.SessionLinear` | crates/gocode/src/main.rs:567-616 | over whole sessions of runs whose snapshots of one path agree, undos and redos, whatever is trimmed, stacks and workspace form one line of states |
| `UndoCommits.SessionAsEvents` | crates/gocode/src/main.rs:567-616 | such a session does to the history what its commits, undos and redos do, and every commit is accurate |
| `UndoCommits.SessionUndo` | crates/gocode/src/main.rs:567-616 | over such sessions: when the last k runs each reported some change, undo(n) takes back exactly the last min(n, k, max_entries) runs and leaves the workspace as it was before those |
| `UndoRuns.TwoWritesConflict` | crates/gocode-tools/src/undo.rs:343-361 | two calls that write one file differently cannot be undone without force |
| `PatchFormat.ParseHunksAt` | crates/gocode-tools/src/patch.rs:138-209 | the index loop gives the hunks of the section it stands in and stops at the next section, or fails on the first bad line or an empty old side |
| `PatchFormat.PushLine` | crates/gocode-tools/src/patch.rs:164-191 | one body line extends the old side, the new side or both |
| `PatchFormat.ParseAddBody` | crates/gocode-tools/src/patch.rs:211-220 | the added lines of the section, and the next section's index |
| `PatchFormat.ParseOperation` | crates/gocode-tools/src/patch.rs:70-103 | one operation per section marker; other lines are skipped |
| `TextMeaning.WhitespaceMeans` | crates/gocode-tools/src/patch.rs:51-111 | the 25 code points that count as whitespace |
| `TextMeaning.TrimMeans` | crates/gocode-tools/src/patch.rs:51-111 | trimming takes whitespace off both ends, as much as there is, and nothing else |
| `TextMeaning.TrimEndMeans` | crates/gocode-tools/src/patch.rs:260-284 | two lines are equal up to trailing whitespace exactly when they have the same beginning and only whitespace after it |
| `TextMeaning.LinesMean` | crates/gocode-tools/src/patch.rs:51-53 | the lines of a patch: those ended with a newline, each without the one carriage return it may end in, and a last one as it is, if it is not empty |
| `TextMeaning.TextCut` | crates/gocode-tools/src/patch.rs:51-53 | and every text is such lines and such a last one |
| `PatchFormat.ParsePatch` | crates/gocode-tools/src/patch.rs:51-111 | the parser's loop computes the specified operations or error |
| `PatchMeaning.DocumentErrors` | crates/gocode-tools/src/patch.rs:51-68 | the three errors of the document itself: no line, a first line that does not trim to the begin marker, no later line that trims to the end marker |
| `PatchMeaning.AddedContentMeans` | crates/gocode-tools/src/patch.rs:211-220 | a line of an added file loses the plus it starts with, and is kept when it starts with none |
| `PatchMeaning.SampleReads` | crates/gocode-tools/src/patch.rs:51-220 | one document with every kind of line, and the operations it means |
| `PatchRoundTrip.LinesReadBack` | crates/gocode-tools/src/patch.rs:51-220 | printing and parsing lines gives well-shaped operations back |
| `PatchRoundTrip.TextReadsBack` | crates/gocode-tools/src/patch.rs:51-220 | as text, they come back without final carriage returns |
| `PatchRoundTrip.ParsedShape` | crates/gocode-tools/src/patch.rs:51-220 | every successful parse is non-empty, with trimmed paths and hunks that have old lines |
| `PatchRoundTrip.RoundTrip` | crates/gocode-tools/src/patch.rs:51-220 | parsing inverts printing if and only if the list is non-empty, well shaped, and no line ends in a carriage return |
| `PatchGrammar.ParsesBody` | crates/gocode-tools/src/patch.rs:138-209 | what an update section of context, blank, removed and added lines and noted markers parses to, its errors included |
| `PatchGrammar.EntriesRead` | crates/gocode-tools/src/patch.rs:72-103 | any sequence of entries, blank lines between them included, reads back as its operations |
| `PatchGrammar.ReadEntries` | crates/gocode-tools/src/patch.rs:72-103 | everything accepted as a body is written by some entries |
| `PatchGrammar.AcceptsGrammar` | crates/gocode-tools/src/patch.rs:51-220 | the parser accepts exactly the lines of well-formed documents and reads off exactly their operations |
| `PatchGrammar.ReadsBackExactly` | crates/gocode-tools/src/patch.rs:51-111 | a well-shaped document reads back as its operations if and only if no line of its entries trims to the end marker |
| `PatchGrammar.ContextEndsPatch` | crates/gocode-tools/src/patch.rs:72-103 | the smallest silent case: a replacement whose context line is the end marker is accepted as a deletion |
| `PatchRoundTrip.ScanCoversParse` | crates/gocode-tools/src/patch.rs:120-130 | the scanned paths are the parsed operations' paths in order, followed only by markers after the end of the patch |
| `PatchApply.FindAllComplete` | crates/gocode-tools/src/patch.rs:260-284 | the search returns every match position at or after the start, in increasing order, and no other |
| `PatchApply.FindAllCounts` | crates/gocode-tools/src/patch.rs:260-284 | it returns none or one exactly when there is none or one |
| `PatchApply.LocateIff` | crates/gocode-tools/src/patch.rs:300-331 | locating succeeds exactly at the only exact match, or, when there is none, the only match up to trailing whitespace |
| `PatchMeaning.SameBlockMeans` | crates/gocode-tools/src/patch.rs:260-284 | lines match exactly when they are equal, and fuzzily when they have the same beginning with only whitespace after it in either |
| `PatchMeaning.LocateFails` | crates/gocode-tools/src/patch.rs:300-331 | which error an unplaced hunk gives: missing exactly without any place, ambiguous exactly with several exact ones, ambiguous up to whitespace exactly with several such and no exact one, each with their number |
| `PatchApply.SpliceAll` | crates/gocode-tools/src/patch.rs:338-370 | the splice loop with its moving cursor computes the specified lines, fuzzy count or error |
| `PatchApply.SpliceMeans` | crates/gocode-tools/src/patch.rs:338-370 | every successful splice is a substitution of blocks of the original |
| `PatchApply.SitedSplices` | crates/gocode-tools/src/patch.rs:338-370 | and succeeds whenever every hunk has its place |
| `PatchApply.SitesUnique` | crates/gocode-tools/src/patch.rs:300-331 | the places are unique |
| `PatchApply.ApplyIsSubstitution` | crates/gocode-tools/src/patch.rs:338-370 | applying hunks succeeds if and only if each hunk in turn has a place in the original lines after the previous block, and then replaces exactly those blocks and counts the fuzzy ones |
| `PatchFiles.JoinSplit` | crates/gocode-tools/src/patch.rs:222-255 | splitting and joining rewrites every line ending to the detected one |
| `PatchMeaning.EndingsMean` | crates/gocode-tools/src/patch.rs:222-239 | the kept ending is that of Windows exactly when a carriage return stands before some newline; the final newline and the byte-order mark are those of the text |
| `PatchFiles.SplitJoinIdentity` | crates/gocode-tools/src/patch.rs:222-255 | it is the identity if and only if the endings are uniform |
| `PatchFiles.ApplyHunksToText` | crates/gocode-tools/src/patch.rs:338-370 | mark off, split, splice, join, mark on: the method computes the text function that the next rows are about |
| `PatchReread.SplitFaithful` | crates/gocode-tools/src/patch.rs:222-239 | what splitting any text gives is faithful to its ending |
| `PatchReread.SplitJoinExactly` | crates/gocode-tools/src/patch.rs:222-255 | joining and splitting again gives the same lines, ending and final newline if and only if they are faithful to the ending |
| `PatchReread.PatchedReadsBack` | crates/gocode-tools/src/patch.rs:338-370 | reading a patched file back gives the spliced lines with the same byte-order mark, ending and final newline if and only if those lines are faithful to the ending and bring no mark |
| `PatchReread.SplicedNoNewline` | crates/gocode-tools/src/patch.rs:338-370 | splicing lines without newlines gives lines without newlines |
| `PatchFiles.ContextOnlyPatch` | crates/gocode-tools/src/patch.rs:338-370 | a patch of pure context leaves the file alone, byte-order mark or not, if and only if its endings are uniform |
| `PatchFiles.MixedEndings` | crates/gocode-tools/src/patch.rs:222-255 | a file with mixed endings, and what a pure context patch makes of it |
| `PatchFiles.ApplyPatch` | crates/gocode-tools/src/patch.rs:394-459 | the operations are applied in order up to the first failure, a refused write included, with the changes reported; `OperationMeans` says what each one does |
| `PatchMeaning.OperationMeans` | crates/gocode-tools/src/patch.rs:394-459 | every operation: which of the errors it gives, first to last, or the file it leaves (an added file holds its lines, each ended with a newline; a deleted one is gone; an updated one holds the patched text), every other file untouched, and the change it reports |
| `PatchMeaning.KindsMean` | crates/gocode-tools/src/patch.rs:394-459 | created, deleted and modified are reported exactly for files that appear, disappear and stay |
| `PatchMeaning.AddedTextMeans` | crates/gocode-tools/src/patch.rs:425-429 | the text of an added file is every line of it followed by a newline |
| `PatchMeaning.AddedFileHolds` | crates/gocode-tools/src/patch.rs:394-459 | over whole patches: a file that is added and not named again ends with exactly its lines |
| `PatchMeaning.AddedReadsBack` | crates/gocode-tools/src/patch.rs:222-239 | an added file reads back as its lines if and only if none of them ends in a carriage return |
| `PatchMeaning.FuzzyMeans` | crates/gocode-tools/src/patch.rs:338-370 | a change reports as many fuzzy hunks as found their place only up to trailing whitespace |
| `PatchFiles.OperationsStop` | crates/gocode-tools/src/patch.rs:394-459 | nothing after the first failure is attempted |
| `PatchFiles.FailureIsPartial` | crates/gocode-tools/src/patch.rs:394-459 | a failed patch leaves exactly the effect of the operations before the failing one |
| `PatchFiles.OperationsFrame` | crates/gocode-tools/src/patch.rs:394-459 | files the patch does not name keep their content |
| `PatchFiles.PathsIndependent` | crates/gocode-tools/src/patch.rs:394-459 | operations on different files do not interact: each file ends as its own operations alone leave it |
| `PatchFiles.FailedPatchUnchanged` | crates/gocode-tools/src/patch.rs:394-459 | a failed patch leaves the workspace as found if and only if, for every file, the operations on it before the failing one lead back to its content |
| `PatchFiles.FailedPatchDistinct` | crates/gocode-tools/src/patch.rs:394-459 | with distinct paths: if and only if every operation before the failing one is an update whose result is the text it found |
| `PatchFiles.PatchReports` | crates/gocode-tools/src/tools/apply_patch.rs:66-90 | a successful patch call reports every path it changed, each named by the patch |
| `PatchFiles.FailedPatchRun` | crates/gocode/src/main.rs:567-576 | a run whose one call is a failed patch commits nothing; both stacks stay and the workspace is as the patch left it |
| `PatchFiles.FailedPatchUndo` | crates/gocode-tools/src/undo.rs:187-259 | the next undo takes the transaction before it: no conflict if and only if the patch left the files that one names as they were, and back to its start if and only if the patch left everything as it was |
| `PatchFiles.PatchIsUndoable` | crates/gocode-agent/src/agent.rs:618-645 | the snapshots of one successful patch call undo it, even when it names a file several times |
| `PatchFiles.FailedPatchLeavesFiles` | crates/gocode-tools/src/patch.rs:394-459 | the smallest case: an added file stays behind |
| `Progress.TaskProgress.Observe` | crates/gocode-agent/src/progress.rs:31-60 | one observed call moves the unvalidated, recovery, reminder and exploration facts as specified |
| `Progress.TaskProgress.ObserveExplorationResult` | crates/gocode-agent/src/progress.rs:76-91 | equal exploration output in a row is counted |
| `Progress.TaskProgress.TakeRecoveryReminder` | crates/gocode-agent/src/progress.rs:72-74 | the reminder is handed out once |
| `AgentRun.Run.HandleCall` | crates/gocode-agent/src/agent.rs:262-357 | one call: the gate, execution, and every counter and message; all counters stay functions of the trace |
| `AgentRun.Run.HandleCalls` | crates/gocode-agent/src/agent.rs:262-357 | the calls of a turn in request order until one stops the run |
| `AgentRun.Run.RecordTurn` | crates/gocode-agent/src/agent.rs:220-239 | a received turn is counted and appended before its calls |
| `AgentRun.Run.DriveLoop` | crates/gocode-agent/src/agent.rs:211-358 | every exit of the loop is justified by the log |
| `AgentRun.Run.SoftLand` | crates/gocode-agent/src/agent.rs:397-446 | wrapping up adds one prompt and one summary, and a turn only when the provider answered |
| `AgentRun.Drive` | crates/gocode-agent/src/agent.rs:187-387 | whatever the environment does, some log the loop can produce explains the outcome: a completion carries exactly its transcript, counters and reason, an error has its cause; `OutcomeUnique` and `EndingReasons` say which |
| `RunUniqueness.SameEvents` | crates/gocode-agent/src/agent.rs:262-357 | the same environment handles the same calls with the same results |
| `RunUniqueness.Comparable` | crates/gocode-agent/src/agent.rs:216-358 | of two logs an environment allows, one is an earlier stage of the other |
| `RunUniqueness.InCallsNotFinal` | crates/gocode-agent/src/agent.rs:262-357 | in the middle of its calls a run ends only by a cancellation seen there |
| `RunUniqueness.HeadNotFinal` | crates/gocode-agent/src/agent.rs:216-239 | between two turns a run goes on whenever the provider replies |
| `RunUniqueness.LogUnique` | crates/gocode-agent/src/agent.rs:216-358 | only one log can end the run |
| `RunUniqueness.OutcomeUnique` | crates/gocode-agent/src/agent.rs:187-446 | the completion or error is a function of the environment, the limits and the request: the specification of `Drive` leaves no choice |
| `RunTheorems.UnvalidatedMeans` | crates/gocode-agent/src/progress.rs:31-60 | an unvalidated change is one with no passing validation after it |
| `RunTheorems.NeedsRecoveryMeans` | crates/gocode-agent/src/progress.rs:31-70 | an edit is gated exactly while some failed validation has no recovery step after it |
| `RunTheorems.NormalMeansValidated` | crates/gocode-agent/src/agent.rs:241-248 | normal completion means every file change was followed by a passing validation |
| `RunTheorems.PendingMeansUnvalidated` | crates/gocode-agent/src/agent.rs:241-248 | a pending-validation ending has a change nothing validated |
| `RunTheorems.RecoveryGate` | crates/gocode-agent/src/agent.rs:271-277 | an edit reaches its tool if and only if every earlier failed validation was followed by a passing validation or fresh evidence |
| `RunTheorems.RepeatsEndTheRun` | crates/gocode-agent/src/agent.rs:279-292 | three equal calls with equal evidence in a row are the last calls of the run |
| `RunTheorems.StaleEndsTheRun` | crates/gocode-agent/src/progress.rs:76-91 | three equal exploration outputs in a row are the last calls |
| `RunTheorems.FailuresEndTheRun` | crates/gocode-agent/src/agent.rs:305-310 | as many failures in a row as allowed are the last calls |
| `RunEndings.StopMeans` | crates/gocode-agent/src/agent.rs:336-358 | after a call a run stops for the first of: three equal calls with equal evidence, three explorations with equal output, as many results in a row that are not successes as allowed; and for nothing else |
| `RunEndings.EndingReasons` | crates/gocode-agent/src/agent.rs:187-387 | every completed run: no call but its last left it with a reason to stop, and each of the seven endings is given if and only if its own condition on the calls and turns holds and no earlier one |
| `RunEndings.ErrorReasons` | crates/gocode-agent/src/agent.rs:211-261 | a provider error comes only between turns of a run with turns left and no reason to stop; a refused turn asks for more calls than one turn may, though they are left |
| `RunEndings.CancellationSeen` | crates/gocode-agent/src/agent.rs:211-265 | no turn begins, no call is handled and nothing is landed once a cancellation can be seen, and a run is cancelled only where the environment cancels it next |
| `RunEndings.HandledCalls` | crates/gocode-agent/src/agent.rs:262-334 | each handled call carries what its tool returned under its id, and one held back is an edit with a failed result that changed nothing |
| `RunEndings.EditsGated` | crates/gocode-agent/src/agent.rs:271-277 | over whole runs: an edit is held back if and only if some earlier validation failed and neither a passing validation nor a look at the project came in between |
| `RunEndings.ValidationCallsMean` | crates/gocode-agent/src/progress.rs:104-147 | a call is a validation exactly when it runs a command of the table |
| `RunEndings.TranscriptTold` | crates/gocode-agent/src/agent.rs:236-334 | the transcript tells the turns first to last: each reply with its calls, each result under its id, and after a failed validation the reminder with at most 4,000 characters of its output |
| `RunEndings.CompletionMeans` | crates/gocode-agent/src/agent.rs:360-446 | the history, text, counters and tokens a completion carries, for every reason |
| `RunEndings.ChangedMeans` | crates/gocode-agent/src/agent.rs:311-328 | the changed files are those some result reports |
| `RunEndings.RecentMeans` | crates/gocode-agent/src/agent.rs:676-692 | a local summary lists the last five calls, oldest first, with their outcome |
| `RunEndings.TokensMean` | crates/gocode-agent/src/agent.rs:220-235 | the input tokens are those of the last turn that reported any |
| `RunTheorems.TrailingFailuresExact` | crates/gocode-agent/src/agent.rs:305-310 | the failure counter is the length of the maximal failing end of the trace |
| `RunTheorems.TrailingRepeatsExact` | crates/gocode-agent/src/agent.rs:279-292 | the repeat counter is the length of the maximal run of equal signatures at the end |
| `RunTheorems.BoundedRun` | crates/gocode-agent/src/agent.rs:211-261 | turns are at most max_turns + 1 (max_turns when normal) and calls at most max_total_tool_calls |
| `RunTheorems.FailuresBounded` | crates/gocode-agent/src/agent.rs:305-310 | the failed-call counter counts exactly the results that are not successes |
| `RunTheorems.QuietRunCompletes` | crates/gocode-agent/src/agent.rs:187-387 | a run errs only if something was cancelled, the provider failed or a turn asked for too many calls |
| `Transcript.OpenMeans` | crates/gocode-agent/src/agent.rs:236-239 | which call ids are open: those listed by an assistant message since the latest user message |
| `Transcript.SafeMeans` | crates/gocode-agent/src/agent.rs:236-334 | safety: each tool message answers a call listed since the latest user message |
| `Transcript.SafeCut` | crates/gocode/src/main.rs:1063-1080 | a history may be cut before any user message, and only the parts' safety matters |
| `Transcript.RunKeepsSafe` | crates/gocode-agent/src/agent.rs:187-446 | every completed run, whatever its reason for ending, leaves a safe transcript |
| `Transcript.CallsAnswered` | crates/gocode-agent/src/agent.rs:262-334 | the run's messages answer every call exactly once and in order if and only if the last turn was handled completely; normal runs always do |
| `Transcript.AnsweredByReason` | crates/gocode-agent/src/agent.rs:241-358 | by termination reason: always after Normal, MaxTurns and ValidationPending, never after MaxTotalToolCalls, and otherwise exactly when the stopping call was its turn's last |
| `Transcript.UnansweredRun` | crates/gocode-agent/src/agent.rs:250-257 | every environment whose first turn asks for more calls than the budget completes with all of them unanswered |
| `Transcript.UnansweredExample` | crates/gocode-agent/src/agent.rs:250-257 | and there is such an environment |
| `Transcript.UsersBefore` | crates/gocode/src/main.rs:1067-1072 | the i-th listed index is the i-th user message |
| `Transcript.SplitFacts` | crates/gocode/src/main.rs:1063-1080 | the split loses nothing, cuts only before a user message, keeps exactly the requested user turns, and both halves stay safe |
| `Transcript.CompactKeepsSafe` | crates/gocode/src/main.rs:1089-1135 | a compacted history is safe and keeps the recent turns word for word |
| `Transcript.CompactMeans` | crates/gocode/src/main.rs:1063-1135 | a history of more than two user turns becomes one user message with the summary, followed by exactly the last two user turns; any other stays |
| `Transcript.CompactAgain` | crates/gocode/src/main.rs:1089-1135 | compacting again replaces the old summary and nothing else |
| `Transcript.RequestsSafe` | crates/gocode-agent/src/agent.rs:211-239 | every request a run sends, the landing request included, is safe, whether the run completes or fails |
| `Transcript.SessionSafe` | crates/gocode/src/main.rs:1089-1135 | over any sequence of runs, failed ones included, and compactions, no request that is sent and no history that is kept carries an unlisted tool message |
| `Transcript.FailedRunForgotten` | crates/gocode/src/main.rs:995-1016 | over whole sessions: leaving a failed run out does not change the history |
| `Transcript.CompletedRunKept` | crates/gocode/src/main.rs:995-1016 | a completed run replaces the history by its own, which begins with the history before it and the prompt |
| `ToolCalls.ToolCallAssembler.Apply` | crates/gocode-agent/src/toolcalls.rs:32-63 | a fragment is accepted exactly when it fits, and a rejected one changes nothing |
| `ToolCalls.AssembleCalls` | crates/gocode-agent/src/agent.rs:476-517 | a turn's fragments give the finished calls, or nothing once one is rejected |
| `ToolCalls.AssembledMeans` | crates/gocode-agent/src/toolcalls.rs:52-63 | each call is the concatenation of its own fragments with the last id seen |
| `ToolCalls.FragmentsJoin` | crates/gocode-agent/src/toolcalls.rs:52-63 | names and arguments of later fragments are appended to those of earlier ones |
| `ToolCalls.IdMeans` | crates/gocode-agent/src/toolcalls.rs:52-63 | the id of a call is the last one sent for it |
| `ToolCalls.AcceptedMeans` | crates/gocode-agent/src/toolcalls.rs:32-52 | a stream is accepted exactly when as a whole it names at most 32 calls and keeps each field within 64 KiB |
| `ToolCalls.InterleavingIndependent` | crates/gocode-agent/src/toolcalls.rs:32-63 | any interleaving with the same fragments per call is accepted too and gives the same calls |
| `ToolCalls.BudgetHolds` | crates/gocode-agent/src/toolcalls.rs:8-12 | the call and field limits always hold |
| `ToolCalls.LimitsMean` | crates/gocode-agent/src/toolcalls.rs:8-12 | the limits in numbers: at most 32 calls, and 65,536 bytes for each name, argument text and id |
| `ToolCalls.SortedMeans` | crates/gocode-agent/src/toolcalls.rs:70-72 | the keys in strictly increasing order, each once |
| `ToolCalls.FinishMeans` | crates/gocode-agent/src/toolcalls.rs:70-88 | finished calls are in index order, with a made-up id only where none was sent, and arguments parsed, or the empty object when they are blank or rejected |
| `SubagentManagers.SubagentManager.Spawn` | crates/gocode-agent/src/subagent_manager.rs:239-330 | a spawn is refused with the first failing check and changes nothing, or fails to create its worktree or record and keeps only the claimed name, or queues exactly one subagent |
| `SubagentManagers.SubagentManager.SendMessageTo` | crates/gocode-agent/src/subagent_manager.rs:340-364 | a message is refused exactly for unknown records, finished subagents and records that cannot be saved |
| `SubagentManagers.SubagentManager.StopAgent` | crates/gocode-agent/src/subagent_manager.rs:373-390 | a stop only cancels; the status is the worker's to change |
| `SchedulerTheorems.NextInv` | crates/gocode-agent/src/subagent_manager.rs:494-734 | every step of manager, worker, nested spawn or outside world keeps the invariant |
| `SchedulerTheorems.RunInv` | crates/gocode-agent/src/subagent_manager.rs:494-734 | so every reachable state satisfies it |
| `SchedulerTheorems.PermitBound` | crates/gocode-agent/src/subagent_manager.rs:215 | permits are conserved and holders never exceed max(max_concurrent, 1) |
| `SchedulerTheorems.LifecycleOk` | crates/gocode-agent/src/subagent_manager.rs:494-548 | every status history is a lifecycle, terminal only at its end, and permits are held exactly while running |
| `SchedulerHistories.StatusCause` | crates/gocode-agent/src/subagent_manager.rs:494-734 | over whole runs: every recorded status was written by one step, and it is exactly the status that step causes |
| `SchedulerHistories.FinalStatus` | crates/gocode-agent/src/subagent_manager.rs:598-687 | a finished subagent ends as Completed, Failed or TimedOut if and only if that step finished it, and as Stopped if and only if it observed its cancellation or got its permit after it |
| `SchedulerHistories.RunningAndWaiting` | crates/gocode-agent/src/subagent_manager.rs:494-548 | Running is recorded only by a worker that begins uncancelled or resumes, WaitingInput only by asking for input |
| `SchedulerHistories.CancelledMeans` | crates/gocode-agent/src/subagent_manager.rs:373-390 | a subagent is cancelled exactly when it was stopped or timed out at some point |
| `SchedulerHistories.StoppedWasAsked` | crates/gocode-agent/src/subagent_manager.rs:373-390 | nobody ends as Stopped who was not asked to stop |
| `SchedulerHistories.ListedMeans` | crates/gocode-agent/src/subagent_manager.rs:494-734 | a record is there exactly until it is deleted |
| `SchedulerHistories.CompletesWhenRead` | crates/gocode-agent/src/subagent_manager.rs:598-687 | with a send as one step: a subagent completes only once every message sent to it has been taken up, and goes on or resumes only for one that has not |
| `SchedulerHistories.PossibleSteps` | crates/gocode-agent/src/subagent_manager.rs:494-734 | over whole runs: which step is possible exactly when, read off the last status, the steps so far and the free permits |
| `SchedulerTheorems.PermissionsContained` | crates/gocode-agent/src/subagent_manager.rs:239-300 | a writing subagent has a worktree no other has and no plan-mode parent; children are at depth 2 with their parent's permissions |
| `SchedulerTheorems.SpawnNeverDowngrades` | crates/gocode-agent/src/subagent_manager.rs:461-467 | an accepted request runs in the mode it asked for |
| `SchedulerHistories.SpawnAccepted` | crates/gocode-agent/src/subagent_manager.rs:239-300 | a request is accepted exactly within depth two, with a worktree only to implement, implementing only outside plan mode and under an unclaimed name |
| `SchedulerHistories.SpawnRefused` | crates/gocode-agent/src/subagent_manager.rs:239-300 | which error a refused request gets: the first of the four that applies |
| `SchedulerTheorems.ModeAsRequested` | crates/gocode-agent/src/subagent_manager.rs:239-330 | in every reachable state each subagent has the mode its spawn asked for |
| `SchedulerTheorems.ClaimedMeans` | crates/gocode-agent/src/subagent_manager.rs:271-300 | the claimed worktree names are those of all writing subagents ever asked for, failed spawns included |
| `SchedulerTheorems.StoppedInQueue` | crates/gocode-agent/src/subagent_manager.rs:501-508 | a subagent cancelled before it gets its permit never becomes Running in any continuation |
| `SchedulerTheorems.StoppedWhileQueued` | crates/gocode-agent/src/subagent_manager.rs:501-508 | a run that ends in the history Queued, Stopped |
| `SchedulerTheorems.StuckMeansIdle` | crates/gocode-agent/src/subagent_manager.rs:494-705 | a reachable state is stuck exactly when every subagent is idle |
| `SchedulerTheorems.WaitsForIsFlat` | crates/gocode-agent/src/agent_spawn_tool.rs:99-146 | whoever a parent waits for is a depth-2 child that waits for nobody |
| `SchedulerHistories.Delegation` | crates/gocode-agent/src/agent_spawn_tool.rs:99-146 | exactly a running depth-1 subagent that waits for nobody delegates, with at least two slots and an acceptable request, and exactly a finished child whose record is there ends its wait |
| `SchedulerTheorems.StuckExactly` | crates/gocode-agent/src/agent_spawn_tool.rs:99-146 | undisturbed, a reachable state is stuck if and only if all have finished or every permit holder is a depth-1 parent blocked on a queued child |
| `SchedulerTheorems.FewBlockedMeansProgress` | crates/gocode-agent/src/subagent_manager.rs:131-140 | fewer blocked parents than permits implies that some worker can take a step |
| `SchedulerDeadlock.DelegatingReaches` | crates/gocode-agent/src/agent_spawn_tool.rs:99-146 | the run in which n subagents all start, and then k of them delegate, ends with k blocked parents and k queued children |
| `SchedulerDeadlock.DelegatingDeadlocks` | crates/gocode-agent/src/subagent_manager.rs:133-140 | with as many delegating parents as permits, nothing can move |
| `SchedulerDeadlock.NoNestingNoDeadlock` | crates/gocode-agent/src/subagent_manager.rs:565-575 | below two slots no deadlock is reachable |
| `SchedulerDeadlock.DeadlockReachable` | crates/gocode-agent/src/subagent_manager.rs:131-140 | a deadlock is reachable if and only if nesting is enabled |
| `SchedulerDeadlock.DeadlockStep` | crates/gocode-agent/src/subagent_manager.rs:494-548 | a deadlock survives an enabled step if and only if the step is not a timeout or a stop of a permit holder |
| `SchedulerDeadlock.DeadlockLasts` | crates/gocode-agent/src/subagent_manager.rs:494-548 | over whole runs: it lasts throughout if and only if no later step is a timeout or a stop of one of the holders |
| `SubagentRecords.RecoverInterrupted` | crates/gocode-core/src/subagent.rs:379-391 | the disk after the loop is the recovered disk, and the ids are returned in listing order |
| `SubagentRecords.StaleMeans` | crates/gocode-core/src/subagent.rs:379-391 | the returned ids are exactly the recovered records, each once |
| `SubagentRecords.RecoveredMeans` | crates/gocode-core/src/subagent.rs:379-391 | record by record: an unfinished one that can be saved becomes Interrupted at the time of the recovery, every other stays |
| `SubagentRecords.RecoveryFinishes` | crates/gocode-core/src/subagent.rs:379-391 | a recovery leaves unfinished exactly the unfinished records whose save failed, so all are terminal if and only if no such save failed |
| `SubagentRecords.RecoveryEnds` | crates/gocode-core/src/subagent.rs:379-391 | once every unfinished record is saved, a second recovery returns no id and changes no record, whatever the listing order |
| `SubagentRecords.RecoveryKeepsLifecycles` | crates/gocode-core/src/subagent.rs:70-94 | recovery appends Interrupted to unfinished saved histories, keeping them lifecycles, and nothing else |
| `BoundedBuffers.BoundedBuffer.Push` | crates/gocode-tools/src/process.rs:376-394 | one chunk fills the head up to the last boundary that fits and the tail with the rest |
| `BoundedBuffers.BoundedBuffer.PushTail` | crates/gocode-tools/src/process.rs:396-406 | the tail keeps the longest end within the limit that starts at a boundary |
| `BoundedBuffers.BoundedBuffer.Finish` | crates/gocode-tools/src/process.rs:408-417 | both ends with the gap line between them, within twice the limit |
| `BoundedBuffers.Capture` | crates/gocode-tools/src/process.rs:359-418 | capturing a whole stream keeps both ends within the limit |
| `BoundedBuffers.LastBytesAppend` | crates/gocode-tools/src/process.rs:396-406 | trimming chunk by chunk equals trimming once |
| `BoundedBuffers.TailIsEndOfRest` | crates/gocode-tools/src/process.rs:376-406 | for any text and any cut, nothing is lost before the tail, which is the longest end of what passed the head |
| `BoundedBuffers.TruncatedExactly` | crates/gocode-tools/src/process.rs:376-394 | the mark is set exactly when the stream exceeds the limit or an empty chunk found the head full |
| `BoundedBuffers.ChunkingIndependent` | crates/gocode-tools/src/process.rs:376-406 | what is kept is independent of the cut if and only if no later character fits the room left at the limit |
| `BoundedBuffers.TextSkips` | crates/gocode-tools/src/process.rs:376-394 | the text a, euro sign, b with a limit of two bytes: two cuts with different heads |
| `BoundedBuffers.AsciiEnds` | crates/gocode-tools/src/process.rs:359-418 | for single-byte text the head is the first min(limit, total) bytes and the tail the last ones after it |
| `BoundedText.EncodeMeans` | crates/gocode-tools/src/process.rs:376-406 | the bytes of one character, RFC 3629 section 3 |
| `BoundedText.BoundariesOfText` | crates/gocode-tools/src/process.rs:376-406 | the boundaries of encoded text are exactly the places between its characters |
| `BoundedText.CapturedText` | crates/gocode-tools/src/process.rs:359-418 | whatever the texts and wherever the limit falls, both captured ends decode |
| `BoundedText.OneText` | crates/gocode-tools/src/process.rs:376-418 | one text: the longest beginning that fits the limit and, if that is not all, the longest end of the rest that fits it, in characters |
| `Redaction.RedactAfter` | crates/gocode-tools/src/process.rs:46-69 | the cursor loop computes the specified redaction of one marker |
| `Redaction.RedactSecrets` | crates/gocode-tools/src/process.rs:27-44 | the ten passes in order |
| `Redaction.PassGuards` | crates/gocode-tools/src/process.rs:46-69 | a pass guards its own marker and keeps every other guarded marker guarded |
| `Redaction.PassFixed` | crates/gocode-tools/src/process.rs:46-69 | a pass changes nothing if and only if its marker was guarded |
| `Redaction.PassMasks` | crates/gocode-tools/src/process.rs:46-69 | a pass replaces disjoint words after its marker and keeps everything else in order, and replaces nothing exactly where the marker does not occur |
| `Redaction.SecretsGuarded` | crates/gocode-tools/src/process.rs:27-44 | in the output every occurrence of every marker, in any case, is followed by whitespace and the replacement as a word |
| `Redaction.SecretsFixed` | crates/gocode-tools/src/process.rs:27-44 | redaction changes nothing if and only if the text already satisfies that |
| `Redaction.Idempotent` | crates/gocode-tools/src/process.rs:27-44 | a second redaction changes nothing |
| `RedactionTheorems.SecretsMasked` | crates/gocode-tools/src/process.rs:27-69 | all ten passes together: disjoint words of the original text are replaced, each the word after a marker in the original, everything else is kept in order, and every original marker is touched by a replacement, followed by one, or was covered already |
| `RedactionTheorems.SpelledSecretsCovered` | crates/gocode-tools/src/process.rs:27-69 | in the output, wherever one of the ten markers is spelled, in capitals or not, whitespace, if anything, and then the replacement as a word of its own follows |
| `RedactionTheorems.JoinGuarded` | crates/gocode-tools/src/process.rs:237-250 | for each marker, two redacted texts joined satisfy the post-condition if and only if the second does, no secret replaced at the end of the first goes on in the second, and a marker cut between them is followed by a replacement |
| `RedactionTheorems.ChunksGuarded` | crates/gocode-tools/src/process.rs:237-250 | a stream redacted chunk by chunk satisfies it if and only if every cut does |
| `RedactionTheorems.CutMarkerMissed` | crates/gocode-tools/src/process.rs:237-250 | two chunks that cut a marker, and what is handed on |
| `Utf8.DecodeMeans` | crates/gocode-lsp/src/transport/stdio.rs:61-63 | decoding accepts exactly the encodings, each of one text |
| `Framing.ParsePrinted` | crates/gocode-lsp/src/transport/stdio.rs:56-58 | a printed length parses back exactly when it fits the machine word |
| `FramingHeaders.ParseUsizeMeans` | crates/gocode-lsp/src/transport/stdio.rs:56-58 | a text is a number exactly when it is an optional plus sign, any zeros and the decimal digits of a 64-bit number |
| `Framing.Reader.ReadFramedMessage` | crates/gocode-lsp/src/transport/stdio.rs:42-64 | the line loop returns the specified message and leaves the input after it |
| `Framing.ReadMessages` | crates/gocode-lsp/src/transport/stdio.rs:42-64 | repeated reading yields the messages up to the first failure or the end |
| `Framing.BlockReads` | crates/gocode-lsp/src/transport/stdio.rs:45-59 | a header block is consumed exactly, whatever other headers it has; the last length line decides |
| `Framing.MessageReads` | crates/gocode-lsp/src/transport/stdio.rs:42-64 | a message is read under any header block that announces its length |
| `FramingHeaders.HeaderMeans` | crates/gocode-lsp/src/transport/stdio.rs:45-59 | a length line sets the length, or unsets it when no number follows the colon; any other line leaves it |
| `FramingHeaders.LastLengthDecides` | crates/gocode-lsp/src/transport/stdio.rs:45-59 | of the length lines of a block only the last one counts |
| `FramingHeaders.HeadersRead` | crates/gocode-lsp/src/transport/stdio.rs:42-64 | a body is read under any block whose last length line says its length, in whatever whitespace, and whatever headers stand around it |
| `FramingHeaders.HeadersRefused` | crates/gocode-lsp/src/transport/stdio.rs:42-64 | nothing is read under a block without a length line or whose last one is no number |
| `Framing.FrameReads` | crates/gocode-lsp/src/jsonrpc.rs:152-158 | what the encoder frames is read back, and reading stops at its end |
| `FramingHeaders.SomeFrame` | crates/gocode-lsp/src/jsonrpc.rs:152-158 | one frame, written out |
| `Framing.RoundTrip` | crates/gocode-lsp/src/jsonrpc.rs:152-158 | any list of framed bodies, concatenated, is read back in order and ends at the end of the input |
| `SseStream.LinesAppend` | crates/gocode-provider-nvidia/src/lib.rs:124-147 | only the unfinished line has to be kept between chunks |
| `SseStream.LinesMeans` | crates/gocode-provider-nvidia/src/lib.rs:139-141 | lines and unfinished rest are the text, none with a newline |
| `SseEvents.PayloadMeans` | crates/gocode-provider-nvidia/src/lib.rs:142-147 | a line carries exactly the trimmed text behind `data:`, carriage returns at its end or not; any other line carries nothing |
| `SseEvents.DataLine` | crates/gocode-provider-nvidia/src/lib.rs:142-147 | the same, for whatever whitespace stands around the payload |
| `SseStream.Relay` | crates/gocode-provider-nvidia/src/lib.rs:124-161 | the loop sends what the specification says for the arrivals, as far as the receiver stays: text, network error, cancellation or the end; `PayloadMeans` and `EventsRelayed` say what that is |
| `SseStream.RelayedMeans` | crates/gocode-provider-nvidia/src/lib.rs:124-161 | what is sent is the report of the whole text read, up to the first failing payload, and then why reading ended, at the first arrival that is not text or is too much to hold |
| `SseStream.RelayedWhole` | crates/gocode-provider-nvidia/src/lib.rs:139-161 | a body read to its end is reported independently of how it was cut |
| `SseStream.SmallStreamsPass` | crates/gocode-provider-nvidia/src/lib.rs:131-138 | a stream within the bound is never cut off |
| `SseEvents.BoundIsMegabyte` | crates/gocode-provider-nvidia/src/lib.rs:131-138 | one byte more than 1,048,576 held back ends the stream |
| `SseEvents.PrintedReport` | crates/gocode-provider-nvidia/src/lib.rs:139-161 | a printed stream of payloads is reported as what each maps to, in order, up to the first that maps to nothing |
| `SseEvents.EventsRelayed` | crates/gocode-provider-nvidia/src/lib.rs:124-161 | and so it is relayed, however it is cut into chunks, within a megabyte |
| `SseEvents.EventsCut` | crates/gocode-provider-nvidia/src/lib.rs:124-161 | a stream that breaks off is relayed up to there, and then, unless a payload could not be mapped, comes the network error, or nothing more after a cancellation |

## Left out

- SubagentManagers.SubagentManager.SendMessageTo: the message's text and its redaction are left out.
- The real file system: paths, symlinks and atomic renames. Workspaces are maps from paths to contents, and a disk is
  the set of paths that do not resolve and the set of files that cannot be written or removed, both fixed during a
  request. A file that cannot be read as text counts as absent.
- Persistence of undo stores and sessions, JSON and TOML parsing, process spawning, HTTP, git, the terminal
  interface and the updater: no behaviour of their own in this model.
- Wording of prompts, reminders and labels is shortened; only where it is placed matters.
- AgentRun.Drive: a turn's own failures (provider errors, an over-long response, a rejected tool-call fragment) are one
  outcome `TurnFailed`, because the loop treats them alike; events sent to the interface are not modelled.
- UndoRuns.CollectRun: the run is given as its calls, and whether it ended with an end event as a flag.
- UndoRuns.RunIsUndoable: assumes calls that report what they change; what a failing patch changes is unreported
  (`FailedPatchUndo`), and edits by shell commands are neither reported nor read. `RequestFrame` says what happens to
  such files.
- The JSON parser: any function from texts to values that may reject (`ToolCalls.Parser`).
- SchedulerTheorems.NextInv: worker tasks interleave step by step on one shared value; the awaits inside `finish` and
  `update` and the order in which the semaphore serves waiters are not modelled, and timeouts may fire at any moment.
  After a stop the worker may still take steps before it observes the cancellation, so a stopped subagent that was
  already running may end in any terminal status.
- SchedulerHistories.CompletesWhenRead: a send is one step of the step system. In the program the queue push happens
  after the status lock is released, and a subagent may complete in between, so an accepted message can be lost there.
- Subagent message histories: the worker's own copy overwrites the shared record.
- Permission policies and command-risk classification: settled by reading single branches.
- Framing.RoundTrip: `usize` is 64 bits wide, so bodies are at most 2^64 - 1 bytes.
- SseStream.Relay: chunks are the decoded texts; a character split between two network chunks is replaced before the
  line loop sees it. A cancellation is seen between two arrivals.
- MCP and LSP configuration merging, session metadata and display truncation: single-branch members.
