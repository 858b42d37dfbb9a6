/** Recovery of the persisted subagent records when the application starts. */
module SubagentRecords {
  import opened Scheduler
  import opened SchedulerTheorems

  datatype Record = Record(id: Id, status: Status, updatedAt: nat)

  /** What recovery makes of one record whose save succeeds. */
  function Interrupt(r: Record, now: nat): Record {
    if r.status.IsTerminal() then r else r.(status := Interrupted, updatedAt := now)
  }

  /** The disk after recovery. `writable` holds the records whose save succeeds. */
  function Recovered(disk: map<Id, Record>, writable: set<Id>, now: nat): map<Id, Record> {
    map id | id in disk :: if id in writable then Interrupt(disk[id], now) else disk[id]
  }

  /** The listing of the persisted records: each once, as the disk holds it. */
  ghost predicate Lists(listed: seq<Record>, disk: map<Id, Record>) {
    && (forall i, j :: 0 <= i < j < |listed| ==> listed[i].id != listed[j].id)
    && (forall i :: 0 <= i < |listed| ==> listed[i].id in disk && disk[listed[i].id] == listed[i])
    && (forall id :: id in disk ==> exists i :: 0 <= i < |listed| && listed[i].id == id)
  }

  /** The records recovery interrupts, in listing order. */
  function Stale(listed: seq<Record>, writable: set<Id>): seq<Id> {
    if listed == [] then []
    else
      var rest, r := Stale(listed[..|listed| - 1], writable), listed[|listed| - 1];
      if !r.status.IsTerminal() && r.id in writable then rest + [r.id] else rest
  }

  /** Every listed record that is not terminal is saved as interrupted; a failed save is skipped. */
  method RecoverInterrupted(disk: map<Id, Record>, listed: seq<Record>, writable: set<Id>, now: nat)
    returns (saved: map<Id, Record>, recovered: seq<Id>)
    requires Lists(listed, disk)
    ensures recovered == Stale(listed, writable)
    ensures saved == Recovered(disk, writable, now)
  {
    saved, recovered := disk, [];
    var i := 0;
    while i < |listed|
      invariant 0 <= i <= |listed|
      invariant recovered == Stale(listed[..i], writable)
      invariant saved.Keys == disk.Keys
      invariant forall j :: 0 <= j < i ==>
                  saved[listed[j].id] == if listed[j].id in writable then Interrupt(listed[j], now) else listed[j]
      invariant forall j :: i <= j < |listed| ==> saved[listed[j].id] == listed[j]
    {
      var record := listed[i];
      assert listed[..i + 1][..i] == listed[..i];
      if !record.status.IsTerminal() {
        record := record.(status := Interrupted, updatedAt := now);
        if record.id in writable {
          saved := saved[record.id := record];
          recovered := recovered + [record.id];
        }
      }
      i := i + 1;
    }
    assert listed[..i] == listed;
  }

  /** The returned ids are exactly the unfinished records that could be saved, each once. */
  lemma {:induction false} StaleMeans(listed: seq<Record>, writable: set<Id>)
    requires forall i, j :: 0 <= i < j < |listed| ==> listed[i].id != listed[j].id
    ensures forall id :: id in Stale(listed, writable) <==>
              exists i :: 0 <= i < |listed| && listed[i].id == id && !listed[i].status.IsTerminal() && id in writable
    ensures forall i, j :: 0 <= i < j < |Stale(listed, writable)| ==>
            Stale(listed, writable)[i] != Stale(listed, writable)[j]
  {
    if listed != [] {
      StaleMeans(listed[..|listed| - 1], writable);
    }
  }

  /** Record by record: an unfinished record that can be saved becomes interrupted, at the time of the recovery, and
      every other record stays as it is. */
  lemma RecoveredMeans(disk: map<Id, Record>, writable: set<Id>, now: nat, id: Id)
    ensures id in Recovered(disk, writable, now) <==> id in disk
    ensures id in disk ==>
              var before, after := disk[id], Recovered(disk, writable, now)[id];
              after ==
              if id in writable && before.status in {Queued, Running, WaitingInput}
              then Record(before.id, Interrupted, now) else before
  {
  }

  /** What recovery achieves, for every disk: it leaves unfinished exactly the unfinished records whose save
      failed, so everything is terminal if and only if no such save failed. */
  lemma RecoveryFinishes(disk: map<Id, Record>, writable: set<Id>, now: nat)
    ensures forall id :: id in disk ==>
              (Recovered(disk, writable, now)[id].status.IsTerminal() <==>
               id in writable || disk[id].status.IsTerminal())
    ensures (forall id :: id in disk ==> Recovered(disk, writable, now)[id].status.IsTerminal()) <==>
            (forall id :: id in disk && !disk[id].status.IsTerminal() ==> id in writable)
  {
    forall id | id in disk
      ensures Recovered(disk, writable, now)[id].status.IsTerminal() <==> id in writable || disk[id].status.IsTerminal()
    {
    }
  }

  /** Once every unfinished record has been saved, a second recovery finds nothing: whatever the order of the
      listing, it returns no id and changes no record. */
  lemma RecoveryEnds(disk: map<Id, Record>, writable: set<Id>, now: nat, listed: seq<Record>, later: set<Id>, next: nat)
    requires forall id :: id in disk && !disk[id].status.IsTerminal() ==> id in writable
    requires Lists(listed, Recovered(disk, writable, now))
    ensures Stale(listed, later) == []
    ensures Recovered(Recovered(disk, writable, now), later, next) == Recovered(disk, writable, now)
  {
    RecoveryFinishes(disk, writable, now);
    StaleMeans(listed, later);
    if Stale(listed, later) != [] {
      SomeId(Stale(listed, later));
    }
  }

  lemma SomeId(ids: seq<Id>)
    requires ids != []
    ensures exists id :: id in ids
  {
    assert ids[0] in ids;
  }

  /** Recovery continues the histories of the records it touches as lifecycles, and leaves the others. */
  lemma RecoveryKeepsLifecycles(disk: map<Id, Record>, writable: set<Id>, now: nat, id: Id, history: seq<Status>)
    requires id in disk && Lifecycle(history) && history[|history| - 1] == disk[id].status
    ensures var status := Recovered(disk, writable, now)[id].status;
            && (status == disk[id].status || Lifecycle(history + [status]))
            && (status != disk[id].status ==> status == Interrupted && id in writable && !disk[id].status.IsTerminal())
  {
    if !disk[id].status.IsTerminal() {
      LifecycleSnoc(history, Interrupted);
    }
  }
}
