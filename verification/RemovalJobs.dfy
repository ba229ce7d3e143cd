/** The life of a removal job, over every step of the persisted tables. */
module RemovalJobs {
  import opened Base
  import opened Documents
  import opened Downloads
  import opened Database
  import opened BackupRecovery
  import opened StoreRuns

  /** No job, a job in one of the phases that the worker writes, or any other job. */
  datatype JobPhase = NoJob | Pending | Running | Failed | Finished | OtherJob

  function PhaseOf(t: Tables, id: Id): JobPhase {
    if id !in t.removalJobs then NoJob
    else
      match t.removalJobs[id]
      case Record(fields) =>
        if Phase !in fields then OtherJob
        else if fields[Phase] == Text("pending") then Pending
        else if fields[Phase] == Text("running") then Running
        else if fields[Phase] == Text("failed") then Failed
        else if fields[Phase] == Text("completed") then Finished
        else OtherJob
      case _ => OtherJob
  }

  /** The moves of a job: submitted for a row, run and run again after a crash, finished either way, retried. */
  predicate Moves(before: JobPhase, op: Op, id: Id, present: bool, after: JobPhase) {
    match op
    case SubmitRemoval(other) => other == id && before == NoJob && present && after == Pending
    case StartRemoval(other) => other == id && before in {Pending, Running} && after == Running
    case FinishRemoval(other, removed) => other == id && before == Running && after == if removed then Finished else Failed
    case RetryRemoval(other) => other == id && before == Failed && after == Pending
    case _ => false
  }

  lemma JobPhases(t: Tables, id: Id)
    ensures JobIn(t, id, "pending") <==> PhaseOf(t, id) == Pending
    ensures JobIn(t, id, "running") <==> PhaseOf(t, id) == Running
    ensures JobIn(t, id, "failed") <==> PhaseOf(t, id) == Failed
  {
  }

  lemma WrittenPhase(t: Tables, id: Id)
    ensures PhaseOf(WithJob(t, id, "pending"), id) == Pending && PhaseOf(WithJob(t, id, "running"), id) == Running
    ensures PhaseOf(WithJob(t, id, "failed"), id) == Failed && PhaseOf(WithJob(t, id, "completed"), id) == Finished
    ensures PhaseOf(Removed(t, id), id) == Finished
  {
  }

  predicate RemovalOp(op: Op) {
    op.SubmitRemoval? || op.StartRemoval? || op.FinishRemoval? || op.RetryRemoval?
  }

  lemma OtherStepsKeepJobs(t: Tables, op: Op)
    requires UniqueIds(t.downloads) && ValidOp(op) && !RemovalOp(op)
    ensures Apply(t, op).removalJobs == t.removalJobs
  {
    if op.Mutate? || op.Invalidate? || op.RecoverJournal? || op.SanitizePersisted? {
      InPlaceKeepsIds(t, op);
    } else if op.RecoverBackups? {
      RecoveredKeepsUnique(t, op.candidates, op.mode, "");
    } else if op.InterruptRecovery? {
      InterruptedLookup(t, op.candidates, op.mode, op.committed, "");
    }
  }

  ghost predicate CanMove(t: Tables, op: Op, id: Id) {
    exists after :: Moves(PhaseOf(t, id), op, id, HasRow(t.downloads, id), after)
  }

  lemma MoveMade(t: Tables, op: Op, id: Id)
    requires RemovalOp(op) && op.id == id && CanMove(t, op, id)
    ensures Moves(PhaseOf(t, id), op, id, HasRow(t.downloads, id), PhaseOf(Apply(t, op), id))
  {
    JobPhases(t, id);
    WrittenPhase(t, id);
  }

  lemma NoMove(t: Tables, op: Op, id: Id)
    requires RemovalOp(op) && op.id == id && !CanMove(t, op, id)
    ensures Apply(t, op).removalJobs == t.removalJobs
  {
    JobPhases(t, id);
    var before, present := PhaseOf(t, id), HasRow(t.downloads, id);
    assert !Moves(before, op, id, present, Pending) && !Moves(before, op, id, present, Running);
    assert !Moves(before, op, id, present, Finished) && !Moves(before, op, id, present, Failed);
  }

  lemma OtherIdsKeepJobs(t: Tables, op: Op, id: Id)
    requires RemovalOp(op) && op.id != id
    ensures var u := Apply(t, op);
            (id in u.removalJobs <==> id in t.removalJobs) && (id in t.removalJobs ==> u.removalJobs[id] == t.removalJobs[id])
  {
  }

  /** A job changes by its moves and in no other way: no restart, save, mutation or recovery touches it. */
  lemma JobStep(t: Tables, op: Op, id: Id)
    requires UniqueIds(t.downloads) && ValidOp(op)
    ensures var u := Apply(t, op);
            if CanMove(t, op, id) then Moves(PhaseOf(t, id), op, id, HasRow(t.downloads, id), PhaseOf(u, id))
            else (id in u.removalJobs <==> id in t.removalJobs) && (id in t.removalJobs ==> u.removalJobs[id] == t.removalJobs[id])
  {
    if !RemovalOp(op) {
      OtherStepsKeepJobs(t, op);
    } else if op.id != id {
      OtherIdsKeepJobs(t, op, id);
    } else if CanMove(t, op, id) {
      MoveMade(t, op, id);
    } else {
      NoMove(t, op, id);
    }
  }

  /** The last move takes the row and everything the id owns, and nothing of any other id. */
  lemma RemovalTakesOnly(t: Tables, id: Id, other: Id)
    requires UniqueIds(t.downloads) && PhaseOf(t, id) == Running
    ensures var u := Apply(t, FinishRemoval(id, true));
            && u.queues == t.queues && u.journal == t.journal && u.recoveryMarker == t.recoveryMarker
            && Lookup(u.downloads, other) == (if other == id then None else Lookup(t.downloads, other))
            && (other in u.ownership <==> other in t.ownership && other != id) && (other in u.ownership ==> u.ownership[other] == t.ownership[other])
            && (other in u.ownedPaths <==> other in t.ownedPaths && other != id) && (other in u.ownedPaths ==> u.ownedPaths[other] == t.ownedPaths[other])
            && (other in u.removalPaths <==> other in t.removalPaths && other != id)
            && (other in u.removalPaths ==> u.removalPaths[other] == t.removalPaths[other])
  {
    JobPhases(t, id);
    WithoutMeaning(t.downloads, id, other);
  }

  /** The other moves write the job and nothing else. */
  lemma OtherMovesKeepTables(t: Tables, op: Op)
    requires RemovalOp(op) && !(op.FinishRemoval? && op.removed)
    ensures Apply(t, op).(removalJobs := t.removalJobs) == t
  {
  }
}
