/**
  The shutdown completion journal over whole runs: it holds the newest generation
  recorded since it was last cleared, no snapshot can erase an entry, and a recovery
  completes exactly the journaled rows that still exist.
 */
module JournalLaws {
  import opened Base
  import opened Characters
  import opened Decimal
  import opened Documents
  import opened Downloads
  import opened Database
  import opened BackupRecovery
  import opened StoreRuns
  import Laws = RecoveryLaws

  /** Step k empties the id's entry: an explicit clear, or a recovery that succeeded. */
  ghost predicate Resets(t: Tables, ops: seq<Op>, k: nat, id: Id)
    requires k < |ops|
  {
    || (ops[k].ClearTerminal? && ops[k].id == id)
    || (ops[k].RecoverJournal? && var u := Run(t, ops[..k]); JournalApplies(u.downloads, u.journal))
  }

  ghost predicate RecordedSince(t: Tables, ops: seq<Op>, id: Id, generation: nat) {
    exists k :: 0 <= k < |ops| && ops[k] == RecordTerminal(id, generation) && !Blank(id)
                && forall j :: k < j < |ops| ==> !Resets(t, ops, j, id)
  }

  ghost predicate NewestSince(t: Tables, ops: seq<Op>, id: Id, generation: nat) {
    RecordedSince(t, ops, id, generation)
    && forall other: nat :: RecordedSince(t, ops, id, other) ==> other <= generation
  }

  lemma ResetsFront(t: Tables, ops: seq<Op>, k: nat, id: Id)
    requires ops != [] && k < |ops| - 1
    ensures Resets(t, ops, k, id) == Resets(t, Front(ops), k, id)
  {
    assert Front(ops)[..k] == ops[..k] && Front(ops)[k] == ops[k];
  }

  lemma RecordedBefore(t: Tables, ops: seq<Op>, id: Id, generation: nat)
    requires ops != [] && RecordedSince(t, Front(ops), id, generation) && !Resets(t, ops, |ops| - 1, id)
    ensures RecordedSince(t, ops, id, generation)
  {
    var before, n := Front(ops), |ops| - 1;
    forall k | 0 <= k < n ensures Resets(t, ops, k, id) == Resets(t, before, k, id) { ResetsFront(t, ops, k, id); }
    var k :| 0 <= k < n && before[k] == RecordTerminal(id, generation) && !Blank(id)
             && forall j :: k < j < n ==> !Resets(t, before, j, id);
    assert ops[k] == RecordTerminal(id, generation);
    assert forall j :: k < j < |ops| ==> !Resets(t, ops, j, id);
  }

  lemma RecordedSinceLast(t: Tables, ops: seq<Op>, id: Id, generation: nat)
    requires ops != []
    ensures RecordedSince(t, ops, id, generation) <==>
            || (Last(ops) == RecordTerminal(id, generation) && !Blank(id))
            || (RecordedSince(t, Front(ops), id, generation) && !Resets(t, ops, |ops| - 1, id))
  {
    var before, n := Front(ops), |ops| - 1;
    assert ops[n] == Last(ops);
    if RecordedSince(t, before, id, generation) && !Resets(t, ops, n, id) {
      RecordedBefore(t, ops, id, generation);
    }
    if RecordedSince(t, ops, id, generation) {
      forall k | 0 <= k < n ensures Resets(t, ops, k, id) == Resets(t, before, k, id) { ResetsFront(t, ops, k, id); }
      var k :| 0 <= k < |ops| && ops[k] == RecordTerminal(id, generation) && !Blank(id)
               && forall j :: k < j < |ops| ==> !Resets(t, ops, j, id);
      if k < n {
        assert before[k] == ops[k];
        assert forall j :: k < j < n ==> !Resets(t, before, j, id);
        assert !Resets(t, ops, n, id);
      }
    }
  }

  lemma JournalUnchanged(t: Tables, op: Op, id: Id)
    requires UniqueIds(t.downloads) && ValidOp(op)
    requires !(op.RecordTerminal? && op.id == id) && !(op.ClearTerminal? && op.id == id)
    requires op.RecoverJournal? ==> !JournalApplies(t.downloads, t.journal)
    ensures var u := Apply(t, op);
            (id in u.journal <==> id in t.journal) && (id in t.journal ==> u.journal[id] == t.journal[id])
  {
    if op.RecoverBackups? {
      RecoveredKeepsUnique(t, op.candidates, op.mode, id);
    } else if op.InterruptRecovery? {
      InterruptedLookup(t, op.candidates, op.mode, op.committed, id);
    }
  }

  /** The printed form of the newest generation, or nothing. */
  ghost predicate HoldsNewest(t: Tables, ops: seq<Op>, id: Id) {
    var journal := Run(t, ops).journal;
    if id in journal then exists generation: nat :: generation <= U64_MAX && journal[id] == ToDecimal(generation) && NewestSince(t, ops, id, generation)
    else forall generation: nat :: !RecordedSince(t, ops, id, generation)
  }

  function Max(a: nat, b: nat): nat {
    if a > b then a else b
  }

  /** Recording keeps the larger of the stored and the new generation. */
  lemma RecordKeepsLarger(journal: Journal, id: Id, previous: nat, generation: nat)
    requires id in journal && journal[id] == ToDecimal(previous) && previous <= U64_MAX
    ensures Recorded(journal, id, generation).Ok?
    ensures var after := Recorded(journal, id, generation).value; id in after && after[id] == ToDecimal(Max(previous, generation))
  {
    ParsePrinted(previous);
  }

  lemma NewestOfBoth(t: Tables, ops: seq<Op>, id: Id, previous: nat, generation: nat)
    requires ops != [] && Last(ops) == RecordTerminal(id, generation) && !Blank(id)
    requires NewestSince(t, Front(ops), id, previous)
    ensures NewestSince(t, ops, id, Max(previous, generation))
  {
    assert !Resets(t, ops, |ops| - 1, id);
    forall g: nat ensures RecordedSince(t, ops, id, g) <==> g == generation || RecordedSince(t, Front(ops), id, g) {
      RecordedSinceLast(t, ops, id, g);
    }
  }

  lemma FirstRecorded(t: Tables, ops: seq<Op>, id: Id, generation: nat)
    requires ops != [] && Last(ops) == RecordTerminal(id, generation)
    requires forall g: nat :: !RecordedSince(t, Front(ops), id, g)
    ensures if Blank(id) then forall g: nat :: !RecordedSince(t, ops, id, g) else NewestSince(t, ops, id, generation)
  {
    forall g: nat ensures RecordedSince(t, ops, id, g) <==> g == generation && !Blank(id) {
      RecordedSinceLast(t, ops, id, g);
      assert !Resets(t, ops, |ops| - 1, id);
    }
  }

  lemma HoldsNewestIntro(t: Tables, ops: seq<Op>, id: Id, newest: nat)
    requires NewestSince(t, ops, id, newest) && newest <= U64_MAX
    requires id in Run(t, ops).journal && Run(t, ops).journal[id] == ToDecimal(newest)
    ensures HoldsNewest(t, ops, id)
  {
  }

  lemma RecordStep(u: Tables, id: Id, previous: nat, generation: nat)
    requires id in u.journal && u.journal[id] == ToDecimal(previous) && previous <= U64_MAX && !Blank(id)
    ensures var after := Apply(u, RecordTerminal(id, generation)).journal;
            id in after && after[id] == ToDecimal(Max(previous, generation))
  {
    RecordKeepsLarger(u.journal, id, previous, generation);
  }

  lemma AfterLaterRecord(t: Tables, ops: seq<Op>, id: Id, previous: nat, generation: nat)
    requires ops != [] && Last(ops) == RecordTerminal(id, generation) && generation <= U64_MAX && previous <= U64_MAX
    requires id in Run(t, Front(ops)).journal && Run(t, Front(ops)).journal[id] == ToDecimal(previous)
    requires NewestSince(t, Front(ops), id, previous)
    ensures HoldsNewest(t, ops, id)
  {
    NotBlankOnceRecorded(t, Front(ops), id, previous);
    RecordStep(Run(t, Front(ops)), id, previous, generation);
    NewestOfBoth(t, ops, id, previous, generation);
    HoldsNewestIntro(t, ops, id, Max(previous, generation));
  }

  lemma AfterFirstRecord(t: Tables, ops: seq<Op>, id: Id, generation: nat)
    requires ops != [] && Last(ops) == RecordTerminal(id, generation) && generation <= U64_MAX
    requires id !in Run(t, Front(ops)).journal && HoldsNewest(t, Front(ops), id)
    ensures HoldsNewest(t, ops, id)
  {
    FirstRecorded(t, ops, id, generation);
    if !Blank(id) {
      HoldsNewestIntro(t, ops, id, generation);
    }
  }

  lemma NewestAfterRecord(t: Tables, ops: seq<Op>, id: Id, generation: nat)
    requires ops != [] && Last(ops) == RecordTerminal(id, generation) && generation <= U64_MAX
    requires HoldsNewest(t, Front(ops), id)
    ensures HoldsNewest(t, ops, id)
  {
    var journal := Run(t, Front(ops)).journal;
    if id in journal {
      var previous: nat :| previous <= U64_MAX && journal[id] == ToDecimal(previous) && NewestSince(t, Front(ops), id, previous);
      AfterLaterRecord(t, ops, id, previous, generation);
    } else {
      AfterFirstRecord(t, ops, id, generation);
    }
  }

  lemma NotBlankOnceRecorded(t: Tables, ops: seq<Op>, id: Id, generation: nat)
    requires RecordedSince(t, ops, id, generation)
    ensures !Blank(id)
  {
  }

  lemma NewestUnchanged(t: Tables, ops: seq<Op>, id: Id)
    requires ops != [] && HoldsNewest(t, Front(ops), id)
    requires !(Last(ops).RecordTerminal? && Last(ops).id == id) && !Resets(t, ops, |ops| - 1, id)
    requires UniqueIds(Run(t, Front(ops)).downloads) && ValidOp(Last(ops))
    ensures HoldsNewest(t, ops, id)
  {
    assert ops[..|ops| - 1] == Front(ops) && ops[|ops| - 1] == Last(ops);
    JournalUnchanged(Run(t, Front(ops)), Last(ops), id);
    forall g: nat ensures RecordedSince(t, ops, id, g) <==> RecordedSince(t, Front(ops), id, g) {
      RecordedSinceLast(t, ops, id, g);
    }
    if id in Run(t, Front(ops)).journal {
      var journal := Run(t, Front(ops)).journal;
      var newest: nat :| newest <= U64_MAX && journal[id] == ToDecimal(newest) && NewestSince(t, Front(ops), id, newest);
      assert NewestSince(t, ops, id, newest);
    }
  }

  lemma NoneAfterReset(t: Tables, ops: seq<Op>, id: Id)
    requires ops != [] && Resets(t, ops, |ops| - 1, id)
    ensures HoldsNewest(t, ops, id)
  {
    assert ops[..|ops| - 1] == Front(ops) && ops[|ops| - 1] == Last(ops);
    forall g: nat ensures !RecordedSince(t, ops, id, g) {
      RecordedSinceLast(t, ops, id, g);
    }
    assert id !in Run(t, ops).journal;
  }

  /** From an empty journal, every entry is the newest generation recorded since its last reset. */
  lemma {:induction false} JournalHoldsNewest(t: Tables, ops: seq<Op>, id: Id)
    requires UniqueIds(t.downloads) && ValidOps(ops) && t.journal == map[]
    ensures HoldsNewest(t, ops, id)
  {
    if ops != [] {
      JournalHoldsNewest(t, Front(ops), id);
      RunKeepsUnique(t, Front(ops));
      assert ValidOp(ops[|ops| - 1]);
      if Last(ops).RecordTerminal? && Last(ops).id == id {
        NewestAfterRecord(t, ops, id, Last(ops).generation);
      } else if Resets(t, ops, |ops| - 1, id) {
        NoneAfterReset(t, ops, id);
      } else {
        NewestUnchanged(t, ops, id);
      }
    }
  }

  // ---------- A recorded completion reaches the next start ----------

  predicate Keeps(op: Op, id: Id) {
    !op.RecoverJournal? && !(op.ClearTerminal? && op.id == id)
  }

  lemma {:induction false} EntrySurvives(t: Tables, ops: seq<Op>, id: Id)
    requires UniqueIds(t.downloads) && ValidOps(ops) && id in t.journal
    requires forall k :: 0 <= k < |ops| ==> Keeps(ops[k], id)
    ensures id in Run(t, ops).journal
  {
    if ops != [] {
      EntrySurvives(t, Front(ops), id);
      RunKeepsUnique(t, Front(ops));
      var u, op := Run(t, Front(ops)), Last(ops);
      assert op == ops[|ops| - 1] && ValidOp(op) && Keeps(op, id);
      if !(op.RecordTerminal? && op.id == id) {
        JournalUnchanged(u, op, id);
      }
    }
  }

  /** The row is completed in index and document, and otherwise as it was. */
  predicate CompletedFrom(before: Row, after: Row) {
    && after.id == before.id && after.status == "completed" && Agrees(after) && after.queueId == before.queueId
    && before.data.Record? && after.data.Record?
    && after.data.fields - {Status} == before.data.fields - {Status}
  }

  lemma RecoveredIds(t: Tables)
    requires UniqueIds(t.downloads) && JournalApplies(t.downloads, t.journal)
    ensures Ids(Apply(t, RecoverJournal).downloads) == Ids(t.downloads)
  {
    var rows, out := t.downloads, Apply(t, RecoverJournal).downloads;
    RecoveryWrites(rows, t.journal);
    forall k | 0 <= k < |rows| ensures rows[k].id in Ids(out) && out[k].id in Ids(rows) {
      assert out[k].id == rows[k].id;
    }
  }

  lemma RecoveredLookup(t: Tables, id: Id)
    requires UniqueIds(t.downloads) && JournalApplies(t.downloads, t.journal)
    ensures var out := Apply(t, RecoverJournal).downloads;
            && (HasRow(out, id) <==> HasRow(t.downloads, id))
            && (HasRow(t.downloads, id) ==> Lookup(out, id) == Some(out[Find(t.downloads, id).value]))
  {
    RecoveryWrites(t.downloads, t.journal);
    LookupPointwise(t.downloads, Completed(t.downloads, t.journal.Keys), id);
  }

  lemma RecoveredOthers(t: Tables, id: Id)
    requires UniqueIds(t.downloads) && JournalApplies(t.downloads, t.journal) && id !in t.journal
    ensures Lookup(Apply(t, RecoverJournal).downloads, id) == Lookup(t.downloads, id)
  {
    RecoveredLookup(t, id);
    RecoveryWrites(t.downloads, t.journal);
  }

  lemma CompletedRowMeaning(row: Row)
    requires CompletableRow(row)
    ensures CompletedFrom(row, CompletedRow(row))
  {
    assert CompletedRow(row).data.fields - {Status} == row.data.fields - {Status};
  }

  lemma RecoveredAt(t: Tables, k: nat)
    requires k < |t.downloads| && t.downloads[k].id in t.journal && JournalApplies(t.downloads, t.journal)
    ensures var out := Apply(t, RecoverJournal).downloads;
            |out| == |t.downloads| && CompletedFrom(t.downloads[k], out[k])
  {
    CompletedRowMeaning(t.downloads[k]);
  }

  lemma RecoveredRow(t: Tables, id: Id)
    requires UniqueIds(t.downloads) && JournalApplies(t.downloads, t.journal) && id in t.journal && HasRow(t.downloads, id)
    ensures HasRow(Apply(t, RecoverJournal).downloads, id)
    ensures CompletedFrom(Lookup(t.downloads, id).value, Lookup(Apply(t, RecoverJournal).downloads, id).value)
  {
    RecoveredLookup(t, id);
    RecoveredAt(t, Find(t.downloads, id).value);
  }

  /**
    A completion recorded before any number of snapshots, mutations and restarts is
    applied by the next successful recovery to the row, if the row still exists: index
    and document say completed, every other field and every other row is untouched, no
    row appears, and the journal is empty.
   */
  lemma CompletionReachesTheNextStart(t: Tables, ops: seq<Op>, id: Id)
    requires UniqueIds(t.downloads) && ValidOps(ops) && id in t.journal
    requires forall k :: 0 <= k < |ops| ==> Keeps(ops[k], id)
    requires JournalApplies(Run(t, ops).downloads, Run(t, ops).journal)
    ensures var u := Run(t, ops); var v := Apply(u, RecoverJournal);
            Delivered(u, v, id)
  {
    EntrySurvives(t, ops, id);
    RunKeepsUnique(t, ops);
    RecoveryDelivers(Run(t, ops), id);
  }

  /** What one successful recovery makes of a journaled id and of everything else. */
  ghost predicate Delivered(u: Tables, v: Tables, id: Id) {
    && v.journal == map[]
    && Ids(v.downloads) == Ids(u.downloads)
    && (forall other :: other !in u.journal ==> Lookup(v.downloads, other) == Lookup(u.downloads, other))
    && (HasRow(u.downloads, id) ==>
          HasRow(v.downloads, id) && CompletedFrom(Lookup(u.downloads, id).value, Lookup(v.downloads, id).value))
  }

  lemma RecoveryDelivers(u: Tables, id: Id)
    requires UniqueIds(u.downloads) && JournalApplies(u.downloads, u.journal) && id in u.journal
    ensures Delivered(u, Apply(u, RecoverJournal), id)
  {
    RecoveredIds(u);
    forall other | other !in u.journal ensures Lookup(Apply(u, RecoverJournal).downloads, other) == Lookup(u.downloads, other) {
      RecoveredOthers(u, other);
    }
    if HasRow(u.downloads, id) {
      RecoveredRow(u, id);
    }
  }

  /** A recovery that cannot apply one entry changes neither table. */
  lemma FailedRecoveryChangesNothing(t: Tables, k: nat)
    requires k < |t.downloads| && t.downloads[k].id in t.journal && !CompletableRow(t.downloads[k])
    ensures Apply(t, RecoverJournal) == t
  {
    assert !JournalApplies(t.downloads, t.journal);
  }

  /** A journaled row that cannot be completed. */
  predicate Stuck(t: Tables, id: Id) {
    id in t.journal && HasRow(t.downloads, id) && !CompletableRow(Lookup(t.downloads, id).value)
  }

  /**
    Steps that neither write the id's row nor clear its entry. The journal recovery is one of
    them, and a backup recovery is one when the row names its id.
   */
  predicate Avoids(op: Op, id: Id, named: bool) {
    match op
    case Mutate(other, _, _) => other != id
    case Invalidate(other, _) => other != id
    case ClearTerminal(other) => other != id
    case FinishRemoval(other, _) => other != id
    case RecordTerminal(_, _) => true
    case RecoverJournal => true
    case RecoverBackups(_, _) => named
    case InterruptRecovery(_, _, _) => named
    case SubmitRemoval(_) => true
    case StartRemoval(_) => true
    case RetryRemoval(_) => true
    case ChangeOwnership(_, _, _) => true
    case _ => false
  }

  lemma StuckRecovery(t: Tables, id: Id)
    requires Stuck(t, id)
    ensures Apply(t, RecoverJournal) == t
  {
    FailedRecoveryChangesNothing(t, Find(t.downloads, id).value);
  }

  lemma RecoveryLeavesNamed(t: Tables, op: Op, id: Id)
    requires UniqueIds(t.downloads) && ValidOp(op) && (op.RecoverBackups? || op.InterruptRecovery?)
    requires HasRow(t.downloads, id) && ValidRecord(Lookup(t.downloads, id).value)
    ensures Lookup(Apply(t, op).downloads, id) == Lookup(t.downloads, id)
  {
    if op.InterruptRecovery? {
      InterruptedLookup(t, op.candidates, op.mode, op.committed, id);
    } else if OrphanMode(t) {
      Laws.OrphansRestoredExactly(t, op.candidates, op.mode, id);
    }
  }

  lemma StuckEntry(t: Tables, op: Op, id: Id)
    requires UniqueIds(t.downloads) && ValidOp(op) && Stuck(t, id) && !(op.ClearTerminal? && op.id == id)
    ensures id in Apply(t, op).journal
  {
    StuckRecovery(t, id);
    if !(op.RecordTerminal? && op.id == id) && !op.RecoverJournal? {
      JournalUnchanged(t, op, id);
    }
  }

  lemma StuckStep(t: Tables, op: Op, id: Id)
    requires UniqueIds(t.downloads) && ValidOp(op) && Stuck(t, id) && Avoids(op, id, ValidRecord(Lookup(t.downloads, id).value))
    ensures Stuck(Apply(t, op), id) && Lookup(Apply(t, op).downloads, id) == Lookup(t.downloads, id)
  {
    StuckEntry(t, op, id);
    if op.Mutate? || op.Invalidate? {
      MutatedOthers(t, op, id);
    } else if op.FinishRemoval? {
      WithoutMeaning(t.downloads, op.id, id);
    } else if op.RecoverBackups? || op.InterruptRecovery? {
      RecoveryLeavesNamed(t, op, id);
    } else if op.RecoverJournal? {
      StuckRecovery(t, id);
    }
  }

  lemma MutatedOthers(t: Tables, op: Op, id: Id)
    requires UniqueIds(t.downloads) && ValidOp(op) && (op.Mutate? || op.Invalidate?) && op.id != id
    ensures Lookup(Apply(t, op).downloads, id) == Lookup(t.downloads, id)
  {
    var mutate := if op.Mutate? then op.mutate else InvalidateCheckpoint;
    if Mutated(t.downloads, op.id, mutate, op.mode).Ok? {
      MutateWrites(t.downloads, op.id, mutate, op.mode);
      LookupPointwise(t.downloads, Apply(t, op).downloads, id);
    }
  }

  /**
    One journaled row that cannot be completed fails the journal recovery of every start, until a
    step writes that row or clears its entry: no other recorded completion is applied either.
   */
  lemma {:induction false} StuckRowBlocksEveryStart(t: Tables, ops: seq<Op>, id: Id)
    requires UniqueIds(t.downloads) && ValidOps(ops) && Stuck(t, id)
    requires forall k :: 0 <= k < |ops| ==> Avoids(ops[k], id, ValidRecord(Lookup(t.downloads, id).value))
    ensures Stuck(Run(t, ops), id) && Apply(Run(t, ops), RecoverJournal) == Run(t, ops)
    ensures Lookup(Run(t, ops).downloads, id) == Lookup(t.downloads, id)
  {
    if ops != [] {
      StuckRowBlocksEveryStart(t, Front(ops), id);
      RunKeepsUnique(t, Front(ops));
      assert ValidOp(ops[|ops| - 1]) && Avoids(ops[|ops| - 1], id, ValidRecord(Lookup(t.downloads, id).value));
      StuckStep(Run(t, Front(ops)), Last(ops), id);
    }
    StuckRecovery(Run(t, ops), id);
  }

  // ---------- What a backup recovery leaves to the journal ----------

  /** A restored row agrees with its document exactly if that has a status; it can be completed only if that is not empty. */
  lemma RestoredAgreesExactly(doc: Document)
    requires RequiredString(doc, IdField).Some?
    ensures Agrees(RestoredRow(doc)) <==> StringField(doc, Status).Some?
    ensures CompletableRow(RestoredRow(doc)) <==> RequiredString(doc, Status).Some?
  {
  }

  /** A journaled id that a backup recovery restored blocks the next journal recovery exactly when its document has no non-empty status. */
  lemma RestoredStuckExactly(t: Tables, candidates: seq<Backup>, mode: Mode, id: Id)
    requires UniqueIds(t.downloads) && id in t.journal && Laws.Chosen(t, candidates, mode, id).Some?
    ensures var u, doc := Recovered(t, candidates, mode), Laws.Chosen(t, candidates, mode, id).value;
            && Lookup(u.downloads, id) == Some(RestoredRow(doc))
            && (Stuck(u, id) <==> RequiredString(doc, Status).None?)
            && (Agrees(Lookup(u.downloads, id).value) <==> StringField(doc, Status).Some?)
  {
    RecoveredKeepsUnique(t, candidates, mode, id);
    Laws.RestoredExactly(t, candidates, mode, id);
    RestoredAgreesExactly(Laws.Chosen(t, candidates, mode, id).value);
  }

  /** The id's row, or the document it will be restored from, can be completed. */
  predicate WillComplete(t: Tables, candidates: seq<Backup>, mode: Mode, id: Id) {
    match Laws.Chosen(t, candidates, mode, id)
    case Some(doc) => RequiredString(doc, Status).Some?
    case None => HasRow(t.downloads, id) ==> CompletableRow(Lookup(t.downloads, id).value)
  }

  lemma AppliesByLookup(u: Tables)
    requires UniqueIds(u.downloads)
    ensures JournalApplies(u.downloads, u.journal) <==>
      && (forall id :: id in u.journal ==> ParseU64(u.journal[id]).Some?)
      && (forall id :: id in u.journal && HasRow(u.downloads, id) ==> CompletableRow(Lookup(u.downloads, id).value))
  {
    if forall id :: id in u.journal && HasRow(u.downloads, id) ==> CompletableRow(Lookup(u.downloads, id).value) {
      forall k | 0 <= k < |u.downloads| && u.downloads[k].id in u.journal ensures CompletableRow(u.downloads[k]) {
        FindUnique(u.downloads, k);
        assert HasRow(u.downloads, u.downloads[k].id);
      }
    }
  }

  /**
    The journal recovery behind a backup recovery succeeds exactly when every journaled
    generation is a number and every journaled id can be completed, in the row it keeps or in
    the document it is restored from.
   */
  lemma JournalAppliesAfterRecovery(t: Tables, candidates: seq<Backup>, mode: Mode)
    requires UniqueIds(t.downloads)
    ensures var u := Recovered(t, candidates, mode);
            JournalApplies(u.downloads, u.journal) <==>
              forall id :: id in t.journal ==> ParseU64(t.journal[id]).Some? && WillComplete(t, candidates, mode, id)
  {
    var u := Recovered(t, candidates, mode);
    RecoveredKeepsUnique(t, candidates, mode, "");
    AppliesByLookup(u);
    forall id | id in t.journal
      ensures (HasRow(u.downloads, id) ==> CompletableRow(Lookup(u.downloads, id).value)) <==> WillComplete(t, candidates, mode, id)
    {
      Laws.RestoredExactly(t, candidates, mode, id);
      if Laws.Chosen(t, candidates, mode, id).Some? {
        RestoredAgreesExactly(Laws.Chosen(t, candidates, mode, id).value);
      }
    }
  }

  /** So such a document fails the journal recovery of every start after the restore. */
  lemma RestoredStatusBlocksEveryStart(t: Tables, candidates: seq<Backup>, mode: Mode, ops: seq<Op>, id: Id)
    requires UniqueIds(t.downloads) && id in t.journal && Laws.Chosen(t, candidates, mode, id).Some?
    requires RequiredString(Laws.Chosen(t, candidates, mode, id).value, Status).None?
    requires ValidOps(ops) && forall k :: 0 <= k < |ops| ==> Avoids(ops[k], id, true)
    ensures var v := Run(Recovered(t, candidates, mode), ops);
            && Apply(v, RecoverJournal) == v
            && Lookup(v.downloads, id) == Some(RestoredRow(Laws.Chosen(t, candidates, mode, id).value))
  {
    RecoveredKeepsUnique(t, candidates, mode, id);
    RestoredStuckExactly(t, candidates, mode, id);
    StuckRowBlocksEveryStart(Recovered(t, candidates, mode), ops, id);
  }

  /** Only the journal entry is left of the tables. */
  function OnlyJournaled(id: Id): Tables {
    Tables([], [], map[], map[id := "1"], map[], map[], map[], None)
  }

  lemma OneDocumentChosen(id: Id, doc: Document)
    requires RequiredString(doc, IdField) == Some(id)
    ensures Laws.Chosen(OnlyJournaled(id), [Backup([doc], map[], map[], map[], [])], Standard, id) == Some(doc)
  {
    var t, c := OnlyJournaled(id), Backup([doc], map[], map[], map[], []);
    assert RequiredString(c.downloads[0], IdField) == Some(id);
    assert Usable(c, Standard) && FirstUsable([c], Standard) == Some(0);
    assert id in HeldIds(CandidateDocs(c, Standard)) && Front([doc]) == [];
  }

  /** A document without a status: index and document part, and the journal recovery is blocked. */
  lemma DefaultedStatusBlocksRecovery(id: Id)
    requires id != ""
    ensures var doc := Record(map[IdField := Text(id)]);
            var restored := Recovered(OnlyJournaled(id), [Backup([doc], map[], map[], map[], [])], Standard);
            && Lookup(restored.downloads, id) == Some(Row(id, "completed", None, doc))
            && !Agrees(Row(id, "completed", None, doc))
            && Apply(restored, RecoverJournal) == restored
  {
    var doc := Record(map[IdField := Text(id)]);
    var candidates := [Backup([doc], map[], map[], map[], [])];
    OneDocumentChosen(id, doc);
    RestoredStuckExactly(OnlyJournaled(id), candidates, Standard, id);
    StuckRecovery(Recovered(OnlyJournaled(id), candidates, Standard), id);
  }

  /** A document with an empty status: index and document agree, and the journal recovery is blocked all the same. */
  lemma EmptyStatusBlocksRecovery(id: Id)
    requires id != ""
    ensures var doc := Record(map[IdField := Text(id), Status := Text("")]);
            var restored := Recovered(OnlyJournaled(id), [Backup([doc], map[], map[], map[], [])], Standard);
            && Lookup(restored.downloads, id) == Some(Row(id, "", None, doc))
            && Agrees(Row(id, "", None, doc))
            && Apply(restored, RecoverJournal) == restored
  {
    var doc := Record(map[IdField := Text(id), Status := Text("")]);
    var candidates := [Backup([doc], map[], map[], map[], [])];
    OneDocumentChosen(id, doc);
    RestoredStuckExactly(OnlyJournaled(id), candidates, Standard, id);
    StuckRecovery(Recovered(OnlyJournaled(id), candidates, Standard), id);
  }
}
