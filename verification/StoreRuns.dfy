/**
  Every operation that writes the persisted tables, as steps of one machine: renderer
  snapshots, native mutations, the shutdown journal, removal jobs, legacy import, backup
  recovery and ownership changes, in any order and with restarts anywhere between them.
 */
module StoreRuns {
  import opened Base
  import opened Characters
  import opened Decimal
  import opened Documents
  import opened Downloads
  import opened Database
  import opened BackupRecovery
  import Laws = RecoveryLaws

  datatype Op =
    | Save(docs: seq<Document>)
    | Mutate(id: Id, mutate: Mutation, mode: Mode)
    | Invalidate(id: Id, mode: Mode)
    | ImportLegacy(docs: seq<Document>, queues: seq<Document>, ownership: map<Id, string>)
    | RecoverBackups(candidates: seq<Backup>, mode: Mode)
    | InterruptRecovery(candidates: seq<Backup>, mode: Mode, committed: nat)
    | RecordTerminal(id: Id, generation: nat)
    | ClearTerminal(id: Id)
    | RecoverJournal
    | SanitizePersisted(mode: Mode)
    | SubmitRemoval(id: Id)
    | StartRemoval(id: Id)
    | FinishRemoval(id: Id, removed: bool)
    | RetryRemoval(id: Id)
    | ChangeOwnership(ownership: map<Id, string>, ownedPaths: map<Id, PathList>, removalPaths: map<Id, PathList>)

  ghost predicate ValidOp(op: Op) {
    && (op.Mutate? || op.Invalidate? || op.SanitizePersisted? || op.RecoverBackups? || op.InterruptRecovery? ==> ValidMode(op.mode))
    && (op.InterruptRecovery? ==> op.committed <= |op.candidates|)
    && (op.RecordTerminal? ==> op.generation <= U64_MAX)
  }

  function Job(id: Id, phase: string): Document {
    Record(map[IdField := Text(id), Documents.Phase := Text(phase)])
  }

  predicate JobIn(t: Tables, id: Id, phase: string) {
    id in t.removalJobs && StringField(t.removalJobs[id], Documents.Phase) == Some(phase)
  }

  function WithJob(t: Tables, id: Id, phase: string): Tables {
    t.(removalJobs := t.removalJobs[id := Job(id, phase)])
  }

  function Without(rows: seq<Row>, id: Id): seq<Row> {
    if rows == [] then []
    else if Last(rows).id == id then Without(Front(rows), id)
    else Without(Front(rows), id) + [Last(rows)]
  }

  /** The worker's last transaction: the row, its claims and its reservation go, the job becomes a tombstone. */
  function Removed(t: Tables, id: Id): Tables {
    WithJob(t.(downloads := Without(t.downloads, id),
               ownership := t.ownership - {id},
               ownedPaths := t.ownedPaths - {id},
               removalPaths := t.removalPaths - {id}), id, "completed")
  }

  function SanitizedRow(row: Row, mode: Mode): Row {
    if mode.Portable? && row.data.Record? then row.(data := Record(Clean(mode, row.data.fields))) else row
  }

  ghost function QueueRows(docs: seq<Document>): seq<QueueRow>
    requires QueuesAcceptable(docs)
  {
    seq(|docs|, k requires 0 <= k < |docs| => QueueRow(RequiredString(docs[k], IdField).value, docs[k]))
  }

  /** Each legacy list is imported only into an empty table, and either one failing undoes the import. */
  ghost predicate Imports(t: Tables, docs: seq<Document>, queues: seq<Document>) {
    (t.downloads == [] ==> Acceptable(docs, t.removalJobs.Keys)) && (t.queues == [] ==> QueuesAcceptable(queues))
  }

  ghost function Apply(t: Tables, op: Op): Tables {
    match op
    case Save(docs) =>
      if Acceptable(docs, t.removalJobs.Keys) then t.(downloads := Replaced(t.downloads, docs, t.removalJobs.Keys)) else t
    case Mutate(id, mutate, mode) =>
      var r := Mutated(t.downloads, id, mutate, mode);
      if r.Ok? then t.(downloads := r.value) else t
    case Invalidate(id, mode) =>
      var r := Mutated(t.downloads, id, InvalidateCheckpoint, mode);
      if r.Ok? then t.(downloads := r.value) else t
    case ImportLegacy(docs, queues, ownership) =>
      if !Imports(t, docs, queues) then t
      else t.(downloads := if t.downloads == [] then Replaced([], docs, t.removalJobs.Keys) else t.downloads,
              queues := if t.queues == [] then QueueRows(queues) else t.queues,
              ownership := ownership + t.ownership)
    case RecoverBackups(candidates, mode) => Recovered(t, candidates, mode)
    case InterruptRecovery(candidates, mode, committed) =>
      if committed <= |candidates| then Interrupted(t, candidates, mode, committed) else t
    case RecordTerminal(id, generation) =>
      var r := Recorded(t.journal, id, generation);
      if !Blank(id) && r.Ok? then t.(journal := r.value) else t
    case ClearTerminal(id) => t.(journal := t.journal - {id})
    case RecoverJournal =>
      if JournalApplies(t.downloads, t.journal) then t.(downloads := Completed(t.downloads, t.journal.Keys), journal := map[]) else t
    case SanitizePersisted(mode) =>
      if exists k :: 0 <= k < |t.downloads| && t.downloads[k].data.Malformed? then t
      else t.(downloads := seq(|t.downloads|, k requires 0 <= k < |t.downloads| => SanitizedRow(t.downloads[k], mode)))
    case SubmitRemoval(id) => if id !in t.removalJobs && HasRow(t.downloads, id) then WithJob(t, id, "pending") else t
    case StartRemoval(id) => if JobIn(t, id, "pending") || JobIn(t, id, "running") then WithJob(t, id, "running") else t
    case FinishRemoval(id, removed) =>
      if !JobIn(t, id, "running") then t else if removed then Removed(t, id) else WithJob(t, id, "failed")
    case RetryRemoval(id) => if JobIn(t, id, "failed") then WithJob(t, id, "pending") else t
    case ChangeOwnership(ownership, ownedPaths, removalPaths) =>
      t.(ownership := ownership, ownedPaths := ownedPaths, removalPaths := removalPaths)
  }

  ghost function Run(t: Tables, ops: seq<Op>): Tables {
    if ops == [] then t else Apply(Run(t, Front(ops)), Last(ops))
  }

  ghost predicate ValidOps(ops: seq<Op>) {
    forall k :: 0 <= k < |ops| ==> ValidOp(ops[k])
  }

  // ---------- What each step does to one id's row ----------

  lemma {:induction false} WithoutKeeps(rows: seq<Row>, id: Id)
    requires UniqueIds(rows)
    ensures UniqueIds(Without(rows, id))
    ensures forall row :: row in Without(rows, id) <==> row in rows && row.id != id
  {
    if rows != [] {
      WithoutKeeps(Front(rows), id);
      assert rows == Front(rows) + [Last(rows)];
      var kept := Without(Front(rows), id);
      forall k | 0 <= k < |kept| ensures kept[k].id != Last(rows).id {
        assert kept[k] in Front(rows);
        var i :| 0 <= i < |rows| - 1 && rows[i] == kept[k];
      }
    }
  }

  lemma WithoutMeaning(rows: seq<Row>, id: Id, other: Id)
    requires UniqueIds(rows)
    ensures UniqueIds(Without(rows, id))
    ensures forall row :: row in Without(rows, id) <==> row in rows && row.id != id
    ensures Lookup(Without(rows, id), other) == if other == id then None else Lookup(rows, other)
  {
    WithoutKeeps(rows, id);
    var kept := Without(rows, id);
    forall k | 0 <= k < |kept| ensures kept[k].id != id && HasRow(rows, kept[k].id) {
      assert kept[k] in kept;
    }
    if other != id && HasRow(rows, other) {
      LookupMember(kept, Lookup(rows, other).value);
    }
  }

  lemma LookupMember(rows: seq<Row>, row: Row)
    requires UniqueIds(rows) && row in rows
    ensures Lookup(rows, row.id) == Some(row)
  {
    var k :| 0 <= k < |rows| && rows[k] == row;
    FindUnique(rows, k);
  }

  /** Row-wise rewrites that keep ids rewrite each lookup. */
  lemma LookupPointwise(rows: seq<Row>, out: seq<Row>, id: Id)
    requires UniqueIds(rows) && |out| == |rows|
    requires forall k :: 0 <= k < |rows| ==> out[k].id == rows[k].id
    ensures UniqueIds(out) && (HasRow(out, id) <==> HasRow(rows, id))
    ensures HasRow(rows, id) ==> Lookup(out, id) == Some(out[Find(rows, id).value])
  {
    if HasRow(rows, id) {
      var k := Find(rows, id).value;
      assert out[k].id == id;
      FindUnique(out, k);
    }
    if HasRow(out, id) {
      var k :| 0 <= k < |out| && out[k].id == id;
      assert rows[k].id == id;
    }
  }

  lemma SaveLookup(t: Tables, docs: seq<Document>, id: Id)
    requires UniqueIds(t.downloads) && Acceptable(docs, t.removalJobs.Keys)
    ensures var out := Replaced(t.downloads, docs, t.removalJobs.Keys);
            && UniqueIds(out)
            && (id in t.removalJobs ==> Lookup(out, id) == Lookup(t.downloads, id))
            && (id !in t.removalJobs && HasRow(out, id) ==>
                  exists doc :: doc in docs && Saves(doc) && Lookup(out, id) == Some(SavedRow(t.downloads, doc)))
  {
    var out := Replaced(t.downloads, docs, t.removalJobs.Keys);
    ReplacedUnique(t.downloads, docs, t.removalJobs.Keys);
    ReplaceKeeps(t.downloads, docs, t.removalJobs.Keys);
    if HasRow(out, id) {
      var row := Lookup(out, id).value;
      ReplaceWrites(t.downloads, docs, t.removalJobs.Keys, row);
      if id in t.removalJobs {
        LookupMember(t.downloads, row);
      }
    } else if id in t.removalJobs && HasRow(t.downloads, id) {
      var row := Lookup(t.downloads, id).value;
      assert row in out;
      LookupMember(out, row);
    }
  }

  lemma InterruptedLookup(t: Tables, candidates: seq<Backup>, mode: Mode, committed: nat, id: Id)
    requires UniqueIds(t.downloads) && committed <= |candidates|
    ensures var u := Interrupted(t, candidates, mode, committed);
            && UniqueIds(u.downloads) && u.removalJobs == t.removalJobs && u.journal == t.journal
            && (Lookup(u.downloads, id) == Lookup(t.downloads, id) || IsOrphan(t, id))
  {
    if OrphanMode(t) && OrphanIds(t) != {} {
      Laws.RepairPassMeaning(Progress(t, OrphanIds(t), false), candidates[..committed], mode, id);
    }
  }

  lemma RecoveredKeepsUnique(t: Tables, candidates: seq<Backup>, mode: Mode, id: Id)
    requires UniqueIds(t.downloads)
    ensures var u := Recovered(t, candidates, mode);
            UniqueIds(u.downloads) && u.removalJobs == t.removalJobs && u.journal == t.journal
  {
    if !OrphanMode(t) {
      match FirstUsable(candidates, mode)
      case None =>
      case Some(k) => Laws.UnscopedLookup(t.downloads, CandidateDocs(candidates[k], mode), TombstonedIds(t), id);
    } else if OrphanIds(t) != {} {
      Laws.RepairPassMeaning(Progress(t, OrphanIds(t), false), candidates, mode, id);
    }
  }

  /** Steps that rewrite rows in place: ids stay where they are. */
  lemma InPlaceKeepsIds(t: Tables, op: Op)
    requires UniqueIds(t.downloads) && ValidOp(op)
    requires op.Mutate? || op.Invalidate? || op.RecoverJournal? || op.SanitizePersisted?
    ensures var u := Apply(t, op);
            && |u.downloads| == |t.downloads| && u.removalJobs == t.removalJobs
            && forall k :: 0 <= k < |t.downloads| ==> u.downloads[k].id == t.downloads[k].id
  {
    match op
    case Mutate(id, mutate, mode) =>
      if Mutated(t.downloads, id, mutate, mode).Ok? { MutateWrites(t.downloads, id, mutate, mode); }
    case Invalidate(id, mode) =>
      if Mutated(t.downloads, id, InvalidateCheckpoint, mode).Ok? { MutateWrites(t.downloads, id, InvalidateCheckpoint, mode); }
    case RecoverJournal =>
      if JournalApplies(t.downloads, t.journal) { RecoveryWrites(t.downloads, t.journal); }
    case SanitizePersisted(mode) =>
  }

  lemma ApplyKeepsUnique(t: Tables, op: Op)
    requires UniqueIds(t.downloads) && ValidOp(op)
    ensures UniqueIds(Apply(t, op).downloads)
  {
    if op.Mutate? || op.Invalidate? || op.RecoverJournal? || op.SanitizePersisted? {
      InPlaceKeepsIds(t, op);
    } else if op.Save? {
      if Acceptable(op.docs, t.removalJobs.Keys) { SaveLookup(t, op.docs, ""); }
    } else if op.ImportLegacy? {
      if t.downloads == [] && Acceptable(op.docs, t.removalJobs.Keys) { ReplacedUnique([], op.docs, t.removalJobs.Keys); }
    } else if op.RecoverBackups? {
      RecoveredKeepsUnique(t, op.candidates, op.mode, "");
    } else if op.InterruptRecovery? {
      InterruptedLookup(t, op.candidates, op.mode, op.committed, "");
    } else if op.FinishRemoval? {
      WithoutMeaning(t.downloads, op.id, "");
    }
  }

  lemma {:induction false} RunKeepsUnique(t: Tables, ops: seq<Op>)
    requires UniqueIds(t.downloads) && ValidOps(ops)
    ensures UniqueIds(Run(t, ops).downloads)
  {
    if ops != [] {
      RunKeepsUnique(t, Front(ops));
      assert ValidOp(ops[|ops| - 1]);
      ApplyKeepsUnique(Run(t, Front(ops)), Last(ops));
    }
  }

  // ---------- No resurrection ----------

  /** The removal completed and the row is gone. */
  predicate Gone(t: Tables, id: Id) {
    Tombstoned(t, id) && !HasRow(t.downloads, id)
  }

  lemma CompletedRemovalIsGone(t: Tables, id: Id)
    requires UniqueIds(t.downloads) && JobIn(t, id, "running")
    ensures Gone(Apply(t, FinishRemoval(id, true)), id)
  {
    WithoutMeaning(t.downloads, id, id);
  }

  /** A tombstone is never withdrawn: only failed jobs are retried. */
  lemma TombstoneStays(t: Tables, op: Op, id: Id)
    requires UniqueIds(t.downloads) && ValidOp(op) && Tombstoned(t, id)
    ensures Tombstoned(Apply(t, op), id)
  {
    if op.Mutate? || op.Invalidate? || op.RecoverJournal? || op.SanitizePersisted? {
      InPlaceKeepsIds(t, op);
    } else if op.RecoverBackups? {
      RecoveredKeepsUnique(t, op.candidates, op.mode, id);
    } else if op.InterruptRecovery? {
      InterruptedLookup(t, op.candidates, op.mode, op.committed, id);
    }
  }

  /** Steps that may add rows never add one for a tombstoned id. */
  lemma AddingStepsSkipTombstones(t: Tables, op: Op, id: Id)
    requires UniqueIds(t.downloads) && ValidOp(op) && Gone(t, id)
    requires op.Save? || op.ImportLegacy? || op.RecoverBackups? || op.InterruptRecovery?
    ensures !HasRow(Apply(t, op).downloads, id)
  {
    if op.Save? {
      if Acceptable(op.docs, t.removalJobs.Keys) { SaveLookup(t, op.docs, id); }
    } else if op.ImportLegacy? {
      if t.downloads == [] && Acceptable(op.docs, t.removalJobs.Keys) { SaveLookup(t, op.docs, id); }
    } else if op.RecoverBackups? {
      Laws.TombstonesStayGone(t, op.candidates, op.mode, id);
    } else {
      InterruptedLookup(t, op.candidates, op.mode, op.committed, id);
    }
  }

  lemma GoneStays(t: Tables, op: Op, id: Id)
    requires UniqueIds(t.downloads) && ValidOp(op) && Gone(t, id)
    ensures Gone(Apply(t, op), id)
  {
    TombstoneStays(t, op, id);
    if op.Mutate? || op.Invalidate? || op.RecoverJournal? || op.SanitizePersisted? {
      InPlaceKeepsIds(t, op);
      LookupPointwise(t.downloads, Apply(t, op).downloads, id);
    } else if op.FinishRemoval? {
      WithoutMeaning(t.downloads, op.id, id);
    } else if op.Save? || op.ImportLegacy? || op.RecoverBackups? || op.InterruptRecovery? {
      AddingStepsSkipTombstones(t, op, id);
    }
  }

  /** Once a removal completed, no run of any operations brings the row back. */
  lemma {:induction false} NoResurrection(t: Tables, ops: seq<Op>, id: Id)
    requires UniqueIds(t.downloads) && ValidOps(ops) && Gone(t, id)
    ensures Gone(Run(t, ops), id)
  {
    if ops != [] {
      NoResurrection(t, Front(ops), id);
      RunKeepsUnique(t, Front(ops));
      assert ValidOp(ops[|ops| - 1]);
      GoneStays(Run(t, Front(ops)), Last(ops), id);
    }
  }

  /** While a removal job exists, no number of snapshot saves changes its row. */
  lemma {:induction false} SavesFreezeJobRows(t: Tables, ops: seq<Op>, id: Id)
    requires UniqueIds(t.downloads) && id in t.removalJobs
    requires forall k :: 0 <= k < |ops| ==> ops[k].Save?
    ensures Lookup(Run(t, ops).downloads, id) == Lookup(t.downloads, id)
    ensures UniqueIds(Run(t, ops).downloads) && Run(t, ops).removalJobs == t.removalJobs
  {
    if ops != [] {
      SavesFreezeJobRows(t, Front(ops), id);
      var u, op := Run(t, Front(ops)), Last(ops);
      assert ops[|ops| - 1] == op;
      if Acceptable(op.docs, u.removalJobs.Keys) { SaveLookup(u, op.docs, id); }
    }
  }
}
