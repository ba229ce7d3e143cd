/**
  What a stored document may hold: never the live metadata, and in portable storage only what
  the sanitiser of transfer secrets leaves, over every run of the store.
 */
module PortableLaws {
  import opened Base
  import opened Documents
  import opened Downloads
  import opened Database
  import opened BackupRecovery
  import opened StoreRuns
  import Laws = RecoveryLaws
  import Checkpoints = CheckpointLaws

  type Sanitizer = Object -> Object

  /** What is stored of a given object: without the live metadata, and in portable storage what the sanitiser makes of that. */
  predicate StoredAs(mode: Mode, given: Object, stored: Object) {
    var bare := given - {LastErrorKind, LastResolverFallback};
    stored == match mode
              case Standard => bare
              case Portable(sanitize) => sanitize(bare)
  }

  ghost predicate StoredFrom(mode: Mode, given: seq<Document>, data: Document) {
    exists doc :: doc in given && DocumentFrom(mode, doc, data)
  }

  predicate DocumentFrom(mode: Mode, given: Document, data: Document) {
    given.Record? && data.Record? && StoredAs(mode, given.fields, data.fields)
  }

  lemma PreparedFrom(mode: Mode, docs: seq<Document>, doc: Document)
    requires doc in PrepareAll(mode, docs) && doc.Record?
    ensures StoredFrom(mode, docs, doc)
  {
    var k :| 0 <= k < |docs| && PrepareAll(mode, docs)[k] == doc;
    assert DocumentFrom(mode, docs[k], doc);
  }

  // ---------- One operation ----------

  /** Whatever a snapshot save writes is a document of the snapshot as it is to be stored, fenced with the stored epoch. */
  lemma SavedDocument(rows: seq<Row>, docs: seq<Document>, jobs: set<Id>, mode: Mode, row: Row)
    requires UniqueIds(rows) && Acceptable(PrepareAll(mode, docs), jobs)
    requires row in Replaced(rows, PrepareAll(mode, docs), jobs) && row.id !in jobs
    ensures exists doc :: StoredFrom(mode, docs, doc) && row.data == Fence(doc, StoredEpoch(rows, row.id))
  {
    ReplaceWrites(rows, PrepareAll(mode, docs), jobs, row);
    var doc :| doc in PrepareAll(mode, docs) && Saves(doc) && row == SavedRow(rows, doc);
    PreparedFrom(mode, docs, doc);
  }

  /** Whatever a mutation writes is its result as it is to be stored. */
  lemma MutatedDocument(rows: seq<Row>, id: Id, mutate: Mutation, mode: Mode)
    requires Mutated(rows, id, mutate, mode).Ok?
    ensures Find(rows, id).Some?
    ensures var k, out := Find(rows, id).value, Mutated(rows, id, mutate, mode).value;
            && rows[k].data.Record? && mutate(rows[k].data.fields).Ok? && k < |out| && out[k].data.Record?
            && StoredAs(mode, mutate(rows[k].data.fields).value, out[k].data.fields)
  {
  }

  /** Whatever a recovery restores is a document of a candidate as it is to be stored. */
  lemma RestoredDocument(t: Tables, candidates: seq<Backup>, mode: Mode, id: Id)
    requires mode.Portable? && Laws.Chosen(t, candidates, mode, id).Some?
    ensures var c := Laws.Source(t, candidates, mode, id);
            c.Some? && c.value.Backup? && StoredFrom(mode, c.value.downloads, Laws.Chosen(t, candidates, mode, id).value)
  {
    var c := Laws.Source(t, candidates, mode, id).value;
    PreparedFrom(mode, c.downloads, Laws.Chosen(t, candidates, mode, id).value);
  }

  // ---------- Whole runs ----------

  /** The sanitiser lets no object keep the field, which is not one that the store itself writes. */
  ghost predicate Removes(sanitize: Sanitizer, field: Field) {
    field !in {Status, CheckpointEpoch} && forall o: Object :: field !in sanitize(o)
  }

  predicate Lacks(doc: Document, field: Field) {
    doc.Record? ==> field !in doc.fields
  }

  ghost predicate AllLack(rows: seq<Row>, field: Field) {
    forall k :: 0 <= k < |rows| ==> Lacks(rows[k].data, field)
  }

  /** The operation comes from a process in portable mode: what it is given has passed the sanitiser. */
  ghost predicate PortableOp(op: Op, sanitize: Sanitizer) {
    && ValidOp(op)
    && (op.Mutate? || op.Invalidate? || op.RecoverBackups? || op.InterruptRecovery? || op.SanitizePersisted? ==> op.mode == Portable(sanitize))
    && (op.Save? || op.ImportLegacy? ==> exists given :: op.docs == PrepareAll(Portable(sanitize), given))
  }

  lemma ImagesLack(mode: Mode, given: seq<Document>, data: Document, field: Field)
    requires mode.Portable? && Removes(mode.sanitize, field) && StoredFrom(mode, given, data)
    ensures Lacks(data, field)
  {
  }

  lemma PreparedLack(mode: Mode, given: seq<Document>, doc: Document, field: Field)
    requires mode.Portable? && Removes(mode.sanitize, field) && doc in PrepareAll(mode, given)
    ensures Lacks(doc, field)
  {
    if doc.Record? {
      PreparedFrom(mode, given, doc);
      ImagesLack(mode, given, doc, field);
    }
  }

  lemma LookupsLack(rows: seq<Row>, field: Field)
    requires UniqueIds(rows)
    requires forall id :: HasRow(rows, id) ==> Lacks(Lookup(rows, id).value.data, field)
    ensures AllLack(rows, field)
  {
    forall k | 0 <= k < |rows| ensures Lacks(rows[k].data, field) {
      FindUnique(rows, k);
      assert HasRow(rows, rows[k].id);
    }
  }

  lemma SaveLacks(t: Tables, docs: seq<Document>, sanitize: Sanitizer, field: Field, given: seq<Document>, id: Id)
    requires UniqueIds(t.downloads) && AllLack(t.downloads, field) && Removes(sanitize, field)
    requires docs == PrepareAll(Portable(sanitize), given) && Acceptable(docs, t.removalJobs.Keys)
    requires HasRow(Replaced(t.downloads, docs, t.removalJobs.Keys), id)
    ensures Lacks(Lookup(Replaced(t.downloads, docs, t.removalJobs.Keys), id).value.data, field)
  {
    SaveLookup(t, docs, id);
    if id !in t.removalJobs {
      var doc :| doc in docs && Saves(doc) && Lookup(Replaced(t.downloads, docs, t.removalJobs.Keys), id) == Some(SavedRow(t.downloads, doc));
      PreparedLack(Portable(sanitize), given, doc, field);
    }
  }

  lemma InPlaceLacks(t: Tables, op: Op, sanitize: Sanitizer, field: Field, row: Row)
    requires PortableOp(op, sanitize) && Removes(sanitize, field) && Lacks(row.data, field) && Checkpoints.InPlace(op)
    ensures Lacks(Checkpoints.InPlaceRow(t, op, row).data, field)
  {
  }

  lemma RestoredLacks(t: Tables, u: Tables, candidates: seq<Backup>, sanitize: Sanitizer, field: Field, id: Id)
    requires AllLack(t.downloads, field) && Removes(sanitize, field) && HasRow(u.downloads, id)
    requires Checkpoints.RestoresFrom(t, u, candidates, Portable(sanitize), id)
    ensures Lacks(Lookup(u.downloads, id).value.data, field)
  {
    var row := Lookup(u.downloads, id).value;
    if Lookup(u.downloads, id) != Lookup(t.downloads, id) {
      var k :| 0 <= k < |candidates| && Checkpoints.InBackup(candidates[k], Portable(sanitize), row);
      PreparedLack(Portable(sanitize), candidates[k].downloads, row.data, field);
    }
  }

  lemma AddingLacks(t: Tables, op: Op, sanitize: Sanitizer, field: Field, id: Id)
    requires UniqueIds(t.downloads) && AllLack(t.downloads, field) && Removes(sanitize, field)
    requires PortableOp(op, sanitize) && Checkpoints.Adding(op) && HasRow(Apply(t, op).downloads, id)
    ensures Lacks(Lookup(Apply(t, op).downloads, id).value.data, field)
  {
    if op.Save? || op.ImportLegacy? {
      if Checkpoints.Saved(t, op) {
        var given :| op.docs == PrepareAll(Portable(sanitize), given);
        SaveLacks(t, op.docs, sanitize, field, given, id);
      }
    } else if op.RecoverBackups? {
      Checkpoints.RecoveredFrom(t, op.candidates, op.mode, id);
      RestoredLacks(t, Apply(t, op), op.candidates, sanitize, field, id);
    } else {
      Checkpoints.InterruptedFrom(t, op.candidates, op.mode, op.committed, id);
      RestoredLacks(t, Apply(t, op), op.candidates, sanitize, field, id);
    }
  }

  lemma ApplyLacks(t: Tables, op: Op, sanitize: Sanitizer, field: Field)
    requires UniqueIds(t.downloads) && AllLack(t.downloads, field) && Removes(sanitize, field) && PortableOp(op, sanitize)
    ensures AllLack(Apply(t, op).downloads, field)
  {
    ApplyKeepsUnique(t, op);
    forall id | HasRow(Apply(t, op).downloads, id) ensures Lacks(Lookup(Apply(t, op).downloads, id).value.data, field) {
      if Checkpoints.InPlace(op) {
        Checkpoints.InPlaceLookup(t, op, id);
        InPlaceLacks(t, op, sanitize, field, Lookup(t.downloads, id).value);
      } else if Checkpoints.Adding(op) {
        AddingLacks(t, op, sanitize, field, id);
      } else {
        Checkpoints.OtherStepsLookup(t, op, id);
      }
    }
    LookupsLack(Apply(t, op).downloads, field);
  }

  /** Over every run of a portable store no row ever holds a field that the sanitiser removes. */
  lemma {:induction false} SecretsStayOut(t: Tables, ops: seq<Op>, sanitize: Sanitizer, field: Field)
    requires UniqueIds(t.downloads) && AllLack(t.downloads, field) && Removes(sanitize, field)
    requires forall k :: 0 <= k < |ops| ==> PortableOp(ops[k], sanitize)
    ensures AllLack(Run(t, ops).downloads, field)
  {
    if ops != [] {
      SecretsStayOut(t, Front(ops), sanitize, field);
      assert PortableOp(ops[|ops| - 1], sanitize);
      assert ValidOps(Front(ops)) by { assert forall k :: 0 <= k < |ops| ==> PortableOp(ops[k], sanitize); }
      RunKeepsUnique(t, Front(ops));
      ApplyLacks(Run(t, Front(ops)), Last(ops), sanitize, field);
    }
  }

  /** The pass at the start of a portable process: it clears every row, unless one does not decode. */
  lemma StartClearsSecrets(t: Tables, sanitize: Sanitizer, field: Field)
    requires Removes(sanitize, field)
    ensures (forall k :: 0 <= k < |t.downloads| ==> !t.downloads[k].data.Malformed?) ==>
              AllLack(Apply(t, SanitizePersisted(Portable(sanitize))).downloads, field)
    ensures (exists k :: 0 <= k < |t.downloads| && t.downloads[k].data.Malformed?) ==>
              Apply(t, SanitizePersisted(Portable(sanitize))) == t
  {
  }

  // ---------- Live metadata ----------

  predicate Bare(doc: Document) {
    Lacks(doc, LastErrorKind) && Lacks(doc, LastResolverFallback)
  }

  lemma StoredBare(mode: Mode, given: Object, stored: Object)
    requires ValidMode(mode) && StoredAs(mode, given, stored)
    ensures Bare(Record(stored))
  {
  }

  /** No save writes live metadata, portable or not. */
  lemma SavedBare(rows: seq<Row>, docs: seq<Document>, jobs: set<Id>, mode: Mode, row: Row)
    requires UniqueIds(rows) && ValidMode(mode) && Acceptable(PrepareAll(mode, docs), jobs)
    requires row in Replaced(rows, PrepareAll(mode, docs), jobs) && row.id !in jobs
    ensures Bare(row.data)
  {
    SavedDocument(rows, docs, jobs, mode, row);
    var doc :| StoredFrom(mode, docs, doc) && row.data == Fence(doc, StoredEpoch(rows, row.id));
    var given :| given in docs && DocumentFrom(mode, given, doc);
    StoredBare(mode, given.fields, doc.fields);
  }

  /** Nor does a mutation. */
  lemma MutatedBare(rows: seq<Row>, id: Id, mutate: Mutation, mode: Mode)
    requires ValidMode(mode) && Mutated(rows, id, mutate, mode).Ok?
    ensures Find(rows, id).Some? && Find(rows, id).value < |Mutated(rows, id, mutate, mode).value|
    ensures Bare(Mutated(rows, id, mutate, mode).value[Find(rows, id).value].data)
  {
    MutatedDocument(rows, id, mutate, mode);
    var k, out := Find(rows, id).value, Mutated(rows, id, mutate, mode).value;
    StoredBare(mode, mutate(rows[k].data.fields).value, out[k].data.fields);
  }
}
