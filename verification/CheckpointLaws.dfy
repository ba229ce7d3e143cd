/**
  The fence around media progress. A media row's epoch moves only when native code
  invalidates the checkpoint, and progress stored beside an epoch was saved from a
  document that carried exactly that epoch, or restored from a backup.
 */
module CheckpointLaws {
  import opened Base
  import opened Decimal
  import opened Documents
  import opened Downloads
  import opened Database
  import opened BackupRecovery
  import opened StoreRuns
  import Laws = RecoveryLaws

  const CHECKPOINT_FIELDS: set<Field> := PROGRESS_FIELDS + {IsMedia, CheckpointEpoch}

  function Checkpoint(o: Object): Object {
    map field | field in CHECKPOINT_FIELDS && field in o :: o[field]
  }

  function Progress(o: Object): Object {
    map field | field in PROGRESS_FIELDS && field in o :: o[field]
  }

  lemma SameCheckpoint(a: Object, b: Object)
    requires Checkpoint(a) == Checkpoint(b)
    ensures IsTrue(a, IsMedia) == IsTrue(b, IsMedia)
    ensures ParseEpoch(a) == ParseEpoch(b) && FenceEpoch(a) == FenceEpoch(b) && Progress(a) == Progress(b)
  {
    forall field | field in CHECKPOINT_FIELDS ensures (field in a <==> field in b) && (field in a ==> a[field] == b[field]) {
      assert field in Checkpoint(a) <==> field in a;
      assert field in Checkpoint(b) <==> field in b;
      if field in a {
        assert Checkpoint(a)[field] == a[field];
        assert Checkpoint(b)[field] == b[field];
      }
    }
  }

  lemma CleanKeepsCheckpoint(mode: Mode, o: Object)
    requires ValidMode(mode)
    ensures Checkpoint(Clean(mode, o)) == Checkpoint(o)
  {
    forall field | field in CHECKPOINT_FIELDS
      ensures (field in Clean(mode, o) <==> field in o) && (field in o ==> Clean(mode, o)[field] == o[field])
    {
      CleanKeepsCore(mode, o, field);
    }
  }

  // ---------- Rows that are media ----------

  predicate MediaRow(t: Tables, id: Id) {
    var row := Lookup(t.downloads, id);
    row.Some? && Media(row.value.data)
  }

  function Fields(t: Tables, id: Id): Object
    requires MediaRow(t, id)
  {
    Lookup(t.downloads, id).value.data.fields
  }

  function Epoch(t: Tables, id: Id): nat
    requires MediaRow(t, id)
  {
    FenceEpoch(Fields(t, id))
  }

  ghost predicate AllNamed(rows: seq<Row>) {
    forall k :: 0 <= k < |rows| ==> ValidRecord(rows[k])
  }

  /** Native mutations other than the invalidation leave the checkpoint alone. */
  ghost predicate KeepsCheckpoint(mutate: Mutation) {
    forall o: Object :: mutate(o).Ok? ==> Checkpoint(mutate(o).value) == Checkpoint(o)
  }

  ghost predicate Regular(op: Op) {
    ValidOp(op) && (op.Mutate? ==> KeepsCheckpoint(op.mutate))
  }

  ghost predicate RegularOps(ops: seq<Op>) {
    forall k :: 0 <= k < |ops| ==> Regular(ops[k])
  }

  /** How an in-place step rewrites the row it found under an id. */
  function InPlaceRow(t: Tables, op: Op, row: Row): Row
    requires op.Mutate? || op.Invalidate? || op.RecoverJournal? || op.SanitizePersisted?
  {
    match op
    case Mutate(id, mutate, mode) =>
      if row.id == id && ReadableRow(row) && MutatedRow(row, mutate, mode).Ok? then MutatedRow(row, mutate, mode).value else row
    case Invalidate(id, mode) =>
      if row.id == id && ReadableRow(row) && MutatedRow(row, InvalidateCheckpoint, mode).Ok?
      then MutatedRow(row, InvalidateCheckpoint, mode).value else row
    case RecoverJournal => if row.id in t.journal && row.data.Record? then CompletedRow(row) else row
    case SanitizePersisted(mode) => SanitizedRow(row, mode)
  }

  lemma InPlaceLookup(t: Tables, op: Op, id: Id)
    requires UniqueIds(t.downloads) && ValidOp(op)
    requires op.Mutate? || op.Invalidate? || op.RecoverJournal? || op.SanitizePersisted?
    ensures HasRow(Apply(t, op).downloads, id) <==> HasRow(t.downloads, id)
    ensures HasRow(t.downloads, id) ==>
              var row := Lookup(t.downloads, id).value;
              Lookup(Apply(t, op).downloads, id) in {Some(row), Some(InPlaceRow(t, op, row))}
  {
    var u := Apply(t, op);
    InPlaceKeepsIds(t, op);
    LookupPointwise(t.downloads, u.downloads, id);
    if HasRow(t.downloads, id) {
      var k := Find(t.downloads, id).value;
      if op.Mutate? || op.Invalidate? {
        if HasRow(t.downloads, op.id) {
          var j := Find(t.downloads, op.id).value;
          assert j == k <==> op.id == id;
        }
      }
    }
  }

  lemma InPlaceNamed(t: Tables, op: Op, row: Row)
    requires ValidOp(op) && ValidRecord(row)
    requires op.Mutate? || op.Invalidate? || op.RecoverJournal? || op.SanitizePersisted?
    ensures ValidRecord(InPlaceRow(t, op, row)) && InPlaceRow(t, op, row).id == row.id
  {
    if op.Mutate? && row.id == op.id && ReadableRow(row) && MutatedRow(row, op.mutate, op.mode).Ok? {
      CleanKeepsCore(op.mode, op.mutate(row.data.fields).value, IdField);
    } else if op.Invalidate? && row.id == op.id && ReadableRow(row) && MutatedRow(row, InvalidateCheckpoint, op.mode).Ok? {
      CleanKeepsCore(op.mode, InvalidateCheckpoint(row.data.fields).value, IdField);
    } else if op.SanitizePersisted? && row.data.Record? {
      CleanKeepsCore(op.mode, row.data.fields, IdField);
    }
  }

  /** Except for the invalidation itself, an in-place step keeps the row's checkpoint. */
  lemma InPlaceCheckpoint(t: Tables, op: Op, row: Row)
    requires Regular(op) && row.data.Record?
    requires op.Mutate? || op.RecoverJournal? || op.SanitizePersisted?
    ensures InPlaceRow(t, op, row).data.Record?
    ensures Checkpoint(InPlaceRow(t, op, row).data.fields) == Checkpoint(row.data.fields)
  {
    var o := row.data.fields;
    match op
    case Mutate(id, mutate, mode) =>
      if row.id == id && ReadableRow(row) && MutatedRow(row, mutate, mode).Ok? {
        CleanKeepsCheckpoint(mode, mutate(o).value);
        assert Checkpoint(mutate(o).value) == Checkpoint(o);
      }
    case RecoverJournal =>
      assert Checkpoint(o[Status := Text("completed")]) == Checkpoint(o);
    case SanitizePersisted(mode) => CleanKeepsCheckpoint(mode, o);
  }

  /** An unfinished media item whose epoch can still be counted on. */
  predicate Invalidatable(o: Object) {
    Unfinished(o) && CountedEpoch(o) < U64_MAX
  }

  lemma InvalidatedFields(o: Object)
    requires InvalidateCheckpoint(o).Ok? && Unfinished(o)
    ensures var changed := InvalidateCheckpoint(o).value;
            && IsTrue(changed, IsMedia) && Progress(changed) == map[]
            && ParseEpoch(changed) == Some(CountedEpoch(o) + 1)
            && (forall field :: field in {IdField, Status, QueueId} ==>
                  (field in changed <==> field in o) && (field in o ==> changed[field] == o[field]))
  {
    ClearProgressMeaning(o, CountedEpoch(o) + 1);
  }

  lemma CleanKeepsReadable(mode: Mode, o: Object, id: Id)
    requires ValidMode(mode) && RequiredString(Record(o), IdField) == Some(id) && RequiredString(Record(o), Status).Some?
    ensures RequiredString(Record(Clean(mode, o)), IdField) == Some(id) && RequiredString(Record(Clean(mode, o)), Status).Some?
  {
    CleanKeepsCore(mode, o, IdField);
    if mode.Portable? {
      var t := mode.sanitize(WithoutLiveMetadata(o));
      assert t == Clean(mode, o);
    }
  }

  /** A mutation that keeps id and status of a readable row writes the cleaned document. */
  lemma PlainMutation(row: Row, mutate: Mutation, mode: Mode)
    requires ReadableRow(row) && ValidMode(mode) && mutate(row.data.fields).Ok?
    requires var changed := mutate(row.data.fields).value;
             RequiredString(Record(changed), IdField) == Some(row.id) && RequiredString(Record(changed), Status).Some?
    ensures var r, changed := MutatedRow(row, mutate, mode), mutate(row.data.fields).value;
            r.Ok? && r.value.id == row.id && r.value.data == Record(Clean(mode, changed)) && Checkpoint(Clean(mode, changed)) == Checkpoint(changed)
  {
    var changed := mutate(row.data.fields).value;
    CleanKeepsReadable(mode, changed, row.id);
    CleanKeepsCheckpoint(mode, changed);
  }

  lemma UnfinishedInvalidation(row: Row, mode: Mode)
    requires ReadableRow(row) && ValidMode(mode) && Invalidatable(row.data.fields)
    ensures var o, r := row.data.fields, MutatedRow(row, InvalidateCheckpoint, mode);
            && r.Ok? && Media(r.value.data) && r.value.id == row.id && Progress(r.value.data.fields) == map[]
            && ParseEpoch(r.value.data.fields) == Some(CountedEpoch(o) + 1)
  {
    var changed := InvalidateCheckpoint(row.data.fields).value;
    InvalidatedFields(row.data.fields);
    PlainMutation(row, InvalidateCheckpoint, mode);
    SameCheckpoint(Clean(mode, changed), changed);
  }

  /**
    What an invalidation does to a readable row. An unfinished media item gets the next epoch
    and no progress, and its invalidation fails exactly when that epoch does not fit; any other
    row keeps its checkpoint.
   */
  lemma InvalidationExactly(row: Row, mode: Mode)
    requires ReadableRow(row) && ValidMode(mode)
    ensures var o, r := row.data.fields, MutatedRow(row, InvalidateCheckpoint, mode);
            && (r.Err? <==> Unfinished(o) && CountedEpoch(o) == U64_MAX)
            && (Invalidatable(o) ==>
                  && Media(r.value.data) && r.value.id == row.id && Progress(r.value.data.fields) == map[]
                  && ParseEpoch(r.value.data.fields) == Some(CountedEpoch(o) + 1))
            && (!Unfinished(o) ==> r.value.data.Record? && Checkpoint(r.value.data.fields) == Checkpoint(o))
  {
    if Invalidatable(row.data.fields) {
      UnfinishedInvalidation(row, mode);
    } else if !Unfinished(row.data.fields) {
      PlainMutation(row, InvalidateCheckpoint, mode);
    }
  }

  ghost predicate AllReadable(rows: seq<Row>) {
    forall k :: 0 <= k < |rows| ==> ReadableRow(rows[k])
  }

  /** An invalidation fails exactly for an unreadable table, a missing row, or an exhausted epoch. */
  lemma InvalidationSucceedsExactly(rows: seq<Row>, id: Id, mode: Mode)
    requires UniqueIds(rows) && ValidMode(mode)
    ensures Mutated(rows, id, InvalidateCheckpoint, mode).Ok? <==>
            && AllReadable(rows) && HasRow(rows, id)
            && !(Unfinished(Lookup(rows, id).value.data.fields) && CountedEpoch(Lookup(rows, id).value.data.fields) == U64_MAX)
  {
    if AllReadable(rows) && HasRow(rows, id) {
      InvalidationExactly(rows[Find(rows, id).value], mode);
    }
  }

  /**
    An invalidation leaves the checkpoint, or drops its progress and stamps the next epoch.
    That is above the epoch it fenced with exactly when that epoch was readable: a malformed
    one is fenced as one and counted on from zero.
   */
  lemma InvalidatedCheckpoint(t: Tables, op: Op, row: Row)
    requires op.Invalidate? && ValidOp(op) && Media(row.data)
    ensures var row' := InPlaceRow(t, op, row);
            && Media(row'.data)
            && FenceEpoch(row.data.fields) <= FenceEpoch(row'.data.fields)
            && (row' == row || Checkpoint(row'.data.fields) == Checkpoint(row.data.fields)
                || (row.id == op.id && Progress(row'.data.fields) == map[]))
            && (Checkpoint(row'.data.fields) != Checkpoint(row.data.fields) ==>
                  && ParseEpoch(row'.data.fields) == Some(if ParseEpoch(row.data.fields).Some? then FenceEpoch(row.data.fields) + 1 else 1)
                  && (FenceEpoch(row.data.fields) < FenceEpoch(row'.data.fields) <==> ParseEpoch(row.data.fields).Some?))
            && (row.id != op.id ==> row' == row)
  {
    var o := row.data.fields;
    if row.id == op.id && ReadableRow(row) && MutatedRow(row, InvalidateCheckpoint, op.mode).Ok? {
      var changed := InvalidateCheckpoint(o).value;
      CleanKeepsCheckpoint(op.mode, changed);
      SameCheckpoint(Clean(op.mode, changed), changed);
      if changed != o {
        InvalidatedFields(o);
        SameCheckpoint(Clean(op.mode, changed), changed);
      }
    }
  }

  // ---------- Every operation keeps rows naming their own ids ----------

  lemma NamedLookup(rows: seq<Row>)
    requires UniqueIds(rows)
    ensures AllNamed(rows) <==> forall id :: HasRow(rows, id) ==> ValidRecord(Lookup(rows, id).value)
  {
    if forall id :: HasRow(rows, id) ==> ValidRecord(Lookup(rows, id).value) {
      forall k | 0 <= k < |rows| ensures ValidRecord(rows[k]) {
        FindUnique(rows, k);
        assert HasRow(rows, rows[k].id);
      }
    }
  }

  lemma AddingStepsName(t: Tables, op: Op, id: Id)
    requires UniqueIds(t.downloads) && AllNamed(t.downloads) && ValidOp(op)
    requires op.Save? || op.ImportLegacy? || op.RecoverBackups? || op.InterruptRecovery?
    requires HasRow(Apply(t, op).downloads, id)
    ensures ValidRecord(Lookup(Apply(t, op).downloads, id).value)
  {
    NamedLookup(t.downloads);
    if op.Save? {
      if Acceptable(op.docs, t.removalJobs.Keys) { SaveLookup(t, op.docs, id); SavedRowsNamed(t.downloads, op.docs); }
    } else if op.ImportLegacy? {
      if t.downloads == [] && Acceptable(op.docs, t.removalJobs.Keys) { SaveLookup(t, op.docs, id); SavedRowsNamed(t.downloads, op.docs); }
    } else if op.RecoverBackups? {
      RecoveredNames(t, op.candidates, op.mode, id);
    } else {
      InterruptedNames(t, op.candidates, op.mode, op.committed, id);
    }
  }

  predicate InPlace(op: Op) {
    op.Mutate? || op.Invalidate? || op.RecoverJournal? || op.SanitizePersisted?
  }

  predicate Adding(op: Op) {
    op.Save? || op.ImportLegacy? || op.RecoverBackups? || op.InterruptRecovery?
  }

  /** The remaining steps leave the downloads, or take one row out of them. */
  lemma OtherStepsLookup(t: Tables, op: Op, id: Id)
    requires UniqueIds(t.downloads) && !InPlace(op) && !Adding(op)
    ensures Lookup(Apply(t, op).downloads, id) in {Lookup(t.downloads, id), None}
  {
    if op.FinishRemoval? {
      WithoutMeaning(t.downloads, op.id, id);
    } else {
      assert Apply(t, op).downloads == t.downloads;
    }
  }

  lemma InPlaceNames(t: Tables, op: Op, id: Id)
    requires UniqueIds(t.downloads) && AllNamed(t.downloads) && ValidOp(op) && InPlace(op)
    requires HasRow(Apply(t, op).downloads, id)
    ensures ValidRecord(Lookup(Apply(t, op).downloads, id).value)
  {
    NamedLookup(t.downloads);
    InPlaceLookup(t, op, id);
    InPlaceNamed(t, op, Lookup(t.downloads, id).value);
  }

  lemma ApplyNames(t: Tables, op: Op, id: Id)
    requires UniqueIds(t.downloads) && AllNamed(t.downloads) && ValidOp(op)
    requires HasRow(Apply(t, op).downloads, id)
    ensures ValidRecord(Lookup(Apply(t, op).downloads, id).value)
  {
    if InPlace(op) {
      InPlaceNames(t, op, id);
    } else if Adding(op) {
      AddingStepsName(t, op, id);
    } else {
      NamedLookup(t.downloads);
      OtherStepsLookup(t, op, id);
    }
  }

  lemma SavedRowsNamed(rows: seq<Row>, docs: seq<Document>)
    ensures forall doc :: doc in docs && Saves(doc) ==> ValidRecord(SavedRow(rows, doc))
  {
  }

  lemma RecoveredNames(t: Tables, candidates: seq<Backup>, mode: Mode, id: Id)
    requires UniqueIds(t.downloads) && AllNamed(t.downloads) && HasRow(Recovered(t, candidates, mode).downloads, id)
    ensures ValidRecord(Lookup(Recovered(t, candidates, mode).downloads, id).value)
    ensures HasRow(t.downloads, id) ==> Lookup(Recovered(t, candidates, mode).downloads, id) == Lookup(t.downloads, id)
  {
    NamedLookup(t.downloads);
    if !OrphanMode(t) {
      match FirstUsable(candidates, mode)
      case None =>
      case Some(k) => Laws.UnscopedLookup(t.downloads, CandidateDocs(candidates[k], mode), TombstonedIds(t), id);
    } else {
      Laws.OrphansRestoredExactly(t, candidates, mode, id);
      FirstHeldValid(candidates, mode, id);
    }
  }

  lemma {:induction false} FirstHeldValid(candidates: seq<Backup>, mode: Mode, id: Id)
    ensures Laws.FirstHeld(candidates, mode, id).Some? ==> ValidRecord(Laws.FirstHeld(candidates, mode, id).value)
  {
    if candidates != [] && !Laws.Holds(candidates[0], mode, id) {
      FirstHeldValid(candidates[1..], mode, id);
    }
  }

  lemma InterruptedNames(t: Tables, candidates: seq<Backup>, mode: Mode, committed: nat, id: Id)
    requires UniqueIds(t.downloads) && AllNamed(t.downloads) && committed <= |candidates|
    requires HasRow(Interrupted(t, candidates, mode, committed).downloads, id)
    ensures ValidRecord(Lookup(Interrupted(t, candidates, mode, committed).downloads, id).value)
    ensures HasRow(t.downloads, id) ==> Lookup(Interrupted(t, candidates, mode, committed).downloads, id) == Lookup(t.downloads, id)
  {
    NamedLookup(t.downloads);
    if OrphanMode(t) && OrphanIds(t) != {} {
      Laws.RepairPassMeaning(BackupRecovery.Progress(t, OrphanIds(t), false), candidates[..committed], mode, id);
      FirstHeldValid(candidates[..committed], mode, id);
    }
  }

  lemma {:induction false} RunNames(t: Tables, ops: seq<Op>)
    requires UniqueIds(t.downloads) && AllNamed(t.downloads) && ValidOps(ops)
    ensures UniqueIds(Run(t, ops).downloads) && AllNamed(Run(t, ops).downloads)
  {
    RunKeepsUnique(t, ops);
    if ops != [] {
      RunNames(t, Front(ops));
      assert ValidOp(ops[|ops| - 1]);
      var u := Run(t, Front(ops));
      forall id | HasRow(Apply(u, Last(ops)).downloads, id) ensures ValidRecord(Lookup(Apply(u, Last(ops)).downloads, id).value) {
        ApplyNames(u, Last(ops), id);
      }
      NamedLookup(Apply(u, Last(ops)).downloads);
    }
  }

  // ---------- The epoch ----------

  lemma SavedEpoch(rows: seq<Row>, doc: Document)
    requires Saves(doc) && Media(doc) && StoredEpoch(rows, RequiredString(doc, IdField).value) <= U64_MAX
    ensures var row, stored := SavedRow(rows, doc), StoredEpoch(rows, RequiredString(doc, IdField).value);
            && Media(row.data) && FenceEpoch(row.data.fields) == stored
            && (Progress(row.data.fields) != map[] ==> row.data == doc && ParseEpoch(doc.fields) == Some(stored))
  {
    var stored := StoredEpoch(rows, RequiredString(doc, IdField).value);
    if ParseEpoch(doc.fields) != Some(stored) {
      ClearProgressMeaning(doc.fields, stored);
    }
  }

  lemma FenceEpochBound(o: Object)
    ensures FenceEpoch(o) <= U64_MAX
  {
  }

  lemma SaveEpoch(t: Tables, docs: seq<Document>, id: Id)
    requires UniqueIds(t.downloads) && Acceptable(docs, t.removalJobs.Keys)
    requires MediaRow(t, id) && MediaRow(t.(downloads := Replaced(t.downloads, docs, t.removalJobs.Keys)), id)
    ensures Epoch(t.(downloads := Replaced(t.downloads, docs, t.removalJobs.Keys)), id) == Epoch(t, id)
  {
    SaveLookup(t, docs, id);
    if id !in t.removalJobs {
      var out := Replaced(t.downloads, docs, t.removalJobs.Keys);
      var doc :| doc in docs && Saves(doc) && Lookup(out, id) == Some(SavedRow(t.downloads, doc));
      FenceEpochBound(Fields(t, id));
      MediaOfSaved(t.downloads, doc);
      SavedEpoch(t.downloads, doc);
    }
  }

  lemma MediaOfSaved(rows: seq<Row>, doc: Document)
    requires Saves(doc)
    ensures Media(SavedRow(rows, doc).data) <==> Media(doc)
  {
  }

  lemma InPlaceEpoch(t: Tables, op: Op, id: Id)
    requires UniqueIds(t.downloads) && Regular(op) && InPlace(op)
    requires MediaRow(t, id) && MediaRow(Apply(t, op), id)
    ensures Epoch(t, id) <= Epoch(Apply(t, op), id)
    ensures !(op.Invalidate? && op.id == id) ==> Epoch(Apply(t, op), id) == Epoch(t, id)
  {
    var row := Lookup(t.downloads, id).value;
    InPlaceLookup(t, op, id);
    if op.Invalidate? {
      InvalidatedCheckpoint(t, op, row);
    } else {
      InPlaceCheckpoint(t, op, row);
      SameCheckpoint(InPlaceRow(t, op, row).data.fields, row.data.fields);
    }
  }

  lemma OtherEpoch(t: Tables, op: Op, id: Id)
    requires UniqueIds(t.downloads) && AllNamed(t.downloads) && Regular(op) && !InPlace(op)
    requires MediaRow(t, id) && MediaRow(Apply(t, op), id)
    ensures Epoch(Apply(t, op), id) == Epoch(t, id)
  {
    if op.Save? {
      if Acceptable(op.docs, t.removalJobs.Keys) { SaveEpoch(t, op.docs, id); }
    } else if op.RecoverBackups? {
      RecoveredNames(t, op.candidates, op.mode, id);
    } else if op.InterruptRecovery? {
      InterruptedNames(t, op.candidates, op.mode, op.committed, id);
    } else if !op.ImportLegacy? {
      OtherStepsLookup(t, op, id);
    }
  }

  /** One step: while an id stays media its epoch never falls, and only an invalidation of it moves it. */
  lemma EpochStep(t: Tables, op: Op, id: Id)
    requires UniqueIds(t.downloads) && AllNamed(t.downloads) && Regular(op)
    requires MediaRow(t, id) && MediaRow(Apply(t, op), id)
    ensures Epoch(t, id) <= Epoch(Apply(t, op), id)
    ensures !(op.Invalidate? && op.id == id) ==> Epoch(Apply(t, op), id) == Epoch(t, id)
  {
    if InPlace(op) {
      InPlaceEpoch(t, op, id);
    } else {
      OtherEpoch(t, op, id);
    }
  }

  ghost predicate StaysMedia(t: Tables, ops: seq<Op>, id: Id) {
    forall k :: 0 <= k <= |ops| ==> MediaRow(Run(t, ops[..k]), id)
  }

  predicate Invalidates(ops: seq<Op>, id: Id) {
    exists k :: 0 <= k < |ops| && ops[k].Invalidate? && ops[k].id == id
  }

  /**
    Over any interleaving of snapshots, stale or not, with invalidations, mutations,
    restarts and recoveries: while an id stays persisted as media its epoch never falls,
    and without an invalidation of that id it does not change.
   */
  lemma {:induction false} EpochNeverFalls(t: Tables, ops: seq<Op>, id: Id)
    requires UniqueIds(t.downloads) && AllNamed(t.downloads) && RegularOps(ops) && StaysMedia(t, ops, id)
    ensures MediaRow(t, id) && MediaRow(Run(t, ops), id)
    ensures Epoch(t, id) <= Epoch(Run(t, ops), id)
    ensures !Invalidates(ops, id) ==> Epoch(Run(t, ops), id) == Epoch(t, id)
  {
    StaysMediaEnds(t, ops, id);
    if ops != [] {
      StaysMediaFront(t, ops, id);
      EpochNeverFalls(t, Front(ops), id);
      RunNames(t, Front(ops));
      EpochStep(Run(t, Front(ops)), Last(ops), id);
      InvalidatesFront(ops, id);
    }
  }

  lemma StaysMediaEnds(t: Tables, ops: seq<Op>, id: Id)
    requires StaysMedia(t, ops, id)
    ensures MediaRow(t, id) && MediaRow(Run(t, ops), id)
  {
    assert ops[..0] == [] && MediaRow(Run(t, ops[..0]), id);
    assert ops[..|ops|] == ops && MediaRow(Run(t, ops[..|ops|]), id);
  }

  lemma StaysMediaFront(t: Tables, ops: seq<Op>, id: Id)
    requires ops != [] && StaysMedia(t, ops, id)
    ensures StaysMedia(t, Front(ops), id)
  {
    forall k | 0 <= k <= |ops| - 1 ensures MediaRow(Run(t, Front(ops)[..k]), id) {
      assert Front(ops)[..k] == ops[..k];
      assert MediaRow(Run(t, ops[..k]), id);
    }
  }

  lemma InvalidatesFront(ops: seq<Op>, id: Id)
    requires ops != []
    ensures Invalidates(ops, id) <==> Invalidates(Front(ops), id) || (Last(ops).Invalidate? && Last(ops).id == id)
  {
    assert forall k :: 0 <= k < |ops| - 1 ==> Front(ops)[k] == ops[k];
    assert ops[|ops| - 1] == Last(ops);
  }

  // ---------- Where stored progress comes from ----------

  /** The documents of a snapshot or of a legacy import into an empty table are saved. */
  ghost predicate Saved(t: Tables, op: Op) {
    || (op.Save? && Acceptable(op.docs, t.removalJobs.Keys))
    || (op.ImportLegacy? && t.downloads == [] && Imports(t, op.docs, op.queues))
  }

  /** A document of `docs` is the id's, and carried this progress under this epoch. */
  ghost predicate Carries(docs: seq<Document>, id: Id, progress: Object, epoch: nat) {
    exists doc :: doc in docs && Media(doc) && RequiredString(doc, IdField) == Some(id)
                  && ParseEpoch(doc.fields) == Some(epoch) && Progress(doc.fields) == progress
  }

  /** The documents saved at step `k` carried the id's progress, and the epoch then persisted. */
  ghost predicate CarriedBy(t: Tables, ops: seq<Op>, id: Id, k: nat, progress: Object, epoch: nat) {
    k < |ops| && Saved(Run(t, ops[..k]), ops[k])
    && StoredEpoch(Run(t, ops[..k]).downloads, id) == epoch
    && Carries(ops[k].docs, id, progress, epoch)
  }

  /** The row holds the id's document of some candidate. */
  ghost predicate BackedUp(candidates: seq<Backup>, mode: Mode, row: Row) {
    exists k :: 0 <= k < |candidates| && InBackup(candidates[k], mode, row)
  }

  predicate InBackup(c: Backup, mode: Mode, row: Row) {
    c.Backup? && ValidRecord(row) && row.data in CandidateDocs(c, mode) && row == RestoredRow(row.data)
  }

  /** The recovery at step `k` found no usable row of the id and restored the one it has now. */
  ghost predicate RestoredBy(t: Tables, ops: seq<Op>, id: Id, k: nat, progress: Object, epoch: nat) {
    k < |ops| && (ops[k].RecoverBackups? || ops[k].InterruptRecovery?)
    && (HasRow(Run(t, ops[..k]).downloads, id) ==> !ValidRecord(Lookup(Run(t, ops[..k]).downloads, id).value))
    && exists row: Row :: row.id == id && BackedUp(ops[k].candidates, ops[k].mode, row) && Media(row.data)
                     && Progress(row.data.fields) == progress && FenceEpoch(row.data.fields) == epoch
  }

  lemma SaveProvenance(t: Tables, u: Tables, docs: seq<Document>, id: Id)
    requires UniqueIds(t.downloads) && Acceptable(docs, t.removalJobs.Keys) && id !in t.removalJobs
    requires u.downloads == Replaced(t.downloads, docs, t.removalJobs.Keys)
    requires MediaRow(u, id) && Progress(Fields(u, id)) != map[]
    ensures Epoch(u, id) == StoredEpoch(t.downloads, id) && Carries(docs, id, Progress(Fields(u, id)), Epoch(u, id))
  {
    SaveLookup(t, docs, id);
    var doc :| doc in docs && Saves(doc) && Lookup(u.downloads, id) == Some(SavedRow(t.downloads, doc));
    MediaOfSaved(t.downloads, doc);
    assert StoredEpoch(t.downloads, id) <= U64_MAX by {
      if Find(t.downloads, id).Some? && Media(t.downloads[Find(t.downloads, id).value].data) {
        FenceEpochBound(t.downloads[Find(t.downloads, id).value].data.fields);
      }
    }
    SavedEpoch(t.downloads, doc);
  }

  /** A step that brings no documents never adds progress and never moves the epoch under progress that stays. */
  lemma QuietStep(t: Tables, op: Op, id: Id)
    requires UniqueIds(t.downloads) && Regular(op) && !Adding(op)
    requires MediaRow(Apply(t, op), id) && Progress(Fields(Apply(t, op), id)) != map[]
    ensures MediaRow(t, id) && Progress(Fields(Apply(t, op), id)) == Progress(Fields(t, id))
    ensures Epoch(Apply(t, op), id) == Epoch(t, id)
  {
    if !InPlace(op) {
      OtherStepsLookup(t, op, id);
    } else {
      InPlaceLookup(t, op, id);
      var row := Lookup(t.downloads, id).value;
      var after := Lookup(Apply(t, op).downloads, id).value;
      if after != row {
        InPlaceRecord(t, op, row);
        if op.Invalidate? {
          QuietInvalidation(t, op, row);
        } else {
          InPlaceCheckpoint(t, op, row);
          SameCheckpoint(InPlaceRow(t, op, row).data.fields, row.data.fields);
        }
      }
    }
  }

  /** An invalidation that leaves progress left the checkpoint alone. */
  lemma QuietInvalidation(t: Tables, op: Op, row: Row)
    requires op.Invalidate? && ValidOp(op) && row.data.Record?
    requires Media(InPlaceRow(t, op, row).data) && Progress(InPlaceRow(t, op, row).data.fields) != map[]
    ensures Media(row.data) && Progress(InPlaceRow(t, op, row).data.fields) == Progress(row.data.fields)
    ensures FenceEpoch(InPlaceRow(t, op, row).data.fields) == FenceEpoch(row.data.fields)
  {
    if Media(row.data) {
      InvalidatedCheckpoint(t, op, row);
      if InPlaceRow(t, op, row) != row {
        SameCheckpoint(InPlaceRow(t, op, row).data.fields, row.data.fields);
      }
    } else {
      NonMediaInvalidate(t, op, row);
    }
  }

  lemma InPlaceRecord(t: Tables, op: Op, row: Row)
    requires op.Mutate? || op.Invalidate? || op.RecoverJournal? || op.SanitizePersisted?
    ensures InPlaceRow(t, op, row).data.Record? ==> row.data.Record?
  {
  }

  lemma NonMediaInvalidate(t: Tables, op: Op, row: Row)
    requires op.Invalidate? && ValidOp(op) && row.data.Record? && !Media(row.data)
    ensures InPlaceRow(t, op, row).data.Record? && !Media(InPlaceRow(t, op, row).data)
  {
    CleanKeepsCheckpoint(op.mode, row.data.fields);
    SameCheckpoint(Clean(op.mode, row.data.fields), row.data.fields);
  }

  // ---------- What a recovery restores ----------

  lemma {:induction false} FirstHeldBackedUp(candidates: seq<Backup>, mode: Mode, id: Id)
    ensures var row := Laws.FirstHeld(candidates, mode, id);
            row.Some? ==> row.value.id == id && BackedUp(candidates, mode, row.value)
  {
    if candidates != [] {
      if Laws.Holds(candidates[0], mode, id) {
        assert InBackup(candidates[0], mode, Laws.FirstHeld(candidates, mode, id).value);
      } else {
        FirstHeldBackedUp(candidates[1..], mode, id);
        if Laws.FirstHeld(candidates, mode, id).Some? {
          var row := Laws.FirstHeld(candidates, mode, id).value;
          var k :| 0 <= k < |candidates| - 1 && InBackup(candidates[1..][k], mode, row);
          assert InBackup(candidates[k + 1], mode, row);
        }
      }
    }
  }

  lemma {:induction false} UnscopedFrom(rows: seq<Row>, docs: seq<Document>, excluded: set<Id>, id: Id)
    requires UniqueIds(rows)
    ensures var out := RestoreUnscoped(rows, docs, excluded);
            Lookup(out, id) == Lookup(rows, id)
            || (Lookup(out, id).Some? && ValidRecord(Lookup(out, id).value)
                && Lookup(out, id).value.data in docs && Lookup(out, id).value == RestoredRow(Lookup(out, id).value.data))
  {
    if docs != [] {
      UnscopedFrom(rows, Front(docs), excluded, id);
      var before := RestoreUnscoped(rows, Front(docs), excluded);
      var docId := RequiredString(Last(docs), IdField);
      if docId.Some? && docId.value !in excluded && !HasRow(before, docId.value) {
        Laws.LookupAppend(before, RestoredRow(Last(docs)), id);
      }
    }
  }

  /** What a complete or an interrupted recovery puts in place of a missing or unusable row. */
  ghost predicate RestoresFrom(t: Tables, u: Tables, candidates: seq<Backup>, mode: Mode, id: Id) {
    Lookup(u.downloads, id) == Lookup(t.downloads, id)
    || (&& (HasRow(t.downloads, id) ==> !ValidRecord(Lookup(t.downloads, id).value))
        && Lookup(u.downloads, id).Some? && BackedUp(candidates, mode, Lookup(u.downloads, id).value))
  }

  lemma RecoveredFrom(t: Tables, candidates: seq<Backup>, mode: Mode, id: Id)
    requires UniqueIds(t.downloads)
    ensures RestoresFrom(t, Recovered(t, candidates, mode), candidates, mode, id)
  {
    if !OrphanMode(t) {
      match FirstUsable(candidates, mode)
      case None =>
      case Some(k) =>
        UnscopedFrom(t.downloads, CandidateDocs(candidates[k], mode), TombstonedIds(t), id);
        var row := Lookup(Recovered(t, candidates, mode).downloads, id);
        assert row.Some? ==> InBackup(candidates[k], mode, row.value);
    } else {
      Laws.OrphansRestoredExactly(t, candidates, mode, id);
      FirstHeldBackedUp(candidates, mode, id);
    }
  }

  lemma BackedUpLonger(candidates: seq<Backup>, committed: nat, mode: Mode, row: Row)
    requires committed <= |candidates| && BackedUp(candidates[..committed], mode, row)
    ensures BackedUp(candidates, mode, row)
  {
    var k :| 0 <= k < committed && InBackup(candidates[..committed][k], mode, row);
    assert InBackup(candidates[k], mode, row);
  }

  lemma InterruptedFrom(t: Tables, candidates: seq<Backup>, mode: Mode, committed: nat, id: Id)
    requires UniqueIds(t.downloads) && committed <= |candidates|
    ensures RestoresFrom(t, Interrupted(t, candidates, mode, committed), candidates, mode, id)
  {
    if OrphanMode(t) && OrphanIds(t) != {} {
      var early := candidates[..committed];
      Laws.RepairPassMeaning(BackupRecovery.Progress(t, OrphanIds(t), false), early, mode, id);
      FirstHeldBackedUp(early, mode, id);
      if Laws.FirstHeld(early, mode, id).Some? {
        BackedUpLonger(candidates, committed, mode, Laws.FirstHeld(early, mode, id).value);
      }
    }
  }

  // ---------- Origins over a run ----------

  ghost predicate Carried(t: Tables, ops: seq<Op>, id: Id, progress: Object, epoch: nat) {
    exists k: nat :: CarriedBy(t, ops, id, k, progress, epoch)
  }

  ghost predicate Restored(t: Tables, ops: seq<Op>, id: Id, progress: Object, epoch: nat) {
    exists k: nat :: RestoredBy(t, ops, id, k, progress, epoch)
  }

  ghost predicate Held(t: Tables, id: Id, progress: Object, epoch: nat) {
    MediaRow(t, id) && Progress(Fields(t, id)) == progress && Epoch(t, id) == epoch
  }

  ghost predicate Originates(t: Tables, ops: seq<Op>, id: Id, progress: Object, epoch: nat) {
    Held(t, id, progress, epoch) || Carried(t, ops, id, progress, epoch) || Restored(t, ops, id, progress, epoch)
  }

  lemma OriginatesLater(t: Tables, ops: seq<Op>, id: Id, progress: Object, epoch: nat)
    requires ops != [] && Originates(t, Front(ops), id, progress, epoch)
    ensures Originates(t, ops, id, progress, epoch)
  {
    if Carried(t, Front(ops), id, progress, epoch) {
      var k: nat :| CarriedBy(t, Front(ops), id, k, progress, epoch);
      assert Front(ops)[..k] == ops[..k] && Front(ops)[k] == ops[k];
      assert CarriedBy(t, ops, id, k, progress, epoch);
    } else if Restored(t, Front(ops), id, progress, epoch) {
      var k: nat :| RestoredBy(t, Front(ops), id, k, progress, epoch);
      assert Front(ops)[..k] == ops[..k] && Front(ops)[k] == ops[k];
      assert RestoredBy(t, ops, id, k, progress, epoch);
    }
  }

  /** The last step saves documents: it carries the progress, or leaves the row. */
  lemma LastSaveCarries(t: Tables, ops: seq<Op>, id: Id, progress: Object, epoch: nat)
    requires ops != [] && UniqueIds(Run(t, Front(ops)).downloads) && (Last(ops).Save? || Last(ops).ImportLegacy?)
    requires Held(Run(t, ops), id, progress, epoch) && progress != map[]
    ensures Carried(t, ops, id, progress, epoch) || Held(Run(t, Front(ops)), id, progress, epoch)
  {
    var n, u, op := |ops| - 1, Run(t, Front(ops)), Last(ops);
    assert ops[..n] == Front(ops) && ops[n] == op;
    if Saved(u, op) {
      if id in u.removalJobs {
        SaveLookup(u, op.docs, id);
      } else {
        SaveProvenance(u, Run(t, ops), op.docs, id);
        assert CarriedBy(t, ops, id, n, progress, epoch);
      }
    }
  }

  lemma LastRecoveryRestores(t: Tables, ops: seq<Op>, id: Id, progress: Object, epoch: nat)
    requires ops != [] && UniqueIds(Run(t, Front(ops)).downloads) && ValidOp(Last(ops))
    requires Last(ops).RecoverBackups? || Last(ops).InterruptRecovery?
    requires Held(Run(t, ops), id, progress, epoch)
    ensures Restored(t, ops, id, progress, epoch) || Held(Run(t, Front(ops)), id, progress, epoch)
  {
    var n, u, op := |ops| - 1, Run(t, Front(ops)), Last(ops);
    assert ops[..n] == Front(ops) && ops[n] == op;
    if op.RecoverBackups? {
      RecoveredFrom(u, op.candidates, op.mode, id);
    } else {
      InterruptedFrom(u, op.candidates, op.mode, op.committed, id);
    }
    if Lookup(Run(t, ops).downloads, id) != Lookup(u.downloads, id) {
      var row := Lookup(Run(t, ops).downloads, id).value;
      assert row.id == id && BackedUp(op.candidates, op.mode, row) && Media(row.data);
      assert RestoredBy(t, ops, id, n, progress, epoch);
    }
  }

  lemma RegularFront(t: Tables, ops: seq<Op>)
    requires ops != [] && RegularOps(ops) && UniqueIds(t.downloads)
    ensures RegularOps(Front(ops)) && UniqueIds(Run(t, Front(ops)).downloads) && Regular(Last(ops))
  {
    assert forall k :: 0 <= k < |ops| - 1 ==> Front(ops)[k] == ops[k];
    assert Last(ops) == ops[|ops| - 1];
    assert ValidOps(Front(ops)) by { assert forall k :: 0 <= k < |ops| - 1 ==> Regular(ops[k]); }
    RunKeepsUnique(t, Front(ops));
  }

  /**
    Progress found beside a media row's epoch after any run was there from the start at that
    epoch, or was saved from a document carrying exactly the epoch then persisted, which is
    the epoch stored now, or was restored from a backup where no usable row of the id was.
   */
  lemma {:induction false} ProgressWasFenced(t: Tables, ops: seq<Op>, id: Id)
    requires UniqueIds(t.downloads) && RegularOps(ops)
    requires MediaRow(Run(t, ops), id) && Progress(Fields(Run(t, ops), id)) != map[]
    ensures Originates(t, ops, id, Progress(Fields(Run(t, ops), id)), Epoch(Run(t, ops), id))
  {
    if ops != [] {
      RegularFront(t, ops);
      var progress, epoch := Progress(Fields(Run(t, ops), id)), Epoch(Run(t, ops), id);
      LastStepOrigin(t, ops, id, progress, epoch);
      if Held(Run(t, Front(ops)), id, progress, epoch) {
        ProgressWasFenced(t, Front(ops), id);
        OriginatesLater(t, ops, id, progress, epoch);
      }
    }
  }

  lemma LastStepOrigin(t: Tables, ops: seq<Op>, id: Id, progress: Object, epoch: nat)
    requires ops != [] && UniqueIds(Run(t, Front(ops)).downloads) && Regular(Last(ops))
    requires Held(Run(t, ops), id, progress, epoch) && progress != map[]
    ensures || Carried(t, ops, id, progress, epoch) || Restored(t, ops, id, progress, epoch)
            || Held(Run(t, Front(ops)), id, progress, epoch)
  {
    if Last(ops).Save? || Last(ops).ImportLegacy? {
      LastSaveCarries(t, ops, id, progress, epoch);
    } else if Last(ops).RecoverBackups? || Last(ops).InterruptRecovery? {
      LastRecoveryRestores(t, ops, id, progress, epoch);
    } else {
      QuietStep(Run(t, Front(ops)), Last(ops), id);
    }
  }

  // ---------- After an invalidation ----------

  /** While the id stays media there is a usable row, so no recovery restores it. */
  lemma NothingRestored(t: Tables, ops: seq<Op>, id: Id, progress: Object, epoch: nat)
    requires UniqueIds(t.downloads) && AllNamed(t.downloads) && RegularOps(ops) && StaysMedia(t, ops, id)
    ensures !Restored(t, ops, id, progress, epoch)
  {
    forall k: nat ensures !RestoredBy(t, ops, id, k, progress, epoch) {
      if k < |ops| {
        assert MediaRow(Run(t, ops[..k]), id);
        RunNames(t, ops[..k]);
        NamedLookup(Run(t, ops[..k]).downloads);
      }
    }
  }

  /** An invalidation of an unfinished media item in a readable table takes effect. */
  lemma InvalidationApplies(t: Tables, op: Op, id: Id)
    requires UniqueIds(t.downloads) && AllReadable(t.downloads) && op.Invalidate? && op.id == id && ValidOp(op)
    requires MediaRow(t, id) && Invalidatable(Fields(t, id))
    ensures var u := Apply(t, op);
            MediaRow(u, id) && Progress(Fields(u, id)) == map[] && ParseEpoch(Fields(u, id)) == Some(CountedEpoch(Fields(t, id)) + 1)
  {
    var k := Find(t.downloads, id).value;
    InvalidationExactly(t.downloads[k], op.mode);
    InPlaceKeepsIds(t, op);
    LookupPointwise(t.downloads, Apply(t, op).downloads, id);
  }

  /**
    After an invalidation of an unfinished media item with a readable epoch, whatever progress
    any later run finds while the id stays media was saved from a document carrying a later
    epoch: no snapshot taken before the invalidation brings its progress back.
   */
  lemma InvalidationFencesOff(t: Tables, op: Op, ops: seq<Op>, id: Id)
    requires UniqueIds(t.downloads) && AllReadable(t.downloads) && op.Invalidate? && op.id == id && ValidOp(op)
    requires MediaRow(t, id) && Invalidatable(Fields(t, id)) && ParseEpoch(Fields(t, id)).Some?
    requires RegularOps(ops) && StaysMedia(Apply(t, op), ops, id)
    requires MediaRow(Run(Apply(t, op), ops), id) && Progress(Fields(Run(Apply(t, op), ops), id)) != map[]
    ensures var u, epoch := Apply(t, op), Epoch(Run(Apply(t, op), ops), id);
            Epoch(t, id) < epoch && Carried(u, ops, id, Progress(Fields(Run(u, ops), id)), epoch)
  {
    var u := Apply(t, op);
    InvalidationApplies(t, op, id);
    InvalidatedNames(t, op);
    EpochNeverFalls(u, ops, id);
    ProgressWasFenced(u, ops, id);
    NothingRestored(u, ops, id, Progress(Fields(Run(u, ops), id)), Epoch(Run(u, ops), id));
  }

  lemma InvalidatedNames(t: Tables, op: Op)
    requires UniqueIds(t.downloads) && AllReadable(t.downloads) && op.Invalidate? && ValidOp(op)
    ensures UniqueIds(Apply(t, op).downloads) && AllNamed(Apply(t, op).downloads)
  {
    assert AllNamed(t.downloads);
    RunNames(t, [op]);
    assert Run(t, [op]) == Apply(t, op) by { assert Front([op]) == []; }
  }

  /** A document carrying exactly the stored epoch is stored as it is, progress included. */
  lemma CurrentDocSaved(t: Tables, docs: seq<Document>, doc: Document, id: Id)
    requires UniqueIds(t.downloads) && Acceptable(docs, t.removalJobs.Keys) && id !in t.removalJobs
    requires doc in docs && Saves(doc) && Media(doc) && RequiredString(doc, IdField) == Some(id)
    requires ParseEpoch(doc.fields) == Some(StoredEpoch(t.downloads, id))
    ensures var row := Lookup(Apply(t, Save(docs)).downloads, id); row.Some? && row.value.data == doc
  {
    var out := Replaced(t.downloads, docs, t.removalJobs.Keys);
    ReplaceKeeps(t.downloads, docs, t.removalJobs.Keys);
    ReplacedUnique(t.downloads, docs, t.removalJobs.Keys);
    LookupMember(out, SavedRow(t.downloads, doc));
  }

  /**
    An unfinished media item whose stored epoch is malformed is fenced with one before and after
    the invalidation, so every snapshot taken before it, which carries one, brings its progress
    back.
   */
  lemma MalformedEpochIsNotFenced(t: Tables, op: Op, docs: seq<Document>, doc: Document, id: Id)
    requires UniqueIds(t.downloads) && AllReadable(t.downloads) && op.Invalidate? && op.id == id && ValidOp(op)
    requires MediaRow(t, id) && Invalidatable(Fields(t, id)) && ParseEpoch(Fields(t, id)).None?
    requires id !in t.removalJobs && Acceptable(docs, t.removalJobs.Keys)
    requires doc in docs && Saves(doc) && Media(doc) && RequiredString(doc, IdField) == Some(id)
    requires ParseEpoch(doc.fields) == Some(Epoch(t, id))
    ensures var u, v := Apply(t, op), Apply(Apply(t, op), Save(docs));
            && MediaRow(u, id) && Progress(Fields(u, id)) == map[] && Epoch(u, id) == Epoch(t, id) == 1
            && MediaRow(v, id) && Progress(Fields(v, id)) == Progress(doc.fields)
  {
    var u := Apply(t, op);
    InvalidationApplies(t, op, id);
    InPlaceKeepsIds(t, op);
    LookupPointwise(t.downloads, u.downloads, id);
    CurrentDocSaved(u, docs, doc, id);
  }

  /** An unfinished media item whose stored epoch is this text. */
  function Item(epoch: string): Object {
    map[IdField := Text("a"), Status := Text("queued"), IsMedia := Bool(true), CheckpointEpoch := Text(epoch),
        DownloadedBytes := Text("7")]
  }

  lemma ItemEpochs()
    ensures ParseEpoch(Item("x")).None? && ParseEpoch(Item(ToDecimal(1))) == Some(1)
    ensures Progress(Item(ToDecimal(1))) != map[]
  {
    assert "x"[0] == 'x';
    ParsePrinted(1);
    assert DownloadedBytes in Progress(Item(ToDecimal(1)));
  }

  lemma OneDocument(doc: Document)
    requires Saves(doc)
    ensures Acceptable([doc], {})
  {
    assert Front([doc]) == [];
  }

  /** One malformed row: the snapshot taken before the invalidation brings back its progress. */
  lemma MalformedItemReturns(t: Tables)
    requires t.downloads == [Row("a", "queued", None, Record(Item("x")))] && t.removalJobs == map[]
    ensures var v := Apply(Apply(t, Invalidate("a", Standard)), Save([Record(Item(ToDecimal(1)))]));
            MediaRow(v, "a") && Progress(Fields(v, "a")) == Progress(Item(ToDecimal(1))) != map[]
  {
    var doc := Record(Item(ToDecimal(1)));
    ItemEpochs();
    FindUnique(t.downloads, 0);
    OneDocument(doc);
    MalformedEpochIsNotFenced(t, Invalidate("a", Standard), [doc], doc, "a");
  }
}
