/**
  What the writers of the downloads table accept and what they store, in terms of the stored
  documents: snapshot saves, native mutations and the completion of journaled downloads.
 */
module RowLaws {
  import opened Base
  import opened Decimal
  import opened Documents
  import opened Downloads
  import opened Database
  import opened BackupRecovery
  import opened StoreRuns
  import opened PortableLaws
  import Laws = RecoveryLaws

  predicate HasText(doc: Document, field: Field, text: string) {
    doc.Record? && field in doc.fields && doc.fields[field] == Text(text)
  }

  /** The text is an object whose id is this string, which is not empty. */
  predicate Names(doc: Document, id: Id) {
    HasText(doc, IdField, id) && id != ""
  }

  /** The text of a field, if it holds one. */
  ghost predicate TextIs(doc: Document, field: Field, text: Option<string>) {
    match text
    case Some(s) => HasText(doc, field, s)
    case None => forall s :: !HasText(doc, field, s)
  }

  // ---------- The fence ----------

  /** Only the value `true` makes a media item. */
  predicate MediaItem(doc: Document) {
    doc.Record? && IsMedia in doc.fields && doc.fields[IsMedia] == Bool(true)
  }

  /** A missing epoch is zero, and anything but the text of a 64-bit number is one. */
  predicate FencesWith(doc: Document, epoch: nat) {
    && MediaItem(doc)
    && if CheckpointEpoch !in doc.fields then epoch == 0
       else if doc.fields[CheckpointEpoch].Text? && ParseU64(doc.fields[CheckpointEpoch].s).Some? then
         ParseU64(doc.fields[CheckpointEpoch].s) == Some(epoch)
       else epoch == 1
  }

  /** The document carries exactly this epoch; a missing one is zero. */
  predicate CarriesEpoch(doc: Document, epoch: nat) {
    && doc.Record?
    && if CheckpointEpoch in doc.fields then
         doc.fields[CheckpointEpoch].Text? && ParseU64(doc.fields[CheckpointEpoch].s) == Some(epoch)
       else epoch == 0
  }

  /** The epoch that a snapshot of the id is compared with: that of its media row, else zero. */
  ghost predicate StoredFence(rows: seq<Row>, id: Id, epoch: nat) {
    || (exists row :: row in rows && row.id == id && FencesWith(row.data, epoch))
    || (epoch == 0 && forall row :: row in rows && row.id == id ==> !MediaItem(row.data))
  }

  lemma StoredFenceExactly(rows: seq<Row>, id: Id, epoch: nat)
    requires UniqueIds(rows)
    ensures StoredFence(rows, id, epoch) <==> StoredEpoch(rows, id) == epoch
  {
    forall row | row in rows && row.id == id ensures Find(rows, id).Some? && rows[Find(rows, id).value] == row {
      var k :| 0 <= k < |rows| && rows[k] == row;
      FindUnique(rows, k);
    }
  }

  /** The given document as it is stored behind the fence. */
  predicate StoredBehind(given: Document, stored: Document, epoch: nat) {
    if MediaItem(given) && !CarriesEpoch(given, epoch) then
      && stored.Record? && CarriesEpoch(stored, epoch) && stored.fields.Keys !! {Fraction, DownloadedBytes, TotalBytes, TotalIsEstimate}
      && (Size in stored.fields <==> Size in given.fields && !IsTrue(given.fields, TotalIsEstimate))
      && (forall field :: field in stored.fields && field != CheckpointEpoch ==> field in given.fields && stored.fields[field] == given.fields[field])
      && (forall field :: field in given.fields && field !in {Fraction, DownloadedBytes, TotalBytes, TotalIsEstimate, CheckpointEpoch, Size} ==> field in stored.fields)
    else
      stored == given
  }

  lemma FenceExactly(doc: Document, epoch: nat)
    requires epoch <= U64_MAX
    ensures StoredBehind(doc, Fence(doc, epoch), epoch)
  {
    if MediaItem(doc) && !CarriesEpoch(doc, epoch) {
      ClearProgressMeaning(doc.fields, epoch);
    }
  }

  lemma StoredEpochBound(rows: seq<Row>, id: Id)
    ensures StoredEpoch(rows, id) <= U64_MAX
  {
  }

  // ---------- Snapshot saves ----------

  /** The document's id is not that of a removal job. */
  predicate Counted(doc: Document, jobs: set<Id>) {
    forall id :: id in jobs ==> !Names(doc, id)
  }

  lemma NamesMeans(doc: Document, id: Id)
    ensures Names(doc, id) <==> RequiredString(doc, IdField) == Some(id)
  {
  }

  lemma CountedMeans(doc: Document, jobs: set<Id>)
    ensures Counted(doc, jobs) <==> !(RequiredString(doc, IdField).Some? && RequiredString(doc, IdField).value in jobs)
  {
    if RequiredString(doc, IdField).Some? {
      NamesMeans(doc, RequiredString(doc, IdField).value);
    }
  }

  lemma AdmittedExactly(docs: seq<Document>, jobs: set<Id>, doc: Document)
    ensures doc in Admitted(docs, jobs) <==> doc in docs && Counted(doc, jobs)
  {
    AdmittedMeaning(docs, jobs);
    CountedMeans(doc, jobs);
  }

  lemma {:induction false} AdmittedOrder(docs: seq<Document>, jobs: set<Id>, i: nat, j: nat) returns (m: nat, n: nat)
    requires i < j < |docs| && Counted(docs[i], jobs) && Counted(docs[j], jobs)
    ensures m < n < |Admitted(docs, jobs)| && Admitted(docs, jobs)[m] == docs[i] && Admitted(docs, jobs)[n] == docs[j]
  {
    CountedMeans(Last(docs), jobs);
    if j == |docs| - 1 {
      AdmittedExactly(Front(docs), jobs, docs[i]);
      assert Front(docs)[i] == docs[i];
      var before := Admitted(Front(docs), jobs);
      m :| 0 <= m < |before| && before[m] == docs[i];
      n := |before|;
    } else {
      m, n := AdmittedOrder(Front(docs), jobs, i, j);
    }
  }

  lemma {:induction false} AdmittedFrom(docs: seq<Document>, jobs: set<Id>, m: nat, n: nat) returns (i: nat, j: nat)
    requires m < n < |Admitted(docs, jobs)|
    ensures i < j < |docs| && docs[i] == Admitted(docs, jobs)[m] && docs[j] == Admitted(docs, jobs)[n]
    ensures Counted(docs[i], jobs) && Counted(docs[j], jobs)
  {
    var before := Admitted(Front(docs), jobs);
    CountedMeans(Last(docs), jobs);
    if n < |before| {
      i, j := AdmittedFrom(Front(docs), jobs, m, n);
    } else {
      AdmittedExactly(Front(docs), jobs, before[m]);
      assert before[m] in before;
      i :| 0 <= i < |docs| - 1 && Front(docs)[i] == before[m];
      j := |docs| - 1;
    }
  }

  /** Every counted document has an id and a status, and no two of them the same id. */
  ghost predicate WellMade(docs: seq<Document>, jobs: set<Id>) {
    && (forall doc :: doc in docs && Counted(doc, jobs) ==> (exists id :: Names(doc, id)) && exists text :: HasText(doc, Status, text) && text != "")
    && (forall i, j, id :: 0 <= i < j < |docs| && Names(docs[i], id) && Names(docs[j], id) ==> id in jobs)
  }

  lemma SavesExactly(doc: Document)
    ensures Saves(doc) <==> (exists id :: Names(doc, id)) && exists text :: HasText(doc, Status, text) && text != ""
  {
    if Saves(doc) {
      assert Names(doc, RequiredString(doc, IdField).value) && HasText(doc, Status, RequiredString(doc, Status).value);
    }
  }

  lemma AdmittedAreWellMade(docs: seq<Document>, jobs: set<Id>)
    requires Acceptable(docs, jobs)
    ensures WellMade(docs, jobs)
  {
    forall doc | doc in docs && Counted(doc, jobs)
      ensures (exists id :: Names(doc, id)) && exists text :: HasText(doc, Status, text) && text != ""
    {
      AdmittedExactly(docs, jobs, doc);
      SavesExactly(doc);
    }
    forall i, j, id | 0 <= i < j < |docs| && Names(docs[i], id) && Names(docs[j], id) ensures id in jobs {
      NamesMeans(docs[i], id);
      NamesMeans(docs[j], id);
      CountedMeans(docs[i], jobs);
      CountedMeans(docs[j], jobs);
      if id !in jobs {
        var m, n := AdmittedOrder(docs, jobs, i, j);
      }
    }
  }

  lemma WellMadeIsAcceptable(docs: seq<Document>, jobs: set<Id>)
    requires WellMade(docs, jobs)
    ensures Acceptable(docs, jobs)
  {
    var admitted := Admitted(docs, jobs);
    forall k | 0 <= k < |admitted| ensures Saves(admitted[k]) {
      AdmittedExactly(docs, jobs, admitted[k]);
      SavesExactly(admitted[k]);
    }
    forall m, n | 0 <= m < n < |admitted| ensures RequiredString(admitted[m], IdField) != RequiredString(admitted[n], IdField) {
      var i, j := AdmittedFrom(docs, jobs, m, n);
      var id := RequiredString(admitted[m], IdField).value;
      NamesMeans(docs[i], id);
      NamesMeans(docs[j], id);
    }
  }

  /** A snapshot is refused exactly for a counted document without id or status, or two counted ones of one id. */
  lemma AcceptableExactly(docs: seq<Document>, jobs: set<Id>)
    ensures Acceptable(docs, jobs) <==> WellMade(docs, jobs)
  {
    if Acceptable(docs, jobs) {
      AdmittedAreWellMade(docs, jobs);
    }
    if WellMade(docs, jobs) {
      WellMadeIsAcceptable(docs, jobs);
    }
  }

  /** The row that a saved document leaves. */
  ghost predicate SavedAs(rows: seq<Row>, doc: Document, row: Row) {
    && Names(doc, row.id) && HasText(doc, Status, row.status) && row.status != "" && TextIs(doc, QueueId, row.queueId)
    && exists epoch: nat :: StoredFence(rows, row.id, epoch) && StoredBehind(doc, row.data, epoch)
  }

  lemma SavedRowExactly(rows: seq<Row>, doc: Document)
    requires UniqueIds(rows) && Saves(doc)
    ensures SavedAs(rows, doc, SavedRow(rows, doc))
  {
    var row := SavedRow(rows, doc);
    var epoch := StoredEpoch(rows, row.id);
    StoredEpochBound(rows, row.id);
    StoredFenceExactly(rows, row.id, epoch);
    FenceExactly(doc, epoch);
    assert StoredFence(rows, row.id, epoch) && StoredBehind(doc, row.data, epoch);
  }

  /**
    After a save an id without a removal job has exactly the row that its document leaves, and
    none if the snapshot does not name it.
   */
  lemma SaveExactly(rows: seq<Row>, docs: seq<Document>, jobs: set<Id>, id: Id)
    requires UniqueIds(rows) && Acceptable(docs, jobs) && id !in jobs
    ensures var saved := Lookup(Replaced(rows, docs, jobs), id);
            if saved.Some? then exists doc :: doc in docs && SavedAs(rows, doc, saved.value)
            else forall doc :: doc in docs ==> !Names(doc, id)
  {
    var out := Replaced(rows, docs, jobs);
    var saved := Lookup(out, id);
    if saved.Some? {
      ReplaceWrites(rows, docs, jobs, saved.value);
      var doc :| doc in docs && Saves(doc) && saved.value == SavedRow(rows, doc);
      SavedRowExactly(rows, doc);
    } else {
      forall doc | doc in docs ensures !Names(doc, id) {
        NamedIsFound(rows, docs, jobs, doc, id);
      }
    }
  }

  lemma NamedIsFound(rows: seq<Row>, docs: seq<Document>, jobs: set<Id>, doc: Document, id: Id)
    requires UniqueIds(rows) && Acceptable(docs, jobs) && id !in jobs && doc in docs
    ensures Names(doc, id) ==> HasRow(Replaced(rows, docs, jobs), id)
  {
    NamesMeans(doc, id);
    ReplaceKeeps(rows, docs, jobs);
    if Names(doc, id) {
      var out := Replaced(rows, docs, jobs);
      var k :| 0 <= k < |out| && out[k] == SavedRow(rows, doc);
    }
  }

  lemma SavedAt(rows: seq<Row>, docs: seq<Document>, jobs: set<Id>, doc: Document, p: nat, m: nat)
    requires UniqueIds(rows) && Acceptable(docs, jobs) && p < |Admitted(docs, jobs)| && Admitted(docs, jobs)[p] == doc
    requires m == |KeepJobRows(rows, jobs)| + p
    ensures m < |Replaced(rows, docs, jobs)| && SavedAs(rows, doc, Replaced(rows, docs, jobs)[m])
  {
    assert Saves(doc);
    SavedRowExactly(rows, doc);
  }

  /** The saved rows stand in the order of the snapshot. */
  lemma SaveOrder(rows: seq<Row>, docs: seq<Document>, jobs: set<Id>, i: nat, j: nat) returns (m: nat, n: nat)
    requires UniqueIds(rows) && Acceptable(docs, jobs)
    requires i < j < |docs| && Counted(docs[i], jobs) && Counted(docs[j], jobs)
    ensures var out := Replaced(rows, docs, jobs);
            m < n < |out| && SavedAs(rows, docs[i], out[m]) && SavedAs(rows, docs[j], out[n])
  {
    var p, q := AdmittedOrder(docs, jobs, i, j);
    var kept := KeepJobRows(rows, jobs);
    m, n := |kept| + p, |kept| + q;
    SavedAt(rows, docs, jobs, docs[i], p, m);
    SavedAt(rows, docs, jobs, docs[j], q, n);
  }

  lemma {:induction false} KeptOrder(rows: seq<Row>, jobs: set<Id>, i: nat, j: nat) returns (m: nat, n: nat)
    requires i < j < |rows| && rows[i].id in jobs && rows[j].id in jobs
    ensures m < n < |KeepJobRows(rows, jobs)| && KeepJobRows(rows, jobs)[m] == rows[i] && KeepJobRows(rows, jobs)[n] == rows[j]
  {
    var before := KeepJobRows(Front(rows), jobs);
    if j == |rows| - 1 {
      m := KeptAt(Front(rows), jobs, i);
      n := |before|;
    } else {
      m, n := KeptOrder(Front(rows), jobs, i, j);
    }
  }

  lemma {:induction false} KeptAt(rows: seq<Row>, jobs: set<Id>, i: nat) returns (m: nat)
    requires i < |rows| && rows[i].id in jobs
    ensures m < |KeepJobRows(rows, jobs)| && KeepJobRows(rows, jobs)[m] == rows[i]
  {
    if i == |rows| - 1 {
      m := |KeepJobRows(Front(rows), jobs)|;
    } else {
      m := KeptAt(Front(rows), jobs, i);
    }
  }

  /** The rows of removal jobs stand before the saved ones, in the order they had. */
  lemma JobRowsFirst(rows: seq<Row>, docs: seq<Document>, jobs: set<Id>, i: nat, j: nat) returns (m: nat, n: nat)
    requires UniqueIds(rows) && Acceptable(docs, jobs) && i < j < |rows| && rows[i].id in jobs && rows[j].id in jobs
    ensures var out := Replaced(rows, docs, jobs);
            && m < n < |out| && out[m] == rows[i] && out[n] == rows[j]
            && forall k :: 0 <= k < n ==> out[k].id in jobs
  {
    m, n := KeptOrder(rows, jobs, i, j);
    KeepJobRowsMeaning(rows, jobs);
    var kept := KeepJobRows(rows, jobs);
    assert forall k :: 0 <= k < |kept| ==> kept[k] in kept;
  }

  // ---------- Mutations and completions ----------

  lemma ReadableExactly(row: Row)
    ensures ReadableRow(row) <==> Names(row.data, row.id) && exists text :: HasText(row.data, Status, text) && text != ""
  {
    if ReadableRow(row) {
      assert HasText(row.data, Status, RequiredString(row.data, Status).value);
    }
  }

  ghost predicate HasStatus(doc: Document) {
    exists text :: HasText(doc, Status, text) && text != ""
  }

  /** What a mutation needs of the table before it asks for the change: every row readable, and one of the id. */
  ghost predicate Mutable(rows: seq<Row>, id: Id) {
    HasRow(rows, id) && forall row :: row in rows ==> Names(row.data, row.id) && HasStatus(row.data)
  }

  /** What the change must look like: the id stays, and what is stored of it is the old object or has an id and a status. */
  ghost predicate Permitted(was: Object, changed: Object, stored: Object, id: Id) {
    && HasText(Record(changed), IdField, id)
    && (stored == was || ((exists named :: Names(Record(stored), named)) && HasStatus(Record(stored))))
  }

  lemma MutableExactly(rows: seq<Row>, id: Id)
    ensures Mutable(rows, id) <==> HasRow(rows, id) && forall k :: 0 <= k < |rows| ==> ReadableRow(rows[k])
  {
    forall row ensures ReadableRow(row) <==> Names(row.data, row.id) && HasStatus(row.data) {
      ReadableExactly(row);
    }
    if Mutable(rows, id) {
      forall k | 0 <= k < |rows| ensures ReadableRow(rows[k]) {
        assert rows[k] in rows;
      }
    }
  }

  lemma MutatedRowExactly(row: Row, mutate: Mutation, mode: Mode)
    requires ReadableRow(row)
    ensures var r, o := MutatedRow(row, mutate, mode), row.data.fields;
            && (r.Ok? <==> mutate(o).Ok? && Permitted(o, mutate(o).value, Clean(mode, mutate(o).value), row.id))
            && (r.Ok? ==> var stored := Clean(mode, mutate(o).value);
                          if stored == o then r.value == row
                          else && r.value.id == row.id && r.value.data == Record(stored)
                               && HasText(r.value.data, Status, r.value.status) && TextIs(r.value.data, QueueId, r.value.queueId))
  {
    var o := row.data.fields;
    if mutate(o).Ok? {
      var doc := Record(Clean(mode, mutate(o).value));
      SavesExactly(doc);
    }
  }

  /**
    A mutation succeeds exactly if the table is readable, the id has a row, and the change is
    given and permitted; then the row holds what is to be stored of the change, and its columns.
   */
  lemma MutationExactly(rows: seq<Row>, id: Id, mutate: Mutation, mode: Mode)
    requires UniqueIds(rows)
    ensures var r := Mutated(rows, id, mutate, mode);
            if !Mutable(rows, id) then r.Err? else
              var row := Lookup(rows, id).value;
              var o := row.data.fields;
              && (r.Ok? <==> mutate(o).Ok? && forall stored :: StoredAs(mode, mutate(o).value, stored) ==> Permitted(o, mutate(o).value, stored, id))
              && (r.Ok? ==> forall stored :: StoredAs(mode, mutate(o).value, stored) ==> HoldsChange(Lookup(r.value, id), row, stored))
  {
    MutableExactly(rows, id);
    if Mutable(rows, id) {
      var k := Find(rows, id).value;
      var o := rows[k].data.fields;
      MutatedRowExactly(rows[k], mutate, mode);
      if mutate(o).Ok? {
        forall stored ensures StoredAs(mode, mutate(o).value, stored) <==> stored == Clean(mode, mutate(o).value) {
        }
        if Mutated(rows, id, mutate, mode).Ok? {
          Laws.LookupUpdate(rows, k, MutatedRow(rows[k], mutate, mode).value, id);
        }
      }
    }
  }

  /** The row found is the old one if nothing changed, and otherwise the stored object with its columns. */
  ghost predicate HoldsChange(found: Option<Row>, row: Row, stored: Object)
    requires row.data.Record?
  {
    if stored == row.data.fields then found == Some(row)
    else && found.Some? && found.value.id == row.id && found.value.data == Record(stored)
         && HasText(found.value.data, Status, found.value.status) && TextIs(found.value.data, QueueId, found.value.queueId)
  }

  /** A journaled download can be completed exactly if its document names its id and repeats its status, which is not empty. */
  lemma CompletableExactly(row: Row)
    ensures CompletableRow(row) <==> Names(row.data, row.id) && HasText(row.data, Status, row.status) && row.status != ""
  {
  }

  // ---------- The legacy import ----------

  /** A legacy import fills only empty tables, never replaces an owner, and does nothing if one of its lists is refused. */
  lemma ImportExactly(t: Tables, docs: seq<Document>, queues: seq<Document>, ownership: map<Id, string>, id: Id)
    ensures var u := Apply(t, ImportLegacy(docs, queues, ownership));
            if (t.downloads == [] && !Acceptable(docs, t.removalJobs.Keys)) || (t.queues == [] && !QueuesAcceptable(queues)) then u == t
            else
              && (t.downloads != [] ==> u.downloads == t.downloads)
              && (t.downloads == [] ==> u.downloads == Replaced([], docs, t.removalJobs.Keys))
              && (t.queues != [] ==> u.queues == t.queues)
              && (t.queues == [] ==> |u.queues| == |queues| && forall k :: 0 <= k < |queues| ==>
                    u.queues[k].data == queues[k] && StringField(queues[k], IdField) == Some(u.queues[k].id))
              && (id in u.ownership <==> id in t.ownership || id in ownership)
              && (id in t.ownership ==> u.ownership[id] == t.ownership[id])
              && (id in u.ownership && id !in t.ownership ==> u.ownership[id] == ownership[id])
              && u == t.(downloads := u.downloads, queues := u.queues, ownership := u.ownership)
  {
  }
}
