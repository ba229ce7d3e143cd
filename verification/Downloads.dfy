/**
  The downloads table and the operations that write it. Rows keep their rowid order.
  Each operation is specified on values; a failed one leaves the tables as they were,
  because its transaction is never committed.
 */
module Downloads {
  import opened Base
  import opened Decimal
  import opened Documents

  datatype Row = Row(id: Id, status: string, queueId: Option<string>, data: Document)

  ghost predicate UniqueIds(rows: seq<Row>) {
    forall i, j :: 0 <= i < j < |rows| ==> rows[i].id != rows[j].id
  }

  predicate HasRow(rows: seq<Row>, id: Id) {
    exists k :: 0 <= k < |rows| && rows[k].id == id
  }

  function Ids(rows: seq<Row>): set<Id> {
    set k | 0 <= k < |rows| :: rows[k].id
  }

  function Find(rows: seq<Row>, id: Id): (r: Option<nat>)
    ensures r.Some? ==> r.value < |rows| && rows[r.value].id == id
    ensures r.Some? <==> HasRow(rows, id)
  {
    if rows == [] then None
    else if Last(rows).id == id then Some(|rows| - 1)
    else
      var r := Find(Front(rows), id);
      assert HasRow(rows, id) ==> HasRow(Front(rows), id) by {
        if HasRow(rows, id) {
          var k :| 0 <= k < |rows| && rows[k].id == id;
          assert Front(rows)[k].id == id;
        }
      }
      r
  }

  /** A row whose indexed columns repeat what its document says. */
  predicate Agrees(row: Row) {
    && StringField(row.data, IdField) == Some(row.id)
    && StringField(row.data, Status) == Some(row.status)
  }

  predicate AgreesWithQueue(row: Row) {
    Agrees(row) && StringField(row.data, QueueId) == row.queueId
  }

  // ---------- Full snapshot replace ----------

  function KeepJobRows(rows: seq<Row>, jobs: set<Id>): seq<Row> {
    if rows == [] then []
    else if Last(rows).id in jobs then KeepJobRows(Front(rows), jobs) + [Last(rows)]
    else KeepJobRows(Front(rows), jobs)
  }

  /** The epoch a snapshot of this id is fenced with: that of the stored media row, else zero. */
  function StoredEpoch(rows: seq<Row>, id: Id): nat {
    match Find(rows, id)
    case Some(k) => if Media(rows[k].data) then FenceEpoch(rows[k].data.fields) else 0
    case None => 0
  }

  /** A media document that does not carry exactly the stored epoch loses its progress. */
  function Fence(doc: Document, epoch: nat): Document {
    if Media(doc) && ParseEpoch(doc.fields) != Some(epoch) then Record(ClearProgress(doc.fields, epoch)) else doc
  }

  predicate Saves(doc: Document) {
    RequiredString(doc, IdField).Some? && RequiredString(doc, Status).Some?
  }

  function SavedRow(rows: seq<Row>, doc: Document): Row
    requires Saves(doc)
  {
    var id := RequiredString(doc, IdField).value;
    Row(id, RequiredString(doc, Status).value, StringField(doc, QueueId), Fence(doc, StoredEpoch(rows, id)))
  }

  /** The documents of a snapshot that reach the table: removal jobs outrank the rest. */
  function Admitted(docs: seq<Document>, jobs: set<Id>): seq<Document> {
    if docs == [] then []
    else
      var id := RequiredString(Last(docs), IdField);
      if id.Some? && id.value in jobs then Admitted(Front(docs), jobs)
      else Admitted(Front(docs), jobs) + [Last(docs)]
  }

  ghost predicate Acceptable(docs: seq<Document>, jobs: set<Id>) {
    var admitted := Admitted(docs, jobs);
    && (forall k :: 0 <= k < |admitted| ==> Saves(admitted[k]))
    && (forall i, j :: 0 <= i < j < |admitted| ==>
          RequiredString(admitted[i], IdField) != RequiredString(admitted[j], IdField))
  }

  /** Rows with a removal job stay; behind them the admitted snapshot, fenced, in order. */
  ghost function Replaced(rows: seq<Row>, docs: seq<Document>, jobs: set<Id>): seq<Row>
    requires Acceptable(docs, jobs)
  {
    var admitted := Admitted(docs, jobs);
    KeepJobRows(rows, jobs) + seq(|admitted|, k requires 0 <= k < |admitted| => SavedRow(rows, admitted[k]))
  }

  // ---------- Single-row mutation ----------

  predicate ReadableRow(row: Row) {
    RequiredString(row.data, IdField) == Some(row.id) && RequiredString(row.data, Status).Some?
  }

  type Mutation = Object -> Result<Object, string>

  function MutatedRow(row: Row, mutate: Mutation, mode: Mode): Result<Row, string>
    requires ReadableRow(row)
  {
    match mutate(row.data.fields)
    case Err(error) => Err(error)
    case Ok(changed) =>
      var cleaned := Clean(mode, changed);
      if !HasString(changed, IdField, row.id) then Err("persisted download mutation cannot change its id")
      else if cleaned == row.data.fields then Ok(row)
      else if RequiredString(Record(cleaned), IdField).None? || RequiredString(Record(cleaned), Status).None? then
        Err("persisted item is missing a required field")
      else Ok(Row(row.id, RequiredString(Record(cleaned), Status).value, StringField(Record(cleaned), QueueId), Record(cleaned)))
  }

  function Mutated(rows: seq<Row>, id: Id, mutate: Mutation, mode: Mode): Result<seq<Row>, string> {
    if exists k :: 0 <= k < |rows| && !ReadableRow(rows[k]) then Err("a persisted download is malformed")
    else
      match Find(rows, id)
      case None => Err("download is no longer persisted")
      case Some(k) =>
        match MutatedRow(rows[k], mutate, mode)
        case Err(error) => Err(error)
        case Ok(row) => Ok(rows[k := row])
  }

  /** The epoch an invalidation counts on from: a missing or malformed one is zero. */
  function CountedEpoch(o: Object): (epoch: nat)
    ensures epoch <= U64_MAX
  {
    var parsed := ParseEpoch(o);
    if parsed.Some? then parsed.value else 0
  }

  /** An unfinished media item. */
  predicate Unfinished(o: Object) {
    IsTrue(o, IsMedia) && !HasString(o, Status, "completed")
  }

  /** Advance the epoch of an unfinished media row and drop its progress. */
  function InvalidateCheckpoint(o: Object): Result<Object, string> {
    if !IsTrue(o, IsMedia) || HasString(o, Status, "completed") then Ok(o)
    else
      var parsed := ParseEpoch(o);
      var previous := if parsed.Some? then parsed.value else 0;
      if previous >= U64_MAX then Err("media progress checkpoint epoch is exhausted")
      else Ok(ClearProgress(o, previous + 1))
  }

  // ---------- Shutdown completion journal ----------

  type Journal = map<Id, string>

  function Recorded(journal: Journal, id: Id, generation: nat): Result<Journal, string> {
    if id in journal && ParseU64(journal[id]).None? then Err("invalid lifecycle generation")
    else if id in journal && ParseU64(journal[id]).value > generation then Ok(journal)
    else Ok(journal[id := ToDecimal(generation)])
  }

  predicate CompletableRow(row: Row) {
    && RequiredString(row.data, IdField) == Some(row.id)
    && RequiredString(row.data, Status) == Some(row.status)
  }

  function CompletedRow(row: Row): Row
    requires row.data.Record?
  {
    if row.status == "completed" then row
    else row.(status := "completed", data := Record(row.data.fields[Status := Text("completed")]))
  }

  ghost predicate JournalApplies(rows: seq<Row>, journal: Journal) {
    && (forall id :: id in journal ==> ParseU64(journal[id]).Some?)
    && (forall k :: 0 <= k < |rows| && rows[k].id in journal ==> CompletableRow(rows[k]))
  }

  ghost function Completed(rows: seq<Row>, ids: set<Id>): seq<Row>
    requires forall k :: 0 <= k < |rows| && rows[k].id in ids ==> rows[k].data.Record?
  {
    seq(|rows|, k requires 0 <= k < |rows| => if rows[k].id in ids then CompletedRow(rows[k]) else rows[k])
  }

  // ---------- Facts about the specification ----------

  lemma {:induction false} KeepJobRowsMeaning(rows: seq<Row>, jobs: set<Id>)
    requires UniqueIds(rows)
    ensures UniqueIds(KeepJobRows(rows, jobs))
    ensures forall row :: row in KeepJobRows(rows, jobs) <==> row in rows && row.id in jobs
  {
    if rows != [] {
      KeepJobRowsMeaning(Front(rows), jobs);
      var kept := KeepJobRows(Front(rows), jobs);
      assert rows == Front(rows) + [Last(rows)];
      forall k | 0 <= k < |kept| ensures kept[k].id != Last(rows).id {
        assert kept[k] in Front(rows);
        var i :| 0 <= i < |rows| - 1 && rows[i] == kept[k];
      }
    }
  }

  lemma {:induction false} AdmittedMeaning(docs: seq<Document>, jobs: set<Id>)
    ensures forall doc :: doc in Admitted(docs, jobs) <==>
              doc in docs && !(RequiredString(doc, IdField).Some? && RequiredString(doc, IdField).value in jobs)
  {
    if docs != [] {
      AdmittedMeaning(Front(docs), jobs);
      assert docs == Front(docs) + [Last(docs)];
    }
  }

  /** A replaced table keeps ids unique. */
  lemma ReplacedUnique(rows: seq<Row>, docs: seq<Document>, jobs: set<Id>)
    requires UniqueIds(rows) && Acceptable(docs, jobs)
    ensures UniqueIds(Replaced(rows, docs, jobs))
  {
    KeepJobRowsMeaning(rows, jobs);
    AdmittedMeaning(docs, jobs);
    var kept, admitted, out := KeepJobRows(rows, jobs), Admitted(docs, jobs), Replaced(rows, docs, jobs);
    forall i, j | 0 <= i < j < |out| ensures out[i].id != out[j].id {
      if i < |kept| <= j {
        assert kept[i] in kept;
        assert admitted[j - |kept|] in admitted;
      }
    }
  }

  lemma FindUnique(rows: seq<Row>, k: nat)
    requires UniqueIds(rows) && k < |rows|
    ensures Find(rows, rows[k].id) == Some(k)
  {
    assert HasRow(rows, rows[k].id);
    var r := Find(rows, rows[k].id).value;
    assert rows[r].id == rows[k].id;
  }

  /**
    A snapshot save leaves every row of a removal job exactly as it was, writes every
    other row with all three indexed columns equal to its document's, and stores media
    progress only from a document carrying exactly the stored epoch.
   */
  lemma ReplaceWrites(rows: seq<Row>, docs: seq<Document>, jobs: set<Id>, row: Row)
    requires UniqueIds(rows) && Acceptable(docs, jobs)
    requires row in Replaced(rows, docs, jobs)
    ensures row.id in jobs ==> row in rows
    ensures row.id !in jobs ==>
              && AgreesWithQueue(row)
              && exists doc :: doc in docs && Saves(doc) && row == SavedRow(rows, doc)
  {
    KeepJobRowsMeaning(rows, jobs);
    AdmittedMeaning(docs, jobs);
    var kept, admitted, out := KeepJobRows(rows, jobs), Admitted(docs, jobs), Replaced(rows, docs, jobs);
    var k :| 0 <= k < |out| && out[k] == row;
    if k < |kept| {
      assert kept[k] in kept;
    } else {
      var doc := admitted[k - |kept|];
      assert doc in admitted;
      SavedRowAgrees(rows, doc);
    }
  }

  lemma SavedRowAgrees(rows: seq<Row>, doc: Document)
    requires Saves(doc)
    ensures AgreesWithQueue(SavedRow(rows, doc))
  {
  }

  /** Nothing with a removal job is dropped by a snapshot, and the order of the rest is the snapshot's. */
  lemma ReplaceKeeps(rows: seq<Row>, docs: seq<Document>, jobs: set<Id>)
    requires UniqueIds(rows) && Acceptable(docs, jobs)
    ensures forall row :: row in rows && row.id in jobs ==> row in Replaced(rows, docs, jobs)
    ensures forall doc :: doc in docs && RequiredString(doc, IdField).Some? && RequiredString(doc, IdField).value !in jobs
              ==> Saves(doc) && SavedRow(rows, doc) in Replaced(rows, docs, jobs)
  {
    KeepJobRowsMeaning(rows, jobs);
    AdmittedMeaning(docs, jobs);
    var kept, admitted, out := KeepJobRows(rows, jobs), Admitted(docs, jobs), Replaced(rows, docs, jobs);
    forall row | row in rows && row.id in jobs ensures row in out {
      var k :| 0 <= k < |kept| && kept[k] == row;
      assert out[k] == row;
    }
    forall doc | doc in docs && RequiredString(doc, IdField).Some? && RequiredString(doc, IdField).value !in jobs
      ensures Saves(doc) && SavedRow(rows, doc) in out
    {
      var k :| 0 <= k < |admitted| && admitted[k] == doc;
      assert out[|kept| + k] == SavedRow(rows, doc);
    }
  }

  /**
    A mutation changes at most the target row, never its id, and whatever it writes
    agrees with its document in all three indexed columns.
   */
  lemma MutateWrites(rows: seq<Row>, id: Id, mutate: Mutation, mode: Mode)
    requires UniqueIds(rows) && ValidMode(mode) && Mutated(rows, id, mutate, mode).Ok?
    ensures var out := Mutated(rows, id, mutate, mode).value;
            && |out| == |rows| && UniqueIds(out)
            && (forall k :: 0 <= k < |rows| ==> out[k].id == rows[k].id)
            && (forall k :: 0 <= k < |rows| && rows[k].id != id ==> out[k] == rows[k])
            && (forall k :: 0 <= k < |rows| && out[k] != rows[k] ==> AgreesWithQueue(out[k]))
  {
    var k := Find(rows, id).value;
    var changed := mutate(rows[k].data.fields).value;
    CleanKeepsCore(mode, changed, IdField);
  }

  /** A journal recovery completes every journaled row in index and document and touches nothing else. */
  lemma RecoveryWrites(rows: seq<Row>, journal: Journal)
    requires UniqueIds(rows) && JournalApplies(rows, journal)
    ensures var out := Completed(rows, journal.Keys);
            && |out| == |rows| && UniqueIds(out)
            && (forall k :: 0 <= k < |rows| ==> out[k].id == rows[k].id && out[k].queueId == rows[k].queueId)
            && (forall k :: 0 <= k < |rows| && rows[k].id !in journal ==> out[k] == rows[k])
            && (forall k :: 0 <= k < |rows| && rows[k].id in journal ==>
                  && out[k].status == "completed" && Agrees(out[k])
                  && (forall field :: field != Status ==>
                        (field in out[k].data.fields <==> field in rows[k].data.fields)
                        && (field in rows[k].data.fields ==> out[k].data.fields[field] == rows[k].data.fields[field])))
  {
  }
}
