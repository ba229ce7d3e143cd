/**
  The database connection. Its methods run the transactions statement by statement on
  working copies that reach the tables only at commit; any statement may fail. `fails`
  says which statements do, by position.
 */
module Database {
  import opened Base
  import opened Characters
  import opened Decimal
  import opened Documents
  import opened Downloads

  type Faults = nat -> bool

  ghost predicate Reliable(fails: Faults) {
    forall n :: !fails(n)
  }

  datatype QueueRow = QueueRow(id: Id, data: Document)

  /** A stored JSON list of paths, or a text that does not decode to one. */
  datatype PathList = BadList(text: string) | Paths(paths: seq<string>)

  datatype Tables = Tables(
    downloads: seq<Row>,
    queues: seq<QueueRow>,
    removalJobs: map<Id, Document>,
    journal: Journal,
    ownership: map<Id, string>,
    ownedPaths: map<Id, PathList>,
    removalPaths: map<Id, PathList>,
    recoveryMarker: Option<string>)

  ghost predicate QueuesAcceptable(docs: seq<Document>) {
    && (forall k :: 0 <= k < |docs| ==> RequiredString(docs[k], IdField).Some?)
    && (forall i, j :: 0 <= i < j < |docs| ==> RequiredString(docs[i], IdField) != RequiredString(docs[j], IdField))
  }

  ghost predicate QueuesStored(docs: seq<Document>, queues: seq<QueueRow>) {
    |queues| == |docs|
    && forall k :: 0 <= k < |docs| ==> RequiredString(docs[k], IdField) == Some(queues[k].id) && queues[k].data == docs[k]
  }

  function PrepareAll(mode: Mode, docs: seq<Document>): (r: seq<Document>)
    ensures |r| == |docs|
  {
    seq(|docs|, k requires 0 <= k < |docs| => Prepare(mode, docs[k]))
  }

  lemma EpochLookup(rows: seq<Row>, epochs: map<Id, nat>, id: Id)
    requires UniqueIds(rows)
    requires forall k :: 0 <= k < |rows| ==> (rows[k].id in epochs <==> Media(rows[k].data))
    requires forall k :: 0 <= k < |rows| && Media(rows[k].data) ==> epochs[rows[k].id] == FenceEpoch(rows[k].data.fields)
    requires forall other :: other in epochs ==> HasRow(rows, other)
    ensures StoredEpoch(rows, id) == if id in epochs then epochs[id] else 0
  {
  }

  lemma AdmittedLast(docs: seq<Document>, i: nat, jobs: set<Id>)
    requires i < |docs|
    ensures var id := RequiredString(docs[i], IdField);
            Admitted(docs[..i + 1], jobs) ==
              if id.Some? && id.value in jobs then Admitted(docs[..i], jobs) else Admitted(docs[..i], jobs) + [docs[i]]
  {
    assert Front(docs[..i + 1]) == docs[..i];
  }

  lemma {:induction false} AdmittedPrefix(docs: seq<Document>, i: nat, jobs: set<Id>)
    requires i <= |docs|
    ensures Admitted(docs[..i], jobs) <= Admitted(docs, jobs)
    decreases |docs| - i
  {
    if i < |docs| {
      AdmittedLast(docs, i, jobs);
      AdmittedPrefix(docs, i + 1, jobs);
    } else {
      assert docs[..i] == docs;
    }
  }

  lemma RejectedPrefix(docs: seq<Document>, i: nat, jobs: set<Id>)
    requires i <= |docs| && !Acceptable(docs[..i], jobs)
    ensures !Acceptable(docs, jobs)
  {
    AdmittedPrefix(docs, i, jobs);
    var short, long := Admitted(docs[..i], jobs), Admitted(docs, jobs);
    assert forall k :: 0 <= k < |short| ==> short[k] == long[k];
  }

  lemma {:induction false} KeptIds(rows: seq<Row>, jobs: set<Id>)
    ensures forall k :: 0 <= k < |KeepJobRows(rows, jobs)| ==> KeepJobRows(rows, jobs)[k].id in jobs
  {
    if rows != [] {
      KeptIds(Front(rows), jobs);
    }
  }

  predicate Takes(docs: seq<Document>, id: Id) {
    exists k :: 0 <= k < |docs| && RequiredString(docs[k], IdField) == Some(id)
  }

  /** Inserting a row is refused exactly when an admitted document already took its id. */
  lemma InsertConflict(rows: seq<Row>, docs: seq<Document>, jobs: set<Id>, id: Id)
    requires UniqueIds(rows) && Acceptable(docs, jobs) && id !in jobs
    ensures HasRow(Replaced(rows, docs, jobs), id) <==> Takes(Admitted(docs, jobs), id)
  {
    var kept, admitted, out := KeepJobRows(rows, jobs), Admitted(docs, jobs), Replaced(rows, docs, jobs);
    KeptIds(rows, jobs);
    if HasRow(out, id) {
      var k :| 0 <= k < |out| && out[k].id == id;
      var j := k - |kept|;
      assert out[k] == SavedRow(rows, admitted[j]);
      assert RequiredString(admitted[j], IdField) == Some(id);
    }
    if Takes(admitted, id) {
      var k :| 0 <= k < |admitted| && RequiredString(admitted[k], IdField) == Some(id);
      assert out[|kept| + k].id == id;
      assert HasRow(out, id);
    }
  }

  lemma ReplacedStep(rows: seq<Row>, docs: seq<Document>, i: nat, jobs: set<Id>)
    requires UniqueIds(rows) && i < |docs| && Acceptable(docs[..i], jobs)
    requires RequiredString(docs[i], IdField).Some? && RequiredString(docs[i], IdField).value !in jobs
    requires Saves(docs[i])
    requires !HasRow(Replaced(rows, docs[..i], jobs), RequiredString(docs[i], IdField).value)
    ensures Acceptable(docs[..i + 1], jobs)
    ensures Replaced(rows, docs[..i + 1], jobs) == Replaced(rows, docs[..i], jobs) + [SavedRow(rows, docs[i])]
  {
    AdmittedLast(docs, i, jobs);
    InsertConflict(rows, docs[..i], jobs, RequiredString(docs[i], IdField).value);
  }

  lemma RejectedStep(rows: seq<Row>, docs: seq<Document>, i: nat, jobs: set<Id>)
    requires UniqueIds(rows) && i < |docs| && Acceptable(docs[..i], jobs)
    requires !(RequiredString(docs[i], IdField).Some? && RequiredString(docs[i], IdField).value in jobs)
    requires !Saves(docs[i]) || HasRow(Replaced(rows, docs[..i], jobs), RequiredString(docs[i], IdField).value)
    ensures !Acceptable(docs, jobs)
  {
    AdmittedLast(docs, i, jobs);
    var before, after := Admitted(docs[..i], jobs), Admitted(docs[..i + 1], jobs);
    assert after == before + [docs[i]] && after[|before|] == docs[i];
    if Saves(docs[i]) {
      InsertConflict(rows, docs[..i], jobs, RequiredString(docs[i], IdField).value);
      var k :| 0 <= k < |before| && RequiredString(before[k], IdField) == RequiredString(docs[i], IdField);
      assert after[k] == before[k];
    }
    RejectedPrefix(docs, i + 1, jobs);
  }

  class Connection {
    var downloads: seq<Row>
    var queues: seq<QueueRow>
    var removalJobs: map<Id, Document>
    var journal: Journal
    var ownership: map<Id, string>
    var ownedPaths: map<Id, PathList>
    var removalPaths: map<Id, PathList>
    var recoveryMarker: Option<string>

    ghost predicate Valid()
      reads this
    {
      UniqueIds(downloads)
    }

    function View(): Tables
      reads this
    {
      Tables(downloads, queues, removalJobs, journal, ownership, ownedPaths, removalPaths, recoveryMarker)
    }

    /** The body of a snapshot save, on the working copy of its transaction. */
    static method ReplaceDownloadsTx(rows: seq<Row>, jobs: set<Id>, docs: seq<Document>, fails: Faults, clock: nat)
      returns (out: Result<seq<Row>, string>, clock': nat)
      requires UniqueIds(rows)
      ensures out.Ok? ==> Acceptable(docs, jobs) && out.value == Replaced(rows, docs, jobs)
      ensures out.Err? && Reliable(fails) ==> !Acceptable(docs, jobs)
    {
      clock' := clock;
      var epochs: map<Id, nat> := map[];
      for i := 0 to |rows|
        invariant forall k :: 0 <= k < i ==> (rows[k].id in epochs <==> Media(rows[k].data))
        invariant forall k :: 0 <= k < i && Media(rows[k].data) ==> epochs[rows[k].id] == FenceEpoch(rows[k].data.fields)
        invariant forall id :: id in epochs ==> exists k :: 0 <= k < i && rows[k].id == id
      {
        if fails(clock') { return Err("failed to read media checkpoint fence"), clock'; }
        clock' := clock' + 1;
        if Media(rows[i].data) {
          epochs := epochs[rows[i].id := FenceEpoch(rows[i].data.fields)];
        }
      }
      if fails(clock') { return Err("failed to clear downloads"), clock'; }
      clock' := clock' + 1;
      var table := KeepJobRows(rows, jobs);
      assert docs[..0] == [] && table == Replaced(rows, docs[..0], jobs);
      for i := 0 to |docs|
        invariant Acceptable(docs[..i], jobs) && table == Replaced(rows, docs[..i], jobs)
      {
        AdmittedLast(docs, i, jobs);
        var id := RequiredString(docs[i], IdField);
        if id.Some? && id.value in jobs {
          continue;
        }
        if id.None? || RequiredString(docs[i], Status).None? {
          RejectedStep(rows, docs, i, jobs);
          return Err("persisted item is missing a field"), clock';
        }
        var data := docs[i];
        if Media(data) {
          var persisted := if id.value in epochs then epochs[id.value] else 0;
          if ParseEpoch(data.fields) != Some(persisted) {
            data := Record(ClearProgress(data.fields, persisted));
          }
        }
        EpochLookup(rows, epochs, id.value);
        if fails(clock') { return Err("failed to save download"), clock'; }
        clock' := clock' + 1;
        if HasRow(table, id.value) {
          RejectedStep(rows, docs, i, jobs);
          return Err("failed to save download"), clock';
        }
        ReplacedStep(rows, docs, i, jobs);
        table := table + [Row(id.value, RequiredString(docs[i], Status).value, StringField(docs[i], QueueId), data)];
      }
      assert docs[..|docs|] == docs;
      return Ok(table), clock';
    }

    static method ReplaceQueuesTx(docs: seq<Document>, fails: Faults, clock: nat)
      returns (out: Result<seq<QueueRow>, string>, clock': nat)
      ensures out.Ok? ==> QueuesAcceptable(docs) && QueuesStored(docs, out.value)
      ensures out.Err? && Reliable(fails) ==> !QueuesAcceptable(docs)
    {
      clock' := clock;
      if fails(clock') { return Err("failed to clear queues"), clock'; }
      clock' := clock' + 1;
      var table: seq<QueueRow> := [];
      for i := 0 to |docs|
        invariant QueuesAcceptable(docs[..i]) && QueuesStored(docs[..i], table)
      {
        var id := RequiredString(docs[i], IdField);
        if id.None? { return Err("persisted item is missing 'id'"), clock'; }
        if fails(clock') { return Err("failed to save queue"), clock'; }
        clock' := clock' + 1;
        if exists k :: 0 <= k < |table| && table[k].id == id.value {
          return Err("failed to save queue"), clock';
        }
        table := table + [QueueRow(id.value, docs[i])];
      }
      assert docs[..|docs|] == docs;
      return Ok(table), clock';
    }

    /** A renderer snapshot of the downloads; `None` is a payload that does not decode. */
    method ReplaceDownloads(snapshot: Option<seq<Document>>, mode: Mode, fails: Faults) returns (r: Result<(), string>)
      requires Valid() && ValidMode(mode)
      modifies this`downloads
      ensures Valid()
      ensures r.Err? ==> downloads == old(downloads)
      ensures r.Ok? ==> snapshot.Some? && Acceptable(PrepareAll(mode, snapshot.value), removalJobs.Keys)
                        && downloads == Replaced(old(downloads), PrepareAll(mode, snapshot.value), removalJobs.Keys)
      ensures Reliable(fails) && snapshot.Some? && Acceptable(PrepareAll(mode, snapshot.value), removalJobs.Keys) ==> r.Ok?
    {
      if snapshot.None? { return Err("failed to decode downloads"); }
      var docs := PrepareAll(mode, snapshot.value);
      var saved, clock := ReplaceDownloadsTx(downloads, removalJobs.Keys, docs, fails, 0);
      if saved.Err? { return Err(saved.error); }
      if fails(clock) { return Err("failed to commit download save"); }
      ReplacedUnique(downloads, docs, removalJobs.Keys);
      downloads := saved.value;
      return Ok(());
    }

    /** Downloads and queues are saved together or not at all. */
    method ReplaceDownloadsAndQueues(snapshot: Option<seq<Document>>, queueSnapshot: Option<seq<Document>>, mode: Mode, fails: Faults)
      returns (r: Result<(), string>)
      requires Valid() && ValidMode(mode)
      modifies this`downloads, this`queues
      ensures Valid()
      ensures r.Err? ==> downloads == old(downloads) && queues == old(queues)
      ensures r.Ok? ==> snapshot.Some? && queueSnapshot.Some?
                        && Acceptable(PrepareAll(mode, snapshot.value), removalJobs.Keys)
                        && downloads == Replaced(old(downloads), PrepareAll(mode, snapshot.value), removalJobs.Keys)
                        && QueuesAcceptable(queueSnapshot.value) && QueuesStored(queueSnapshot.value, queues)
      ensures (Reliable(fails) && snapshot.Some? && queueSnapshot.Some?
               && Acceptable(PrepareAll(mode, snapshot.value), removalJobs.Keys) && QueuesAcceptable(queueSnapshot.value))
              ==> r.Ok?
    {
      if snapshot.None? { return Err("failed to decode downloads"); }
      if queueSnapshot.None? { return Err("failed to decode queues"); }
      var docs := PrepareAll(mode, snapshot.value);
      var saved, clock := ReplaceDownloadsTx(downloads, removalJobs.Keys, docs, fails, 0);
      if saved.Err? { return Err(saved.error); }
      var savedQueues, later := ReplaceQueuesTx(queueSnapshot.value, fails, clock);
      if savedQueues.Err? { return Err(savedQueues.error); }
      if fails(later) { return Err("failed to commit download state save"); }
      ReplacedUnique(downloads, docs, removalJobs.Keys);
      downloads := saved.value;
      queues := savedQueues.value;
      return Ok(());
    }

    /** Check the whole table and find the target row. */
    static method ReadTarget(rows: seq<Row>, id: Id, fails: Faults) returns (target: Result<nat, string>)
      requires UniqueIds(rows)
      ensures target.Ok? ==> (forall k :: 0 <= k < |rows| ==> ReadableRow(rows[k])) && Find(rows, id) == Some(target.value)
      ensures target.Err? && Reliable(fails) ==>
                (exists k :: 0 <= k < |rows| && !ReadableRow(rows[k])) || Find(rows, id).None?
    {
      var found: Option<nat> := None;
      for i := 0 to |rows|
        invariant forall k :: 0 <= k < i ==> ReadableRow(rows[k])
        invariant found.Some? ==> found.value < i && rows[found.value].id == id
        invariant found.None? ==> forall k :: 0 <= k < i ==> rows[k].id != id
      {
        if fails(i) { return Err("failed to read download for mutation"); }
        var row := rows[i];
        if RequiredString(row.data, IdField).None? || RequiredString(row.data, Status).None? {
          return Err("persisted item is missing a field");
        }
        if RequiredString(row.data, IdField).value != row.id {
          return Err("persisted download has mismatched document id");
        }
        if row.id == id {
          found := Some(i);
        }
      }
      if found.None? { return Err("download is no longer persisted"); }
      FindUnique(rows, found.value);
      return Ok(found.value);
    }

    /** Change one row; every row is checked first, and any error leaves the table alone. */
    method MutateDownload(id: Id, mode: Mode, mutate: Mutation, fails: Faults) returns (r: Result<(), string>)
      requires Valid() && ValidMode(mode)
      modifies this`downloads
      ensures Valid()
      ensures r.Err? ==> downloads == old(downloads)
      ensures r.Ok? ==> Mutated(old(downloads), id, mutate, mode) == Ok(downloads)
      ensures Reliable(fails) && Mutated(old(downloads), id, mutate, mode).Ok? ==> r.Ok?
    {
      var target := ReadTarget(downloads, id, fails);
      if target.Err? { return Err(target.error); }
      var k := target.value;
      MutationKeepsIds(downloads, id, mutate, mode);
      var original := downloads[k].data.fields;
      var attempt := mutate(original);
      if attempt.Err? { return Err(attempt.error); }
      if !HasString(attempt.value, IdField, id) { return Err("persisted download mutation cannot change its id"); }
      var value := Clean(mode, attempt.value);
      if value == original {
        assert downloads[k := downloads[k]] == downloads;
        return Ok(());
      }
      var documentId, status := RequiredString(Record(value), IdField), RequiredString(Record(value), Status);
      if documentId.None? || status.None? { return Err("persisted item is missing a field"); }
      CleanKeepsCore(mode, attempt.value, IdField);
      if fails(|downloads|) || fails(|downloads| + 1) { return Err("failed to mutate download"); }
      downloads := downloads[k := Row(documentId.value, status.value, StringField(Record(value), QueueId), Record(value))];
      return Ok(());
    }

    /** What it returns is the epoch it stored, and nothing for a row it leaves alone. */
    method InvalidateMediaProgress(id: Id, mode: Mode, fails: Faults) returns (r: Result<Option<string>, string>)
      requires Valid() && ValidMode(mode)
      modifies this`downloads
      ensures Valid()
      ensures r.Err? ==> downloads == old(downloads)
      ensures r.Ok? ==> Mutated(old(downloads), id, InvalidateCheckpoint, mode) == Ok(downloads)
      ensures r.Ok? ==>
        match Find(old(downloads), id)
        case None => false
        case Some(k) =>
          && (r.value.Some? <==> Unfinished(old(downloads)[k].data.fields))
          && (r.value.Some? ==> downloads[k].data.Record? && HasString(downloads[k].data.fields, CheckpointEpoch, r.value.value))
      ensures Reliable(fails) && Mutated(old(downloads), id, InvalidateCheckpoint, mode).Ok? ==> r.Ok?
    {
      var found := Find(downloads, id);
      var epoch: Option<string> := None;
      if found.Some? && downloads[found.value].data.Record? && Unfinished(downloads[found.value].data.fields) {
        epoch := Some(ToDecimal(CountedEpoch(downloads[found.value].data.fields) + 1));
      }
      var done := MutateDownload(id, mode, InvalidateCheckpoint, fails);
      if done.Err? { return Err(done.error); }
      if epoch.Some? {
        StampKept(old(downloads)[found.value], mode);
      }
      return Ok(epoch);
    }

    method RecordShutdownTerminal(id: Id, generation: nat, fails: Faults) returns (r: Result<(), string>)
      requires generation <= U64_MAX
      modifies this`journal
      ensures r.Err? ==> journal == old(journal)
      ensures r.Ok? ==> !Blank(id) && Recorded(old(journal), id, generation) == Ok(journal)
      ensures Reliable(fails) && !Blank(id) && Recorded(old(journal), id, generation).Ok? ==> r.Ok?
    {
      if Blank(id) { return Err("shutdown completion journal requires a download id"); }
      if fails(0) { return Err("failed to read shutdown completion journal"); }
      if id in journal {
        var previous := ParseU64(journal[id]);
        if previous.None? { return Err("invalid lifecycle generation"); }
        if previous.value > generation { return Ok(()); }
      }
      if fails(1) || fails(2) { return Err("failed to record shutdown completion"); }
      journal := journal[id := ToDecimal(generation)];
      return Ok(());
    }

    method ClearShutdownTerminal(id: Id, fails: Faults) returns (r: Result<(), string>)
      modifies this`journal
      ensures journal == if r.Ok? then old(journal) - {id} else old(journal)
      ensures Reliable(fails) ==> r.Ok?
    {
      if fails(0) || fails(1) { return Err("failed to invalidate shutdown completion"); }
      journal := journal - {id};
      return Ok(());
    }

    /** One journal entry: complete its row if there still is one. */
    static method CompleteEntry(rows: seq<Row>, id: Id, generation: string, fails: Faults, clock: nat)
      returns (out: Result<seq<Row>, string>, clock': nat)
      ensures out.Ok? ==> ParseU64(generation).Some?
      ensures out.Ok? ==> match Find(rows, id)
                          case None => out.value == rows
                          case Some(k) => CompletableRow(rows[k]) && out.value == rows[k := CompletedRow(rows[k])]
      ensures out.Err? && Reliable(fails) ==>
                ParseU64(generation).None? || (Find(rows, id).Some? && !CompletableRow(rows[Find(rows, id).value]))
    {
      clock' := clock;
      if ParseU64(generation).None? { return Err("invalid lifecycle generation"), clock'; }
      if fails(clock') { return Err("failed to load shutdown-completed download"), clock'; }
      clock' := clock' + 1;
      var found := Find(rows, id);
      if found.None? { return Ok(rows), clock'; }
      var row := rows[found.value];
      var documentId, status := RequiredString(row.data, IdField), RequiredString(row.data, Status);
      if documentId != Some(id) { return Err("persisted download has mismatched document id"), clock'; }
      if status != Some(row.status) { return Err("persisted download has mismatched indexed status"), clock'; }
      if row.status == "completed" {
        assert rows[found.value := row] == rows;
        return Ok(rows), clock';
      }
      if fails(clock') { return Err("failed to recover shutdown completion"), clock'; }
      clock' := clock' + 1;
      var data := Record(row.data.fields[Status := Text("completed")]);
      return Ok(rows[found.value := row.(status := "completed", data := data)]), clock';
    }

    /** Startup: apply every journaled completion, or none of them. */
    method RecoverShutdownJournal(fails: Faults) returns (r: Result<(), string>)
      requires Valid()
      modifies this`downloads, this`journal
      ensures Valid()
      ensures r.Err? ==> downloads == old(downloads) && journal == old(journal)
      ensures r.Ok? ==> JournalApplies(old(downloads), old(journal))
                        && downloads == Completed(old(downloads), old(journal).Keys) && journal == map[]
      ensures Reliable(fails) && JournalApplies(old(downloads), old(journal)) ==> r.Ok?
    {
      if fails(0) { return Err("failed to read shutdown completion journal"); }
      var rest, table, clock := journal.Keys, downloads, 1;
      assert table == Completed(downloads, {});
      while rest != {}
        invariant downloads == old(downloads) && journal == old(journal) && rest <= journal.Keys
        invariant JournalAppliesTo(downloads, journal, journal.Keys - rest)
        invariant table == Completed(downloads, journal.Keys - rest)
        decreases rest
      {
        var id :| id in rest;
        var next, later := CompleteEntry(table, id, journal[id], fails, clock);
        CompletedStep(downloads, journal, journal.Keys - rest, id);
        if next.Err? { return Err(next.error); }
        assert journal.Keys - (rest - {id}) == journal.Keys - rest + {id};
        rest, table, clock := rest - {id}, next.value, later;
      }
      if fails(clock) || fails(clock + 1) { return Err("failed to commit shutdown completion recovery"); }
      assert journal.Keys - {} == journal.Keys;
      RecoveryWrites(downloads, journal);
      downloads, journal := table, map[];
      return Ok(());
    }
  }

  lemma StampKept(row: Row, mode: Mode)
    requires ReadableRow(row) && ValidMode(mode) && Unfinished(row.data.fields) && MutatedRow(row, InvalidateCheckpoint, mode).Ok?
    ensures var row' := MutatedRow(row, InvalidateCheckpoint, mode).value;
            row'.data.Record? && HasString(row'.data.fields, CheckpointEpoch, ToDecimal(CountedEpoch(row.data.fields) + 1))
  {
    CleanKeepsCore(mode, InvalidateCheckpoint(row.data.fields).value, CheckpointEpoch);
  }

  ghost predicate JournalAppliesTo(rows: seq<Row>, journal: Journal, ids: set<Id>) {
    && (forall id :: id in ids ==> id in journal && ParseU64(journal[id]).Some?)
    && (forall k :: 0 <= k < |rows| && rows[k].id in ids ==> CompletableRow(rows[k]))
  }

  /** Completing other ids does not change where an id is found. */
  lemma FindCompleted(rows: seq<Row>, done: set<Id>, id: Id)
    requires UniqueIds(rows) && forall k :: 0 <= k < |rows| && rows[k].id in done ==> rows[k].data.Record?
    ensures Find(Completed(rows, done), id) == Find(rows, id)
  {
    var table := Completed(rows, done);
    assert forall k :: 0 <= k < |rows| ==> table[k].id == rows[k].id;
    assert UniqueIds(table);
    if Find(rows, id).Some? {
      FindUnique(table, Find(rows, id).value);
    }
  }

  lemma CompletedMore(rows: seq<Row>, journal: Journal, done: set<Id>, id: Id)
    requires UniqueIds(rows) && JournalAppliesTo(rows, journal, done) && id !in done
    requires id in journal && ParseU64(journal[id]).Some? && (Find(rows, id).Some? ==> CompletableRow(rows[Find(rows, id).value]))
    ensures JournalAppliesTo(rows, journal, done + {id})
    ensures Completed(rows, done + {id}) ==
      match Find(rows, id) case None => Completed(rows, done) case Some(k) => Completed(rows, done)[k := CompletedRow(rows[k])]
  {
    forall k | 0 <= k < |rows| && rows[k].id == id ensures Find(rows, id) == Some(k) {
      FindUnique(rows, k);
    }
  }

  /** What completing one more id does to the rows, and what makes it fail. */
  lemma CompletedStep(rows: seq<Row>, journal: Journal, done: set<Id>, id: Id)
    requires UniqueIds(rows) && JournalAppliesTo(rows, journal, done)
    requires id in journal && id !in done
    ensures var table := Completed(rows, done);
            match Find(table, id)
            case None =>
              && (ParseU64(journal[id]).Some? ==>
                    JournalAppliesTo(rows, journal, done + {id}) && Completed(rows, done + {id}) == table)
            case Some(k) =>
              && table[k] == rows[k] && rows[k].id == id
              && (ParseU64(journal[id]).Some? && CompletableRow(rows[k]) ==>
                    JournalAppliesTo(rows, journal, done + {id}) && Completed(rows, done + {id}) == table[k := CompletedRow(rows[k])])
  {
    FindCompleted(rows, done, id);
    if ParseU64(journal[id]).Some? && (Find(rows, id).Some? ==> CompletableRow(rows[Find(rows, id).value])) {
      CompletedMore(rows, journal, done, id);
    }
  }

  lemma MutationKeepsIds(rows: seq<Row>, id: Id, mutate: Mutation, mode: Mode)
    requires UniqueIds(rows) && ValidMode(mode)
    ensures Mutated(rows, id, mutate, mode).Ok? ==> UniqueIds(Mutated(rows, id, mutate, mode).value)
  {
    if Mutated(rows, id, mutate, mode).Ok? {
      MutateWrites(rows, id, mutate, mode);
    }
  }
}
