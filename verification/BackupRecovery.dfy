/**
  Startup repair of the downloads table from migration backups. In orphan mode only
  ids with durable evidence are repaired; a database without any evidence and without
  a recovery marker gets one full restore.
 */
module BackupRecovery {
  import opened Base
  import opened Documents
  import opened Downloads
  import opened Database

  /** A backup file: one that cannot be opened or has no readable downloads, or its tables. */
  datatype Backup =
    | Unreadable
    | Backup(
        downloads: seq<Document>,
        ownership: map<Id, string>,
        ownedPaths: map<Id, PathList>,
        removalPaths: map<Id, PathList>,
        queues: seq<QueueRow>)

  // ---------- Evidence ----------

  predicate ValidRecord(row: Row) {
    RequiredString(row.data, IdField) == Some(row.id)
  }

  function Lookup(rows: seq<Row>, id: Id): (r: Option<Row>)
    ensures r.Some? ==> r.value in rows && r.value.id == id
    ensures r.Some? <==> HasRow(rows, id)
  {
    match Find(rows, id)
    case None => None
    case Some(k) => Some(rows[k])
  }

  /** Jobs still under way keep the download recoverable; any other job is a tombstone. */
  predicate Nonterminal(job: Document) {
    var phase := StringField(job, Phase);
    phase.Some? && phase.value in {"pending", "running", "failed"}
  }

  predicate Tombstoned(t: Tables, id: Id) {
    id in t.removalJobs && !Nonterminal(t.removalJobs[id])
  }

  predicate Recoverable(t: Tables, id: Id) {
    id in t.removalJobs && Nonterminal(t.removalJobs[id])
  }

  predicate IsOrphan(t: Tables, id: Id) {
    var row := Lookup(t.downloads, id);
    !Tombstoned(t, id)
    && if row.Some? then !ValidRecord(row.value) else id in t.ownership || Recoverable(t, id)
  }

  function OrphanIds(t: Tables): (ids: set<Id>)
    ensures forall id :: id in ids <==> IsOrphan(t, id)
  {
    HasRowIds(t.downloads);
    set id | id in Ids(t.downloads) + t.ownership.Keys + t.removalJobs.Keys && IsOrphan(t, id)
  }

  lemma HasRowIds(rows: seq<Row>)
    ensures forall id :: HasRow(rows, id) <==> id in Ids(rows)
  {
  }

  predicate OrphanMode(t: Tables) {
    t.downloads != [] || t.recoveryMarker.Some? || t.ownership != map[] || exists id :: id in t.removalJobs && Recoverable(t, id)
  }

  // ---------- One candidate ----------

  function Usable(c: Backup, mode: Mode): bool {
    && c.Backup?
    && (exists k :: 0 <= k < |c.downloads| && RequiredString(c.downloads[k], IdField).Some?)
    && (mode.Portable? ==> forall k :: 0 <= k < |c.downloads| ==> !c.downloads[k].Malformed?)
  }

  /** Portable storage sanitises a candidate's documents before restoring any of them. */
  function CandidateDocs(c: Backup, mode: Mode): seq<Document>
    requires c.Backup?
  {
    if mode.Portable? then PrepareAll(mode, c.downloads) else c.downloads
  }

  /** A missing status counts as completed. */
  function RestoredRow(doc: Document): (row: Row)
    requires RequiredString(doc, IdField).Some?
    ensures ValidRecord(row)
  {
    var status := StringField(doc, Status);
    Row(RequiredString(doc, IdField).value,
        if status.Some? then status.value else "completed",
        StringField(doc, QueueId), doc)
  }

  predicate Restorable(doc: Document, wanted: set<Id>) {
    RequiredString(doc, IdField).Some? && RequiredString(doc, IdField).value in wanted
  }

  function Upsert(rows: seq<Row>, row: Row): seq<Row> {
    match Find(rows, row.id)
    case Some(k) => rows[k := row]
    case None => rows + [row]
  }

  function InsertIfAbsent(rows: seq<Row>, row: Row): seq<Row> {
    if HasRow(rows, row.id) then rows else rows + [row]
  }

  function RestoreDocs(rows: seq<Row>, docs: seq<Document>, wanted: set<Id>): seq<Row> {
    if docs == [] then rows
    else
      var before := RestoreDocs(rows, Front(docs), wanted);
      if Restorable(Last(docs), wanted) then Upsert(before, RestoredRow(Last(docs))) else before
  }

  /** The unscoped restore takes every id that is not excluded, and keeps the first document of each. */
  function RestoreUnscoped(rows: seq<Row>, docs: seq<Document>, excluded: set<Id>): seq<Row> {
    if docs == [] then rows
    else
      var before := RestoreUnscoped(rows, Front(docs), excluded);
      var id := RequiredString(Last(docs), IdField);
      if id.Some? && id.value !in excluded then InsertIfAbsent(before, RestoredRow(Last(docs))) else before
  }

  function HeldIds(docs: seq<Document>): set<Id> {
    set k | 0 <= k < |docs| && RequiredString(docs[k], IdField).Some? :: RequiredString(docs[k], IdField).value
  }

  function QueueIds(docs: seq<Document>, wanted: set<Id>): set<Id> {
    set k | 0 <= k < |docs| && Restorable(docs[k], wanted) && StringField(docs[k], QueueId).Some? ::
      StringField(docs[k], QueueId).value
  }

  /** Insert the backup's entries of the restored ids where the table has none. */
  function MergeAbsent<V>(table: map<Id, V>, extra: map<Id, V>, ids: set<Id>): map<Id, V> {
    table + map id | id in extra && id in ids && id !in table :: extra[id]
  }

  predicate HasQueue(queues: seq<QueueRow>, id: Id) {
    exists k :: 0 <= k < |queues| && queues[k].id == id
  }

  function MergeQueues(queues: seq<QueueRow>, extra: seq<QueueRow>, everything: bool, ids: set<Id>): seq<QueueRow> {
    if extra == [] then queues
    else
      var before := MergeQueues(queues, Front(extra), everything, ids);
      if (everything || Last(extra).id in ids) && !HasQueue(before, Last(extra).id) then before + [Last(extra)] else before
  }

  function RestoreCandidate(t: Tables, c: Backup, mode: Mode, orphans: set<Id>): Tables
    requires c.Backup?
  {
    var docs := CandidateDocs(c, mode);
    var restored := orphans * HeldIds(docs);
    t.(downloads := RestoreDocs(t.downloads, docs, orphans),
       ownership := MergeAbsent(t.ownership, c.ownership, restored),
       ownedPaths := MergeAbsent(t.ownedPaths, c.ownedPaths, restored),
       removalPaths := MergeAbsent(t.removalPaths, c.removalPaths, restored),
       queues := MergeQueues(t.queues, c.queues, false, QueueIds(docs, orphans)))
  }

  function TombstonedIds(t: Tables): set<Id> {
    set id | id in t.removalJobs && Tombstoned(t, id)
  }

  function RestoreEverything(t: Tables, c: Backup, mode: Mode): Tables
    requires c.Backup?
  {
    var docs := CandidateDocs(c, mode);
    var restored := HeldIds(docs) - TombstonedIds(t);
    t.(downloads := RestoreUnscoped(t.downloads, docs, TombstonedIds(t)),
       ownership := MergeAbsent(t.ownership, c.ownership, restored),
       ownedPaths := MergeAbsent(t.ownedPaths, c.ownedPaths, restored),
       removalPaths := MergeAbsent(t.removalPaths, c.removalPaths, restored),
       queues := MergeQueues(t.queues, c.queues, true, {}),
       recoveryMarker := Some("complete"))
  }

  // ---------- All candidates, newest first ----------

  datatype Progress = Progress(tables: Tables, orphans: set<Id>, processed: bool)

  /** Each usable candidate repairs the orphans it holds; the pass ends when none are left. */
  function RepairPass(p: Progress, candidates: seq<Backup>, mode: Mode): Progress
    decreases |candidates|
  {
    if candidates == [] || (p.processed && p.orphans == {}) then p
    else if !Usable(candidates[0], mode) then RepairPass(p, candidates[1..], mode)
    else
      var held := HeldIds(CandidateDocs(candidates[0], mode));
      RepairPass(Progress(RestoreCandidate(p.tables, candidates[0], mode, p.orphans), p.orphans - held, true),
                 candidates[1..], mode)
  }

  function FirstUsable(candidates: seq<Backup>, mode: Mode): (r: Option<nat>)
    ensures r.Some? ==> r.value < |candidates| && Usable(candidates[r.value], mode)
    ensures r.Some? ==> forall k :: 0 <= k < r.value ==> !Usable(candidates[k], mode)
    ensures r.None? ==> forall k :: 0 <= k < |candidates| ==> !Usable(candidates[k], mode)
  {
    if candidates == [] then None
    else if Usable(candidates[0], mode) then Some(0)
    else
      match FirstUsable(candidates[1..], mode)
      case None =>
        assert forall k :: 0 < k < |candidates| ==> candidates[k] == candidates[1..][k - 1];
        None
      case Some(k) =>
        assert forall j :: 0 < j < |candidates| ==> candidates[j] == candidates[1..][j - 1];
        Some(k + 1)
  }

  function Recovered(t: Tables, candidates: seq<Backup>, mode: Mode): Tables {
    var orphans := OrphanIds(t);
    if !OrphanMode(t) then
      match FirstUsable(candidates, mode)
      case None => t
      case Some(k) => RestoreEverything(t, candidates[k], mode)
    else if orphans == {} then
      if t.downloads != [] && t.recoveryMarker.None? then t.(recoveryMarker := Some("skipped")) else t
    else
      var p := RepairPass(Progress(t, orphans, false), candidates, mode);
      if p.processed && p.orphans == {} then p.tables.(recoveryMarker := Some("complete")) else p.tables
  }

  // ---------- Inserts that fail in silence ----------

  /** The ids whose entries do not reach their table: a failed insert of these is ignored. */
  datatype Loss = Loss(ownership: set<Id>, ownedPaths: set<Id>, removalPaths: set<Id>, queues: set<Id>)

  function QueuesWithout(queues: seq<QueueRow>, ids: set<Id>): seq<QueueRow> {
    if queues == [] then []
    else if Last(queues).id in ids then QueuesWithout(Front(queues), ids)
    else QueuesWithout(Front(queues), ids) + [Last(queues)]
  }

  /** What arrives of a candidate: all its downloads, and the entries that are not lost. */
  function Delivered(c: Backup, loss: Loss): Backup {
    if c.Unreadable? then c
    else c.(ownership := c.ownership - loss.ownership, ownedPaths := c.ownedPaths - loss.ownedPaths,
            removalPaths := c.removalPaths - loss.removalPaths, queues := QueuesWithout(c.queues, loss.queues))
  }

  function AllDelivered(candidates: seq<Backup>, losses: nat -> Loss): (r: seq<Backup>)
    ensures |r| == |candidates| && forall k :: 0 <= k < |r| ==> r[k] == Delivered(candidates[k], losses(k))
  {
    seq(|candidates|, k requires 0 <= k < |candidates| => Delivered(candidates[k], losses(k)))
  }

  /** Backups that differ in the entries that can be lost, and in nothing else. */
  predicate SameDownloads(a: seq<Backup>, b: seq<Backup>) {
    |a| == |b| && forall k :: 0 <= k < |a| ==> SameDocuments(a[k], b[k])
  }

  predicate SameDocuments(a: Backup, b: Backup) {
    a.Backup? == b.Backup? && (a.Backup? ==> a.downloads == b.downloads)
  }

  lemma DeliveriesAgree(candidates: seq<Backup>, first: nat -> Loss, second: nat -> Loss)
    ensures SameDownloads(AllDelivered(candidates, first), AllDelivered(candidates, second))
  {
  }

  // ---------- The running recovery ----------

  /**
    The recovery as it runs: one transaction per candidate, so a fault may leave the
    repairs of the candidates before it. Every outcome is the state after some number
    of candidates, as far as their entries were delivered.
   */
  method Recover(db: Connection, candidates: seq<Backup>, mode: Mode, losses: nat -> Loss, fails: Faults)
    returns (r: Result<(), string>, ghost committed: nat)
    requires db.Valid()
    modifies db`downloads, db`queues, db`ownership, db`ownedPaths, db`removalPaths, db`recoveryMarker
    ensures r.Ok? ==> db.View() == Recovered(old(db.View()), AllDelivered(candidates, losses), mode)
    ensures r.Err? ==> committed <= |candidates| && db.View() == Interrupted(old(db.View()), AllDelivered(candidates, losses), mode, committed)
    ensures Reliable(fails) ==> r.Ok?
  {
    committed := 0;
    if fails(0) { return Err("failed to inspect downloads for recovery"), 0; }
    if OrphanMode(db.View()) {
      r, committed := RecoverOrphans(db, AllDelivered(candidates, losses), mode, OrphanIds(db.View()), fails);
    } else {
      r := RecoverWithoutEvidence(db, AllDelivered(candidates, losses), mode, fails);
    }
  }

  /** No evidence and no marker: all that the first usable candidate delivers is restored. */
  method RecoverWithoutEvidence(db: Connection, candidates: seq<Backup>, mode: Mode, fails: Faults) returns (r: Result<(), string>)
    requires db.Valid() && !OrphanMode(db.View())
    modifies db`downloads, db`queues, db`ownership, db`ownedPaths, db`removalPaths, db`recoveryMarker
    ensures db.View() == if r.Ok? then Recovered(old(db.View()), candidates, mode) else old(db.View())
    ensures Reliable(fails) ==> r.Ok?
  {
    var k := 0;
    while k < |candidates| && !Usable(candidates[k], mode)
      invariant k <= |candidates| && db.View() == old(db.View())
      invariant forall j :: 0 <= j < k ==> !Usable(candidates[j], mode)
    {
      k := k + 1;
    }
    assert FirstUsable(candidates, mode) == if k < |candidates| then Some(k) else None;
    if k < |candidates| {
      if fails(1) { return Err("failed to commit recovery"); }
      var t := RestoreEverything(db.View(), candidates[k], mode);
      db.downloads, db.ownership, db.ownedPaths, db.removalPaths := t.downloads, t.ownership, t.ownedPaths, t.removalPaths;
      db.queues, db.recoveryMarker := t.queues, t.recoveryMarker;
    }
    return Ok(());
  }

  /** Orphan mode: the passes over the candidates, each with the entries it delivers. */
  method RecoverOrphans(db: Connection, candidates: seq<Backup>, mode: Mode, wanted: set<Id>, fails: Faults)
    returns (r: Result<(), string>, ghost committed: nat)
    requires db.Valid() && OrphanMode(db.View()) && wanted == OrphanIds(db.View())
    modifies db`downloads, db`queues, db`ownership, db`ownedPaths, db`removalPaths, db`recoveryMarker
    ensures r.Ok? ==> db.View() == Recovered(old(db.View()), candidates, mode)
    ensures r.Err? ==> committed <= |candidates| && db.View() == Interrupted(old(db.View()), candidates, mode, committed)
    ensures Reliable(fails) ==> r.Ok?
  {
    committed := 0;
    var orphans := wanted;
    if orphans == {} {
      if db.downloads != [] && db.recoveryMarker.None? {
        if fails(1) { return Err("failed to record recovery status"), 0; }
        db.recoveryMarker := Some("skipped");
      }
      return Ok(()), 0;
    }
    var i, processed := 0, false;
    ghost var first := Progress(db.View(), orphans, false);
    assert candidates[..0] == [];
    while i < |candidates| && !(processed && orphans == {})
      invariant i <= |candidates|
      invariant Progress(db.View(), orphans, processed) == RepairPass(first, candidates[..i], mode)
      invariant committed == i
    {
      PassStep(first, candidates, i, mode);
      if Usable(candidates[i], mode) {
        if fails(i + 1) { return Err("failed to commit recovery"), i; }
        var docs := CandidateDocs(candidates[i], mode);
        var t := RestoreCandidate(db.View(), candidates[i], mode, orphans);
        db.downloads, db.ownership, db.ownedPaths, db.removalPaths := t.downloads, t.ownership, t.ownedPaths, t.removalPaths;
        db.queues := t.queues;
        orphans, processed := orphans - HeldIds(docs), true;
      }
      i := i + 1;
      committed := i;
    }
    PassStops(first, candidates, i, mode);
    if processed && orphans == {} {
      if fails(|candidates| + 1) { return Err("failed to record recovery completion"), i; }
      db.recoveryMarker := Some("complete");
    }
    return Ok(()), i;
  }

  /** What is in the tables when a pass is cut short after `committed` candidates. */
  function Interrupted(t: Tables, candidates: seq<Backup>, mode: Mode, committed: nat): Tables
    requires committed <= |candidates|
  {
    if OrphanMode(t) && OrphanIds(t) != {} then
      RepairPass(Progress(t, OrphanIds(t), false), candidates[..committed], mode).tables
    else t
  }

  lemma {:induction false} PassConcat(p: Progress, first: seq<Backup>, second: seq<Backup>, mode: Mode)
    ensures RepairPass(p, first + second, mode) == RepairPass(RepairPass(p, first, mode), second, mode)
    decreases |first|
  {
    if first == [] {
      assert first + second == second;
    } else {
      assert (first + second)[0] == first[0] && (first + second)[1..] == first[1..] + second;
      if p.processed && p.orphans == {} {
      } else if !Usable(first[0], mode) {
        PassConcat(p, first[1..], second, mode);
      } else {
        var held := HeldIds(CandidateDocs(first[0], mode));
        PassConcat(Progress(RestoreCandidate(p.tables, first[0], mode, p.orphans), p.orphans - held, true), first[1..], second, mode);
      }
    }
  }

  lemma PassStep(p: Progress, candidates: seq<Backup>, i: nat, mode: Mode)
    requires i < |candidates|
    ensures var q := RepairPass(p, candidates[..i], mode);
            RepairPass(p, candidates[..i + 1], mode) ==
              if q.processed && q.orphans == {} then q
              else if !Usable(candidates[i], mode) then q
              else Progress(RestoreCandidate(q.tables, candidates[i], mode, q.orphans),
                            q.orphans - HeldIds(CandidateDocs(candidates[i], mode)), true)
  {
    assert candidates[..i + 1] == candidates[..i] + [candidates[i]];
    PassConcat(p, candidates[..i], [candidates[i]], mode);
    var q := RepairPass(p, candidates[..i], mode);
    assert [candidates[i]][1..] == [];
  }

  lemma PassStops(p: Progress, candidates: seq<Backup>, i: nat, mode: Mode)
    requires i <= |candidates|
    requires var q := RepairPass(p, candidates[..i], mode); i == |candidates| || (q.processed && q.orphans == {})
    ensures RepairPass(p, candidates, mode) == RepairPass(p, candidates[..i], mode)
  {
    assert candidates == candidates[..i] + candidates[i..];
    PassConcat(p, candidates[..i], candidates[i..], mode);
  }
}
