/**
  When a backup recovery acts and what it reads, in terms of the stored documents: which ids
  it repairs, what counts as evidence, which candidates it skips, and which marker it leaves.
 */
module RecoveryEvidence {
  import opened Base
  import opened Documents
  import opened Downloads
  import opened Database
  import opened BackupRecovery
  import opened RecoveryLaws
  import opened RecoveryQueues
  import opened RowLaws

  /** Only these phases keep a download recoverable. */
  predicate Underway(job: Document) {
    && job.Record? && Phase in job.fields
    && (job.fields[Phase] == Text("pending") || job.fields[Phase] == Text("running") || job.fields[Phase] == Text("failed"))
  }

  // ---------- Which ids are repaired ----------

  /** The id is known to the tables, no row of it carries its id, and no finished or unreadable removal covers it. */
  predicate Owed(t: Tables, id: Id) {
    && (HasRow(t.downloads, id) || id in t.ownership || id in t.removalJobs)
    && (forall row :: row in t.downloads && row.id == id ==> !Names(row.data, id))
    && (id in t.removalJobs ==> Underway(t.removalJobs[id]))
  }

  lemma JobsExactly(t: Tables, id: Id)
    ensures Recoverable(t, id) <==> id in t.removalJobs && Underway(t.removalJobs[id])
    ensures Tombstoned(t, id) <==> id in t.removalJobs && !Underway(t.removalJobs[id])
  {
  }

  lemma OrphanExactly(t: Tables, id: Id)
    requires UniqueIds(t.downloads)
    ensures IsOrphan(t, id) <==> Owed(t, id)
  {
    JobsExactly(t, id);
    var row := Lookup(t.downloads, id);
    if row.Some? {
      forall other | other in t.downloads && other.id == id ensures other == row.value {
        var k :| 0 <= k < |t.downloads| && t.downloads[k] == other;
        LookupIn(t.downloads, k);
      }
    }
  }

  /** Anything that shows that this database has been in use. */
  ghost predicate Evidence(t: Tables) {
    t.downloads != [] || t.recoveryMarker.Some? || t.ownership != map[] || exists id :: id in t.removalJobs && Underway(t.removalJobs[id])
  }

  lemma EvidenceExactly(t: Tables)
    ensures OrphanMode(t) <==> Evidence(t)
  {
    if id :| id in t.removalJobs && Recoverable(t, id) {
      JobsExactly(t, id);
    }
    if id :| id in t.removalJobs && Underway(t.removalJobs[id]) {
      JobsExactly(t, id);
    }
  }

  // ---------- Which candidates are read ----------

  /** Portable storage turns a whole candidate down for one text that does not parse. */
  predicate Readable(c: Backup, mode: Mode) {
    c.Backup? && (mode.Portable? ==> forall doc :: doc in c.downloads ==> !doc.Malformed?)
  }

  predicate HasRecord(c: Backup, id: Id)
    requires c.Backup?
  {
    exists doc :: doc in c.downloads && Names(doc, id)
  }

  ghost predicate Useful(c: Backup, mode: Mode) {
    Readable(c, mode) && exists id :: HasRecord(c, id)
  }

  lemma UsefulExactly(c: Backup, mode: Mode)
    ensures Usable(c, mode) <==> Useful(c, mode)
  {
    if Useful(c, mode) {
      var id :| HasRecord(c, id);
      var doc :| doc in c.downloads && Names(doc, id);
      assert RequiredString(doc, IdField) == Some(id);
    }
    if Usable(c, mode) {
      var k :| 0 <= k < |c.downloads| && RequiredString(c.downloads[k], IdField).Some?;
      assert Names(c.downloads[k], RequiredString(c.downloads[k], IdField).value);
      assert HasRecord(c, RequiredString(c.downloads[k], IdField).value);
    }
  }

  lemma PreparedId(mode: Mode, doc: Document, id: Id)
    requires ValidMode(mode)
    ensures RequiredString(Prepare(mode, doc), IdField) == Some(id) <==> Names(doc, id)
  {
    if doc.Record? {
      CleanKeepsCore(mode, doc.fields, IdField);
    }
  }

  /** A candidate can repair an id exactly if it is read and has a record of that id. */
  lemma HoldsExactly(c: Backup, mode: Mode, id: Id)
    requires ValidMode(mode)
    ensures Holds(c, mode, id) <==> Readable(c, mode) && HasRecord(c, id)
  {
    UsefulExactly(c, mode);
    if Readable(c, mode) {
      var docs := CandidateDocs(c, mode);
      forall k | 0 <= k < |c.downloads| ensures RequiredString(docs[k], IdField) == Some(id) <==> Names(c.downloads[k], id) {
        PreparedId(mode, c.downloads[k], id);
      }
      assert id in HeldIds(docs) <==> exists k :: 0 <= k < |docs| && RequiredString(docs[k], IdField) == Some(id);
    }
  }

  lemma RestoredHead(candidates: seq<Backup>, mode: Mode)
    requires candidates != []
    ensures Restored(candidates, mode) == if Usable(candidates[0], mode) then Some(candidates[0]) else Restored(candidates[1..], mode)
  {
  }

  lemma {:induction false} FirstWithout(a: seq<Backup>, c: Backup, b: seq<Backup>, mode: Mode)
    requires !Usable(c, mode)
    ensures Restored(a + [c] + b, mode) == Restored(a + b, mode)
  {
    if a == [] {
      assert a + [c] + b == [c] + b && a + b == b && ([c] + b)[1..] == b;
      RestoredHead([c] + b, mode);
    } else {
      var with, without := a + [c] + b, a + b;
      assert with[1..] == a[1..] + [c] + b && without[1..] == a[1..] + b;
      RestoredHead(with, mode);
      RestoredHead(without, mode);
      FirstWithout(a[1..], c, b, mode);
    }
  }

  /** A candidate that cannot be read, or holds no record, might as well not be there. */
  lemma UselessSkipped(t: Tables, a: seq<Backup>, c: Backup, b: seq<Backup>, mode: Mode)
    requires !Useful(c, mode)
    ensures Recovered(t, a + [c] + b, mode) == Recovered(t, a + b, mode)
  {
    UsefulExactly(c, mode);
    FirstWithout(a, c, b, mode);
    var p := Progress(t, OrphanIds(t), false);
    PassConcat(p, a + [c], b, mode);
    PassConcat(p, a, [c], mode);
    PassConcat(p, a, b, mode);
    assert [c][1..] == [];
  }

  // ---------- The full restore ----------

  /** The first useful candidate has a record of the id. */
  ghost predicate FirstHas(candidates: seq<Backup>, mode: Mode, id: Id) {
    exists k :: 0 <= k < |candidates| && Readable(candidates[k], mode) && HasRecord(candidates[k], id) && AllUseless(candidates[..k], mode)
  }

  ghost predicate AllUseless(candidates: seq<Backup>, mode: Mode) {
    forall c :: c in candidates ==> !Useful(c, mode)
  }

  lemma FirstIsUseful(candidates: seq<Backup>, mode: Mode)
    ensures var first := FirstUsable(candidates, mode);
            && (first.Some? ==> Useful(candidates[first.value], mode) && AllUseless(candidates[..first.value], mode))
            && (first.None? ==> AllUseless(candidates, mode))
  {
    forall c ensures Usable(c, mode) <==> Useful(c, mode) {
      UsefulExactly(c, mode);
    }
  }

  lemma FirstHasExactly(candidates: seq<Backup>, mode: Mode, id: Id)
    requires ValidMode(mode)
    ensures var first := FirstUsable(candidates, mode);
            FirstHas(candidates, mode, id) <==> first.Some? && Holds(candidates[first.value], mode, id)
  {
    var first := FirstUsable(candidates, mode);
    FirstIsUseful(candidates, mode);
    if first.Some? {
      HoldsExactly(candidates[first.value], mode, id);
    }
    if FirstHas(candidates, mode, id) {
      FirstHasHolds(candidates, mode, id, first);
    }
  }

  lemma FirstHasHolds(candidates: seq<Backup>, mode: Mode, id: Id, first: Option<nat>)
    requires FirstHas(candidates, mode, id)
    requires first.Some? ==> first.value < |candidates| && Useful(candidates[first.value], mode) && AllUseless(candidates[..first.value], mode)
    requires first.None? ==> AllUseless(candidates, mode)
    ensures first.Some? && Readable(candidates[first.value], mode) && HasRecord(candidates[first.value], id)
  {
    var k :| 0 <= k < |candidates| && Readable(candidates[k], mode) && HasRecord(candidates[k], id) && AllUseless(candidates[..k], mode);
    assert Useful(candidates[k], mode);
  }

  /**
    An id that the database does not know comes back exactly if the database was never used
    and the first useful candidate has it; a removal that is finished or unreadable forbids it.
   */
  lemma UnknownIdReturnsExactly(t: Tables, candidates: seq<Backup>, mode: Mode, id: Id)
    requires UniqueIds(t.downloads) && ValidMode(mode) && !HasRow(t.downloads, id) && id !in t.ownership
    requires id in t.removalJobs ==> !Underway(t.removalJobs[id])
    ensures HasRow(Recovered(t, candidates, mode).downloads, id) <==>
            !Evidence(t) && id !in t.removalJobs && FirstHas(candidates, mode, id)
  {
    EvidenceExactly(t);
    OrphanExactly(t, id);
    JobsExactly(t, id);
    RestoredExactly(t, candidates, mode, id);
    FirstHasExactly(candidates, mode, id);
  }

  // ---------- The marker ----------

  ghost predicate Repairable(t: Tables, candidates: seq<Backup>, mode: Mode) {
    forall id :: Owed(t, id) ==> exists c :: c in candidates && Readable(c, mode) && HasRecord(c, id)
  }

  lemma LeftExactly(t: Tables, candidates: seq<Backup>, mode: Mode, id: Id)
    requires UniqueIds(t.downloads) && ValidMode(mode) && OrphanMode(t)
    ensures id in RepairPass(Progress(t, OrphanIds(t), false), candidates, mode).orphans <==>
            Owed(t, id) && forall c :: c in candidates ==> !(Readable(c, mode) && HasRecord(c, id))
  {
    OrphanExactly(t, id);
    RepairPassMeaning(Progress(t, OrphanIds(t), false), candidates, mode, id);
    FirstHeldMeaning(candidates, mode, id);
    forall k | 0 <= k < |candidates| ensures Holds(candidates[k], mode, id) <==> Readable(candidates[k], mode) && HasRecord(candidates[k], id) {
      HoldsExactly(candidates[k], mode, id);
    }
  }

  /** Nothing is owed: a used database is marked as skipped, and any other marker stays. */
  lemma MarkerIdle(t: Tables, candidates: seq<Backup>, mode: Mode)
    requires UniqueIds(t.downloads) && Evidence(t) && forall id :: !Owed(t, id)
    ensures Recovered(t, candidates, mode).recoveryMarker ==
            if t.downloads != [] && t.recoveryMarker.None? then Some("skipped") else t.recoveryMarker
  {
    EvidenceExactly(t);
    forall id ensures !IsOrphan(t, id) {
      OrphanExactly(t, id);
    }
  }

  /** Something is owed: the recovery is complete exactly if useful candidates hold it all. */
  lemma MarkerRepair(t: Tables, candidates: seq<Backup>, mode: Mode, id: Id)
    requires UniqueIds(t.downloads) && ValidMode(mode) && Evidence(t) && Owed(t, id)
    ensures Recovered(t, candidates, mode).recoveryMarker ==
            if Repairable(t, candidates, mode) then Some("complete") else t.recoveryMarker
  {
    EvidenceExactly(t);
    OrphanExactly(t, id);
    var q := RepairPass(Progress(t, OrphanIds(t), false), candidates, mode);
    PassFinishes(t, candidates, mode);
    forall other ensures other in q.orphans <==> Owed(t, other) && forall c :: c in candidates ==> !(Readable(c, mode) && HasRecord(c, other)) {
      LeftExactly(t, candidates, mode, other);
    }
    if q.orphans == {} {
      forall other | Owed(t, other) ensures exists c :: c in candidates && Readable(c, mode) && HasRecord(c, other) {
        assert other !in q.orphans;
      }
    } else {
      var other :| other in q.orphans;
      assert Owed(t, other);
    }
  }

  /** A database without evidence is marked once a candidate was restored. */
  lemma MarkerFull(t: Tables, candidates: seq<Backup>, mode: Mode)
    requires !Evidence(t)
    ensures Recovered(t, candidates, mode).recoveryMarker == if AllUseless(candidates, mode) then None else Some("complete")
  {
    EvidenceExactly(t);
    FirstIsUseful(candidates, mode);
  }

  // ---------- The columns of a restored row ----------

  /** The row holds the document itself, indexed by its own id, status and queue; without a status text it counts as completed. */
  lemma RestoredColumns(t: Tables, candidates: seq<Backup>, mode: Mode, id: Id)
    requires UniqueIds(t.downloads) && Chosen(t, candidates, mode, id).Some?
    ensures var doc := Chosen(t, candidates, mode, id).value;
            && Names(doc, id)
            && Lookup(Recovered(t, candidates, mode).downloads, id) ==
               Some(Row(id,
                        if Status in doc.fields && doc.fields[Status].Text? then doc.fields[Status].s else "completed",
                        if QueueId in doc.fields && doc.fields[QueueId].Text? then Some(doc.fields[QueueId].s) else None,
                        doc))
  {
    RestoredExactly(t, candidates, mode, id);
  }

  // ---------- Entries whose insert failed ----------

  /** What arrives is the backup without the lost entries; its downloads cannot be lost. */
  lemma DeliveredExactly(c: Backup, loss: Loss, id: Id)
    requires c.Backup?
    ensures var d := Delivered(c, loss);
            && d.Backup? && d.downloads == c.downloads
            && Arrives(d.ownership, c.ownership, loss.ownership, id)
            && Arrives(d.ownedPaths, c.ownedPaths, loss.ownedPaths, id)
            && Arrives(d.removalPaths, c.removalPaths, loss.removalPaths, id)
            && QueueAt(d.queues, id) == if id in loss.queues then None else QueueAt(c.queues, id)
  {
    QueuesWithoutAt(c.queues, loss.queues, id);
  }

  predicate Arrives<V(==)>(arrived: map<Id, V>, sent: map<Id, V>, lost: set<Id>, id: Id) {
    (id in arrived <==> id in sent && id !in lost) && (id in arrived ==> arrived[id] == sent[id])
  }

  lemma {:induction false} QueuesWithoutAt(queues: seq<QueueRow>, ids: set<Id>, q: Id)
    ensures QueueAt(QueuesWithout(queues, ids), q) == if q in ids then None else QueueAt(queues, q)
  {
    if queues != [] {
      QueuesWithoutAt(Front(queues), ids, q);
      if Last(queues).id !in ids {
        var front := QueuesWithout(Front(queues), ids);
        assert Front(front + [Last(queues)]) == front;
      }
    }
  }
}
