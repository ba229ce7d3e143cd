/** What backup recovery restores, what it never touches, and that repeating it changes nothing. */
module RecoveryLaws {
  import opened Base
  import opened Documents
  import opened Downloads
  import opened Database
  import opened BackupRecovery

  // ---------- Lookups through upserts ----------

  lemma LookupAppend(rows: seq<Row>, row: Row, id: Id)
    requires !HasRow(rows, row.id)
    ensures Lookup(rows + [row], id) == if id == row.id then Some(row) else Lookup(rows, id)
  {
    assert Front(rows + [row]) == rows && Last(rows + [row]) == row;
  }

  lemma LookupIn(rows: seq<Row>, k: nat)
    requires UniqueIds(rows) && k < |rows|
    ensures Lookup(rows, rows[k].id) == Some(rows[k])
  {
    FindUnique(rows, k);
  }

  lemma LookupUpdate(rows: seq<Row>, k: nat, row: Row, id: Id)
    requires UniqueIds(rows) && k < |rows| && rows[k].id == row.id
    ensures UniqueIds(rows[k := row])
    ensures Lookup(rows[k := row], id) == if id == row.id then Some(row) else Lookup(rows, id)
  {
    var out := rows[k := row];
    if id == row.id {
      LookupIn(out, k);
    } else if HasRow(rows, id) {
      var j := Find(rows, id).value;
      assert out[j] == rows[j];
      LookupIn(out, j);
    } else {
      assert !HasRow(out, id) by {
        assert forall j :: 0 <= j < |out| ==> out[j].id == rows[j].id;
      }
    }
  }

  lemma UpsertLookup(rows: seq<Row>, row: Row, id: Id)
    requires UniqueIds(rows)
    ensures UniqueIds(Upsert(rows, row))
    ensures Lookup(Upsert(rows, row), id) == if id == row.id then Some(row) else Lookup(rows, id)
  {
    match Find(rows, row.id)
    case Some(k) => LookupUpdate(rows, k, row, id);
    case None => LookupAppend(rows, row, id);
  }

  /** The last document of an id, which is the one an upsert keeps. */
  function LastDoc(docs: seq<Document>, id: Id): (r: Option<Document>)
    ensures r.Some? ==> RequiredString(r.value, IdField) == Some(id) && r.value in docs
    ensures r.Some? <==> id in HeldIds(docs)
  {
    if docs == [] then None
    else if RequiredString(Last(docs), IdField) == Some(id) then Some(Last(docs))
    else
      HeldIdsLast(docs);
      LastDoc(Front(docs), id)
  }

  lemma HeldIdsLast(docs: seq<Document>)
    requires docs != []
    ensures var id := RequiredString(Last(docs), IdField);
            HeldIds(docs) == HeldIds(Front(docs)) + if id.Some? then {id.value} else {}
  {
    var front := Front(docs);
    assert docs == front + [Last(docs)];
    forall id | id in HeldIds(front) ensures id in HeldIds(docs) {
      var k :| 0 <= k < |front| && RequiredString(front[k], IdField).Some? && RequiredString(front[k], IdField).value == id;
      assert docs[k] == front[k];
    }
    assert docs[|docs| - 1] == Last(docs);
  }

  /** Restoring a candidate's documents rewrites exactly the wanted ids it holds. */
  lemma {:induction false} RestoreDocsLookup(rows: seq<Row>, docs: seq<Document>, wanted: set<Id>, id: Id)
    requires UniqueIds(rows)
    ensures UniqueIds(RestoreDocs(rows, docs, wanted))
    ensures Lookup(RestoreDocs(rows, docs, wanted), id) ==
              if id in wanted && id in HeldIds(docs) then Some(RestoredRow(LastDoc(docs, id).value)) else Lookup(rows, id)
  {
    if docs != [] {
      RestoreDocsLookup(rows, Front(docs), wanted, id);
      HeldIdsLast(docs);
      if Restorable(Last(docs), wanted) {
        UpsertLookup(RestoreDocs(rows, Front(docs), wanted), RestoredRow(Last(docs)), id);
      }
    }
  }

  lemma {:induction false} RestoreNothing(rows: seq<Row>, docs: seq<Document>, wanted: set<Id>)
    requires wanted !! HeldIds(docs)
    ensures RestoreDocs(rows, docs, wanted) == rows && QueueIds(docs, wanted) == {}
  {
    if docs != [] {
      HeldIdsLast(docs);
      RestoreNothing(rows, Front(docs), wanted);
    }
    assert forall k :: 0 <= k < |docs| && RequiredString(docs[k], IdField).Some? ==> RequiredString(docs[k], IdField).value in HeldIds(docs);
  }

  lemma {:induction false} MergeNoQueues(queues: seq<QueueRow>, extra: seq<QueueRow>)
    ensures MergeQueues(queues, extra, false, {}) == queues
  {
    if extra != [] {
      MergeNoQueues(queues, Front(extra));
    }
  }

  // ---------- The set of orphans shrinks by exactly what is restored ----------

  lemma CandidateOrphans(t: Tables, c: Backup, mode: Mode, orphans: set<Id>, id: Id)
    requires c.Backup? && UniqueIds(t.downloads) && orphans == OrphanIds(t)
    ensures var u := RestoreCandidate(t, c, mode, orphans);
            var docs := CandidateDocs(c, mode);
            && UniqueIds(u.downloads)
            && (IsOrphan(u, id) <==> id in orphans - HeldIds(docs))
            && Lookup(u.downloads, id) ==
               (if id in orphans && id in HeldIds(docs) then Some(RestoredRow(LastDoc(docs, id).value)) else Lookup(t.downloads, id))
  {
    RestoreDocsLookup(t.downloads, CandidateDocs(c, mode), orphans, id);
  }

  lemma CandidateKeepsMode(t: Tables, c: Backup, mode: Mode, orphans: set<Id>)
    requires c.Backup? && UniqueIds(t.downloads) && orphans == OrphanIds(t) && OrphanMode(t)
    ensures OrphanMode(RestoreCandidate(t, c, mode, orphans))
  {
    var u := RestoreCandidate(t, c, mode, orphans);
    if t.downloads != [] {
      var id := t.downloads[0].id;
      CandidateOrphans(t, c, mode, orphans, id);
      assert HasRow(t.downloads, id);
      assert HasRow(u.downloads, id);
    } else if t.ownership != map[] {
      var id :| id in t.ownership;
      assert id in u.ownership;
    } else if !t.recoveryMarker.Some? {
      var id :| id in t.removalJobs && Recoverable(t, id);
      assert Recoverable(u, id);
    }
  }

  lemma CandidateStep(t: Tables, c: Backup, mode: Mode, orphans: set<Id>)
    requires c.Backup? && UniqueIds(t.downloads) && orphans == OrphanIds(t) && OrphanMode(t)
    ensures var u := RestoreCandidate(t, c, mode, orphans);
            && UniqueIds(u.downloads) && OrphanMode(u)
            && OrphanIds(u) == orphans - HeldIds(CandidateDocs(c, mode))
            && u.removalJobs == t.removalJobs && u.recoveryMarker == t.recoveryMarker
  {
    var u := RestoreCandidate(t, c, mode, orphans);
    forall id ensures id in OrphanIds(u) <==> id in orphans - HeldIds(CandidateDocs(c, mode)) {
      CandidateOrphans(t, c, mode, orphans, id);
    }
    CandidateOrphans(t, c, mode, orphans, "");
    CandidateKeepsMode(t, c, mode, orphans);
  }

  ghost predicate Honest(p: Progress) {
    UniqueIds(p.tables.downloads) && OrphanMode(p.tables) && p.orphans == OrphanIds(p.tables)
  }

  /** A usable candidate holds the id. */
  predicate Holds(c: Backup, mode: Mode, id: Id) {
    Usable(c, mode) && id in HeldIds(CandidateDocs(c, mode))
  }

  /** The row the first usable candidate holding the id would restore. */
  function FirstHeld(candidates: seq<Backup>, mode: Mode, id: Id): Option<Row> {
    if candidates == [] then None
    else if Holds(candidates[0], mode, id) then Some(RestoredRow(LastDoc(CandidateDocs(candidates[0], mode), id).value))
    else FirstHeld(candidates[1..], mode, id)
  }

  /** The newest usable candidate that holds the id. */
  function Holder(candidates: seq<Backup>, mode: Mode, id: Id): (r: Option<Backup>)
    ensures r.Some? ==> r.value in candidates && Holds(r.value, mode, id)
    ensures r.None? ==> forall c :: c in candidates ==> !Holds(c, mode, id)
  {
    if candidates == [] then None
    else if Holds(candidates[0], mode, id) then Some(candidates[0])
    else Holder(candidates[1..], mode, id)
  }

  lemma {:induction false} FirstHeldIsHolders(candidates: seq<Backup>, mode: Mode, id: Id)
    ensures var holder := Holder(candidates, mode, id);
            FirstHeld(candidates, mode, id) ==
              if holder.Some? then Some(RestoredRow(LastDoc(CandidateDocs(holder.value, mode), id).value)) else None
  {
    if candidates != [] && !Holds(candidates[0], mode, id) {
      FirstHeldIsHolders(candidates[1..], mode, id);
    }
  }

  lemma {:induction false} FirstHeldMeaning(candidates: seq<Backup>, mode: Mode, id: Id)
    ensures FirstHeld(candidates, mode, id).None? <==> forall k :: 0 <= k < |candidates| ==> !Holds(candidates[k], mode, id)
    ensures FirstHeld(candidates, mode, id).Some? ==> FirstHeld(candidates, mode, id).value.id == id
  {
    if candidates != [] && !Holds(candidates[0], mode, id) {
      FirstHeldMeaning(candidates[1..], mode, id);
      assert forall k :: 0 < k < |candidates| ==> candidates[k] == candidates[1..][k - 1];
    }
  }

  lemma {:induction false} RepairPassMeaning(p: Progress, candidates: seq<Backup>, mode: Mode, id: Id)
    requires Honest(p)
    ensures var q := RepairPass(p, candidates, mode);
            && Honest(q)
            && q.tables.removalJobs == p.tables.removalJobs && q.tables.recoveryMarker == p.tables.recoveryMarker
            && q.tables.journal == p.tables.journal
            && (id in q.orphans <==> id in p.orphans && FirstHeld(candidates, mode, id).None?)
            && Lookup(q.tables.downloads, id) ==
               (if id in p.orphans && FirstHeld(candidates, mode, id).Some? then FirstHeld(candidates, mode, id)
                else Lookup(p.tables.downloads, id))
            && (q.processed <==> p.processed || (exists k :: 0 <= k < |candidates| && Usable(candidates[k], mode)))
    decreases |candidates|
  {
    if candidates == [] || (p.processed && p.orphans == {}) {
    } else {
      assert forall k :: 0 < k < |candidates| ==> candidates[k] == candidates[1..][k - 1];
      if !Usable(candidates[0], mode) {
        RepairPassMeaning(p, candidates[1..], mode, id);
        assert (exists k :: 0 <= k < |candidates| && Usable(candidates[k], mode)) ==>
                 exists k :: 0 <= k < |candidates[1..]| && Usable(candidates[1..][k], mode);
      } else {
        var held := HeldIds(CandidateDocs(candidates[0], mode));
        CandidateStep(p.tables, candidates[0], mode, p.orphans);
        CandidateOrphans(p.tables, candidates[0], mode, p.orphans, id);
        RepairPassMeaning(Progress(RestoreCandidate(p.tables, candidates[0], mode, p.orphans), p.orphans - held, true),
                          candidates[1..], mode, id);
        if Holds(candidates[0], mode, id) {
          assert id !in p.orphans - held;
        }
      }
    }
  }

  // ---------- The unscoped restore ----------

  lemma {:induction false} UnscopedLookup(rows: seq<Row>, docs: seq<Document>, excluded: set<Id>, id: Id)
    requires UniqueIds(rows)
    ensures var out := RestoreUnscoped(rows, docs, excluded);
            && UniqueIds(out)
            && (HasRow(rows, id) ==> Lookup(out, id) == Lookup(rows, id))
            && (!HasRow(rows, id) ==>
                  (HasRow(out, id) <==> id in HeldIds(docs) && id !in excluded)
                  && (HasRow(out, id) ==> ValidRecord(Lookup(out, id).value)))
  {
    if docs != [] {
      UnscopedLookup(rows, Front(docs), excluded, id);
      HeldIdsLast(docs);
      var before := RestoreUnscoped(rows, Front(docs), excluded);
      var docId := RequiredString(Last(docs), IdField);
      if docId.Some? && docId.value !in excluded && !HasRow(before, docId.value) {
        LookupAppend(before, RestoredRow(Last(docs)), id);
      }
    } else {
      assert HeldIds(docs) == {};
    }
  }

  // ---------- The laws ----------

  /** An existing row whose document names its own id is never changed. */
  lemma WellFormedRowsKept(t: Tables, candidates: seq<Backup>, mode: Mode, k: nat)
    requires UniqueIds(t.downloads) && k < |t.downloads| && ValidRecord(t.downloads[k])
    ensures t.downloads[k] in Recovered(t, candidates, mode).downloads
  {
    var row := t.downloads[k];
    LookupIn(t.downloads, k);
    if OrphanIds(t) != {} {
      RepairPassMeaning(Progress(t, OrphanIds(t), false), candidates, mode, row.id);
    }
  }

  /** No row appears for an id whose removal has completed. */
  lemma TombstonesStayGone(t: Tables, candidates: seq<Backup>, mode: Mode, id: Id)
    requires UniqueIds(t.downloads) && Tombstoned(t, id)
    ensures Lookup(Recovered(t, candidates, mode).downloads, id) == Lookup(t.downloads, id)
  {
    if !OrphanMode(t) {
      match FirstUsable(candidates, mode)
      case None =>
      case Some(k) => UnscopedLookup(t.downloads, CandidateDocs(candidates[k], mode), TombstonedIds(t), id);
    } else if OrphanIds(t) != {} {
      RepairPassMeaning(Progress(t, OrphanIds(t), false), candidates, mode, id);
    }
  }

  /**
    With evidence present, exactly the orphans some usable candidate holds are restored,
    each from the newest such candidate, and every other id keeps what it had.
   */
  lemma OrphansRestoredExactly(t: Tables, candidates: seq<Backup>, mode: Mode, id: Id)
    requires UniqueIds(t.downloads) && OrphanMode(t)
    ensures Lookup(Recovered(t, candidates, mode).downloads, id) ==
              if IsOrphan(t, id) && FirstHeld(candidates, mode, id).Some? then FirstHeld(candidates, mode, id)
              else Lookup(t.downloads, id)
  {
    if OrphanIds(t) != {} {
      RepairPassMeaning(Progress(t, OrphanIds(t), false), candidates, mode, id);
    }
  }

  // ---------- Which document an id is restored from ----------

  /** The candidate that a recovery restores the id from, if it restores it. */
  function Source(t: Tables, candidates: seq<Backup>, mode: Mode, id: Id): Option<Backup> {
    if OrphanMode(t) then
      if IsOrphan(t, id) then Holder(candidates, mode, id) else None
    else
      match FirstUsable(candidates, mode)
      case None => None
      case Some(k) => if Holds(candidates[k], mode, id) && !Tombstoned(t, id) then Some(candidates[k]) else None
  }

  /** The first document of an id, which is the one an insert that keeps existing rows stores. */
  function FirstDoc(docs: seq<Document>, id: Id): (r: Option<Document>)
    ensures r.Some? ==> RequiredString(r.value, IdField) == Some(id) && r.value in docs
    ensures r.Some? <==> id in HeldIds(docs)
  {
    if docs == [] then None
    else
      HeldIdsLast(docs);
      var before := FirstDoc(Front(docs), id);
      if before.Some? then before
      else if RequiredString(Last(docs), IdField) == Some(id) then Some(Last(docs))
      else None
  }

  /** An orphan repair keeps the last document of the id, the full restore the first. */
  function Chosen(t: Tables, candidates: seq<Backup>, mode: Mode, id: Id): (r: Option<Document>)
    ensures r.Some? ==> RequiredString(r.value, IdField) == Some(id)
  {
    match Source(t, candidates, mode, id)
    case None => None
    case Some(c) => if OrphanMode(t) then LastDoc(CandidateDocs(c, mode), id) else FirstDoc(CandidateDocs(c, mode), id)
  }

  lemma InsertedLookup(rows: seq<Row>, row: Row, id: Id)
    requires UniqueIds(rows)
    ensures UniqueIds(InsertIfAbsent(rows, row))
    ensures Lookup(InsertIfAbsent(rows, row), id) ==
            if id == row.id && Lookup(rows, id).None? then Some(row) else Lookup(rows, id)
  {
    if !HasRow(rows, row.id) {
      LookupAppend(rows, row, id);
    }
  }

  lemma {:induction false} UnscopedExactly(docs: seq<Document>, excluded: set<Id>, id: Id)
    ensures UniqueIds(RestoreUnscoped([], docs, excluded))
    ensures var doc := FirstDoc(docs, id);
            Lookup(RestoreUnscoped([], docs, excluded), id) ==
              if doc.Some? && id !in excluded then Some(RestoredRow(doc.value)) else None
  {
    if docs != [] {
      UnscopedExactly(Front(docs), excluded, id);
      var docId := RequiredString(Last(docs), IdField);
      if docId.Some? && docId.value !in excluded {
        InsertedLookup(RestoreUnscoped([], Front(docs), excluded), RestoredRow(Last(docs)), id);
      }
    }
  }

  /** A recovery stores exactly the chosen documents, and leaves every other id's row. */
  lemma RestoredExactly(t: Tables, candidates: seq<Backup>, mode: Mode, id: Id)
    requires UniqueIds(t.downloads)
    ensures var doc := Chosen(t, candidates, mode, id);
            Lookup(Recovered(t, candidates, mode).downloads, id) ==
              if doc.Some? then Some(RestoredRow(doc.value)) else Lookup(t.downloads, id)
  {
    if OrphanMode(t) {
      OrphansRestoredExactly(t, candidates, mode, id);
      FirstHeldIsHolders(candidates, mode, id);
    } else {
      match FirstUsable(candidates, mode)
      case None =>
      case Some(k) => UnscopedExactly(CandidateDocs(candidates[k], mode), TombstonedIds(t), id);
    }
  }

  /** Any marker, even "skipped", rules out the unscoped restore for good. */
  lemma MarkerForbidsFullRestore(t: Tables, candidates: seq<Backup>, mode: Mode, id: Id)
    requires UniqueIds(t.downloads) && t.recoveryMarker.Some? && !HasRow(t.downloads, id)
    ensures Recovered(t, candidates, mode).recoveryMarker.Some?
    ensures HasRow(Recovered(t, candidates, mode).downloads, id) ==>
              id in t.ownership || Recoverable(t, id)
  {
    OrphansRestoredExactly(t, candidates, mode, id);
    if OrphanIds(t) != {} {
      RepairPassMeaning(Progress(t, OrphanIds(t), false), candidates, mode, id);
    }
  }

  lemma {:induction false} PassIdle(p: Progress, candidates: seq<Backup>, mode: Mode)
    requires forall k :: 0 <= k < |candidates| && Usable(candidates[k], mode) ==> p.orphans !! HeldIds(CandidateDocs(candidates[k], mode))
    ensures var q := RepairPass(p, candidates, mode); q.tables == p.tables && q.orphans == p.orphans
    decreases |candidates|
  {
    if candidates != [] && !(p.processed && p.orphans == {}) {
      assert forall k :: 0 < k < |candidates| ==> candidates[k] == candidates[1..][k - 1];
      if !Usable(candidates[0], mode) {
        PassIdle(p, candidates[1..], mode);
      } else {
        var c := candidates[0];
        var docs := CandidateDocs(c, mode);
        RestoreNothing(p.tables.downloads, docs, p.orphans);
        MergeNoQueues(p.tables.queues, c.queues);
        assert p.orphans * HeldIds(docs) == {};
        MergeNothing(p.tables.ownership, c.ownership);
        MergeNothing(p.tables.ownedPaths, c.ownedPaths);
        MergeNothing(p.tables.removalPaths, c.removalPaths);
        assert RestoreCandidate(p.tables, c, mode, p.orphans) == p.tables;
        assert p.orphans - HeldIds(docs) == p.orphans;
        PassIdle(Progress(p.tables, p.orphans, true), candidates[1..], mode);
      }
    }
  }

  lemma MergeNothing<V>(table: map<Id, V>, extra: map<Id, V>)
    ensures MergeAbsent(table, extra, {}) == table
  {
  }

  /** After a pass no usable candidate holds any orphan that is left. */
  lemma PassExhausts(p: Progress, candidates: seq<Backup>, mode: Mode, k: nat)
    requires Honest(p) && k < |candidates| && Usable(candidates[k], mode)
    ensures RepairPass(p, candidates, mode).orphans !! HeldIds(CandidateDocs(candidates[k], mode))
  {
    forall id | id in HeldIds(CandidateDocs(candidates[k], mode)) ensures id !in RepairPass(p, candidates, mode).orphans {
      RepairPassMeaning(p, candidates, mode, id);
      FirstHeldMeaning(candidates, mode, id);
      assert Holds(candidates[k], mode, id);
    }
  }

  lemma FullRestoreLeavesNoOrphan(t: Tables, c: Backup, mode: Mode, id: Id)
    requires UniqueIds(t.downloads) && !OrphanMode(t) && c.Backup?
    ensures !IsOrphan(RestoreEverything(t, c, mode), id)
  {
    UnscopedLookup(t.downloads, CandidateDocs(c, mode), TombstonedIds(t), id);
    assert !HasRow(t.downloads, id);
  }

  lemma OrphansIgnoreMarker(t: Tables, marker: Option<string>)
    ensures OrphanIds(t.(recoveryMarker := marker)) == OrphanIds(t)
  {
    assert forall id :: IsOrphan(t.(recoveryMarker := marker), id) == IsOrphan(t, id);
  }

  lemma FullRestoreIdempotent(t: Tables, candidates: seq<Backup>, again: seq<Backup>, mode: Mode)
    requires UniqueIds(t.downloads) && !OrphanMode(t) && SameDownloads(candidates, again)
    ensures var once := Recovered(t, candidates, mode); Recovered(once, again, mode) == once
  {
    var once := Recovered(t, candidates, mode);
    match FirstUsable(candidates, mode)
    case None =>
      forall k | 0 <= k < |again| ensures !Usable(again[k], mode) {
        SameUse(candidates, again, mode, k);
      }
    case Some(k) =>
      forall id ensures id !in OrphanIds(once) {
        FullRestoreLeavesNoOrphan(t, candidates[k], mode, id);
      }
      assert OrphanIds(once) == {};
  }

  lemma SameUse(a: seq<Backup>, b: seq<Backup>, mode: Mode, k: nat)
    requires SameDownloads(a, b) && k < |a|
    ensures Usable(a[k], mode) <==> Usable(b[k], mode)
    ensures a[k].Backup? ==> CandidateDocs(a[k], mode) == CandidateDocs(b[k], mode)
  {
    assert SameDocuments(a[k], b[k]);
  }

  /** What one set of backups cannot repair, the same downloads with other entries cannot either. */
  lemma SameIdle(p: Progress, a: seq<Backup>, b: seq<Backup>, mode: Mode)
    requires SameDownloads(a, b)
    requires forall k :: 0 <= k < |a| && Usable(a[k], mode) ==> p.orphans !! HeldIds(CandidateDocs(a[k], mode))
    ensures var q := RepairPass(p, b, mode); q.tables == p.tables && q.orphans == p.orphans
  {
    forall k | 0 <= k < |b| && Usable(b[k], mode) ensures p.orphans !! HeldIds(CandidateDocs(b[k], mode)) {
      SameUse(a, b, mode, k);
      assert Usable(a[k], mode);
    }
    PassIdle(p, b, mode);
  }

  lemma PassFinishes(t: Tables, candidates: seq<Backup>, mode: Mode)
    requires UniqueIds(t.downloads) && OrphanMode(t) && OrphanIds(t) != {}
    ensures var q := RepairPass(Progress(t, OrphanIds(t), false), candidates, mode);
            && Honest(q) && q.tables.recoveryMarker == t.recoveryMarker
            && (q.orphans == {} ==> q.processed && q.tables.downloads != [])
            && (forall k :: 0 <= k < |candidates| && Usable(candidates[k], mode) ==>
                  q.orphans !! HeldIds(CandidateDocs(candidates[k], mode)))
  {
    var p := Progress(t, OrphanIds(t), false);
    var q := RepairPass(p, candidates, mode);
    var id :| id in OrphanIds(t);
    RepairPassMeaning(p, candidates, mode, id);
    FirstHeldMeaning(candidates, mode, id);
    if q.orphans == {} {
      assert HasRow(q.tables.downloads, id);
    }
    forall k | 0 <= k < |candidates| && Usable(candidates[k], mode)
      ensures q.orphans !! HeldIds(CandidateDocs(candidates[k], mode))
    {
      PassExhausts(p, candidates, mode, k);
    }
  }

  /**
    Running the recovery again on the same backups changes nothing, even where other entries
    arrive than the first time: a claim lost with its insert stays lost.
   */
  lemma RecoveryIdempotent(t: Tables, candidates: seq<Backup>, again: seq<Backup>, mode: Mode)
    requires UniqueIds(t.downloads) && SameDownloads(candidates, again)
    ensures var once := Recovered(t, candidates, mode); Recovered(once, again, mode) == once
  {
    var once := Recovered(t, candidates, mode);
    if !OrphanMode(t) {
      FullRestoreIdempotent(t, candidates, again, mode);
    } else if OrphanIds(t) == {} {
      OrphansIgnoreMarker(t, once.recoveryMarker);
    } else {
      PassFinishes(t, candidates, mode);
      var q := RepairPass(Progress(t, OrphanIds(t), false), candidates, mode);
      OrphansIgnoreMarker(q.tables, once.recoveryMarker);
      if q.orphans != {} {
        SameIdle(Progress(once, q.orphans, false), candidates, again, mode);
      }
    }
  }

  /** Entries that may be lost decide nothing about the downloads. */
  lemma DownloadsIgnoreLosses(t: Tables, candidates: seq<Backup>, others: seq<Backup>, mode: Mode)
    requires SameDownloads(candidates, others)
    ensures Recovered(t, others, mode).downloads == Recovered(t, candidates, mode).downloads
    ensures Recovered(t, others, mode).recoveryMarker == Recovered(t, candidates, mode).recoveryMarker
  {
    if !OrphanMode(t) {
      SameFirst(candidates, others, mode);
      match FirstUsable(candidates, mode)
      case None =>
      case Some(k) => SameUse(candidates, others, mode, k);
    } else {
      var p := Progress(t, OrphanIds(t), false);
      SamePass(p, p, candidates, others, mode);
    }
  }

  /** Whichever inserts fail in silence, the same downloads are restored and the same marker is set. */
  lemma LossesDecideNoDownload(t: Tables, candidates: seq<Backup>, first: nat -> Loss, second: nat -> Loss, mode: Mode)
    ensures var u, v := Recovered(t, AllDelivered(candidates, first), mode), Recovered(t, AllDelivered(candidates, second), mode);
            u.downloads == v.downloads && u.recoveryMarker == v.recoveryMarker
  {
    DeliveriesAgree(candidates, first, second);
    DownloadsIgnoreLosses(t, AllDelivered(candidates, first), AllDelivered(candidates, second), mode);
  }

  lemma {:induction false} SameFirst(a: seq<Backup>, b: seq<Backup>, mode: Mode)
    requires SameDownloads(a, b)
    ensures FirstUsable(a, mode) == FirstUsable(b, mode)
  {
    if a != [] {
      SameUse(a, b, mode, 0);
      assert forall k :: 0 <= k < |a| - 1 ==> a[1..][k] == a[k + 1] && b[1..][k] == b[k + 1];
      SameFirst(a[1..], b[1..], mode);
    }
  }

  ghost predicate SameProgress(p: Progress, q: Progress) {
    && p.tables.downloads == q.tables.downloads && p.tables.recoveryMarker == q.tables.recoveryMarker
    && p.orphans == q.orphans && p.processed == q.processed
  }

  lemma {:induction false} SamePass(p: Progress, q: Progress, a: seq<Backup>, b: seq<Backup>, mode: Mode)
    requires SameDownloads(a, b) && SameProgress(p, q)
    ensures SameProgress(RepairPass(p, a, mode), RepairPass(q, b, mode))
    decreases |a|
  {
    if a == [] || (p.processed && p.orphans == {}) {
    } else {
      SameUse(a, b, mode, 0);
      assert forall k :: 0 <= k < |a| - 1 ==> a[1..][k] == a[k + 1] && b[1..][k] == b[k + 1];
      if !Usable(a[0], mode) {
        SamePass(p, q, a[1..], b[1..], mode);
      } else {
        var held := HeldIds(CandidateDocs(a[0], mode));
        SamePass(Progress(RestoreCandidate(p.tables, a[0], mode, p.orphans), p.orphans - held, true),
                 Progress(RestoreCandidate(q.tables, b[0], mode, q.orphans), q.orphans - held, true), a[1..], b[1..], mode);
      }
    }
  }

  /** Equal but for the text of the marker. */
  ghost predicate SameButMarker(a: Tables, b: Tables) {
    a.(recoveryMarker := None) == b.(recoveryMarker := None) && (a.recoveryMarker.Some? <==> b.recoveryMarker.Some?)
  }

  /**
    What one uninterrupted recovery would have been delivered: a cut pass keeps what its first
    candidates delivered, while the full restore starts over.
   */
  function Joined(t: Tables, candidates: seq<Backup>, again: seq<Backup>, committed: nat): seq<Backup>
    requires committed <= |candidates| == |again|
  {
    if OrphanMode(t) then candidates[..committed] + again[committed..] else again
  }

  /**
    A pass cut short after any number of candidates is completed by the next start: the result
    is that of one uninterrupted recovery. While orphans were left it is exactly that; behind
    the last repair only the text of the marker differs, which the next start does not raise
    to "complete".
   */
  lemma InterruptedRecoveryCompletes(t: Tables, candidates: seq<Backup>, again: seq<Backup>, mode: Mode, committed: nat)
    requires UniqueIds(t.downloads) && committed <= |candidates| && SameDownloads(candidates, again)
    ensures var u := Interrupted(t, candidates, mode, committed);
            var whole := Recovered(t, Joined(t, candidates, again, committed), mode);
            && SameButMarker(Recovered(u, again, mode), whole)
            && (OrphanIds(u) != {} ==> Recovered(u, again, mode) == whole)
            && (OrphanIds(u) == {} && OrphanMode(t) && OrphanIds(t) != {} ==>
                  && whole.recoveryMarker == Some("complete")
                  && Recovered(u, again, mode).recoveryMarker == if t.recoveryMarker.Some? then t.recoveryMarker else Some("skipped"))
  {
    if OrphanMode(t) && OrphanIds(t) != {} {
      var p, early := Progress(t, OrphanIds(t), false), candidates[..committed];
      RepairPassMeaning(p, early, mode, "");
      if RepairPass(p, early, mode).orphans == {} {
        InterruptedAtEnd(t, early, again[committed..], again, mode);
      } else {
        InterruptedMidway(t, candidates, again, mode, committed);
      }
    }
  }

  lemma InterruptedMidway(t: Tables, candidates: seq<Backup>, again: seq<Backup>, mode: Mode, committed: nat)
    requires UniqueIds(t.downloads) && committed <= |candidates| && SameDownloads(candidates, again)
    requires OrphanMode(t) && OrphanIds(t) != {}
    requires RepairPass(Progress(t, OrphanIds(t), false), candidates[..committed], mode).orphans != {}
    ensures Recovered(Interrupted(t, candidates, mode, committed), again, mode) ==
            Recovered(t, candidates[..committed] + again[committed..], mode)
  {
    var p := Progress(t, OrphanIds(t), false);
    var early, redone, late := candidates[..committed], again[..committed], again[committed..];
    var q := RepairPass(p, early, mode);
    RepairPassMeaning(p, early, mode, "");
    PassConcat(p, early, late, mode);
    PassFinishes(t, early, mode);
    PassFinishes(t, early + late, mode);
    PassFinishes(q.tables, again, mode);
    var next := Progress(q.tables, q.orphans, false);
    assert again == redone + late;
    PassConcat(next, redone, late, mode);
    assert SameDownloads(early, redone) by { assert forall k :: 0 <= k < committed ==> SameDocuments(candidates[k], again[k]); }
    SameIdle(next, early, redone, mode);
    SameProcessed(q, RepairPass(next, redone, mode), late, mode);
  }

  /** Whether a candidate was processed before matters only once no orphan is left. */
  lemma SameProcessed(q: Progress, s: Progress, candidates: seq<Backup>, mode: Mode)
    requires q.tables == s.tables && q.orphans == s.orphans && q.orphans != {}
    ensures RepairPass(q, candidates, mode).tables == RepairPass(s, candidates, mode).tables
    ensures RepairPass(q, candidates, mode).orphans == RepairPass(s, candidates, mode).orphans
    decreases |candidates|
  {
    if candidates != [] && !Usable(candidates[0], mode) {
      SameProcessed(q, s, candidates[1..], mode);
    }
  }

  lemma InterruptedAtEnd(t: Tables, early: seq<Backup>, late: seq<Backup>, again: seq<Backup>, mode: Mode)
    requires UniqueIds(t.downloads) && OrphanMode(t) && OrphanIds(t) != {}
    requires RepairPass(Progress(t, OrphanIds(t), false), early, mode).orphans == {}
    ensures var q := RepairPass(Progress(t, OrphanIds(t), false), early, mode);
            && OrphanIds(q.tables) == {} && SameButMarker(Recovered(q.tables, again, mode), Recovered(t, early + late, mode))
            && Recovered(t, early + late, mode).recoveryMarker == Some("complete")
            && Recovered(q.tables, again, mode).recoveryMarker == if t.recoveryMarker.Some? then t.recoveryMarker else Some("skipped")
  {
    var p := Progress(t, OrphanIds(t), false);
    PassFinishes(t, early, mode);
    assert (early + late)[..|early|] == early;
    PassStops(p, early + late, |early|, mode);
  }
}
