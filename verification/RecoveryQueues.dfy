/** Which queues a backup recovery restores, queue by queue. */
module RecoveryQueues {
  import opened Base
  import opened Documents
  import opened Downloads
  import opened Database
  import opened BackupRecovery
  import opened RecoveryLaws

  /** The first row of a queue. */
  function QueueAt(queues: seq<QueueRow>, id: Id): (r: Option<QueueRow>)
    ensures r.Some? <==> HasQueue(queues, id)
    ensures r.Some? ==> r.value in queues && r.value.id == id
  {
    if queues == [] then None
    else
      var before := QueueAt(Front(queues), id);
      assert forall k :: 0 <= k < |queues| - 1 ==> queues[k] == Front(queues)[k];
      if before.Some? then before else if Last(queues).id == id then Some(Last(queues)) else None
  }

  /** `after` is `before` with at most one row behind it for each queue that had none. */
  ghost predicate OnlyAdds(before: seq<QueueRow>, after: seq<QueueRow>) {
    && before <= after
    && forall i, j :: 0 <= i < j < |after| && |before| <= j ==> after[i].id != after[j].id
  }

  lemma {:induction false} MergedQueues(queues: seq<QueueRow>, extra: seq<QueueRow>, everything: bool, ids: set<Id>, q: Id)
    ensures var after := MergeQueues(queues, extra, everything, ids);
            && OnlyAdds(queues, after)
            && QueueAt(after, q) ==
               if HasQueue(queues, q) then QueueAt(queues, q) else if everything || q in ids then QueueAt(extra, q) else None
  {
    if extra != [] {
      MergedQueues(queues, Front(extra), everything, ids, q);
      var before, row := MergeQueues(queues, Front(extra), everything, ids), Last(extra);
      if (everything || row.id in ids) && !HasQueue(before, row.id) {
        assert Front(before + [row]) == before;
        assert forall k :: 0 <= k < |before| ==> before[k].id != row.id;
      }
    }
  }

  lemma OnlyAddsTwice(a: seq<QueueRow>, b: seq<QueueRow>, c: seq<QueueRow>)
    requires OnlyAdds(a, b) && OnlyAdds(b, c)
    ensures OnlyAdds(a, c)
  {
    forall i, j | 0 <= i < j < |c| && |a| <= j ensures c[i].id != c[j].id {
      if j < |b| {
        assert c[i] == b[i] && c[j] == b[j];
      }
    }
  }

  // ---------- Repairing orphans ----------

  /** Candidate k is the first usable one to hold some orphan, its document names the queue, and it has that queue. */
  predicate Gives(orphans: set<Id>, candidates: seq<Backup>, mode: Mode, k: nat, q: Id) {
    && k < |candidates| && Usable(candidates[k], mode) && HasQueue(candidates[k].queues, q)
    && exists doc :: doc in CandidateDocs(candidates[k], mode) && NamesQueue(doc, orphans, candidates, mode, k, q)
  }

  predicate NamesQueue(doc: Document, orphans: set<Id>, candidates: seq<Backup>, mode: Mode, k: nat, q: Id)
    requires k <= |candidates|
  {
    && StringField(doc, QueueId) == Some(q) && RequiredString(doc, IdField).Some?
    && RequiredString(doc, IdField).value in orphans
    && forall j :: 0 <= j < k ==> !Holds(candidates[j], mode, RequiredString(doc, IdField).value)
  }

  /** Old rows stay; a missing queue comes from the first candidate that gives it, and is absent if none does. */
  ghost predicate QueueFrom(before: seq<QueueRow>, after: seq<QueueRow>, orphans: set<Id>, candidates: seq<Backup>, mode: Mode, q: Id) {
    && OnlyAdds(before, after)
    && (HasQueue(before, q) ==> QueueAt(after, q) == QueueAt(before, q))
    && (!HasQueue(before, q) ==>
          && (forall k: nat :: Gives(orphans, candidates, mode, k, q) && (forall j: nat :: j < k ==> !Gives(orphans, candidates, mode, j, q)) ==>
                QueueAt(after, q) == QueueAt(candidates[k].queues, q))
          && ((forall k: nat :: !Gives(orphans, candidates, mode, k, q)) ==> QueueAt(after, q) == None))
  }

  lemma GivesFirst(orphans: set<Id>, candidates: seq<Backup>, mode: Mode, q: Id)
    requires candidates != [] && Usable(candidates[0], mode)
    ensures Gives(orphans, candidates, mode, 0, q) <==>
            HasQueue(candidates[0].queues, q) && q in QueueIds(CandidateDocs(candidates[0], mode), orphans)
  {
    var docs := CandidateDocs(candidates[0], mode);
    if doc :| doc in docs && NamesQueue(doc, orphans, candidates, mode, 0, q) {
      var d :| 0 <= d < |docs| && docs[d] == doc;
      assert Restorable(docs[d], orphans);
    }
    if q in QueueIds(docs, orphans) {
      var d :| 0 <= d < |docs| && Restorable(docs[d], orphans) && StringField(docs[d], QueueId) == Some(q);
      assert NamesQueue(docs[d], orphans, candidates, mode, 0, q);
    }
  }

  lemma GivesLater(orphans: set<Id>, rest: set<Id>, candidates: seq<Backup>, mode: Mode, k: nat, q: Id)
    requires candidates != []
    requires forall id :: id in rest <==> id in orphans && !Holds(candidates[0], mode, id)
    ensures Gives(orphans, candidates, mode, k + 1, q) <==> Gives(rest, candidates[1..], mode, k, q)
  {
    if k + 1 < |candidates| {
      var c := candidates[k + 1];
      assert candidates[1..][k] == c;
      if Usable(c, mode) {
        forall doc ensures NamesQueue(doc, orphans, candidates, mode, k + 1, q) <==> NamesQueue(doc, rest, candidates[1..], mode, k, q) {
          assert forall j :: 0 <= j < k ==> candidates[1..][j] == candidates[j + 1];
          assert forall j :: 1 <= j < k + 1 ==> candidates[j] == candidates[1..][j - 1];
        }
      }
    }
  }

  /** From the queues behind candidate 0 on, the remaining candidates decide. */
  lemma QueueFromLater(before: seq<QueueRow>, middle: seq<QueueRow>, after: seq<QueueRow>,
                       orphans: set<Id>, rest: set<Id>, candidates: seq<Backup>, mode: Mode, q: Id)
    requires candidates != [] && OnlyAdds(before, middle) && QueueFrom(middle, after, rest, candidates[1..], mode, q)
    requires forall id :: id in rest <==> id in orphans && !Holds(candidates[0], mode, id)
    requires HasQueue(before, q) ==> QueueAt(middle, q) == QueueAt(before, q)
    requires !HasQueue(before, q) && Gives(orphans, candidates, mode, 0, q) ==> QueueAt(middle, q) == QueueAt(candidates[0].queues, q)
    requires !HasQueue(before, q) && !Gives(orphans, candidates, mode, 0, q) ==> !HasQueue(middle, q)
    ensures QueueFrom(before, after, orphans, candidates, mode, q)
  {
    OnlyAddsTwice(before, middle, after);
    forall k: nat ensures Gives(orphans, candidates, mode, k + 1, q) <==> Gives(rest, candidates[1..], mode, k, q) {
      GivesLater(orphans, rest, candidates, mode, k, q);
    }
    if !HasQueue(before, q) {
      forall k: nat | Gives(orphans, candidates, mode, k, q) && (forall j: nat :: j < k ==> !Gives(orphans, candidates, mode, j, q))
        ensures QueueAt(after, q) == QueueAt(candidates[k].queues, q)
      {
        if k > 0 {
          FirstLater(orphans, rest, candidates, mode, k, q);
          assert candidates[1..][k - 1] == candidates[k];
        }
      }
      if forall k: nat :: !Gives(orphans, candidates, mode, k, q) {
        NoneLater(orphans, rest, candidates, mode, q);
      }
    }
  }

  lemma FirstLater(orphans: set<Id>, rest: set<Id>, candidates: seq<Backup>, mode: Mode, k: nat, q: Id)
    requires candidates != [] && k > 0
    requires forall id :: id in rest <==> id in orphans && !Holds(candidates[0], mode, id)
    requires Gives(orphans, candidates, mode, k, q) && forall j: nat :: j < k ==> !Gives(orphans, candidates, mode, j, q)
    ensures Gives(rest, candidates[1..], mode, k - 1, q) && forall j: nat :: j < k - 1 ==> !Gives(rest, candidates[1..], mode, j, q)
  {
    GivesLater(orphans, rest, candidates, mode, k - 1, q);
    forall j: nat | j < k - 1 ensures !Gives(rest, candidates[1..], mode, j, q) {
      GivesLater(orphans, rest, candidates, mode, j, q);
    }
  }

  lemma NoneLater(orphans: set<Id>, rest: set<Id>, candidates: seq<Backup>, mode: Mode, q: Id)
    requires candidates != []
    requires forall id :: id in rest <==> id in orphans && !Holds(candidates[0], mode, id)
    requires forall k: nat :: !Gives(orphans, candidates, mode, k, q)
    ensures forall k: nat :: !Gives(rest, candidates[1..], mode, k, q)
  {
    forall k: nat ensures !Gives(rest, candidates[1..], mode, k, q) {
      GivesLater(orphans, rest, candidates, mode, k, q);
    }
  }

  lemma {:induction false} PassQueues(p: Progress, candidates: seq<Backup>, mode: Mode, q: Id)
    ensures QueueFrom(p.tables.queues, RepairPass(p, candidates, mode).tables.queues, p.orphans, candidates, mode, q)
    decreases |candidates|
  {
    if candidates == [] || (p.processed && p.orphans == {}) {
    } else if !Usable(candidates[0], mode) {
      PassQueues(p, candidates[1..], mode, q);
      QueueFromLater(p.tables.queues, p.tables.queues, RepairPass(p, candidates, mode).tables.queues,
                     p.orphans, p.orphans, candidates, mode, q);
    } else {
      var c, docs := candidates[0], CandidateDocs(candidates[0], mode);
      var next := Progress(RestoreCandidate(p.tables, c, mode, p.orphans), p.orphans - HeldIds(docs), true);
      MergedQueues(p.tables.queues, c.queues, false, QueueIds(docs, p.orphans), q);
      GivesFirst(p.orphans, candidates, mode, q);
      PassQueues(next, candidates[1..], mode, q);
      QueueFromLater(p.tables.queues, next.tables.queues, RepairPass(p, candidates, mode).tables.queues,
                     p.orphans, next.orphans, candidates, mode, q);
    }
  }

  // ---------- Whole recoveries ----------

  /** The full restore takes every queue of the candidate it restores. */
  ghost predicate QueueOfAll(before: seq<QueueRow>, after: seq<QueueRow>, c: Option<Backup>, q: Id)
    requires c.Some? ==> c.value.Backup?
  {
    && OnlyAdds(before, after)
    && QueueAt(after, q) == if HasQueue(before, q) then QueueAt(before, q) else if c.Some? then QueueAt(c.value.queues, q) else None
  }

  function Restored(candidates: seq<Backup>, mode: Mode): (c: Option<Backup>)
    ensures c.Some? ==> c.value.Backup?
  {
    match FirstUsable(candidates, mode)
    case None => None
    case Some(k) => Some(candidates[k])
  }

  /** What a recovery does to each queue. */
  lemma RecoveredQueues(t: Tables, candidates: seq<Backup>, mode: Mode, q: Id)
    ensures var u := Recovered(t, candidates, mode);
            if OrphanMode(t) then QueueFrom(t.queues, u.queues, OrphanIds(t), candidates, mode, q)
            else QueueOfAll(t.queues, u.queues, Restored(candidates, mode), q)
  {
    if OrphanMode(t) {
      if OrphanIds(t) != {} {
        PassQueues(Progress(t, OrphanIds(t), false), candidates, mode, q);
      }
    } else {
      match FirstUsable(candidates, mode)
      case None =>
      case Some(k) => MergedQueues(t.queues, candidates[k].queues, true, {}, q);
    }
  }

  /** A recovery cut short has done the same with the candidates before the cut; the full restore has done nothing. */
  lemma InterruptedQueues(t: Tables, candidates: seq<Backup>, mode: Mode, committed: nat, q: Id)
    requires committed <= |candidates|
    ensures var u := Interrupted(t, candidates, mode, committed);
            if OrphanMode(t) then QueueFrom(t.queues, u.queues, OrphanIds(t), candidates[..committed], mode, q)
            else u.queues == t.queues
  {
    if OrphanMode(t) && OrphanIds(t) != {} {
      PassQueues(Progress(t, OrphanIds(t), false), candidates[..committed], mode, q);
    }
  }

  /** An owned download without a row comes back with its queue. */
  lemma OrphanQueueReturns(path: string, queue: Document)
    ensures var doc := Record(map[IdField := Text("a"), Status := Text("paused"), QueueId := Text("q1")]);
            var t := Tables([], [], map[], map[], map["a" := path], map[], map[], None);
            var c := Backup([doc], map[], map[], map[], [QueueRow("q1", queue)]);
            QueueAt(Recovered(t, [c], Standard).queues, "q1") == Some(QueueRow("q1", queue))
  {
    var doc := Record(map[IdField := Text("a"), Status := Text("paused"), QueueId := Text("q1")]);
    var t := Tables([], [], map[], map[], map["a" := path], map[], map[], None);
    var c := Backup([doc], map[], map[], map[], [QueueRow("q1", queue)]);
    assert RequiredString(c.downloads[0], IdField) == Some("a");
    assert c.queues[0].id == "q1";
    assert IsOrphan(t, "a") && "a" in OrphanIds(t);
    assert doc in CandidateDocs(c, Standard) && NamesQueue(doc, OrphanIds(t), [c], Standard, 0, "q1");
    assert Gives(OrphanIds(t), [c], Standard, 0, "q1");
    RecoveredQueues(t, [c], Standard, "q1");
    assert Front(c.queues) == [];
  }
}
