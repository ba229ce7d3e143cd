/**
  The ownership entries after a backup recovery or a legacy import, neither of which looks
  for collisions, and exactly when the claims of different ids stay apart.
 */
module RecoveryClaims {
  import opened Base
  import opened Documents
  import opened Downloads
  import opened Database
  import opened Ownership
  import opened BackupRecovery
  import opened RecoveryLaws
  import Claims = OwnershipLaws
  import Store = StoreRuns

  // ---------- The entries of one id ----------

  datatype Entries = Entries(owner: Option<string>, owned: Option<PathList>, reserved: Option<PathList>)

  const NoEntries := Entries(None, None, None)

  function At<V>(table: map<Id, V>, id: Id): Option<V> {
    if id in table then Some(table[id]) else None
  }

  function EntriesOf(t: Tables, id: Id): Entries {
    Entries(At(t.ownership, id), At(t.ownedPaths, id), At(t.removalPaths, id))
  }

  function BackupEntries(c: Backup, id: Id): Entries {
    if c.Unreadable? then NoEntries else Entries(At(c.ownership, id), At(c.ownedPaths, id), At(c.removalPaths, id))
  }

  function First<V>(a: Option<V>, b: Option<V>): Option<V> {
    if a.Some? then a else b
  }

  /** Each table keeps its own entry and takes the other one where it has none. */
  function Merged(a: Entries, b: Entries): Entries {
    Entries(First(a.owner, b.owner), First(a.owned, b.owned), First(a.reserved, b.reserved))
  }

  function ListedPaths(list: Option<PathList>, fallback: seq<string>): seq<string> {
    match list
    case None => fallback
    case Some(BadList(_)) => []
    case Some(Paths(paths)) => if paths == [] then fallback else paths
  }

  /** The paths that entries claim; without an owner they claim none. */
  function Claimed(e: Entries): seq<string> {
    if e.owner.None? then [] else [e.owner.value] + ListedPaths(e.owned, [e.owner.value]) + ListedPaths(e.reserved, [])
  }

  lemma ClaimedIsClaimedPaths(t: Tables, id: Id)
    requires id in t.ownership
    ensures Claimed(EntriesOf(t, id)) == ClaimedPaths(t, id)
  {
  }

  // ---------- Exclusivity after entries were added ----------

  /** These entries of an id reserve nothing without an owner, and meet no other id's. */
  ghost predicate Apart(ident: Identity, id: Id, after: Id -> Entries) {
    && (after(id).reserved.Some? ==> after(id).owner.Some?)
    && forall other :: other != id ==> !Overlap(ident, Claimed(after(id)), Claimed(after(other)))
  }

  /** Whatever ids gained entries stay apart from all other ids. */
  ghost predicate GainsApart(ident: Identity, t: Tables, after: Id -> Entries) {
    forall id :: after(id) != EntriesOf(t, id) ==> Apart(ident, id, after)
  }

  lemma ExclusiveMeansApart(ident: Identity, u: Tables, id: Id, other: Id)
    requires Exclusive(ident, u) && id != other
    ensures EntriesOf(u, id).reserved.Some? ==> EntriesOf(u, id).owner.Some?
    ensures !Overlap(ident, Claimed(EntriesOf(u, id)), Claimed(EntriesOf(u, other)))
  {
    if id in u.ownership && other in u.ownership {
      ClaimedIsClaimedPaths(u, id);
      ClaimedIsClaimedPaths(u, other);
    }
  }

  /** Exclusive tables stay exclusive exactly when the gained entries stay apart from all others. */
  lemma GainsKeepExclusiveExactly(ident: Identity, t: Tables, u: Tables, after: Id -> Entries)
    requires Exclusive(ident, t) && forall id :: EntriesOf(u, id) == after(id)
    ensures Exclusive(ident, u) <==> GainsApart(ident, t, after)
  {
    if Exclusive(ident, u) {
      forall id ensures Apart(ident, id, after) {
        assert EntriesOf(u, id) == after(id);
        ExclusiveMeansApart(ident, u, id, if id == "" then "a" else "");
        forall other | other != id ensures !Overlap(ident, Claimed(after(id)), Claimed(after(other))) {
          assert EntriesOf(u, other) == after(other);
          ExclusiveMeansApart(ident, u, id, other);
        }
      }
    }
    if GainsApart(ident, t, after) {
      forall a, b | a in u.ownership && b in u.ownership && a != b ensures !Overlap(ident, ClaimedPaths(u, a), ClaimedPaths(u, b)) {
        ApartPair(ident, t, u, after, a, b);
      }
      forall id | id in u.removalPaths ensures id in u.ownership {
        assert EntriesOf(u, id) == after(id);
        if after(id) == EntriesOf(t, id) {
          assert id in t.removalPaths;
        }
      }
    }
  }

  lemma ApartPair(ident: Identity, t: Tables, u: Tables, after: Id -> Entries, a: Id, b: Id)
    requires Exclusive(ident, t) && (forall id :: EntriesOf(u, id) == after(id)) && GainsApart(ident, t, after)
    requires a in u.ownership && b in u.ownership && a != b
    ensures !Overlap(ident, ClaimedPaths(u, a), ClaimedPaths(u, b))
  {
    assert EntriesOf(u, a) == after(a) && EntriesOf(u, b) == after(b);
    ClaimedIsClaimedPaths(u, a);
    ClaimedIsClaimedPaths(u, b);
    if after(a) != EntriesOf(t, a) {
      assert Apart(ident, a, after);
    } else if after(b) != EntriesOf(t, b) {
      assert Apart(ident, b, after);
      Claims.OverlapSymmetric(ident, Claimed(after(a)), Claimed(after(b)));
    } else {
      ExclusiveMeansApart(ident, t, a, b);
    }
  }

  // ---------- Backup recovery ----------

  /** The id's entries after a recovery, from the tables and the backups alone. */
  function AfterRecovery(t: Tables, candidates: seq<Backup>, mode: Mode, id: Id): Entries {
    match Source(t, candidates, mode, id)
    case None => EntriesOf(t, id)
    case Some(c) => Merged(EntriesOf(t, id), BackupEntries(c, id))
  }

  lemma MergedAt<V>(table: map<Id, V>, extra: map<Id, V>, ids: set<Id>, id: Id)
    ensures At(MergeAbsent(table, extra, ids), id) == if id in ids then First(At(table, id), At(extra, id)) else At(table, id)
  {
  }

  lemma CandidateEntries(t: Tables, c: Backup, mode: Mode, orphans: set<Id>, id: Id)
    requires c.Backup?
    ensures EntriesOf(RestoreCandidate(t, c, mode, orphans), id) ==
            if id in orphans && id in HeldIds(CandidateDocs(c, mode)) then Merged(EntriesOf(t, id), BackupEntries(c, id)) else EntriesOf(t, id)
  {
    var restored := orphans * HeldIds(CandidateDocs(c, mode));
    MergedAt(t.ownership, c.ownership, restored, id);
    MergedAt(t.ownedPaths, c.ownedPaths, restored, id);
    MergedAt(t.removalPaths, c.removalPaths, restored, id);
  }

  lemma EverythingEntries(t: Tables, c: Backup, mode: Mode, id: Id)
    requires c.Backup?
    ensures EntriesOf(RestoreEverything(t, c, mode), id) ==
            if id in HeldIds(CandidateDocs(c, mode)) && !Tombstoned(t, id) then Merged(EntriesOf(t, id), BackupEntries(c, id))
            else EntriesOf(t, id)
  {
    var restored := HeldIds(CandidateDocs(c, mode)) - TombstonedIds(t);
    MergedAt(t.ownership, c.ownership, restored, id);
    MergedAt(t.ownedPaths, c.ownedPaths, restored, id);
    MergedAt(t.removalPaths, c.removalPaths, restored, id);
  }

  lemma {:induction false} PassEntries(p: Progress, candidates: seq<Backup>, mode: Mode, id: Id)
    ensures EntriesOf(RepairPass(p, candidates, mode).tables, id) ==
            var holder := Holder(candidates, mode, id);
            if id in p.orphans && holder.Some? then Merged(EntriesOf(p.tables, id), BackupEntries(holder.value, id))
            else EntriesOf(p.tables, id)
    decreases |candidates|
  {
    if candidates == [] || (p.processed && p.orphans == {}) {
    } else if !Usable(candidates[0], mode) {
      PassEntries(p, candidates[1..], mode, id);
    } else {
      var held := HeldIds(CandidateDocs(candidates[0], mode));
      CandidateEntries(p.tables, candidates[0], mode, p.orphans, id);
      PassEntries(Progress(RestoreCandidate(p.tables, candidates[0], mode, p.orphans), p.orphans - held, true), candidates[1..], mode, id);
    }
  }

  /** A recovery gives each id it restores the entries of the candidate it is restored from, where it had none. */
  lemma RecoveredEntries(t: Tables, candidates: seq<Backup>, mode: Mode, id: Id)
    ensures EntriesOf(Recovered(t, candidates, mode), id) == AfterRecovery(t, candidates, mode, id)
  {
    if OrphanMode(t) {
      RepairedEntries(t, candidates, mode, id);
    } else {
      match FirstUsable(candidates, mode)
      case None =>
      case Some(k) => EverythingEntries(t, candidates[k], mode, id);
    }
  }

  lemma RepairedEntries(t: Tables, candidates: seq<Backup>, mode: Mode, id: Id)
    requires OrphanMode(t)
    ensures EntriesOf(Recovered(t, candidates, mode), id) == AfterRecovery(t, candidates, mode, id)
  {
    if OrphanIds(t) != {} {
      PassEntries(Progress(t, OrphanIds(t), false), candidates, mode, id);
    }
  }

  /**
    A whole recovery keeps the claims of different ids disjoint exactly when what the backups
    add to the restored ids overlaps no other claim, old or added, and reserves nothing
    without an owner.
   */
  lemma RecoveryKeepsExclusiveExactly(ident: Identity, t: Tables, candidates: seq<Backup>, mode: Mode)
    requires Exclusive(ident, t)
    ensures Exclusive(ident, Recovered(t, candidates, mode)) <==>
            GainsApart(ident, t, id => AfterRecovery(t, candidates, mode, id))
  {
    var u, after := Recovered(t, candidates, mode), id => AfterRecovery(t, candidates, mode, id);
    forall id ensures EntriesOf(u, id) == after(id) {
      RecoveredEntries(t, candidates, mode, id);
    }
    GainsKeepExclusiveExactly(ident, t, u, after);
  }

  /** The same for a recovery cut short after any number of candidates. */
  lemma InterruptionKeepsExclusiveExactly(ident: Identity, t: Tables, candidates: seq<Backup>, mode: Mode, committed: nat)
    requires Exclusive(ident, t) && committed <= |candidates|
    ensures Exclusive(ident, Interrupted(t, candidates, mode, committed)) <==>
            !OrphanMode(t) || GainsApart(ident, t, id => AfterRecovery(t, candidates[..committed], mode, id))
  {
    if OrphanMode(t) {
      var u, early := Interrupted(t, candidates, mode, committed), candidates[..committed];
      var after := id => AfterRecovery(t, early, mode, id);
      forall id ensures EntriesOf(u, id) == after(id) {
        if OrphanIds(t) != {} {
          PassEntries(Progress(t, OrphanIds(t), false), early, mode, id);
        }
      }
      GainsKeepExclusiveExactly(ident, t, u, after);
    }
  }

  // ---------- Legacy import ----------

  /** The id's entries after an import of these owners. */
  function AfterImport(t: Tables, ownership: map<Id, string>, id: Id): Entries {
    Merged(EntriesOf(t, id), Entries(At(ownership, id), None, None))
  }

  /** A legacy import keeps the claims disjoint exactly when the owners it adds stay apart. */
  lemma ImportKeepsExclusiveExactly(ident: Identity, t: Tables, docs: seq<Document>, queues: seq<Document>, ownership: map<Id, string>)
    requires Exclusive(ident, t) && Store.Imports(t, docs, queues)
    ensures Exclusive(ident, Store.Apply(t, Store.ImportLegacy(docs, queues, ownership))) <==>
            GainsApart(ident, t, id => AfterImport(t, ownership, id))
  {
    var u, after := Store.Apply(t, Store.ImportLegacy(docs, queues, ownership)), id => AfterImport(t, ownership, id);
    forall id ensures EntriesOf(u, id) == after(id) {
    }
    GainsKeepExclusiveExactly(ident, t, u, after);
  }

  // ---------- Inputs at which it fails ----------

  /** An unfinished removal of `b` whose row is gone, beside a download that claims the path `b` had. */
  function Contested(path: string): Tables {
    Tables([Row("a", "queued", None, Record(map[IdField := Text("a"), Status := Text("queued")]))], [],
           map["b" := Record(map[IdField := Text("b"), Phase := Text("failed")])], map[],
           map["a" := path], map[], map[], None)
  }

  function OldBackup(path: string): Backup {
    Backup([Record(map[IdField := Text("b"), Status := Text("completed")])], map["b" := path], map[], map[], [])
  }

  lemma ContestedSource(path: string)
    ensures Source(Contested(path), [OldBackup(path)], Standard, "b") == Some(OldBackup(path))
    ensures Source(Contested(path), [OldBackup(path)], Standard, "a") == None
  {
    var t, c := Contested(path), OldBackup(path);
    assert RequiredString(c.downloads[0], IdField) == Some("b");
    FindUnique(t.downloads, 0);
    assert Lookup(t.downloads, "a") == Some(t.downloads[0]) && !HasRow(t.downloads, "b");
    assert Holds(c, Standard, "b");
  }

  lemma SharedPath(ident: Identity, t: Tables, path: string, after: Id -> Entries)
    requires after("a").owner == Some(path) && after("b").owner == Some(path) && after("b") != EntriesOf(t, "b")
    ensures !GainsApart(ident, t, after)
  {
    assert Claimed(after("a"))[0] == path && Claimed(after("b"))[0] == path;
    assert Same(ident, Claimed(after("b"))[0], Claimed(after("a"))[0]);
    assert !Apart(ident, "b", after);
  }

  /** A recovery can give one path two owners. */
  lemma RecoveryCanShareAPath(ident: Identity, path: string)
    ensures Exclusive(ident, Contested(path))
    ensures !Exclusive(ident, Recovered(Contested(path), [OldBackup(path)], Standard))
  {
    var t, c := Contested(path), OldBackup(path);
    ContestedSource(path);
    var after := id => AfterRecovery(t, [c], Standard, id);
    SharedPath(ident, t, path, after);
    RecoveryKeepsExclusiveExactly(ident, t, [c], Standard);
  }

  /** So can a legacy import. */
  lemma ImportCanShareAPath(ident: Identity, path: string)
    ensures var u := Store.Apply(Contested(path), Store.ImportLegacy([], [], map["b" := path]));
            Exclusive(ident, Contested(path)) && !Exclusive(ident, u)
  {
    var t := Contested(path);
    var after := id => AfterImport(t, map["b" := path], id);
    SharedPath(ident, t, path, after);
    ImportKeepsExclusiveExactly(ident, t, [], [], map["b" := path]);
  }
}
