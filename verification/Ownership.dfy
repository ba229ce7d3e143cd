/**
  The registry of output paths. A download claims a primary path, a list of owned paths
  and, for torrents, paths planned for removal. Two paths are the same when their
  platform identities are equal; `ident` is that identity.
 */
module Ownership {
  import opened Base
  import opened Documents
  import opened Downloads
  import opened Database

  type Identity = string -> string

  // ---------- What an id claims ----------

  /** An absent or empty list stands for the primary path alone. */
  function OwnedList(t: Tables, id: Id): Option<seq<string>>
    requires id in t.ownership
  {
    if id !in t.ownedPaths then Some([t.ownership[id]])
    else
      match t.ownedPaths[id]
      case BadList(_) => None
      case Paths(paths) => if paths == [] then Some([t.ownership[id]]) else Some(paths)
  }

  function RemovalList(t: Tables, id: Id): Option<seq<string>> {
    if id !in t.removalPaths then Some([])
    else
      match t.removalPaths[id]
      case BadList(_) => None
      case Paths(paths) => Some(paths)
  }

  predicate Decodable(t: Tables, id: Id)
    requires id in t.ownership
  {
    OwnedList(t, id).Some? && RemovalList(t, id).Some?
  }

  /** The paths an id claims; a list that does not decode contributes nothing. */
  function ClaimedPaths(t: Tables, id: Id): seq<string>
    requires id in t.ownership
  {
    var owned, removal := OwnedList(t, id), RemovalList(t, id);
    [t.ownership[id]] + (if owned.Some? then owned.value else []) + (if removal.Some? then removal.value else [])
  }

  predicate Same(ident: Identity, a: string, b: string) {
    ident(a) == ident(b)
  }

  predicate Overlap(ident: Identity, a: seq<string>, b: seq<string>) {
    exists i, j :: 0 <= i < |a| && 0 <= j < |b| && Same(ident, a[i], b[j])
  }

  predicate Claims(ident: Identity, t: Tables, id: Id, path: string) {
    id in t.ownership && exists i :: 0 <= i < |ClaimedPaths(t, id)| && Same(ident, ClaimedPaths(t, id)[i], path)
  }

  /** No path is claimed by two ids, and every removal reservation belongs to an owner. */
  ghost predicate Exclusive(ident: Identity, t: Tables) {
    && (forall a, b :: a in t.ownership && b in t.ownership && a != b ==> !Overlap(ident, ClaimedPaths(t, a), ClaimedPaths(t, b)))
    && t.removalPaths.Keys <= t.ownership.Keys
  }

  // ---------- The operations ----------

  function NewPaths(primary: string, paths: seq<string>, removal: seq<string>): seq<string> {
    [primary] + paths + removal
  }

  ghost predicate Free(ident: Identity, t: Tables, id: Id, paths: seq<string>) {
    forall other :: other in t.ownership && other != id ==>
      Decodable(t, other) && !Overlap(ident, paths, ClaimedPaths(t, other))
  }

  function Owning(t: Tables, id: Id, primary: string, paths: seq<string>): Tables {
    t.(ownership := t.ownership[id := primary], ownedPaths := t.ownedPaths[id := Paths(paths)])
  }

  function Reserving(t: Tables, id: Id, removal: seq<string>): Tables {
    t.(removalPaths := if removal == [] then t.removalPaths - {id} else t.removalPaths[id := Paths(removal)])
  }

  /** A release runs three deletes outside a transaction; `done` of them happened. */
  function Releasing(t: Tables, id: Id, done: nat): Tables {
    t.(removalPaths := if done >= 1 then t.removalPaths - {id} else t.removalPaths,
       ownedPaths := if done >= 2 then t.ownedPaths - {id} else t.ownedPaths,
       ownership := if done >= 3 then t.ownership - {id} else t.ownership)
  }

  /** The checked claim, inside its transaction: look at every other owner, then write. */
  method CheckClaim(t: Tables, id: Id, newPaths: seq<string>, ident: Identity, fails: Faults) returns (r: Result<(), string>)
    ensures r.Ok? ==> Free(ident, t, id, newPaths)
    ensures r.Err? && Reliable(fails) ==> !Free(ident, t, id, newPaths)
  {
    var rest, clock := t.ownership.Keys - {id}, 0;
    while rest != {}
      invariant rest <= t.ownership.Keys - {id}
      invariant forall other :: other in t.ownership && other != id && other !in rest ==>
                  Decodable(t, other) && !Overlap(ident, newPaths, ClaimedPaths(t, other))
      decreases rest
    {
      var other :| other in rest;
      rest := rest - {other};
      if fails(clock) { return Err("failed to read download ownership paths"); }
      clock := clock + 1;
      var owned, removal := OwnedList(t, other), RemovalList(t, other);
      if owned.None? { return Err("failed to decode owned paths"); }
      if removal.None? { return Err("failed to decode removal paths"); }
      if Overlap(ident, newPaths, [t.ownership[other]] + owned.value + removal.value) {
        return Err("Download destination is already owned by another Firelink download");
      }
    }
    return Ok(());
  }

  method SetOwnershipPaths(db: Connection, id: Id, primary: string, paths: seq<string>, ident: Identity, fails: Faults)
    returns (r: Result<(), string>)
    modifies db`ownership, db`ownedPaths
    ensures r.Err? ==> db.View() == old(db.View())
    ensures r.Ok? ==> Free(ident, old(db.View()), id, NewPaths(primary, paths, []))
                      && db.View() == Owning(old(db.View()), id, primary, paths)
    ensures Reliable(fails) && Free(ident, old(db.View()), id, NewPaths(primary, paths, [])) ==> r.Ok?
  {
    r := CheckClaim(db.View(), id, NewPaths(primary, paths, []), ident, fails);
    if r.Err? { return; }
    var n := |db.ownership|;
    if fails(n) || fails(n + 1) || fails(n + 2) { return Err("failed to save ownership data"); }
    db.ownership := db.ownership[id := primary];
    db.ownedPaths := db.ownedPaths[id := Paths(paths)];
  }

  method SetOwnershipAndRemovalPaths(db: Connection, id: Id, primary: string, paths: seq<string>, removal: seq<string>,
                                     ident: Identity, fails: Faults)
    returns (r: Result<(), string>)
    modifies db`ownership, db`ownedPaths, db`removalPaths
    ensures r.Err? ==> db.View() == old(db.View())
    ensures r.Ok? ==> Free(ident, old(db.View()), id, NewPaths(primary, paths, removal))
                      && db.View() == Reserving(Owning(old(db.View()), id, primary, paths), id, removal)
    ensures Reliable(fails) && Free(ident, old(db.View()), id, NewPaths(primary, paths, removal)) ==> r.Ok?
  {
    r := CheckClaim(db.View(), id, NewPaths(primary, paths, removal), ident, fails);
    if r.Err? { return; }
    var n := |db.ownership|;
    if fails(n) || fails(n + 1) || fails(n + 2) || fails(n + 3) { return Err("failed to save ownership data"); }
    db.ownership := db.ownership[id := primary];
    db.ownedPaths := db.ownedPaths[id := Paths(paths)];
    if removal == [] {
      db.removalPaths := db.removalPaths - {id};
    } else {
      db.removalPaths := db.removalPaths[id := Paths(removal)];
    }
  }

  method RemoveOwnership(db: Connection, id: Id, fails: Faults) returns (r: Result<(), string>, ghost done: nat)
    modifies db`ownership, db`ownedPaths, db`removalPaths
    ensures done <= 3 && db.View() == Releasing(old(db.View()), id, done)
    ensures r.Ok? <==> done == 3
    ensures Reliable(fails) ==> r.Ok?
  {
    if fails(0) { return Err("failed to delete torrent removal paths"), 0; }
    db.removalPaths := db.removalPaths - {id};
    if fails(1) { return Err("failed to delete download ownership paths"), 1; }
    db.ownedPaths := db.ownedPaths - {id};
    if fails(2) { return Err("failed to delete ownership data"), 2; }
    db.ownership := db.ownership - {id};
    return Ok(()), 3;
  }

  method RemoveTorrentRemovalPaths(db: Connection, id: Id, fails: Faults) returns (r: Result<(), string>)
    modifies db`removalPaths
    ensures db.View() == if r.Ok? then Reserving(old(db.View()), id, []) else old(db.View())
    ensures Reliable(fails) ==> r.Ok?
  {
    if fails(0) { return Err("failed to clear torrent removal paths"); }
    db.removalPaths := db.removalPaths - {id};
    return Ok(());
  }

  // ---------- Reclaiming reservations after a restart ----------

  /** What the file system says: which paths are absolute without dot components, and which are gone. */
  datatype Disk = Disk(plain: string -> bool, absent: string -> bool)

  predicate Terminal(status: string) {
    status == "failed" || status == "completed"
  }

  /** A reservation goes only when its download ended and every reserved path is gone. */
  predicate Reclaimable(t: Tables, disk: Disk, id: Id) {
    && id in t.removalPaths
    && AllGone(t.removalPaths[id], disk)
    && match Find(t.downloads, id)
       case None => false
       case Some(k) => Terminal(t.downloads[k].status)
  }

  predicate AllGone(reservation: PathList, disk: Disk) {
    && reservation.Paths? && reservation.paths != []
    && forall k :: 0 <= k < |reservation.paths| ==> disk.plain(reservation.paths[k]) && disk.absent(reservation.paths[k])
  }

  function Reclaimed(t: Tables, ids: set<Id>): Tables {
    t.(removalPaths := t.removalPaths - ids)
  }

  function ReclaimableIds(t: Tables, disk: Disk): set<Id> {
    set id | id in t.removalPaths && Reclaimable(t, disk, id)
  }

  method CollectReclaimable(t: Tables, disk: Disk) returns (ids: set<Id>)
    ensures ids == ReclaimableIds(t, disk)
  {
    ids := {};
    var rest := t.removalPaths.Keys;
    while rest != {}
      invariant rest <= t.removalPaths.Keys
      invariant forall id :: id in ids <==> id in t.removalPaths.Keys - rest && Reclaimable(t, disk, id)
      decreases rest
    {
      var id :| id in rest;
      rest := rest - {id};
      if Reclaimable(t, disk, id) {
        ids := ids + {id};
      }
    }
  }

  method DeleteReservations(db: Connection, ids: set<Id>, fails: Faults) returns (r: Result<nat, string>, ghost gone: set<Id>)
    modifies db`removalPaths
    ensures gone <= ids && db.removalPaths == old(db.removalPaths) - gone
    ensures r.Ok? ==> gone == ids && r.value == |gone|
    ensures Reliable(fails) ==> r.Ok?
  {
    gone := {};
    var rest, reclaimed, clock := ids, 0, 1;
    while rest != {}
      invariant rest <= ids && gone == ids - rest && reclaimed == |gone|
      invariant db.removalPaths == old(db.removalPaths) - gone
      decreases rest
    {
      var id :| id in rest;
      if fails(clock) { return Err("failed to reclaim torrent removal paths"), gone; }
      clock := clock + 1;
      rest := rest - {id};
      gone := gone + {id};
      db.removalPaths := db.removalPaths - {id};
      reclaimed := reclaimed + 1;
    }
    return Ok(reclaimed), gone;
  }

  method ReconcileRemovalPaths(db: Connection, disk: Disk, fails: Faults) returns (r: Result<nat, string>, ghost gone: set<Id>)
    modifies db`removalPaths
    ensures gone <= ReclaimableIds(old(db.View()), disk) && db.View() == Reclaimed(old(db.View()), gone)
    ensures r.Ok? ==> gone == ReclaimableIds(old(db.View()), disk) && r.value == |gone|
    ensures Reliable(fails) ==> r.Ok?
  {
    if fails(0) {
      assert db.removalPaths - {} == db.removalPaths;
      return Err("failed to query torrent removal recovery data"), {};
    }
    var reclaim := CollectReclaimable(db.View(), disk);
    r, gone := DeleteReservations(db, reclaim, fails);
  }

  // ---------- Who owns a path ----------

  datatype OwnerError = Undecodable | MultipleOwners

  /** Every id with any record naming the path. */
  ghost predicate Names(ident: Identity, t: Tables, legacy: seq<(Id, string)>, id: Id, path: string) {
    || (id in t.ownership && Same(ident, t.ownership[id], path))
    || (id in t.ownership && OwnedList(t, id).Some? && Overlap(ident, OwnedList(t, id).value, [path]))
    || (id in t.removalPaths && RemovalList(t, id).Some? && Overlap(ident, RemovalList(t, id).value, [path]))
    || (exists k :: 0 <= k < |legacy| && legacy[k].0 == id && Same(ident, legacy[k].1, path))
  }

  ghost predicate NamedOnlyBy(ident: Identity, t: Tables, legacy: seq<(Id, string)>, id: Id, path: string) {
    Names(ident, t, legacy, id, path) && forall other :: Names(ident, t, legacy, other, path) ==> other == id
  }

  ghost predicate AllDecode(t: Tables) {
    && (forall id :: id in t.ownership ==> OwnedList(t, id).Some?)
    && (forall id :: id in t.removalPaths ==> RemovalList(t, id).Some?)
  }

  method OwnerForPath(t: Tables, legacy: seq<(Id, string)>, path: string, ident: Identity)
    returns (r: Result<Option<Id>, OwnerError>)
    ensures r == Err(Undecodable) <==> !AllDecode(t)
    ensures r == Ok(None) <==> AllDecode(t) && forall id :: !Names(ident, t, legacy, id, path)
    ensures forall id :: r == Ok(Some(id)) <==> AllDecode(t) && NamedOnlyBy(ident, t, legacy, id, path)
  {
    if (exists id :: id in t.ownership && OwnedList(t, id).None?) || (exists id :: id in t.removalPaths && RemovalList(t, id).None?) {
      return Err(Undecodable);
    }
    var owners: seq<Id> := [];
    var rest := t.ownership.Keys;
    while rest != {}
      invariant rest <= t.ownership.Keys
      invariant Distinct(owners)
      invariant forall id :: id in owners <==>
                  (id in t.ownership.Keys - rest
                   && (Same(ident, t.ownership[id], path) || Overlap(ident, OwnedList(t, id).value, [path])))
      decreases rest
    {
      var id :| id in rest;
      rest := rest - {id};
      if Same(ident, t.ownership[id], path) || Overlap(ident, OwnedList(t, id).value, [path]) {
        owners := owners + [id];
      }
    }
    owners := CollectRemoval(t, path, ident, owners);
    owners := CollectLegacy(legacy, path, ident, owners);
    assert forall id :: id in owners <==> Names(ident, t, legacy, id, path);
    if |owners| == 0 {
      return Ok(None);
    } else if |owners| == 1 {
      assert owners == [owners[0]];
      assert owners[0] in owners;
      return Ok(Some(owners[0]));
    } else {
      assert owners[0] in owners && owners[1] in owners && owners[0] != owners[1];
      return Err(MultipleOwners);
    }
  }

  method CollectRemoval(t: Tables, path: string, ident: Identity, owners: seq<Id>) returns (all: seq<Id>)
    requires Distinct(owners) && forall id :: id in t.removalPaths ==> RemovalList(t, id).Some?
    ensures Distinct(all)
    ensures forall id :: id in all <==> id in owners || (id in t.removalPaths && Overlap(ident, RemovalList(t, id).value, [path]))
  {
    all := owners;
    var rest := t.removalPaths.Keys;
    while rest != {}
      invariant rest <= t.removalPaths.Keys && Distinct(all)
      invariant forall id :: id in all <==>
                  id in owners || (id in t.removalPaths.Keys - rest && Overlap(ident, RemovalList(t, id).value, [path]))
      decreases rest
    {
      var id :| id in rest;
      rest := rest - {id};
      if Overlap(ident, RemovalList(t, id).value, [path]) && id !in all {
        all := all + [id];
      }
    }
  }

  method CollectLegacy(legacy: seq<(Id, string)>, path: string, ident: Identity, owners: seq<Id>) returns (all: seq<Id>)
    requires Distinct(owners)
    ensures Distinct(all)
    ensures forall id :: id in all <==>
              id in owners || (exists k :: 0 <= k < |legacy| && legacy[k].0 == id && Same(ident, legacy[k].1, path))
  {
    all := owners;
    for i := 0 to |legacy|
      invariant Distinct(all)
      invariant forall id :: id in all <==>
                  id in owners || (exists k :: 0 <= k < i && legacy[k].0 == id && Same(ident, legacy[k].1, path))
    {
      if Same(ident, legacy[i].1, path) && legacy[i].0 !in all {
        all := all + [legacy[i].0];
      }
    }
  }
}
