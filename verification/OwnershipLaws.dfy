/** Path exclusivity over every sequence of ownership operations, and what the lookup then returns. */
module OwnershipLaws {
  import opened Base
  import opened Documents
  import opened Downloads
  import opened Database
  import opened Ownership

  /**
    One operation of the ownership interface with the faults that struck it folded in:
    a claim may fail outright, a release may stop part-way, and a reconciliation may
    reclaim only some of what it could.
   */
  datatype Op =
    | Claim(id: Id, primary: string, paths: seq<string>)
    | ClaimWithRemoval(id: Id, primary: string, paths: seq<string>, removal: seq<string>)
    | Release(id: Id, done: nat)
    | ClearRemoval(id: Id)
    | Reconcile(gone: set<Id>)
    | Failed

  ghost function Apply(ident: Identity, t: Tables, op: Op): Tables {
    match op
    case Claim(id, primary, paths) =>
      if Free(ident, t, id, NewPaths(primary, paths, [])) then Owning(t, id, primary, paths) else t
    case ClaimWithRemoval(id, primary, paths, removal) =>
      if Free(ident, t, id, NewPaths(primary, paths, removal)) then Reserving(Owning(t, id, primary, paths), id, removal) else t
    case Release(id, done) => Releasing(t, id, done)
    case ClearRemoval(id) => Reserving(t, id, [])
    case Reconcile(gone) => Reclaimed(t, gone)
    case Failed => t
  }

  ghost function Run(ident: Identity, t: Tables, ops: seq<Op>): Tables {
    if ops == [] then t else Apply(ident, Run(ident, t, Front(ops)), Last(ops))
  }

  predicate Within(a: seq<string>, b: seq<string>) {
    forall i :: 0 <= i < |a| ==> a[i] in b
  }

  lemma OverlapWithin(ident: Identity, a: seq<string>, b: seq<string>, a': seq<string>, b': seq<string>)
    requires Within(a, a') && Within(b, b') && Overlap(ident, a, b)
    ensures Overlap(ident, a', b')
  {
    var i, j :| 0 <= i < |a| && 0 <= j < |b| && Same(ident, a[i], b[j]);
    var i' :| 0 <= i' < |a'| && a'[i'] == a[i];
    var j' :| 0 <= j' < |b'| && b'[j'] == b[j];
    assert Same(ident, a'[i'], b'[j']);
  }

  lemma OverlapSymmetric(ident: Identity, a: seq<string>, b: seq<string>)
    ensures Overlap(ident, a, b) == Overlap(ident, b, a)
  {
    if Overlap(ident, a, b) {
      var i, j :| 0 <= i < |a| && 0 <= j < |b| && Same(ident, a[i], b[j]);
      assert Same(ident, b[j], a[i]);
    }
    if Overlap(ident, b, a) {
      var i, j :| 0 <= i < |b| && 0 <= j < |a| && Same(ident, b[i], a[j]);
      assert Same(ident, a[j], b[i]);
    }
  }

  lemma OverlapSplit(ident: Identity, a: seq<string>, a': seq<string>, b: seq<string>)
    ensures Overlap(ident, a + a', b) <==> Overlap(ident, a, b) || Overlap(ident, a', b)
  {
    var c := a + a';
    if Overlap(ident, c, b) {
      var i, j :| 0 <= i < |c| && 0 <= j < |b| && Same(ident, c[i], b[j]);
      if i < |a| {
        assert Same(ident, a[i], b[j]);
      } else {
        assert Same(ident, a'[i - |a|], b[j]);
      }
    }
    if Overlap(ident, a, b) {
      var i, j :| 0 <= i < |a| && 0 <= j < |b| && Same(ident, a[i], b[j]);
      assert Same(ident, c[i], b[j]);
    }
    if Overlap(ident, a', b) {
      var i, j :| 0 <= i < |a'| && 0 <= j < |b| && Same(ident, a'[i], b[j]);
      assert Same(ident, c[|a| + i], b[j]);
    }
  }

  /** If every id's claims after a step come from its claims before, the step keeps exclusivity. */
  lemma ShrinkKeepsExclusive(ident: Identity, t: Tables, u: Tables)
    requires Exclusive(ident, t)
    requires u.ownership.Keys <= t.ownership.Keys && u.removalPaths.Keys <= u.ownership.Keys
    requires forall id :: id in u.ownership ==> Within(ClaimedPaths(u, id), ClaimedPaths(t, id))
    ensures Exclusive(ident, u)
  {
    forall a, b | a in u.ownership && b in u.ownership && a != b ensures !Overlap(ident, ClaimedPaths(u, a), ClaimedPaths(u, b)) {
      if Overlap(ident, ClaimedPaths(u, a), ClaimedPaths(u, b)) {
        OverlapWithin(ident, ClaimedPaths(u, a), ClaimedPaths(u, b), ClaimedPaths(t, a), ClaimedPaths(t, b));
      }
    }
  }

  /** If one id's new claims meet no other id's, and the others keep theirs, exclusivity holds. */
  lemma GrowKeepsExclusive(ident: Identity, t: Tables, u: Tables, id: Id)
    requires Exclusive(ident, t)
    requires id in u.ownership && u.ownership.Keys == t.ownership.Keys + {id}
    requires u.removalPaths.Keys <= u.ownership.Keys
    requires forall other :: other in t.ownership && other != id ==> ClaimedPaths(u, other) == ClaimedPaths(t, other)
    requires forall other :: other in t.ownership && other != id ==> !Overlap(ident, ClaimedPaths(u, id), ClaimedPaths(t, other))
    ensures Exclusive(ident, u)
  {
    forall a, b | a in u.ownership && b in u.ownership && a != b ensures !Overlap(ident, ClaimedPaths(u, a), ClaimedPaths(u, b)) {
      OverlapSymmetric(ident, ClaimedPaths(u, a), ClaimedPaths(u, b));
    }
  }

  /** The claims an id holds after a successful claim: the new paths and any reservation it kept. */
  lemma OwningClaims(t: Tables, id: Id, primary: string, paths: seq<string>)
    ensures var u := Owning(t, id, primary, paths);
            && Within(ClaimedPaths(u, id), NewPaths(primary, paths, []) + (if RemovalList(t, id).Some? then RemovalList(t, id).value else []))
            && forall other :: other in t.ownership && other != id ==> ClaimedPaths(u, other) == ClaimedPaths(t, other)
  {
  }

  lemma ClaimKeepsExclusive(ident: Identity, t: Tables, id: Id, primary: string, paths: seq<string>)
    requires Exclusive(ident, t) && Free(ident, t, id, NewPaths(primary, paths, []))
    ensures Exclusive(ident, Owning(t, id, primary, paths))
  {
    var u := Owning(t, id, primary, paths);
    var kept := if RemovalList(t, id).Some? then RemovalList(t, id).value else [];
    OwningClaims(t, id, primary, paths);
    forall other | other in t.ownership && other != id ensures !Overlap(ident, ClaimedPaths(u, id), ClaimedPaths(t, other)) {
      var claimed := NewPaths(primary, paths, []);
      OverlapSplit(ident, claimed, kept, ClaimedPaths(t, other));
      assert Within(ClaimedPaths(t, other), ClaimedPaths(t, other));
      if id in t.removalPaths && Overlap(ident, kept, ClaimedPaths(t, other)) {
        assert Within(kept, ClaimedPaths(t, id));
        OverlapWithin(ident, kept, ClaimedPaths(t, other), ClaimedPaths(t, id), ClaimedPaths(t, other));
      }
      if Overlap(ident, ClaimedPaths(u, id), ClaimedPaths(t, other)) {
        OverlapWithin(ident, ClaimedPaths(u, id), ClaimedPaths(t, other), claimed + kept, ClaimedPaths(t, other));
      }
    }
    GrowKeepsExclusive(ident, t, u, id);
  }

  lemma ClaimWithRemovalKeepsExclusive(ident: Identity, t: Tables, id: Id, primary: string, paths: seq<string>, removal: seq<string>)
    requires Exclusive(ident, t) && Free(ident, t, id, NewPaths(primary, paths, removal))
    ensures Exclusive(ident, Reserving(Owning(t, id, primary, paths), id, removal))
  {
    var u := Reserving(Owning(t, id, primary, paths), id, removal);
    var claimed := NewPaths(primary, paths, removal);
    assert Within(ClaimedPaths(u, id), claimed);
    forall other | other in t.ownership && other != id
      ensures ClaimedPaths(u, other) == ClaimedPaths(t, other)
      ensures !Overlap(ident, ClaimedPaths(u, id), ClaimedPaths(t, other))
    {
      assert Within(ClaimedPaths(t, other), ClaimedPaths(t, other));
      if Overlap(ident, ClaimedPaths(u, id), ClaimedPaths(t, other)) {
        OverlapWithin(ident, ClaimedPaths(u, id), ClaimedPaths(t, other), claimed, ClaimedPaths(t, other));
      }
    }
    GrowKeepsExclusive(ident, t, u, id);
  }

  /** However far a release got, what an owner still claims it claimed before. */
  lemma ReleasedClaims(t: Tables, id: Id, done: nat, other: Id)
    requires other in Releasing(t, id, done).ownership
    ensures Within(ClaimedPaths(Releasing(t, id, done), other), ClaimedPaths(t, other))
  {
    var u := Releasing(t, id, done);
    if other != id {
      assert ClaimedPaths(u, other) == ClaimedPaths(t, other);
    } else {
      var removal := if RemovalList(t, id).Some? then RemovalList(t, id).value else [];
      var owned := if OwnedList(t, id).Some? then OwnedList(t, id).value else [];
      assert ClaimedPaths(t, id) == [t.ownership[id]] + owned + removal;
      var removal' := if RemovalList(u, id).Some? then RemovalList(u, id).value else [];
      var owned' := if OwnedList(u, id).Some? then OwnedList(u, id).value else [];
      assert removal' == [] || removal' == removal;
      assert owned' == [t.ownership[id]] || owned' == owned;
    }
  }

  lemma ReleaseKeepsExclusive(ident: Identity, t: Tables, id: Id, done: nat)
    requires Exclusive(ident, t)
    ensures Exclusive(ident, Releasing(t, id, done))
  {
    forall other | other in Releasing(t, id, done).ownership
      ensures Within(ClaimedPaths(Releasing(t, id, done), other), ClaimedPaths(t, other))
    {
      ReleasedClaims(t, id, done, other);
    }
    ShrinkKeepsExclusive(ident, t, Releasing(t, id, done));
  }

  lemma ReclaimKeepsExclusive(ident: Identity, t: Tables, gone: set<Id>)
    requires Exclusive(ident, t)
    ensures Exclusive(ident, Reclaimed(t, gone))
  {
    ShrinkKeepsExclusive(ident, t, Reclaimed(t, gone));
  }

  lemma ApplyKeepsExclusive(ident: Identity, t: Tables, op: Op)
    requires Exclusive(ident, t)
    ensures Exclusive(ident, Apply(ident, t, op))
  {
    match op
    case Claim(id, primary, paths) =>
      if Free(ident, t, id, NewPaths(primary, paths, [])) { ClaimKeepsExclusive(ident, t, id, primary, paths); }
    case ClaimWithRemoval(id, primary, paths, removal) =>
      if Free(ident, t, id, NewPaths(primary, paths, removal)) { ClaimWithRemovalKeepsExclusive(ident, t, id, primary, paths, removal); }
    case Release(id, done) => ReleaseKeepsExclusive(ident, t, id, done);
    case ClearRemoval(id) => ReleaseKeepsExclusive(ident, t, id, 1);
    case Reconcile(gone) => ReclaimKeepsExclusive(ident, t, gone);
    case Failed =>
  }

  /** Every sequence of ownership operations, failing or not, keeps the claims of distinct ids disjoint. */
  lemma {:induction false} ExclusiveInEveryRun(ident: Identity, t: Tables, ops: seq<Op>)
    requires Exclusive(ident, t)
    ensures Exclusive(ident, Run(ident, t, ops))
  {
    if ops != [] {
      ExclusiveInEveryRun(ident, t, Front(ops));
      ApplyKeepsExclusive(ident, Run(ident, t, Front(ops)), Last(ops));
    }
  }

  // ---------- An undecodable list ----------

  /** The steps that may rewrite or delete a list of the id. */
  predicate Touches(op: Op, id: Id) {
    match op
    case Claim(other, _, _) => other == id
    case ClaimWithRemoval(other, _, _, _) => other == id
    case Release(other, _) => other == id
    case ClearRemoval(other) => other == id
    case Reconcile(gone) => id in gone
    case Failed => false
  }

  predicate Blocked(t: Tables, id: Id) {
    id in t.ownership && !Decodable(t, id)
  }

  /** The second map holds nothing but what the first one held, leaving `id` aside. */
  ghost predicate OnlyLost<V>(before: map<Id, V>, after: map<Id, V>, id: Id) {
    forall other :: other in after && other != id ==> other in before && after[other] == before[other]
  }

  ghost predicate NothingClaimed(t: Tables, u: Tables, id: Id) {
    && OnlyLost(t.ownership, u.ownership, id) && OnlyLost(t.ownedPaths, u.ownedPaths, id)
    && OnlyLost(t.removalPaths, u.removalPaths, id)
  }

  lemma BlockedStep(ident: Identity, t: Tables, op: Op, id: Id)
    requires Blocked(t, id) && !Touches(op, id)
    ensures Blocked(Apply(ident, t, op), id) && NothingClaimed(t, Apply(ident, t, op), id)
  {
  }

  /**
    One undecodable list blocks every claim of every other id until a step touches that list:
    over any run the entries of the others only go away.
   */
  lemma {:induction false} MalformedListBlocksClaims(ident: Identity, t: Tables, ops: seq<Op>, id: Id)
    requires Blocked(t, id) && forall k :: 0 <= k < |ops| ==> !Touches(ops[k], id)
    ensures Blocked(Run(ident, t, ops), id) && NothingClaimed(t, Run(ident, t, ops), id)
  {
    if ops != [] {
      MalformedListBlocksClaims(ident, t, Front(ops), id);
      assert !Touches(ops[|ops| - 1], id);
      BlockedStep(ident, Run(ident, t, Front(ops)), Last(ops), id);
    }
  }

  // ---------- What a claim is worth ----------

  predicate ClaimOp(op: Op) {
    op.Claim? || op.ClaimWithRemoval?
  }

  function PathsOf(op: Op): seq<string>
    requires ClaimOp(op)
  {
    match op
    case Claim(_, primary, paths) => [primary] + paths
    case ClaimWithRemoval(_, primary, paths, removal) => [primary] + paths + removal
  }

  ghost predicate SharesPath(ident: Identity, a: seq<string>, b: seq<string>) {
    exists p, q :: p in a && q in b && ident(p) == ident(q)
  }

  lemma SharesExactly(ident: Identity, a: seq<string>, b: seq<string>)
    ensures SharesPath(ident, a, b) <==> Overlap(ident, a, b)
  {
    if p, q :| p in a && q in b && ident(p) == ident(q) {
      var i :| 0 <= i < |a| && a[i] == p;
      var j :| 0 <= j < |b| && b[j] == q;
      assert Same(ident, a[i], b[j]);
    }
    if Overlap(ident, a, b) {
      var i, j :| 0 <= i < |a| && 0 <= j < |b| && Same(ident, a[i], b[j]);
      assert a[i] in a && b[j] in b;
    }
  }

  /** Another id stands in the way of a claim: a list of it does not decode, or it claims one of the paths. */
  ghost predicate Obstructs(ident: Identity, t: Tables, op: Op, other: Id)
    requires ClaimOp(op)
  {
    other in t.ownership && other != op.id && (!Decodable(t, other) || SharesPath(ident, PathsOf(op), ClaimedPaths(t, other)))
  }

  /** A claim takes effect exactly when nobody stands in its way. */
  lemma ClaimedExactly(ident: Identity, t: Tables, op: Op, path: string)
    requires ClaimOp(op) && path in PathsOf(op)
    ensures (forall other :: !Obstructs(ident, t, op, other)) ==>
              op.id in Apply(ident, t, op).ownership && Claims(ident, Apply(ident, t, op), op.id, path)
    ensures (exists other :: Obstructs(ident, t, op, other)) ==> Apply(ident, t, op) == t
  {
    var mine := PathsOf(op);
    assert mine == NewPaths(op.primary, op.paths, if op.Claim? then [] else op.removal);
    forall other | other in t.ownership && other != op.id
      ensures Obstructs(ident, t, op, other) <==> !Decodable(t, other) || Overlap(ident, mine, ClaimedPaths(t, other))
    {
      SharesExactly(ident, mine, ClaimedPaths(t, other));
    }
    if Free(ident, t, op.id, mine) {
      TakesHold(ident, t, op, path);
    }
  }

  lemma ListedIsClaimed(ident: Identity, t: Tables, id: Id, path: string)
    requires id in t.ownership && path in ClaimedPaths(t, id)
    ensures Claims(ident, t, id, path)
  {
    var i :| 0 <= i < |ClaimedPaths(t, id)| && ClaimedPaths(t, id)[i] == path;
    assert Same(ident, ClaimedPaths(t, id)[i], path);
  }

  /** Every path of a claim that took effect is claimed, owned and reserved ones alike. */
  lemma TakesHold(ident: Identity, t: Tables, op: Op, path: string)
    requires ClaimOp(op) && path in PathsOf(op)
    requires Free(ident, t, op.id, PathsOf(op))
    ensures op.id in Apply(ident, t, op).ownership && Claims(ident, Apply(ident, t, op), op.id, path)
  {
    var u := Apply(ident, t, op);
    assert PathsOf(op) == NewPaths(op.primary, op.paths, if op.Claim? then [] else op.removal);
    assert path in ClaimedPaths(u, op.id) by {
      assert op.primary == ClaimedPaths(u, op.id)[0];
      assert forall p :: p in op.paths ==> OwnedList(u, op.id) == Some(op.paths);
    }
    ListedIsClaimed(ident, u, op.id, path);
  }

  lemma UntouchedStep(ident: Identity, t: Tables, op: Op, id: Id)
    requires id in t.ownership && !Touches(op, id)
    ensures id in Apply(ident, t, op).ownership && ClaimedPaths(Apply(ident, t, op), id) == ClaimedPaths(t, id)
  {
  }

  /** A claimed path stays claimed over every run that does not touch its owner, and no other id's claim to it takes effect. */
  lemma {:induction false} ClaimHolds(ident: Identity, t: Tables, ops: seq<Op>, id: Id, path: string, rival: Op, theirs: string)
    requires Claims(ident, t, id, path) && forall k :: 0 <= k < |ops| ==> !Touches(ops[k], id)
    requires ClaimOp(rival) && rival.id != id && theirs in PathsOf(rival) && ident(theirs) == ident(path)
    ensures var u := Run(ident, t, ops);
            Claims(ident, u, id, path) && ClaimedPaths(u, id) == ClaimedPaths(t, id) && Apply(ident, u, rival) == u
  {
    if ops != [] {
      ClaimHolds(ident, t, Front(ops), id, path, rival, theirs);
      assert !Touches(ops[|ops| - 1], id);
      UntouchedStep(ident, Run(ident, t, Front(ops)), Last(ops), id);
    }
    var u := Run(ident, t, ops);
    var i :| 0 <= i < |ClaimedPaths(u, id)| && Same(ident, ClaimedPaths(u, id)[i], path);
    ClaimedExactly(ident, u, rival, theirs);
    assert ClaimedPaths(u, id)[i] in ClaimedPaths(u, id) && ident(theirs) == ident(ClaimedPaths(u, id)[i]);
    assert Obstructs(ident, u, rival, id);
  }

  /** A release that ran to its end leaves the id no claim and every other id its own. */
  lemma ReleaseEnds(ident: Identity, t: Tables, id: Id, path: string)
    ensures var u := Apply(ident, t, Release(id, 3));
            && !Claims(ident, u, id, path) && id !in u.ownedPaths && id !in u.removalPaths
            && u.ownership == t.ownership - {id} && u.ownedPaths == t.ownedPaths - {id} && u.removalPaths == t.removalPaths - {id}
  {
  }

  // ---------- Reservations after a restart ----------

  /** Why a reservation stays: its list is unreadable or empty, a path is not plain or still exists, or its download did not end. */
  ghost predicate MustStay(t: Tables, disk: Disk, id: Id) {
    || (id in t.removalPaths && t.removalPaths[id].BadList?)
    || (id in t.removalPaths && t.removalPaths[id] == Paths([]))
    || (id in t.removalPaths && t.removalPaths[id].Paths?
        && exists path :: path in t.removalPaths[id].paths && !(disk.plain(path) && disk.absent(path)))
    || !HasRow(t.downloads, id)
    || (exists row :: row in t.downloads && row.id == id && row.status != "failed" && row.status != "completed")
  }

  /** Exactly the reservations without any reason to stay are given up. */
  lemma ReclaimedExactly(t: Tables, disk: Disk, id: Id)
    requires UniqueIds(t.downloads)
    ensures id in ReclaimableIds(t, disk) <==> id in t.removalPaths && !MustStay(t, disk, id)
  {
    if HasRow(t.downloads, id) {
      var k := Find(t.downloads, id).value;
      forall row | row in t.downloads && row.id == id ensures row == t.downloads[k] {
        var j :| 0 <= j < |t.downloads| && t.downloads[j] == row;
        FindUnique(t.downloads, j);
      }
    }
  }

  /** A record of the id holds this path: its primary path, an owned or reserved one, or a row of an old queue file. */
  predicate Recorded(t: Tables, legacy: seq<(Id, string)>, id: Id, p: string) {
    || (id in t.ownership && t.ownership[id] == p)
    || (id in t.ownership && id in t.ownedPaths && t.ownedPaths[id].Paths? && p in t.ownedPaths[id].paths)
    || (id in t.removalPaths && t.removalPaths[id].Paths? && p in t.removalPaths[id].paths)
    || (id, p) in legacy
  }

  ghost predicate RecordedSame(ident: Identity, t: Tables, legacy: seq<(Id, string)>, id: Id, path: string) {
    exists p :: Recorded(t, legacy, id, p) && ident(p) == ident(path)
  }

  lemma OverlapsOne(ident: Identity, paths: seq<string>, path: string)
    ensures Overlap(ident, paths, [path]) <==> exists p :: p in paths && ident(p) == ident(path)
  {
    SharesExactly(ident, paths, [path]);
    if p :| p in paths && ident(p) == ident(path) {
      assert path in [path];
    }
  }

  lemma RecordNames(ident: Identity, t: Tables, legacy: seq<(Id, string)>, id: Id, p: string, path: string)
    requires Recorded(t, legacy, id, p) && ident(p) == ident(path)
    ensures Names(ident, t, legacy, id, path)
  {
    if (id, p) in legacy {
      var k :| 0 <= k < |legacy| && legacy[k] == (id, p);
      assert Same(ident, legacy[k].1, path);
    } else if id in t.ownership && id in t.ownedPaths && t.ownedPaths[id].Paths? && p in t.ownedPaths[id].paths {
      OverlapsOne(ident, t.ownedPaths[id].paths, path);
    } else if id in t.removalPaths && t.removalPaths[id].Paths? && p in t.removalPaths[id].paths {
      OverlapsOne(ident, t.removalPaths[id].paths, path);
    }
  }

  lemma NamedRecord(ident: Identity, t: Tables, legacy: seq<(Id, string)>, id: Id, path: string)
    requires Names(ident, t, legacy, id, path)
    ensures RecordedSame(ident, t, legacy, id, path)
  {
    if id in t.ownership && Same(ident, t.ownership[id], path) {
      assert Recorded(t, legacy, id, t.ownership[id]);
    } else if id in t.ownership && OwnedList(t, id).Some? && Overlap(ident, OwnedList(t, id).value, [path]) {
      OverlapsOne(ident, OwnedList(t, id).value, path);
      var p :| p in OwnedList(t, id).value && ident(p) == ident(path);
      assert Recorded(t, legacy, id, p);
    } else if id in t.removalPaths && RemovalList(t, id).Some? && Overlap(ident, RemovalList(t, id).value, [path]) {
      OverlapsOne(ident, RemovalList(t, id).value, path);
      var p :| p in RemovalList(t, id).value && ident(p) == ident(path);
      assert Recorded(t, legacy, id, p);
    } else {
      var k :| 0 <= k < |legacy| && legacy[k].0 == id && Same(ident, legacy[k].1, path);
      assert legacy[k] == (id, legacy[k].1) && Recorded(t, legacy, id, legacy[k].1);
    }
  }

  /** The lookup asks exactly for the ids with a record of the path. */
  lemma NamesExactly(ident: Identity, t: Tables, legacy: seq<(Id, string)>, id: Id, path: string)
    ensures Names(ident, t, legacy, id, path) <==> RecordedSame(ident, t, legacy, id, path)
  {
    if Names(ident, t, legacy, id, path) {
      NamedRecord(ident, t, legacy, id, path);
    }
    if p :| Recorded(t, legacy, id, p) && ident(p) == ident(path) {
      RecordNames(ident, t, legacy, id, p, path);
    }
  }

  /** Without legacy rows, the records that name a path are exactly those of the ids claiming it. */
  lemma NamesAreClaims(ident: Identity, t: Tables, id: Id, path: string)
    requires AllDecode(t) && t.removalPaths.Keys <= t.ownership.Keys
    ensures Names(ident, t, [], id, path) <==> Claims(ident, t, id, path)
  {
    if id in t.ownership {
      var owned, removal := OwnedList(t, id).value, RemovalList(t, id).value;
      var claimed := ClaimedPaths(t, id);
      assert claimed == [t.ownership[id]] + owned + removal;
      OverlapSplit(ident, [t.ownership[id]] + owned, removal, [path]);
      OverlapSplit(ident, [t.ownership[id]], owned, [path]);
      OneTarget(ident, claimed, path);
      OneTarget(ident, [t.ownership[id]], path);
      assert [t.ownership[id]][0] == t.ownership[id];
      assert id !in t.removalPaths ==> removal == [];
    }
  }

  lemma OneTarget(ident: Identity, paths: seq<string>, path: string)
    ensures Overlap(ident, paths, [path]) <==> exists i :: 0 <= i < |paths| && Same(ident, paths[i], path)
  {
    if i :| 0 <= i < |paths| && Same(ident, paths[i], path) {
      assert Same(ident, paths[i], [path][0]);
    }
  }

  lemma SharedPathOverlaps(ident: Identity, t: Tables, a: Id, b: Id, path: string)
    requires Claims(ident, t, a, path) && Claims(ident, t, b, path)
    ensures Overlap(ident, ClaimedPaths(t, a), ClaimedPaths(t, b))
  {
    var i :| 0 <= i < |ClaimedPaths(t, a)| && Same(ident, ClaimedPaths(t, a)[i], path);
    var j :| 0 <= j < |ClaimedPaths(t, b)| && Same(ident, ClaimedPaths(t, b)[j], path);
    assert Same(ident, ClaimedPaths(t, a)[i], ClaimedPaths(t, b)[j]);
  }

  /** Under exclusivity at most one id claims a path. */
  lemma SoleClaimant(ident: Identity, t: Tables, a: Id, b: Id, path: string)
    requires Exclusive(ident, t) && Claims(ident, t, a, path) && Claims(ident, t, b, path)
    ensures a == b
  {
    SharedPathOverlaps(ident, t, a, b, path);
  }

  /**
    The lookup on tables reached by ownership operations: it names the id exactly when
    that id claims the path, and never finds several owners.
   */
  method LookupAfterAnyRun(ident: Identity, start: Tables, ghost ops: seq<Op>, t: Tables, path: string)
    returns (r: Result<Option<Id>, OwnerError>)
    requires Exclusive(ident, start) && t == Run(ident, start, ops) && AllDecode(t)
    ensures r.Ok?
    ensures forall id :: r == Ok(Some(id)) <==> Claims(ident, t, id, path)
    ensures r == Ok(None) <==> forall id :: !Claims(ident, t, id, path)
  {
    ExclusiveInEveryRun(ident, start, ops);
    forall id ensures Names(ident, t, [], id, path) <==> Claims(ident, t, id, path) {
      NamesAreClaims(ident, t, id, path);
    }
    r := OwnerForPath(t, [], path, ident);
    if id :| Claims(ident, t, id, path) {
      forall other | Claims(ident, t, other, path) ensures other == id {
        SoleClaimant(ident, t, id, other, path);
      }
      assert r == Ok(Some(id));
    }
  }
}
