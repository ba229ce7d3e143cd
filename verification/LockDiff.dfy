/**
  The comparison of two Cargo lock graphs: per package name and source, the versions both
  graphs have cancel out, and the remaining ones are paired into changes. Sorting is any
  rearrangement.
 */
module LockDiff {
  import opened Base

  const NUL: char := 0 as char
  const PATH_SOURCE := "path"

  datatype Listed = Listed(name: string, version: string, source: Option<string>)

  datatype Metadata = NoPackageList | Packages(packages: seq<Listed>)

  datatype Package = Package(name: string, version: string, source: string)

  datatype Group = Group(name: string, source: string, current: seq<string>, updated: seq<string>)

  datatype Change = Change(name: string, version: Option<string>, latest: Option<string>, source: string)

  type Sorter<!T> = seq<T> -> seq<T>

  ghost predicate Rearranges<T(!new)>(sort: Sorter<T>) {
    forall s: seq<T> :: multiset(sort(s)) == multiset(s)
  }

  function Key(name: string, source: string): string {
    name + [NUL] + source
  }

  /** A missing or empty source is the local path. */
  function ToPackage(listed: Listed): Package {
    Package(listed.name, listed.version,
      if listed.source.Some? && listed.source.value != "" then listed.source.value else PATH_SOURCE)
  }

  function ToPackages(listed: seq<Listed>): (r: seq<Package>)
    ensures |r| == |listed| && forall k :: 0 <= k < |listed| ==> r[k] == ToPackage(listed[k])
  {
    if listed == [] then [] else [ToPackage(listed[0])] + ToPackages(listed[1..])
  }

  /** `cargoPackages`. */
  function CargoPackages(metadata: Metadata): Result<seq<Package>, string> {
    if metadata.NoPackageList? then Err("no package list") else Ok(ToPackages(metadata.packages))
  }

  // ---------------------------------------------------------------- what the graphs and changes say

  /** The versions of one package in a graph. */
  function Versions(packages: seq<Package>, key: string): multiset<string> {
    if packages == [] then multiset{} else
      Versions(Front(packages), key)
      + if Key(Last(packages).name, Last(packages).source) == key then multiset{Last(packages).version} else multiset{}
  }

  function One(version: Option<string>): multiset<string> {
    if version.Some? then multiset{version.value} else multiset{}
  }

  datatype Side = Old | New

  /** What one change reports on one side about one package. */
  function Report(change: Change, key: string, side: Side): multiset<string> {
    if Key(change.name, change.source) != key then multiset{}
    else match side case Old => One(change.version) case New => One(change.latest)
  }

  function Tally(changes: seq<Change>, key: string, side: Side): multiset<string> {
    if changes == [] then multiset{} else Tally(Front(changes), key, side) + Report(Last(changes), key, side)
  }

  /** The old versions that the changes report for one package. */
  function Removed(changes: seq<Change>, key: string): multiset<string> {
    Tally(changes, key, Old)
  }

  /** The new versions that the changes report for one package. */
  function Added(changes: seq<Change>, key: string): multiset<string> {
    Tally(changes, key, New)
  }

  lemma TallyPush(changes: seq<Change>, change: Change, key: string, side: Side)
    ensures Tally(changes + [change], key, side) == Tally(changes, key, side) + Report(change, key, side)
  {
    assert Front(changes + [change]) == changes;
  }

  lemma {:induction false} TallyConcat(a: seq<Change>, b: seq<Change>, key: string, side: Side)
    ensures Tally(a + b, key, side) == Tally(a, key, side) + Tally(b, key, side)
  {
    if b == [] {
      assert a + b == a;
    } else {
      assert a + b == (a + Front(b)) + [Last(b)];
      TallyPush(a + Front(b), Last(b), key, side);
      TallyConcat(a, Front(b), key, side);
    }
  }

  lemma Splice<T>(s: seq<T>, i: nat)
    requires i < |s|
    ensures s == s[..i] + [s[i]] + s[i + 1..] && multiset(s) == multiset(s[..i] + s[i + 1..]) + multiset{s[i]}
  {
    assert s == s[..i] + [s[i]] + s[i + 1..];
  }

  lemma TallySplice(s: seq<Change>, i: nat, key: string, side: Side)
    requires i < |s|
    ensures Tally(s, key, side) == Tally(s[..i] + s[i + 1..], key, side) + Report(s[i], key, side)
  {
    Splice(s, i);
    TallyConcat(s[..i] + [s[i]], s[i + 1..], key, side);
    TallyConcat(s[..i], [s[i]], key, side);
    TallyConcat(s[..i], s[i + 1..], key, side);
    assert Tally([s[i]], key, side) == Tally([], key, side) + Report(s[i], key, side);
  }

  lemma SameTaken<T>(x: multiset<T>, y: multiset<T>, z: multiset<T>)
    requires x + z == y + z
    ensures x == y
  {
    assert x == (x + z) - z && y == (y + z) - z;
  }

  lemma TakenSame<T>(a: seq<T>, i: nat, b: seq<T>, k: nat)
    requires i < |a| && k < |b| && a[i] == b[k] && multiset(a) == multiset(b)
    ensures multiset(a[..i] + a[i + 1..]) == multiset(b[..k] + b[k + 1..])
  {
    Splice(a, i);
    Splice(b, k);
    SameTaken(multiset(a[..i] + a[i + 1..]), multiset(b[..k] + b[k + 1..]), multiset{a[i]});
  }

  lemma Find<T>(b: seq<T>, a: seq<T>, i: nat) returns (k: nat)
    requires multiset(a) == multiset(b) && i < |a|
    ensures k < |b| && b[k] == a[i]
  {
    assert a[i] in multiset(b);
    k :| 0 <= k < |b| && b[k] == a[i];
  }

  lemma EmptySame<T>(a: seq<T>, b: seq<T>)
    requires multiset(a) == multiset(b)
    ensures a == [] <==> b == []
  {
    if a != [] { assert a[0] in multiset(b); }
    if b != [] { assert b[0] in multiset(a); }
  }

  lemma TallyStep(a: seq<Change>, i: nat, b: seq<Change>, k: nat, key: string, side: Side)
    requires i < |a| && k < |b| && a[i] == b[k]
    requires Tally(a[..i] + a[i + 1..], key, side) == Tally(b[..k] + b[k + 1..], key, side)
    ensures Tally(a, key, side) == Tally(b, key, side)
  {
    TallySplice(a, i, key, side);
    TallySplice(b, k, key, side);
  }

  /** Rearranging the changes does not alter what they say. */
  lemma {:induction false} TallyAnyOrder(a: seq<Change>, b: seq<Change>, key: string, side: Side)
    requires multiset(a) == multiset(b)
    ensures Tally(a, key, side) == Tally(b, key, side)
    decreases |a|
  {
    EmptySame(a, b);
    if a != [] {
      var i := |a| - 1;
      var k := Find(b, a, i);
      TakenSame(a, i, b, k);
      TallyAnyOrder(a[..i] + a[i + 1..], b[..k] + b[k + 1..], key, side);
      TallyStep(a, i, b, k, key, side);
    }
  }

  predicate SamePackage(a: Change, b: Change) {
    Key(a.name, a.source) == Key(b.name, b.source)
  }

  /** No package has both a change without an old version and one without a new version. */
  ghost predicate Paired(changes: seq<Change>) {
    forall a, b :: a in changes && b in changes && SamePackage(a, b) ==> a.version.Some? || b.latest.Some?
  }

  // ---------------------------------------------------------------- the difference

  function IndexIn(s: seq<string>, version: string): (r: Option<nat>)
    ensures r.Some? ==> r.value < |s| && s[r.value] == version
    ensures r.None? ==> version !in s
  {
    if s == [] then None
    else if s[0] == version then Some(0)
    else
      var rest := IndexIn(s[1..], version);
      if rest.None? then None else Some(rest.value + 1)
  }

  lemma DisjointDifference(current: multiset<string>, updated: multiset<string>, o: multiset<string>, n: multiset<string>, common: multiset<string>)
    requires current == o + common && updated == n + common && o !! n
    ensures o == current - updated && n == updated - current
  {
    forall v ensures o[v] == (current - updated)[v] && n[v] == (updated - current)[v] {
      assert o[v] == 0 || n[v] == 0 by {
        assert v !in o || v !in n;
      }
    }
  }

  /** `splice(index, 1)`. */
  function Spliced(s: seq<string>, i: nat): (r: seq<string>)
    requires i < |s|
    ensures |r| == |s| - 1
    ensures multiset(s) == multiset(r) + multiset{s[i]}
    ensures forall k :: i <= k < |r| ==> r[k] == s[k + 1]
    ensures forall v :: v in r ==> v in s
  {
    Splice(s, i);
    s[..i] + s[i + 1..]
  }

  /** The descending loop that splices common versions out of both lists: a multiset difference in both directions. */
  method CancelUnchanged(current: seq<string>, updated: seq<string>) returns (oldVersions: seq<string>, newVersions: seq<string>)
    ensures multiset(oldVersions) == multiset(current) - multiset(updated)
    ensures multiset(newVersions) == multiset(updated) - multiset(current)
  {
    oldVersions, newVersions := current, updated;
    ghost var common: multiset<string> := multiset{};
    var index := |oldVersions|;
    while index > 0
      invariant 0 <= index <= |oldVersions|
      invariant multiset(current) == multiset(oldVersions) + common && multiset(updated) == multiset(newVersions) + common
      invariant forall k :: index <= k < |oldVersions| ==> oldVersions[k] !in newVersions
    {
      index := index - 1;
      var shared := IndexIn(newVersions, oldVersions[index]);
      if shared.Some? {
        common := common + multiset{oldVersions[index]};
        oldVersions := Spliced(oldVersions, index);
        newVersions := Spliced(newVersions, shared.value);
      }
    }
    DisjointDifference(multiset(current), multiset(updated), multiset(oldVersions), multiset(newVersions), common);
  }

  /** Every change is about this package. */
  predicate About(changes: seq<Change>, name: string, source: string) {
    forall k :: 0 <= k < |changes| ==> changes[k].name == name && changes[k].source == source
  }

  predicate AllOld(changes: seq<Change>) {
    forall k :: 0 <= k < |changes| ==> changes[k].version.Some?
  }

  predicate AllNew(changes: seq<Change>) {
    forall k :: 0 <= k < |changes| ==> changes[k].latest.Some?
  }

  /** The changes so far say exactly these versions about one package. */
  ghost predicate Says(changes: seq<Change>, name: string, source: string, removed: multiset<string>, added: multiset<string>) {
    About(changes, name, source)
    && Removed(changes, Key(name, source)) == removed && Added(changes, Key(name, source)) == added
  }

  lemma Push(changes: seq<Change>, change: Change, removed: multiset<string>, added: multiset<string>)
    requires Says(changes, change.name, change.source, removed, added)
    ensures Says(changes + [change], change.name, change.source, removed + One(change.version), added + One(change.latest))
  {
    assert Front(changes + [change]) == changes;
  }

  lemma Next(versions: seq<string>, i: nat)
    requires i < |versions|
    ensures multiset(versions[..i + 1]) == multiset(versions[..i]) + One(Some(versions[i]))
  {
    assert versions[..i + 1] == versions[..i] + [versions[i]];
  }

  function Removals(name: string, source: string, rest: seq<string>): (r: seq<Change>)
    ensures AllOld(r)
  {
    if rest == [] then [] else Removals(name, source, Front(rest)) + [Change(name, Some(Last(rest)), None, source)]
  }

  function Arrivals(name: string, source: string, rest: seq<string>): (r: seq<Change>)
    ensures AllNew(r)
  {
    if rest == [] then [] else Arrivals(name, source, Front(rest)) + [Change(name, None, Some(Last(rest)), source)]
  }

  lemma SaysConcat(a: seq<Change>, b: seq<Change>, name: string, source: string,
                   removed: multiset<string>, added: multiset<string>, removed': multiset<string>, added': multiset<string>)
    requires Says(a, name, source, removed, added) && Says(b, name, source, removed', added')
    ensures Says(a + b, name, source, removed + removed', added + added')
  {
    TallyConcat(a, b, Key(name, source), Old);
    TallyConcat(a, b, Key(name, source), New);
  }

  lemma LastIsOne(versions: seq<string>)
    requires versions != []
    ensures multiset(versions) == multiset(Front(versions)) + One(Some(Last(versions)))
  {
    assert versions == Front(versions) + [Last(versions)];
  }

  lemma PushRemoval(changes: seq<Change>, name: string, source: string, version: string, removed: multiset<string>, removed': multiset<string>)
    requires Says(changes, name, source, removed, multiset{}) && removed' == removed + One(Some(version))
    ensures Says(changes + [Change(name, Some(version), None, source)], name, source, removed', multiset{})
  {
    Push(changes, Change(name, Some(version), None, source), removed, multiset{});
  }

  lemma PushArrival(changes: seq<Change>, name: string, source: string, version: string, added: multiset<string>, added': multiset<string>)
    requires Says(changes, name, source, multiset{}, added) && added' == added + One(Some(version))
    ensures Says(changes + [Change(name, None, Some(version), source)], name, source, multiset{}, added')
  {
    Push(changes, Change(name, None, Some(version), source), multiset{}, added);
  }

  lemma {:induction false} RemovalsSay(name: string, source: string, rest: seq<string>)
    ensures Says(Removals(name, source, rest), name, source, multiset(rest), multiset{})
  {
    if rest != [] {
      RemovalsSay(name, source, Front(rest));
      LastIsOne(rest);
      PushRemoval(Removals(name, source, Front(rest)), name, source, Last(rest), multiset(Front(rest)), multiset(rest));
    }
  }

  lemma {:induction false} ArrivalsSay(name: string, source: string, rest: seq<string>)
    ensures Says(Arrivals(name, source, rest), name, source, multiset{}, multiset(rest))
  {
    if rest != [] {
      ArrivalsSay(name, source, Front(rest));
      LastIsOne(rest);
      PushArrival(Arrivals(name, source, Front(rest)), name, source, Last(rest), multiset(Front(rest)), multiset(rest));
    }
  }

  /** The paired versions and the ones left over are all versions. */
  lemma WholeList(versions: seq<string>, pairs: nat)
    requires pairs <= |versions|
    ensures multiset(versions[..pairs]) + multiset(versions[pairs..]) == multiset(versions)
  {
    assert versions == versions[..pairs] + versions[pairs..];
  }

  lemma GroupSays(paired: seq<Change>, name: string, source: string, oldVersions: seq<string>, newVersions: seq<string>, pairs: nat)
    requires pairs <= |oldVersions| && pairs <= |newVersions|
    requires Says(paired, name, source, multiset(oldVersions[..pairs]), multiset(newVersions[..pairs]))
    ensures Says(paired + Removals(name, source, oldVersions[pairs..]) + Arrivals(name, source, newVersions[pairs..]),
                 name, source, multiset(oldVersions), multiset(newVersions))
  {
    var removals, arrivals := Removals(name, source, oldVersions[pairs..]), Arrivals(name, source, newVersions[pairs..]);
    var oldRest, newRest := multiset(oldVersions[pairs..]), multiset(newVersions[pairs..]);
    RemovalsSay(name, source, oldVersions[pairs..]);
    ArrivalsSay(name, source, newVersions[pairs..]);
    WholeList(oldVersions, pairs);
    WholeList(newVersions, pairs);
    SaysConcat(paired, removals, name, source, multiset(oldVersions[..pairs]), multiset(newVersions[..pairs]), oldRest, multiset{});
    SaysConcat(paired + removals, arrivals, name, source, multiset(oldVersions), multiset(newVersions[..pairs]) + multiset{}, multiset{}, newRest);
    assert multiset(oldVersions) + multiset{} == multiset(oldVersions);
    assert multiset(newVersions[..pairs]) + multiset{} + newRest == multiset(newVersions);
  }

  lemma OneSided(paired: seq<Change>, name: string, source: string, oldRest: seq<string>, newRest: seq<string>)
    requires AllOld(paired) && AllNew(paired) && (oldRest == [] || newRest == [])
    ensures var changes := paired + Removals(name, source, oldRest) + Arrivals(name, source, newRest);
      AllOld(changes) || AllNew(changes)
  {
  }

  method PairUp(name: string, source: string, oldVersions: seq<string>, newVersions: seq<string>, pairs: nat)
    returns (changes: seq<Change>)
    requires pairs <= |oldVersions| && pairs <= |newVersions|
    ensures Says(changes, name, source, multiset(oldVersions[..pairs]), multiset(newVersions[..pairs]))
    ensures AllOld(changes) && AllNew(changes) && |changes| == pairs
  {
    changes := [];
    for i := 0 to pairs
      invariant Says(changes, name, source, multiset(oldVersions[..i]), multiset(newVersions[..i]))
      invariant AllOld(changes) && AllNew(changes) && |changes| == i
    {
      var change := Change(name, Some(oldVersions[i]), Some(newVersions[i]), source);
      Push(changes, change, multiset(oldVersions[..i]), multiset(newVersions[..i]));
      Next(oldVersions, i);
      Next(newVersions, i);
      changes := changes + [change];
    }
  }

  method AppendRemovals(paired: seq<Change>, name: string, source: string, rest: seq<string>) returns (changes: seq<Change>)
    ensures changes == paired + Removals(name, source, rest)
  {
    changes := paired;
    for i := 0 to |rest|
      invariant changes == paired + Removals(name, source, rest[..i])
    {
      assert Front(rest[..i + 1]) == rest[..i];
      changes := changes + [Change(name, Some(rest[i]), None, source)];
    }
    assert rest[..|rest|] == rest;
  }

  method AppendArrivals(paired: seq<Change>, name: string, source: string, rest: seq<string>) returns (changes: seq<Change>)
    ensures changes == paired + Arrivals(name, source, rest)
  {
    changes := paired;
    for i := 0 to |rest|
      invariant changes == paired + Arrivals(name, source, rest[..i])
    {
      assert Front(rest[..i + 1]) == rest[..i];
      changes := changes + [Change(name, None, Some(rest[i]), source)];
    }
    assert rest[..|rest|] == rest;
  }

  /** The changes of one group: as many pairs as possible, then the versions left over on one side. */
  method GroupChanges(name: string, source: string, oldVersions: seq<string>, newVersions: seq<string>)
    returns (changes: seq<Change>)
    ensures Says(changes, name, source, multiset(oldVersions), multiset(newVersions))
    ensures AllOld(changes) || AllNew(changes)
  {
    var pairs := if |oldVersions| < |newVersions| then |oldVersions| else |newVersions|;
    var paired := PairUp(name, source, oldVersions, newVersions, pairs);
    GroupSays(paired, name, source, oldVersions, newVersions, pairs);
    OneSided(paired, name, source, oldVersions[pairs..], newVersions[pairs..]);
    var removed := AppendRemovals(paired, name, source, oldVersions[pairs..]);
    changes := AppendArrivals(removed, name, source, newVersions[pairs..]);
  }

  // ---------------------------------------------------------------- grouping

  type Groups = map<string, Group>

  /** `group[side].push(version)`, in a group that may be new. */
  function Grown(groups: Groups, package: Package, side: Side): Groups {
    var key := Key(package.name, package.source);
    var group := if key in groups then groups[key] else Group(package.name, package.source, [], []);
    groups[key := match side
      case Old => group.(current := group.current + [package.version])
      case New => group.(updated := group.updated + [package.version])]
  }

  ghost predicate GroupOf(group: Group, key: string, current: seq<Package>, updated: seq<Package>) {
    && Key(group.name, group.source) == key
    && multiset(group.current) == Versions(current, key) && multiset(group.updated) == Versions(updated, key)
  }

  ghost predicate KeyGrouped(groups: Groups, key: string, current: seq<Package>, updated: seq<Package>) {
    if key in groups then GroupOf(groups[key], key, current, updated)
    else Versions(current, key) == multiset{} && Versions(updated, key) == multiset{}
  }

  ghost predicate Grouped(groups: Groups, current: seq<Package>, updated: seq<Package>) {
    forall key :: KeyGrouped(groups, key, current, updated)
  }

  lemma VersionsPush(packages: seq<Package>, package: Package, key: string)
    ensures Versions(packages + [package], key)
      == Versions(packages, key) + if Key(package.name, package.source) == key then multiset{package.version} else multiset{}
  {
    assert Front(packages + [package]) == packages;
  }

  lemma GrownOld(groups: Groups, current: seq<Package>, updated: seq<Package>, package: Package)
    requires Grouped(groups, current, updated)
    ensures Grouped(Grown(groups, package, Old), current + [package], updated)
  {
    var groups' := Grown(groups, package, Old);
    forall key ensures KeyGrouped(groups', key, current + [package], updated) {
      assert KeyGrouped(groups, key, current, updated);
      VersionsPush(current, package, key);
    }
  }

  lemma GrownNew(groups: Groups, current: seq<Package>, updated: seq<Package>, package: Package)
    requires Grouped(groups, current, updated)
    ensures Grouped(Grown(groups, package, New), current, updated + [package])
  {
    var groups' := Grown(groups, package, New);
    forall key ensures KeyGrouped(groups', key, current, updated + [package]) {
      assert KeyGrouped(groups, key, current, updated);
      VersionsPush(updated, package, key);
    }
  }

  /** `order` lists the keys, each once. */
  ghost predicate Ordered(groups: Groups, order: seq<string>) {
    Distinct(order) && ToSet(order) == groups.Keys
  }

  method Register(order: seq<string>, groups: Groups, package: Package, side: Side) returns (order': seq<string>)
    requires Ordered(groups, order)
    ensures Ordered(Grown(groups, package, side), order')
  {
    var key := Key(package.name, package.source);
    order' := if key in groups then order else order + [key];
    assert key !in groups ==> key !in ToSet(order);
    assert Grown(groups, package, side).Keys == groups.Keys + {key};
    assert ToSet(order + [key]) == ToSet(order) + {key};
  }

  /** The map of groups, and its keys in the order in which they came up. */
  method BuildGroups(current: seq<Package>, updated: seq<Package>) returns (groups: Groups, order: seq<string>)
    ensures Grouped(groups, current, updated)
    ensures Ordered(groups, order)
  {
    groups, order := map[], [];
    for i := 0 to |current|
      invariant Grouped(groups, current[..i], []) && Ordered(groups, order)
    {
      order := Register(order, groups, current[i], Old);
      GrownOld(groups, current[..i], [], current[i]);
      groups := Grown(groups, current[i], Old);
      assert current[..i + 1] == current[..i] + [current[i]];
    }
    assert current[..|current|] == current && updated[..0] == [];
    for i := 0 to |updated|
      invariant Grouped(groups, current, updated[..i]) && Ordered(groups, order)
    {
      order := Register(order, groups, updated[i], New);
      GrownNew(groups, current, updated[..i], updated[i]);
      groups := Grown(groups, updated[i], New);
      assert updated[..i + 1] == updated[..i] + [updated[i]];
    }
    assert updated[..|updated|] == updated;
  }

  // ---------------------------------------------------------------- the whole comparison

  /** The changes report the difference of the graphs for a package that was handled, and nothing for another. */
  ghost predicate KeyReported(changes: seq<Change>, keys: set<string>, key: string, current: seq<Package>, updated: seq<Package>) {
    && Removed(changes, key) == (if key in keys then Versions(current, key) - Versions(updated, key) else multiset{})
    && Added(changes, key) == (if key in keys then Versions(updated, key) - Versions(current, key) else multiset{})
  }

  ghost predicate Within(changes: seq<Change>, keys: set<string>) {
    forall change :: change in changes ==> Key(change.name, change.source) in keys
  }

  ghost predicate Reported(changes: seq<Change>, keys: set<string>, current: seq<Package>, updated: seq<Package>) {
    forall key :: KeyReported(changes, keys, key, current, updated)
  }

  lemma {:induction false} SilentElsewhere(changes: seq<Change>, name: string, source: string, key: string, side: Side)
    requires About(changes, name, source) && Key(name, source) != key
    ensures Tally(changes, key, side) == multiset{}
  {
    if changes != [] {
      SilentElsewhere(Front(changes), name, source, key, side);
    }
  }

  lemma PairedConcat(changes: seq<Change>, piece: seq<Change>, keys: set<string>, name: string, source: string)
    requires Paired(changes) && About(piece, name, source) && (AllOld(piece) || AllNew(piece))
    requires Key(name, source) !in keys && Within(changes, keys)
    ensures Paired(changes + piece) && Within(changes + piece, keys + {Key(name, source)})
  {
    assert forall change :: change in piece ==> change.name == name && change.source == source;
  }

  lemma ReportedOther(changes: seq<Change>, keys: set<string>, piece: seq<Change>, name: string, source: string, key: string,
                      current: seq<Package>, updated: seq<Package>)
    requires KeyReported(changes, keys, key, current, updated) && About(piece, name, source) && key != Key(name, source)
    ensures KeyReported(changes + piece, keys + {Key(name, source)}, key, current, updated)
  {
    SilentElsewhere(piece, name, source, key, Old);
    SilentElsewhere(piece, name, source, key, New);
    TallyConcat(changes, piece, key, Old);
    TallyConcat(changes, piece, key, New);
    assert Removed(changes + piece, key) == Removed(changes, key);
    assert Added(changes + piece, key) == Added(changes, key);
  }

  lemma ReportedOwn(changes: seq<Change>, keys: set<string>, piece: seq<Change>, key: string, current: seq<Package>, updated: seq<Package>)
    requires KeyReported(changes, keys, key, current, updated) && key !in keys
    requires Removed(piece, key) == Versions(current, key) - Versions(updated, key)
    requires Added(piece, key) == Versions(updated, key) - Versions(current, key)
    ensures KeyReported(changes + piece, keys + {key}, key, current, updated)
  {
    TallyConcat(changes, piece, key, Old);
    TallyConcat(changes, piece, key, New);
    assert Removed(changes + piece, key) == Removed(piece, key);
    assert Added(changes + piece, key) == Added(piece, key);
  }

  lemma ReportedStep(changes: seq<Change>, keys: set<string>, piece: seq<Change>, name: string, source: string,
                     current: seq<Package>, updated: seq<Package>)
    requires Reported(changes, keys, current, updated) && Key(name, source) !in keys
    requires var own := Key(name, source);
      Says(piece, name, source, Versions(current, own) - Versions(updated, own), Versions(updated, own) - Versions(current, own))
    ensures Reported(changes + piece, keys + {Key(name, source)}, current, updated)
  {
    forall key ensures KeyReported(changes + piece, keys + {Key(name, source)}, key, current, updated) {
      assert KeyReported(changes, keys, key, current, updated);
      if key == Key(name, source) {
        ReportedOwn(changes, keys, piece, key, current, updated);
      } else {
        ReportedOther(changes, keys, piece, name, source, key, current, updated);
      }
    }
  }

  lemma ReportedAnyOrder(a: seq<Change>, b: seq<Change>, keys: set<string>, current: seq<Package>, updated: seq<Package>)
    requires Reported(a, keys, current, updated) && multiset(a) == multiset(b)
    ensures Reported(b, keys, current, updated)
  {
    forall key ensures KeyReported(b, keys, key, current, updated) {
      assert KeyReported(a, keys, key, current, updated);
      TallyAnyOrder(a, b, key, Old);
      TallyAnyOrder(a, b, key, New);
    }
  }

  lemma PairedAnyOrder(a: seq<Change>, b: seq<Change>)
    requires Paired(a) && multiset(a) == multiset(b)
    ensures Paired(b)
  {
    forall x, y | x in b && y in b && SamePackage(x, y) ensures x.version.Some? || y.latest.Some? {
      assert x in multiset(a) && y in multiset(a);
    }
  }

  /** Once every group was handled, the report is the whole difference: what is in no group is in no graph. */
  lemma AllReported(changes: seq<Change>, groups: Groups, current: seq<Package>, updated: seq<Package>)
    requires Grouped(groups, current, updated) && Reported(changes, groups.Keys, current, updated)
    ensures IsDifference(changes, current, updated)
  {
    forall key
      ensures Removed(changes, key) == Versions(current, key) - Versions(updated, key)
      ensures Added(changes, key) == Versions(updated, key) - Versions(current, key)
    {
      assert KeyGrouped(groups, key, current, updated) && KeyReported(changes, groups.Keys, key, current, updated);
    }
  }

  /** The changes are the difference of the two graphs, package by package. */
  ghost predicate IsDifference(changes: seq<Change>, current: seq<Package>, updated: seq<Package>) {
    forall key ::
      && Removed(changes, key) == Versions(current, key) - Versions(updated, key)
      && Added(changes, key) == Versions(updated, key) - Versions(current, key)
  }

  method DiffPackages(current: seq<Package>, updated: seq<Package>, sort: Sorter<string>, arrange: Sorter<Change>)
    returns (changes: seq<Change>)
    requires Rearranges(sort) && Rearranges(arrange)
    ensures IsDifference(changes, current, updated) && Paired(changes)
  {
    var groups, order := BuildGroups(current, updated);
    var found := [];
    ghost var keys: set<string> := {};
    for i := 0 to |order|
      invariant keys == ToSet(order[..i])
      invariant Reported(found, keys, current, updated) && Within(found, keys) && Paired(found)
    {
      assert order[i] in ToSet(order) && order[i] !in keys;
      var group := groups[order[i]];
      assert KeyGrouped(groups, order[i], current, updated);
      var piece := ChangesOf(group, sort, order[i], current, updated);
      PairedConcat(found, piece, keys, group.name, group.source);
      ReportedStep(found, keys, piece, group.name, group.source, current, updated);
      found := found + piece;
      keys := keys + {order[i]};
      assert order[..i + 1] == order[..i] + [order[i]];
    }
    assert order[..|order|] == order;
    AllReported(found, groups, current, updated);
    changes := arrange(found);
    ReportedAnyOrder(found, changes, keys, current, updated);
    AllReported(changes, groups, current, updated);
    PairedAnyOrder(found, changes);
  }

  method ChangesOf(group: Group, sort: Sorter<string>, ghost key: string, ghost current: seq<Package>, ghost updated: seq<Package>)
    returns (piece: seq<Change>)
    requires Rearranges(sort) && GroupOf(group, key, current, updated)
    ensures Says(piece, group.name, group.source,
              Versions(current, key) - Versions(updated, key), Versions(updated, key) - Versions(current, key))
    ensures AllOld(piece) || AllNew(piece)
  {
    var oldVersions, newVersions := CancelUnchanged(group.current, group.updated);
    piece := GroupChanges(group.name, group.source, sort(oldVersions), sort(newVersions));
  }

  /** `diffCargoMetadata`. */
  method DiffCargoMetadata(current: Metadata, updated: Metadata, sort: Sorter<string>, arrange: Sorter<Change>)
    returns (r: Result<seq<Change>, string>)
    requires Rearranges(sort) && Rearranges(arrange)
    ensures r.Ok? <==> current.Packages? && updated.Packages?
    ensures r.Ok? ==> IsDifference(r.value, ToPackages(current.packages), ToPackages(updated.packages)) && Paired(r.value)
  {
    var currentPackages := CargoPackages(current);
    if currentPackages.Err? { return Err(currentPackages.error); }
    var updatedPackages := CargoPackages(updated);
    if updatedPackages.Err? { return Err(updatedPackages.error); }
    var changes := DiffPackages(currentPackages.value, updatedPackages.value, sort, arrange);
    return Ok(changes);
  }

  // ---------------------------------------------------------------- what the difference means

  /** Taking the removed versions away and putting the added ones in turns the one graph into the other; none is both. */
  lemma DifferenceIsPatch(changes: seq<Change>, current: seq<Package>, updated: seq<Package>, key: string)
    requires IsDifference(changes, current, updated)
    ensures Versions(current, key) - Removed(changes, key) + Added(changes, key) == Versions(updated, key)
    ensures Removed(changes, key) <= Versions(current, key) && Removed(changes, key) !! Added(changes, key)
  {
    assert Removed(changes, key) == Versions(current, key) - Versions(updated, key);
    assert Added(changes, key) == Versions(updated, key) - Versions(current, key);
  }

  predicate NulFree(name: string) {
    forall k :: 0 <= k < |name| ==> name[k] != NUL
  }

  /** The versions of the packages with this name and source. */
  function VersionsOf(packages: seq<Package>, name: string, source: string): multiset<string> {
    if packages == [] then multiset{} else
      VersionsOf(Front(packages), name, source)
      + if Last(packages).name == name && Last(packages).source == source then multiset{Last(packages).version} else multiset{}
  }

  lemma KeyInjective(a: string, s: string, b: string, t: string)
    requires NulFree(a) && NulFree(b) && Key(a, s) == Key(b, t)
    ensures a == b && s == t
  {
    var key := Key(a, s);
    assert key[|a|] == NUL && key[|b|] == NUL;
    assert forall k :: 0 <= k < |a| ==> key[k] == a[k];
    assert forall k :: 0 <= k < |b| ==> key[k] == b[k];
    assert |a| == |b|;
    assert a == key[..|a|] && s == key[|a| + 1..];
    assert b == key[..|b|] && t == key[|b| + 1..];
  }

  /** Names without a NUL character, as Cargo's are, keep the groups of different packages apart. */
  lemma {:induction false} KeysSeparate(packages: seq<Package>, name: string, source: string)
    requires NulFree(name) && forall k :: 0 <= k < |packages| ==> NulFree(packages[k].name)
    ensures Versions(packages, Key(name, source)) == VersionsOf(packages, name, source)
  {
    if packages != [] {
      KeysSeparate(Front(packages), name, source);
      if Key(Last(packages).name, Last(packages).source) == Key(name, source) {
        KeyInjective(Last(packages).name, Last(packages).source, name, source);
      }
    }
  }

  /** A listed package has this name, and this source; a missing or empty source is `path`. */
  predicate IsListed(listed: Listed, name: string, source: string) {
    listed.name == name
    && ((listed.source == Some(source) && source != "") || (listed.source in {None, Some("")} && source == "path"))
  }

  /** The versions listed under this name and source. */
  function ListedVersions(listed: seq<Listed>, name: string, source: string): multiset<string> {
    if listed == [] then multiset{} else
      ListedVersions(Front(listed), name, source)
      + if IsListed(Last(listed), name, source) then multiset{Last(listed).version} else multiset{}
  }

  /** So for names without a NUL character the groups are the listed packages, by name and source. */
  lemma {:induction false} ListedSeparate(listed: seq<Listed>, name: string, source: string)
    requires NulFree(name) && forall k :: 0 <= k < |listed| ==> NulFree(listed[k].name)
    ensures Versions(ToPackages(listed), Key(name, source)) == ListedVersions(listed, name, source)
  {
    var packages := ToPackages(listed);
    if listed != [] {
      ListedSeparate(Front(listed), name, source);
      assert Front(packages) == ToPackages(Front(listed));
      assert Last(packages) == ToPackage(Last(listed));
      if Key(Last(packages).name, Last(packages).source) == Key(name, source) {
        KeyInjective(Last(packages).name, Last(packages).source, name, source);
      }
    }
  }

  /** What a diff reports under a name and source is the difference of what the two lists hold under them. */
  lemma DifferenceOfListed(changes: seq<Change>, current: seq<Listed>, updated: seq<Listed>, name: string, source: string)
    requires IsDifference(changes, ToPackages(current), ToPackages(updated)) && NulFree(name)
    requires forall k :: 0 <= k < |current| ==> NulFree(current[k].name)
    requires forall k :: 0 <= k < |updated| ==> NulFree(updated[k].name)
    ensures var before, after := ListedVersions(current, name, source), ListedVersions(updated, name, source);
            && Removed(changes, Key(name, source)) == before - after
            && Added(changes, Key(name, source)) == after - before
  {
    ListedSeparate(current, name, source);
    ListedSeparate(updated, name, source);
  }

  lemma OtherSplit(name: string, source: string, k: nat)
    requires k < |name| + 1 + |source| && k != |name| && Key(name, source)[k] == NUL
    ensures var key := Key(name, source); Key(key[..k], key[k + 1..]) == key && key[..k] != name
  {
    var key := Key(name, source);
    assert key == key[..k] + [key[k]] + key[k + 1..];
    assert |key[..k]| == k;
  }

  /** A pair has a key of its own exactly when neither its name nor its source holds a NUL character. */
  lemma KeyUniqueExactly(name: string, source: string)
    ensures (forall b, t :: Key(b, t) == Key(name, source) ==> b == name && t == source) <==> NulFree(name) && NulFree(source)
  {
    var key := Key(name, source);
    assert forall k :: 0 <= k < |name| ==> key[k] == name[k];
    assert forall k :: 0 <= k < |source| ==> key[|name| + 1 + k] == source[k];
    if NulFree(name) && NulFree(source) {
      forall b, t | Key(b, t) == key ensures b == name && t == source {
        assert key[|b|] == NUL && |b| == |name|;
        assert b == key[..|b|] && t == key[|b| + 1..] && name == key[..|name|] && source == key[|name| + 1..];
      }
    } else if !NulFree(name) {
      var k :| 0 <= k < |name| && name[k] == NUL;
      OtherSplit(name, source, k);
    } else {
      var k :| 0 <= k < |source| && source[k] == NUL;
      OtherSplit(name, source, |name| + 1 + k);
    }
  }

  /** Two pairs of one key: a name with a NUL character and a source with one. */
  lemma KeysCanCollide()
    ensures Key("a" + [NUL] + "b", "c") == Key("a", "b" + [NUL] + "c")
  {
    assert "a" + [NUL] + "b" + [NUL] + "c" == "a" + [NUL] + ("b" + [NUL] + "c");
  }
}
