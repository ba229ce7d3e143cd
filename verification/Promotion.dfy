/**
  Publishing an engine payload by renames: the old payload is moved aside under a name that
  carries the publisher's process id, the staging directory takes its place, and a later
  publisher repairs what an interrupted one left behind. Any file operation may fail or be
  the last thing the process does; a recursive delete may stop halfway.
 */
module Promotion {
  import opened Base
  import opened Decimal

  /** The contents of a directory tree, by identity. */
  type Payload = nat

  datatype Node = Dir(payload: Payload, whole: bool) | NotDir

  /** Entries of the destination's parent. `Previous(suffix)` is `.<destination>.previous-<suffix>`. */
  datatype Name = Destination | Previous(suffix: string) | Staging(run: nat)

  type Entries = map<Name, Node>

  /** `published` is the payload that last became the destination by a publisher's rename. */
  datatype State = State(entries: Entries, published: Option<Payload>)

  datatype Finish = Finished | Threw | Crashed

  datatype Reach = Nothing | Halfway | Everything

  /** How a file operation ends. `reach` is what a dying process had done of it. */
  datatype Fault = Works | Fails(retryable: bool, damaging: bool) | Dies(reach: Reach)

  const RETRIES := 5

  // ---------------------------------------------------------------- names

  function PidText(suffix: string): string {
    if suffix == "" || suffix[0] == '-' then "" else [suffix[0]] + PidText(suffix[1..])
  }

  /** The process id in front of the first hyphen, if that part is all digits. */
  function Owner(suffix: string): Option<nat> {
    var pid := PidText(suffix);
    if pid != "" && AllDigits(pid) then Some(NatOfDigits(pid)) else None
  }

  function OwnSuffix(pid: nat, stamp: nat): string {
    ToDecimal(pid) + "-" + ToDecimal(stamp)
  }

  lemma {:induction false} PidTextStops(digits: string, rest: string)
    requires AllDigits(digits)
    ensures PidText(digits + "-" + rest) == digits
  {
    if digits == "" {
      assert digits + "-" + rest == "-" + rest;
    } else {
      PidTextStops(digits[1..], rest);
      assert (digits + "-" + rest)[1..] == digits[1..] + "-" + rest;
    }
  }

  /** A publisher's own backup is recognised as its own. */
  lemma OwnSuffixOwner(pid: nat, stamp: nat)
    ensures Owner(OwnSuffix(pid, stamp)) == Some(pid)
  {
    PrintedDigits(pid);
    PidTextStops(ToDecimal(pid), ToDecimal(stamp));
  }

  predicate IsAlive(pid: nat, running: nat -> bool) {
    0 < pid <= MAX_SAFE_INTEGER && running(pid)
  }

  predicate Dead(name: Name, running: nat -> bool) {
    name.Previous? && Owner(name.suffix).Some? && !IsAlive(Owner(name.suffix).value, running)
  }

  function Candidates(entries: Entries): set<Name> {
    set name | name in entries && name.Previous?
  }

  function Doomed(entries: Entries, running: nat -> bool): set<Name> {
    set name | name in entries && Dead(name, running)
  }

  // ---------------------------------------------------------------- what the operations may do

  /** A rename; taking the destination's place from a staging directory publishes. */
  function Move(s: State, from: Name, to: Name): State
    requires from in s.entries
  {
    var node := s.entries[from];
    State((s.entries - {from})[to := node],
      if from.Staging? && to.Destination? && node.Dir? then Some(node.payload) else s.published)
  }

  /** Nothing but the named entries was removed, or lost part of its contents. */
  ghost predicate Worn(before: Entries, after: Entries, names: set<Name>) {
    && after.Keys <= before.Keys
    && forall name :: name in before ==>
         if name in after then
           after[name] == before[name]
           || (name in names && before[name].Dir? && after[name] == Dir(before[name].payload, false))
         else name in names
  }

  /** The last published payload is whole: at the destination, or in a backup while there is none. */
  ghost predicate Safe(s: State) {
    if s.published.None? then Destination !in s.entries && Candidates(s.entries) == {}
    else if Destination in s.entries then s.entries[Destination] == Dir(s.published.value, true)
    else exists name :: name in Candidates(s.entries) && s.entries[name] == Dir(s.published.value, true)
  }

  predicate Recoverable(s: State) {
    Destination !in s.entries && |Candidates(s.entries)| == 1
    && forall name :: name in Candidates(s.entries) ==> s.entries[name].Dir?
  }

  /** Without faults recovery succeeds, and leaves a destination or nothing to recover. */
  predicate CanRecover(s: State) {
    Destination in s.entries || Candidates(s.entries) == {} || Recoverable(s)
  }

  /** Recovery either changes nothing or moves the only candidate, a directory, to the vacant destination. */
  ghost predicate RecoverEnds(before: State, after: State) {
    after == before
    || (Recoverable(before) && exists name :: name in Candidates(before.entries) && after == Move(before, name, Destination))
  }

  function Aside(s: State, backup: Name): State {
    if Destination in s.entries then Move(s, Destination, backup) else s
  }

  /** Another publisher may take the destination while it is vacant. */
  function Rivalled(s: State, rival: Option<Payload>): State {
    if rival.Some? && Destination !in s.entries then State(s.entries[Destination := Dir(rival.value, true)], rival) else s
  }

  function Moved(s: State, backup: Name): set<Name> {
    if Destination in s.entries then {backup} else {}
  }

  lemma MoveBack(s: State, backup: Name)
    requires Destination in s.entries && backup.Previous? && backup !in s.entries
    ensures Move(Aside(s, backup), backup, Destination) == s
  {
  }

  ghost predicate CanMoveAside(s: State, staging: Name, backup: Name) {
    staging in s.entries && s.entries[staging].Dir? && (Destination in s.entries ==> backup !in s.entries)
  }

  /** What a promotion that starts from the recovered state `s` may leave. */
  ghost predicate PublishEnds(s: State, after: State, staging: Name, backup: Name, rival: Option<Payload>, running: nat -> bool) {
    after == s
    || (CanMoveAside(s, staging, backup) &&
        var vacant := Rivalled(Aside(s, backup), rival);
        || after == Aside(s, backup)
        || (Destination in vacant.entries && after.published == vacant.published
            && Worn(vacant.entries, after.entries, Moved(s, backup)))
        || (Destination !in vacant.entries && staging in vacant.entries &&
            var done := Move(vacant, staging, Destination);
            after.published == done.published
            && Worn(done.entries, after.entries, Moved(s, backup) + Doomed(done.entries, running))))
  }

  /** What a promotion that succeeds leaves. */
  ghost predicate Published(s: State, after: State, staging: Name, backup: Name, running: nat -> bool) {
    && CanMoveAside(s, staging, backup)
    && staging in Aside(s, backup).entries
    && var done := Move(Aside(s, backup), staging, Destination);
       after == State(done.entries - Moved(s, backup) - Doomed(done.entries, running), done.published)
  }

  ghost predicate PromoteEnds(before: State, after: State, staging: Name, backup: Name, rival: Option<Payload>,
                              running: nat -> bool, r: Finish) {
    exists s :: RecoverEnds(before, s)
      && PublishEnds(s, after, staging, backup, rival, running)
      && (r.Finished? ==> Published(s, after, staging, backup, running))
  }

  /** One run of the provisioner: the payload it builds, and its surroundings. */
  datatype Job = Job(run: nat, payload: Payload, pid: nat, stamp: nat, rival: Option<Payload>, running: nat -> bool, aborted: bool)

  function Backup(job: Job): Name {
    Previous(OwnSuffix(job.pid, job.stamp))
  }

  function Built(s: State, job: Job, whole: bool): State {
    s.(entries := s.entries[Staging(job.run) := Dir(job.payload, whole)])
  }

  /** What a provisioner leaves: it recovers, builds and promotes, and may then delete its staging directory. */
  ghost predicate ProvisionEnds(before: State, after: State, job: Job, r: Finish) {
    exists s, mid ::
      && RecoverEnds(before, s)
      && (mid in {s, Built(s, job, false)}
          || PromoteEnds(Built(s, job, true), mid, Staging(job.run), Backup(job), job.rival, job.running, Threw))
      && after.published == mid.published
      && Worn(mid.entries, after.entries, {Staging(job.run)})
      && (r.Finished? ==>
            && PromoteEnds(Built(s, job, true), mid, Staging(job.run), Backup(job), job.rival, job.running, Finished))
  }

  lemma ProvisionIntro(before: State, s: State, mid: State, after: State, job: Job, r: Finish)
    requires RecoverEnds(before, s)
    requires mid in {s, Built(s, job, false)}
      || PromoteEnds(Built(s, job, true), mid, Staging(job.run), Backup(job), job.rival, job.running, Threw)
    requires after.published == mid.published && Worn(mid.entries, after.entries, {Staging(job.run)})
    requires r.Finished? ==> PromoteEnds(Built(s, job, true), mid, Staging(job.run), Backup(job), job.rival, job.running, Finished)
    ensures ProvisionEnds(before, after, job, r)
  {
  }

  // ---------------------------------------------------------------- the operations

  class FileSystem {
    var entries: Entries
    ghost var published: Option<Payload>
    /** Number of file operations so far; `faults` says how each of them ends. */
    var calls: nat
    const faults: nat -> Fault
    const windows: bool

    constructor (entries: Entries, ghost published: Option<Payload>, faults: nat -> Fault, windows: bool)
      ensures View() == State(entries, published) && this.faults == faults && this.windows == windows
    {
      this.entries, this.published, this.calls, this.faults, this.windows := entries, published, 0, faults, windows;
    }

    ghost function View(): State
      reads this
    {
      State(entries, published)
    }

    ghost predicate Reliable() {
      forall n: nat :: faults(n) == Works
    }

    /** An operation that changes nothing. */
    method Look() returns (r: Finish)
      modifies this`calls
      ensures Reliable() ==> r == Finished
    {
      var fault := faults(calls);
      calls := calls + 1;
      match fault
      case Works => return Finished;
      case Fails(_, _) => return Threw;
      case Dies(_) => return Crashed;
    }

    method PathExists(name: Name) returns (r: Finish, present: bool)
      modifies this`calls
      ensures r.Finished? ==> present == (name in entries)
      ensures Reliable() ==> r == Finished
    {
      r := Look();
      present := name in entries;
    }

    /** A rename onto an existing entry fails: payloads are not empty. */
    method Rename(from: Name, to: Name) returns (r: Finish)
      requires from != to
      modifies this
      ensures r.Finished? ==> from in old(entries) && to !in old(entries) && View() == Move(old(View()), from, to)
      ensures r.Threw? ==> View() == old(View())
      ensures r.Crashed? ==> View() == old(View()) || (from in old(entries) && to !in old(entries) && View() == Move(old(View()), from, to))
      ensures Reliable() ==> r == if from in old(entries) && to !in old(entries) then Finished else Threw
    {
      var fault := faults(calls);
      calls := calls + 1;
      if fault.Fails? { return Threw; }
      if fault.Dies? && !fault.reach.Everything? { return Crashed; }
      if from !in entries || to in entries { return if fault.Works? then Threw else Crashed; }
      published := Move(View(), from, to).published;
      entries := (entries - {from})[to := entries[from]];
      return if fault.Works? then Finished else Crashed;
    }

    /** `rmSync` with `recursive` and `force`. */
    method Remove(name: Name) returns (r: Finish, retryable: bool)
      modifies this`calls, this`entries
      ensures Worn(old(entries), entries, {name})
      ensures r.Finished? ==> entries == old(entries) - {name}
      ensures Reliable() ==> r == Finished
      ensures calls == old(calls) + 1
    {
      var fault := faults(calls);
      calls := calls + 1;
      retryable := fault.Fails? && fault.retryable;
      if fault.Works? || (fault.Dies? && fault.reach.Everything?) {
        entries := entries - {name};
      } else if ((fault.Fails? && fault.damaging) || (fault.Dies? && fault.reach.Halfway?)) && name in entries && entries[name].Dir? {
        entries := entries[name := Dir(entries[name].payload, false)];
      }
      r := match fault case Works => Finished case Fails(_, _) => Threw case Dies(_) => Crashed;
    }

    /** `removePathWithRetry`: one attempt, and on Windows up to five more. */
    method RemovePathWithRetry(name: Name) returns (r: Finish)
      modifies this`calls, this`entries
      ensures Worn(old(entries), entries, {name})
      ensures r.Finished? ==> entries == old(entries) - {name}
      ensures Reliable() ==> r == Finished
      ensures calls <= old(calls) + RETRIES + 1
    {
      var attempt := 0;
      while true
        invariant attempt <= RETRIES && calls == old(calls) + attempt
        invariant Worn(old(entries), entries, {name})
        decreases RETRIES - attempt
      {
        var retryable;
        r, retryable := Remove(name);
        if !r.Threw? || !windows || !retryable || attempt >= RETRIES { return; }
        attempt := attempt + 1;
      }
    }

    /** The backups beside the destination, in the order the directory lists them. */
    method PreviousPayloads() returns (r: Finish, names: seq<Name>)
      modifies this`calls
      ensures r.Finished? ==> Distinct(names) && ToSet(names) == Candidates(entries) && |names| == |Candidates(entries)|
      ensures Reliable() ==> r == Finished
    {
      r := Look();
      names := [];
      var left := Candidates(entries);
      while left != {}
        invariant Distinct(names) && ToSet(names) !! left && ToSet(names) + left == Candidates(entries)
        invariant |names| + |left| == |Candidates(entries)|
        decreases |left|
      {
        var name :| name in left;
        names, left := names + [name], left - {name};
      }
    }

    /** `recoverInterruptedPromotion`. */
    method RecoverInterruptedPromotion() returns (r: Finish)
      modifies this
      ensures RecoverEnds(old(View()), View())
      ensures r.Threw? ==> View() == old(View())
      ensures r.Finished? ==> Destination in entries || (Candidates(old(entries)) == {} && View() == old(View()))
      ensures r.Finished? && Destination !in old(entries) ==> Candidates(entries) == {}
      ensures Reliable() ==>
        r == if CanRecover(old(View())) then Finished else Threw
    {
      var present, names;
      r, present := PathExists(Destination);
      if !r.Finished? || present { return; }
      r, names := PreviousPayloads();
      if !r.Finished? { return; }
      if |names| == 0 { return; }
      assert names[0] in ToSet(names);
      if |names| > 1 { return Threw; }
      var candidate := names[0];
      assert Candidates(entries) == {candidate} by { assert ToSet(names) == {candidate}; }
      r := Look();
      if !r.Finished? { return; }
      if !entries[candidate].Dir? { return Threw; }
      r := Rename(candidate, Destination);
    }

    /** `removeOrphanedPreviousPayloads`: backups of processes that no longer run. */
    method RemoveOrphanedPreviousPayloads(running: nat -> bool) returns (r: Finish)
      modifies this`calls, this`entries
      ensures Worn(old(entries), entries, Doomed(old(entries), running))
      ensures r.Finished? ==> entries == old(entries) - Doomed(old(entries), running)
      ensures Reliable() ==> r == Finished
    {
      var names;
      r, names := PreviousPayloads();
      if !r.Finished? { return; }
      for i := 0 to |names|
        invariant r.Finished?
        invariant entries == old(entries) - (set name | name in ToSet(names[..i]) && Dead(name, running))
      {
        if !Dead(names[i], running) { continue; }
        assert names[i] in ToSet(names) && names[i] in Doomed(old(entries), running);
        ghost var before := entries;
        r := RemovePathWithRetry(names[i]);
        if !r.Finished? {
          assert Worn(old(entries), entries, Doomed(old(entries), running));
          return;
        }
      }
      assert names[..|names|] == names;
    }

    /** `promoteDirectory`. `rival` is what another publisher puts in the destination's vacant place, if any does. */
    method PromoteDirectory(staging: Name, pid: nat, stamp: nat, rival: Option<Payload>, running: nat -> bool) returns (r: Finish)
      requires staging.Staging?
      modifies this
      ensures PromoteEnds(old(View()), View(), staging, Previous(OwnSuffix(pid, stamp)), rival, running, r)
      ensures Reliable() && rival.None? ==>
        (r.Finished? <==> CanRecover(old(View())) && staging in old(entries) && old(entries)[staging].Dir?
                          && (Destination in old(entries) ==> Previous(OwnSuffix(pid, stamp)) !in old(entries)))
      ensures Reliable() ==> !r.Crashed?
    {
      r := RecoverInterruptedPromotion();
      ghost var s := View();
      if !r.Finished? { return; }
      var present;
      r, present := PathExists(staging);
      if !r.Finished? { return; }
      if !present || !entries[staging].Dir? { return Threw; }

      r := Publish(staging, Previous(OwnSuffix(pid, stamp)), rival, running);
    }

    /** The destination moved aside, the staging directory moved in, and the backups discarded. */
    method Publish(staging: Name, backup: Name, rival: Option<Payload>, running: nat -> bool) returns (r: Finish)
      requires staging.Staging? && backup.Previous?
      requires staging in entries && entries[staging].Dir?
      modifies this
      ensures PublishEnds(old(View()), View(), staging, backup, rival, running)
      ensures r.Finished? ==> Published(old(View()), View(), staging, backup, running)
      ensures Reliable() && (Destination in old(entries) ==> backup !in old(entries)) ==>
        if rival.None? then r.Finished?
        else r.Threw? && View() == State(Rivalled(Aside(old(View()), backup), rival).entries - Moved(old(View()), backup), rival)
      ensures Reliable() && Destination in old(entries) && backup in old(entries) ==> r.Threw?
    {
      ghost var s := View();
      var movedExisting := false;
      var present;
      r, present := PathExists(Destination);
      if !r.Finished? { return; }
      if present {
        r := Rename(Destination, backup);
        if !r.Finished? { return; }
        movedExisting := true;
      }
      assert View() == Aside(s, backup) && CanMoveAside(s, staging, backup);
      published := Rivalled(View(), rival).published;
      if rival.Some? && Destination !in entries {
        entries := entries[Destination := Dir(rival.value, true)];
      }
      ghost var vacant := View();
      assert vacant == Rivalled(Aside(s, backup), rival);
      r := Rename(staging, Destination);
      if r.Crashed? { return; }
      if r.Threw? {
        if movedExisting {
          MoveBack(s, backup);
          r := UndoOrYield(backup);
        }
        return;
      }
      r := Discard(movedExisting, backup, running);
    }

    method Discard(movedExisting: bool, backup: Name, running: nat -> bool) returns (r: Finish)
      modifies this`calls, this`entries
      ensures Worn(old(entries), entries, (if movedExisting then {backup} else {}) + Doomed(old(entries), running))
      ensures r.Finished? ==> entries == old(entries) - (if movedExisting then {backup} else {}) - Doomed(old(entries), running)
      ensures Reliable() ==> r == Finished
    {
      r := Finished;
      if movedExisting {
        r := RemovePathWithRetry(backup);
        if !r.Finished? { return; }
      }
      r := RemoveOrphanedPreviousPayloads(running);
    }

    /** The handler of a failed publication: put the old payload back, or discard it if another publisher won. */
    method UndoOrYield(backup: Name) returns (r: Finish)
      requires backup.Previous?
      modifies this
      ensures !r.Finished?
      ensures
        || View() == old(View())
        || (Destination !in old(entries) && backup in old(entries) && View() == Move(old(View()), backup, Destination))
        || (Destination in old(entries) && published == old(published) && Worn(old(entries), entries, {backup}))
      ensures Reliable() && backup in old(entries) && Destination !in old(entries) ==> View() == Move(old(View()), backup, Destination)
      ensures Reliable() && Destination in old(entries) ==> r.Threw? && View() == old(View()).(entries := old(entries) - {backup})
      ensures Reliable() ==> r.Threw?
    {
      var present;
      r, present := PathExists(Destination);
      if !r.Finished? { return; }
      if !present {
        r, present := PathExists(backup);
        if !r.Finished? { return; }
        if present {
          r := Rename(backup, Destination);
          return if r.Crashed? then Crashed else Threw;
        }
      }
      r, present := PathExists(Destination);
      if !r.Finished? { return; }
      if present {
        r, present := PathExists(backup);
        if !r.Finished? { return; }
        if present {
          r := RemovePathWithRetry(backup);
          if !r.Finished? { return; }
        }
      }
      return Threw;
    }

    /** Creates and fills the staging directory; the name is one no entry has. */
    method Build(job: Job) returns (r: Finish)
      requires Staging(job.run) !in entries
      modifies this`calls, this`entries
      ensures r.Finished? ==> View() == Built(old(View()), job, true)
      ensures !r.Finished? ==> View() in {old(View()), Built(old(View()), job, false)}
      ensures Reliable() ==> r == Finished
    {
      r := Look();
      if r.Finished? {
        entries := entries[Staging(job.run) := Dir(job.payload, false)];
        r := Look();
        if r.Finished? {
          entries := entries[Staging(job.run) := Dir(job.payload, true)];
        }
      }
    }

    /** The provisioning script: a failed cleanup of the staging directory only counts when the run was not aborted. */
    method Provision(job: Job) returns (r: Finish)
      requires Staging(job.run) !in entries
      modifies this
      ensures ProvisionEnds(old(View()), View(), job, r)
      ensures Reliable() && job.rival.None? && (Destination in old(entries) ==> Backup(job) !in old(entries)) ==>
        (r.Finished? <==> CanRecover(old(View())))
      ensures Reliable() ==> Staging(job.run) !in entries
    {
      r := RecoverInterruptedPromotion();
      ghost var s := View();
      if !r.Finished? {
        ProvisionIntro(old(View()), s, s, s, job, r);
        return;
      }
      r := Build(job);
      if r.Crashed? {
        ProvisionIntro(old(View()), s, View(), View(), job, r);
        return;
      }
      if r.Finished? {
        r := PromoteDirectory(Staging(job.run), job.pid, job.stamp, job.rival, job.running);
        if r.Crashed? {
          ProvisionIntro(old(View()), s, View(), View(), job, r);
          return;
        }
      }
      ghost var mid := View();
      var cleanup := RemovePathWithRetry(Staging(job.run));
      if cleanup.Crashed? || (cleanup.Threw? && !job.aborted) { r := cleanup; }
      ProvisionIntro(old(View()), s, mid, View(), job, r);
    }
  }
}
