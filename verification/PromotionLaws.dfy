/** The crash safety of payload promotion, over every sequence of provisioners. */
module PromotionLaws {
  import opened Base
  import opened Decimal
  import opened Promotion

  /** Recovery from a safe state restores the published payload, and only that. */
  lemma RecoverKeepsSafe(before: State, after: State)
    requires Safe(before) && RecoverEnds(before, after)
    ensures Safe(after) && after.published == before.published
    ensures after != before ==> before.published.Some? && after.entries[Destination] == Dir(before.published.value, true)
    ensures forall run :: Staging(run) in before.entries <==> Staging(run) in after.entries
    ensures forall run :: Staging(run) in before.entries ==> after.entries[Staging(run)] == before.entries[Staging(run)]
  {
    if after != before {
      var name :| name in Candidates(before.entries) && after == Move(before, name, Destination);
      OnlyMember(Candidates(before.entries), name);
    }
  }

  lemma OnlyMember<T>(s: set<T>, x: T)
    requires |s| == 1 && x in s
    ensures s == {x}
  {
    assert |s - {x}| == 0;
  }

  /** A fault-free recovery brings the published payload back exactly when no second candidate makes it ambiguous. */
  lemma RecoverableExactly(s: State)
    requires Safe(s) && Destination !in s.entries
    ensures Recoverable(s) <==> |Candidates(s.entries)| == 1
    ensures |Candidates(s.entries)| >= 1 <==> s.published.Some?
  {
    if s.published.Some? {
      var name :| name in Candidates(s.entries) && s.entries[name] == Dir(s.published.value, true);
      if |Candidates(s.entries)| == 1 {
        OnlyMember(Candidates(s.entries), name);
      }
    }
  }

  lemma AsideKeepsSafe(s: State, backup: Name)
    requires Safe(s) && backup.Previous? && (Destination in s.entries ==> backup !in s.entries)
    ensures Safe(Aside(s, backup))
  {
    if Destination in s.entries {
      assert backup in Candidates(Aside(s, backup).entries);
    }
  }

  /** Whatever a promotion leaves, the payload published last is still whole somewhere recovery looks. */
  lemma PublishKeepsSafe(s: State, after: State, staging: Name, backup: Name, rival: Option<Payload>, running: nat -> bool)
    requires Safe(s) && PublishEnds(s, after, staging, backup, rival, running)
    requires staging.Staging? && backup.Previous?
    requires staging in s.entries && s.entries[staging].Dir? ==> s.entries[staging].whole
    ensures Safe(after)
    ensures after.published in {s.published, rival}
      || (staging in s.entries && s.entries[staging].Dir? && after.published == Some(s.entries[staging].payload))
  {
    if CanMoveAside(s, staging, backup) {
      AsideKeepsSafe(s, backup);
    }
  }

  lemma PromoteKeepsSafe(before: State, after: State, staging: Name, backup: Name, rival: Option<Payload>,
                         running: nat -> bool, r: Finish)
    requires Safe(before) && PromoteEnds(before, after, staging, backup, rival, running, r)
    requires staging.Staging? && backup.Previous?
    requires staging in before.entries && before.entries[staging].Dir? ==> before.entries[staging].whole
    ensures Safe(after)
    ensures after.published in {before.published, rival}
      || (staging in before.entries && before.entries[staging].Dir? && after.published == Some(before.entries[staging].payload))
  {
    var s :| RecoverEnds(before, s) && PublishEnds(s, after, staging, backup, rival, running);
    RecoverKeepsSafe(before, s);
    PublishKeepsSafe(s, after, staging, backup, rival, running);
  }

  /**
    A successful promotion leaves the staging tree at the destination and no backup of a dead
    process; backups of live processes, and those without an owner, stay as they were.
   */
  lemma PromoteFinished(before: State, after: State, staging: Name, backup: Name, rival: Option<Payload>, running: nat -> bool)
    requires Safe(before) && PromoteEnds(before, after, staging, backup, rival, running, Finished)
    requires staging.Staging? && backup.Previous?
    ensures staging in before.entries && before.entries[staging].Dir?
    ensures Destination in after.entries && after.entries[Destination] == before.entries[staging]
    ensures after.published == Some(before.entries[staging].payload)
    ensures staging !in after.entries
    ensures forall name :: name in after.entries ==> !Dead(name, running)
    ensures Destination in before.entries ==> backup !in after.entries
    ensures Destination in before.entries ==> forall name :: name in Candidates(before.entries) && !Dead(name, running) ==>
      name in after.entries && after.entries[name] == before.entries[name]
  {
    var s :| RecoverEnds(before, s) && Published(s, after, staging, backup, running);
    RecoverKeepsSafe(before, s);
  }

  // ---------------------------------------------------------------- whose backups go

  /** A process id that can be running, and is. */
  predicate Alive(pid: nat, running: nat -> bool) {
    pid != 0 && pid <= MAX_SAFE_INTEGER && running(pid)
  }

  /** The suffix does not begin with a process id: nothing in front of its first hyphen, or no digit at its start. */
  predicate Nameless(suffix: string) {
    suffix == "" || !IsDigit(suffix[0])
  }

  /** A backup that another process may still need: one of a running process, or one that names none. */
  ghost predicate Protected(name: Name, running: nat -> bool) {
    name.Previous? && (Nameless(name.suffix) || exists pid: nat, stamp: nat :: Alive(pid, running) && name == Previous(OwnSuffix(pid, stamp)))
  }

  lemma ProtectedIsNotDead(name: Name, running: nat -> bool)
    requires Protected(name, running)
    ensures !Dead(name, running)
  {
    if pid: nat, stamp: nat :| Alive(pid, running) && name == Previous(OwnSuffix(pid, stamp)) {
      OwnSuffixOwner(pid, stamp);
    } else {
      assert PidText(name.suffix) == "" || !AllDigits(PidText(name.suffix)) by {
        if name.suffix != "" && name.suffix[0] != '-' {
          assert PidText(name.suffix)[0] == name.suffix[0];
        }
      }
    }
  }

  lemma GoneProcessIsDead(pid: nat, stamp: nat, running: nat -> bool)
    requires !Alive(pid, running)
    ensures Dead(Previous(OwnSuffix(pid, stamp)), running)
  {
    OwnSuffixOwner(pid, stamp);
  }

  /** However a promotion over an existing destination ends, a protected backup that is not its own is as it was. */
  lemma ProtectedBackupStays(before: State, after: State, staging: Name, backup: Name, rival: Option<Payload>,
                             running: nat -> bool, r: Finish, name: Name)
    requires PromoteEnds(before, after, staging, backup, rival, running, r) && staging.Staging? && backup.Previous?
    requires Destination in before.entries && name in before.entries && name != backup && Protected(name, running)
    ensures name in after.entries && after.entries[name] == before.entries[name]
  {
    ProtectedIsNotDead(name, running);
    var s :| RecoverEnds(before, s) && PublishEnds(s, after, staging, backup, rival, running);
    assert s == before;
  }

  /** A promotion that succeeds leaves no backup of a process that is gone. */
  lemma GoneBackupsGo(before: State, after: State, staging: Name, backup: Name, rival: Option<Payload>,
                      running: nat -> bool, pid: nat, stamp: nat)
    requires Safe(before) && PromoteEnds(before, after, staging, backup, rival, running, Finished)
    requires staging.Staging? && backup.Previous? && !Alive(pid, running)
    ensures Previous(OwnSuffix(pid, stamp)) !in after.entries
  {
    GoneProcessIsDead(pid, stamp, running);
    PromoteFinished(before, after, staging, backup, rival, running);
  }

  function Cleaned(s: State, running: nat -> bool): State {
    s.(entries := s.entries - Doomed(s.entries, running))
  }

  /**
    The orphan cleanup does not look whether the destination still exists. It is safe exactly
    when the destination is there or a backup without a dead owner holds the payload; a
    promotion calls it only right after it published.
   */
  lemma CleanupSafeExactly(s: State, running: nat -> bool)
    requires Safe(s)
    ensures Safe(Cleaned(s, running)) <==>
      || s.published.None? || Destination in s.entries
      || exists name :: name in Candidates(s.entries) && !Dead(name, running) && s.entries[name] == Dir(s.published.value, true)
  {
    var after := Cleaned(s, running);
    assert forall name :: name in Candidates(after.entries) <==> name in Candidates(s.entries) && !Dead(name, running);
  }

  /** The cleanup alone can lose the last copy: the destination is vacant and a dead process owns the only backup. */
  lemma CleanupCanLosePayload()
    ensures exists s, running :: Safe(s) && !Safe(Cleaned(s, running))
  {
    var name := Previous(OwnSuffix(7, 1));
    OwnSuffixOwner(7, 1);
    var s := State(map[name := Dir(0, true)], Some(0));
    var running := (pid: nat) => false;
    assert name in Candidates(s.entries);
    CleanupSafeExactly(s, running);
  }

  lemma StagingDoesNotMatter(mid: State, after: State, staging: Name)
    requires staging.Staging? && Safe(mid) && after.published == mid.published && Worn(mid.entries, after.entries, {staging})
    ensures Safe(after)
  {
    assert Candidates(after.entries) == Candidates(mid.entries);
  }

  lemma BuiltKeepsSafe(s: State, job: Job, whole: bool)
    requires Safe(s)
    ensures Safe(Built(s, job, whole))
  {
    assert Candidates(Built(s, job, whole).entries) == Candidates(s.entries);
  }

  /** One provisioner, however it ends. */
  lemma ProvisionKeepsSafe(before: State, after: State, job: Job, r: Finish)
    requires Safe(before) && ProvisionEnds(before, after, job, r)
    ensures Safe(after)
    ensures after.published in {before.published, job.rival, Some(job.payload)}
    ensures r.Finished? ==>
      && after.published == Some(job.payload)
      && Destination in after.entries && after.entries[Destination] == Dir(job.payload, true)
      && (forall name :: name in after.entries ==> !Dead(name, job.running))
  {
    var staging := Staging(job.run);
    var s, mid :|
      && RecoverEnds(before, s)
      && (mid in {s, Built(s, job, false)} || PromoteEnds(Built(s, job, true), mid, staging, Backup(job), job.rival, job.running, Threw))
      && after.published == mid.published && Worn(mid.entries, after.entries, {staging})
      && (r.Finished? ==> PromoteEnds(Built(s, job, true), mid, staging, Backup(job), job.rival, job.running, Finished));
    RecoverKeepsSafe(before, s);
    BuiltKeepsSafe(s, job, false);
    BuiltKeepsSafe(s, job, true);
    if mid !in {s, Built(s, job, false)} {
      PromoteKeepsSafe(Built(s, job, true), mid, staging, Backup(job), job.rival, job.running, Threw);
    }
    StagingDoesNotMatter(mid, after, staging);
    if r.Finished? {
      PromoteFinished(Built(s, job, true), mid, staging, Backup(job), job.rival, job.running);
    }
  }

  lemma RecoveryIsIdle(before: State, s: State)
    requires RecoverEnds(before, s) && Destination in before.entries
    ensures s == before
  {
  }

  /** However a provisioner ends, a protected backup that is not its own is as it was, while there is a destination. */
  lemma ProvisionSparesProtected(before: State, after: State, job: Job, r: Finish, name: Name)
    requires ProvisionEnds(before, after, job, r) && Destination in before.entries
    requires name in before.entries && name != Backup(job) && Protected(name, job.running)
    ensures name in after.entries && after.entries[name] == before.entries[name]
  {
    var s, mid := ProvisionParts(before, after, job, r);
    RecoveryIsIdle(before, s);
    if mid !in {s, Built(s, job, false)} {
      ProtectedBackupStays(Built(s, job, true), mid, Staging(job.run), Backup(job), job.rival, job.running, Threw, name);
    }
  }

  lemma ProvisionParts(before: State, after: State, job: Job, r: Finish) returns (s: State, mid: State)
    requires ProvisionEnds(before, after, job, r)
    ensures RecoverEnds(before, s)
    ensures mid in {s, Built(s, job, false)}
      || PromoteEnds(Built(s, job, true), mid, Staging(job.run), Backup(job), job.rival, job.running, Threw)
    ensures after.published == mid.published && Worn(mid.entries, after.entries, {Staging(job.run)})
    ensures r.Finished? ==> PromoteEnds(Built(s, job, true), mid, Staging(job.run), Backup(job), job.rival, job.running, Finished)
  {
    s, mid :|
      && RecoverEnds(before, s)
      && (mid in {s, Built(s, job, false)}
          || PromoteEnds(Built(s, job, true), mid, Staging(job.run), Backup(job), job.rival, job.running, Threw))
      && after.published == mid.published
      && Worn(mid.entries, after.entries, {Staging(job.run)})
      && (r.Finished? ==>
            && PromoteEnds(Built(s, job, true), mid, Staging(job.run), Backup(job), job.rival, job.running, Finished));
  }

  // ---------------------------------------------------------------- sequences of provisioners

  datatype Visit = Visit(job: Job, r: Finish)

  ghost predicate Run(states: seq<State>, visits: seq<Visit>) {
    && |states| == |visits| + 1
    && forall k :: 0 <= k < |visits| ==> ProvisionEnds(states[k], states[k + 1], visits[k].job, visits[k].r)
  }

  /**
    Over any sequence of provisioners, each of which may succeed, throw, or crash after any
    file operation: the payload published last is whole at the destination, or in a backup
    while there is no destination. So a vacant destination with one candidate is repaired by
    the next recovery, and never with an older or damaged payload.
   */
  lemma {:induction false} PublishedPayloadSurvives(states: seq<State>, visits: seq<Visit>)
    requires Run(states, visits) && Safe(states[0])
    ensures forall k :: 0 <= k < |states| ==> Safe(states[k])
    decreases |visits|
  {
    if visits != [] {
      var n := |visits|;
      PublishedPayloadSurvives(states[..n], visits[..n - 1]);
      assert forall k :: 0 <= k < n ==> states[..n][k] == states[k];
      ProvisionKeepsSafe(states[n - 1], states[n], visits[n - 1].job, visits[n - 1].r);
    }
  }

  predicate NoneFinished(visits: seq<Visit>, from: nat) {
    forall j :: from <= j < |visits| ==> !visits[j].r.Finished?
  }

  predicate PublishedBy(published: Option<Payload>, visits: seq<Visit>, k: nat) {
    k < |visits| && published in {Some(visits[k].job.payload), visits[k].job.rival} && NoneFinished(visits, k + 1)
  }

  /** What recovery would restore was published by the last run that succeeded, or by one after it or its rival. */
  lemma {:induction false} PublishedIsRecent(states: seq<State>, visits: seq<Visit>)
    requires Run(states, visits) && Safe(states[0])
    ensures (Last(states).published == states[0].published && NoneFinished(visits, 0))
      || exists k: nat :: PublishedBy(Last(states).published, visits, k)
    decreases |visits|, 1
  {
    if visits != [] {
      var n := |visits|;
      var last := visits[n - 1];
      PublishedPayloadSurvives(states, visits);
      ProvisionKeepsSafe(states[n - 1], states[n], last.job, last.r);
      if states[n].published in {Some(last.job.payload), last.job.rival} {
        assert PublishedBy(states[n].published, visits, n - 1);
      } else {
        PublishedIsRecentStep(states, visits);
      }
    }
  }

  lemma NoneFinishedLater(visits: seq<Visit>, from: nat)
    requires visits != [] && from <= |visits| && NoneFinished(Front(visits), from) && !Last(visits).r.Finished?
    ensures NoneFinished(visits, from)
  {
    forall j | from <= j < |visits| ensures !visits[j].r.Finished? {
      if j < |visits| - 1 { assert Front(visits)[j] == visits[j]; }
    }
  }

  lemma PublishedByLater(published: Option<Payload>, visits: seq<Visit>, k: nat)
    requires visits != [] && PublishedBy(published, Front(visits), k) && !Last(visits).r.Finished?
    ensures PublishedBy(published, visits, k)
  {
    assert Front(visits)[k] == visits[k];
    NoneFinishedLater(visits, k + 1);
  }

  lemma PublishedIsRecentStep(states: seq<State>, visits: seq<Visit>)
    requires Run(states, visits) && Safe(states[0]) && visits != []
    requires Last(states).published == states[|visits| - 1].published && !Last(visits).r.Finished?
    ensures (Last(states).published == states[0].published && NoneFinished(visits, 0))
      || exists k: nat :: PublishedBy(Last(states).published, visits, k)
    decreases |visits|, 0
  {
    var before := Front(states);
    assert Run(before, Front(visits)) && Last(before).published == Last(states).published;
    PublishedIsRecent(before, Front(visits));
    if k: nat :| PublishedBy(Last(before).published, Front(visits), k) {
      PublishedByLater(Last(before).published, visits, k);
    } else {
      NoneFinishedLater(visits, 0);
    }
  }
}
