/**
  The coordinator's table of runners read off the history of commands: who is running, who
  was told to stop, and whom a shutdown waits for.
 */
module MediaHistory {
  import opened Base
  import opened KeyOrder
  import opened MediaActor
  import opened MediaActorLaws

  // ---------- Who is running ----------

  /** The command ends the run of a key: its pause or finish, or a registration of the id that is not older. */
  predicate Ends(cmd: Cmd, key: Key) {
    || ((cmd.Pause? || cmd.PauseWithAck? || cmd.Finished?) && KeyOf(cmd) == key)
    || (cmd.Register? && cmd.id == key.0 && cmd.generation >= key.1)
  }

  /** Command i is a registration, and no newer generation of its id is running when it is processed. */
  predicate Accepted(cmds: seq<Cmd>, i: nat): (r: bool)
    ensures r ==> i < |cmds| && cmds[i].Register?
    decreases i, 0
  {
    && i < |cmds| && cmds[i].Register?
    && forall k: nat :: k < i && RunsUntil(cmds, k, i) && cmds[k].id == cmds[i].id ==> cmds[k].generation <= cmds[i].generation
  }

  /** The runner accepted by command i is not ended by any command before n. */
  predicate RunsUntil(cmds: seq<Cmd>, i: nat, n: nat): (r: bool)
    ensures r ==> i < n <= |cmds| && cmds[i].Register?
    decreases i, 1
  {
    i < n <= |cmds| && Accepted(cmds, i) && forall k :: i < k < n ==> !Ends(cmds[k], KeyOf(cmds[i]))
  }

  predicate HasEntry(s: State, id: Id, entry: Entry) {
    id in s.active && s.active[id] == entry
  }

  lemma EntryStep(s: State, cmd: Cmd, id: Id, entry: Entry)
    ensures HasEntry(Step(s, cmd), id, entry) <==>
      || (cmd == Register(id, entry.generation, entry.channel) && !Stale(s, id, entry.generation))
      || (HasEntry(s, id, entry) && !Ends(cmd, (id, entry.generation)))
  {
  }

  ghost predicate RunsAs(cmds: seq<Cmd>, id: Id, entry: Entry) {
    exists i: nat :: RunsUntil(cmds, i, |cmds|) && cmds[i] == Register(id, entry.generation, entry.channel)
  }

  lemma {:induction false} AcceptedPrefix(cmds: seq<Cmd>, i: nat, n: nat)
    requires i < n <= |cmds|
    ensures Accepted(cmds[..n], i) <==> Accepted(cmds, i)
    decreases i
  {
    assert forall k :: 0 <= k < n ==> cmds[..n][k] == cmds[k];
    forall k: nat | k < i ensures RunsUntil(cmds[..n], k, i) <==> RunsUntil(cmds, k, i) {
      AcceptedPrefix(cmds, k, n);
    }
  }

  lemma RunsUntilPrefix(cmds: seq<Cmd>, i: nat, n: nat)
    requires n <= |cmds|
    ensures RunsUntil(cmds[..n], i, n) <==> RunsUntil(cmds, i, n)
  {
    if i < n {
      AcceptedPrefix(cmds, i, n);
      assert forall k :: 0 <= k < n ==> cmds[..n][k] == cmds[k];
    }
  }

  lemma RunsUntilLast(cmds: seq<Cmd>, i: nat)
    requires cmds != []
    ensures var n := |cmds| - 1;
      RunsUntil(cmds, i, |cmds|) <==>
        if i < n then RunsUntil(cmds, i, n) && !Ends(cmds[n], KeyOf(cmds[i])) else i == n && Accepted(cmds, n)
  {
  }

  lemma RunsAsStep(cmds: seq<Cmd>, id: Id, entry: Entry)
    requires cmds != []
    ensures RunsAs(cmds, id, entry) <==>
      || (Last(cmds) == Register(id, entry.generation, entry.channel) && Accepted(cmds, |cmds| - 1))
      || (RunsAs(Front(cmds), id, entry) && !Ends(Last(cmds), (id, entry.generation)))
  {
    var before, n := Front(cmds), |cmds| - 1;
    assert cmds[..n] == before && cmds[n] == Last(cmds);
    if RunsAs(cmds, id, entry) {
      var i: nat :| RunsUntil(cmds, i, |cmds|) && cmds[i] == Register(id, entry.generation, entry.channel);
      RunsUntilLast(cmds, i);
      if i < n {
        RunsUntilPrefix(cmds, i, n);
        assert before[i] == cmds[i];
      }
    }
    if RunsAs(before, id, entry) && !Ends(Last(cmds), (id, entry.generation)) {
      var i: nat :| RunsUntil(before, i, n) && before[i] == Register(id, entry.generation, entry.channel);
      assert before[i] == cmds[i];
      RunsUntilPrefix(cmds, i, n);
      RunsUntilLast(cmds, i);
    }
    RunsUntilLast(cmds, n);
  }

  /** An entry stands in the table exactly for a registration that was accepted and that nothing has ended. */
  lemma {:induction false} EntriesExactly(cmds: seq<Cmd>, id: Id, entry: Entry)
    ensures HasEntry(Run(Initial, cmds), id, entry) <==> RunsAs(cmds, id, entry)
    decreases |cmds|, 1
  {
    if cmds != [] {
      EntriesExactly(Front(cmds), id, entry);
      EntryStep(Run(Initial, Front(cmds)), Last(cmds), id, entry);
      RunsAsStep(cmds, id, entry);
      if Last(cmds).Register? {
        LastAccepted(cmds);
      }
    }
  }

  /** A registration is accepted exactly when the coordinator does not find it stale. */
  lemma {:induction false} LastAccepted(cmds: seq<Cmd>)
    requires cmds != [] && Last(cmds).Register?
    ensures Accepted(cmds, |cmds| - 1) <==> !Stale(Run(Initial, Front(cmds)), Last(cmds).id, Last(cmds).generation)
    decreases |cmds|, 0
  {
    var before, n, cmd := Front(cmds), |cmds| - 1, Last(cmds);
    var s := Run(Initial, before);
    assert cmds[..n] == before;
    if cmd.id in s.active {
      var entry := s.active[cmd.id];
      EntriesExactly(before, cmd.id, entry);
      var i: nat :| RunsUntil(before, i, n) && before[i] == Register(cmd.id, entry.generation, entry.channel);
      RunsUntilPrefix(cmds, i, n);
      assert cmds[i] == before[i];
    }
    forall k: nat | k < n && RunsUntil(cmds, k, n) && cmds[k].id == cmd.id
      ensures HasEntry(s, cmd.id, Entry(cmds[k].generation, cmds[k].channel))
    {
      RunsUntilPrefix(cmds, k, n);
      assert before[k] == cmds[k];
      EntriesExactly(before, cmd.id, Entry(cmds[k].generation, cmds[k].channel));
    }
  }

  lemma AcceptedExactly(cmds: seq<Cmd>, i: nat)
    requires i < |cmds| && cmds[i].Register?
    ensures Accepted(cmds, i) <==> !Stale(Run(Initial, cmds[..i]), cmds[i].id, cmds[i].generation)
  {
    var upto := cmds[..i + 1];
    assert Front(upto) == cmds[..i] && Last(upto) == cmds[i];
    AcceptedPrefix(cmds, i, i + 1);
    LastAccepted(upto);
  }

  lemma EntryHolds(cmds: seq<Cmd>, i: nat, n: nat)
    requires RunsUntil(cmds, i, n)
    ensures HasEntry(Run(Initial, cmds[..n]), cmds[i].id, Entry(cmds[i].generation, cmds[i].channel))
  {
    RunsUntilPrefix(cmds, i, n);
    assert cmds[..n][i] == cmds[i];
    EntriesExactly(cmds[..n], cmds[i].id, Entry(cmds[i].generation, cmds[i].channel));
  }

  lemma EntryHolder(cmds: seq<Cmd>, n: nat, id: Id) returns (i: nat)
    requires n <= |cmds| && id in Run(Initial, cmds[..n]).active
    ensures RunsUntil(cmds, i, n)
    ensures var entry := Run(Initial, cmds[..n]).active[id]; cmds[i] == Register(id, entry.generation, entry.channel)
  {
    var entry := Run(Initial, cmds[..n]).active[id];
    EntriesExactly(cmds[..n], id, entry);
    i :| RunsUntil(cmds[..n], i, n) && cmds[..n][i] == Register(id, entry.generation, entry.channel);
    RunsUntilPrefix(cmds, i, n);
  }

  /** A registration is turned away exactly when a newer generation of the id is running. */
  lemma StaleExactly(cmds: seq<Cmd>, n: nat, id: Id, generation: nat)
    requires n <= |cmds|
    ensures Stale(Run(Initial, cmds[..n]), id, generation) <==>
            exists i: nat :: RunsUntil(cmds, i, n) && cmds[i].id == id && cmds[i].generation > generation
  {
    if Stale(Run(Initial, cmds[..n]), id, generation) {
      var i := EntryHolder(cmds, n, id);
      assert RunsUntil(cmds, i, n) && cmds[i].id == id && cmds[i].generation > generation;
    }
    if i: nat :| RunsUntil(cmds, i, n) && cmds[i].id == id && cmds[i].generation > generation {
      EntryHolds(cmds, i, n);
    }
  }

  // ---------- Whom a shutdown waits for ----------

  /** The keys running when command n is processed. */
  function RunningKeys(cmds: seq<Cmd>, n: nat): set<Key>
    requires n <= |cmds|
  {
    set i: nat | i < n && RunsUntil(cmds, i, n) :: KeyOf(cmds[i])
  }

  /** A shutdown finds exactly the runners accepted before it that nothing had ended. */
  lemma AwaitedExactly(cmds: seq<Cmd>, n: nat)
    requires n <= |cmds|
    ensures ActiveKeys(Run(Initial, cmds[..n])) == RunningKeys(cmds, n)
    ensures Run(Initial, cmds[..n]).active == map[] <==> RunningKeys(cmds, n) == {}
  {
    var s := Run(Initial, cmds[..n]);
    forall key | key in ActiveKeys(s) ensures key in RunningKeys(cmds, n) {
      var id :| id in s.active && key == (id, s.active[id].generation);
      var i := EntryHolder(cmds, n, id);
      assert KeyOf(cmds[i]) == key;
    }
    forall key | key in RunningKeys(cmds, n) ensures key in ActiveKeys(s) {
      var i: nat :| i < n && RunsUntil(cmds, i, n) && KeyOf(cmds[i]) == key;
      EntryHolds(cmds, i, n);
    }
    if s.active != map[] {
      var id :| id in s.active;
      assert (id, s.active[id].generation) in ActiveKeys(s);
    }
  }

  /** No other shutdown finds runners from `from` up to `upto`. */
  ghost predicate Unrivalled(cmds: seq<Cmd>, from: nat, upto: nat)
    requires upto <= |cmds|
  {
    forall k :: from <= k < upto && cmds[k].CancelAllForShutdown? ==> RunningKeys(cmds, k) == {}
  }

  lemma UnrivalledIsUndisturbed(cmds: seq<Cmd>, from: nat, upto: nat)
    requires upto <= |cmds|
    ensures Unrivalled(cmds, from, upto) <==> Undisturbed(Initial, cmds, from, upto)
  {
    forall k | from <= k < upto
      ensures Displaces(Run(Initial, cmds[..k]), cmds[k]) <==> cmds[k].CancelAllForShutdown? && RunningKeys(cmds, k) != {}
    {
      AwaitedExactly(cmds, k);
    }
  }

  /** What became of a shutdown that waits for `awaited`: `free` if no rival came before the keys were covered, or at all. */
  ghost predicate Fate(t: State, reply: Reply, awaited: set<Key>, later: seq<Cmd>, freeToCover: bool, freeToEnd: bool) {
    && AnswersTo(t.shutdownAnswers, reply) == (if awaited <= FinishedKeys(later) && freeToCover then [AnswerTo(awaited, later)] else [])
    && (ShutdownPending(t, reply) <==> !(awaited <= FinishedKeys(later)) && freeToEnd)
  }

  lemma FateFromState(cmds: seq<Cmd>, j: nat, awaited: set<Key>)
    requires j < |cmds| && cmds[j].CancelAllForShutdown? && ShutdownFate(cmds, j)
    requires awaited == ActiveKeys(Run(Initial, cmds[..j]))
    ensures var later := cmds[j + 1..];
      Fate(Run(Initial, cmds), cmds[j].reply, awaited, later,
        Undisturbed(Initial, cmds, j + 1, j + 1 + FirstCover(awaited, later)), Undisturbed(Initial, cmds, j + 1, |cmds|))
  {
  }

  /** The fate of a shutdown, with every runner it waits for read off the history. */
  lemma ShutdownFateByHistory(cmds: seq<Cmd>, j: nat)
    requires j < |cmds| && cmds[j].CancelAllForShutdown? && ShutdownRepliesDiffer(cmds)
    ensures var awaited, later := RunningKeys(cmds, j), cmds[j + 1..];
      Fate(Run(Initial, cmds), cmds[j].reply, awaited, later,
        Unrivalled(cmds, j + 1, j + 1 + FirstCover(awaited, later)), Unrivalled(cmds, j + 1, |cmds|))
  {
    ShutdownWaits(cmds, j);
    AwaitedExactly(cmds, j);
    FateFromState(cmds, j, RunningKeys(cmds, j));
    UnrivalledIsUndisturbed(cmds, j + 1, j + 1 + FirstCover(RunningKeys(cmds, j), cmds[j + 1..]));
    UnrivalledIsUndisturbed(cmds, j + 1, |cmds|);
  }

  /** Each watch channel belongs to one registration. */
  ghost predicate ChannelsOnce(cmds: seq<Cmd>) {
    forall i, k :: 0 <= i < k < |cmds| && cmds[i].Register? && cmds[k].Register? ==> cmds[i].channel != cmds[k].channel
  }

  /** A pause of the runner, or a registration in its place, lies between i and n. */
  predicate PausedOrReplaced(cmds: seq<Cmd>, i: nat, n: nat)
    requires n <= |cmds| && i < |cmds| && cmds[i].Register?
  {
    exists k :: i < k < n && !cmds[k].Finished? && Ends(cmds[k], KeyOf(cmds[i]))
  }

  predicate FinishedBetween(cmds: seq<Cmd>, i: nat, n: nat)
    requires n <= |cmds| && i < |cmds| && cmds[i].Register?
  {
    exists k :: i < k < n && cmds[k].Finished? && KeyOf(cmds[k]) == KeyOf(cmds[i])
  }

  /** An accepted runner that has not finished is among those a shutdown finds exactly if it was neither paused nor replaced. */
  lemma RunnerAwaitedExactly(cmds: seq<Cmd>, i: nat, j: nat)
    requires ChannelsOnce(cmds) && i < j < |cmds| && Accepted(cmds, i) && !FinishedBetween(cmds, i, j)
    ensures HasEntry(Run(Initial, cmds[..j]), cmds[i].id, Entry(cmds[i].generation, cmds[i].channel)) <==> !PausedOrReplaced(cmds, i, j)
  {
    if !PausedOrReplaced(cmds, i, j) {
      assert RunsUntil(cmds, i, j);
      EntryHolds(cmds, i, j);
    }
    if HasEntry(Run(Initial, cmds[..j]), cmds[i].id, Entry(cmds[i].generation, cmds[i].channel)) {
      var k := EntryHolder(cmds, j, cmds[i].id);
      assert k == i;
    }
  }

  // ---------- The promise of a shutdown ----------

  /** The runner of command i has finished. */
  predicate Completed(cmds: seq<Cmd>, i: nat)
    requires i < |cmds| && cmds[i].Register?
  {
    FinishedAfter(cmds, i, cmds[i].id, cmds[i].generation)
  }

  ghost predicate AnsweredAt(cmds: seq<Cmd>, j: nat)
    requires j < |cmds| && cmds[j].CancelAllForShutdown?
  {
    AnswersTo(Run(Initial, cmds).shutdownAnswers, cmds[j].reply) != []
  }

  /** When a shutdown has been answered, every accepted runner has finished that was not paused or replaced before. */
  lemma AnsweredCompletes(cmds: seq<Cmd>, j: nat, i: nat)
    requires j < |cmds| && cmds[j].CancelAllForShutdown? && ShutdownRepliesDiffer(cmds) && AnsweredAt(cmds, j)
    requires i < j && Accepted(cmds, i) && !PausedOrReplaced(cmds, i, j)
    ensures Completed(cmds, i)
  {
    ShutdownFateByHistory(cmds, j);
    if !FinishedBetween(cmds, i, j) {
      assert RunsUntil(cmds, i, j);
      var key := KeyOf(cmds[i]);
      assert key in RunningKeys(cmds, j);
      assert key in FinishedKeys(cmds[j + 1..]);
      var k :| 0 <= k < |cmds[j + 1..]| && cmds[j + 1..][k].Finished? && (cmds[j + 1..][k].id, cmds[j + 1..][k].generation) == key;
      assert cmds[j + 1 + k] == cmds[j + 1..][k];
    }
  }

  /**
    An answer means that every accepted runner has finished if and only if those have that
    were paused or replaced before the shutdown was handled.
   */
  lemma ShutdownPromiseExactly(cmds: seq<Cmd>, j: nat)
    requires j < |cmds| && cmds[j].CancelAllForShutdown? && ShutdownRepliesDiffer(cmds) && AnsweredAt(cmds, j)
    ensures (forall i: nat :: i < j && Accepted(cmds, i) ==> Completed(cmds, i)) <==>
            (forall i: nat :: i < j && Accepted(cmds, i) && PausedOrReplaced(cmds, i, j) ==> Completed(cmds, i))
  {
    forall i: nat | i < j && Accepted(cmds, i) && !PausedOrReplaced(cmds, i, j) ensures Completed(cmds, i) {
      AnsweredCompletes(cmds, j, i);
    }
  }

  /** A runner that was paused and has not finished: the shutdown is answered at once. */
  lemma PausedRunnerNotAwaited(cmds: seq<Cmd>, id: Id, generation: nat, channel: Channel, reply: Reply)
    requires cmds == [Register(id, generation, channel), Pause(id, generation), CancelAllForShutdown(reply)]
    ensures Accepted(cmds, 0) && !Completed(cmds, 0)
    ensures Run(Initial, cmds).shutdownAnswers == [(reply, [])]
  {
    RunNext(cmds, 0);
    RunNext(cmds, 1);
    RunNext(cmds, 2);
    assert cmds[..0] == [] && cmds[..3] == cmds;
    assert Run(Initial, cmds[..2]).active == map[];
  }

  // ---------- Pauses in advance ----------

  predicate Pauses(cmd: Cmd) {
    cmd.Pause? || cmd.PauseWithAck?
  }

  /** Command k is a pause whose runner is not running: not yet registered, ended, or turned away. */
  predicate Misses(cmds: seq<Cmd>, k: nat) {
    k < |cmds| && Pauses(cmds[k]) && forall i: nat :: i < k && RunsUntil(cmds, i, k) ==> KeyOf(cmds[i]) != KeyOf(cmds[k])
  }

  /** Command m retires what was paused in advance for an id up to its own generation: a finish, or an accepted registration. */
  predicate RetiresUpTo(cmds: seq<Cmd>, m: nat, id: Id, generation: nat) {
    && m < |cmds| && (cmds[m].Finished? || (cmds[m].Register? && Accepted(cmds, m)))
    && cmds[m].id == id && cmds[m].generation >= generation
  }

  /** Before n a pause of this generation missed its runner, and nothing has retired it since. */
  predicate InForce(cmds: seq<Cmd>, n: nat, id: Id, generation: nat)
    requires n <= |cmds|
  {
    exists k: nat :: k < n && InForceFrom(cmds, k, n, id, generation)
  }

  predicate InForceFrom(cmds: seq<Cmd>, k: nat, n: nat, id: Id, generation: nat)
    requires k < n <= |cmds|
  {
    && Misses(cmds, k) && cmds[k].id == id && cmds[k].generation == generation
    && forall m: nat :: k < m < n ==> !RetiresUpTo(cmds, m, id, generation)
  }

  /** The tombstone of an id is the largest generation in force, and there is one exactly if any is. */
  ghost predicate TombstoneOf(s: State, cmds: seq<Cmd>, n: nat, id: Id)
    requires n <= |cmds|
  {
    && (id in s.tombstones <==> exists generation: nat :: InForce(cmds, n, id, generation))
    && (id in s.tombstones ==>
          InForce(cmds, n, id, s.tombstones[id])
          && forall generation: nat :: InForce(cmds, n, id, generation) ==> generation <= s.tombstones[id])
  }

  lemma MissesExactly(cmds: seq<Cmd>, k: nat)
    requires k < |cmds| && Pauses(cmds[k])
    ensures Misses(cmds, k) <==> !Matches(Run(Initial, cmds[..k]), cmds[k].id, cmds[k].generation)
  {
    if Matches(Run(Initial, cmds[..k]), cmds[k].id, cmds[k].generation) {
      var i := EntryHolder(cmds, k, cmds[k].id);
      assert KeyOf(cmds[i]) == KeyOf(cmds[k]);
    }
    if i: nat :| i < k && RunsUntil(cmds, i, k) && KeyOf(cmds[i]) == KeyOf(cmds[k]) {
      EntryHolds(cmds, i, k);
    }
  }

  /** One command adds its own missed pause and drops what it retires. */
  lemma InForceNext(cmds: seq<Cmd>, n: nat, id: Id, generation: nat)
    requires n < |cmds|
    ensures InForce(cmds, n + 1, id, generation) <==>
      || (Misses(cmds, n) && cmds[n].id == id && cmds[n].generation == generation)
      || (InForce(cmds, n, id, generation) && !RetiresUpTo(cmds, n, id, generation))
  {
    if InForce(cmds, n + 1, id, generation) {
      var k: nat :| k < n + 1 && InForceFrom(cmds, k, n + 1, id, generation);
      if k < n {
        assert InForceFrom(cmds, k, n, id, generation);
      }
    }
    if InForce(cmds, n, id, generation) && !RetiresUpTo(cmds, n, id, generation) {
      var k: nat :| k < n && InForceFrom(cmds, k, n, id, generation);
      assert InForceFrom(cmds, k, n + 1, id, generation);
    }
    if Misses(cmds, n) && cmds[n].id == id && cmds[n].generation == generation {
      assert InForceFrom(cmds, n, n + 1, id, generation);
    }
  }

  /** What one command does to the tombstone of an id. */
  lemma TombstoneStep(s: State, cmd: Cmd, id: Id)
    ensures var t := Step(s, cmd);
      var missed := Pauses(cmd) && cmd.id == id && !Matches(s, id, cmd.generation);
      var retires := !cmd.CancelAllForShutdown? && cmd.id == id && id in s.tombstones && cmd.generation >= s.tombstones[id];
      if cmd.CancelAllForShutdown? then (id in t.tombstones <==> id in s.tombstones) && (id in s.tombstones ==> t.tombstones[id] == s.tombstones[id])
      else if missed then id in t.tombstones && t.tombstones[id] == (if id in s.tombstones && s.tombstones[id] > cmd.generation then s.tombstones[id] else cmd.generation)
      else if (cmd.Finished? || (cmd.Register? && !Stale(s, id, cmd.generation))) && retires then id !in t.tombstones
      else (id in t.tombstones <==> id in s.tombstones) && (id in s.tombstones ==> t.tombstones[id] == s.tombstones[id])
  {
  }

  lemma TombstoneMissed(cmds: seq<Cmd>, n: nat, id: Id)
    requires n < |cmds| && Misses(cmds, n) && cmds[n].id == id && TombstoneOf(Run(Initial, cmds[..n]), cmds, n, id)
    ensures TombstoneOf(Run(Initial, cmds[..n + 1]), cmds, n + 1, id)
  {
    var s, t, cmd, next := Run(Initial, cmds[..n]), Run(Initial, cmds[..n + 1]), cmds[n], n + 1;
    RunNext(cmds, n);
    MissesExactly(cmds, n);
    TombstoneStep(s, cmd, id);
    InForceNext(cmds, n, id, cmd.generation);
    if id in s.tombstones { InForceNext(cmds, n, id, s.tombstones[id]); }
    forall generation: nat | InForce(cmds, next, id, generation) ensures generation <= t.tombstones[id] {
      InForceNext(cmds, n, id, generation);
    }
  }

  lemma TombstoneRetired(cmds: seq<Cmd>, n: nat, id: Id)
    requires n < |cmds| && RetiresUpTo(cmds, n, id, 0) && TombstoneOf(Run(Initial, cmds[..n]), cmds, n, id)
    ensures TombstoneOf(Run(Initial, cmds[..n + 1]), cmds, n + 1, id)
  {
    var s, t, cmd, next := Run(Initial, cmds[..n]), Run(Initial, cmds[..n + 1]), cmds[n], n + 1;
    RunNext(cmds, n);
    if cmd.Register? { AcceptedExactly(cmds, n); }
    TombstoneStep(s, cmd, id);
    if id in s.tombstones { InForceNext(cmds, n, id, s.tombstones[id]); }
    forall generation: nat | InForce(cmds, next, id, generation)
      ensures InForce(cmds, n, id, generation) && cmd.generation < generation
    {
      InForceNext(cmds, n, id, generation);
    }
  }

  lemma TombstoneKept(cmds: seq<Cmd>, n: nat, id: Id)
    requires n < |cmds| && TombstoneOf(Run(Initial, cmds[..n]), cmds, n, id)
    requires !RetiresUpTo(cmds, n, id, 0) && !(Misses(cmds, n) && cmds[n].id == id)
    ensures TombstoneOf(Run(Initial, cmds[..n + 1]), cmds, n + 1, id)
  {
    var s, t, cmd, next := Run(Initial, cmds[..n]), Run(Initial, cmds[..n + 1]), cmds[n], n + 1;
    RunNext(cmds, n);
    if cmd.Register? { AcceptedExactly(cmds, n); }
    if Pauses(cmd) { MissesExactly(cmds, n); }
    TombstoneStep(s, cmd, id);
    if id in s.tombstones { InForceNext(cmds, n, id, s.tombstones[id]); }
    forall generation: nat | InForce(cmds, next, id, generation) ensures InForce(cmds, n, id, generation) {
      InForceNext(cmds, n, id, generation);
    }
  }

  /** After any commands the tombstones are exactly the pauses in advance that are in force. */
  lemma {:induction false} TombstonesExactly(cmds: seq<Cmd>, n: nat, id: Id)
    requires n <= |cmds|
    ensures TombstoneOf(Run(Initial, cmds[..n]), cmds, n, id)
  {
    if n == 0 {
      assert cmds[..0] == [];
    } else {
      TombstonesExactly(cmds, n - 1, id);
      if Misses(cmds, n - 1) && cmds[n - 1].id == id {
        TombstoneMissed(cmds, n - 1, id);
      } else if RetiresUpTo(cmds, n - 1, id, 0) {
        TombstoneRetired(cmds, n - 1, id);
      } else {
        TombstoneKept(cmds, n - 1, id);
      }
    }
  }

  lemma CancelledExactly(cmds: seq<Cmd>, i: nat)
    requires i < |cmds| && cmds[i].Register?
    ensures Cancelled(cmds, i) <==>
            var s := Run(Initial, cmds[..i]); cmds[i].id in s.tombstones && s.tombstones[cmds[i].id] >= cmds[i].generation
  {
    TombstonesExactly(cmds, i, cmds[i].id);
  }

  /** A pause that arrives before its registration stops the runner from the start. */
  lemma PauseBeforeRegister(id: Id, generation: nat, channel: Channel)
    ensures var s := Run(Initial, [Pause(id, generation), Register(id, generation, channel)]);
            s.signalled == {channel} && id in s.active && id !in s.tombstones
  {
    var cmds := [Pause(id, generation), Register(id, generation, channel)];
    RunNext(cmds, 0);
    RunNext(cmds, 1);
    assert cmds[..0] == [] && cmds[..2] == cmds;
  }

  // ---------- Who was told to stop ----------

  /** The command tells the runner of a key, if it is running, to stop. */
  predicate Stops(cmd: Cmd, key: Key) {
    cmd.CancelAllForShutdown? || (!cmd.Finished? && Ends(cmd, key))
  }

  /** A pause that found no runner, of a generation at least as new, is still in force where command i is processed. */
  ghost predicate Cancelled(cmds: seq<Cmd>, i: nat)
    requires i < |cmds| && cmds[i].Register?
  {
    exists generation: nat :: generation >= cmds[i].generation && InForce(cmds, i, cmds[i].id, generation)
  }

  ghost predicate StoppedLater(cmds: seq<Cmd>, i: nat) {
    exists k: nat :: k < |cmds| && RunsUntil(cmds, i, k) && Stops(cmds[k], KeyOf(cmds[i]))
  }

  /** The reasons to tell the runner of command i to stop: turned away, cancelled in advance, or stopped while it ran. */
  ghost predicate Told(cmds: seq<Cmd>, i: nat)
    requires i < |cmds| && cmds[i].Register?
  {
    !Accepted(cmds, i) || Cancelled(cmds, i) || StoppedLater(cmds, i)
  }

  lemma {:induction false} ChannelsKnown(cmds: seq<Cmd>, channel: Channel)
    ensures channel in Run(Initial, cmds).signalled || channel in ActiveChannels(Run(Initial, cmds)) ==>
            exists i :: 0 <= i < |cmds| && cmds[i].Register? && cmds[i].channel == channel
  {
    if cmds != [] {
      ChannelsKnown(Front(cmds), channel);
      var s, n := Run(Initial, Front(cmds)), |cmds| - 1;
      if channel in s.signalled || channel in ActiveChannels(s) {
        var i :| 0 <= i < n && Front(cmds)[i].Register? && Front(cmds)[i].channel == channel;
        assert cmds[i] == Front(cmds)[i];
      } else if channel in Run(Initial, cmds).signalled || channel in ActiveChannels(Run(Initial, cmds)) {
        ChannelStep(s, Last(cmds), channel);
        assert cmds[n] == Last(cmds);
      }
    }
  }

  lemma ChannelStep(s: State, cmd: Cmd, channel: Channel)
    requires channel !in s.signalled && channel !in ActiveChannels(s)
    ensures channel in Step(s, cmd).signalled || channel in ActiveChannels(Step(s, cmd)) ==> cmd.Register? && cmd.channel == channel
  {
    forall id | id in s.active ensures s.active[id].channel != channel {
      assert s.active[id].channel in ActiveChannels(s);
    }
  }

  /** A channel is signalled by its own registration, or by what stops the runner that holds it. */
  lemma SignalStep(s: State, cmd: Cmd, id: Id, generation: nat, channel: Channel)
    requires forall other :: other in s.active && s.active[other].channel == channel ==>
               other == id && s.active[other].generation == generation
    requires !(cmd.Register? && cmd.channel == channel)
    ensures channel in Step(s, cmd).signalled <==>
            channel in s.signalled || (HasEntry(s, id, Entry(generation, channel)) && Stops(cmd, (id, generation)))
  {
    if HasEntry(s, id, Entry(generation, channel)) {
      assert channel in ActiveChannels(s);
    }
  }

  lemma CancelledFront(cmds: seq<Cmd>, i: nat)
    requires i < |cmds| - 1 && cmds[i].Register? && Front(cmds)[i] == cmds[i]
    ensures Cancelled(cmds, i) <==> Cancelled(Front(cmds), i)
  {
    assert Front(cmds)[..i] == cmds[..i];
    CancelledExactly(cmds, i);
    CancelledExactly(Front(cmds), i);
  }

  lemma RunsUntilFront(cmds: seq<Cmd>, i: nat, k: nat)
    requires cmds != [] && k <= |cmds| - 1
    ensures RunsUntil(Front(cmds), i, k) <==> RunsUntil(cmds, i, k)
  {
    assert Front(cmds)[..k] == cmds[..k];
    RunsUntilPrefix(Front(cmds), i, k);
    RunsUntilPrefix(cmds, i, k);
  }

  lemma ToldStep(cmds: seq<Cmd>, i: nat)
    requires i < |cmds| - 1 && cmds[i].Register? && Front(cmds)[i] == cmds[i]
    ensures var n := |cmds| - 1;
            Told(cmds, i) <==> Told(Front(cmds), i) || (RunsUntil(cmds, i, n) && Stops(cmds[n], KeyOf(cmds[i])))
  {
    var before, n := Front(cmds), |cmds| - 1;
    AcceptedPrefix(cmds, i, n);
    CancelledFront(cmds, i);
    if StoppedLater(before, i) {
      var k: nat :| k < n && RunsUntil(before, i, k) && Stops(before[k], KeyOf(cmds[i]));
      assert cmds[k] == before[k];
      RunsUntilFront(cmds, i, k);
    }
    if StoppedLater(cmds, i) {
      var k: nat :| k < |cmds| && RunsUntil(cmds, i, k) && Stops(cmds[k], KeyOf(cmds[i]));
      if k < n {
        assert before[k] == cmds[k];
        RunsUntilFront(cmds, i, k);
      }
    }
  }

  /** A channel has been signalled exactly for one of these reasons, in every history. */
  lemma {:induction false} SignalledExactly(cmds: seq<Cmd>, i: nat)
    requires ChannelsOnce(cmds) && i < |cmds| && cmds[i].Register?
    ensures cmds[i].channel in Run(Initial, cmds).signalled <==> Told(cmds, i)
  {
    var before, n := Front(cmds), |cmds| - 1;
    assert cmds[..n] == before && cmds[n] == Last(cmds);
    assert forall k :: 0 <= k < n ==> before[k] == cmds[k];
    if i == n {
      FreshChannel(cmds);
    } else {
      SignalledExactly(before, i);
      ToldStep(cmds, i);
      SoleHolder(before, i);
      SignalStep(Run(Initial, before), Last(cmds), cmds[i].id, cmds[i].generation, cmds[i].channel);
      HolderRuns(cmds, i);
    }
  }

  lemma FreshChannel(cmds: seq<Cmd>)
    requires ChannelsOnce(cmds) && cmds != [] && Last(cmds).Register?
    ensures Last(cmds).channel in Run(Initial, cmds).signalled <==> Told(cmds, |cmds| - 1)
  {
    var before, n, cmd := Front(cmds), |cmds| - 1, Last(cmds);
    assert cmds[..n] == before && cmds[n] == cmd;
    ChannelsKnown(before, cmd.channel);
    AcceptedExactly(cmds, n);
    CancelledExactly(cmds, n);
    UncancelledRegistration(Run(Initial, before), cmd.id, cmd.generation, cmd.channel);
  }

  lemma SoleHolder(cmds: seq<Cmd>, i: nat)
    requires ChannelsOnce(cmds) && i < |cmds| && cmds[i].Register?
    ensures var s := Run(Initial, cmds);
      forall other :: other in s.active && s.active[other].channel == cmds[i].channel ==>
        other == cmds[i].id && s.active[other].generation == cmds[i].generation
  {
    var s := Run(Initial, cmds);
    assert cmds[..|cmds|] == cmds;
    forall other | other in s.active && s.active[other].channel == cmds[i].channel
      ensures other == cmds[i].id && s.active[other].generation == cmds[i].generation
    {
      var k := EntryHolder(cmds, |cmds|, other);
    }
  }

  lemma HolderRuns(cmds: seq<Cmd>, i: nat)
    requires ChannelsOnce(cmds) && i < |cmds| - 1 && cmds[i].Register?
    ensures var n := |cmds| - 1;
      HasEntry(Run(Initial, cmds[..n]), cmds[i].id, Entry(cmds[i].generation, cmds[i].channel)) <==> RunsUntil(cmds, i, n)
  {
    var n := |cmds| - 1;
    if RunsUntil(cmds, i, n) {
      EntryHolds(cmds, i, n);
    }
    if HasEntry(Run(Initial, cmds[..n]), cmds[i].id, Entry(cmds[i].generation, cmds[i].channel)) {
      var k := EntryHolder(cmds, n, cmds[i].id);
      assert k == i;
    }
  }
}
