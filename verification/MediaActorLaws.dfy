/** What the coordinator keeps over every sequence of commands it may receive. */
module MediaActorLaws {
  import opened Base
  import opened KeyOrder
  import opened MediaActor

  // ---------- One live runner per id ----------

  predicate FinishedAfter(cmds: seq<Cmd>, i: nat, id: Id, generation: nat) {
    exists j :: i < j < |cmds| && cmds[j].Finished? && cmds[j].id == id && cmds[j].generation == generation
  }

  predicate Live(cmds: seq<Cmd>, i: nat)
    requires i < |cmds| && cmds[i].Register?
  {
    cmds[i].channel !in Run(Initial, cmds).signalled
    && !FinishedAfter(cmds, i, cmds[i].id, cmds[i].generation)
  }

  lemma RunNext(cmds: seq<Cmd>, k: nat)
    requires k < |cmds|
    ensures Run(Initial, cmds[..k + 1]) == Step(Run(Initial, cmds[..k]), cmds[k])
  {
    assert Front(cmds[..k + 1]) == cmds[..k];
  }

  lemma {:induction false} SignalsPersist(s: State, cmds: seq<Cmd>)
    ensures s.signalled <= Run(s, cmds).signalled
  {
    if cmds != [] {
      SignalsPersist(s, Front(cmds));
    }
  }

  /**
    Every registration ever processed has been told to stop, or its runner has
    reported that it finished, or it is the one entry kept for its id.
   */
  lemma {:induction false} RegistrationAccounted(cmds: seq<Cmd>, i: nat)
    requires i < |cmds| && cmds[i].Register?
    ensures Live(cmds, i) ==>
              var s := Run(Initial, cmds);
              cmds[i].id in s.active && s.active[cmds[i].id] == Entry(cmds[i].generation, cmds[i].channel)
  {
    if i < |cmds| - 1 && Live(cmds, i) {
      var before := Front(cmds);
      var s := Run(Initial, before);
      assert Run(Initial, cmds) == Step(s, Last(cmds));
      assert before[i] == cmds[i];
      FinishedAfterFront(cmds, i, (cmds[i].id, cmds[i].generation));
      RegistrationAccounted(before, i);
      assert Last(cmds) == cmds[|cmds| - 1];
    }
  }

  /** Two live registrations of one id on different channels cannot exist. */
  lemma AtMostOneLiveRunner(cmds: seq<Cmd>, i: nat, j: nat)
    requires i < |cmds| && cmds[i].Register? && j < |cmds| && cmds[j].Register?
    requires cmds[i].id == cmds[j].id
    requires Live(cmds, i) && Live(cmds, j)
    ensures cmds[i].channel == cmds[j].channel && cmds[i].generation == cmds[j].generation
  {
    RegistrationAccounted(cmds, i);
    RegistrationAccounted(cmds, j);
  }

  /** When the coordinator ends, every runner it was ever told of has finished or been told to stop. */
  lemma EndSignalsEveryRunner(cmds: seq<Cmd>, i: nat)
    requires i < |cmds| && cmds[i].Register?
    ensures cmds[i].channel in Ended(Run(Initial, cmds)).signalled || FinishedAfter(cmds, i, cmds[i].id, cmds[i].generation)
  {
    RegistrationAccounted(cmds, i);
  }

  // ---------- Generations do not disturb each other ----------

  ghost predicate SameExceptKey(s: State, t: State, id: Id, generation: nat) {
    && (forall other :: other in s.active && (other != id || s.active[other].generation != generation)
          ==> other in t.active && t.active[other] == s.active[other])
    && t.active.Keys <= s.active.Keys
    && (forall channel :: channel in t.signalled && channel !in s.signalled
          ==> Matches(s, id, generation) && channel == s.active[id].channel)
  }

  /** A pause or finish of one generation never signals or removes another. */
  lemma PauseAndFinishAreExact(s: State, cmd: Cmd)
    requires cmd.Pause? || cmd.PauseWithAck? || cmd.Finished?
    ensures SameExceptKey(s, Step(s, cmd), cmd.id, cmd.generation)
    ensures Matches(s, cmd.id, cmd.generation) ==> cmd.id !in Step(s, cmd).active
    ensures Matches(s, cmd.id, cmd.generation) && !cmd.Finished? ==> s.active[cmd.id].channel in Step(s, cmd).signalled
  {
  }

  ghost predicate PresentThroughout(s: State, cmds: seq<Cmd>, id: Id) {
    forall k :: 0 <= k <= |cmds| ==> id in Run(s, cmds[..k]).active
  }

  /** While an id keeps an entry, that entry's generation never goes down. */
  lemma {:induction false} GenerationNeverDecreases(s: State, cmds: seq<Cmd>, id: Id)
    requires PresentThroughout(s, cmds, id)
    ensures id in s.active && id in Run(s, cmds).active
    ensures s.active[id].generation <= Run(s, cmds).active[id].generation
  {
    assert id in Run(s, cmds[..0]).active;
    if cmds != [] {
      var before := Front(cmds);
      forall k | 0 <= k <= |before| ensures id in Run(s, before[..k]).active {
        assert before[..k] == cmds[..k];
      }
      GenerationNeverDecreases(s, before, id);
      assert cmds[..|cmds|] == cmds;
    }
  }

  // ---------- Pause before register ----------

  /** The command retires the id's tombstone: a registration at least as new that is not stale, or such a finish. */
  predicate Retires(s: State, cmd: Cmd, id: Id) {
    && id in s.tombstones && (cmd.Register? || cmd.Finished?) && cmd.id == id && cmd.generation >= s.tombstones[id]
    && (cmd.Register? ==> !Stale(s, id, cmd.generation))
  }

  /** What retires a tombstone, and nothing else; any other command keeps it or raises it. */
  lemma TombstoneRetiredExactly(s: State, cmd: Cmd, id: Id)
    requires id in s.tombstones
    ensures id !in Step(s, cmd).tombstones <==> Retires(s, cmd, id)
    ensures id in Step(s, cmd).tombstones ==> s.tombstones[id] <= Step(s, cmd).tombstones[id]
  {
  }

  ghost predicate NoneRetires(s: State, cmds: seq<Cmd>, id: Id) {
    forall k :: 0 <= k < |cmds| ==> !Retires(Run(s, cmds[..k]), cmds[k], id)
  }

  ghost predicate TombstoneThroughout(s: State, cmds: seq<Cmd>, id: Id) {
    forall k :: 0 <= k <= |cmds| ==> id in Run(s, cmds[..k]).tombstones
  }

  lemma NoneRetiresFront(s: State, cmds: seq<Cmd>, id: Id)
    requires cmds != []
    ensures NoneRetires(s, cmds, id) <==> NoneRetires(s, Front(cmds), id) && !Retires(Run(s, Front(cmds)), Last(cmds), id)
  {
    var n := |cmds| - 1;
    assert cmds[..n] == Front(cmds) && cmds[n] == Last(cmds);
    assert forall k :: 0 <= k < n ==> Front(cmds)[..k] == cmds[..k] && Front(cmds)[k] == cmds[k];
  }

  lemma ThroughoutFront(s: State, cmds: seq<Cmd>, id: Id)
    requires cmds != []
    ensures TombstoneThroughout(s, cmds, id) <==> TombstoneThroughout(s, Front(cmds), id) && id in Run(s, cmds).tombstones
  {
    assert cmds[..|cmds|] == cmds;
    assert forall k :: 0 <= k <= |cmds| - 1 ==> Front(cmds)[..k] == cmds[..k];
  }

  /** A tombstone survives exactly the commands none of which retires it where it is processed, and never falls. */
  lemma {:induction false} TombstoneStays(s: State, cmds: seq<Cmd>, id: Id)
    requires id in s.tombstones
    ensures TombstoneThroughout(s, cmds, id) <==> NoneRetires(s, cmds, id)
    ensures NoneRetires(s, cmds, id) ==> id in Run(s, cmds).tombstones && s.tombstones[id] <= Run(s, cmds).tombstones[id]
  {
    if cmds != [] {
      NoneRetiresFront(s, cmds, id);
      ThroughoutFront(s, cmds, id);
      TombstoneStays(s, Front(cmds), id);
      if NoneRetires(s, Front(cmds), id) {
        TombstoneRetiredExactly(Run(s, Front(cmds)), Last(cmds), id);
      }
    }
  }

  /**
    A tombstone of generation t stops every later registration of a generation up
    to t, for good, until a command has retired it. Stale registrations in between do not.
   */
  lemma TombstoneCancelsLateRegistration(s: State, cmds: seq<Cmd>, id: Id, generation: nat, channel: Channel, more: seq<Cmd>)
    requires id in s.tombstones && generation <= s.tombstones[id]
    requires NoneRetires(s, cmds, id)
    ensures channel in Run(s, cmds + [Register(id, generation, channel)] + more).signalled
  {
    TombstoneStays(s, cmds, id);
    var registered := cmds + [Register(id, generation, channel)];
    assert Front(registered) == cmds;
    RunConcat(s, registered, more);
    SignalsPersist(Run(s, registered), more);
  }

  /** Without a tombstone or a newer runner, a registration starts unsignalled. */
  lemma UncancelledRegistration(s: State, id: Id, generation: nat, channel: Channel)
    requires channel !in s.signalled && channel !in ActiveChannels(s)
    ensures channel in Step(s, Register(id, generation, channel)).signalled <==>
            Stale(s, id, generation) || (id in s.tombstones && s.tombstones[id] >= generation)
  {
  }

  // ---------- Pause acknowledgements ----------

  function KeyOf(cmd: Cmd): Key
    requires !cmd.CancelAllForShutdown?
  {
    (cmd.id, cmd.generation)
  }

  function AskedReplies(cmds: seq<Cmd>): set<Reply> {
    set k | 0 <= k < |cmds| && cmds[k].PauseWithAck? :: cmds[k].reply
  }

  /** No (id, generation) is registered twice. */
  ghost predicate RegistersOnce(cmds: seq<Cmd>) {
    forall i, j :: 0 <= i < j < |cmds| && cmds[i].Register? && cmds[j].Register? ==> KeyOf(cmds[i]) != KeyOf(cmds[j])
  }

  /** Each oneshot sender occurs in one command, as ownership makes it. */
  ghost predicate RepliesOnce(cmds: seq<Cmd>) {
    forall i, j :: 0 <= i < j < |cmds| && cmds[i].PauseWithAck? && cmds[j].PauseWithAck?
      ==> cmds[i].reply != cmds[j].reply
  }

  lemma AskedRepliesLast(cmds: seq<Cmd>)
    requires cmds != []
    ensures AskedReplies(cmds) == AskedReplies(Front(cmds)) + (if Last(cmds).PauseWithAck? then {Last(cmds).reply} else {})
  {
    var before := Front(cmds);
    assert cmds == before + [Last(cmds)];
    forall reply | reply in AskedReplies(before) ensures reply in AskedReplies(cmds) {
      var k :| 0 <= k < |before| && before[k].PauseWithAck? && before[k].reply == reply;
      assert cmds[k] == before[k];
    }
    assert cmds[|cmds| - 1] == Last(cmds);
  }

  ghost predicate DistinctSenders(answers: seq<(Reply, bool)>, pending: map<Key, Reply>) {
    && (forall i, j :: 0 <= i < j < |answers| ==> answers[i].0 != answers[j].0)
    && (forall k, key :: 0 <= k < |answers| && key in pending ==> answers[k].0 != pending[key])
    && (forall key, other :: key in pending && other in pending && key != other ==> pending[key] != pending[other])
  }

  /** The senders still held or already used are those of processed commands, each in one place. */
  ghost predicate ReplyState(s: State, asked: set<Reply>) {
    && (forall k :: 0 <= k < |s.pauseAnswers| ==> s.pauseAnswers[k].0 in asked)
    && (forall key :: key in s.pendingAcks ==> s.pendingAcks[key] in asked)
    && DistinctSenders(s.pauseAnswers, s.pendingAcks)
  }

  lemma ReplyStateAsk(s: State, asked: set<Reply>, cmd: Cmd)
    requires ReplyState(s, asked) && cmd.PauseWithAck? && cmd.reply !in asked
    ensures ReplyState(Step(s, cmd), asked + {cmd.reply})
  {
  }

  lemma ReplyStateFinish(s: State, asked: set<Reply>, cmd: Cmd)
    requires ReplyState(s, asked) && cmd.Finished?
    ensures ReplyState(Step(s, cmd), asked)
  {
    var t, key := Step(s, cmd), KeyOf(cmd);
    assert t.pendingAcks == s.pendingAcks - {key};
    if key in s.pendingAcks {
      assert t.pauseAnswers == s.pauseAnswers + [(s.pendingAcks[key], true)];
    } else {
      assert t.pauseAnswers == s.pauseAnswers;
    }
  }

  lemma {:induction false} ReplyStateHolds(cmds: seq<Cmd>)
    requires RepliesOnce(cmds)
    ensures ReplyState(Run(Initial, cmds), AskedReplies(cmds))
  {
    if cmds != [] {
      var before, cmd := Front(cmds), Last(cmds);
      ReplyStateHolds(before);
      AskedRepliesLast(cmds);
      assert cmds[|cmds| - 1] == cmd;
      if cmd.PauseWithAck? {
        assert forall k :: 0 <= k < |before| && before[k].PauseWithAck? ==> before[k] == cmds[k] && before[k].reply != cmd.reply;
        ReplyStateAsk(Run(Initial, before), AskedReplies(before), cmd);
      } else if cmd.Finished? {
        ReplyStateFinish(Run(Initial, before), AskedReplies(before), cmd);
      } else {
        assert AskedReplies(cmds) == AskedReplies(before);
      }
    }
  }

  /** Each sender is answered at most once. */
  lemma AnsweredAtMostOnce(cmds: seq<Cmd>, a: nat, b: nat)
    requires RepliesOnce(cmds)
    requires a < b < |Run(Initial, cmds).pauseAnswers|
    ensures Run(Initial, cmds).pauseAnswers[a].0 != Run(Initial, cmds).pauseAnswers[b].0
  {
    ReplyStateHolds(cmds);
  }

  ghost predicate Answered(s: State, reply: Reply, value: bool) {
    (reply, value) in s.pauseAnswers
  }

  /** The entry that command i found for its id when it was processed. */
  predicate MatchedAt(cmds: seq<Cmd>, i: nat)
    requires i < |cmds| && cmds[i].PauseWithAck?
  {
    Matches(Run(Initial, cmds[..i]), cmds[i].id, cmds[i].generation)
  }

  /** The finish of the paused generation, at k. */
  predicate FinishesAt(cmds: seq<Cmd>, i: nat, k: nat)
    requires i < |cmds| && cmds[i].PauseWithAck?
  {
    i < k < |cmds| && cmds[k].Finished? && KeyOf(cmds[k]) == KeyOf(cmds[i])
  }

  /** A second acknowledged pause of the same generation, registered again, at k: its sender replaces the first. */
  predicate OvertakesAt(cmds: seq<Cmd>, i: nat, k: nat)
    requires i < |cmds| && cmds[i].PauseWithAck?
  {
    i < k < |cmds| && cmds[k].PauseWithAck? && KeyOf(cmds[k]) == KeyOf(cmds[i]) && MatchedAt(cmds, k)
  }

  ghost predicate OpenUntil(cmds: seq<Cmd>, i: nat, n: nat)
    requires i < |cmds| && cmds[i].PauseWithAck?
  {
    forall k :: i < k < n ==> !FinishesAt(cmds, i, k) && !OvertakesAt(cmds, i, k)
  }

  /** The finish comes before any second pause of the generation. */
  ghost predicate Confirmed(cmds: seq<Cmd>, i: nat)
    requires i < |cmds| && cmds[i].PauseWithAck?
  {
    exists k :: FinishesAt(cmds, i, k) && OpenUntil(cmds, i, k)
  }

  lemma EndsFront(cmds: seq<Cmd>, i: nat, k: nat)
    requires i < |cmds| - 1 && cmds[i].PauseWithAck? && Front(cmds)[i] == cmds[i] && k < |cmds| - 1
    ensures FinishesAt(cmds, i, k) == FinishesAt(Front(cmds), i, k) && OvertakesAt(cmds, i, k) == OvertakesAt(Front(cmds), i, k)
  {
    assert Front(cmds)[k] == cmds[k] && Front(cmds)[..k] == cmds[..k];
  }

  /** What the last command adds to the fate of the pause at i. */
  lemma FateFront(cmds: seq<Cmd>, i: nat)
    requires i < |cmds| - 1 && cmds[i].PauseWithAck? && Front(cmds)[i] == cmds[i]
    ensures var before, n := Front(cmds), |cmds| - 1;
            && (OpenUntil(cmds, i, |cmds|) <==> OpenUntil(before, i, n) && !FinishesAt(cmds, i, n) && !OvertakesAt(cmds, i, n))
            && (Confirmed(cmds, i) <==> Confirmed(before, i) || (OpenUntil(before, i, n) && FinishesAt(cmds, i, n)))
  {
    var before, n := Front(cmds), |cmds| - 1;
    forall k | 0 <= k < n
      ensures FinishesAt(cmds, i, k) == FinishesAt(before, i, k) && OvertakesAt(cmds, i, k) == OvertakesAt(before, i, k)
    {
      EndsFront(cmds, i, k);
    }
    assert forall k: nat :: k <= n ==> OpenUntil(cmds, i, k) == OpenUntil(before, i, k);
    if Confirmed(before, i) {
      var k :| FinishesAt(before, i, k) && OpenUntil(before, i, k);
      assert FinishesAt(cmds, i, k) && OpenUntil(cmds, i, k);
    }
  }

  ghost predicate Unanswered(s: State, reply: Reply) {
    forall k :: 0 <= k < |s.pauseAnswers| ==> s.pauseAnswers[k].0 != reply
  }

  /** No key holds the sender, `key` aside. */
  ghost predicate HeldAtMost(s: State, reply: Reply, key: Option<Key>) {
    forall other :: other in s.pendingAcks && s.pendingAcks[other] == reply ==> key == Some(other)
  }

  /** The sender was used for this answer. */
  ghost predicate AnsweredOnly(s: State, reply: Reply, answer: bool) {
    Answered(s, reply, answer) && !Answered(s, reply, !answer) && HeldAtMost(s, reply, None)
  }

  /** The sender waits under its key. */
  ghost predicate Waits(s: State, key: Key, reply: Reply) {
    key in s.pendingAcks && s.pendingAcks[key] == reply && Unanswered(s, reply) && HeldAtMost(s, reply, Some(key))
  }

  /** The sender is gone without an answer. */
  ghost predicate Dropped(s: State, reply: Reply) {
    Unanswered(s, reply) && HeldAtMost(s, reply, None)
  }

  lemma AskStep(s: State, id: Id, generation: nat, reply: Reply)
    requires Dropped(s, reply)
    ensures var t := Step(s, PauseWithAck(id, generation, reply));
            if Matches(s, id, generation) then Waits(t, (id, generation), reply) else AnsweredOnly(t, reply, false)
  {
    if !Matches(s, id, generation) {
      assert Step(s, PauseWithAck(id, generation, reply)).pauseAnswers[|s.pauseAnswers|] == (reply, false);
    }
  }

  function NewAnswers(s: State, cmd: Cmd): seq<(Reply, bool)> {
    if cmd.PauseWithAck? && !Matches(s, cmd.id, cmd.generation) then [(cmd.reply, false)]
    else if cmd.Finished? && KeyOf(cmd) in s.pendingAcks then [(s.pendingAcks[KeyOf(cmd)], true)]
    else []
  }

  lemma AnswersAdded(s: State, cmd: Cmd)
    ensures Step(s, cmd).pauseAnswers == s.pauseAnswers + NewAnswers(s, cmd)
  {
  }

  lemma HoldersStay(s: State, cmd: Cmd, reply: Reply)
    requires HeldAtMost(s, reply, None) && !(cmd.PauseWithAck? && cmd.reply == reply)
    ensures HeldAtMost(Step(s, cmd), reply, None)
    ensures forall k :: 0 <= k < |NewAnswers(s, cmd)| ==> NewAnswers(s, cmd)[k].0 != reply
  {
  }

  lemma AnsweredStep(s: State, cmd: Cmd, reply: Reply, answer: bool)
    requires AnsweredOnly(s, reply, answer) && !(cmd.PauseWithAck? && cmd.reply == reply)
    ensures AnsweredOnly(Step(s, cmd), reply, answer)
  {
    AnswersAdded(s, cmd);
    HoldersStay(s, cmd, reply);
  }

  lemma DroppedStep(s: State, cmd: Cmd, reply: Reply)
    requires Dropped(s, reply) && !(cmd.PauseWithAck? && cmd.reply == reply)
    ensures Dropped(Step(s, cmd), reply)
  {
  }

  /** A waiting sender is answered `true` by the finish of its key, and replaced by another pause of it. */
  lemma WaitsStep(s: State, cmd: Cmd, key: Key, reply: Reply)
    requires Waits(s, key, reply) && !(cmd.PauseWithAck? && cmd.reply == reply)
    ensures var t := Step(s, cmd);
            if cmd.Finished? && KeyOf(cmd) == key then AnsweredOnly(t, reply, true)
            else if cmd.PauseWithAck? && KeyOf(cmd) == key && Matches(s, cmd.id, cmd.generation) then Dropped(t, reply)
            else Waits(t, key, reply)
  {
    if cmd.Finished? && KeyOf(cmd) == key {
      assert Step(s, cmd).pauseAnswers == s.pauseAnswers + [(reply, true)];
      assert Step(s, cmd).pauseAnswers[|s.pauseAnswers|] == (reply, true);
    }
  }

  ghost predicate AckFate(cmds: seq<Cmd>, i: nat)
    requires i < |cmds| && cmds[i].PauseWithAck?
  {
    var s, reply := Run(Initial, cmds), cmds[i].reply;
    if !MatchedAt(cmds, i) then AnsweredOnly(s, reply, false)
    else if OpenUntil(cmds, i, |cmds|) then Waits(s, KeyOf(cmds[i]), reply)
    else if Confirmed(cmds, i) then AnsweredOnly(s, reply, true)
    else Dropped(s, reply)
  }

  lemma AckFateStarts(cmds: seq<Cmd>)
    requires cmds != [] && Last(cmds).PauseWithAck? && RepliesOnce(cmds)
    ensures AckFate(cmds, |cmds| - 1)
  {
    var before, cmd := Front(cmds), Last(cmds);
    assert cmds[..|cmds| - 1] == before && cmds[|cmds| - 1] == cmd;
    assert forall k :: 0 <= k < |before| && before[k].PauseWithAck? ==> before[k] == cmds[k] && before[k].reply != cmd.reply;
    ReplyStateHolds(before);
    AskStep(Run(Initial, before), cmd.id, cmd.generation, cmd.reply);
  }

  lemma AckFateStep(cmds: seq<Cmd>, i: nat)
    requires i < |cmds| - 1 && cmds[i].PauseWithAck? && RepliesOnce(cmds)
    requires Front(cmds)[i] == cmds[i] && AckFate(Front(cmds), i)
    ensures AckFate(cmds, i)
  {
    var before, cmd, n := Front(cmds), Last(cmds), |cmds| - 1;
    var s, reply := Run(Initial, before), cmds[i].reply;
    assert before[..i] == cmds[..i] && cmds[n] == cmd && cmds[..n] == before;
    FateFront(cmds, i);
    if !MatchedAt(cmds, i) {
      AnsweredStep(s, cmd, reply, false);
    } else if OpenUntil(before, i, n) {
      WaitsStep(s, cmd, KeyOf(cmds[i]), reply);
    } else if Confirmed(before, i) {
      AnsweredStep(s, cmd, reply, true);
    } else {
      DroppedStep(s, cmd, reply);
    }
  }

  /**
    The life of one acknowledged pause, in every history. Without a matching runner it is
    answered `false` at once. With one, it waits for the generation's finish and is then
    answered `true`, unless the generation is registered again and paused a second time
    before that: then the first sender is dropped unanswered.
   */
  lemma {:induction false} PauseAckLife(cmds: seq<Cmd>, i: nat)
    requires RepliesOnce(cmds) && i < |cmds| && cmds[i].PauseWithAck?
    ensures AckFate(cmds, i)
  {
    if i == |cmds| - 1 {
      AckFateStarts(cmds);
    } else {
      PauseAckLife(Front(cmds), i);
      AckFateStep(cmds, i);
    }
  }

  lemma FinishedAfterFront(cmds: seq<Cmd>, i: nat, key: Key)
    requires cmds != [] && i < |cmds| - 1
    ensures FinishedAfter(cmds, i, key.0, key.1) <==>
            FinishedAfter(Front(cmds), i, key.0, key.1)
            || (Last(cmds).Finished? && (Last(cmds).id, Last(cmds).generation) == key)
  {
    var before := Front(cmds);
    if FinishedAfter(before, i, key.0, key.1) {
      var j :| i < j < |before| && before[j].Finished? && before[j].id == key.0 && before[j].generation == key.1;
      assert cmds[j] == before[j];
    }
    if FinishedAfter(cmds, i, key.0, key.1) {
      var j :| i < j < |cmds| && cmds[j].Finished? && cmds[j].id == key.0 && cmds[j].generation == key.1;
      if j < |cmds| - 1 {
        assert before[j] == cmds[j];
      }
    }
    assert cmds[|cmds| - 1] == Last(cmds);
  }

  /** Each answer is sent exactly in its case, and the sender is held exactly while the pause is open. */
  lemma PauseAckExact(cmds: seq<Cmd>, i: nat)
    requires RepliesOnce(cmds) && i < |cmds| && cmds[i].PauseWithAck?
    ensures var s, key := Run(Initial, cmds), KeyOf(cmds[i]);
            && (Answered(s, cmds[i].reply, false) <==> !MatchedAt(cmds, i))
            && (Answered(s, cmds[i].reply, true) <==> MatchedAt(cmds, i) && Confirmed(cmds, i))
            && (key in s.pendingAcks && s.pendingAcks[key] == cmds[i].reply <==> MatchedAt(cmds, i) && OpenUntil(cmds, i, |cmds|))
  {
    PauseAckLife(cmds, i);
    if Confirmed(cmds, i) {
      var k :| FinishesAt(cmds, i, k) && OpenUntil(cmds, i, k);
      assert !OpenUntil(cmds, i, |cmds|);
    }
  }

  /** A generation that starts to run was registered. */
  lemma {:induction false} MatchNeedsRegister(cmds: seq<Cmd>, from: nat, upto: nat, id: Id, generation: nat) returns (k: nat)
    requires from <= upto <= |cmds|
    requires !Matches(Run(Initial, cmds[..from]), id, generation) && Matches(Run(Initial, cmds[..upto]), id, generation)
    ensures from <= k < upto && cmds[k].Register? && KeyOf(cmds[k]) == (id, generation)
  {
    RunNext(cmds, upto - 1);
    if Matches(Run(Initial, cmds[..upto - 1]), id, generation) {
      k := MatchNeedsRegister(cmds, from, upto - 1, id, generation);
    } else {
      StepNeedsRegister(Run(Initial, cmds[..upto - 1]), cmds[upto - 1], id, generation);
      k := upto - 1;
    }
  }

  lemma StepNeedsRegister(s: State, cmd: Cmd, id: Id, generation: nat)
    requires !Matches(s, id, generation) && Matches(Step(s, cmd), id, generation)
    ensures cmd.Register? && KeyOf(cmd) == (id, generation)
  {
  }

  /** When no (id, generation) is registered twice, as lifecycle generations are not, no pause overtakes another. */
  lemma RegisteredOncePause(cmds: seq<Cmd>, i: nat, k: nat)
    requires RegistersOnce(cmds) && i < |cmds| && cmds[i].PauseWithAck? && MatchedAt(cmds, i)
    ensures !OvertakesAt(cmds, i, k)
  {
    if OvertakesAt(cmds, i, k) {
      var id, generation := cmds[i].id, cmds[i].generation;
      assert cmds[..0] == [] && Front(cmds[..i + 1]) == cmds[..i] && Last(cmds[..i + 1]) == cmds[i];
      var first := MatchNeedsRegister(cmds, 0, i, id, generation);
      var second := MatchNeedsRegister(cmds, i + 1, k, id, generation);
    }
  }

  /** Then the answer `true` is sent exactly when the finish of the paused generation is processed. */
  lemma PauseAckRegisteredOnce(cmds: seq<Cmd>, i: nat)
    requires RegistersOnce(cmds) && RepliesOnce(cmds) && i < |cmds| && cmds[i].PauseWithAck?
    ensures Answered(Run(Initial, cmds), cmds[i].reply, true) <==>
            MatchedAt(cmds, i) && FinishedAfter(cmds, i, cmds[i].id, cmds[i].generation)
  {
    PauseAckExact(cmds, i);
    if MatchedAt(cmds, i) && FinishedAfter(cmds, i, cmds[i].id, cmds[i].generation) {
      forall k ensures !OvertakesAt(cmds, i, k) {
        if k >= 0 { RegisteredOncePause(cmds, i, k); }
      }
      var j :| i < j < |cmds| && cmds[j].Finished? && cmds[j].id == cmds[i].id && cmds[j].generation == cmds[i].generation;
      assert FinishesAt(cmds, i, j);
      FirstFinish(cmds, i, j);
    }
  }

  lemma {:induction false} FirstFinish(cmds: seq<Cmd>, i: nat, j: nat)
    requires i < |cmds| && cmds[i].PauseWithAck? && FinishesAt(cmds, i, j) && forall k: nat :: !OvertakesAt(cmds, i, k)
    ensures Confirmed(cmds, i)
    decreases j
  {
    if k :| i < k < j && FinishesAt(cmds, i, k) {
      FirstFinish(cmds, i, k);
    } else {
      assert OpenUntil(cmds, i, j);
    }
  }

  /** A pause overtaken while it is open: its sender is gone, whatever follows. */
  lemma OvertakenIsDropped(cmds: seq<Cmd>, i: nat, k: nat)
    requires RepliesOnce(cmds) && i < |cmds| && cmds[i].PauseWithAck? && MatchedAt(cmds, i)
    requires OvertakesAt(cmds, i, k) && OpenUntil(cmds, i, k)
    ensures Dropped(Run(Initial, cmds), cmds[i].reply)
  {
    PauseAckLife(cmds, i);
    OvertakenFirst(cmds, i, k);
  }

  lemma OvertakenFirst(cmds: seq<Cmd>, i: nat, k: nat)
    requires i < |cmds| && cmds[i].PauseWithAck? && OvertakesAt(cmds, i, k) && OpenUntil(cmds, i, k)
    ensures !Confirmed(cmds, i) && !OpenUntil(cmds, i, |cmds|)
  {
    forall n | FinishesAt(cmds, i, n) ensures !OpenUntil(cmds, i, n) {
      assert k < n;
    }
  }

  lemma RegisterRuns(s: State, id: Id, generation: nat, channel: Channel)
    requires !Stale(s, id, generation)
    ensures Matches(Step(s, Register(id, generation, channel)), id, generation)
  {
  }

  /** Such a history: the generation is registered and paused twice before its finish. */
  lemma PauseOvertaken(cmds: seq<Cmd>, id: Id, generation: nat, first: Channel, second: Channel, reply: Reply, later: Reply, interrupted: bool)
    requires reply != later && cmds == [Register(id, generation, first), PauseWithAck(id, generation, reply),
      Register(id, generation, second), PauseWithAck(id, generation, later), Finished(id, generation, interrupted)]
    ensures Dropped(Run(Initial, cmds), reply) && Answered(Run(Initial, cmds), later, true)
  {
    RunNext(cmds, 0);
    RegisterRuns(Run(Initial, cmds[..0]), id, generation, first);
    RunNext(cmds, 1);
    RunNext(cmds, 2);
    RegisterRuns(Run(Initial, cmds[..2]), id, generation, second);
    OvertakenIsDropped(cmds, 1, 3);
    assert FinishesAt(cmds, 3, 4) && OpenUntil(cmds, 3, 4);
    PauseAckExact(cmds, 3);
  }

  // ---------- Shutdown ----------

  /** Handling the shutdown command signals every runner and waits for all of them. */
  lemma ShutdownStarts(s: State, reply: Reply)
    ensures var t := Step(s, CancelAllForShutdown(reply));
            && t.active == s.active
            && (forall id :: id in s.active ==> s.active[id].channel in t.signalled)
            && (s.active == map[] ==> t.shutdown == s.shutdown && t.shutdownAnswers == s.shutdownAnswers + [(reply, [])])
            && (s.active != map[] ==> t.shutdown == Some(PendingShutdown(ActiveKeys(s), [], reply)) && ActiveKeys(s) != {}
                                      && t.shutdownAnswers == s.shutdownAnswers)
  {
    if s.active != map[] {
      var id :| id in s.active;
      assert (id, s.active[id].generation) in ActiveKeys(s);
    }
  }

  function FinishedKeys(cmds: seq<Cmd>): set<Key> {
    set k | 0 <= k < |cmds| && cmds[k].Finished? :: (cmds[k].id, cmds[k].generation)
  }

  /** The keys of the finishes flagged as interrupted, in the order they were processed. */
  function InterruptedKeys(cmds: seq<Cmd>): seq<Key> {
    if cmds == [] then []
    else if Last(cmds).Finished? && Last(cmds).interrupted then
      InterruptedKeys(Front(cmds)) + [(Last(cmds).id, Last(cmds).generation)]
    else InterruptedKeys(Front(cmds))
  }

  /** The shortest prefix of the commands whose finishes cover the awaited keys. */
  function FirstCover(awaited: set<Key>, cmds: seq<Cmd>): (n: nat)
    ensures n <= |cmds|
  {
    if cmds == [] || !(awaited <= FinishedKeys(Front(cmds))) then |cmds| else FirstCover(awaited, Front(cmds))
  }

  lemma {:induction false} FirstCoverLeast(awaited: set<Key>, cmds: seq<Cmd>)
    requires awaited <= FinishedKeys(cmds)
    ensures awaited <= FinishedKeys(cmds[..FirstCover(awaited, cmds)])
    ensures forall k :: 0 <= k < FirstCover(awaited, cmds) ==> !(awaited <= FinishedKeys(cmds[..k]))
  {
    var n := FirstCover(awaited, cmds);
    if cmds == [] || !(awaited <= FinishedKeys(Front(cmds))) {
      assert cmds[..|cmds|] == cmds;
      forall k | 0 <= k < n ensures !(awaited <= FinishedKeys(cmds[..k])) {
        FinishedKeysGrow(cmds, k, |cmds| - 1);
      }
    } else {
      FirstCoverLeast(awaited, Front(cmds));
      assert forall k :: 0 <= k <= n ==> Front(cmds)[..k] == cmds[..k];
    }
  }

  lemma FinishedKeysGrow(cmds: seq<Cmd>, a: nat, b: nat)
    requires a <= b <= |cmds|
    ensures FinishedKeys(cmds[..a]) <= FinishedKeys(cmds[..b])
  {
    forall key | key in FinishedKeys(cmds[..a]) ensures key in FinishedKeys(cmds[..b]) {
      var k :| 0 <= k < a && cmds[..a][k].Finished? && (cmds[..a][k].id, cmds[..a][k].generation) == key;
      assert cmds[..b][k] == cmds[..a][k];
    }
  }

  lemma FinishedKeysLast(cmds: seq<Cmd>)
    requires cmds != []
    ensures FinishedKeys(cmds) == FinishedKeys(Front(cmds)) +
                                  (if Last(cmds).Finished? then {(Last(cmds).id, Last(cmds).generation)} else {})
  {
    var before := Front(cmds);
    FinishedKeysGrow(cmds, |cmds| - 1, |cmds|);
    assert cmds[..|cmds|] == cmds && cmds[|cmds| - 1] == Last(cmds);
    forall key | key in FinishedKeys(cmds) && !(Last(cmds).Finished? && key == (Last(cmds).id, Last(cmds).generation))
      ensures key in FinishedKeys(before)
    {
      var k :| 0 <= k < |cmds| && cmds[k].Finished? && (cmds[k].id, cmds[k].generation) == key;
      assert before[k] == cmds[k];
    }
  }

  /** The lists sent to one shutdown sender. */
  function AnswersTo(answers: seq<(Reply, seq<Key>)>, reply: Reply): seq<seq<Key>> {
    if answers == [] then []
    else if Last(answers).0 == reply then AnswersTo(Front(answers), reply) + [Last(answers).1]
    else AnswersTo(Front(answers), reply)
  }

  lemma AnswersToPush(answers: seq<(Reply, seq<Key>)>, answer: (Reply, seq<Key>), reply: Reply)
    ensures AnswersTo(answers + [answer], reply) == AnswersTo(answers, reply) + if answer.0 == reply then [answer.1] else []
  {
    assert Front(answers + [answer]) == answers;
  }

  lemma {:induction false} AnswersToMeaning(answers: seq<(Reply, seq<Key>)>, reply: Reply, list: seq<Key>)
    ensures list in AnswersTo(answers, reply) <==> (reply, list) in answers
  {
    if answers != [] {
      AnswersToMeaning(Front(answers), reply, list);
      assert answers == Front(answers) + [Last(answers)];
    }
  }

  /** A shutdown that finds runners takes the place of the one that was waiting. */
  predicate Displaces(s: State, cmd: Cmd) {
    cmd.CancelAllForShutdown? && s.active != map[]
  }

  /** None of the commands from `from` up to `upto` displaces a waiting shutdown. */
  ghost predicate Undisturbed(s: State, cmds: seq<Cmd>, from: nat, upto: nat)
    requires upto <= |cmds|
  {
    forall k :: from <= k < upto ==> !Displaces(Run(s, cmds[..k]), cmds[k])
  }

  lemma UndisturbedFront(s: State, cmds: seq<Cmd>, from: nat, upto: nat)
    requires cmds != [] && upto <= |cmds|
    ensures upto < |cmds| ==> (Undisturbed(s, cmds, from, upto) <==> Undisturbed(s, Front(cmds), from, upto))
    ensures from < |cmds| ==>
      (Undisturbed(s, cmds, from, |cmds|) <==>
        Undisturbed(s, Front(cmds), from, |cmds| - 1) && !Displaces(Run(s, Front(cmds)), Last(cmds)))
  {
    var n := |cmds| - 1;
    assert cmds[..n] == Front(cmds) && cmds[n] == Last(cmds);
    assert forall k :: 0 <= k < n ==> Front(cmds)[..k] == cmds[..k] && Front(cmds)[k] == cmds[k];
  }

  lemma FirstCoverFront(awaited: set<Key>, cmds: seq<Cmd>)
    requires cmds != []
    ensures awaited <= FinishedKeys(Front(cmds)) ==>
      FirstCover(awaited, cmds) == FirstCover(awaited, Front(cmds)) < |cmds|
      && cmds[..FirstCover(awaited, cmds)] == Front(cmds)[..FirstCover(awaited, cmds)]
    ensures !(awaited <= FinishedKeys(Front(cmds))) ==> FirstCover(awaited, cmds) == |cmds| && cmds[..|cmds|] == cmds
  {
  }

  predicate OtherReplies(cmds: seq<Cmd>, reply: Reply) {
    forall k :: 0 <= k < |cmds| && cmds[k].CancelAllForShutdown? ==> cmds[k].reply != reply
  }

  /** The answer owed to a shutdown that waits for these keys. */
  ghost function Owed(s: State, awaited: set<Key>, cmds: seq<Cmd>): seq<seq<Key>> {
    if awaited <= FinishedKeys(cmds) && Undisturbed(s, cmds, 0, FirstCover(awaited, cmds))
    then [Sort(InterruptedKeys(cmds[..FirstCover(awaited, cmds)]))] else []
  }

  ghost predicate StillWaiting(s: State, awaited: set<Key>, cmds: seq<Cmd>) {
    !(awaited <= FinishedKeys(cmds)) && Undisturbed(s, cmds, 0, |cmds|)
  }

  ghost predicate WaitsExactly(s: State, waiting: PendingShutdown, cmds: seq<Cmd>) {
    var t := Run(s, cmds);
    && AnswersTo(t.shutdownAnswers, waiting.reply) == AnswersTo(s.shutdownAnswers, waiting.reply) + Owed(s, waiting.remaining, cmds)
    && (ShutdownPending(t, waiting.reply) <==> StillWaiting(s, waiting.remaining, cmds))
    && (ShutdownPending(t, waiting.reply) ==>
          t.shutdown == Some(PendingShutdown(waiting.remaining - FinishedKeys(cmds), InterruptedKeys(cmds), waiting.reply)))
  }

  /** What one command does to a waiting sender that is not its own. */
  lemma WaitingStep(s: State, cmd: Cmd, reply: Reply)
    requires cmd.CancelAllForShutdown? ==> cmd.reply != reply
    ensures var t := Step(s, cmd);
      if ShutdownPending(s, reply) && cmd.Finished? then
        var key := (cmd.id, cmd.generation);
        var marked := s.shutdown.value.interrupted + if cmd.interrupted then [key] else [];
        if s.shutdown.value.remaining - {key} == {} then
          t.shutdown == None && AnswersTo(t.shutdownAnswers, reply) == AnswersTo(s.shutdownAnswers, reply) + [Sort(marked)]
        else
          && t.shutdown == Some(PendingShutdown(s.shutdown.value.remaining - {key}, marked, reply))
          && AnswersTo(t.shutdownAnswers, reply) == AnswersTo(s.shutdownAnswers, reply)
      else
        && AnswersTo(t.shutdownAnswers, reply) == AnswersTo(s.shutdownAnswers, reply)
        && (ShutdownPending(t, reply) <==> ShutdownPending(s, reply) && !Displaces(s, cmd))
        && (ShutdownPending(t, reply) ==> t.shutdown == s.shutdown)
  {
    var t := Step(s, cmd);
    if cmd.Finished? && s.shutdown.Some? {
      assert s.shutdown.value.interrupted + [] == s.shutdown.value.interrupted;
    }
    if t.shutdownAnswers != s.shutdownAnswers {
      AnswersToPush(s.shutdownAnswers, Last(t.shutdownAnswers), reply);
      assert t.shutdownAnswers == s.shutdownAnswers + [Last(t.shutdownAnswers)];
    }
  }

  /**
    From any state with a waiting shutdown, whatever is processed: it is answered once if the
    finishes cover its keys before another shutdown that finds runners displaces it, with the
    sorted interrupted finishes of the shortest covering prefix, and otherwise never. It waits
    exactly while it is neither covered nor displaced.
   */
  lemma {:induction false} ShutdownAnswer(s: State, waiting: PendingShutdown, cmds: seq<Cmd>)
    requires s.shutdown == Some(waiting) && waiting.remaining != {} && waiting.interrupted == []
    requires OtherReplies(cmds, waiting.reply)
    ensures WaitsExactly(s, waiting, cmds)
  {
    if cmds == [] {
      assert FinishedKeys(cmds) == {};
      assert waiting.remaining - FinishedKeys(cmds) == waiting.remaining;
    } else {
      assert forall k :: 0 <= k < |cmds| - 1 ==> Front(cmds)[k] == cmds[k];
      ShutdownAnswer(s, waiting, Front(cmds));
      assert Last(cmds) == cmds[|cmds| - 1];
      ShutdownAnswerStep(s, waiting, cmds);
    }
  }

  lemma ShutdownAnswerStep(s: State, waiting: PendingShutdown, cmds: seq<Cmd>)
    requires waiting.remaining != {} && cmds != [] && WaitsExactly(s, waiting, Front(cmds))
    requires Last(cmds).CancelAllForShutdown? ==> Last(cmds).reply != waiting.reply
    ensures WaitsExactly(s, waiting, cmds)
  {
    var awaited, n := waiting.remaining, FirstCover(waiting.remaining, cmds);
    FinishedKeysLast(cmds);
    FirstCoverFront(awaited, cmds);
    UndisturbedFront(s, cmds, 0, n);
    WaitingStep(Run(s, Front(cmds)), Last(cmds), waiting.reply);
    if !StillWaiting(s, awaited, Front(cmds)) {
      assert Owed(s, awaited, cmds) == Owed(s, awaited, Front(cmds));
    } else if Last(cmds).Finished? {
      FinishedWhileWaiting(s, waiting, cmds);
    } else {
      assert FinishedKeys(cmds) == FinishedKeys(Front(cmds));
    }
  }

  lemma FinishedWhileWaiting(s: State, waiting: PendingShutdown, cmds: seq<Cmd>)
    requires cmds != [] && WaitsExactly(s, waiting, Front(cmds)) && Last(cmds).Finished?
    requires StillWaiting(s, waiting.remaining, Front(cmds))
    ensures WaitsExactly(s, waiting, cmds)
  {
    var awaited, cmd := waiting.remaining, Last(cmds);
    FinishedKeysLast(cmds);
    FirstCoverFront(awaited, cmds);
    UndisturbedFront(s, cmds, 0, |cmds|);
    WaitingStep(Run(s, Front(cmds)), cmd, waiting.reply);
    assert awaited - FinishedKeys(Front(cmds)) - {(cmd.id, cmd.generation)} == awaited - FinishedKeys(cmds);
    assert awaited - FinishedKeys(cmds) == {} <==> awaited <= FinishedKeys(cmds);
    assert InterruptedKeys(Front(cmds)) + [] == InterruptedKeys(Front(cmds));
  }

  ghost predicate ShutdownRepliesDiffer(cmds: seq<Cmd>) {
    forall i, j :: 0 <= i < j < |cmds| && cmds[i].CancelAllForShutdown? && cmds[j].CancelAllForShutdown? ==>
      cmds[i].reply != cmds[j].reply
  }

  predicate AsksShutdown(cmds: seq<Cmd>, reply: Reply) {
    exists k :: 0 <= k < |cmds| && cmds[k] == CancelAllForShutdown(reply)
  }

  ghost predicate ShutdownAnswered(s: State, reply: Reply, list: seq<Key>) {
    (reply, list) in s.shutdownAnswers
  }

  predicate ShutdownPending(s: State, reply: Reply) {
    s.shutdown.Some? && s.shutdown.value.reply == reply
  }

  /** The shutdown answer a command causes, and only that one. */
  lemma AnswersAfterStep(s: State, cmd: Cmd, reply: Reply, list: seq<Key>)
    ensures ShutdownAnswered(Step(s, cmd), reply, list) <==>
      || ShutdownAnswered(s, reply, list)
      || (cmd.CancelAllForShutdown? && cmd.reply == reply && s.active == map[] && list == [])
      || (cmd.Finished? && ShutdownPending(s, reply) && s.shutdown.value.remaining - {(cmd.id, cmd.generation)} == {}
          && list == Sort(s.shutdown.value.interrupted + if cmd.interrupted then [(cmd.id, cmd.generation)] else []))
  {
    if cmd.Finished? && s.shutdown.Some? {
      assert s.shutdown.value.interrupted + [] == s.shutdown.value.interrupted;
    }
  }

  /** Only senders that a handled command brought along wait or are answered. */
  lemma {:induction false} ShutdownRepliesKnown(cmds: seq<Cmd>, reply: Reply)
    ensures ShutdownPending(Run(Initial, cmds), reply) ==> AsksShutdown(cmds, reply)
    ensures forall list :: ShutdownAnswered(Run(Initial, cmds), reply, list) ==> AsksShutdown(cmds, reply)
  {
    if cmds != [] {
      ShutdownRepliesKnown(Front(cmds), reply);
      assert forall k :: 0 <= k < |cmds| - 1 ==> Front(cmds)[k] == cmds[k];
      assert cmds[|cmds| - 1] == Last(cmds);
      assert AsksShutdown(Front(cmds), reply) ==> AsksShutdown(cmds, reply);
      forall list | ShutdownAnswered(Run(Initial, cmds), reply, list) ensures AsksShutdown(cmds, reply) {
        AnswersAfterStep(Run(Initial, Front(cmds)), Last(cmds), reply, list);
      }
    }
  }

  /** What the answer to the shutdown command at j says, if there is one. */
  function AnswerTo(awaited: set<Key>, later: seq<Cmd>): seq<Key> {
    if awaited == {} then [] else Sort(InterruptedKeys(later[..FirstCover(awaited, later)]))
  }

  /** A sender that does not wait is not answered again by commands with other senders. */
  lemma {:induction false} SettledStays(s: State, cmds: seq<Cmd>, reply: Reply)
    requires !ShutdownPending(s, reply) && OtherReplies(cmds, reply)
    ensures !ShutdownPending(Run(s, cmds), reply)
    ensures AnswersTo(Run(s, cmds).shutdownAnswers, reply) == AnswersTo(s.shutdownAnswers, reply)
  {
    if cmds != [] {
      assert forall k :: 0 <= k < |cmds| - 1 ==> Front(cmds)[k] == cmds[k];
      SettledStays(s, Front(cmds), reply);
      assert Last(cmds) == cmds[|cmds| - 1];
      WaitingStep(Run(s, Front(cmds)), Last(cmds), reply);
    }
  }

  /** Handling a shutdown with a new sender either answers it at once or lets it wait for what it found. */
  lemma FreshShutdown(before: seq<Cmd>, reply: Reply)
    requires OtherReplies(before, reply)
    ensures var s := Run(Initial, before); var u := Step(s, CancelAllForShutdown(reply));
      && AnswersTo(u.shutdownAnswers, reply) == (if s.active == map[] then [[]] else [])
      && (if s.active == map[] then !ShutdownPending(u, reply) else u.shutdown == Some(PendingShutdown(ActiveKeys(s), [], reply)))
  {
    var s := Run(Initial, before);
    ShutdownRepliesKnown(before, reply);
    ShutdownStarts(s, reply);
    AnswersToPush(s.shutdownAnswers, (reply, []), reply);
    if AnswersTo(s.shutdownAnswers, reply) != [] {
      AnswersToMeaning(s.shutdownAnswers, reply, AnswersTo(s.shutdownAnswers, reply)[0]);
      assert ShutdownAnswered(s, reply, AnswersTo(s.shutdownAnswers, reply)[0]);
    }
  }

  lemma SplitHistory(cmds: seq<Cmd>, i: nat, k: nat)
    requires i + k <= |cmds|
    ensures Run(Run(Initial, cmds[..i]), cmds[i..][..k]) == Run(Initial, cmds[..i + k])
  {
    assert cmds[..i + k] == cmds[..i] + cmds[i..][..k];
    RunConcat(Initial, cmds[..i], cmds[i..][..k]);
  }

  lemma UndisturbedLater(cmds: seq<Cmd>, i: nat, n: nat)
    requires i + n <= |cmds|
    ensures Undisturbed(Run(Initial, cmds[..i]), cmds[i..], 0, n) <==> Undisturbed(Initial, cmds, i, i + n)
  {
    var u, later := Run(Initial, cmds[..i]), cmds[i..];
    forall k | 0 <= k < n
      ensures Displaces(Run(u, later[..k]), later[k]) <==> Displaces(Run(Initial, cmds[..i + k]), cmds[i + k])
    {
      SplitHistory(cmds, i, k);
    }
    if Undisturbed(u, later, 0, n) {
      forall k | i <= k < i + n ensures !Displaces(Run(Initial, cmds[..k]), cmds[k]) {
        assert !Displaces(Run(u, later[..k - i]), later[k - i]);
        assert i + (k - i) == k;
      }
    }
  }

  ghost predicate ShutdownFate(cmds: seq<Cmd>, j: nat)
    requires j < |cmds| && cmds[j].CancelAllForShutdown?
  {
    var t, awaited, later := Run(Initial, cmds), ActiveKeys(Run(Initial, cmds[..j])), cmds[j + 1..];
    && AnswersTo(t.shutdownAnswers, cmds[j].reply) ==
         (if awaited <= FinishedKeys(later) && Undisturbed(Initial, cmds, j + 1, j + 1 + FirstCover(awaited, later))
          then [AnswerTo(awaited, later)] else [])
    && (ShutdownPending(t, cmds[j].reply) <==>
          !(awaited <= FinishedKeys(later)) && Undisturbed(Initial, cmds, j + 1, |cmds|))
    && (ShutdownPending(t, cmds[j].reply) ==>
          t.shutdown == Some(PendingShutdown(awaited - FinishedKeys(later), InterruptedKeys(later), cmds[j].reply)))
  }

  lemma FateWithoutRunners(cmds: seq<Cmd>, j: nat)
    requires j < |cmds| && cmds[j].CancelAllForShutdown? && Run(Initial, cmds[..j]).active == map[]
    requires OtherReplies(cmds[..j], cmds[j].reply) && OtherReplies(cmds[j + 1..], cmds[j].reply)
    ensures ShutdownFate(cmds, j)
  {
    var later, reply := cmds[j + 1..], cmds[j].reply;
    assert Front(cmds[..j + 1]) == cmds[..j] && ActiveKeys(Run(Initial, cmds[..j])) == {};
    FreshShutdown(cmds[..j], reply);
    WholeHistory(cmds, j + 1);
    SettledStays(Run(Initial, cmds[..j + 1]), later, reply);
    NothingAwaited(later);
  }

  lemma FateWithRunners(cmds: seq<Cmd>, j: nat)
    requires j < |cmds| && cmds[j].CancelAllForShutdown? && Run(Initial, cmds[..j]).active != map[]
    requires OtherReplies(cmds[..j], cmds[j].reply) && OtherReplies(cmds[j + 1..], cmds[j].reply)
    ensures ShutdownFate(cmds, j)
  {
    var later, reply, awaited := cmds[j + 1..], cmds[j].reply, ActiveKeys(Run(Initial, cmds[..j]));
    var u, waiting := Run(Initial, cmds[..j + 1]), PendingShutdown(awaited, [], reply);
    assert Front(cmds[..j + 1]) == cmds[..j];
    ShutdownStarts(Run(Initial, cmds[..j]), reply);
    FreshShutdown(cmds[..j], reply);
    ShutdownAnswer(u, waiting, later);
    UndisturbedLater(cmds, j + 1, FirstCover(awaited, later));
    UndisturbedLater(cmds, j + 1, |later|);
    WholeHistory(cmds, j + 1);
  }

  lemma WholeHistory(cmds: seq<Cmd>, i: nat)
    requires i <= |cmds|
    ensures Run(Run(Initial, cmds[..i]), cmds[i..]) == Run(Initial, cmds)
  {
    SplitHistory(cmds, i, |cmds| - i);
    assert cmds[i..][..|cmds| - i] == cmds[i..] && cmds[..|cmds|] == cmds;
  }

  /**
    The fate of the shutdown handled as command j, in every history and with any number of
    others: it is answered, once and with `AnswerTo`, if and only if the runners it found have
    finished before another shutdown that finds runners was handled. It waits if and only if
    neither has happened.
   */
  lemma ShutdownWaits(cmds: seq<Cmd>, j: nat)
    requires ShutdownRepliesDiffer(cmds) && j < |cmds| && cmds[j].CancelAllForShutdown?
    ensures ShutdownFate(cmds, j)
  {
    if Run(Initial, cmds[..j]).active == map[] {
      FateWithoutRunners(cmds, j);
    } else {
      FateWithRunners(cmds, j);
    }
  }

  lemma {:induction false} NothingAwaited(cmds: seq<Cmd>)
    ensures FirstCover({}, cmds) == 0
  {
    if cmds != [] {
      NothingAwaited(Front(cmds));
    }
  }

  /** So an answer means that every runner the command found has finished. */
  lemma ShutdownAnsweredSoundly(cmds: seq<Cmd>, j: nat, list: seq<Key>)
    requires ShutdownRepliesDiffer(cmds) && j < |cmds| && cmds[j].CancelAllForShutdown?
    requires ShutdownAnswered(Run(Initial, cmds), cmds[j].reply, list)
    ensures var awaited, later := ActiveKeys(Run(Initial, cmds[..j])), cmds[j + 1..];
            awaited <= FinishedKeys(later) && list == AnswerTo(awaited, later)
  {
    ShutdownWaits(cmds, j);
    assert ShutdownFate(cmds, j);
    AnswersToMeaning(Run(Initial, cmds).shutdownAnswers, cmds[j].reply, list);
  }

  /** Two shutdowns while one runner is at work: its finish answers the second, and the first never. */
  lemma ShutdownDisplaced(id: Id, generation: nat, channel: Channel, first: Reply, second: Reply, interrupted: bool)
    requires first != second
    ensures var cmds := [Register(id, generation, channel), CancelAllForShutdown(first), CancelAllForShutdown(second),
                         Finished(id, generation, interrupted)];
            var t := Run(Initial, cmds);
      && AnswersTo(t.shutdownAnswers, first) == [] && !ShutdownPending(t, first)
      && AnswersTo(t.shutdownAnswers, second) == [if interrupted then [(id, generation)] else []]
  {
    var c0, c1, c2, c3 := Register(id, generation, channel), CancelAllForShutdown(first), CancelAllForShutdown(second),
      Finished(id, generation, interrupted);
    assert Front([c0, c1, c2, c3]) == [c0, c1, c2] && Front([c0, c1, c2]) == [c0, c1] && Front([c0, c1]) == [c0] && Front([c0]) == [];
    var s := Step(Initial, c0);
    assert Run(Initial, []) == Initial;
    assert Run(Initial, [c0]) == s;
    assert s.active == map[id := Entry(generation, channel)];
    assert ActiveKeys(s) == {(id, generation)};
    var u := Step(Step(s, c1), c2);
    assert Run(Initial, [c0, c1]) == Step(s, c1);
    assert Run(Initial, [c0, c1, c2]) == u;
    assert u.shutdown == Some(PendingShutdown({(id, generation)}, [], second)) && u.shutdownAnswers == [];
    var marked: seq<Key> := if interrupted then [(id, generation)] else [];
    assert [] + marked == marked && Sort(marked) == marked;
    assert Run(Initial, [c0, c1, c2, c3]).shutdownAnswers == [(second, marked)];
    AnswersToPush([], (second, marked), first);
    AnswersToPush([], (second, marked), second);
  }
}
