/**
  Client tasks, the shared registration record, the FIFO command channel and the
  coordinator, running together. Every client critical section and every command
  the coordinator handles is one step. A caller may be dropped while it waits to
  send (`patient` false). The coordinator may stop at any time: at the end of its loop,
  with its queue drained, or because its task is dropped.
 */
module MediaProtocol {
  import opened Base
  import opened KeyOrder
  import opened MediaActor
  import Reg = MediaRegistration
  import Laws = MediaActorLaws
  import History = MediaHistory

  datatype Action =
    | RegisterMedia(id: Id, generation: nat, patient: bool)
    | PauseMedia(id: Id, generation: nat)
    | PauseMediaWithAck(id: Id, generation: nat)
    | BeginFinish(id: Id, generation: nat, interrupted: bool)
    | SendFinish(id: Id, generation: nat, interrupted: bool)
    | DropFinish(id: Id, generation: nat, interrupted: bool)
    | ShutDown(patient: bool)
    | ReopenRegistration
    | HandleNext
    | StopCoordinator(drained: bool)

  /**
    `unsent` holds the finishes whose critical section ran but whose message has not
    been sent. `handled`, `events` and `sealedBy` only record history: the commands
    handled, the critical sections run, and the shutdown command sent in the current
    closed period.
   */
  datatype World = World(
    record: Reg.Record,
    queue: seq<Cmd>,
    coordinator: State,
    up: bool,
    unsent: multiset<Cmd>,
    nextChannel: Channel,
    nextReply: Reply,
    handled: seq<Cmd>,
    events: seq<Reg.Event>,
    sealedBy: Option<Reply>)

  const Start := World(Reg.Fresh, [], Initial, true, multiset{}, 0, 0, [], [], None)

  function DeliveryOf(w: World, patient: bool): Reg.Delivery {
    if !w.up then Reg.Unavailable else if patient then Reg.Sent else Reg.Abandoned
  }

  function Section(w: World, e: Reg.Event): World {
    w.(record := Reg.Apply(w.record, e), events := w.events + [e])
  }

  function Enqueue(w: World, cmd: Cmd): World {
    if w.up then w.(queue := w.queue + [cmd]) else w
  }

  function Next(w: World, a: Action): World {
    match a
    case RegisterMedia(id, generation, patient) =>
      var delivery := DeliveryOf(w, patient);
      var w' := Section(w, Reg.Event.Register((id, generation), delivery)).(nextChannel := w.nextChannel + 1);
      if !w.record.closed && delivery.Sent? then Enqueue(w', Register(id, generation, w.nextChannel)) else w'
    case PauseMedia(id, generation) => Enqueue(w, Pause(id, generation))
    case PauseMediaWithAck(id, generation) =>
      Enqueue(w.(nextReply := w.nextReply + 1), PauseWithAck(id, generation, w.nextReply))
    case BeginFinish(id, generation, interrupted) =>
      Section(w, Reg.Event.Finish((id, generation), interrupted)).(
        unsent := w.unsent + multiset{Finished(id, generation, interrupted)})
    case SendFinish(id, generation, interrupted) =>
      var cmd := Finished(id, generation, interrupted);
      if cmd in w.unsent then Enqueue(w.(unsent := w.unsent - multiset{cmd}), cmd) else w
    case DropFinish(id, generation, interrupted) =>
      w.(unsent := w.unsent - multiset{Finished(id, generation, interrupted)})
    case ShutDown(patient) =>
      var delivery := DeliveryOf(w, patient);
      var w' := Section(w, Reg.Event.Shutdown(delivery)).(nextReply := w.nextReply + 1);
      if delivery.Sent? then
        Enqueue(w', CancelAllForShutdown(w.nextReply)).(sealedBy := Some(w.nextReply))
      else w'
    case ReopenRegistration => Section(w, Reg.Event.Reopen).(sealedBy := None)
    case HandleNext =>
      if w.up && w.queue != [] then
        w.(queue := w.queue[1..], coordinator := Step(w.coordinator, w.queue[0]), handled := w.handled + [w.queue[0]])
      else w
    case StopCoordinator(drained) =>
      w.(up := false, queue := [], sealedBy := None,
         coordinator := if drained && w.up && w.queue == [] then Ended(w.coordinator) else w.coordinator)
  }

  function Execute(actions: seq<Action>): World {
    if actions == [] then Start else Next(Execute(Front(actions)), Last(actions))
  }

  lemma ExecuteNext(actions: seq<Action>, k: nat)
    requires k < |actions|
    ensures Execute(actions[..k + 1]) == Next(Execute(actions[..k]), actions[k])
  {
    assert Front(actions[..k + 1]) == actions[..k];
  }

  // ---------- Invariants ----------

  function SentCommands(w: World): seq<Cmd> {
    w.handled + w.queue
  }

  ghost predicate FreshNames(cmds: seq<Cmd>, channels: nat, replies: nat) {
    && (forall k :: 0 <= k < |cmds| ==>
          && (cmds[k].Register? ==> cmds[k].channel < channels)
          && (cmds[k].PauseWithAck? || cmds[k].CancelAllForShutdown? ==> cmds[k].reply < replies))
    && (forall i, j :: 0 <= i < j < |cmds| && cmds[i].Register? && cmds[j].Register? ==> cmds[i].channel != cmds[j].channel)
    && Laws.RepliesOnce(cmds)
  }

  /** Command j is the shutdown command n, and no registration was sent after it. */
  predicate Barrier(cmds: seq<Cmd>, n: Reply, j: nat) {
    j < |cmds| && cmds[j] == CancelAllForShutdown(n) && forall k :: j < k < |cmds| ==> !cmds[k].Register?
  }

  ghost predicate Invariant(w: World) {
    && (w.coordinator == MediaActor.Run(Initial, w.handled)
        || (!w.up && w.coordinator == Ended(MediaActor.Run(Initial, w.handled))))
    && w.record == Reg.Run(w.events)
    && FreshNames(SentCommands(w), w.nextChannel, w.nextReply)
    && (!w.up ==> w.queue == [])
    && (w.sealedBy.Some? ==> w.record.closed && w.up && exists j :: Barrier(SentCommands(w), w.sealedBy.value, j))
  }

  lemma FreshNamesAppend(cmds: seq<Cmd>, cmd: Cmd, channels: nat, replies: nat, channels': nat, replies': nat)
    requires FreshNames(cmds, channels, replies) && channels <= channels' && replies <= replies'
    requires cmd.Register? ==> channels <= cmd.channel < channels'
    requires cmd.PauseWithAck? || cmd.CancelAllForShutdown? ==> replies <= cmd.reply < replies'
    ensures FreshNames(cmds + [cmd], channels', replies')
  {
  }

  lemma BarrierAppend(cmds: seq<Cmd>, cmd: Cmd, n: Reply, j: nat)
    requires Barrier(cmds, n, j) && !cmd.Register?
    ensures Barrier(cmds + [cmd], n, j)
  {
  }

  lemma EnqueueSent(w: World, cmd: Cmd)
    requires w.up
    ensures SentCommands(Enqueue(w, cmd)) == SentCommands(w) + [cmd]
  {
  }

  lemma SectionKeeps(w: World, e: Reg.Event)
    requires w.record == Reg.Run(w.events)
    ensures Section(w, e).record == Reg.Run(Section(w, e).events)
  {
    assert Front(w.events + [e]) == w.events;
  }

  lemma RegisterKeepsInvariant(w: World, a: Action)
    requires Invariant(w) && a.RegisterMedia?
    ensures Invariant(Next(w, a))
  {
    var delivery := DeliveryOf(w, a.patient);
    SectionKeeps(w, Reg.Event.Register((a.id, a.generation), delivery));
    if !w.record.closed && delivery.Sent? {
      var cmd := Register(a.id, a.generation, w.nextChannel);
      FreshNamesAppend(SentCommands(w), cmd, w.nextChannel, w.nextReply, w.nextChannel + 1, w.nextReply);
      assert SentCommands(Next(w, a)) == SentCommands(w) + [cmd];
    } else {
      assert SentCommands(Next(w, a)) == SentCommands(w);
    }
  }

  lemma EnqueueKeepsInvariant(w: World, w': World, cmd: Cmd)
    requires Invariant(w) && !cmd.Register? && !cmd.CancelAllForShutdown?
    requires w' == w.(unsent := w'.unsent, nextReply := w'.nextReply) && w.nextReply <= w'.nextReply
    requires cmd.PauseWithAck? ==> w.nextReply <= cmd.reply < w'.nextReply
    ensures Invariant(Enqueue(w', cmd))
  {
    if w.up {
      EnqueueSent(w', cmd);
      assert SentCommands(w') == SentCommands(w);
      FreshNamesAppend(SentCommands(w), cmd, w.nextChannel, w.nextReply, w.nextChannel, w'.nextReply);
      if w.sealedBy.Some? {
        var j :| Barrier(SentCommands(w), w.sealedBy.value, j);
        BarrierAppend(SentCommands(w), cmd, w.sealedBy.value, j);
      }
    } else {
      assert SentCommands(w') == SentCommands(w);
    }
  }

  lemma ShutDownKeepsInvariant(w: World, a: Action)
    requires Invariant(w) && a.ShutDown?
    ensures Invariant(Next(w, a))
  {
    var delivery := DeliveryOf(w, a.patient);
    SectionKeeps(w, Reg.Event.Shutdown(delivery));
    var cmds := SentCommands(w);
    if delivery.Sent? {
      var cmd := CancelAllForShutdown(w.nextReply);
      FreshNamesAppend(cmds, cmd, w.nextChannel, w.nextReply, w.nextChannel, w.nextReply + 1);
      assert SentCommands(Next(w, a)) == cmds + [cmd];
      assert Barrier(cmds + [cmd], w.nextReply, |cmds|);
    } else {
      assert SentCommands(Next(w, a)) == cmds;
    }
  }

  lemma HandleMoves(w: World)
    requires w.up && w.queue != []
    ensures var w' := Next(w, HandleNext);
            && w' == w.(queue := w.queue[1..], handled := w.handled + [w.queue[0]], coordinator := w'.coordinator)
            && w'.coordinator == Step(w.coordinator, w.queue[0])
            && SentCommands(w') == SentCommands(w)
  {
    assert w.handled + w.queue == w.handled + [w.queue[0]] + w.queue[1..];
  }

  lemma HandleKeepsInvariant(w: World)
    requires Invariant(w)
    ensures Invariant(Next(w, HandleNext))
  {
    if w.up && w.queue != [] {
      HandleMoves(w);
      assert Front(w.handled + [w.queue[0]]) == w.handled;
      assert MediaActor.Run(Initial, w.handled + [w.queue[0]]) == Step(w.coordinator, w.queue[0]);
    }
  }

  /** Steps that send nothing. */
  lemma SilentKeepsInvariant(w: World, a: Action)
    requires Invariant(w) && (a.BeginFinish? || a.DropFinish? || a.ReopenRegistration?)
    ensures Invariant(Next(w, a))
  {
    assert SentCommands(Next(w, a)) == SentCommands(w);
    if a.BeginFinish? {
      SectionKeeps(w, Reg.Event.Finish((a.id, a.generation), a.interrupted));
    } else if a.ReopenRegistration? {
      SectionKeeps(w, Reg.Event.Reopen);
    }
  }

  lemma FreshNamesPrefix(cmds: seq<Cmd>, more: seq<Cmd>, channels: nat, replies: nat)
    requires FreshNames(cmds + more, channels, replies)
    ensures FreshNames(cmds, channels, replies)
  {
    assert forall k :: 0 <= k < |cmds| ==> cmds[k] == (cmds + more)[k];
  }

  lemma StopKeepsInvariant(w: World, a: Action)
    requires Invariant(w) && a.StopCoordinator?
    ensures Invariant(Next(w, a))
  {
    FreshNamesPrefix(w.handled, w.queue, w.nextChannel, w.nextReply);
    assert SentCommands(Next(w, a)) == w.handled;
  }

  lemma ClientSendKeepsInvariant(w: World, a: Action)
    requires Invariant(w) && (a.PauseMedia? || a.PauseMediaWithAck? || a.SendFinish?)
    ensures Invariant(Next(w, a))
  {
    match a
    case PauseMedia(id, generation) => EnqueueKeepsInvariant(w, w, Pause(id, generation));
    case PauseMediaWithAck(id, generation) =>
      EnqueueKeepsInvariant(w, w.(nextReply := w.nextReply + 1), PauseWithAck(id, generation, w.nextReply));
    case SendFinish(id, generation, interrupted) =>
      var cmd := Finished(id, generation, interrupted);
      if cmd in w.unsent {
        EnqueueKeepsInvariant(w, w.(unsent := w.unsent - multiset{cmd}), cmd);
      }
  }

  lemma NextKeepsInvariant(w: World, a: Action)
    requires Invariant(w)
    ensures Invariant(Next(w, a))
  {
    match a
    case RegisterMedia(_, _, _) => RegisterKeepsInvariant(w, a);
    case PauseMedia(_, _) => ClientSendKeepsInvariant(w, a);
    case PauseMediaWithAck(_, _) => ClientSendKeepsInvariant(w, a);
    case SendFinish(_, _, _) => ClientSendKeepsInvariant(w, a);
    case BeginFinish(_, _, _) => SilentKeepsInvariant(w, a);
    case DropFinish(_, _, _) => SilentKeepsInvariant(w, a);
    case ReopenRegistration => SilentKeepsInvariant(w, a);
    case ShutDown(_) => ShutDownKeepsInvariant(w, a);
    case HandleNext => HandleKeepsInvariant(w);
    case StopCoordinator(_) => StopKeepsInvariant(w, a);
  }

  lemma {:induction false} InvariantHolds(actions: seq<Action>)
    ensures Invariant(Execute(actions))
  {
    if actions != [] {
      InvariantHolds(Front(actions));
      NextKeepsInvariant(Execute(Front(actions)), Last(actions));
    }
  }

  // ---------- The shutdown barrier ----------

  predicate NoReopen(actions: seq<Action>) {
    forall k :: 0 <= k < |actions| ==> !actions[k].ReopenRegistration?
  }

  /** The shutdown command n was handled as command j and nothing behind it registers. */
  ghost predicate Passed(w: World, n: Reply, j: nat) {
    && j < |w.handled|
    && Barrier(SentCommands(w), n, j)
    && (w.up ==> w.record.closed)
    && (!w.up ==> w.queue == [])
  }

  lemma PassedSame(w: World, w': World, n: Reply, j: nat)
    requires Passed(w, n, j) && SentCommands(w') == SentCommands(w) && w.handled <= w'.handled
    requires w'.up == w.up && (w.up ==> w'.record.closed) && (!w.up ==> w'.queue == [])
    ensures Passed(w', n, j)
  {
  }

  lemma PassedSend(w: World, w': World, cmd: Cmd, n: Reply, j: nat)
    requires Passed(w, n, j) && w.up && w'.up && w'.record.closed
    requires w'.handled == w.handled && w'.queue == w.queue + [cmd] && !cmd.Register?
    ensures Passed(w', n, j)
  {
    assert SentCommands(w') == SentCommands(w) + [cmd];
    BarrierAppend(SentCommands(w), cmd, n, j);
  }

  lemma PassedStop(w: World, a: Action, n: Reply, j: nat)
    requires Passed(w, n, j) && a.StopCoordinator?
    ensures Passed(Next(w, a), n, j)
  {
    assert SentCommands(Next(w, a)) == w.handled;
    assert forall k :: 0 <= k < |w.handled| ==> w.handled[k] == SentCommands(w)[k];
  }

  lemma PassedStep(w: World, a: Action, n: Reply, j: nat)
    requires Passed(w, n, j) && !a.ReopenRegistration?
    ensures Passed(Next(w, a), n, j) && w.handled <= Next(w, a).handled
  {
    var w' := Next(w, a);
    if a.StopCoordinator? {
      PassedStop(w, a, n, j);
    } else if a.HandleNext? {
      if w.up && w.queue != [] {
        HandleMoves(w);
        PassedSame(w, w', n, j);
      }
    } else if w'.queue == w.queue {
      PassedSame(w, w', n, j);
    } else {
      PassedSend(w, w', Last(w'.queue), n, j);
    }
  }

  lemma {:induction false} PassedUpto(actions: seq<Action>, from: nat, upto: nat, n: Reply, j: nat)
    requires from <= upto <= |actions| && Passed(Execute(actions[..from]), n, j)
    requires forall k :: from <= k < upto ==> !actions[k].ReopenRegistration?
    ensures Passed(Execute(actions[..upto]), n, j)
    ensures Execute(actions[..from]).handled <= Execute(actions[..upto]).handled
  {
    if from < upto {
      PassedUpto(actions, from, upto - 1, n, j);
      ExecuteNext(actions, upto - 1);
      PassedStep(Execute(actions[..upto - 1]), actions[upto - 1], n, j);
    }
  }

  lemma PassedStays(actions: seq<Action>, more: seq<Action>, n: Reply, j: nat)
    requires Passed(Execute(actions), n, j) && NoReopen(more)
    ensures Passed(Execute(actions + more), n, j)
    ensures Execute(actions).handled <= Execute(actions + more).handled
  {
    var all := actions + more;
    assert all[..|actions|] == actions && all[..|all|] == all;
    PassedUpto(all, |actions|, |all|, n, j);
  }

  lemma StaysSignalled(s: State, cmd: Cmd)
    requires ActiveChannels(s) <= s.signalled && !cmd.Register?
    ensures var t := Step(s, cmd); ActiveChannels(t) <= t.signalled
  {
    var t := Step(s, cmd);
    forall channel | channel in ActiveChannels(t) ensures channel in t.signalled {
      var id :| id in t.active && t.active[id].channel == channel;
      assert id in s.active && s.active[id] == t.active[id];
      assert channel in ActiveChannels(s);
    }
  }

  lemma {:induction false} AllSignalled(cmds: seq<Cmd>, n: Reply, j: nat)
    requires Barrier(cmds, n, j)
    ensures var s := MediaActor.Run(Initial, cmds); ActiveChannels(s) <= s.signalled
  {
    if j < |cmds| - 1 {
      assert Barrier(Front(cmds), n, j);
      AllSignalled(Front(cmds), n, j);
      assert !cmds[|cmds| - 1].Register?;
      StaysSignalled(MediaActor.Run(Initial, Front(cmds)), Last(cmds));
    }
  }

  /**
    Once the coordinator has handled the shutdown command of a closed period, no
    registration is handled until a reopen, whatever else clients do, and every runner
    it still knows of stays signalled.
   */
  lemma ShutdownBarrier(actions: seq<Action>, more: seq<Action>, n: Reply)
    ensures var w, w' := Execute(actions), Execute(actions + more);
            w.sealedBy == Some(n) && CancelAllForShutdown(n) in w.handled && NoReopen(more) ==>
              && w.handled <= w'.handled
              && (forall k :: |w.handled| <= k < |w'.handled| ==> !w'.handled[k].Register?)
              && (forall id :: id in w'.coordinator.active ==> w'.coordinator.active[id].channel in w'.coordinator.signalled)
  {
    var w, w' := Execute(actions), Execute(actions + more);
    if w.sealedBy == Some(n) && CancelAllForShutdown(n) in w.handled && NoReopen(more) {
      InvariantHolds(actions);
      var j :| Barrier(SentCommands(w), n, j);
      SealIsHandled(actions, n, j);
      PassedStays(actions, more, n, j);
      assert forall k :: 0 <= k < |w'.handled| ==> w'.handled[k] == SentCommands(w')[k];
      assert Barrier(w'.handled, n, j);
      InvariantHolds(actions + more);
      AllSignalled(w'.handled, n, j);
      forall id | id in w'.coordinator.active ensures w'.coordinator.active[id].channel in w'.coordinator.signalled {
        assert w'.coordinator.active[id].channel in ActiveChannels(w'.coordinator);
      }
    }
  }

  /** Shutdown senders are not reused, so the handled one is the one that sealed the period. */
  ghost predicate ShutdownsOnce(cmds: seq<Cmd>, replies: nat) {
    && (forall k :: 0 <= k < |cmds| && cmds[k].CancelAllForShutdown? ==> cmds[k].reply < replies)
    && (forall i, j :: 0 <= i < j < |cmds| && cmds[i].CancelAllForShutdown? && cmds[j].CancelAllForShutdown?
          ==> cmds[i].reply != cmds[j].reply)
  }

  lemma ShutdownsOnceAppend(cmds: seq<Cmd>, cmd: Cmd, replies: nat, replies': nat)
    requires ShutdownsOnce(cmds, replies) && replies <= replies'
    requires cmd.CancelAllForShutdown? ==> replies <= cmd.reply < replies'
    ensures ShutdownsOnce(cmds + [cmd], replies')
  {
  }

  lemma ShutdownsOncePrefix(cmds: seq<Cmd>, prefix: seq<Cmd>, replies: nat, replies': nat)
    requires ShutdownsOnce(cmds, replies) && replies <= replies' && prefix <= cmds
    ensures ShutdownsOnce(prefix, replies')
  {
  }

  lemma SentMore(w: World, w': World, cmd: Cmd)
    requires w'.queue == w.queue + [cmd] && w'.handled == w.handled
    ensures SentCommands(w') == SentCommands(w) + [cmd] && Front(SentCommands(w')) == SentCommands(w) && Last(SentCommands(w')) == cmd
  {
  }

  /** A step leaves the commands sent so far, forgets the unhandled ones, or sends one more. */
  lemma StepSends(w: World, a: Action)
    ensures var sent, sent' := SentCommands(w), SentCommands(Next(w, a));
            || sent' == sent
            || sent' == w.handled
            || (sent' != [] && Front(sent') == sent
                && (Last(sent').CancelAllForShutdown? ==> Last(sent').reply == w.nextReply < Next(w, a).nextReply))
  {
    var w' := Next(w, a);
    if a.HandleNext? {
      if w.up && w.queue != [] { HandleMoves(w); }
    } else if a.StopCoordinator? {
      assert SentCommands(w') == w.handled;
    } else if w'.queue != w.queue {
      assert w'.queue == w.queue + [Last(w'.queue)] && w'.handled == w.handled;
      SentMore(w, w', Last(w'.queue));
    }
  }

  lemma RepliesGrow(w: World, a: Action)
    ensures w.nextReply <= Next(w, a).nextReply
  {
  }

  lemma ShutdownsOnceStep(w: World, w': World, a: Action)
    requires ShutdownsOnce(SentCommands(w), w.nextReply) && w' == Next(w, a)
    ensures ShutdownsOnce(SentCommands(w'), w'.nextReply)
  {
    RepliesGrow(w, a);
    StepSends(w, a);
    var sent, sent' := SentCommands(w), SentCommands(w');
    if sent' == sent || sent' == w.handled {
      ShutdownsOncePrefix(sent, sent', w.nextReply, w'.nextReply);
    } else {
      ShutdownsOnceAppend(sent, Last(sent'), w.nextReply, w'.nextReply);
      assert sent' == sent + [Last(sent')];
    }
  }

  lemma {:induction false} ShutdownsOnceHolds(actions: seq<Action>)
    ensures ShutdownsOnce(SentCommands(Execute(actions)), Execute(actions).nextReply)
  {
    if actions != [] {
      ShutdownsOnceHolds(Front(actions));
      ShutdownsOnceStep(Execute(Front(actions)), Execute(actions), Last(actions));
    }
  }

  lemma SealIsHandled(actions: seq<Action>, n: Reply, j: nat)
    ensures var w := Execute(actions);
            Barrier(SentCommands(w), n, j) && CancelAllForShutdown(n) in w.handled ==> j < |w.handled|
  {
    var w := Execute(actions);
    if Barrier(SentCommands(w), n, j) && CancelAllForShutdown(n) in w.handled {
      ShutdownsOnceHolds(actions);
      var i :| 0 <= i < |w.handled| && w.handled[i] == CancelAllForShutdown(n);
      assert SentCommands(w)[i] == CancelAllForShutdown(n);
    }
  }

  // ---------- The coordinator's laws in the whole system ----------

  /** In every reachable state at most one registration of an id is neither told to stop nor finished. */
  lemma SingleRunnerInEveryRun(actions: seq<Action>, i: nat, j: nat)
    ensures var cmds := Execute(actions).handled;
            && i < |cmds| && j < |cmds| && cmds[i].Register? && cmds[j].Register? && cmds[i].id == cmds[j].id
            && Laws.Live(cmds, i) && Laws.Live(cmds, j)
            ==> i == j
  {
    var w := Execute(actions);
    var cmds := w.handled;
    if && i < |cmds| && j < |cmds| && cmds[i].Register? && cmds[j].Register? && cmds[i].id == cmds[j].id
       && Laws.Live(cmds, i) && Laws.Live(cmds, j)
    {
      InvariantHolds(actions);
      Laws.AtMostOneLiveRunner(cmds, i, j);
      assert forall k :: 0 <= k < |cmds| ==> cmds[k] == SentCommands(w)[k];
    }
  }

  /** In every run of the whole system every acknowledged pause has its fate, and no sender is used twice. */
  lemma PauseAnswersInEveryRun(actions: seq<Action>, i: nat)
    ensures var w := Execute(actions);
            i < |w.handled| && w.handled[i].PauseWithAck? ==>
              var cmd := w.handled[i];
              && (Laws.Answered(w.coordinator, cmd.reply, false) <==> !Laws.MatchedAt(w.handled, i))
              && (Laws.Answered(w.coordinator, cmd.reply, true) <==> Laws.MatchedAt(w.handled, i) && Laws.Confirmed(w.handled, i))
              && (forall a, b :: 0 <= a < b < |w.coordinator.pauseAnswers| ==>
                    w.coordinator.pauseAnswers[a].0 != w.coordinator.pauseAnswers[b].0)
  {
    var w := Execute(actions);
    if i < |w.handled| && w.handled[i].PauseWithAck? {
      InvariantHolds(actions);
      assert forall k :: 0 <= k < |w.handled| ==> w.handled[k] == SentCommands(w)[k];
      assert Laws.RepliesOnce(w.handled);
      Laws.PauseAckExact(w.handled, i);
      Laws.ReplyStateHolds(w.handled);
    }
  }

  /** If moreover no (id, generation) is registered twice, the answer `true` is the finish of the generation. */
  lemma PauseConfirmedInEveryRun(actions: seq<Action>, i: nat)
    ensures var w := Execute(actions);
            Laws.RegistersOnce(w.handled) && i < |w.handled| && w.handled[i].PauseWithAck? ==>
              var cmd := w.handled[i];
              (Laws.Answered(w.coordinator, cmd.reply, true) <==>
                Laws.MatchedAt(w.handled, i) && Laws.FinishedAfter(w.handled, i, cmd.id, cmd.generation))
  {
    var w := Execute(actions);
    if Laws.RegistersOnce(w.handled) && i < |w.handled| && w.handled[i].PauseWithAck? {
      InvariantHolds(actions);
      assert forall k :: 0 <= k < |w.handled| ==> w.handled[k] == SentCommands(w)[k];
      assert Laws.RepliesOnce(w.handled);
      Laws.PauseAckRegisteredOnce(w.handled, i);
    }
  }

  /** In every run of the whole system a shutdown is answered only once every runner it found has finished. */
  lemma ShutdownAnswersInEveryRun(actions: seq<Action>, j: nat, list: seq<Key>)
    ensures var w := Execute(actions);
            j < |w.handled| && w.handled[j].CancelAllForShutdown? && Laws.ShutdownAnswered(w.coordinator, w.handled[j].reply, list) ==>
              var awaited, later := ActiveKeys(MediaActor.Run(Initial, w.handled[..j])), w.handled[j + 1..];
              awaited <= Laws.FinishedKeys(later) && list == Laws.AnswerTo(awaited, later)
  {
    var w := Execute(actions);
    if j < |w.handled| && w.handled[j].CancelAllForShutdown? && Laws.ShutdownAnswered(w.coordinator, w.handled[j].reply, list) {
      InvariantHolds(actions);
      ShutdownsOnceHolds(actions);
      assert forall k :: 0 <= k < |w.handled| ==> w.handled[k] == SentCommands(w)[k];
      Laws.ShutdownAnsweredSoundly(w.handled, j, list);
    }
  }

  /** The fate of every shutdown, in every run of the whole system: answered, waiting, or displaced. */
  lemma ShutdownFateInEveryRun(actions: seq<Action>, j: nat)
    ensures var w := Execute(actions);
            j < |w.handled| && w.handled[j].CancelAllForShutdown? ==>
              && Laws.ShutdownFate(w.handled, j)
              && w.coordinator.shutdownAnswers == MediaActor.Run(Initial, w.handled).shutdownAnswers
              && w.coordinator.shutdown == MediaActor.Run(Initial, w.handled).shutdown
  {
    var w := Execute(actions);
    if j < |w.handled| && w.handled[j].CancelAllForShutdown? {
      InvariantHolds(actions);
      ShutdownsOnceHolds(actions);
      assert forall k :: 0 <= k < |w.handled| ==> w.handled[k] == SentCommands(w)[k];
      Laws.ShutdownWaits(w.handled, j);
    }
  }

  /** A run in which a retried shutdown displaces the first one, whose caller is never answered. */
  lemma ShutdownDisplacedRun(id: Id, generation: nat, interrupted: bool)
    ensures exists actions ::
      var w := Execute(actions);
      && CancelAllForShutdown(0) in w.handled && Finished(id, generation, interrupted) in w.handled && w.queue == []
      && Laws.AnswersTo(w.coordinator.shutdownAnswers, 0) == [] && !Laws.ShutdownPending(w.coordinator, 0)
      && |Laws.AnswersTo(w.coordinator.shutdownAnswers, 1)| == 1
  {
    var cmds := [Register(id, generation, 0), CancelAllForShutdown(0), CancelAllForShutdown(1), Finished(id, generation, interrupted)];
    var actions := DisplacedRun(id, generation, interrupted);
    DisplacedRunHandles(id, generation, interrupted);
    InvariantHolds(actions);
    Laws.ShutdownDisplaced(id, generation, 0, 0, 1, interrupted);
    var w := Execute(actions);
    assert cmds[1] in w.handled && cmds[3] in w.handled;
  }

  /** The worlds a run goes through. */
  ghost predicate Trace(worlds: seq<World>, actions: seq<Action>) {
    && |worlds| == |actions| + 1 && worlds[0] == Start
    && forall k :: 0 <= k < |actions| ==> worlds[k + 1] == Next(worlds[k], actions[k])
  }

  lemma TraceExists(actions: seq<Action>) returns (worlds: seq<World>)
    ensures Trace(worlds, actions) && worlds[|actions|] == Execute(actions)
  {
    worlds := seq(|actions| + 1, k requires 0 <= k <= |actions| => Execute(actions[..k]));
    forall k | 0 <= k < |actions| ensures worlds[k + 1] == Next(worlds[k], actions[k]) {
      ExecuteNext(actions, k);
    }
    assert actions[..|actions|] == actions;
  }

  /** From `from` on, `count` actions handle the first `count` waiting commands. */
  lemma {:induction false} HandlesQueue(worlds: seq<World>, from: nat, count: nat)
    requires from + count < |worlds| && worlds[from].up && count <= |worlds[from].queue|
    requires forall k :: from <= k < from + count ==> worlds[k + 1] == Next(worlds[k], HandleNext)
    ensures var w, w' := worlds[from], worlds[from + count];
            w'.up && w'.queue == w.queue[count..] && w'.handled == w.handled + w.queue[..count] && w'.record == w.record
  {
    if count > 0 {
      HandlesQueue(worlds, from, count - 1);
      HandleMoves(worlds[from + count - 1]);
    }
  }

  lemma ShutDownSends(w: World)
    requires w.up
    ensures var w' := Next(w, ShutDown(true));
            && w'.up && w'.queue == w.queue + [CancelAllForShutdown(w.nextReply)]
            && w'.nextReply == w.nextReply + 1 && w'.handled == w.handled && w'.record.active == w.record.active
  {
  }

  lemma FirstSends(id: Id, generation: nat)
    ensures var w := Next(Start, RegisterMedia(id, generation, true));
            && w.up && w.queue == [Register(id, generation, 0)] && w.handled == [] && w.nextReply == 0
            && w.record.active == {(id, generation)}
  {
  }

  lemma FinishSends(w: World, id: Id, generation: nat, interrupted: bool)
    requires w.up
    ensures var w' := Next(Next(w, BeginFinish(id, generation, interrupted)), SendFinish(id, generation, interrupted));
            w'.up && w'.queue == w.queue + [Finished(id, generation, interrupted)] && w'.handled == w.handled
  {
  }

  function DisplacedRun(id: Id, generation: nat, interrupted: bool): seq<Action> {
    [RegisterMedia(id, generation, true), ShutDown(true), ShutDown(true), BeginFinish(id, generation, interrupted),
     SendFinish(id, generation, interrupted), HandleNext, HandleNext, HandleNext, HandleNext]
  }

  lemma DisplacedRunSends(worlds: seq<World>, id: Id, generation: nat, interrupted: bool)
    requires Trace(worlds, DisplacedRun(id, generation, interrupted))
    ensures var w := worlds[5];
            w.up && w.handled == [] && w.queue ==
              [Register(id, generation, 0), CancelAllForShutdown(0), CancelAllForShutdown(1), Finished(id, generation, interrupted)]
  {
    var a := DisplacedRun(id, generation, interrupted);
    FirstSends(id, generation);
    assert worlds[0 + 1] == Next(Start, a[0]) && worlds[1 + 1] == Next(worlds[1], a[1]) && worlds[2 + 1] == Next(worlds[2], a[2]);
    ShutDownSends(worlds[1]);
    ShutDownSends(worlds[2]);
    assert worlds[3 + 1] == Next(worlds[3], a[3]) && worlds[4 + 1] == Next(worlds[4], a[4]);
    FinishSends(worlds[3], id, generation, interrupted);
  }

  lemma DisplacedRunHandles(id: Id, generation: nat, interrupted: bool)
    ensures var w := Execute(DisplacedRun(id, generation, interrupted));
            w.up && w.queue == [] && w.handled ==
              [Register(id, generation, 0), CancelAllForShutdown(0), CancelAllForShutdown(1), Finished(id, generation, interrupted)]
  {
    var worlds := TraceExists(DisplacedRun(id, generation, interrupted));
    DisplacedRunSends(worlds, id, generation, interrupted);
    HandlesQueue(worlds, 5, 4);
  }

  lemma HandledNames(actions: seq<Action>)
    ensures History.ChannelsOnce(Execute(actions).handled) && Laws.ShutdownRepliesDiffer(Execute(actions).handled)
  {
    var w := Execute(actions);
    InvariantHolds(actions);
    ShutdownsOnceHolds(actions);
    assert forall k :: 0 <= k < |w.handled| ==> w.handled[k] == SentCommands(w)[k];
  }

  /** In every run an answered shutdown leaves no accepted runner unfinished but those paused or replaced before it. */
  lemma ShutdownPromiseInEveryRun(actions: seq<Action>, j: nat)
    ensures var cmds := Execute(actions).handled;
            j < |cmds| && cmds[j].CancelAllForShutdown? && History.AnsweredAt(cmds, j) ==>
              && (forall i: nat :: i < j && History.Accepted(cmds, i) && !History.PausedOrReplaced(cmds, i, j) ==> History.Completed(cmds, i))
              && ((forall i: nat :: i < j && History.Accepted(cmds, i) ==> History.Completed(cmds, i)) <==>
                  (forall i: nat :: i < j && History.Accepted(cmds, i) && History.PausedOrReplaced(cmds, i, j) ==> History.Completed(cmds, i)))
  {
    var cmds := Execute(actions).handled;
    if j < |cmds| && cmds[j].CancelAllForShutdown? && History.AnsweredAt(cmds, j) {
      HandledNames(actions);
      forall i: nat | i < j && History.Accepted(cmds, i) && !History.PausedOrReplaced(cmds, i, j) ensures History.Completed(cmds, i) {
        History.AnsweredCompletes(cmds, j, i);
      }
      History.ShutdownPromiseExactly(cmds, j);
    }
  }

  /** In every run a shutdown finds an accepted, unfinished runner exactly if it was neither paused nor replaced. */
  lemma RunnerAwaitedInEveryRun(actions: seq<Action>, i: nat, j: nat)
    ensures var cmds := Execute(actions).handled;
            i < j < |cmds| && History.Accepted(cmds, i) && !History.FinishedBetween(cmds, i, j) ==>
              var entry := Entry(cmds[i].generation, cmds[i].channel);
              (History.HasEntry(MediaActor.Run(Initial, cmds[..j]), cmds[i].id, entry) <==> !History.PausedOrReplaced(cmds, i, j))
  {
    var cmds := Execute(actions).handled;
    if i < j < |cmds| && History.Accepted(cmds, i) && !History.FinishedBetween(cmds, i, j) {
      HandledNames(actions);
      History.RunnerAwaitedExactly(cmds, i, j);
    }
  }

  /** While the coordinator is up, a runner has been told to stop exactly for the reasons in the history. */
  lemma SignalledInEveryRun(actions: seq<Action>, i: nat)
    ensures var w := Execute(actions);
            w.up && i < |w.handled| && w.handled[i].Register? ==>
              (w.handled[i].channel in w.coordinator.signalled <==> History.Told(w.handled, i))
  {
    var w := Execute(actions);
    if w.up && i < |w.handled| && w.handled[i].Register? {
      InvariantHolds(actions);
      HandledNames(actions);
      History.SignalledExactly(w.handled, i);
    }
  }

  function PausedRun(id: Id, generation: nat): seq<Action> {
    [RegisterMedia(id, generation, true), PauseMedia(id, generation), ShutDown(true), HandleNext, HandleNext, HandleNext]
  }

  lemma PauseSends(w: World, id: Id, generation: nat)
    requires w.up
    ensures Next(w, PauseMedia(id, generation)) == w.(queue := w.queue + [Pause(id, generation)])
  {
  }

  lemma PausedRunSends(worlds: seq<World>, id: Id, generation: nat)
    requires Trace(worlds, PausedRun(id, generation))
    ensures var w := worlds[3];
            && w.up && w.handled == [] && w.record.active == {(id, generation)}
            && w.queue == [Register(id, generation, 0), Pause(id, generation), CancelAllForShutdown(0)]
  {
    var a := PausedRun(id, generation);
    FirstSends(id, generation);
    assert worlds[0 + 1] == Next(Start, a[0]) && worlds[1 + 1] == Next(worlds[1], a[1]) && worlds[2 + 1] == Next(worlds[2], a[2]);
    PauseSends(worlds[1], id, generation);
    ShutDownSends(worlds[2]);
  }

  lemma PausedRunHandles(id: Id, generation: nat)
    ensures var w := Execute(PausedRun(id, generation));
            && w.up && w.handled == [Register(id, generation, 0), Pause(id, generation), CancelAllForShutdown(0)]
            && w.record.active == {(id, generation)}
  {
    var worlds := TraceExists(PausedRun(id, generation));
    PausedRunSends(worlds, id, generation);
    HandlesQueue(worlds, 3, 3);
  }

  /** A run in which the shutdown is answered while a paused runner is still active in the record. */
  lemma PausedRunnerRun(id: Id, generation: nat)
    ensures exists actions ::
      var w := Execute(actions);
      && (id, generation) in w.record.active && w.handled != [] && History.Accepted(w.handled, 0) && !History.Completed(w.handled, 0)
      && w.handled[0] == Register(id, generation, 0) && w.coordinator.shutdownAnswers == [(0, [])]
  {
    var actions := PausedRun(id, generation);
    PausedRunHandles(id, generation);
    InvariantHolds(actions);
    History.PausedRunnerNotAwaited(Execute(actions).handled, id, generation, 0, 0);
  }

  /** What a reopen hands back, in every run of the whole system. */
  lemma RecoveryInEveryRun(actions: seq<Action>, key: Key)
    ensures var w := Execute(actions);
            key in Reg.Recovered(w.record) <==> Reg.OwedAtReopen(w.events, key)
  {
    InvariantHolds(actions);
    Reg.ReopenReturnsOwedKeys(Execute(actions).events);
  }
}
