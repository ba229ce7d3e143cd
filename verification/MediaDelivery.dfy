/**
  The channel between the client tasks and the coordinator: what every client step sends and
  enters in the record, that commands are handled in the order they were sent, and that all
  of them are handled while the coordinator runs.
 */
module MediaDelivery {
  import opened Base
  import opened KeyOrder
  import opened MediaActor
  import opened MediaProtocol
  import Reg = MediaRegistration

  /** The commands that a step puts into the channel of a running coordinator. */
  function Sends(w: World, a: Action): seq<Cmd> {
    match a
    case RegisterMedia(id, generation, patient) =>
      if patient && !w.record.closed then [Cmd.Register(id, generation, w.nextChannel)] else []
    case PauseMedia(id, generation) => [Cmd.Pause(id, generation)]
    case PauseMediaWithAck(id, generation) => [Cmd.PauseWithAck(id, generation, w.nextReply)]
    case SendFinish(id, generation, interrupted) =>
      if Cmd.Finished(id, generation, interrupted) in w.unsent then [Cmd.Finished(id, generation, interrupted)] else []
    case ShutDown(patient) => if patient then [Cmd.CancelAllForShutdown(w.nextReply)] else []
    case _ => []
  }

  /** The critical sections that a step runs. */
  function Enters(w: World, a: Action): seq<Reg.Event> {
    match a
    case RegisterMedia(id, generation, patient) => [Reg.Event.Register((id, generation), Outcome(w, patient))]
    case BeginFinish(id, generation, interrupted) => [Reg.Event.Finish((id, generation), interrupted)]
    case ShutDown(patient) => [Reg.Event.Shutdown(Outcome(w, patient))]
    case ReopenRegistration => [Reg.Event.Reopen]
    case _ => []
  }

  /** A send fails only if the coordinator is gone, and is abandoned only if its caller is dropped. */
  function Outcome(w: World, patient: bool): Reg.Delivery {
    match (w.up, patient)
    case (false, _) => Reg.Unavailable
    case (true, true) => Reg.Sent
    case (true, false) => Reg.Abandoned
  }

  lemma SendsExactly(w: World, a: Action)
    requires !a.StopCoordinator?
    ensures SentCommands(Next(w, a)) == SentCommands(w) + (if w.up then Sends(w, a) else [])
    ensures w.handled <= Next(w, a).handled
  {
    if a.HandleNext? && w.up && w.queue != [] {
      HandleMoves(w);
    }
    assert SentCommands(w) + [] == SentCommands(w);
  }

  lemma EntersExactly(w: World, a: Action)
    ensures Next(w, a).events == w.events + Enters(w, a)
    ensures Next(w, a).record == if Enters(w, a) == [] then w.record else Reg.Apply(w.record, Enters(w, a)[0])
  {
  }

  /** A finish is owed from its critical section until it is sent or its task is dropped. */
  lemma OwedFinishes(w: World, a: Action, cmd: Cmd)
    ensures Next(w, a).unsent[cmd] ==
            if a.BeginFinish? && cmd == Cmd.Finished(a.id, a.generation, a.interrupted) then w.unsent[cmd] + 1
            else if (a.SendFinish? || a.DropFinish?) && cmd == Cmd.Finished(a.id, a.generation, a.interrupted) && w.unsent[cmd] > 0
            then w.unsent[cmd] - 1
            else w.unsent[cmd]
  {
  }

  /** A stop drops the queue; at the end of the drained loop it tells every runner to stop. */
  lemma StopExactly(w: World, drained: bool, id: Id)
    ensures var u := Next(w, StopCoordinator(drained));
            && !u.up && u.queue == [] && u.handled == w.handled && u.events == w.events
            && (drained && w.up && w.queue == [] && id in w.coordinator.active ==> w.coordinator.active[id].channel in u.coordinator.signalled)
            && u.coordinator.active == w.coordinator.active && u.coordinator.shutdownAnswers == w.coordinator.shutdownAnswers
            && u.coordinator.pauseAnswers == w.coordinator.pauseAnswers
  {
  }

  // ---------- Whole runs ----------

  predicate KeepsRunning(actions: seq<Action>) {
    forall k :: 0 <= k < |actions| ==> !actions[k].StopCoordinator?
  }

  function AllSent(actions: seq<Action>): seq<Cmd> {
    if actions == [] then [] else AllSent(Front(actions)) + Sends(Execute(Front(actions)), Last(actions))
  }

  lemma StaysUp(w: World, a: Action)
    requires w.up && !a.StopCoordinator?
    ensures Next(w, a).up
  {
  }

  /** While the coordinator runs, what it has handled and what waits for it are all commands that were sent, in that order. */
  lemma {:induction false} DeliveredInOrder(actions: seq<Action>)
    requires KeepsRunning(actions)
    ensures Execute(actions).up && SentCommands(Execute(actions)) == AllSent(actions)
  {
    if actions != [] {
      var w, a := Execute(Front(actions)), Last(actions);
      DeliveredInOrder(Front(actions));
      assert !a.StopCoordinator? by { assert actions[|actions| - 1] == a; }
      StaysUp(w, a);
      SendsExactly(w, a);
    }
  }

  function Handling(n: nat): seq<Action> {
    if n == 0 then [] else Handling(n - 1) + [HandleNext]
  }

  function Handled(w: World, n: nat): World {
    if n == 0 then w else Next(Handled(w, n - 1), HandleNext)
  }

  lemma {:induction false} ExecuteHandling(actions: seq<Action>, n: nat)
    ensures Execute(actions + Handling(n)) == Handled(Execute(actions), n)
  {
    if n == 0 {
      assert actions + Handling(0) == actions;
    } else {
      ExecuteHandling(actions, n - 1);
      var before := actions + Handling(n - 1);
      assert actions + Handling(n) == before + [HandleNext] && Front(before + [HandleNext]) == before;
    }
  }

  lemma HandlesFirst(w: World)
    requires w.up && w.queue != []
    ensures var u := Next(w, HandleNext); u.up && u.queue == w.queue[1..] && u.handled == w.handled + [w.queue[0]]
  {
  }

  lemma {:induction false} Drains(w: World, n: nat)
    requires w.up && n <= |w.queue|
    ensures var u := Handled(w, n); u.up && u.handled == w.handled + w.queue[..n] && u.queue == w.queue[n..]
  {
    if n > 0 {
      Drains(w, n - 1);
      HandlesFirst(Handled(w, n - 1));
      assert w.queue[..n] == w.queue[..n - 1] + [w.queue[n - 1]];
    }
  }

  /** A running coordinator comes to handle every command that was sent, by doing nothing else. */
  lemma EveryCommandHandled(actions: seq<Action>)
    requires KeepsRunning(actions)
    ensures var n := |Execute(actions).queue|;
            Execute(actions + Handling(n)).handled == AllSent(actions)
  {
    DeliveredInOrder(actions);
    var w := Execute(actions);
    Drains(w, |w.queue|);
    ExecuteHandling(actions, |w.queue|);
    assert w.queue[..|w.queue|] == w.queue;
  }
}
