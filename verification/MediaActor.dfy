/**
  The media half of the download coordinator: one actor that owns the running
  media jobs and handles one command at a time. A watch channel is named by a
  number; `signalled` is the set of channels on which `true` has been sent. A
  oneshot sender is named by a number too; an answer is recorded when it is sent,
  and a sender that is overwritten or dropped leaves no answer.
 */
module MediaActor {
  import opened Base
  import opened KeyOrder

  type Channel = nat
  type Reply = nat

  datatype Cmd =
    | Register(id: Id, generation: nat, channel: Channel)
    | Pause(id: Id, generation: nat)
    | PauseWithAck(id: Id, generation: nat, reply: Reply)
    | Finished(id: Id, generation: nat, interrupted: bool)
    | CancelAllForShutdown(reply: Reply)

  datatype Entry = Entry(generation: nat, channel: Channel)

  datatype PendingShutdown = PendingShutdown(remaining: set<Key>, interrupted: seq<Key>, reply: Reply)

  datatype State = State(
    active: map<Id, Entry>,
    tombstones: map<Id, nat>,
    pendingAcks: map<Key, Reply>,
    shutdown: Option<PendingShutdown>,
    signalled: set<Channel>,
    pauseAnswers: seq<(Reply, bool)>,
    shutdownAnswers: seq<(Reply, seq<Key>)>)

  const Initial := State(map[], map[], map[], None, {}, [], [])

  predicate Matches(s: State, id: Id, generation: nat) {
    id in s.active && s.active[id].generation == generation
  }

  predicate Stale(s: State, id: Id, generation: nat) {
    id in s.active && s.active[id].generation > generation
  }

  function WithTombstone(s: State, id: Id, generation: nat): State {
    s.(tombstones := s.tombstones[id :=
      if id in s.tombstones && s.tombstones[id] > generation then s.tombstones[id] else generation])
  }

  function OnRegister(s: State, id: Id, generation: nat, channel: Channel): State {
    if Stale(s, id, generation) then
      s.(signalled := s.signalled + {channel})
    else
      var replaced := if id in s.active then {s.active[id].channel} else {};
      var cancelled := if id in s.tombstones && s.tombstones[id] >= generation then {channel} else {};
      s.(active := s.active[id := Entry(generation, channel)],
         tombstones := if id in s.tombstones && s.tombstones[id] <= generation then s.tombstones - {id} else s.tombstones,
         signalled := s.signalled + replaced + cancelled)
  }

  function OnPause(s: State, id: Id, generation: nat): State {
    if Matches(s, id, generation) then
      s.(active := s.active - {id}, signalled := s.signalled + {s.active[id].channel})
    else
      WithTombstone(s, id, generation)
  }

  function OnPauseWithAck(s: State, id: Id, generation: nat, reply: Reply): State {
    var paused := OnPause(s, id, generation);
    if Matches(s, id, generation) then
      paused.(pendingAcks := s.pendingAcks[(id, generation) := reply])
    else
      paused.(pauseAnswers := s.pauseAnswers + [(reply, false)])
  }

  function SettleShutdown(s: State, key: Key, interrupted: bool): State {
    match s.shutdown
    case None => s
    case Some(waiting) =>
      var remaining := waiting.remaining - {key};
      var marked := if interrupted then waiting.interrupted + [key] else waiting.interrupted;
      if remaining == {} then
        s.(shutdown := None, shutdownAnswers := s.shutdownAnswers + [(waiting.reply, Sort(marked))])
      else
        s.(shutdown := Some(PendingShutdown(remaining, marked, waiting.reply)))
  }

  function OnFinished(s: State, id: Id, generation: nat, interrupted: bool): State {
    var key := (id, generation);
    var finished := s.(
      active := if Matches(s, id, generation) then s.active - {id} else s.active,
      pendingAcks := s.pendingAcks - {key},
      pauseAnswers := if key in s.pendingAcks then s.pauseAnswers + [(s.pendingAcks[key], true)] else s.pauseAnswers,
      tombstones := if id in s.tombstones && s.tombstones[id] <= generation then s.tombstones - {id} else s.tombstones);
    SettleShutdown(finished, key, interrupted)
  }

  function ActiveKeys(s: State): set<Key> {
    set id | id in s.active :: (id, s.active[id].generation)
  }

  function ActiveChannels(s: State): set<Channel> {
    set id | id in s.active :: s.active[id].channel
  }

  function OnCancelAll(s: State, reply: Reply): State {
    var cancelled := s.(signalled := s.signalled + ActiveChannels(s));
    if s.active == map[] then
      cancelled.(shutdownAnswers := s.shutdownAnswers + [(reply, [])])
    else
      cancelled.(shutdown := Some(PendingShutdown(ActiveKeys(s), [], reply)))
  }

  function Step(s: State, cmd: Cmd): State {
    match cmd
    case Register(id, generation, channel) => OnRegister(s, id, generation, channel)
    case Pause(id, generation) => OnPause(s, id, generation)
    case PauseWithAck(id, generation, reply) => OnPauseWithAck(s, id, generation, reply)
    case Finished(id, generation, interrupted) => OnFinished(s, id, generation, interrupted)
    case CancelAllForShutdown(reply) => OnCancelAll(s, reply)
  }

  function Run(s: State, cmds: seq<Cmd>): State {
    if cmds == [] then s else Step(Run(s, Front(cmds)), Last(cmds))
  }

  /** When both channels have closed, the actor tells every runner it still knows of to stop. */
  function Ended(s: State): State {
    s.(signalled := s.signalled + ActiveChannels(s))
  }

  lemma {:induction false} RunConcat(s: State, first: seq<Cmd>, second: seq<Cmd>)
    ensures Run(s, first + second) == Run(Run(s, first), second)
  {
    if second == [] {
      assert first + second == first;
    } else {
      RunConcat(s, first, Front(second));
      assert Front(first + second) == first + Front(second) && Last(first + second) == Last(second);
    }
  }

  /** The running actor: the local variables of the coordinator loop. */
  class Coordinator {
    var activeMedia: map<Id, Entry>
    var cancelledGenerations: map<Id, nat>
    var pendingMediaAcks: map<Key, Reply>
    var pendingShutdown: Option<PendingShutdown>
    var signalled: set<Channel>
    var pauseAnswers: seq<(Reply, bool)>
    var shutdownAnswers: seq<(Reply, seq<Key>)>

    function View(): State
      reads this
    {
      State(activeMedia, cancelledGenerations, pendingMediaAcks, pendingShutdown,
            signalled, pauseAnswers, shutdownAnswers)
    }

    constructor ()
      ensures View() == Initial
    {
      activeMedia := map[];
      cancelledGenerations := map[];
      pendingMediaAcks := map[];
      pendingShutdown := None;
      signalled := {};
      pauseAnswers := [];
      shutdownAnswers := [];
    }

    method HandleRegister(id: Id, generation: nat, channel: Channel)
      modifies this
      ensures View() == Step(old(View()), Register(id, generation, channel))
    {
      if id in activeMedia && activeMedia[id].generation > generation {
        signalled := signalled + {channel};
        return;
      }
      var hasTombstone := id in cancelledGenerations;
      var pendingCancel := if hasTombstone then cancelledGenerations[id] else 0;
      if hasTombstone && pendingCancel < generation {
        cancelledGenerations := cancelledGenerations - {id};
      }
      var cancelled := hasTombstone && pendingCancel >= generation;
      if id in activeMedia {
        signalled := signalled + {activeMedia[id].channel};
      }
      activeMedia := activeMedia[id := Entry(generation, channel)];
      if cancelled {
        signalled := signalled + {activeMedia[id].channel};
        if pendingCancel == generation {
          cancelledGenerations := cancelledGenerations - {id};
        }
      }
    }

    method RecordTombstone(id: Id, generation: nat)
      modifies this
      ensures View() == WithTombstone(old(View()), id, generation)
    {
      if id in cancelledGenerations {
        if cancelledGenerations[id] < generation {
          cancelledGenerations := cancelledGenerations[id := generation];
        } else {
          assert cancelledGenerations == cancelledGenerations[id := cancelledGenerations[id]];
        }
      } else {
        cancelledGenerations := cancelledGenerations[id := generation];
      }
    }

    method HandlePause(id: Id, generation: nat)
      modifies this
      ensures View() == Step(old(View()), Pause(id, generation))
    {
      if id in activeMedia && activeMedia[id].generation == generation {
        signalled := signalled + {activeMedia[id].channel};
        activeMedia := activeMedia - {id};
      } else {
        RecordTombstone(id, generation);
      }
    }

    method HandlePauseWithAck(id: Id, generation: nat, reply: Reply)
      modifies this
      ensures View() == Step(old(View()), PauseWithAck(id, generation, reply))
    {
      if id in activeMedia && activeMedia[id].generation == generation {
        signalled := signalled + {activeMedia[id].channel};
        activeMedia := activeMedia - {id};
        pendingMediaAcks := pendingMediaAcks[(id, generation) := reply];
      } else {
        RecordTombstone(id, generation);
        pauseAnswers := pauseAnswers + [(reply, false)];
      }
    }

    method HandleFinished(id: Id, generation: nat, interrupted: bool)
      modifies this
      ensures View() == Step(old(View()), Finished(id, generation, interrupted))
    {
      var key := (id, generation);
      if id in activeMedia && activeMedia[id].generation == generation {
        activeMedia := activeMedia - {id};
      }
      if key in pendingMediaAcks {
        pauseAnswers := pauseAnswers + [(pendingMediaAcks[key], true)];
      }
      pendingMediaAcks := pendingMediaAcks - {key};
      if id in cancelledGenerations && cancelledGenerations[id] <= generation {
        cancelledGenerations := cancelledGenerations - {id};
      }
      match pendingShutdown {
        case None =>
        case Some(waiting) =>
          var remaining := waiting.remaining - {key};
          var marked := waiting.interrupted;
          if interrupted {
            marked := marked + [key];
          }
          pendingShutdown := Some(PendingShutdown(remaining, marked, waiting.reply));
          if remaining == {} {
            pendingShutdown := None;
            shutdownAnswers := shutdownAnswers + [(waiting.reply, Sort(marked))];
          }
      }
    }

    method HandleCancelAll(reply: Reply)
      modifies this
      ensures View() == Step(old(View()), CancelAllForShutdown(reply))
    {
      var rest := activeMedia.Keys;
      var remaining: set<Key> := {};
      while rest != {}
        invariant rest <= activeMedia.Keys
        invariant View() == old(View()).(signalled := signalled)
        invariant remaining == set id | id in activeMedia && id !in rest :: (id, activeMedia[id].generation)
        invariant signalled == old(signalled) + set id | id in activeMedia && id !in rest :: activeMedia[id].channel
        decreases rest
      {
        var id :| id in rest;
        rest := rest - {id};
        remaining := remaining + {(id, activeMedia[id].generation)};
        signalled := signalled + {activeMedia[id].channel};
      }
      assert remaining == ActiveKeys(old(View()));
      assert signalled == old(signalled) + ActiveChannels(old(View()));
      assert forall id :: id in activeMedia ==> (id, activeMedia[id].generation) in remaining;
      if remaining == {} {
        assert activeMedia == map[];
        shutdownAnswers := shutdownAnswers + [(reply, [])];
      } else {
        pendingShutdown := Some(PendingShutdown(remaining, [], reply));
      }
    }

    method SignalRest()
      modifies this
      ensures View() == Ended(old(View()))
    {
      var rest := activeMedia.Keys;
      while rest != {}
        invariant rest <= activeMedia.Keys
        invariant View() == old(View()).(signalled := signalled)
        invariant signalled == old(signalled) + set id | id in activeMedia && id !in rest :: activeMedia[id].channel
        decreases rest
      {
        var id :| id in rest;
        rest := rest - {id};
        signalled := signalled + {activeMedia[id].channel};
      }
      assert signalled == old(signalled) + ActiveChannels(old(View()));
    }

    method Handle(cmd: Cmd)
      modifies this
      ensures View() == Step(old(View()), cmd)
    {
      match cmd {
        case Register(id, generation, channel) => HandleRegister(id, generation, channel);
        case Pause(id, generation) => HandlePause(id, generation);
        case PauseWithAck(id, generation, reply) => HandlePauseWithAck(id, generation, reply);
        case Finished(id, generation, interrupted) => HandleFinished(id, generation, interrupted);
        case CancelAllForShutdown(reply) => HandleCancelAll(reply);
      }
    }

    /** The receive loop over the commands that arrive before both channels close, and what follows it. */
    method Serve(cmds: seq<Cmd>)
      modifies this
      ensures View() == Ended(Run(old(View()), cmds))
    {
      for i := 0 to |cmds|
        invariant View() == Run(old(View()), cmds[..i])
      {
        Handle(cmds[i]);
        assert Front(cmds[..i + 1]) == cmds[..i];
      }
      assert cmds[..|cmds|] == cmds;
      SignalRest();
    }
  }
}
