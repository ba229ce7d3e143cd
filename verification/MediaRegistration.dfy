/**
  The registration record that client tasks share under one mutex. Each event is
  one critical section. A critical section that sends to the coordinator may have
  the send succeed, be abandoned (the caller is dropped while it waits for channel
  space), or fail because the coordinator is gone.
 */
module MediaRegistration {
  import opened Base
  import opened KeyOrder

  datatype Delivery = Sent | Abandoned | Unavailable

  datatype Record = Record(closed: bool, rejected: set<Key>, active: set<Key>, interrupted: set<Key>)

  const Fresh := Record(false, {}, {}, {})

  datatype Event =
    | Register(key: Key, delivery: Delivery)
    | Shutdown(delivery: Delivery)
    | Finish(key: Key, interrupted: bool)
    | Reopen

  function Apply(r: Record, e: Event): Record {
    match e
    case Register(key, delivery) =>
      if r.closed then r.(rejected := r.rejected + {key})
      else if delivery.Sent? then r.(active := r.active + {key})
      else r
    case Shutdown(delivery) =>
      r.(closed := !delivery.Unavailable?, interrupted := r.interrupted + r.active)
    case Finish(key, interrupted) =>
      r.(active := r.active - {key},
         interrupted := if interrupted && r.closed then r.interrupted + {key} else r.interrupted - {key})
    case Reopen =>
      r.(closed := false, rejected := {}, interrupted := {})
  }

  function Run(events: seq<Event>): Record {
    if events == [] then Fresh else Apply(Run(Front(events)), Last(events))
  }

  class Registration {
    var closed: bool
    var rejectedDuringShutdown: set<Key>
    var active: set<Key>
    var interruptedDuringShutdown: set<Key>

    function View(): Record
      reads this
    {
      Record(closed, rejectedDuringShutdown, active, interruptedDuringShutdown)
    }

    constructor ()
      ensures View() == Fresh
    {
      closed := false;
      rejectedDuringShutdown := {};
      active := {};
      interruptedDuringShutdown := {};
    }

    /** `started` is false exactly when the returned receiver already reads `true`. */
    method RegisterMedia(id: Id, generation: nat, delivery: Delivery) returns (started: Result<bool, string>)
      modifies this
      ensures View() == Apply(old(View()), Event.Register((id, generation), delivery))
      ensures old(closed) ==> started == Ok(false)
      ensures !old(closed) ==> (started == Ok(true) <==> delivery.Sent?) && (started.Ok? ==> delivery.Sent?)
    {
      if closed {
        rejectedDuringShutdown := rejectedDuringShutdown + {(id, generation)};
        return Ok(false);
      }
      if !delivery.Sent? {
        return Err("download coordinator is unavailable");
      }
      active := active + {(id, generation)};
      return Ok(true);
    }

    method CancelActiveForShutdown(delivery: Delivery)
      modifies this
      ensures View() == Apply(old(View()), Event.Shutdown(delivery))
    {
      closed := true;
      interruptedDuringShutdown := interruptedDuringShutdown + active;
      if delivery.Unavailable? {
        closed := false;
      }
    }

    method FinishMedia(id: Id, generation: nat, shutdownInterrupted: bool)
      modifies this
      ensures View() == Apply(old(View()), Event.Finish((id, generation), shutdownInterrupted))
    {
      var key := (id, generation);
      active := active - {key};
      if shutdownInterrupted && closed {
        interruptedDuringShutdown := interruptedDuringShutdown + {key};
      } else {
        interruptedDuringShutdown := interruptedDuringShutdown - {key};
      }
    }

    /** Both sets drain in an arbitrary order; sorting and deduplicating makes the list canonical. */
    method ReopenRegistration() returns (recovery: seq<Key>)
      modifies this
      ensures View() == Apply(old(View()), Event.Reopen)
      ensures StrictlySorted(recovery)
      ensures ToSet(recovery) == old(rejectedDuringShutdown) + old(interruptedDuringShutdown)
    {
      closed := false;
      var drained: seq<Key> := [];
      while rejectedDuringShutdown != {}
        invariant ToSet(drained) + rejectedDuringShutdown == old(rejectedDuringShutdown)
        invariant View() == old(View()).(closed := false, rejected := rejectedDuringShutdown)
        decreases rejectedDuringShutdown
      {
        var key :| key in rejectedDuringShutdown;
        rejectedDuringShutdown := rejectedDuringShutdown - {key};
        drained := drained + [key];
      }
      while interruptedDuringShutdown != {}
        invariant ToSet(drained) + interruptedDuringShutdown == old(rejectedDuringShutdown) + old(interruptedDuringShutdown)
        invariant View() == old(View()).(closed := false, rejected := {}, interrupted := interruptedDuringShutdown)
        decreases interruptedDuringShutdown
      {
        var key :| key in interruptedDuringShutdown;
        interruptedDuringShutdown := interruptedDuringShutdown - {key};
        drained := drained + [key];
      }
      SortCorrect(drained);
      SameElements(Sort(drained), drained);
      DedupSorted(Sort(drained));
      recovery := Dedup(Sort(drained));
    }
  }

  lemma SameElements(a: seq<Key>, b: seq<Key>)
    requires multiset(a) == multiset(b)
    ensures ToSet(a) == ToSet(b)
  {
    assert forall x :: x in a <==> x in multiset(a);
    assert forall x :: x in b <==> x in multiset(b);
  }

  // ---------- What a reopen must return, read off the history alone ----------

  ghost predicate NoReopenFrom(events: seq<Event>, i: nat) {
    forall k :: i <= k < |events| ==> !events[k].Reopen?
  }

  /** The last close or reopen before `i` was a close. */
  ghost predicate ClosedAt(events: seq<Event>, i: nat)
    requires i <= |events|
  {
    exists c :: 0 <= c < i && events[c].Shutdown? && !events[c].delivery.Unavailable?
                && forall k :: c < k < i ==> !events[k].Reopen? && !(events[k].Shutdown? && events[k].delivery.Unavailable?)
  }

  /** A registration was accepted before `i` and its runner has not been reported since. */
  ghost predicate RunningAt(events: seq<Event>, i: nat, key: Key)
    requires i <= |events|
  {
    exists c :: 0 <= c < i && events[c] == Event.Register(key, Sent) && !ClosedAt(events, c)
                && forall k :: c < k < i ==> !(events[k].Finish? && events[k].key == key)
  }

  /** Event `i` gives the key a claim to recovery: a refused registration or an interruption. */
  ghost predicate RejectedBy(events: seq<Event>, i: nat, key: Key)
    requires i < |events|
  {
    events[i].Register? && events[i].key == key && ClosedAt(events, i)
  }

  ghost predicate MarkedBy(events: seq<Event>, i: nat, key: Key)
    requires i < |events|
  {
    (events[i].Shutdown? && RunningAt(events, i, key))
    || (events[i].Finish? && events[i].key == key && events[i].interrupted && ClosedAt(events, i))
  }

  /** A finish that takes the other branch withdraws an interruption mark. */
  ghost predicate RetiredBy(events: seq<Event>, i: nat, key: Key)
    requires i < |events|
  {
    events[i].Finish? && events[i].key == key && !(events[i].interrupted && ClosedAt(events, i))
  }

  ghost predicate RejectedSince(events: seq<Event>, key: Key) {
    exists i :: 0 <= i < |events| && RejectedBy(events, i, key) && NoReopenFrom(events, i)
  }

  ghost predicate InterruptedSince(events: seq<Event>, key: Key) {
    exists i :: 0 <= i < |events| && MarkedBy(events, i, key) && NoReopenFrom(events, i)
                && forall k :: i < k < |events| ==> !RetiredBy(events, k, key)
  }

  /** The keys the next reopen owes its caller. */
  ghost predicate OwedAtReopen(events: seq<Event>, key: Key) {
    RejectedSince(events, key) || InterruptedSince(events, key)
  }

  // Facts about prefixes: what the history said before the last event is what it says of the front.

  lemma FrontAgrees(events: seq<Event>, i: nat)
    requires events != [] && i < |events|
    ensures ClosedAt(events, i) == ClosedAt(Front(events), i)
    ensures forall key :: RunningAt(events, i, key) == RunningAt(Front(events), i, key)
  {
    var before := Front(events);
    assert forall k :: 0 <= k < |before| ==> before[k] == events[k];
    forall c | 0 <= c <= i ensures ClosedAt(events, c) == ClosedAt(before, c) {
      ClosedFrontAgrees(events, c);
    }
    forall key ensures RunningAt(events, i, key) == RunningAt(before, i, key) {
      if RunningAt(events, i, key) {
        var c :| 0 <= c < i && events[c] == Event.Register(key, Sent) && !ClosedAt(events, c)
                 && forall k :: c < k < i ==> !(events[k].Finish? && events[k].key == key);
        assert before[c] == Event.Register(key, Sent) && !ClosedAt(before, c);
        assert forall k :: c < k < i ==> !(before[k].Finish? && before[k].key == key);
      }
      if RunningAt(before, i, key) {
        var c :| 0 <= c < i && before[c] == Event.Register(key, Sent) && !ClosedAt(before, c)
                 && forall k :: c < k < i ==> !(before[k].Finish? && before[k].key == key);
        assert events[c] == Event.Register(key, Sent) && !ClosedAt(events, c);
        assert forall k :: c < k < i ==> !(events[k].Finish? && events[k].key == key);
      }
    }
  }

  lemma ClosedFrontAgrees(events: seq<Event>, i: nat)
    requires events != [] && i < |events|
    ensures ClosedAt(events, i) == ClosedAt(Front(events), i)
  {
    var before := Front(events);
    if ClosedAt(events, i) {
      var c :| 0 <= c < i && events[c].Shutdown? && !events[c].delivery.Unavailable?
               && forall k :: c < k < i ==> !events[k].Reopen? && !(events[k].Shutdown? && events[k].delivery.Unavailable?);
      assert before[c] == events[c];
      assert forall k :: c < k < i ==> before[k] == events[k];
    }
    if ClosedAt(before, i) {
      var c :| 0 <= c < i && before[c].Shutdown? && !before[c].delivery.Unavailable?
               && forall k :: c < k < i ==> !before[k].Reopen? && !(before[k].Shutdown? && before[k].delivery.Unavailable?);
      assert before[c] == events[c];
      assert forall k :: c < k < i ==> before[k] == events[k];
    }
  }

  /** The flag, read off the history. */
  lemma {:induction false} ClosedIsClosed(events: seq<Event>)
    ensures Run(events).closed == ClosedAt(events, |events|)
  {
    if events != [] {
      var before, n := Front(events), |events| - 1;
      ClosedIsClosed(before);
      ClosedFrontAgrees(events, n);
      assert events[n] == Last(events);
      if ClosedAt(events, n) {
        var c :| 0 <= c < n && events[c].Shutdown? && !events[c].delivery.Unavailable?
                 && forall k :: c < k < n ==> !events[k].Reopen? && !(events[k].Shutdown? && events[k].delivery.Unavailable?);
        if !Last(events).Reopen? && !(Last(events).Shutdown? && Last(events).delivery.Unavailable?) {
          assert forall k :: c < k < |events| ==> !events[k].Reopen? && !(events[k].Shutdown? && events[k].delivery.Unavailable?);
          assert ClosedAt(events, |events|);
        }
      }
      if ClosedAt(events, |events|) {
        var c :| 0 <= c < |events| && events[c].Shutdown? && !events[c].delivery.Unavailable?
                 && forall k :: c < k < |events| ==> !events[k].Reopen? && !(events[k].Shutdown? && events[k].delivery.Unavailable?);
        assert c == n || ClosedAt(events, n);
      }
    }
  }

  /** The registrations still running, read off the history. */
  lemma {:induction false} ActiveIsRunning(events: seq<Event>, key: Key)
    ensures key in Run(events).active <==> RunningAt(events, |events|, key)
  {
    if events != [] {
      var before, n := Front(events), |events| - 1;
      ActiveIsRunning(before, key);
      ClosedIsClosed(before);
      FrontAgrees(events, n);
      assert events[n] == Last(events);
      if RunningAt(events, n, key) && !(Last(events).Finish? && Last(events).key == key) {
        var c :| 0 <= c < n && events[c] == Event.Register(key, Sent) && !ClosedAt(events, c)
                 && forall k :: c < k < n ==> !(events[k].Finish? && events[k].key == key);
        assert forall k :: c < k < |events| ==> !(events[k].Finish? && events[k].key == key);
        assert RunningAt(events, |events|, key);
      }
      if RunningAt(events, |events|, key) {
        var c :| 0 <= c < |events| && events[c] == Event.Register(key, Sent) && !ClosedAt(events, c)
                 && forall k :: c < k < |events| ==> !(events[k].Finish? && events[k].key == key);
        assert c == n || RunningAt(events, n, key);
      }
    }
  }

  lemma RejectedSinceLast(events: seq<Event>, key: Key)
    requires events != []
    ensures RejectedSince(events, key) <==>
            !Last(events).Reopen? && (RejectedSince(Front(events), key) || RejectedBy(events, |events| - 1, key))
  {
    var before, n := Front(events), |events| - 1;
    assert events[n] == Last(events);
    assert forall k :: 0 <= k < n ==> before[k] == events[k];
    forall i | 0 <= i < n ensures RejectedBy(events, i, key) == RejectedBy(before, i, key) {
      ClosedFrontAgrees(events, i);
    }
    if RejectedSince(before, key) && !Last(events).Reopen? {
      var i :| 0 <= i < n && RejectedBy(before, i, key) && NoReopenFrom(before, i);
      assert NoReopenFrom(events, i) && RejectedBy(events, i, key);
    }
    if RejectedSince(events, key) {
      var i :| 0 <= i < |events| && RejectedBy(events, i, key) && NoReopenFrom(events, i);
      if i < n {
        assert RejectedBy(before, i, key) && NoReopenFrom(before, i);
      }
    }
  }

  lemma MarksAgree(events: seq<Event>, i: nat, key: Key)
    requires events != [] && i < |events| - 1
    ensures MarkedBy(events, i, key) == MarkedBy(Front(events), i, key)
    ensures RetiredBy(events, i, key) == RetiredBy(Front(events), i, key)
  {
    FrontAgrees(events, i);
  }

  lemma InterruptionCarriesOver(events: seq<Event>, key: Key)
    requires events != [] && !Last(events).Reopen? && !RetiredBy(events, |events| - 1, key)
    requires InterruptedSince(Front(events), key)
    ensures InterruptedSince(events, key)
  {
    var before, n := Front(events), |events| - 1;
    var i :| 0 <= i < n && MarkedBy(before, i, key) && NoReopenFrom(before, i)
             && forall k :: i < k < n ==> !RetiredBy(before, k, key);
    MarksAgree(events, i, key);
    assert NoReopenFrom(events, i) by {
      assert forall k :: i <= k < n ==> before[k] == events[k];
    }
    forall k | i < k < |events| ensures !RetiredBy(events, k, key) {
      if k < n { MarksAgree(events, k, key); }
    }
  }

  lemma InterruptionComesFrom(events: seq<Event>, key: Key)
    requires events != [] && InterruptedSince(events, key) && !MarkedBy(events, |events| - 1, key)
    ensures InterruptedSince(Front(events), key) && !RetiredBy(events, |events| - 1, key) && !Last(events).Reopen?
  {
    var before, n := Front(events), |events| - 1;
    var i :| 0 <= i < |events| && MarkedBy(events, i, key) && NoReopenFrom(events, i)
             && forall k :: i < k < |events| ==> !RetiredBy(events, k, key);
    MarksAgree(events, i, key);
    assert NoReopenFrom(before, i) by {
      assert forall k :: i <= k < n ==> before[k] == events[k];
    }
    forall k | i < k < n ensures !RetiredBy(before, k, key) {
      MarksAgree(events, k, key);
    }
  }

  lemma InterruptedSinceLast(events: seq<Event>, key: Key)
    requires events != []
    ensures InterruptedSince(events, key) <==>
            && !Last(events).Reopen?
            && ((InterruptedSince(Front(events), key) && !RetiredBy(events, |events| - 1, key))
                || MarkedBy(events, |events| - 1, key))
  {
    var n := |events| - 1;
    if InterruptedSince(Front(events), key) && !RetiredBy(events, n, key) && !Last(events).Reopen? {
      InterruptionCarriesOver(events, key);
    }
    if MarkedBy(events, n, key) {
      assert NoReopenFrom(events, n);
      assert InterruptedSince(events, key);
    } else if InterruptedSince(events, key) {
      InterruptionComesFrom(events, key);
    }
  }

  /**
    The two recovery sets hold exactly the keys the history owes, over every run and
    whether or not any shutdown caller stayed to hear the answer.
   */
  lemma {:induction false} RecoverySetsExact(events: seq<Event>, key: Key)
    ensures key in Run(events).rejected <==> RejectedSince(events, key)
    ensures key in Run(events).interrupted <==> InterruptedSince(events, key)
  {
    if events != [] {
      var before, n := Front(events), |events| - 1;
      RecoverySetsExact(before, key);
      ClosedIsClosed(before);
      ActiveIsRunning(before, key);
      FrontAgrees(events, n);
      RejectedSinceLast(events, key);
      InterruptedSinceLast(events, key);
      assert events[n] == Last(events);
    }
  }

  ghost function Recovered(r: Record): (keys: seq<Key>)
    ensures StrictlySorted(keys) && ToSet(keys) == r.rejected + r.interrupted
  {
    SortedListExists(r.rejected + r.interrupted);
    var keys :| StrictlySorted(keys) && ToSet(keys) == r.rejected + r.interrupted;
    keys
  }

  lemma {:induction false} SortedListExists(keys: set<Key>)
    ensures exists list :: StrictlySorted(list) && ToSet(list) == keys
  {
    var list := Enumerate(keys);
    SortCorrect(list);
    SameElements(Sort(list), list);
    DedupSorted(Sort(list));
  }

  lemma {:induction false} Enumerate(keys: set<Key>) returns (list: seq<Key>)
    ensures ToSet(list) == keys
  {
    list := [];
    if keys != {} {
      var key :| key in keys;
      var rest := Enumerate(keys - {key});
      list := [key] + rest;
      assert ToSet(list) == {key} + ToSet(rest);
    }
  }

  /**
    A reopen returns each owed key once, in order, and nothing else; the very next
    reopen returns nothing.
   */
  lemma ReopenReturnsOwedKeys(events: seq<Event>)
    ensures var keys := Recovered(Run(events));
            StrictlySorted(keys) && forall key :: key in keys <==> OwedAtReopen(events, key)
    ensures Recovered(Run(events + [Event.Reopen])) == []
  {
    var keys := Recovered(Run(events));
    forall key ensures key in keys <==> OwedAtReopen(events, key) {
      RecoverySetsExact(events, key);
      assert key in keys <==> key in ToSet(keys);
    }
    assert Front(events + [Event.Reopen]) == events;
    var none := Recovered(Run(events + [Event.Reopen]));
    StrictlySortedUnique(none, []);
  }
}
