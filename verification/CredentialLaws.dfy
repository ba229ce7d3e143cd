/** What the credential sagas keep over every sequence of them, however their calls fail. */
module CredentialLaws {
  import opened Base
  import opened Characters
  import opened Credentials

  datatype Event =
    | Saved(id: Id, urlPattern: string, username: string, password: string, r: Result<(), SagaError>)
    | Deleted(id: Id, r: Result<(), SagaError>)
    | Migrated(outcome: Result<(), string>)

  ghost predicate Step(before: Stores, after: Stores, e: Event) {
    match e
    case Saved(id, urlPattern, username, password, r) => SaveEnds(before, after, id, urlPattern, username, password, r)
    case Deleted(id, r) => DeleteEnds(before, after, id, r)
    case Migrated(r) => MigrationEnds(before, after, r)
  }

  ghost predicate Run(states: seq<Stores>, events: seq<Event>) {
    && |states| == |events| + 1
    && forall k :: 0 <= k < |events| ==> Step(states[k], states[k + 1], events[k])
  }

  predicate ReportsFailedRollback(e: Event) {
    (e.Saved? || e.Deleted?) && e.r.Err? && e.r.error.RollbackFailed?
  }

  lemma RowsAfterAdd(doc: Settings, login: Login, id: Id)
    requires Decodes(doc)
    ensures Lists(LoginsOf(WithLogin(doc, login)), id) <==> Lists(LoginsOf(doc), id) || LoginId(login) == Some(id)
    ensures forall other :: other in LoginsOf(WithLogin(doc, login)) <==> other in LoginsOf(doc) || other == login
  {
    ListsAppend(LoginsOf(doc), login);
  }

  predicate Records(s: Stores, login: Login) {
    s.settings.Some? && login in LoginsOf(s.settings.value)
  }

  // ---------- What is accepted and what is written ----------

  /** An id is refused if it is empty, begins or ends with a blank, or is the key of the pairing token. */
  lemma IdsExactly(id: Id)
    ensures ValidId(id) <==>
            id != "" && !IsWhitespace(id[0]) && !IsWhitespace(id[|id| - 1]) && id != "extension-pairing-token"
  {
  }

  /** A pattern has no blank in it, a user name not only blanks, and a password is not empty. */
  lemma InputsExactly(id: Id, urlPattern: string, username: string, password: string)
    ensures ValidInput(id, urlPattern, username, password) <==>
            && ValidId(id) && urlPattern != "" && (forall c :: c in urlPattern ==> !IsWhitespace(c))
            && (exists c :: c in username && !IsWhitespace(c)) && password != ""
  {
  }

  /** The settings that a save starts from: the first run has no logins and no token. */
  lemma SavedSettings(before: Stores, after: Stores, id: Id, urlPattern: string, username: string, password: string, r: Result<(), SagaError>)
    requires SaveEnds(before, after, id, urlPattern, username, password, r) && r.Ok?
    ensures after.settings.Some? && Decodes(after.settings.value)
    ensures var opening := if before.settings.Some? then before.settings.value else Enveloped(State(Missing, NoToken, ""), "version 3");
            && Decodes(opening) && SameFrame(opening, after.settings.value)
            && !opening.state.logins.NotArray?
            && after.settings.value.state.logins ==
               Items((if opening.state.logins.Items? then opening.state.logins.items else []) + [Entry(id, urlPattern, username)])
    ensures after.primary == before.primary[id := password] && after.legacy == before.legacy
  {
  }

  /** Two documents of one shape that differ at most in their logins. */
  predicate SameFrame(a: Settings, b: Settings)
    requires Decodes(a) && Decodes(b)
  {
    && (a.Enveloped? <==> b.Enveloped?) && (a.Enveloped? ==> a.rest == b.rest)
    && a.state.token == b.state.token && a.state.rest == b.state.rest
  }

  /** A deletion takes exactly the logins of that id out of the settings and leaves everything else of them. */
  lemma DeletedSettings(before: Stores, after: Stores, id: Id, r: Result<(), SagaError>)
    requires DeleteEnds(before, after, id, r) && r.Ok?
    ensures before.settings.Some? && Decodes(before.settings.value) && after.settings.Some? && Decodes(after.settings.value)
    ensures SameFrame(before.settings.value, after.settings.value) && after.settings.value.state.logins.Items?
    ensures forall login :: Records(after, login) <==> Records(before, login) && LoginId(login) != Some(id)
  {
  }

  /** The token in the settings, if it is a text that is not only blanks. */
  predicate HoldsToken(s: Stores, token: string) {
    && s.settings.Some? && Decodes(s.settings.value) && s.settings.value.state.token == TokenText(token)
    && exists c :: c in token && !IsWhitespace(c)
  }

  /** A migration takes such a token, and nothing else, out of the settings; without one it does nothing. */
  lemma MigratedSettings(before: Stores, after: Stores, r: Result<(), string>, token: string)
    requires MigrationEnds(before, after, r) && r.Ok?
    ensures (forall text :: !HoldsToken(before, text)) ==> after == before
    ensures HoldsToken(before, token) ==>
              && after.settings.Some? && Decodes(after.settings.value)
              && after.settings.value.state.token == NoToken && after.settings.value.state.logins == before.settings.value.state.logins
              && SameFrame(after.settings.value, before.settings.value.(state := before.settings.value.state.(token := NoToken)))
              && exists kept :: Stored(after, PAIRING_TOKEN_KEYCHAIN_ID) == Some(kept) && !Blank(kept)
                               && (Usable(Stored(before, PAIRING_TOKEN_KEYCHAIN_ID)) || kept == token)
  {
    if SettingsToken(before).Some? {
      assert HoldsToken(before, SettingsToken(before).value);
    }
  }

  lemma {:induction false} RetainedAt(items: seq<Login>, id: Id, i: nat) returns (m: nat)
    requires i < |items| && LoginId(items[i]) != Some(id)
    ensures m < |Retained(items, id)| && Retained(items, id)[m] == items[i]
  {
    if i == |items| - 1 {
      m := |Retained(Front(items), id)|;
    } else {
      m := RetainedAt(Front(items), id, i);
    }
  }

  /** The logins that are left keep their order. */
  lemma {:induction false} RetainedOrder(items: seq<Login>, id: Id, i: nat, j: nat) returns (m: nat, n: nat)
    requires i < j < |items| && LoginId(items[i]) != Some(id) && LoginId(items[j]) != Some(id)
    ensures m < n < |Retained(items, id)| && Retained(items, id)[m] == items[i] && Retained(items, id)[n] == items[j]
  {
    if j == |items| - 1 {
      m := RetainedAt(Front(items), id, i);
      n := |Retained(Front(items), id)|;
    } else {
      m, n := RetainedOrder(Front(items), id, i, j);
    }
  }

  // ---------- What the sagas keep ----------

  /** A step leaves the secret and the row of every id it does not name alone. */
  lemma OthersUntouched(before: Stores, after: Stores, e: Event, id: Id)
    requires Step(before, after, e)
    requires e.Migrated? || e.id != id
    requires id != PAIRING_TOKEN_KEYCHAIN_ID
    ensures Held(after, id) <==> Held(before, id)
    ensures Stored(after, id) == Stored(before, id)
    ensures HasRow(after, id) <==> HasRow(before, id)
    ensures forall login :: LoginId(login) == Some(id) ==> (Records(after, login) <==> Records(before, login))
  {
    if e.Saved? && after != before {
      RowsAfterAdd(Opening(before), Entry(e.id, e.urlPattern, e.username), id);
      if e.r.Err? { OtherSecrets(before, after, e.id, id); }
    } else if e.Deleted? && after != before {
      OtherSecrets(before, after, e.id, id);
    } else if e.Migrated? {
      OtherSecrets(before, after, PAIRING_TOKEN_KEYCHAIN_ID, id);
    }
  }

  /** One saga keeps every secret guarded by its row, unless it reports that its own rollback failed. */
  lemma StepKeepsGuarded(before: Stores, after: Stores, e: Event)
    requires Guarded(before) && Step(before, after, e) && !ReportsFailedRollback(e)
    ensures Guarded(after)
  {
    forall id | Held(after, id) && id != PAIRING_TOKEN_KEYCHAIN_ID
      ensures HasRow(after, id)
    {
      if e.Migrated? || e.id != id {
        OthersUntouched(before, after, e, id);
      } else if e.Saved? && e.r.Ok? {
        RowsAfterAdd(Opening(before), Entry(e.id, e.urlPattern, e.username), id);
      }
    }
  }

  lemma {:induction false} GuardedInEveryRun(states: seq<Stores>, events: seq<Event>)
    requires Run(states, events) && Guarded(states[0])
    requires forall k :: 0 <= k < |events| ==> !ReportsFailedRollback(events[k])
    ensures forall k :: 0 <= k < |states| ==> Guarded(states[k])
    decreases |events|
  {
    if events != [] {
      var n := |events|;
      GuardedInEveryRun(states[..n], events[..n - 1]);
      assert forall k :: 0 <= k < n ==> states[..n][k] == states[k];
      StepKeepsGuarded(states[n - 1], states[n], events[n - 1]);
    }
  }

  /** A usable pairing token never disappears from both stores, failed rollbacks included. */
  lemma StepKeepsToken(before: Stores, after: Stores, e: Event)
    requires TokenSurvives(before) && Step(before, after, e)
    ensures TokenSurvives(after)
  {
    if !e.Migrated? && after != before {
      if e.Deleted? || e.r.Err? {
        OtherSecrets(before, after, e.id, PAIRING_TOKEN_KEYCHAIN_ID);
      }
    }
  }

  lemma {:induction false} TokenInEveryRun(states: seq<Stores>, events: seq<Event>)
    requires Run(states, events) && TokenSurvives(states[0])
    ensures forall k :: 0 <= k < |states| ==> TokenSurvives(states[k])
    decreases |events|
  {
    if events != [] {
      var n := |events|;
      TokenInEveryRun(states[..n], events[..n - 1]);
      assert forall k :: 0 <= k < n ==> states[..n][k] == states[k];
      StepKeepsToken(states[n - 1], states[n], events[n - 1]);
    }
  }

  /** The login stands in the settings as it was given, and its password is what a read returns. */
  predicate Complete(s: Stores, id: Id, urlPattern: string, username: string, password: string) {
    Stored(s, id) == Some(password) && Records(s, Entry(id, urlPattern, username))
  }

  ghost predicate CompleteAfter(s: Stores, e: Event)
    requires e.Saved?
  {
    Complete(s, e.id, e.urlPattern, e.username, e.password)
  }

  lemma RecordedHasRow(s: Stores, login: Login)
    requires Records(s, login) && LoginId(login).Some?
    ensures HasRow(s, LoginId(login).value)
  {
    var items := LoginsOf(s.settings.value);
    var k :| 0 <= k < |items| && items[k] == login;
  }

  lemma StepKeepsComplete(before: Stores, after: Stores, e: Event, saved: Event)
    requires Step(before, after, e) && saved.Saved? && CompleteAfter(before, saved) && saved.id != PAIRING_TOKEN_KEYCHAIN_ID
    requires e.Deleted? ==> e.id != saved.id
    ensures CompleteAfter(after, saved)
  {
    var login := Entry(saved.id, saved.urlPattern, saved.username);
    RecordedHasRow(before, login);
    if e.Migrated? || e.id != saved.id {
      OthersUntouched(before, after, e, saved.id);
    } else {
      assert after == before;
    }
  }

  /** A saved login stays complete, with the password it was saved with, until a deletion names it. */
  lemma {:induction false} SavedLoginStays(states: seq<Stores>, events: seq<Event>)
    requires Run(states, events) && |events| > 0 && events[0].Saved? && events[0].r.Ok?
    requires forall k :: 0 < k < |events| && events[k].Deleted? ==> events[k].id != events[0].id
    ensures forall k :: 0 < k < |states| ==> CompleteAfter(states[k], events[0])
    decreases |events|
  {
    var n, id := |events|, events[0].id;
    assert Step(states[0], states[1], events[0]);
    if n == 1 {
      RowsAfterAdd(Opening(states[0]), Entry(id, events[0].urlPattern, events[0].username), id);
    } else {
      SavedLoginStays(states[..n], events[..n - 1]);
      assert forall k :: 0 <= k < n ==> states[..n][k] == states[k];
      StepKeepsComplete(states[n - 1], states[n], events[n - 1], events[0]);
    }
  }

  predicate Gone(s: Stores, id: Id) {
    !Held(s, id) && !HasRow(s, id)
  }

  lemma StepKeepsGone(before: Stores, after: Stores, e: Event, id: Id)
    requires Step(before, after, e) && Gone(before, id) && id != PAIRING_TOKEN_KEYCHAIN_ID
    requires e.Saved? ==> e.id != id
    ensures Gone(after, id)
  {
    if e.Migrated? || e.id != id {
      OthersUntouched(before, after, e, id);
    } else {
      assert after == before;
    }
  }

  ghost predicate GoneAfter(s: Stores, e: Event)
    requires e.Deleted?
  {
    Gone(s, e.id) && e.id != PAIRING_TOKEN_KEYCHAIN_ID
  }

  lemma StepKeepsGoneAfter(before: Stores, after: Stores, e: Event, deleted: Event)
    requires Step(before, after, e) && deleted.Deleted? && GoneAfter(before, deleted)
    requires e.Saved? ==> e.id != deleted.id
    ensures GoneAfter(after, deleted)
  {
    StepKeepsGone(before, after, e, deleted.id);
  }

  lemma DeletedIsGone(before: Stores, after: Stores, e: Event)
    requires Step(before, after, e) && e.Deleted? && e.r.Ok?
    ensures GoneAfter(after, e)
  {
  }

  /** A deleted login is absent from both stores until a save names it again. */
  lemma {:induction false} DeletedLoginStaysGone(states: seq<Stores>, events: seq<Event>)
    requires Run(states, events) && |events| > 0 && events[0].Deleted? && events[0].r.Ok?
    requires forall k :: 0 < k < |events| && events[k].Saved? ==> events[k].id != events[0].id
    ensures forall k :: 0 < k < |states| ==> GoneAfter(states[k], events[0])
    decreases |events|
  {
    var n, e := |events|, events[0];
    if n == 1 {
      DeletedIsGone(states[0], states[1], e);
    } else {
      DeletedLoginStaysGone(states[..n], events[..n - 1]);
      assert forall k :: 0 <= k < n ==> states[..n][k] == states[k];
      StepKeepsGoneAfter(states[n - 1], states[n], events[n - 1], e);
    }
  }
}
