/**
  Site logins and the pairing token: metadata in the settings document, secrets in the
  credential store of the operating system. Neither store can take part in the other's
  transaction, so each operation is a saga that undoes its first half when its second half fails.

  A call into the credential store ends in one of three ways: it worked, it failed without
  effect, or it failed although its effect took place.
 */
module Credentials {
  import opened Base
  import opened Characters

  type Id = string

  const PAIRING_TOKEN_KEYCHAIN_ID: Id := "extension-pairing-token"

  /** An element of `siteLogins`: one the program wrote, or any other JSON value and the `id` it may hold. */
  datatype Login = Entry(id: Id, urlPattern: string, username: string) | Other(found: Option<Id>, json: string)

  datatype Logins = Missing | NotArray(json: string) | Items(items: seq<Login>)

  datatype Token = NoToken | TokenText(text: string) | OtherToken(json: string)

  datatype State = State(logins: Logins, token: Token, rest: string)

  /** The settings text: not JSON, no object where the state should be, or a state in its envelope or bare. */
  datatype Settings = Undecodable(text: string) | NoState(json: string) | Enveloped(state: State, rest: string) | Bare(state: State)

  const FIRST_RUN: Settings := Enveloped(State(Missing, NoToken, ""), "version 3")

  datatype Outcome = Done | Failed | FailedAfterEffect

  /** The two stores. `legacy` holds the entries without a target that older Linux versions wrote. */
  datatype Stores = Stores(settings: Option<Settings>, primary: map<Id, string>, legacy: map<Id, seq<string>>)

  datatype SagaError = Refused(reason: string) | Undone(cause: string) | RollbackFailed(cause: string, rollback: string)

  // ---------------------------------------------------------------- settings documents

  function LoginId(login: Login): Option<Id> {
    match login
    case Entry(id, _, _) => Some(id)
    case Other(found, _) => found
  }

  predicate Decodes(doc: Settings) {
    doc.Enveloped? || doc.Bare?
  }

  function LoginsOf(doc: Settings): seq<Login> {
    if Decodes(doc) && doc.state.logins.Items? then doc.state.logins.items else []
  }

  predicate Lists(items: seq<Login>, id: Id) {
    exists k :: 0 <= k < |items| && LoginId(items[k]) == Some(id)
  }

  function Retained(items: seq<Login>, id: Id): (kept: seq<Login>)
    ensures !Lists(kept, id)
    ensures forall other :: other != id ==> (Lists(kept, other) <==> Lists(items, other))
    ensures |kept| == |items| <==> !Lists(items, id)
    ensures |kept| <= |items|
    ensures forall login :: login in kept <==> login in items && LoginId(login) != Some(id)
  {
    if items == [] then [] else
      var rest := Retained(Front(items), id);
      var kept := if LoginId(Last(items)) == Some(id) then rest else rest + [Last(items)];
      assert items == Front(items) + [Last(items)];
      assert forall other :: Lists(items, other) <==> Lists(Front(items), other) || LoginId(Last(items)) == Some(other) by {
        ListsAppend(Front(items), Last(items));
      }
      assert forall other :: Lists(rest + [Last(items)], other) <==> Lists(rest, other) || LoginId(Last(items)) == Some(other) by {
        ListsAppend(rest, Last(items));
      }
      kept
  }

  lemma ListsAppend(items: seq<Login>, login: Login)
    ensures forall id :: Lists(items + [login], id) <==> Lists(items, id) || LoginId(login) == Some(id)
  {
    var all := items + [login];
    forall id
      ensures Lists(all, id) <==> Lists(items, id) || LoginId(login) == Some(id)
    {
      if Lists(items, id) {
        var k :| 0 <= k < |items| && LoginId(items[k]) == Some(id);
        assert all[k] == items[k];
      }
      if LoginId(login) == Some(id) {
        assert all[|items|] == login;
      }
    }
  }

  function WithLogins(doc: Settings, items: seq<Login>): Settings
    requires Decodes(doc)
  {
    doc.(state := doc.state.(logins := Items(items)))
  }

  function WithLogin(doc: Settings, login: Login): Settings
    requires Decodes(doc)
  {
    WithLogins(doc, LoginsOf(doc) + [login])
  }

  /** A new login is refused when the document cannot hold it or already lists its id. */
  predicate CanAdd(doc: Settings, id: Id) {
    Decodes(doc) && !doc.state.logins.NotArray? && !Lists(LoginsOf(doc), id)
  }

  predicate CanRemove(doc: Settings, id: Id) {
    Decodes(doc) && !doc.state.logins.NotArray? && Lists(LoginsOf(doc), id)
  }

  function WithoutToken(doc: Settings): Settings
    requires Decodes(doc)
  {
    doc.(state := doc.state.(token := NoToken))
  }

  /** `read_pairing_token_from_settings` on one document: a string that is not blank. */
  function LegacyToken(doc: Settings): Option<string> {
    if Decodes(doc) && doc.state.token.TokenText? && !Blank(doc.state.token.text) then Some(doc.state.token.text) else None
  }

  // ---------------------------------------------------------------- the two stores together

  function LegacyEntries(s: Stores, id: Id): seq<string> {
    if id in s.legacy then s.legacy[id] else []
  }

  predicate Held(s: Stores, id: Id) {
    id in s.primary || LegacyEntries(s, id) != []
  }

  /** What a fault-free read returns: the entry itself, or the only legacy one. */
  function Stored(s: Stores, id: Id): Option<string> {
    if id in s.primary then Some(s.primary[id])
    else if |LegacyEntries(s, id)| == 1 then Some(LegacyEntries(s, id)[0])
    else None
  }

  predicate Ambiguous(s: Stores, id: Id) {
    id !in s.primary && |LegacyEntries(s, id)| > 1
  }

  predicate HasRow(s: Stores, id: Id) {
    s.settings.Some? && Lists(LoginsOf(s.settings.value), id)
  }

  /** No secret without its metadata row. */
  ghost predicate Guarded(s: Stores) {
    forall id :: Held(s, id) && id != PAIRING_TOKEN_KEYCHAIN_ID ==> HasRow(s, id)
  }

  predicate Usable(token: Option<string>) {
    token.Some? && !Blank(token.value)
  }

  function SettingsToken(s: Stores): Option<string> {
    if s.settings.Some? then LegacyToken(s.settings.value) else None
  }

  predicate TokenSurvives(s: Stores) {
    Usable(SettingsToken(s)) || Usable(Stored(s, PAIRING_TOKEN_KEYCHAIN_ID))
  }

  /** Only the credential store entries of `id` may differ. */
  ghost predicate SameButSecret(before: Stores, after: Stores, id: Id) {
    && after.settings == before.settings
    && after.primary - {id} == before.primary - {id}
    && after.legacy - {id} == before.legacy - {id}
  }

  lemma OtherSecrets(before: Stores, after: Stores, id: Id, other: Id)
    requires SameButSecret(before, after.(settings := before.settings), id) && other != id
    ensures Held(after, other) <==> Held(before, other)
    ensures Stored(after, other) == Stored(before, other)
  {
    assert other in before.primary <==> other in before.primary - {id};
    assert other in after.primary <==> other in after.primary - {id};
    assert other in before.legacy <==> other in before.legacy - {id};
    assert other in after.legacy <==> other in after.legacy - {id};
    if other in before.primary { assert (before.primary - {id})[other] == (after.primary - {id})[other]; }
    if other in before.legacy { assert (before.legacy - {id})[other] == (after.legacy - {id})[other]; }
  }

  predicate ValidId(id: Id) {
    Trim(id) != "" && Trim(id) == id && id != PAIRING_TOKEN_KEYCHAIN_ID
  }

  predicate ValidInput(id: Id, urlPattern: string, username: string, password: string) {
    && ValidId(id)
    && urlPattern != "" && (forall k :: 0 <= k < |urlPattern| ==> !IsWhitespace(urlPattern[k]))
    && !Blank(username)
    && password != ""
  }

  // ---------------------------------------------------------------- what each saga may do

  /** The settings a new login starts from. */
  function Opening(s: Stores): Settings {
    if s.settings.Some? then s.settings.value else FIRST_RUN
  }

  /** Everything a save may end in. */
  ghost predicate SaveEnds(before: Stores, after: Stores, id: Id, urlPattern: string, username: string, password: string,
                           r: Result<(), SagaError>) {
    if r.Ok? then
      && ValidInput(id, urlPattern, username, password)
      && CanAdd(Opening(before), id) && !Held(before, id)
      && after == before.(
           settings := Some(WithLogin(Opening(before), Entry(id, urlPattern, username))),
           primary := before.primary[id := password])
    else if r.error.Refused? then
      after == before
    else
      && ValidId(id) && CanAdd(Opening(before), id)
      && SameButSecret(before, after.(settings := before.settings), id)
      && after.settings in {Some(Opening(before)), Some(WithLogin(Opening(before), Entry(id, urlPattern, username)))}
      && (r.error.Undone? ==> after.settings == Some(Opening(before)) && !Held(after, id))
  }

  ghost predicate DeleteEnds(before: Stores, after: Stores, id: Id, r: Result<(), SagaError>) {
    if r.Err? && r.error.Refused? then
      after == before
    else
      && ValidId(id) && before.settings.Some? && CanRemove(before.settings.value, id)
      && SameButSecret(before, after.(settings := before.settings), id)
      && (Held(after, id) ==> Held(before, id))
      && (if r.Err? && r.error.Undone? then after.settings == before.settings
          else after.settings == Some(WithLogins(before.settings.value, Retained(LoginsOf(before.settings.value), id))))
      && (r.Ok? ==> !Held(after, id))
  }

  ghost predicate MigrationEnds(before: Stores, after: Stores, r: Result<(), string>) {
    && SameButSecret(before, after.(settings := before.settings), PAIRING_TOKEN_KEYCHAIN_ID)
    && (SettingsToken(before).None? ==> after == before)
    && (r.Err? ==> after.settings == before.settings)
    && (r.Ok? && SettingsToken(before).Some? ==>
          && before.settings.Some? && Decodes(before.settings.value)
          && after.settings == Some(WithoutToken(before.settings.value))
          && Usable(Stored(after, PAIRING_TOKEN_KEYCHAIN_ID))
          && (!Usable(Stored(before, PAIRING_TOKEN_KEYCHAIN_ID)) ==>
                Stored(after, PAIRING_TOKEN_KEYCHAIN_ID) == SettingsToken(before)))
  }

  // ---------------------------------------------------------------- the sagas

  class Vault {
    var settings: Option<Settings>
    var primary: map<Id, string>
    var legacy: map<Id, seq<string>>
    /** Number of calls that could fail so far; `outcomes` says how each of them ends. */
    var calls: nat
    const outcomes: nat -> Outcome

    constructor (settings: Option<Settings>, primary: map<Id, string>, legacy: map<Id, seq<string>>, outcomes: nat -> Outcome)
      ensures View() == Stores(settings, primary, legacy) && this.outcomes == outcomes
    {
      this.settings, this.primary, this.legacy, this.calls, this.outcomes := settings, primary, legacy, 0, outcomes;
    }

    function View(): Stores
      reads this
    {
      Stores(settings, primary, legacy)
    }

    ghost predicate Reliable() {
      forall n: nat :: outcomes(n) == Done
    }

    /** One of the calls from `from` on did not simply work. */
    ghost predicate FailedSince(from: nat)
      reads this
    {
      exists n :: from <= n < calls && outcomes(n) != Done
    }

    ghost predicate FailedTwiceSince(from: nat)
      reads this
    {
      exists m, n :: from <= m < n < calls && outcomes(m) != Done && outcomes(n) != Done
    }

    method Attempt() returns (o: Outcome)
      modifies this`calls
      ensures Reliable() ==> o == Done
      ensures calls == old(calls) + 1 && o == outcomes(old(calls))
    {
      o := outcomes(calls);
      calls := calls + 1;
    }

    method LoadSettings() returns (r: Result<Option<Settings>, string>)
      modifies this`calls
      ensures r.Ok? ==> r.value == settings
      ensures Reliable() ==> r.Ok?
      ensures calls >= old(calls)
    {
      var o := Attempt();
      return if o.Done? then Ok(settings) else Err("failed to load settings");
    }

    /** One SQLite statement: it fails as a whole. */
    method SaveSettings(doc: Settings) returns (r: Result<(), string>)
      modifies this`calls, this`settings
      ensures View() == if r.Ok? then old(View()).(settings := Some(doc)) else old(View())
      ensures Reliable() ==> r.Ok?
      ensures calls >= old(calls) && (r.Err? ==> FailedSince(old(calls)))
    {
      var o := Attempt();
      if !o.Done? { return Err("failed to save settings"); }
      settings := Some(doc);
      return Ok(());
    }

    method GetPassword(id: Id) returns (r: Result<Option<string>, string>)
      modifies this`calls
      ensures r.Ok? ==> r.value == Stored(View(), id) && !Ambiguous(View(), id)
      ensures Reliable() ==> (r.Ok? <==> !Ambiguous(View(), id))
      ensures calls >= old(calls)
    {
      var o := Attempt();
      if !o.Done? { return Err("the credential store is unavailable"); }
      if id in primary { return Ok(Some(primary[id])); }
      var unique := UniqueLegacy(id);
      if unique.Err? { return Err(unique.error); }
      if !unique.value { return Ok(None); }
      o := Attempt();
      return if o.Done? then Ok(Some(legacy[id][0])) else Err("the credential store is unavailable");
    }

    /** Whether exactly one legacy entry exists; more than one is an error. */
    method UniqueLegacy(id: Id) returns (r: Result<bool, string>)
      modifies this`calls
      ensures r.Ok? ==> |LegacyEntries(View(), id)| == if r.value then 1 else 0
      ensures Reliable() ==> (r.Ok? <==> |LegacyEntries(View(), id)| <= 1)
      ensures calls >= old(calls) && (r.Err? ==> FailedSince(old(calls)) || |LegacyEntries(View(), id)| > 1)
    {
      var o := Attempt();
      if !o.Done? { return Err("the credential store is unavailable"); }
      var found := if id in legacy then legacy[id] else [];
      if |found| > 1 { return Err("entry is matched by several legacy credentials"); }
      return Ok(|found| == 1);
    }

    method SetPassword(id: Id, password: string) returns (r: Result<(), string>)
      modifies this`calls, this`primary, this`legacy
      ensures SameButSecret(old(View()), View(), id)
      ensures r.Ok? ==> Stored(View(), id) == Some(password)
      ensures r.Ok? && !Held(old(View()), id) ==> View() == old(View()).(primary := old(primary)[id := password])
      ensures Reliable() ==> (r.Ok? <==> !Ambiguous(old(View()), id))
      ensures calls >= old(calls) && (r.Err? ==> FailedSince(old(calls)) || Ambiguous(old(View()), id))
    {
      var o := Attempt();
      if !o.Done? { return Err("the credential store is unavailable"); }
      if id !in primary {
        var unique := UniqueLegacy(id);
        if unique.Err? { return Err(unique.error); }
        if unique.value {
          o := Attempt();
          if !o.Failed? { legacy := legacy[id := [password]]; }
          return if o.Done? then Ok(()) else Err("the credential store is unavailable");
        }
      }
      o := Attempt();
      if !o.Failed? { primary := primary[id := password]; }
      return if o.Done? then Ok(()) else Err("the credential store is unavailable");
    }

    /** Deletes the entry, then every legacy one, and stops at the first failure. */
    method DeletePassword(id: Id) returns (r: Result<(), string>)
      modifies this`calls, this`primary, this`legacy
      ensures SameButSecret(old(View()), View(), id)
      ensures Held(View(), id) ==> Held(old(View()), id)
      ensures r.Ok? ==> !Held(View(), id)
      ensures Reliable() ==> r.Ok?
      ensures calls >= old(calls) && (r.Err? ==> FailedSince(old(calls)))
    {
      var o := Attempt();
      if !o.Failed? { primary := primary - {id}; }
      if !o.Done? { return Err("the credential store is unavailable"); }
      o := Attempt();
      if !o.Done? { return Err("the credential store is unavailable"); }
      if id !in legacy { return Ok(()); }
      while legacy[id] != []
        invariant settings == old(settings) && primary == old(primary) - {id}
        invariant id in legacy && legacy - {id} == old(legacy) - {id}
        invariant id in old(legacy) && (legacy[id] != [] ==> old(legacy)[id] != [])
        invariant calls >= old(calls)
        decreases |legacy[id]|
      {
        o := Attempt();
        if !o.Failed? { legacy := legacy[id := legacy[id][1..]]; }
        if !o.Done? { return Err("the credential store is unavailable"); }
      }
      return Ok(());
    }

    method SaveSiteLogin(id: Id, urlPattern: string, username: string, password: string) returns (r: Result<(), SagaError>)
      modifies this
      ensures SaveEnds(old(View()), View(), id, urlPattern, username, password, r)
      ensures r.Err? && r.error.RollbackFailed? ==> FailedTwiceSince(old(calls))
      ensures Reliable() ==>
        (r.Ok? <==> ValidInput(id, urlPattern, username, password) && CanAdd(Opening(old(View())), id) && !Held(old(View()), id))
    {
      if !ValidInput(id, urlPattern, username, password) { return Err(Refused("invalid site login")); }
      var loaded := LoadSettings();
      if loaded.Err? { return Err(Refused(loaded.error)); }
      var original := if loaded.value.Some? then loaded.value.value else FIRST_RUN;
      var present := GetPassword(id);
      if present.Err? { return Err(Refused(present.error)); }
      if present.value.Some? { return Err(Refused("a credential already exists for this site login")); }
      if !CanAdd(original, id) { return Err(Refused("site login already exists")); }
      var saved := SaveSettings(WithLogin(original, Entry(id, urlPattern, username)));
      if saved.Err? { return Err(Refused(saved.error)); }
      var stored := SetPassword(id, password);
      if stored.Err? {
        ghost var failed :| old(calls) <= failed < calls && outcomes(failed) != Done;
        var secretRollback := DeletePassword(id);
        var settingsRollback := SaveSettings(original);
        if secretRollback.Err? { return Err(RollbackFailed(stored.error, secretRollback.error)); }
        if settingsRollback.Err? { return Err(RollbackFailed(stored.error, settingsRollback.error)); }
        return Err(Undone(stored.error));
      }
      return Ok(());
    }

    method DeleteSiteLogin(id: Id) returns (r: Result<(), SagaError>)
      modifies this
      ensures DeleteEnds(old(View()), View(), id, r)
      ensures r.Err? && r.error.RollbackFailed? ==> FailedTwiceSince(old(calls))
      ensures Reliable() ==>
        (r.Ok? <==> ValidId(id) && old(settings).Some? && CanRemove(old(settings).value, id)
                    && !Ambiguous(old(View()), id))
    {
      if !ValidId(id) { return Err(Refused("invalid site login identifier")); }
      var loaded := LoadSettings();
      if loaded.Err? { return Err(Refused(loaded.error)); }
      if loaded.value.None? { return Err(Refused("settings are not persisted yet")); }
      var original := loaded.value.value;
      if !CanRemove(original, id) { return Err(Refused("site login was not found")); }
      var existing := GetPassword(id);
      if existing.Err? { return Err(Refused(existing.error)); }
      var saved := SaveSettings(WithLogins(original, Retained(LoginsOf(original), id)));
      if saved.Err? { return Err(Refused(saved.error)); }
      var deleted := DeletePassword(id);
      if deleted.Err? {
        ghost var failed :| old(calls) <= failed < calls && outcomes(failed) != Done;
        var left := GetPassword(id);
        if left.Ok? && left.value.None? { return Ok(()); }
        var rollback := SaveSettings(original);
        if rollback.Err? { return Err(RollbackFailed(deleted.error, rollback.error)); }
        return Err(Undone(deleted.error));
      }
      return Ok(());
    }

    /** `remove_pairing_token_from_settings`. */
    method RemoveTokenFromSettings() returns (r: Result<(), string>)
      modifies this`calls, this`settings
      ensures r.Err? ==> View() == old(View())
      ensures r.Ok? ==> View() == old(View()).(
        settings := if old(settings).Some? && Decodes(old(settings).value) then Some(WithoutToken(old(settings).value)) else None)
      ensures Reliable() ==> (r.Ok? <==> old(settings).None? || Decodes(old(settings).value))
    {
      var loaded := LoadSettings();
      if loaded.Err? { return Err(loaded.error); }
      if loaded.value.None? { return Ok(()); }
      if !Decodes(loaded.value.value) { return Err("failed to decode persisted settings"); }
      if loaded.value.value.state.token.NoToken? { return Ok(()); }
      r := SaveSettings(WithoutToken(loaded.value.value));
    }

    method MigrateLegacyPairingToken() returns (r: Result<(), string>)
      modifies this
      ensures MigrationEnds(old(View()), View(), r)
      ensures Reliable() && SettingsToken(old(View())).Some? ==>
        (r.Ok? <==> !Ambiguous(old(View()), PAIRING_TOKEN_KEYCHAIN_ID))
    {
      var loaded := LoadSettings();
      if loaded.Err? { return Err(loaded.error); }
      if loaded.value.None? { return Ok(()); }
      if !Decodes(loaded.value.value) { return Err("failed to decode persisted settings"); }
      var legacyToken := LegacyToken(loaded.value.value);
      if legacyToken.None? { return Ok(()); }
      var present := GetPassword(PAIRING_TOKEN_KEYCHAIN_ID);
      var created := !(present.Ok? && Usable(present.value));
      if created {
        var stored := SetPassword(PAIRING_TOKEN_KEYCHAIN_ID, legacyToken.value);
        if stored.Err? { return Err(stored.error); }
      }
      var cleaned := RemoveTokenFromSettings();
      if cleaned.Err? {
        if created {
          var rollback := DeletePassword(PAIRING_TOKEN_KEYCHAIN_ID);
          if rollback.Err? { return Err(rollback.error); }
        }
        return Err(cleaned.error);
      }
      return Ok(());
    }
  }
}
