/**
 The web UI's account handlers: each is proved to be one step of the account lifecycle. Checks of
 the submitted password arrive as a flag, fresh ids as parameters.
 */
module WebAccounts {
  import opened Prelude
  import opened AccountModel
  import opened AccountRuns
  import opened Pggen
  import opened StoreSql
  import opened Cascades
  import EpisodeHash

  type NameCheck = string -> bool

  /** A list that cannot be read counts as having no other admin. */
  method IsLastAdmin(store: SQLStore, id: string) returns (last: bool)
    modifies store.queries`faults
    ensures Reported(!last, OtherAdmin(store.queries.Snapshot(), id), old(store.queries.faults), store.queries.faults)
    ensures store.queries.faults == old(store.queries.faults) ==>
              (last <==>
               forall a :: a in store.queries.accounts && a != id ==> store.queries.accounts[a].role != "admin")
  {
    var ok, ids := store.queries.ListAccounts();
    last := true;
    if !ok {
      return;
    }
    for i := 0 to |ids|
      invariant store.queries.faults == old(store.queries.faults)
      invariant forall j :: 0 <= j < i && ids[j] != id ==> !IsAdmin(store.queries.Snapshot(), ids[j])
    {
      assert ids[i] in SetOf(ids);
      if ids[i] != id && store.queries.accounts[ids[i]].role == ADMIN {
        assert IsAdmin(store.queries.Snapshot(), ids[i]);
        last := false;
        return;
      }
    }
    forall other | other != id ensures !IsAdmin(store.queries.Snapshot(), other) {
      assert other in SetOf(ids) <==> other in store.queries.accounts;
    }
  }

  /** The guard of the admin routes, with `actor` the account of the session. */
  method WithAdmin(store: SQLStore, actor: string) returns (ok: bool)
    modifies store.queries`faults
    ensures Reported(ok, IsAdmin(store.queries.Snapshot(), actor), old(store.queries.faults), store.queries.faults)
    ensures store.queries.faults == old(store.queries.faults) ==>
              (ok <==> actor in store.queries.accounts && store.queries.accounts[actor].role == "admin")
  {
    var acct := store.queries.GetAccountByID(actor);
    ok := acct.Some? && acct.value.role == ADMIN;
  }

  /** An unset or unreadable setting is off, except for user creation. */
  method SettingEnabled(store: SQLStore, key: string) returns (enabled: bool)
    modifies store.queries`faults
    ensures old(store.queries.faults) <= store.queries.faults
    ensures enabled
       <==> if store.queries.faults == old(store.queries.faults) && key in store.queries.settings
            then store.queries.settings[key] == "true" else key == ALLOW_USER_CREATION
  {
    var value := store.queries.GetSetting(key);
    enabled := match value case None => key == ALLOW_USER_CREATION case Some(v) => v == "true";
  }

  /** Neither the id nor the name is taken. */
  predicate Insertable(accounts: map<string, Account>, id: string, username: string) {
    id !in accounts && forall a :: a in accounts ==> accounts[a].username != username
  }

  /** A failed count reads as zero; `counted` says whether it succeeded. */
  method HandleSetupSubmit(store: SQLStore, validName: NameCheck, id: string, username: string, passwordOk: bool,
                           now: int)
    returns (done: bool, ghost counted: bool)
    modifies store.queries`accounts, store.queries`faults
    ensures Excused(counted, old(store.queries.faults), store.queries.faults)
    ensures Next(old(store.queries.Snapshot()), Setup(id, username, now, counted), store.queries.Snapshot())
    ensures done ==> Effect(old(store.queries.Snapshot()), Setup(id, username, now, counted), store.queries.Snapshot())
    ensures done ==> store.queries.accounts == old(store.queries.accounts)[id := Account(username, "admin", now)]
    ensures done ==> username != "" && validName(username) && passwordOk
    ensures !done ==> store.queries.Snapshot() == old(store.queries.Snapshot())
    ensures Decided(done, old(store.queries.accounts) == map[] && username != "" && validName(username) && passwordOk,
                    old(store.queries.faults), store.queries.faults)
  {
    var ok, count := store.queries.CountAccounts();
    done, counted := false, ok;
    if count > 0 || username == "" || !validName(username) || !passwordOk {
      return;
    }
    done := store.queries.CreateAccount(id, username, ADMIN, now);
  }

  method HandleRegisterSubmit(store: SQLStore, validName: NameCheck, id: string, username: string, passwordOk: bool,
                              now: int)
    returns (done: bool)
    modifies store.queries`accounts, store.queries`faults
    ensures Next(old(store.queries.Snapshot()), Register(id, username, now), store.queries.Snapshot())
    ensures done ==> Effect(old(store.queries.Snapshot()), Register(id, username, now), store.queries.Snapshot())
    ensures done ==> store.queries.accounts == old(store.queries.accounts)[id := Account(username, "standard", now)]
    ensures done ==> username != "" && validName(username) && passwordOk
    ensures !done ==> store.queries.Snapshot() == old(store.queries.Snapshot())
    ensures Decided(done,
                    && "self_registration" in store.queries.settings
                    && store.queries.settings["self_registration"] == "true"
                    && username != "" && validName(username) && passwordOk
                    && Insertable(old(store.queries.accounts), id, username),
                    old(store.queries.faults), store.queries.faults)
  {
    done := SettingEnabled(store, SELF_REGISTRATION);
    if !done || username == "" || !validName(username) || !passwordOk {
      return false;
    }
    var taken := store.queries.GetAccountByUsername(username);
    if taken.Some? {
      return false;
    }
    done := store.queries.CreateAccount(id, username, STANDARD, now);
  }

  method HandleCreateAccount(store: SQLStore, validName: NameCheck, actor: string, id: string, username: string,
                             role: string, passwordOk: bool, now: int)
    returns (done: bool)
    modifies store.queries`accounts, store.queries`faults
    ensures Next(old(store.queries.Snapshot()), CreateAccount(actor, id, username, role, now), store.queries.Snapshot())
    ensures done ==>
              Effect(old(store.queries.Snapshot()), CreateAccount(actor, id, username, role, now),
                     store.queries.Snapshot())
    ensures done ==>
              && actor in old(store.queries.accounts) && old(store.queries.accounts)[actor].role == "admin"
              && username != "" && validName(username) && passwordOk
              && store.queries.accounts == old(store.queries.accounts)[
                   id := Account(username, if role == "admin" then "admin" else "standard", now)]
    ensures !done ==> store.queries.Snapshot() == old(store.queries.Snapshot())
    ensures Decided(done,
                    && actor in old(store.queries.accounts) && old(store.queries.accounts)[actor].role == "admin"
                    && username != "" && validName(username) && passwordOk
                    && Insertable(old(store.queries.accounts), id, username),
                    old(store.queries.faults), store.queries.faults)
  {
    done := WithAdmin(store, actor);
    if !done || username == "" || !validName(username) || !passwordOk {
      return false;
    }
    var taken := store.queries.GetAccountByUsername(username);
    if taken.Some? {
      return false;
    }
    done := store.queries.CreateAccount(id, username, if role != ADMIN then STANDARD else role, now);
  }

  /** An account with the requested name and role; an empty name or an unknown role changes nothing. */
  function Edited(a: Account, username: string, role: string): Account {
    a.(username := if username != "" then username else a.username,
       role := if role == ADMIN || role == STANDARD then role else a.role)
  }

  /** The name part of the request is in order. */
  ghost predicate MayRename(db: Db, validName: NameCheck, actor: string, id: string, username: string) {
    && IsAdmin(db, actor)
    && (username != "" ==> validName(username) && (id in db.accounts ==> NameFree(db.accounts, id, username)))
  }

  /** The role change would not demote the last admin. */
  ghost predicate MayChangeRole(db: Db, id: string, role: string) {
    role == STANDARD ==> OtherAdmin(db, id)
  }

  function WithEdited(accounts: map<string, Account>, id: string, username: string, role: string)
    : map<string, Account>
  {
    if id in accounts then accounts[id := Edited(accounts[id], username, role)] else accounts
  }

  /** Granted are requests of an admin with a valid and free name, or none, that demote no last admin. */
  lemma UpdateGrantedIff(db: Db, validName: NameCheck, actor: string, id: string, username: string, role: string)
    ensures MayRename(db, validName, actor, id, username) && MayChangeRole(db, id, role)
       <==> && actor in db.accounts && db.accounts[actor].role == "admin"
            && (username != "" ==>
                  && validName(username)
                  && forall a :: a in db.accounts && a != id && id in db.accounts ==>
                       db.accounts[a].username != username)
            && (role == "standard" ==> exists a :: a in db.accounts && a != id && db.accounts[a].role == "admin")
  {
    assert OtherAdmin(db, id) <==> exists a :: a in db.accounts && a != id && db.accounts[a].role == "admin" by {
      if a :| a in db.accounts && a != id && db.accounts[a].role == "admin" {
        assert IsAdmin(db, a);
      }
    }
  }

  /** Only the one account changes, and of it only a name that is given and a role that is one. */
  lemma EditedFields(accounts: map<string, Account>, id: string, username: string, role: string)
    ensures WithEdited(accounts, id, username, role).Keys == accounts.Keys
    ensures forall a :: a in accounts ==>
              var before, after := accounts[a], WithEdited(accounts, id, username, role)[a];
              && (a != id ==> after == before) && after.createdAt == before.createdAt
              && (a == id ==> after.username == if username == "" then before.username else username)
              && (a == id && role in {"admin", "standard"} ==> after.role == role)
              && (role !in {"admin", "standard"} ==> after.role == before.role)
  {
  }

  /** Name first, then role: a rename stays even when the role change is then refused. */
  method HandleUpdateAccount(store: SQLStore, validName: NameCheck, actor: string, id: string, username: string,
                             role: string)
    returns (done: bool)
    modifies store.queries`accounts, store.queries`faults
    ensures Next(old(store.queries.Snapshot()), UpdateAccount(actor, id, username, role), store.queries.Snapshot())
    ensures var db := old(store.queries.Snapshot());
            Reported(done, MayRename(db, validName, actor, id, username) && MayChangeRole(db, id, role),
                     old(store.queries.faults), store.queries.faults)
    ensures var db := old(store.queries.Snapshot());
            store.queries.faults == old(store.queries.faults) ==>
              store.queries.accounts
              == if !MayRename(db, validName, actor, id, username) then db.accounts
                 else WithEdited(db.accounts, id, username, if MayChangeRole(db, id, role) then role else "")
  {
    hide NameFree, OtherAdmin;
    ghost var db := store.queries.Snapshot();
    done := WithAdmin(store, actor);
    if !done || (username != "" && !validName(username)) {
      return false;
    }
    if username != "" {
      done := store.queries.UpdateAccountUsername(username, id);
      if !done {
        return;
      }
    }
    ghost var mid := store.queries.Snapshot();
    assert mid == db || Renamed(db, mid, id, username);
    SameOtherAdmins(db, mid, id);
    if role == ADMIN || role == STANDARD {
      if role == STANDARD {
        var last := IsLastAdmin(store, id);
        if last {
          assert Updated(db, mid, store.queries.Snapshot(), id, username, role);
          return false;
        }
      }
      done := store.queries.UpdateAccountRole(role, id);
    }
    assert Updated(db, mid, store.queries.Snapshot(), id, username, role);
  }

  lemma SameOtherAdmins(db: Db, mid: Db, id: string)
    requires forall other :: other != id ==> (IsAdmin(db, other) <==> IsAdmin(mid, other))
    ensures OtherAdmin(db, id) <==> OtherAdmin(mid, id)
  {
  }

  method HandleDeleteAccount(store: SQLStore, actor: string, id: string) returns (done: bool, ghost gone: Gone)
    modifies store.queries
    ensures Next(old(store.queries.Snapshot()), DeleteAccount(actor, id, gone), store.queries.Snapshot())
    ensures !done ==> store.queries.Snapshot() == old(store.queries.Snapshot())
    ensures Decided(done,
                    IsAdmin(old(store.queries.Snapshot()), actor) && OtherAdmin(old(store.queries.Snapshot()), id),
                    old(store.queries.faults), store.queries.faults)
    ensures done && store.queries.faults == old(store.queries.faults) ==>
              store.queries.Snapshot() == WithoutAccounts(old(store.queries.Snapshot()), {id})
  {
    hide Deleting, Removed;
    gone := NOTHING;
    done := WithAdmin(store, actor);
    if !done {
      return;
    }
    var last := IsLastAdmin(store, id);
    if last {
      done := false;
      return;
    }
    gone := DeleteAccountCascade(store, id);
  }

  method HandleSelfDeleteAccount(store: SQLStore, actor: string) returns (done: bool, ghost gone: Gone)
    modifies store.queries
    ensures Next(old(store.queries.Snapshot()), SelfDelete(actor, gone), store.queries.Snapshot())
    ensures !done ==> store.queries.Snapshot() == old(store.queries.Snapshot())
    ensures Decided(done,
                    actor in old(store.queries.accounts)
                    && (IsAdmin(old(store.queries.Snapshot()), actor) ==>
                        OtherAdmin(old(store.queries.Snapshot()), actor)),
                    old(store.queries.faults), store.queries.faults)
    ensures done && store.queries.faults == old(store.queries.faults) ==>
              store.queries.Snapshot() == WithoutAccounts(old(store.queries.Snapshot()), {actor})
  {
    hide Deleting, Removed;
    done, gone := false, NOTHING;
    var acct := store.queries.GetAccountByID(actor);
    if acct.None? {
      return;
    }
    if acct.value.role == ADMIN {
      var last := IsLastAdmin(store, actor);
      if last {
        return;
      }
    }
    gone := DeleteAccountCascade(store, actor);
    done := true;
  }

  /** `allowed` is the outcome of the setting and limit checks. */
  method HandleCreateUser(store: SQLStore, validName: NameCheck, accountId: string, username: string, allowed: bool)
    returns (done: bool)
    modifies store.queries`users, store.queries`faults
    ensures Next(old(store.queries.Snapshot()), CreateUser(accountId, username), store.queries.Snapshot())
    ensures done ==> Effect(old(store.queries.Snapshot()), CreateUser(accountId, username), store.queries.Snapshot())
    ensures done ==>
              && username !in old(store.queries.users) && accountId in store.queries.accounts
              && username != "" && validName(username) && allowed
              && store.queries.users == old(store.queries.users)[username := User(accountId, None)]
    ensures !done ==> store.queries.Snapshot() == old(store.queries.Snapshot())
    ensures Decided(done,
                    username != "" && validName(username) && allowed && username !in old(store.queries.users)
                    && accountId in store.queries.accounts,
                    old(store.queries.faults), store.queries.faults)
  {
    done := false;
    if allowed && username != "" && validName(username) {
      var taken := store.queries.GetUser(username);
      if taken.None? {
        done := store.queries.CreateUser(username, accountId);
      }
    }
  }

  method HandleDeleteUser(store: SQLStore, username: string) returns (ghost gone: Gone)
    modifies store.queries`episodes, store.queries`subscriptions, store.queries`devices, store.queries`users,
             store.queries`faults
    ensures old(store.queries.faults) <= store.queries.faults
    ensures Next(old(store.queries.Snapshot()), DeleteUser(username, gone), store.queries.Snapshot())
    ensures store.queries.faults == old(store.queries.faults) ==>
              store.queries.Snapshot() == WithoutUsers(old(store.queries.Snapshot()), {username})
  {
    hide DeletingUser, Removed;
    gone := DeleteUserCascade(store, username);
  }

  /** Only an admin's key may carry the admin role; `allowed` is the outcome of the setting and limit checks. */
  method HandleCreateAPIKey(store: SQLStore, actor: string, keyId: string, role: string, allowed: bool)
    returns (done: bool)
    modifies store.queries`apiKeys, store.queries`faults
    ensures Next(old(store.queries.Snapshot()), CreateKey(actor, keyId, role), store.queries.Snapshot())
    ensures done ==> Effect(old(store.queries.Snapshot()), CreateKey(actor, keyId, role), store.queries.Snapshot())
    ensures done ==>
              && allowed && actor in store.queries.accounts
              && var admin := role == "admin" && store.queries.accounts[actor].role == "admin";
                 store.queries.apiKeys == old(store.queries.apiKeys)[
                   keyId := ApiKey(actor, if admin then "admin" else "standard")]
    ensures !done ==> store.queries.Snapshot() == old(store.queries.Snapshot())
    ensures Decided(done, actor in store.queries.accounts && allowed && keyId !in old(store.queries.apiKeys),
                    old(store.queries.faults), store.queries.faults)
  {
    var acct := store.queries.GetAccountByID(actor);
    done := acct.Some? && allowed;
    if done {
      var granted := if role != ADMIN || acct.value.role != ADMIN then STANDARD else role;
      done := store.queries.CreateAPIKey(keyId, ApiKey(actor, granted));
    }
  }

  /** Succeeds without effect when the account has no such key. */
  method HandleDeleteAPIKey(store: SQLStore, accountId: string, keyId: string) returns (done: bool)
    modifies store.queries`apiKeys, store.queries`faults
    ensures Next(old(store.queries.Snapshot()), DeleteKey(accountId, keyId), store.queries.Snapshot())
    ensures Reported(done, true, old(store.queries.faults), store.queries.faults)
    ensures done ==> keyId in store.queries.apiKeys ==> store.queries.apiKeys[keyId].accountId != accountId
    ensures var before, after := old(store.queries.apiKeys), store.queries.apiKeys;
            forall k :: k in before && (k != keyId || before[k].accountId != accountId) ==>
              k in after && after[k] == before[k]
  {
    done := store.queries.DeleteAPIKey(keyId, accountId);
  }

  // Settings.

  const ALLOW_USER_CREATION := "allow_user_creation"
  const EPISODE_RETENTION := "episode_retention_days"
  const INACTIVE_ACCOUNT := "inactive_account_days"

  /** Empty means zero; anything but a whole, non-negative number is refused. */
  function ParseSettingInt(atoi: Atoi, s: string): (r: Option<int>)
    ensures r.Some? ==> r.value >= 0
  {
    if s == "" then Some(0)
    else
      var (n, ok) := atoi(s);
      if !ok || n < 0 then None else Some(n)
  }

  function FormValue(form: map<string, string>, key: string): string {
    if key in form then form[key] else ""
  }

  function FormatBool(b: bool): string {
    if b then "true" else "false"
  }

  /** A retention or inactivity window that may be stored: disabled or in range. */
  predicate WindowOk(days: int, lo: int, hi: int) {
    days == 0 || lo <= days <= hi
  }

  /** The settings a form asks for, None when it is refused. */
  function RequestedSettings(atoi: Atoi, form: map<string, string>): Option<map<string, string>> {
    var age := ParseSettingInt(atoi, FormValue(form, "session_max_age_hours"));
    var keep := ParseSettingInt(atoi, FormValue(form, EPISODE_RETENTION));
    var idle := ParseSettingInt(atoi, FormValue(form, INACTIVE_ACCOUNT));
    var maxUsers := ParseSettingInt(atoi, FormValue(form, "max_users_per_account"));
    var maxKeys := ParseSettingInt(atoi, FormValue(form, "max_api_keys_per_account"));
    var minPassword := ParseSettingInt(atoi, FormValue(form, "min_password_length"));
    if age.None? || keep.None? || idle.None? || maxUsers.None? || maxKeys.None? || minPassword.None? then None
    else if age.value < 1 || !WindowOk(keep.value, 7, 3650) || !WindowOk(idle.value, 30, 3650) then None
    else
      Some(map[
        SELF_REGISTRATION := FormatBool(FormValue(form, SELF_REGISTRATION) == "true"),
        ALLOW_USER_CREATION := FormatBool(FormValue(form, ALLOW_USER_CREATION) == "true"),
        "allow_sharing" := FormatBool(FormValue(form, "allow_sharing") == "true"),
        "allow_api_keys" := FormatBool(FormValue(form, "allow_api_keys") == "true"),
        "max_users_per_account" := EpisodeHash.Decimal(maxUsers.value),
        "max_api_keys_per_account" := EpisodeHash.Decimal(if maxKeys.value > 1 then maxKeys.value else 1),
        "min_password_length" := EpisodeHash.Decimal(minPassword.value),
        "session_max_age_hours" := EpisodeHash.Decimal(age.value),
        EPISODE_RETENTION := EpisodeHash.Decimal(keep.value),
        INACTIVE_ACCOUNT := EpisodeHash.Decimal(idle.value)])
  }

  /** An accepted form stores the two windows it was given, and both are disabled or in range. */
  lemma RequestedWindows(atoi: Atoi, form: map<string, string>) returns (retention: int, inactive: int)
    requires RequestedSettings(atoi, form).Some?
    ensures ParseSettingInt(atoi, FormValue(form, EPISODE_RETENTION)) == Some(retention) && WindowOk(retention, 7, 3650)
    ensures ParseSettingInt(atoi, FormValue(form, INACTIVE_ACCOUNT)) == Some(inactive) && WindowOk(inactive, 30, 3650)
    ensures var values := RequestedSettings(atoi, form).value;
            && EPISODE_RETENTION in values && values[EPISODE_RETENTION] == EpisodeHash.Decimal(retention)
            && INACTIVE_ACCOUNT in values && values[INACTIVE_ACCOUNT] == EpisodeHash.Decimal(inactive)
  {
    retention := ParseSettingInt(atoi, FormValue(form, EPISODE_RETENTION)).value;
    inactive := ParseSettingInt(atoi, FormValue(form, INACTIVE_ACCOUNT)).value;
  }

  const TOGGLES := {"self_registration", "allow_user_creation", "allow_sharing", "allow_api_keys"}
  const NUMBERS := {"max_users_per_account", "max_api_keys_per_account", "min_password_length",
                    "session_max_age_hours", "episode_retention_days", "inactive_account_days"}

  /** The number a field of the form stands for, if any. */
  ghost predicate Entered(atoi: Atoi, form: map<string, string>, key: string, n: int) {
    if key !in form || form[key] == "" then n == 0 else atoi(form[key]) == (n, true) && n >= 0
  }

  /** Whatever number `Atoi` reads it reads again once printed. */
  ghost predicate ReadsBack(atoi: Atoi) {
    && (forall s :: atoi(s).1 ==> atoi(EpisodeHash.Decimal(atoi(s).0)) == (atoi(s).0, true))
    && atoi("0") == (0, true) && atoi("1") == (1, true)
  }

  /** What an accepted form stores reads back as what was entered; at least one API key is always allowed. */
  lemma SavedReadsBack(atoi: Atoi, form: map<string, string>)
    requires RequestedSettings(atoi, form).Some? && ReadsBack(atoi)
    ensures var values := RequestedSettings(atoi, form).value;
            && values.Keys == TOGGLES + NUMBERS
            && (forall key :: key in TOGGLES ==>
                  values[key] == if key in form && form[key] == "true" then "true" else "false")
            && forall key :: key in NUMBERS ==>
                 var (n, ok) := atoi(values[key]);
                 ok && (Entered(atoi, form, key, n)
                        || (key == "max_api_keys_per_account" && n == 1 && Entered(atoi, form, key, 0)))
  {
    SavedKeys(atoi, form);
    hide RequestedSettings, Entered, ReadsBack;
    var values := RequestedSettings(atoi, form).value;
    forall key | key in TOGGLES
      ensures values[key] == if key in form && form[key] == "true" then "true" else "false"
    {
      ToggleSaved(atoi, form, key);
    }
    forall key | key in NUMBERS
      ensures var (n, ok) := atoi(values[key]);
              ok && (Entered(atoi, form, key, n)
                     || (key == "max_api_keys_per_account" && n == 1 && Entered(atoi, form, key, 0)))
    {
      NumberReadsBack(atoi, form, key);
    }
  }

  lemma ToggleSaved(atoi: Atoi, form: map<string, string>, key: string)
    requires RequestedSettings(atoi, form).Some? && key in TOGGLES
    ensures var values := RequestedSettings(atoi, form).value;
            key in values && values[key] == if key in form && form[key] == "true" then "true" else "false"
  {
    hide ParseSettingInt, WindowOk, FormValue, EpisodeHash.Decimal;
    var values := RequestedSettings(atoi, form).value;
    assert values["self_registration"] == FormatBool(FormValue(form, "self_registration") == "true");
    assert values["allow_user_creation"] == FormatBool(FormValue(form, "allow_user_creation") == "true");
    assert values["allow_sharing"] == FormatBool(FormValue(form, "allow_sharing") == "true");
    assert values["allow_api_keys"] == FormatBool(FormValue(form, "allow_api_keys") == "true");
    FormValueIs(form, key, "true");
  }

  lemma FormValueIs(form: map<string, string>, key: string, value: string)
    requires value != ""
    ensures FormValue(form, key) == value <==> key in form && form[key] == value
  {
  }

  lemma SavedKeys(atoi: Atoi, form: map<string, string>)
    requires RequestedSettings(atoi, form).Some?
    ensures RequestedSettings(atoi, form).value.Keys == TOGGLES + NUMBERS
  {
    hide ParseSettingInt, WindowOk;
  }

  lemma NumberReadsBack(atoi: Atoi, form: map<string, string>, key: string)
    requires RequestedSettings(atoi, form).Some? && ReadsBack(atoi) && key in NUMBERS
    ensures key in RequestedSettings(atoi, form).value
    ensures var (n, ok) := atoi(RequestedSettings(atoi, form).value[key]);
            ok && (Entered(atoi, form, key, n)
                   || (key == "max_api_keys_per_account" && n == 1 && Entered(atoi, form, key, 0)))
  {
    var n := ParseSettingInt(atoi, FormValue(form, key)).value;
    assert atoi(EpisodeHash.Decimal(n)) == (n, true);
  }

  /** A form is refused exactly for a field that is no number, a session of no hours, or a window out of range. */
  lemma RefusedIff(atoi: Atoi, form: map<string, string>)
    ensures RequestedSettings(atoi, form).None?
       <==> || (exists key :: key in NUMBERS && forall n :: !Entered(atoi, form, key, n))
            || Entered(atoi, form, "session_max_age_hours", 0)
            || (exists n :: Entered(atoi, form, "episode_retention_days", n) && n != 0 && !(7 <= n <= 3650))
            || (exists n :: Entered(atoi, form, "inactive_account_days", n) && n != 0 && !(30 <= n <= 3650))
  {
    hide RequestedSettings, Entered, ParseSettingInt;
    RefusedUnparsed(atoi, form);
    forall key
      ensures (forall n :: !Entered(atoi, form, key, n)) <==> ParseSettingInt(atoi, FormValue(form, key)).None?
    {
      EnteredIsParsed(atoi, form, key);
    }
    EnteredIsParsed(atoi, form, "session_max_age_hours");
    EnteredIsParsed(atoi, form, "episode_retention_days");
    EnteredIsParsed(atoi, form, "inactive_account_days");
  }

  lemma EnteredIsParsed(atoi: Atoi, form: map<string, string>, key: string)
    ensures forall n :: Entered(atoi, form, key, n) <==> ParseSettingInt(atoi, FormValue(form, key)) == Some(n)
    ensures (forall n :: !Entered(atoi, form, key, n)) <==> ParseSettingInt(atoi, FormValue(form, key)).None?
    ensures ParseSettingInt(atoi, FormValue(form, key)).Some? ==> ParseSettingInt(atoi, FormValue(form, key)).value >= 0
  {
    var parsed := ParseSettingInt(atoi, FormValue(form, key));
    assert parsed.Some? ==> Entered(atoi, form, key, parsed.value);
  }

  lemma RefusedUnparsed(atoi: Atoi, form: map<string, string>)
    ensures RequestedSettings(atoi, form).None?
       <==> || (exists key :: key in NUMBERS && ParseSettingInt(atoi, FormValue(form, key)).None?)
            || ParseSettingInt(atoi, FormValue(form, "session_max_age_hours")).value < 1
            || !WindowOk(ParseSettingInt(atoi, FormValue(form, "episode_retention_days")).value, 7, 3650)
            || !WindowOk(ParseSettingInt(atoi, FormValue(form, "inactive_account_days")).value, 30, 3650)
  {
    hide ParseSettingInt;
    assert "session_max_age_hours" in NUMBERS && "episode_retention_days" in NUMBERS;
    assert "inactive_account_days" in NUMBERS && "min_password_length" in NUMBERS;
    assert "max_users_per_account" in NUMBERS && "max_api_keys_per_account" in NUMBERS;
  }

  /** The writes are attempted one and all; a refused form changes nothing. */
  method HandleSettingsSave(store: SQLStore, atoi: Atoi, actor: string, form: map<string, string>)
    returns (done: bool)
    modifies store.queries`settings, store.queries`faults
    ensures Reported(done, IsAdmin(old(store.queries.Snapshot()), actor) && RequestedSettings(atoi, form).Some?,
                     old(store.queries.faults), store.queries.faults)
    ensures RequestedSettings(atoi, form).None? ==> store.queries.settings == old(store.queries.settings)
    ensures RequestedSettings(atoi, form).Some? ==>
              Next(old(store.queries.Snapshot()), SaveSettings(actor, RequestedSettings(atoi, form).value),
                   store.queries.Snapshot())
    ensures done ==> store.queries.settings == old(store.queries.settings) + RequestedSettings(atoi, form).value
  {
    hide RequestedSettings;
    done := WithAdmin(store, actor);
    if !done {
      return;
    }
    var values := RequestedSettings(atoi, form);
    if values.None? {
      return false;
    }
    done := SaveAll(store, values.value);
  }

  method SaveAll(store: SQLStore, values: map<string, string>) returns (done: bool)
    modifies store.queries`settings, store.queries`faults
    ensures Reported(done, true, old(store.queries.faults), store.queries.faults)
    ensures SomeSaved(old(store.queries.settings), store.queries.settings, values)
    ensures done ==> store.queries.settings == old(store.queries.settings) + values
  {
    ghost var before := store.queries.settings;
    done := true;
    var keys := Enumerate(values.Keys);
    for i := 0 to |keys|
      invariant Reported(done, true, old(store.queries.faults), store.queries.faults)
      invariant SomeSaved(before, store.queries.settings, values)
      invariant done ==> forall j :: 0 <= j < i ==> keys[j] in store.queries.settings
      invariant done ==> forall j :: 0 <= j < i ==> store.queries.settings[keys[j]] == values[keys[j]]
    {
      assert keys[i] in SetOf(keys);
      var ok := store.queries.UpsertSetting(keys[i], values[keys[i]]);
      done := done && ok;
    }
    if done {
      forall k | k in values ensures k in store.queries.settings && store.queries.settings[k] == values[k] {
        assert k in SetOf(keys);
      }
      AllSaved(before, store.queries.settings, values);
    }
  }

  lemma AllSaved(before: map<string, string>, after: map<string, string>, values: map<string, string>)
    requires SomeSaved(before, after, values) && Submap(values, after)
    ensures after == before + values
  {
  }
}
