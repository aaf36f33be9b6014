/**
 The account lifecycle as a state machine: every handler and the background sweep is one step, run
 one at a time. `Next` is a relation because store writes may fail: a step may leave the database
 as it was, and a cascade or a settings save may stop part-way.

 Main results: who can end up without an administrator (`AdminAlwaysIffRegistrationOff`) and how that
 ends (`AdminIffSetUp`), references and names stay consistent (`RunsStayConsistent`), when every row
 keeps its owner (`RunKeepsOwnersIff`), and the sweep spares the active (`SweepSpares`).
 */
module AccountRuns {
  import opened Prelude
  import opened AccountModel
  import Sync = SubscriptionSync
  import Subs = SubscriptionTable
  import Eps = EpisodeTable

  /**
   `actor` is the account whose session the request carries, `key` the API key it presents, `gone`
   what the statements of a cascade removed.
   */
  datatype Step =
    | Setup(id: string, username: string, now: int, counted: bool)
    | Register(id: string, username: string, now: int)
    | CreateAccount(actor: string, id: string, username: string, role: string, now: int)
    | ApiCreateAccount(key: string, id: string, username: string, role: string, now: int)
    | UpdateAccount(actor: string, id: string, username: string, role: string)
    | DeleteAccount(actor: string, id: string, gone: Gone)
    | SelfDelete(actor: string, gone: Gone)
    | ApiDeleteAccount(key: string, id: string, gone: Gone)
    | CreateUser(accountId: string, username: string)
    | DeleteUser(username: string, gone: Gone)
    | CreateKey(actor: string, keyId: string, role: string)
    | DeleteKey(accountId: string, keyId: string)
    | SaveSettings(actor: string, values: map<string, string>)
    | Request(username: string, now: int, stored: bool)
    | Subscriptions(valid: Sync.UrlCheck, request: Sync.Request, now: int)
    | Episodes(hash: Eps.Hasher, username: string, episodes: seq<Eps.Episode>, now: int)
      // Devices of one user added, edited or removed.
    | Devices(username: string, devices: map<DeviceKey, Device>)
    | Retention(cutoff: int)
    | Sweep(cutoff: int, gone: Gone)

  predicate SelfRegistration(settings: map<string, string>) {
    SELF_REGISTRATION in settings && settings[SELF_REGISTRATION] == "true"
  }

  predicate IsAdminKey(db: Db, key: string) {
    key in db.apiKeys && db.apiKeys[key].role == ADMIN && db.apiKeys[key].accountId in db.accounts
  }

  function RoleOf(role: string): string {
    if role == ADMIN then ADMIN else STANDARD
  }

  /** INSERT INTO accounts under its two uniqueness constraints. */
  ghost predicate Inserted(db: Db, db': Db, id: string, account: Account) {
    && id !in db.accounts && NameFree(db.accounts, id, account.username)
    && db' == db.(accounts := db.accounts[id := account])
  }

  /** UPDATE accounts SET username, which touches no row when the id is unknown. */
  ghost predicate Renamed(db: Db, db': Db, id: string, username: string) {
    if id in db.accounts then
      NameFree(db.accounts, id, username)
      && db' == db.(accounts := db.accounts[id := db.accounts[id].(username := username)])
    else db' == db
  }

  function WithRole(db: Db, id: string, role: string): Db {
    if id in db.accounts then db.(accounts := db.accounts[id := db.accounts[id].(role := role)]) else db
  }

  /** Some of the settings were written, each with its given value. */
  ghost predicate SomeSaved(old': map<string, string>, new': map<string, string>, values: map<string, string>) {
    forall k ::
      || (k in new' && k in values && new'[k] == values[k])
      || ((k in new' <==> k in old') && (k in new' ==> new'[k] == old'[k]))
  }

  function TouchUser(db: Db, username: string, now: int): Db {
    if username in db.users then
      var u := db.users[username];
      db.(users := db.users[username := u.(lastActivity := Touched(u.lastActivity, now))])
    else db
  }

  /** Every device of anybody else is what it was. */
  ghost predicate OthersKept(before: map<DeviceKey, Device>, after: map<DeviceKey, Device>, username: string) {
    forall d: DeviceKey :: d.username != username ==>
      (d in after <==> d in before) && (d in before ==> d in after && after[d] == before[d])
  }

  /** A rename that may have failed, then a role change unless it would demote the last admin. */
  ghost predicate Updated(db: Db, mid: Db, db': Db, id: string, username: string, role: string) {
    && (mid == db || Renamed(db, mid, id, username))
    && (db' == mid || (db' == WithRole(mid, id, role) && (role == ADMIN || (role == STANDARD && OtherAdmin(mid, id)))))
  }

  /** One step: a request records activity unless that write fails; any other step happens or leaves no trace. */
  ghost predicate Next(db: Db, step: Step, db': Db) {
    match step
    case Request(username, now, stored) => db' == if stored then TouchUser(db, username, now) else db
    case _ => db' == db || Effect(db, step, db')
  }

  ghost predicate Effect(db: Db, step: Step, db': Db)
    requires !step.Request?
  {
    match step
    case Setup(id, username, now, counted) =>
      (counted ==> db.accounts == map[]) && Inserted(db, db', id, Account(username, ADMIN, now))
    case Register(id, username, now) =>
      SelfRegistration(db.settings) && Inserted(db, db', id, Account(username, STANDARD, now))
    case CreateAccount(actor, id, username, role, now) =>
      IsAdmin(db, actor) && Inserted(db, db', id, Account(username, RoleOf(role), now))
    case ApiCreateAccount(key, id, username, role, now) =>
      IsAdminKey(db, key) && Inserted(db, db', id, Account(username, RoleOf(role), now))
    case UpdateAccount(actor, id, username, role) =>
      IsAdmin(db, actor) && exists mid :: Updated(db, mid, db', id, username, role)
    case DeleteAccount(actor, id, gone) => IsAdmin(db, actor) && OtherAdmin(db, id) && Deleting(db, db', {id}, gone)
    case SelfDelete(actor, gone) =>
      actor in db.accounts && (IsAdmin(db, actor) ==> OtherAdmin(db, actor)) && Deleting(db, db', {actor}, gone)
    case ApiDeleteAccount(key, id, gone) =>
      IsAdminKey(db, key) && id in db.accounts && !IsAdmin(db, id) && Deleting(db, db', {id}, gone)
    case CreateUser(accountId, username) =>
      && username !in db.users && accountId in db.accounts
      && db' == db.(users := db.users[username := User(accountId, None)])
    case DeleteUser(username, gone) => DeletingUser(db, db', username, gone)
    case CreateKey(actor, keyId, role) =>
      && actor in db.accounts && keyId !in db.apiKeys
      && (var granted := if IsAdmin(db, actor) then RoleOf(role) else STANDARD;
          db' == db.(apiKeys := db.apiKeys[keyId := ApiKey(actor, granted)]))
    case DeleteKey(accountId, keyId) =>
      && keyId in db.apiKeys && db.apiKeys[keyId].accountId == accountId
      && db' == db.(apiKeys := db.apiKeys - {keyId})
    case SaveSettings(actor, values) =>
      IsAdmin(db, actor) && db' == db.(settings := db'.settings) && SomeSaved(db.settings, db'.settings, values)
    case Subscriptions(valid, r, now) => db' == db.(subscriptions := Sync.Handle(valid, db.subscriptions, r, now))
    case Episodes(hash, username, eps, now) =>
      db' == db.(episodes := Eps.UpsertAll(hash, db.episodes, Eps.Uploads(username, eps, now)))
    case Devices(username, devices) => OthersKept(db.devices, devices, username) && db' == db.(devices := devices)
    case Retention(cutoff) => db' == db.(episodes := Eps.Retained(db.episodes, cutoff))
    case Sweep(cutoff, gone) => Deleting(db, db', Inactive(db, cutoff), gone)
  }

  datatype Run = Run(states: seq<Db>, steps: seq<Step>)

  ghost predicate IsRun(run: Run, start: Db) {
    && |run.states| == |run.steps| + 1 && run.states[0] == start
    && forall i {:trigger run.steps[i]} :: 0 <= i < |run.steps| ==> Next(run.states[i], run.steps[i], run.states[i + 1])
  }

  function Empty(settings: map<string, string>): Db {
    Db(map[], map[], map[], map[], map[], map[], settings)
  }

  // Someone can always administer.

  /** Before setup nobody can register; afterwards there is an admin. */
  ghost predicate Governed(db: Db) {
    HasAdmin(db) || (db.accounts == map[] && !SelfRegistration(db.settings))
  }

  /** The last admin can neither be deleted nor demoted nor swept. */
  lemma AdminsStay(db: Db, step: Step, db': Db)
    requires Next(db, step, db') && HasAdmin(db)
    ensures HasAdmin(db')
  {
    var admin :| IsAdmin(db, admin);
    match step
    case UpdateAccount(_, id, username, role) =>
      if db' == db {
        assert IsAdmin(db', admin);
      } else {
        var mid :| Updated(db, mid, db', id, username, role);
        UpdateKeepsAdmin(db, mid, db', admin, id, username, role);
      }
    case DeleteAccount(_, id, gone) =>
      if db' != db { DeletionKeepsAdmin(db, db', id, gone); } else { assert IsAdmin(db', admin); }
    case SelfDelete(actor, gone) =>
      if db' == db || actor != admin {
        assert IsAdmin(db', admin);
      } else {
        DeletionKeepsAdmin(db, db', actor, gone);
      }
    case Sweep(cutoff, gone) =>
      if db' != db { SweepKeepsAdmins(db, db', cutoff, gone, admin); }
    case _ => assert IsAdmin(db', admin);
  }

  lemma DeletionKeepsAdmin(db: Db, db': Db, id: string, gone: Gone)
    requires Deleting(db, db', {id}, gone) && OtherAdmin(db, id)
    ensures HasAdmin(db')
  {
    var other :| other != id && IsAdmin(db, other);
    assert IsAdmin(db', other);
  }

  lemma UpdateKeepsAdmin(db: Db, mid: Db, db': Db, admin: string, id: string, username: string, role: string)
    requires IsAdmin(db, admin) && Updated(db, mid, db', id, username, role)
    ensures HasAdmin(db')
  {
    assert IsAdmin(mid, admin);
    if db' == mid || role == ADMIN || admin != id {
      assert IsAdmin(db', admin);
    } else {
      var other :| other != id && IsAdmin(mid, other);
      assert IsAdmin(db', other);
    }
  }

  lemma StaysGoverned(db: Db, step: Step, db': Db)
    requires Next(db, step, db') && Governed(db)
    ensures Governed(db')
  {
    if HasAdmin(db) {
      AdminsStay(db, step, db');
    } else if db' != db {
      match step
      case Setup(id, _, _, _) => assert IsAdmin(db', id);
      case CreateAccount(_, _, _, _, _) =>
      case UpdateAccount(_, _, _, _) =>
      case _ => assert db'.accounts == map[];
    }
  }

  lemma {:induction false} RunStaysGoverned(run: Run, start: Db, i: nat)
    requires IsRun(run, start) && Governed(start) && i < |run.states|
    ensures Governed(run.states[i])
  {
    if i > 0 {
      RunStaysGoverned(run, start, i - 1);
      StaysGoverned(run.states[i - 1], run.steps[i - 1], run.states[i]);
    }
  }

  /** Every reachable state with an account has an admin. */
  ghost predicate AlwaysAdministered(start: Db) {
    forall run, i :: IsRun(run, start) && 0 <= i < |run.states| && run.states[i].accounts != map[] ==>
      HasAdmin(run.states[i])
  }

  /** From an empty database an admin always exists exactly when registration is not switched on beforehand. */
  lemma AdminAlwaysIffRegistrationOff(settings: map<string, string>)
    ensures AlwaysAdministered(Empty(settings))
       <==> !("self_registration" in settings && settings["self_registration"] == "true")
  {
    var start := Empty(settings);
    if SelfRegistration(settings) {
      var db := start.(accounts := map["id" := Account("name", STANDARD, 0)]);
      var run := Run([start, db], [Register("id", "name", 0)]);
      assert Inserted(start, db, "id", Account("name", STANDARD, 0));
      assert IsRun(run, start);
      assert run.states[1].accounts != map[];
      assert !HasAdmin(run.states[1]);
    } else {
      forall run, i | IsRun(run, start) && 0 <= i < |run.states| && run.states[i].accounts != map[]
        ensures HasAdmin(run.states[i])
      {
        RunStaysGoverned(run, start, i);
      }
    }
  }

  // Without an admin.

  predicate NoAccounts(db: Db) {
    db.accounts == map[]
  }

  ghost predicate Adminless(db: Db) {
    !HasAdmin(db) && forall k :: k in db.apiKeys ==> db.apiKeys[k].role != ADMIN
  }

  /** The step set up an admin; a setup that could count the accounts counted none. */
  ghost predicate SetsUp(db: Db, step: Step, db': Db) {
    step.Setup? && Effect(db, step, db')
  }

  ghost predicate SetsUpAt(run: Run, k: nat) {
    k < |run.steps| && k + 1 < |run.states| && SetsUp(run.states[k], run.steps[k], run.states[k + 1])
  }

  lemma AdminlessUntilSetup(db: Db, step: Step, db': Db)
    requires Next(db, step, db') && Adminless(db)
    ensures HasAdmin(db') <==> SetsUp(db, step, db')
    ensures HasAdmin(db') || Adminless(db')
  {
    hide Effect, Adminless, HasAdmin;
    if step.Setup? {
      SetupMakesAdmin(db, step, db');
    } else if IsDeletion(step) {
      JustRemoved(db, step, db');
      RemovalMakesNoAdmin(db, step.gone);
      assert db' == db ==> Adminless(db');
    } else {
      OtherStepsMakeNoAdmin(db, step, db');
    }
    AdminlessHasNone(db');
  }

  lemma AdminlessHasNone(db: Db)
    ensures Adminless(db) ==> !HasAdmin(db)
  {
  }

  lemma SetupMakesAdmin(db: Db, step: Step, db': Db)
    requires Next(db, step, db') && step.Setup? && Adminless(db)
    ensures if Effect(db, step, db') then HasAdmin(db') else Adminless(db')
  {
    if Effect(db, step, db') {
      assert IsAdmin(db', step.id);
    }
  }

  lemma RemovalMakesNoAdmin(db: Db, gone: Gone)
    requires Adminless(db)
    ensures Adminless(Removed(db, gone))
  {
    NoNewAdmin(db, Removed(db, gone));
  }

  lemma OtherStepsMakeNoAdmin(db: Db, step: Step, db': Db)
    requires Next(db, step, db') && !step.Setup? && !IsDeletion(step) && Adminless(db)
    ensures Adminless(db')
  {
    hide SomeSaved, OthersKept, Sync.Handle, Eps.UpsertAll, Eps.Retained, Touched, NameFree;
    forall id ensures !IsAdmin(db', id) {
      assert !IsAdmin(db, id);
    }
  }

  /** Whoever granted an admin key was an admin, and since then there always is one. */
  lemma {:induction false} NoAdminNoAdminKey(run: Run, settings: map<string, string>, i: nat)
    requires IsRun(run, Empty(settings)) && i < |run.states|
    ensures HasAdmin(run.states[i]) || Adminless(run.states[i])
  {
    if i > 0 {
      NoAdminNoAdminKey(run, settings, i - 1);
      if HasAdmin(run.states[i - 1]) {
        AdminsStay(run.states[i - 1], run.steps[i - 1], run.states[i]);
      } else {
        AdminlessUntilSetup(run.states[i - 1], run.steps[i - 1], run.states[i]);
      }
    }
  }

  /** In every run a reachable state without an admin gets one exactly through a setup that takes effect. */
  lemma {:induction false} AdminIffSetUp(run: Run, settings: map<string, string>, i: nat, j: nat)
    requires IsRun(run, Empty(settings)) && i <= j < |run.states|
    requires !HasAdmin(run.states[i])
    ensures HasAdmin(run.states[j])
       <==> exists k :: i <= k < j && SetsUpAt(run, k)
  {
    hide SetsUp, HasAdmin, Next;
    if i < j {
      AdminIffSetUp(run, settings, i, j - 1);
      NoAdminNoAdminKey(run, settings, j - 1);
      if HasAdmin(run.states[j - 1]) {
        AdminsStay(run.states[j - 1], run.steps[j - 1], run.states[j]);
      } else {
        AdminlessUntilSetup(run.states[j - 1], run.steps[j - 1], run.states[j]);
        assert SetsUpAt(run, j - 1) <==> HasAdmin(run.states[j]);
      }
    }
  }

  /** So accounts without an admin stay so until they are all gone, unless a setup fails to count them. */
  lemma LockedUntilEmptied(run: Run, settings: map<string, string>, i: nat, j: nat)
    requires IsRun(run, Empty(settings)) && i <= j < |run.states|
    requires !NoAccounts(run.states[i]) && !HasAdmin(run.states[i]) && HasAdmin(run.states[j])
    requires forall k :: i <= k < j && run.steps[k].Setup? ==> run.steps[k].counted
    ensures exists k :: i < k < j && NoAccounts(run.states[k])
  {
    hide SetsUpAt, HasAdmin, Next, NoAccounts;
    AdminIffSetUp(run, settings, i, j);
    var k :| i <= k < j && SetsUpAt(run, k);
    FoundNone(run, k);
  }

  lemma FoundNone(run: Run, k: nat)
    requires SetsUpAt(run, k)
    ensures k < |run.steps| && k < |run.states| && run.steps[k].Setup?
    ensures run.steps[k].counted ==> NoAccounts(run.states[k])
  {
  }

  /** And it can be mended from there: every account deletes itself, then setup runs again. */
  lemma {:induction false} EveryLockoutCanBeLeft(db: Db, id: string, username: string, now: int) returns (run: Run)
    requires !HasAdmin(db)
    ensures IsRun(run, db) && HasAdmin(run.states[|run.steps|])
    ensures forall i :: 0 <= i < |run.steps| ==>
              run.steps[i].SelfDelete? || run.steps[i] == Setup(id, username, now, true)
    decreases |db.accounts|
  {
    hide Next;
    if db.accounts == map[] {
      var db' := SetupFromEmpty(db, id, username, now);
      run := Run([db, db'], [Setup(id, username, now, true)]);
    } else {
      var a :| a in db.accounts;
      var gone := WholeAccounts(db, {a});
      var db' := Removed(db, gone);
      MaySelfDelete(db, a);
      assert db'.accounts.Keys == db.accounts.Keys - {a};
      assert |db'.accounts.Keys| < |db.accounts.Keys|;
      NoNewAdmin(db, db');
      var rest := EveryLockoutCanBeLeft(db', id, username, now);
      run := Run([db] + rest.states, [SelfDelete(a, gone)] + rest.steps);
      RunFrom(db, SelfDelete(a, gone), rest, db');
    }
  }

  lemma SetupFromEmpty(db: Db, id: string, username: string, now: int) returns (db': Db)
    requires db.accounts == map[]
    ensures Next(db, Setup(id, username, now, true), db') && HasAdmin(db')
  {
    db' := db.(accounts := map[id := Account(username, ADMIN, now)]);
    assert Inserted(db, db', id, Account(username, ADMIN, now));
    assert IsAdmin(db', id);
  }

  lemma MaySelfDelete(db: Db, a: string)
    requires a in db.accounts && !HasAdmin(db)
    ensures Next(db, SelfDelete(a, WholeAccounts(db, {a})), WithoutAccounts(db, {a}))
  {
    CascadeLeavesNothingBehind(db, {a});
    assert !IsAdmin(db, a);
  }

  lemma NoNewAdmin(db: Db, db': Db)
    requires Submap(db'.accounts, db.accounts) && !HasAdmin(db)
    ensures !HasAdmin(db')
  {
    forall id ensures !IsAdmin(db', id) {
      assert !IsAdmin(db, id);
    }
  }

  lemma RunFrom(db: Db, step: Step, rest: Run, db': Db)
    requires Next(db, step, db') && IsRun(rest, db')
    ensures IsRun(Run([db] + rest.states, [step] + rest.steps), db)
  {
    var run := Run([db] + rest.states, [step] + rest.steps);
    forall i {:trigger run.steps[i]} | 0 <= i < |run.steps|
      ensures Next(run.states[i], run.steps[i], run.states[i + 1])
    {
      if i > 0 {
        assert run.steps[i] == rest.steps[i - 1];
      }
    }
  }

  // References and names.

  predicate IsDeletion(step: Step) {
    step.DeleteAccount? || step.SelfDelete? || step.ApiDeleteAccount? || step.DeleteUser? || step.Sweep?
  }

  lemma JustRemoved(db: Db, step: Step, db': Db)
    requires Next(db, step, db') && IsDeletion(step)
    ensures db' == db || db' == Removed(db, step.gone)
  {
    hide Removed, RefsValid, Within, Inactive, IsAdmin, OtherAdmin, IsAdminKey;
  }

  lemma StaysConsistent(db: Db, step: Step, db': Db)
    requires Next(db, step, db') && RefsValid(db) && UniqueNames(db)
    ensures RefsValid(db') && UniqueNames(db')
  {
    hide Effect, RefsValid, UniqueNames;
    if IsDeletion(step) {
      DeletionStepConsistent(db, step, db');
    } else if step.UpdateAccount? {
      UpdateStepConsistent(db, step, db');
    } else {
      OtherStepsConsistent(db, step, db');
    }
  }

  lemma DeletionStepConsistent(db: Db, step: Step, db': Db)
    requires Next(db, step, db') && IsDeletion(step) && RefsValid(db) && UniqueNames(db)
    ensures RefsValid(db') && UniqueNames(db')
  {
    hide RefsValid, UniqueNames, DeletingUser, Removed, Within, Inactive, IsAdmin, OtherAdmin, IsAdminKey;
    JustRemoved(db, step, db');
    RemovalKeepsNames(db, step.gone);
    if step.DeleteUser? && db' != db {
      UserDeletionKeepsRefs(db, db', step.username, step.gone);
    }
  }

  lemma UpdateStepConsistent(db: Db, step: Step, db': Db)
    requires Next(db, step, db') && step.UpdateAccount? && RefsValid(db) && UniqueNames(db)
    ensures RefsValid(db') && UniqueNames(db')
  {
    hide RefsValid, UniqueNames, Updated;
    if db' != db {
      var mid :| Updated(db, mid, db', step.id, step.username, step.role);
      UpdateKeepsConsistent(db, mid, db', step.id, step.username, step.role);
    }
  }

  lemma OtherStepsConsistent(db: Db, step: Step, db': Db)
    requires Next(db, step, db') && RefsValid(db) && UniqueNames(db)
    requires !step.UpdateAccount? && !IsDeletion(step)
    ensures RefsValid(db') && UniqueNames(db')
  {
    hide SomeSaved, RoleOf, Touched, SelfRegistration, OthersKept, Sync.Handle, Eps.UpsertAll, Eps.Retained;
  }

  lemma UserDeletionKeepsRefs(db: Db, db': Db, username: string, gone: Gone)
    requires DeletingUser(db, db', username, gone) && RefsValid(db)
    ensures RefsValid(db')
  {
  }

  lemma RemovalKeepsNames(db: Db, gone: Gone)
    requires UniqueNames(db)
    ensures UniqueNames(Removed(db, gone))
  {
  }

  lemma UpdateKeepsConsistent(db: Db, mid: Db, db': Db, id: string, username: string, role: string)
    requires Updated(db, mid, db', id, username, role) && RefsValid(db) && UniqueNames(db)
    ensures RefsValid(db') && UniqueNames(db')
  {
    if mid != db {
      RenameKeepsConsistent(db, mid, id, username);
    }
    if db' != mid {
      RoleKeepsConsistent(mid, id, role);
    }
  }

  lemma RenameKeepsConsistent(db: Db, db': Db, id: string, username: string)
    requires Renamed(db, db', id, username) && RefsValid(db) && UniqueNames(db)
    ensures RefsValid(db') && UniqueNames(db')
  {
  }

  lemma RoleKeepsConsistent(db: Db, id: string, role: string)
    requires RefsValid(db) && UniqueNames(db)
    ensures RefsValid(WithRole(db, id, role)) && UniqueNames(WithRole(db, id, role))
  {
  }

  /** In every run users and keys point at existing accounts, and no two accounts share a name. */
  lemma {:induction false} RunsStayConsistent(run: Run, settings: map<string, string>, i: nat)
    requires IsRun(run, Empty(settings)) && i < |run.states|
    ensures RefsValid(run.states[i]) && UniqueNames(run.states[i])
  {
    if i > 0 {
      RunsStayConsistent(run, settings, i - 1);
      StaysConsistent(run.states[i - 1], run.steps[i - 1], run.states[i]);
    }
  }

  // Rows and their owners.

  /**
   Read off before the step: a deletion whose statements took the rows of each user it took, or a
   sync request of an existing user, or one that writes no row.
   */
  ghost predicate KeepsOwners(db: Db, step: Step) {
    match step
    case Subscriptions(valid, r, _) => r.username in db.users || Sync.BatchOf(valid, db.subscriptions, r).add == {}
    case Episodes(_, username, eps, _) => username in db.users || eps == []
    case Devices(username, devices) => username in db.users || forall d :: d in devices ==> d.username != username
    case _ => IsDeletion(step) ==> RowsFollowUsers(db, step.gone)
  }

  /** A step that has an effect keeps every row owned exactly when that holds. */
  lemma OwnersStayIff(db: Db, step: Step, db': Db)
    requires Next(db, step, db') && OwnersExist(db)
    ensures OwnersExist(db') <==> db' == db || KeepsOwners(db, step)
  {
    hide OwnersExist, RowsFollowUsers, Removed, RefsValid, Within, Inactive, IsAdmin, OtherAdmin, IsAdminKey;
    hide Inserted, Updated, SomeSaved, RoleOf, TouchUser, Sync.Handle, Sync.BatchOf, Eps.UpsertAll, OthersKept;
    if IsDeletion(step) {
      JustRemoved(db, step, db');
      OwnersStayIffRowsFollow(db, step.gone);
    } else if step.Subscriptions? {
      SubscribersExistIff(db, step.valid, step.request, step.now);
    } else if step.Episodes? {
      UploadersExistIff(db, step.hash, step.username, step.episodes, step.now);
    } else if step.Devices? && db' != db {
      DeviceOwnersExistIff(db, step.username, step.devices);
    } else if !step.Devices? {
      UsersOnlyGrow(db, step, db');
    }
  }

  /** A subscription request orphans a row exactly when it adds a URL for a user that does not exist. */
  lemma SubscribersExistIff(db: Db, valid: Sync.UrlCheck, r: Sync.Request, now: int)
    requires OwnersExist(db)
    ensures OwnersExist(db.(subscriptions := Sync.Handle(valid, db.subscriptions, r, now)))
       <==> r.username in db.users || Sync.BatchOf(valid, db.subscriptions, r).add == {}
  {
    hide Sync.Handle, Sync.BatchOf, Subs.ChangedRow;
    Sync.HandleIsOneWrite(valid, db.subscriptions, r, now);
    var b, t := Sync.BatchOf(valid, db.subscriptions, r), Sync.Handle(valid, db.subscriptions, r, now);
    if b.add != {} {
      var url :| url in b.add;
      assert Subs.Key(r.username, url) in t;
    }
  }

  lemma UploadersExistIff(db: Db, hash: Eps.Hasher, username: string, eps: seq<Eps.Episode>, now: int)
    requires OwnersExist(db)
    ensures OwnersExist(db.(episodes := Eps.UpsertAll(hash, db.episodes, Eps.Uploads(username, eps, now))))
       <==> username in db.users || eps == []
  {
    var ups := Eps.Uploads(username, eps, now);
    Eps.UploadedKeys(hash, db.episodes, ups);
    if eps != [] {
      assert Eps.KeyOf(ups[0]) in Eps.UpsertAll(hash, db.episodes, ups);
    }
  }

  lemma DeviceOwnersExistIff(db: Db, username: string, devices: map<DeviceKey, Device>)
    requires OwnersExist(db) && OthersKept(db.devices, devices, username)
    ensures OwnersExist(db.(devices := devices))
       <==> username in db.users || forall d :: d in devices ==> d.username != username
  {
  }

  lemma UsersOnlyGrow(db: Db, step: Step, db': Db)
    requires Next(db, step, db') && OwnersExist(db)
    requires !IsDeletion(step) && !step.Subscriptions? && !step.Episodes? && !step.Devices?
    ensures OwnersExist(db')
  {
    hide IsAdmin, OtherAdmin, NameFree, RoleOf, SomeSaved, Touched, Updated;
    if step.UpdateAccount? && db' != db {
      var mid :| Updated(db, mid, db', step.id, step.username, step.role);
      UpdateKeepsRows(db, mid, db', step.id, step.username, step.role);
    }
  }

  lemma UpdateKeepsRows(db: Db, mid: Db, db': Db, id: string, username: string, role: string)
    requires Updated(db, mid, db', id, username, role)
    ensures db' == db.(accounts := db'.accounts)
  {
    hide Renamed, WithRole, OtherAdmin;
    if mid != db { RenameKeepsRows(db, mid, id, username); }
    if db' != mid { RoleKeepsRows(mid, id, role); }
  }

  lemma RenameKeepsRows(db: Db, db': Db, id: string, username: string)
    requires Renamed(db, db', id, username)
    ensures db' == db.(accounts := db'.accounts)
  {
    hide NameFree;
  }

  lemma RoleKeepsRows(db: Db, id: string, role: string)
    ensures WithRole(db, id, role) == db.(accounts := WithRole(db, id, role).accounts)
  {
  }

  /** A run keeps every row owned throughout exactly when each of its effective steps does so. */
  lemma RunKeepsOwnersIff(run: Run, start: Db)
    requires IsRun(run, start) && OwnersExist(start)
    ensures (forall i :: 0 <= i < |run.states| ==> OwnersExist(run.states[i]))
       <==> (forall i :: 0 <= i < |run.steps| ==>
               run.states[i + 1] == run.states[i] || KeepsOwners(run.states[i], run.steps[i]))
  {
    if forall i :: 0 <= i < |run.states| ==> OwnersExist(run.states[i]) {
      forall i | 0 <= i < |run.steps|
        ensures run.states[i + 1] == run.states[i] || KeepsOwners(run.states[i], run.steps[i])
      {
        OwnersStayIff(run.states[i], run.steps[i], run.states[i + 1]);
      }
    } else if forall i :: 0 <= i < |run.steps| ==>
                run.states[i + 1] == run.states[i] || KeepsOwners(run.states[i], run.steps[i]) {
      forall i: nat | i < |run.states| ensures OwnersExist(run.states[i]) {
        OwnersThroughRun(run, start, i);
      }
    }
  }

  lemma {:induction false} OwnersThroughRun(run: Run, start: Db, i: nat)
    requires IsRun(run, start) && OwnersExist(start) && i < |run.states|
    requires forall j :: 0 <= j < i ==>
               run.states[j + 1] == run.states[j] || KeepsOwners(run.states[j], run.steps[j])
    ensures OwnersExist(run.states[i])
  {
    if i > 0 {
      OwnersThroughRun(run, start, i - 1);
      OwnersStayIff(run.states[i - 1], run.steps[i - 1], run.states[i]);
    }
  }

  /** An admin route does not look the user of its path up: a subscription for nobody is stored. */
  lemma WriteForAbsentUserIsStored(db: Db, valid: Sync.UrlCheck, username: string, url: string, now: int)
    returns (db': Db)
    requires OwnersExist(db) && username !in db.users && url != "" && valid(url)
    ensures Next(db, Subscriptions(valid, Sync.Subscribe(username, url), now), db')
    ensures Subs.Active(db'.subscriptions, username) == {url} && !OwnersExist(db')
  {
    db' := db.(subscriptions := Sync.Handle(valid, db.subscriptions, Sync.Subscribe(username, url), now));
    SubscribersExistIff(db, valid, Sync.Subscribe(username, url), now);
    Subs.ActiveAfterChange(db.subscriptions, username, {url}, {}, now);
    assert Subs.Active(db.subscriptions, username) == {};
  }

  /** Rows left behind pass to whoever takes the name next, under whichever account. */
  lemma OrphansAreInherited(db: Db, username: string, accountId: string) returns (mid: Db, db': Db)
    requires username in db.users && accountId in db.accounts
    ensures Next(db, DeleteUser(username, NOTHING.(users := {username})), mid)
    ensures Next(mid, CreateUser(accountId, username), db')
    ensures db' == db.(users := db.users[username := User(accountId, None)])
  {
    mid := Removed(db, NOTHING.(users := {username}));
    db' := mid.(users := mid.users[username := User(accountId, None)]);
    assert mid == db.(users := mid.users);
  }

  // Activity and the sweep.

  /** The step is an explicit deletion of the user or of its account. */
  predicate Deletes(step: Step, username: string, accountId: string) {
    match step
    case DeleteUser(u, _) => u == username
    case DeleteAccount(_, id, _) => id == accountId
    case SelfDelete(id, _) => id == accountId
    case ApiDeleteAccount(_, id, _) => id == accountId
    case _ => false
  }

  /** The user exists, belongs to the account, and was active no earlier than `since`. */
  ghost predicate ActiveSince(db: Db, username: string, accountId: string, since: int) {
    && username in db.users && db.users[username].accountId == accountId
    && db.users[username].lastActivity.Some? && db.users[username].lastActivity.value >= since
  }

  /** No step but a deletion loses the user, and none moves its stored activity back. */
  lemma ActivityNeverGoesBack(db: Db, step: Step, db': Db, username: string, accountId: string, since: int)
    requires Next(db, step, db') && ActiveSince(db, username, accountId, since)
    requires !Deletes(step, username, accountId)
    requires step.Sweep? ==> step.cutoff <= since
    ensures ActiveSince(db', username, accountId, since)
  {
    hide Effect;
    if step.Request? {
      if step.username == username { TouchLagsAtMostDebounce(db.users[username].lastActivity, step.now); }
    } else if IsDeletion(step) {
      if step.Sweep? { assert !IsInactive(db, accountId, step.cutoff); }
      DeletionStepSpares(db, step, db', username);
    } else {
      OtherStepsSpare(db, step, db', username);
    }
  }

  lemma DeletionStepSpares(db: Db, step: Step, db': Db, username: string)
    requires Next(db, step, db') && IsDeletion(step) && username in db.users
    requires !Deletes(step, username, db.users[username].accountId)
    requires step.Sweep? ==> !IsInactive(db, db.users[username].accountId, step.cutoff)
    ensures username in db'.users && db'.users[username] == db.users[username]
  {
    hide Deleting, DeletingUser, IsInactive, IsAdmin, OtherAdmin, IsAdminKey;
    if db' != db {
      match step
      case Sweep(cutoff, gone) => DeletionSpares(db, db', Inactive(db, cutoff), gone, username);
      case DeleteAccount(_, id, gone) => DeletionSpares(db, db', {id}, gone, username);
      case SelfDelete(id, gone) => DeletionSpares(db, db', {id}, gone, username);
      case ApiDeleteAccount(_, id, gone) => DeletionSpares(db, db', {id}, gone, username);
      case DeleteUser(u, gone) => UserDeletionSpares(db, db', u, gone, username);
    }
  }

  lemma OtherStepsSpare(db: Db, step: Step, db': Db, username: string)
    requires Next(db, step, db') && username in db.users
    requires !step.Request? && !IsDeletion(step)
    ensures username in db'.users && db'.users[username] == db.users[username]
  {
    hide Updated, IsAdmin, OtherAdmin, NameFree, RoleOf, SomeSaved, OthersKept;
    hide Sync.Handle, Eps.UpsertAll, Eps.Retained;
    if step.UpdateAccount? && db' != db {
      var mid :| Updated(db, mid, db', step.id, step.username, step.role);
      UpdateKeepsRows(db, mid, db', step.id, step.username, step.role);
    }
  }

  lemma UserDeletionSpares(db: Db, db': Db, deleted: string, gone: Gone, username: string)
    requires DeletingUser(db, db', deleted, gone) && username != deleted && username in db.users
    ensures username in db'.users && db'.users[username] == db.users[username]
  {
  }

  lemma DeletionSpares(db: Db, db': Db, ids: set<string>, gone: Gone, username: string)
    requires Deleting(db, db', ids, gone)
    requires username in db.users && db.users[username].accountId !in ids
    ensures username in db'.users && db'.users[username] == db.users[username]
  {
  }

  lemma {:induction false} ActiveThroughRun(run: Run, start: Db, from: nat, to: nat, username: string,
                                            accountId: string, since: int)
    requires IsRun(run, start) && from <= to < |run.states|
    requires ActiveSince(run.states[from], username, accountId, since)
    requires forall i :: from <= i < to ==> !Deletes(run.steps[i], username, accountId)
    requires forall i :: from <= i < to && run.steps[i].Sweep? ==> run.steps[i].cutoff <= since
    ensures ActiveSince(run.states[to], username, accountId, since)
  {
    if from < to {
      ActiveThroughRun(run, start, from, to - 1, username, accountId, since);
      ActivityNeverGoesBack(run.states[to - 1], run.steps[to - 1], run.states[to], username, accountId, since);
    }
  }

  /**
   The sweep spares the active: if a request of a user at clock `now` was recorded, then through any
   further steps, whatever their clocks, that contain no deletion of the user and no sweep whose
   cutoff is within 59 s of the request, the user and its account are still there, and the stored
   activity is at most 60 s behind that request.
   */
  lemma SweepSpares(run: Run, settings: map<string, string>, request: nat, later: nat, username: string, now: int)
    requires IsRun(run, Empty(settings)) && request < later < |run.states|
    requires run.steps[request] == Request(username, now, true)
    requires username in run.states[request].users
    requires forall i :: request < i < later ==>
               !Deletes(run.steps[i], username, run.states[request].users[username].accountId)
    requires forall i :: request < i < later && run.steps[i].Sweep? ==> now > (run.steps[i].cutoff + 59) * NANOS
    ensures var db, accountId := run.states[later], run.states[request].users[username].accountId;
            && username in db.users && db.users[username].accountId == accountId && accountId in db.accounts
            && db.users[username].lastActivity.Some? && db.users[username].lastActivity.value * NANOS + DEBOUNCE >= now
  {
    var user := run.states[request].users[username];
    var recorded := Touched(user.lastActivity, now);
    TouchLagsAtMostDebounce(user.lastActivity, now);
    forall i | request < i < later && run.steps[i].Sweep? ensures run.steps[i].cutoff <= recorded.value {
      RequestProtectsIffPastDebounce(now, run.steps[i].cutoff);
    }
    ActiveThroughRun(run, Empty(settings), request + 1, later, username, user.accountId, recorded.value);
    RunsStayConsistent(run, settings, later);
  }

  // What the stored activity says, and whom a sweep takes.

  /** Step `i` recorded a request of the user in second `stamp`. */
  ghost predicate RecordedAt(run: Run, i: nat, username: string, stamp: int) {
    && i < |run.steps| && run.steps[i].Request? && run.steps[i].username == username && run.steps[i].stored
    && stamp * NANOS <= run.steps[i].now < (stamp + 1) * NANOS
  }

  /** A step stores no activity but the second of the request it is. */
  lemma ActivityComesFromRequest(db: Db, step: Step, db': Db, username: string)
    requires Next(db, step, db')
    requires username in db'.users && db'.users[username].lastActivity.Some?
    ensures || (username in db.users && db.users[username].lastActivity == db'.users[username].lastActivity)
            || (var stamp := db'.users[username].lastActivity.value;
                step.Request? && step.username == username && step.stored
                && stamp * NANOS <= step.now < (stamp + 1) * NANOS)
  {
    hide Effect, Touched;
    if step.Request? {
      if username in db.users { TouchedIsOldOrNow(db.users[username].lastActivity, step.now); }
    } else if IsDeletion(step) {
      JustRemoved(db, step, db');
    } else {
      OtherUsersAreOld(db, step, db', username);
    }
  }

  lemma OtherUsersAreOld(db: Db, step: Step, db': Db, username: string)
    requires Next(db, step, db') && !step.Request? && !IsDeletion(step)
    requires username in db'.users
    ensures || (username in db.users && db'.users[username] == db.users[username])
            || (step.CreateUser? && db'.users[username] == User(step.accountId, None))
  {
    hide Updated, IsAdmin, OtherAdmin, NameFree, RoleOf, SomeSaved, OthersKept;
    hide Sync.Handle, Eps.UpsertAll, Eps.Retained;
    if step.UpdateAccount? && db' != db {
      var mid :| Updated(db, mid, db', step.id, step.username, step.role);
      UpdateKeepsRows(db, mid, db', step.id, step.username, step.role);
    }
  }

  /** In every run stored activity is the second of a recorded request of the user, so never ahead of all of them. */
  lemma {:induction false} ActivityIsRecorded(run: Run, settings: map<string, string>, i: nat, username: string)
    returns (k: nat)
    requires IsRun(run, Empty(settings)) && i < |run.states|
    requires username in run.states[i].users && run.states[i].users[username].lastActivity.Some?
    ensures k < i && RecordedAt(run, k, username, run.states[i].users[username].lastActivity.value)
  {
    hide Next;
    var before, step, after := run.states[i - 1], run.steps[i - 1], run.states[i];
    ActivityComesFromRequest(before, step, after, username);
    if username in before.users && before.users[username].lastActivity == after.users[username].lastActivity {
      k := ActivityIsRecorded(run, settings, i - 1, username);
    } else {
      k := i - 1;
    }
  }

  /**
   A complete sweep takes every account but an admin's of whose present users no request at or after
   the cutoff was recorded, if any was recorded at all or the account was created before the cutoff.
   */
  lemma SweepTakesIdle(run: Run, settings: map<string, string>, sweep: nat, id: string)
    requires IsRun(run, Empty(settings)) && sweep < |run.steps| && run.steps[sweep].Sweep?
    requires run.states[sweep + 1] == WithoutAccounts(run.states[sweep], Inactive(run.states[sweep],
                                                                                  run.steps[sweep].cutoff))
    requires id in run.states[sweep].accounts && !IsAdmin(run.states[sweep], id)
    requires EverActive(run.states[sweep], id) || run.states[sweep].accounts[id].createdAt < run.steps[sweep].cutoff
    requires forall k :: 0 <= k < sweep && run.steps[k].Request? && run.steps[k].stored
                         && BelongsTo(run.states[sweep], run.steps[k].username, id) ==>
               run.steps[k].now < run.steps[sweep].cutoff * NANOS
    ensures id !in run.states[sweep + 1].accounts
  {
    hide Next;
    var db, cutoff := run.states[sweep], run.steps[sweep].cutoff;
    forall u | BelongsTo(db, u, id) && db.users[u].lastActivity.Some? ensures db.users[u].lastActivity.value < cutoff {
      var k := ActivityIsRecorded(run, settings, sweep, u);
    }
    InactiveIff(db, id, cutoff);
  }

  predicate BelongsTo(db: Db, username: string, id: string) {
    username in db.users && db.users[username].accountId == id
  }

  /** The account exists since `createdAt`, and none of its users was ever active. */
  ghost predicate Unused(db: Db, id: string, createdAt: int) {
    && id in db.accounts && db.accounts[id].createdAt == createdAt
    && forall u :: BelongsTo(db, u, id) ==> db.users[u].lastActivity.None?
  }

  predicate DeletesAccount(step: Step, id: string) {
    match step
    case DeleteAccount(_, deleted, _) => deleted == id
    case SelfDelete(deleted, _) => deleted == id
    case ApiDeleteAccount(_, deleted, _) => deleted == id
    case _ => false
  }

  lemma StaysUnused(db: Db, step: Step, db': Db, id: string, createdAt: int)
    requires Next(db, step, db') && Unused(db, id, createdAt) && !DeletesAccount(step, id)
    requires step.Sweep? ==> step.cutoff <= createdAt
    requires step.Request? && step.stored ==> !BelongsTo(db, step.username, id)
    ensures Unused(db', id, createdAt)
  {
    hide Effect, IsInactive;
    if IsDeletion(step) {
      JustRemoved(db, step, db');
      if step.Sweep? {
        InactiveIff(db, id, step.cutoff);
      }
      RemovedWithin(db, step, db');
    } else if !step.Request? {
      KeepsAccount(db, step, db', id);
      forall u | BelongsTo(db', u, id) ensures db'.users[u].lastActivity.None? {
        OtherUsersAreOld(db, step, db', u);
      }
    }
  }

  /** A deletion removes no account but the one it names, a sweep none but the inactive. */
  lemma RemovedWithin(db: Db, step: Step, db': Db)
    requires Next(db, step, db') && IsDeletion(step)
    ensures forall id :: id in db.accounts && id !in db'.accounts ==>
              DeletesAccount(step, id) || (step.Sweep? && id in Inactive(db, step.cutoff))
  {
    hide RefsValid, IsInactive, IsAdmin, OtherAdmin, IsAdminKey;
  }

  lemma KeepsAccount(db: Db, step: Step, db': Db, id: string)
    requires Next(db, step, db') && !IsDeletion(step) && id in db.accounts
    ensures id in db'.accounts && db'.accounts[id].createdAt == db.accounts[id].createdAt
  {
    hide IsAdmin, OtherAdmin, NameFree, RoleOf, SomeSaved, OthersKept, Touched, Updated;
    hide Sync.Handle, Eps.UpsertAll, Eps.Retained;
    if step.UpdateAccount? && db' != db {
      var mid :| Updated(db, mid, db', step.id, step.username, step.role);
      UpdateKeepsAccount(db, mid, db', step.id, step.username, step.role, id);
    }
  }

  lemma UpdateKeepsAccount(db: Db, mid: Db, db': Db, edited: string, username: string, role: string, id: string)
    requires Updated(db, mid, db', edited, username, role) && id in db.accounts
    ensures id in db'.accounts && db'.accounts[id].createdAt == db.accounts[id].createdAt
  {
    hide NameFree, OtherAdmin;
  }

  /**
   The sweep spares the new: an account no user of which was ever active survives every sweep whose
   cutoff is not after its creation, until it is deleted or a request of one of its users recorded.
   */
  lemma {:induction false} SweepSparesUnused(run: Run, start: Db, from: nat, to: nat, id: string, createdAt: int)
    requires IsRun(run, start) && from <= to < |run.states|
    requires Unused(run.states[from], id, createdAt)
    requires forall i :: from <= i < to ==> !DeletesAccount(run.steps[i], id)
    requires forall i :: from <= i < to && run.steps[i].Sweep? ==> run.steps[i].cutoff <= createdAt
    requires forall i :: from <= i < to && run.steps[i].Request? && run.steps[i].stored ==>
               !BelongsTo(run.states[i], run.steps[i].username, id)
    ensures Unused(run.states[to], id, createdAt)
  {
    hide Next, Unused;
    if from < to {
      SweepSparesUnused(run, start, from, to - 1, id, createdAt);
      StaysUnused(run.states[to - 1], run.steps[to - 1], run.states[to], id, createdAt);
    }
  }
}
