/**
 Deleting users and accounts table by table, and the inactivity sweep. The loops ignore the errors
 of single statements; when none occurred the result is exact.
 */
module Cascades {
  import opened Prelude
  import opened AccountModel
  import opened StoreSql
  import Pggen
  import SubscriptionSync
  import Subs = SubscriptionTable
  import Eps = EpisodeTable

  /** `gone` says which of the four statements succeeded. */
  method DeleteUserCascade(store: SQLStore, username: string) returns (ghost gone: Gone)
    modifies store.queries`episodes, store.queries`subscriptions, store.queries`devices, store.queries`users,
             store.queries`faults
    ensures old(store.queries.faults) <= store.queries.faults
    ensures DeletingUser(old(store.queries.Snapshot()), store.queries.Snapshot(), username, gone)
    ensures store.queries.faults == old(store.queries.faults) ==>
              gone == WholeUsers({username})
              && store.queries.Snapshot() == WithoutUsers(old(store.queries.Snapshot()), {username})
    ensures OwnersExist(old(store.queries.Snapshot())) ==>
              (OwnersExist(store.queries.Snapshot()) <==> RowsFollowUsers(old(store.queries.Snapshot()), gone))
  {
    hide DeletingUser, Removed, OwnersExist, RowsFollowUsers;
    var q := store.queries;
    var e := q.DeleteAllUserEpisodes(username);
    var s := q.DeleteAllUserSubscriptions(username);
    var d := q.DeleteAllUserDevices(username);
    var u := q.DeleteUser(username);
    gone := UserStatements(username, e, s, d, u);
    UserTablesGone(old(q.Snapshot()), q.Snapshot(), username, e, s, d, u);
    if OwnersExist(old(q.Snapshot())) {
      OwnersStayIffRowsFollow(old(q.Snapshot()), gone);
    }
  }

  /** The effect of the statements that succeeded on episodes, subscriptions, devices and the user. */
  function UserStatements(username: string, e: bool, s: bool, d: bool, u: bool): Gone {
    Gone(if e then {username} else {}, if s then {username} else {}, if d then {username} else {},
         if u then {username} else {}, {}, {})
  }

  lemma UserTablesGone(db: Db, db': Db, username: string, e: bool, s: bool, d: bool, u: bool)
    requires db'.accounts == db.accounts && db'.apiKeys == db.apiKeys && db'.settings == db.settings
    requires db'.episodes == if e then Eps.WithoutUsers(db.episodes, {username}) else db.episodes
    requires db'.subscriptions == if s then Subs.WithoutUsers(db.subscriptions, {username}) else db.subscriptions
    requires db'.devices
          == if d then (map k | k in db.devices && k.username != username :: db.devices[k]) else db.devices
    requires db'.users == if u then (map k | k in db.users && k != username :: db.users[k]) else db.users
    ensures db' == Removed(db, UserStatements(username, e, s, d, u))
    ensures DeletingUser(db, db', username, UserStatements(username, e, s, d, u))
  {
    var expected := Removed(db, UserStatements(username, e, s, d, u));
    assert db'.episodes == expected.episodes;
    assert db'.subscriptions == expected.subscriptions;
    assert db'.devices == expected.devices;
    assert db'.users == expected.users;
    assert db'.accounts == expected.accounts;
    assert db'.apiKeys == expected.apiKeys;
  }

  /** The keys go before the account, which the REFERENCES clauses would otherwise keep. */
  method DeleteAccountCascade(store: SQLStore, accountId: string) returns (ghost gone: Gone)
    modifies store.queries
    ensures old(store.queries.faults) <= store.queries.faults
    ensures Deleting(old(store.queries.Snapshot()), store.queries.Snapshot(), {accountId}, gone)
    ensures store.queries.faults == old(store.queries.faults) ==>
              gone == WholeAccounts(old(store.queries.Snapshot()), {accountId})
              && store.queries.Snapshot() == WithoutAccounts(old(store.queries.Snapshot()), {accountId})
    ensures OwnersExist(old(store.queries.Snapshot())) ==>
              (OwnersExist(store.queries.Snapshot()) <==> RowsFollowUsers(old(store.queries.Snapshot()), gone))
  {
    hide Deleting, Removed, Unreferenced, OwnersExist, RowsFollowUsers;
    var q := store.queries;
    ghost var db := q.Snapshot();
    var listed, names := q.ListUsersByAccount(accountId);
    NothingGone(db);
    gone := NOTHING;
    assert SetOf(names[..0]) == {};
    for i := 0 to |names|
      invariant old(q.faults) <= q.faults
      invariant Within(gone, WholeUsers(SetOf(names[..i]))) && q.Snapshot() == Removed(db, gone)
      invariant q.faults == old(q.faults) ==> listed && gone == WholeUsers(SetOf(names[..i]))
    {
      ghost var one := DeleteUserCascade(store, names[i]);
      assert SetOf(names[..i + 1]) == SetOf(names[..i]) + {names[i]};
      RemovedTwice(db, gone, one);
      gone := Both(gone, one);
    }
    assert names[..|names|] == names;
    ghost var usersGone := gone;
    assert SetOf(names) <= UsersOf(db, {accountId});
    var k := q.DeleteAPIKeysByAccount(accountId);
    ghost var keysGone := q.Snapshot();
    var a := q.DeleteAccount(accountId);
    gone := usersGone.(keys := if k then {accountId} else {}, accounts := if a then {accountId} else {});
    AccountRowsGone(db, usersGone, q.Snapshot(), accountId, k, a);
    if q.faults == old(q.faults) {
      NothingRefersAnymore(db, usersGone, keysGone, accountId);
      assert gone == WholeAccounts(db, {accountId});
    }
    if OwnersExist(db) {
      OwnersStayIffRowsFollow(db, gone);
    }
  }

  lemma NothingRefersAnymore(db: Db, usersGone: Gone, mid: Db, accountId: string)
    requires usersGone == WholeUsers(UsersOf(db, {accountId})) && mid.users == Removed(db, usersGone).users
    requires var keys := Removed(db, usersGone).apiKeys;
             mid.apiKeys == map k | k in keys && keys[k].accountId != accountId :: keys[k]
    ensures Unreferenced(mid, accountId)
  {
  }

  lemma NothingGone(db: Db)
    ensures Removed(db, NOTHING) == db
    ensures Deleting(db, db, {}, NOTHING) && WholeAccounts(db, {}) == NOTHING
  {
  }

  lemma AccountRowsGone(db: Db, gone: Gone, db': Db, accountId: string, k: bool, a: bool)
    requires Within(gone, WholeUsers(UsersOf(db, {accountId})))
    requires var mid := Removed(db, gone);
             && db' == mid.(accounts := db'.accounts, apiKeys := db'.apiKeys)
             && (db'.apiKeys
                 == if k then (map x | x in mid.apiKeys && mid.apiKeys[x].accountId != accountId :: mid.apiKeys[x])
                    else mid.apiKeys)
             && (db'.accounts == if a then (map x | x in mid.accounts && x != accountId :: mid.accounts[x])
                                 else mid.accounts)
    requires a ==> Unreferenced(db', accountId)
    ensures var all := gone.(keys := if k then {accountId} else {}, accounts := if a then {accountId} else {});
            Deleting(db, db', {accountId}, all) && db' == Removed(db, all)
  {
    var all := gone.(keys := if k then {accountId} else {}, accounts := if a then {accountId} else {});
    var expected := Removed(db, all);
    assert db'.accounts == expected.accounts;
    assert db'.apiKeys == expected.apiKeys;
  }

  /** Accounts one after the other. */
  method DeleteAccounts(store: SQLStore, ids: seq<string>) returns (ghost gone: Gone)
    modifies store.queries
    ensures old(store.queries.faults) <= store.queries.faults
    ensures Deleting(old(store.queries.Snapshot()), store.queries.Snapshot(), SetOf(ids), gone)
    ensures store.queries.faults == old(store.queries.faults) ==>
              store.queries.Snapshot() == WithoutAccounts(old(store.queries.Snapshot()), SetOf(ids))
  {
    hide Deleting, Removed;
    var q := store.queries;
    ghost var db := q.Snapshot();
    NothingGone(db);
    gone := NOTHING;
    assert SetOf(ids[..0]) == {};
    for i := 0 to |ids|
      invariant old(q.faults) <= q.faults
      invariant Deleting(db, q.Snapshot(), SetOf(ids[..i]), gone)
      invariant q.faults == old(q.faults) ==> q.Snapshot() == WithoutAccounts(db, SetOf(ids[..i]))
    {
      ghost var before := q.Snapshot();
      ghost var one := DeleteAccountCascade(store, ids[i]);
      assert SetOf(ids[..i + 1]) == SetOf(ids[..i]) + {ids[i]};
      DeletionsCompose(db, before, q.Snapshot(), SetOf(ids[..i]), {ids[i]}, gone, one);
      CascadesCompose(db, SetOf(ids[..i]), {ids[i]});
      gone := Both(gone, one);
    }
    assert ids[..|ids|] == ids;
  }

  // What clients and later users see of a deletion.

  /**
   Deleting a user is never announced: a pull afterwards leaves the replica as it is, which is right
   only if the client held nothing.
   */
  lemma DeletedUserIsNotAnnounced(db: Db, names: set<string>, id: ClientId,
                                  c: SubscriptionSync.Client, now: int)
    requires id.username in names
    ensures var t := WithoutUsers(db, names).subscriptions;
            var replica := SubscriptionSync.PullInto(t, id, c, now).replica;
            replica == c.replica && (replica == Subs.Active(t, id.username) <==> c.replica == {})
  {
    var t := WithoutUsers(db, names).subscriptions;
    assert Subs.FeedAdd(t, id.username, c.token) == {} && Subs.FeedRemove(t, id.username, c.token) == {};
    assert Subs.Active(t, id.username) == {};
  }
}
