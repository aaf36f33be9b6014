/** Account management with an admin API key: two more steps of the account lifecycle. */
module ApiKeys {
  import opened Prelude
  import opened AccountModel
  import opened AccountRuns
  import opened Pggen
  import opened StoreSql
  import opened Cascades
  import WebAccounts

  /** The key names an existing account and carries the admin role. */
  method WithAdminKey(store: SQLStore, key: string) returns (ok: bool)
    modifies store.queries`faults
    ensures Reported(ok, IsAdminKey(store.queries.Snapshot(), key), old(store.queries.faults), store.queries.faults)
    ensures store.queries.faults == old(store.queries.faults) ==>
              (ok <==> && key in store.queries.apiKeys && store.queries.apiKeys[key].role == "admin"
                       && store.queries.apiKeys[key].accountId in store.queries.accounts)
  {
    ok := store.queries.Attempt();
    ok := ok && key in store.queries.apiKeys;
    if ok {
      var acct := store.queries.GetAccountByID(store.queries.apiKeys[key].accountId);
      ok := acct.Some? && store.queries.apiKeys[key].role == ADMIN;
    }
  }

  method HandleAPICreateAccount(store: SQLStore, validName: WebAccounts.NameCheck, key: string, id: string,
                                username: string, role: string, passwordOk: bool, now: int)
    returns (done: bool)
    modifies store.queries`accounts, store.queries`faults
    ensures Next(old(store.queries.Snapshot()),
                 ApiCreateAccount(key, id, username, role, now), store.queries.Snapshot())
    ensures done ==>
              Effect(old(store.queries.Snapshot()),
                     ApiCreateAccount(key, id, username, role, now), store.queries.Snapshot())
    ensures done ==>
              && key in store.queries.apiKeys && store.queries.apiKeys[key].role == "admin"
              && store.queries.apiKeys[key].accountId in old(store.queries.accounts)
              && username != "" && validName(username) && passwordOk
              && store.queries.accounts == old(store.queries.accounts)[
                   id := Account(username, if role == "admin" then "admin" else "standard", now)]
    ensures !done ==> store.queries.Snapshot() == old(store.queries.Snapshot())
    ensures Decided(done,
                    IsAdminKey(old(store.queries.Snapshot()), key)
                    && username != "" && validName(username) && passwordOk
                    && WebAccounts.Insertable(old(store.queries.accounts), id, username),
                    old(store.queries.faults), store.queries.faults)
  {
    done := WithAdminKey(store, key);
    if !done || username == "" || !validName(username) || !passwordOk {
      return false;
    }
    var taken := store.queries.GetAccountByUsername(username);
    if taken.Some? {
      return false;
    }
    done := store.queries.CreateAccount(id, username, if role != ADMIN then STANDARD else role, now);
  }

  /** Admin accounts cannot be deleted this way. */
  method HandleAPIDeleteAccount(store: SQLStore, key: string, id: string) returns (done: bool, ghost gone: Gone)
    modifies store.queries
    ensures Next(old(store.queries.Snapshot()), ApiDeleteAccount(key, id, gone), store.queries.Snapshot())
    ensures !done ==> store.queries.Snapshot() == old(store.queries.Snapshot())
    ensures var db := old(store.queries.Snapshot());
            Decided(done, IsAdminKey(db, key) && id in db.accounts && !IsAdmin(db, id),
                    old(store.queries.faults), store.queries.faults)
    ensures done && store.queries.faults == old(store.queries.faults) ==>
              store.queries.Snapshot() == WithoutAccounts(old(store.queries.Snapshot()), {id})
  {
    hide Deleting, Removed;
    gone := NOTHING;
    done := WithAdminKey(store, key);
    if !done {
      return;
    }
    var acct := store.queries.GetAccountByID(id);
    if acct.None? || acct.value.role == ADMIN {
      done := false;
      return;
    }
    gone := DeleteAccountCascade(store, id);
  }
}
