/**
 The generated SQL statements as methods on the tables.

 Any statement may fail; it then returns false (or no rows), changes nothing and is counted in
 `faults`. SELECTs without ORDER BY return their rows in an arbitrary order. Constraints are those
 of the schema: a statement that would break a UNIQUE or REFERENCES clause fails as well, without
 being counted.
 */
module Pggen {
  import opened Prelude
  import opened AccountModel
  import Subs = SubscriptionTable
  import Eps = EpisodeTable

  datatype SinceRow = SinceRow(url: string, isDeleted: int)

  /** CASE WHEN deleted IS NULL THEN 0 ELSE 1 END. */
  function IsDeleted(r: Subs.Row): int {
    if r.deleted.None? then 0 else 1
  }

  /** An episode row as selected: its key columns and the rest. */
  datatype EpisodeRow = EpisodeRow(key: Eps.Key, row: Eps.Row)

  /** `rows` lists each selected row of the table exactly once. */
  ghost predicate Lists(rows: seq<EpisodeRow>, selected: Eps.Table) {
    && (forall i :: 0 <= i < |rows| ==> rows[i].key in selected && selected[rows[i].key] == rows[i].row)
    && (forall i, j :: 0 <= i < j < |rows| ==> rows[i].key != rows[j].key)
    && (forall k :: k in selected ==> EpisodeRow(k, selected[k]) in rows)
  }

  lemma ListedExactly(rows: seq<EpisodeRow>, selected: Eps.Table)
    requires Lists(rows, selected)
    ensures forall e :: e in rows <==> e.key in selected && selected[e.key] == e.row
    ensures NoDuplicates(rows)
  {
    forall e: EpisodeRow | e.key in selected && selected[e.key] == e.row ensures e in rows {
      assert e == EpisodeRow(e.key, selected[e.key]);
    }
  }

  /** A statement succeeds exactly when its constraints allow it and no fault occurs. */
  ghost predicate Reported(ok: bool, allowed: bool, before: nat, after: nat) {
    before <= after && (ok <==> allowed && after == before)
  }

  /** A larger operation fails only when some fault occurred on the way. */
  ghost predicate Excused(ok: bool, before: nat, after: nat) {
    before <= after && (!ok ==> before < after)
  }

  /** A request without faults is granted exactly when it is allowed. */
  ghost predicate Decided(done: bool, allowed: bool, before: nat, after: nat) {
    before <= after && (after == before ==> (done <==> allowed))
  }

  class Queries {
    var accounts: map<string, Account>
    var users: map<string, User>
    var devices: map<DeviceKey, Device>
    var subscriptions: Subs.Table
    var episodes: Eps.Table
    var apiKeys: map<string, ApiKey>
    var settings: map<string, string>

    /** How many statements failed so far for a reason other than a constraint. */
    ghost var faults: nat

    function Snapshot(): Db
      reads this
    {
      Db(accounts, users, devices, subscriptions, episodes, apiKeys, settings)
    }

    /** Every statement and every transaction boundary goes through here; any of them may fail. */
    method Attempt() returns (ok: bool)
      modifies this`faults
      ensures Reported(ok, true, old(faults), faults)
    {
      ok := *;
      if !ok {
        faults := faults + 1;
      }
    }

    // Subscriptions

    method GetSubscriptions(username: string) returns (ok: bool, urls: seq<string>)
      modifies this`faults
      ensures Reported(ok, true, old(faults), faults)
      ensures ok ==> SetOf(urls) == Subs.Active(subscriptions, username) && NoDuplicates(urls)
      ensures !ok ==> urls == []
    {
      ok := Attempt();
      urls := [];
      if ok {
        urls := Enumerate(Subs.Active(subscriptions, username));
      }
    }

    method GetSubscriptionsSince(username: string, since: int) returns (ok: bool, rows: seq<SinceRow>)
      modifies this`faults
      ensures Reported(ok, true, old(faults), faults)
      ensures ok ==> forall i, j :: 0 <= i < j < |rows| ==> rows[i].url != rows[j].url
      ensures ok ==> forall i :: 0 <= i < |rows| ==>
                var k := Subs.Key(username, rows[i].url);
                k in subscriptions && Subs.InFeed(subscriptions[k], since)
                && rows[i].isDeleted == IsDeleted(subscriptions[k])
      ensures ok ==>
                forall k :: k in subscriptions && k.username == username && Subs.InFeed(subscriptions[k], since) ==>
                  exists i :: 0 <= i < |rows| && rows[i].url == k.url
    {
      ok := Attempt();
      rows := [];
      if ok {
        var keys := Enumerate(set k | k in subscriptions && k.username == username
                                    && Subs.InFeed(subscriptions[k], since));
        assert forall j :: 0 <= j < |keys| ==> keys[j] in SetOf(keys);
        for i := 0 to |keys|
          invariant |rows| == i
          invariant forall j :: 0 <= j < i ==> rows[j] == SinceRow(keys[j].url, IsDeleted(subscriptions[keys[j]]))
        {
          rows := rows + [SinceRow(keys[i].url, IsDeleted(subscriptions[keys[i]]))];
        }
        assert forall i :: 0 <= i < |keys| ==> keys[i] == Subs.Key(username, rows[i].url);
        forall k | k in subscriptions && k.username == username && Subs.InFeed(subscriptions[k], since)
          ensures exists i :: 0 <= i < |rows| && rows[i].url == k.url
        {
          assert k in SetOf(keys);
          var i :| 0 <= i < |keys| && keys[i] == k;
          assert rows[i].url == k.url;
        }
      }
    }

    method AddSubscription(username: string, url: string, created: int) returns (ok: bool)
      modifies this`subscriptions, this`faults
      ensures Reported(ok, true, old(faults), faults)
      ensures subscriptions == if ok then Subs.AddSubscription(old(subscriptions), username, url, created)
                               else old(subscriptions)
    {
      ok := Attempt();
      if ok {
        var k := Subs.Key(username, url);
        if k in subscriptions {
          var r := subscriptions[k];
          subscriptions := subscriptions[k := Subs.Row(if r.deleted != None then created else r.created, None)];
        } else {
          subscriptions := subscriptions[k := Subs.Row(created, None)];
        }
      }
    }

    method ReactivateSubscription(created: int, username: string, url: string) returns (ok: bool)
      modifies this`subscriptions, this`faults
      ensures Reported(ok, true, old(faults), faults)
      ensures subscriptions == if ok then Subs.ReactivateSubscription(old(subscriptions), username, url, created)
                               else old(subscriptions)
    {
      ok := Attempt();
      var k := Subs.Key(username, url);
      if ok && k in subscriptions && subscriptions[k].deleted != None {
        subscriptions := subscriptions[k := Subs.Row(created, None)];
      }
    }

    method DeleteSubscription(deleted: int, username: string, url: string) returns (ok: bool)
      modifies this`subscriptions, this`faults
      ensures Reported(ok, true, old(faults), faults)
      ensures subscriptions == if ok then Subs.DeleteSubscription(old(subscriptions), username, url, deleted)
                               else old(subscriptions)
    {
      ok := Attempt();
      var k := Subs.Key(username, url);
      if ok && k in subscriptions && subscriptions[k].deleted == None {
        subscriptions := subscriptions[k := subscriptions[k].(deleted := Some(deleted))];
      }
    }

    method DeleteAllUserSubscriptions(username: string) returns (ok: bool)
      modifies this`subscriptions, this`faults
      ensures Reported(ok, true, old(faults), faults)
      ensures !ok ==> subscriptions == old(subscriptions)
      ensures ok ==> subscriptions == Subs.WithoutUsers(old(subscriptions), {username})
    {
      ok := Attempt();
      if ok {
        subscriptions := map k | k in subscriptions && k.username != username :: subscriptions[k];
      }
    }

    // Episodes

    /** The rows a WHERE clause selects. */
    method SelectEpisodes(selected: Eps.Table) returns (rows: seq<EpisodeRow>)
      ensures Lists(rows, selected)
    {
      rows := [];
      var keys := Enumerate(selected.Keys);
      assert forall i :: 0 <= i < |keys| ==> keys[i] in SetOf(keys);
      for i := 0 to |keys|
        invariant |rows| == i && forall j :: 0 <= j < i ==> rows[j] == EpisodeRow(keys[j], selected[keys[j]])
      {
        rows := rows + [EpisodeRow(keys[i], selected[keys[i]])];
      }
      forall k | k in selected ensures EpisodeRow(k, selected[k]) in rows {
        assert k in SetOf(keys);
        var i :| 0 <= i < |keys| && keys[i] == k;
        assert rows[i] == EpisodeRow(k, selected[k]);
      }
    }

    method GetEpisodes(username: string, since: int) returns (ok: bool, rows: seq<EpisodeRow>)
      modifies this`faults
      ensures Reported(ok, true, old(faults), faults)
      ensures ok ==> Lists(rows, map k | k in episodes && k.username == username
                                         && episodes[k].modified >= since :: episodes[k])
    {
      ok := Attempt();
      rows := [];
      if ok {
        rows := SelectEpisodes(map k | k in episodes && k.username == username
                                       && episodes[k].modified >= since :: episodes[k]);
      }
    }

    method GetEpisodesByPodcast(username: string, podcast: string, since: int) returns (ok: bool, rows: seq<EpisodeRow>)
      modifies this`faults
      ensures Reported(ok, true, old(faults), faults)
      ensures ok ==> Lists(rows, map k | k in episodes && k.username == username && k.podcast == podcast
                                         && episodes[k].modified >= since :: episodes[k])
    {
      ok := Attempt();
      rows := [];
      if ok {
        rows := SelectEpisodes(map k | k in episodes && k.username == username && k.podcast == podcast
                                       && episodes[k].modified >= since :: episodes[k]);
      }
    }

    /** `device = $2` is not satisfied by a NULL device. */
    method GetEpisodesByDevice(username: string, device: string, since: int) returns (ok: bool, rows: seq<EpisodeRow>)
      modifies this`faults
      ensures Reported(ok, true, old(faults), faults)
      ensures ok ==> Lists(rows, map k | k in episodes && k.username == username && episodes[k].device == Some(device)
                                         && episodes[k].modified >= since :: episodes[k])
    {
      ok := Attempt();
      rows := [];
      if ok {
        rows := SelectEpisodes(map k | k in episodes && k.username == username && episodes[k].device == Some(device)
                                       && episodes[k].modified >= since :: episodes[k]);
      }
    }

    method GetEpisodesByPodcastAndDevice(username: string, podcast: string, device: string, since: int)
      returns (ok: bool, rows: seq<EpisodeRow>)
      modifies this`faults
      ensures Reported(ok, true, old(faults), faults)
      ensures ok ==> Lists(rows, map k | k in episodes && k.username == username && k.podcast == podcast
                                         && episodes[k].device == Some(device)
                                         && episodes[k].modified >= since :: episodes[k])
    {
      ok := Attempt();
      rows := [];
      if ok {
        rows := SelectEpisodes(map k | k in episodes && k.username == username && k.podcast == podcast
                                       && episodes[k].device == Some(device)
                                       && episodes[k].modified >= since :: episodes[k]);
      }
    }

    method UpsertEpisode(k: Eps.Key, row: Eps.Row) returns (ok: bool)
      modifies this`episodes, this`faults
      ensures Reported(ok, true, old(faults), faults)
      ensures episodes == if !ok || (k in old(episodes) && old(episodes)[k].hash == row.hash) then old(episodes)
                          else old(episodes)[k := row]
    {
      ok := Attempt();
      if ok && (k !in episodes || row.hash != episodes[k].hash) {
        episodes := episodes[k := row];
      }
    }

    method DeleteAllUserEpisodes(username: string) returns (ok: bool)
      modifies this`episodes, this`faults
      ensures Reported(ok, true, old(faults), faults)
      ensures !ok ==> episodes == old(episodes)
      ensures ok ==> episodes == Eps.WithoutUsers(old(episodes), {username})
    {
      ok := Attempt();
      if ok {
        episodes := map k | k in episodes && k.username != username :: episodes[k];
      }
    }

    /** Also returns the number of rows removed. */
    method DeleteEpisodesOlderThan(cutoff: int) returns (ok: bool, removed: int)
      modifies this`episodes, this`faults
      ensures Reported(ok, true, old(faults), faults)
      ensures !ok ==> episodes == old(episodes)
      ensures ok ==> episodes == Eps.Retained(old(episodes), cutoff)
      ensures ok ==> removed == |set k | k in old(episodes) && old(episodes)[k].modified < cutoff|
    {
      ok := Attempt();
      removed := 0;
      if ok {
        removed := |set k | k in episodes && episodes[k].modified < cutoff|;
        episodes := map k | k in episodes && episodes[k].modified >= cutoff :: episodes[k];
      }
    }

    // Devices

    method CreateDevice(id: string, username: string, caption: Option<string>, kind: string) returns (ok: bool)
      modifies this`devices, this`faults
      ensures Reported(ok, true, old(faults), faults)
      ensures devices == if !ok || DeviceKey(id, username) in old(devices) then old(devices)
                         else old(devices)[DeviceKey(id, username) := Device(caption, kind, None)]
    {
      ok := Attempt();
      if ok && DeviceKey(id, username) !in devices {
        devices := devices[DeviceKey(id, username) := Device(caption, kind, None)];
      }
    }

    method DeleteAllUserDevices(username: string) returns (ok: bool)
      modifies this`devices, this`faults
      ensures Reported(ok, true, old(faults), faults)
      ensures !ok ==> devices == old(devices)
      ensures ok ==> devices == map d | d in old(devices) && d.username != username :: old(devices)[d]
    {
      ok := Attempt();
      if ok {
        devices := map d | d in devices && d.username != username :: devices[d];
      }
    }

    // Users

    method GetUser(username: string) returns (user: Option<User>)
      modifies this`faults
      ensures old(faults) <= faults
      ensures user == if faults == old(faults) && username in users then Some(users[username]) else None
    {
      var ok := Attempt();
      user := if ok && username in users then Some(users[username]) else None;
    }

    method CreateUser(username: string, accountId: string) returns (ok: bool)
      modifies this`users, this`faults
      ensures Reported(ok, username !in old(users) && accountId in accounts, old(faults), faults)
      ensures users == if ok then old(users)[username := User(accountId, None)] else old(users)
    {
      ok := Attempt();
      ok := ok && username !in users && accountId in accounts;
      if ok {
        users := users[username := User(accountId, None)];
      }
    }

    method UpdateUserLastActivity(username: string, t: int) returns (ok: bool)
      modifies this`users, this`faults
      ensures Reported(ok, true, old(faults), faults)
      ensures users == if ok && username in old(users)
                       then old(users)[username := old(users)[username].(lastActivity := Some(t))]
                       else old(users)
    {
      ok := Attempt();
      if ok && username in users {
        users := users[username := users[username].(lastActivity := Some(t))];
      }
    }

    method ListUsersByAccount(accountId: string) returns (ok: bool, names: seq<string>)
      modifies this`faults
      ensures Reported(ok, true, old(faults), faults)
      ensures ok ==> SetOf(names) == UsersOf(Snapshot(), {accountId}) && NoDuplicates(names)
      ensures !ok ==> names == []
    {
      ok := Attempt();
      names := [];
      if ok {
        names := Enumerate(set u | u in users && users[u].accountId == accountId);
      }
    }

    method DeleteUser(username: string) returns (ok: bool)
      modifies this`users, this`faults
      ensures Reported(ok, true, old(faults), faults)
      ensures !ok ==> users == old(users)
      ensures ok ==> users == map u | u in old(users) && u != username :: old(users)[u]
    {
      ok := Attempt();
      if ok {
        users := map u | u in users && u != username :: users[u];
      }
    }

    // Accounts

    method CountAccounts() returns (ok: bool, count: int)
      modifies this`faults
      ensures Reported(ok, true, old(faults), faults)
      ensures ok ==> count == |accounts|
      ensures !ok ==> count == 0
    {
      ok := Attempt();
      count := if ok then |accounts| else 0;
    }

    method GetAccountByID(id: string) returns (account: Option<Account>)
      modifies this`faults
      ensures old(faults) <= faults
      ensures account == if faults == old(faults) && id in accounts then Some(accounts[id]) else None
    {
      var ok := Attempt();
      account := if ok && id in accounts then Some(accounts[id]) else None;
    }

    method GetAccountByUsername(username: string) returns (id: Option<string>)
      modifies this`faults
      ensures old(faults) <= faults
      ensures id.Some? ==> id.value in accounts && accounts[id.value].username == username
      ensures id.None? && faults == old(faults) ==> forall a :: a in accounts ==> accounts[a].username != username
    {
      id := None;
      var ids := Enumerate(set a | a in accounts && accounts[a].username == username);
      var ok := Attempt();
      if ok && ids != [] {
        assert ids[0] in SetOf(ids);
        id := Some(ids[0]);
      }
      forall a | ids == [] && a in accounts ensures accounts[a].username != username {
        assert a !in SetOf(ids);
      }
    }

    method CreateAccount(id: string, username: string, role: string, createdAt: int) returns (ok: bool)
      modifies this`accounts, this`faults
      ensures Reported(ok, id !in old(accounts) && NameFree(old(accounts), id, username), old(faults), faults)
      ensures accounts == if ok then old(accounts)[id := Account(username, role, createdAt)] else old(accounts)
      ensures !ok && faults == old(faults) ==>
                id in old(accounts) || exists a :: a in old(accounts) && old(accounts)[a].username == username
    {
      ok := Attempt();
      ok := ok && id !in accounts
        && forall other :: other in accounts && other != id ==> accounts[other].username != username;
      if ok {
        accounts := accounts[id := Account(username, role, createdAt)];
      }
    }

    method UpdateAccountUsername(username: string, id: string) returns (ok: bool)
      modifies this`accounts, this`faults
      ensures Reported(ok, id in old(accounts) ==> NameFree(old(accounts), id, username), old(faults), faults)
      ensures accounts == if ok && id in old(accounts)
                          then old(accounts)[id := old(accounts)[id].(username := username)]
                          else old(accounts)
      ensures !ok && faults == old(faults) ==>
                exists a :: a in old(accounts) && a != id && old(accounts)[a].username == username
    {
      ok := Attempt();
      if id in accounts {
        ok := ok && forall other :: other in accounts && other != id ==> accounts[other].username != username;
        if ok {
          accounts := accounts[id := accounts[id].(username := username)];
        }
      }
    }

    method UpdateAccountRole(role: string, id: string) returns (ok: bool)
      modifies this`accounts, this`faults
      ensures Reported(ok, true, old(faults), faults)
      ensures accounts == if ok && id in old(accounts) then old(accounts)[id := old(accounts)[id].(role := role)]
                          else old(accounts)
    {
      ok := Attempt();
      if ok && id in accounts {
        accounts := accounts[id := accounts[id].(role := role)];
      }
    }

    method ListAccounts() returns (ok: bool, ids: seq<string>)
      modifies this`faults
      ensures Reported(ok, true, old(faults), faults)
      ensures ok ==> SetOf(ids) == accounts.Keys
    {
      ok := Attempt();
      ids := [];
      if ok {
        ids := Enumerate(accounts.Keys);
      }
    }

    /** Refused while a user or an API key refers to the account. */
    method DeleteAccount(id: string) returns (ok: bool)
      modifies this`accounts, this`faults
      ensures Reported(ok, Unreferenced(Snapshot(), id), old(faults), faults)
      ensures ok ==> accounts == map a | a in old(accounts) && a != id :: old(accounts)[a]
      ensures !ok ==> accounts == old(accounts)
    {
      ok := Attempt();
      ok := ok && (forall u :: u in users ==> users[u].accountId != id)
        && (forall k :: k in apiKeys ==> apiKeys[k].accountId != id);
      if ok {
        accounts := map a | a in accounts && a != id :: accounts[a];
      }
    }

    /** MAX(last_activity) over an account's users; NULL when none is recorded. */
    method MaxActivity(id: string) returns (max: Option<int>)
      ensures forall u :: u in users && users[u].accountId == id && users[u].lastActivity.Some? ==>
                max.Some? && users[u].lastActivity.value <= max.value
      ensures max.Some? ==> exists u :: u in users && users[u].accountId == id && users[u].lastActivity == max
    {
      max := None;
      var names := Enumerate(users.Keys);
      for i := 0 to |names|
        invariant forall j :: 0 <= j < i && names[j] in users && users[names[j]].accountId == id
                              && users[names[j]].lastActivity.Some? ==>
                    max.Some? && users[names[j]].lastActivity.value <= max.value
        invariant max.Some? ==> exists u :: u in users && users[u].accountId == id && users[u].lastActivity == max
      {
        assert names[i] in SetOf(names);
        var u := users[names[i]];
        if u.accountId == id {
          max := MaxStamp(max, u.lastActivity);
        }
      }
      forall u | u in users && users[u].accountId == id && users[u].lastActivity.Some?
        ensures max.Some? && users[u].lastActivity.value <= max.value
      {
        assert u in SetOf(names);
      }
    }

    method ListInactiveAccounts(cutoff: int) returns (ok: bool, ids: seq<string>)
      modifies this`faults
      ensures Reported(ok, true, old(faults), faults)
      ensures ok ==> SetOf(ids) == Inactive(Snapshot(), cutoff)
      ensures ok ==> forall id :: id in ids <==>
                && id in accounts && accounts[id].role != "admin"
                && if EverActive(Snapshot(), id) then !ActiveFrom(Snapshot(), id, cutoff)
                   else accounts[id].createdAt < cutoff
    {
      ok := Attempt();
      ids := [];
      if ok {
        var all := Enumerate(accounts.Keys);
        for i := 0 to |all|
          invariant faults == old(faults)
          invariant forall id :: id in ids <==> id in all[..i] && IsInactive(Snapshot(), id, cutoff)
        {
          var id := all[i];
          assert id in SetOf(all);
          var max := MaxActivity(id);
          var last := if max.Some? then max.value else accounts[id].createdAt;
          var inactive := accounts[id].role != ADMIN && last < cutoff;
          assert inactive <==> IsInactive(Snapshot(), id, cutoff);
          assert all[..i + 1] == all[..i] + [id];
          if inactive {
            ids := ids + [id];
          }
        }
        assert all[..|all|] == all;
        forall id ensures id in SetOf(ids) <==> id in Inactive(Snapshot(), cutoff) {
          assert id in SetOf(all) <==> id in accounts;
        }
        forall id | id in accounts
          ensures id in ids <==> && accounts[id].role != "admin"
                                 && if EverActive(Snapshot(), id) then !ActiveFrom(Snapshot(), id, cutoff)
                                    else accounts[id].createdAt < cutoff
        {
          InactiveIff(Snapshot(), id, cutoff);
          assert id in SetOf(ids) <==> id in ids;
        }
        forall id | id in ids ensures id in accounts {
          assert id in SetOf(ids);
        }
      }
    }

    // API keys

    method CreateAPIKey(id: string, key: ApiKey) returns (ok: bool)
      modifies this`apiKeys, this`faults
      ensures Reported(ok, id !in old(apiKeys) && key.accountId in accounts, old(faults), faults)
      ensures apiKeys == if ok then old(apiKeys)[id := key] else old(apiKeys)
    {
      ok := Attempt();
      ok := ok && id !in apiKeys && key.accountId in accounts;
      if ok {
        apiKeys := apiKeys[id := key];
      }
    }

    method DeleteAPIKey(id: string, accountId: string) returns (ok: bool)
      modifies this`apiKeys, this`faults
      ensures Reported(ok, true, old(faults), faults)
      ensures apiKeys == if ok && id in old(apiKeys) && old(apiKeys)[id].accountId == accountId then old(apiKeys) - {id}
                         else old(apiKeys)
    {
      ok := Attempt();
      if ok && id in apiKeys && apiKeys[id].accountId == accountId {
        apiKeys := apiKeys - {id};
      }
    }

    method DeleteAPIKeysByAccount(accountId: string) returns (ok: bool)
      modifies this`apiKeys, this`faults
      ensures Reported(ok, true, old(faults), faults)
      ensures !ok ==> apiKeys == old(apiKeys)
      ensures ok ==> apiKeys == map k | k in old(apiKeys) && old(apiKeys)[k].accountId != accountId :: old(apiKeys)[k]
    {
      ok := Attempt();
      if ok {
        apiKeys := map k | k in apiKeys && apiKeys[k].accountId != accountId :: apiKeys[k];
      }
    }

    // Settings

    /** None when the setting is unset or cannot be read. */
    method GetSetting(key: string) returns (value: Option<string>)
      modifies this`faults
      ensures old(faults) <= faults
      ensures value == if faults == old(faults) && key in settings then Some(settings[key]) else None
    {
      var ok := Attempt();
      value := if ok && key in settings then Some(settings[key]) else None;
    }

    method UpsertSetting(key: string, value: string) returns (ok: bool)
      modifies this`settings, this`faults
      ensures Reported(ok, true, old(faults), faults)
      ensures settings == if ok then old(settings)[key := value] else old(settings)
    {
      ok := Attempt();
      if ok {
        settings := settings[key := value];
      }
    }
  }
}
