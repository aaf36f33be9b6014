/** The background cleanup and the authentication wrapper around every sync request. */
module Server {
  import opened Prelude
  import opened AccountModel
  import opened AccountRuns
  import opened Pggen
  import opened StoreSql
  import opened Cascades
  import EpisodeHash
  import Eps = EpisodeTable
  import WebAccounts

  const SECONDS_PER_DAY := 86400

  /** Zero disables; anything else is forced into the range. */
  function Clamped(n: int, lo: int, hi: int): (days: int)
    requires lo <= hi
    ensures n == 0 ==> days == 0
    ensures n != 0 ==> lo <= days <= hi && (lo <= n ==> days <= n) && (n <= hi ==> n <= days)
  {
    if n == 0 then 0
    else
      var atLeast := if n > lo then n else lo;
      if atLeast < hi then atLeast else hi
  }

  /** The window in force; an unset setting is the default. */
  function Window(settings: map<string, string>, atoi: Atoi, key: string, default: int, lo: int, hi: int): int
    requires lo <= hi
  {
    if key in settings then Clamped(atoi(settings[key]).0, lo, hi) else default
  }

  method GetClampedSetting(store: SQLStore, atoi: Atoi, key: string, default: int, lo: int, hi: int) returns (days: int)
    requires lo <= hi
    modifies store.queries`faults
    ensures old(store.queries.faults) <= store.queries.faults
    ensures days == if store.queries.faults == old(store.queries.faults)
                    then Window(store.queries.settings, atoi, key, default, lo, hi) else default
    ensures store.queries.faults == old(store.queries.faults) && key in store.queries.settings ==>
              var n := atoi(store.queries.settings[key]).0;
              if n == 0 || lo <= n <= hi then days == n else if n < lo then days == lo else days == hi
    ensures key !in store.queries.settings ==> days == default
  {
    var value := store.queries.GetSetting(key);
    if value.None? {
      return default;
    }
    var n := atoi(value.value).0;
    if n == 0 {
      return 0;
    }
    var atLeast := if n > lo then n else lo;
    days := if atLeast < hi then atLeast else hi;
  }

  /** The episode table after a cleanup with the given window. */
  function Cleaned(episodes: Eps.Table, days: int, now: int): Eps.Table {
    if days == 0 then episodes else Eps.Retained(episodes, now - days * SECONDS_PER_DAY)
  }

  /** Removes what is older than the window, which is off or 7 to 3650 days wide, and counts it. */
  method CleanupEpisodes(store: SQLStore, atoi: Atoi, now: int) returns (days: int, removed: int)
    modifies store.queries`episodes, store.queries`faults
    ensures old(store.queries.faults) <= store.queries.faults
    ensures days == 0 || 7 <= days <= 3650
    ensures store.queries.faults == old(store.queries.faults) ==>
              days == Window(store.queries.settings, atoi, WebAccounts.EPISODE_RETENTION, 90, 7, 3650)
              && store.queries.episodes == Cleaned(old(store.queries.episodes), days, now)
    ensures store.queries.episodes == old(store.queries.episodes)
         || store.queries.episodes == Cleaned(old(store.queries.episodes), days, now)
    ensures WebAccounts.EPISODE_RETENTION !in store.queries.settings ==> days == 90
    ensures store.queries.faults == old(store.queries.faults) ==>
              var before, after := old(store.queries.episodes), store.queries.episodes;
              && Submap(after, before)
              && forall k :: k in before ==>
                   (k in after <==> days == 0 || before[k].modified >= now - days * 86400)
    ensures removed == |old(store.queries.episodes)| - |store.queries.episodes|
  {
    days := GetClampedSetting(store, atoi, WebAccounts.EPISODE_RETENTION, 90, 7, 3650);
    removed := 0;
    if days != 0 {
      var ok;
      ok, removed := store.DeleteEpisodesOlderThan(now - days * SECONDS_PER_DAY);
      removed := if ok then removed else 0;
    }
  }

  /** All accounts inactive at the cutoff gone at once, if the window is on. */
  ghost function Swept(db: Db, days: int, cutoff: int): Db {
    if days == 0 then db else WithoutAccounts(db, Inactive(db, cutoff))
  }

  /** One sweep: the accounts inactive at its start, one cascade each. */
  method CleanupInactiveAccounts(store: SQLStore, atoi: Atoi, now: int)
    returns (days: int, cutoff: int, ghost gone: Gone)
    modifies store.queries
    ensures (days == 0 || 30 <= days <= 3650) && cutoff == now - days * SECONDS_PER_DAY
    ensures old(store.queries.faults) <= store.queries.faults
    ensures days == 0 ==> store.queries.Snapshot() == old(store.queries.Snapshot())
    ensures Next(old(store.queries.Snapshot()), Sweep(cutoff, gone), store.queries.Snapshot())
    ensures store.queries.faults == old(store.queries.faults) ==>
              days == Window(old(store.queries.settings), atoi, WebAccounts.INACTIVE_ACCOUNT, 0, 30, 3650)
              && store.queries.Snapshot() == Swept(old(store.queries.Snapshot()), days, cutoff)
    ensures cutoff == now - days * 86400
    ensures store.queries.faults == old(store.queries.faults) && days != 0 ==>
              var before, after := old(store.queries.Snapshot()), store.queries.accounts;
              forall id :: id in before.accounts ==>
                (id in after <==>
                 || before.accounts[id].role == "admin"
                 || if EverActive(before, id) then ActiveFrom(before, id, cutoff)
                    else before.accounts[id].createdAt >= cutoff)
  {
    ghost var db := store.queries.Snapshot();
    hide Deleting, Removed;
    days := GetClampedSetting(store, atoi, WebAccounts.INACTIVE_ACCOUNT, 0, 30, 3650);
    cutoff := now - days * SECONDS_PER_DAY;
    gone := NOTHING;
    if days != 0 {
      gone := SweepBefore(store, cutoff);
    }
    SweptAccounts(db, cutoff);
  }

  /** A complete sweep takes exactly the accounts last seen, or if never seen created, before the cutoff. */
  lemma SweptAccounts(db: Db, cutoff: int)
    ensures var after := WithoutAccounts(db, Inactive(db, cutoff)).accounts;
            forall id :: id in db.accounts ==>
              (id in after <==>
               || db.accounts[id].role == "admin"
               || if EverActive(db, id) then ActiveFrom(db, id, cutoff) else db.accounts[id].createdAt >= cutoff)
  {
    forall id | id in db.accounts
      ensures id in WithoutAccounts(db, Inactive(db, cutoff)).accounts <==>
              || db.accounts[id].role == "admin"
              || if EverActive(db, id) then ActiveFrom(db, id, cutoff) else db.accounts[id].createdAt >= cutoff
    {
      hide EverActive, ActiveFrom, IsInactive;
      InactiveIff(db, id, cutoff);
    }
  }

  method SweepBefore(store: SQLStore, cutoff: int) returns (ghost gone: Gone)
    modifies store.queries
    ensures old(store.queries.faults) <= store.queries.faults
    ensures Next(old(store.queries.Snapshot()), Sweep(cutoff, gone), store.queries.Snapshot())
    ensures var db := old(store.queries.Snapshot());
            store.queries.faults == old(store.queries.faults) ==>
              store.queries.Snapshot() == WithoutAccounts(db, Inactive(db, cutoff))
  {
    hide Deleting, Removed;
    var ok, ids := store.queries.ListInactiveAccounts(cutoff);
    gone := NOTHING;
    if ok {
      gone := DeleteAccounts(store, ids);
    }
  }

  /** What the settings page stores takes effect as entered: the clamping never alters an accepted window. */
  lemma AcceptedWindowsTakeEffect(atoi: Atoi, form: map<string, string>,
                                  settings: map<string, string>)
    requires WebAccounts.RequestedSettings(atoi, form).Some?
    requires forall n :: 0 <= n <= 3650 ==> atoi(EpisodeHash.Decimal(n)) == (n, true)
    ensures var saved := settings + WebAccounts.RequestedSettings(atoi, form).value;
            && Some(Window(saved, atoi, WebAccounts.EPISODE_RETENTION, 90, 7, 3650))
               == WebAccounts.ParseSettingInt(atoi, WebAccounts.FormValue(form, WebAccounts.EPISODE_RETENTION))
            && Some(Window(saved, atoi, WebAccounts.INACTIVE_ACCOUNT, 0, 30, 3650))
               == WebAccounts.ParseSettingInt(atoi, WebAccounts.FormValue(form, WebAccounts.INACTIVE_ACCOUNT))
  {
    hide WebAccounts.RequestedSettings;
    var retention, inactive := WebAccounts.RequestedWindows(atoi, form);
  }

  /**
   Runs before every sync handler; `now` is in nanoseconds. Without faults an authenticated request
   is recorded; a lost activity write does not fail it.
   */
  method WithAuth(store: SQLStore, username: string, passwordOk: bool, now: int) returns (authenticated: bool)
    modifies store.queries`users, store.queries`faults
    ensures Decided(authenticated, username in old(store.queries.users) && passwordOk,
                    old(store.queries.faults), store.queries.faults)
    ensures authenticated ==> username in old(store.queries.users) && passwordOk
    ensures Next(old(store.queries.Snapshot()),
                 Request(username, now, authenticated && store.queries.faults == old(store.queries.faults)),
                 store.queries.Snapshot())
    ensures authenticated && store.queries.faults == old(store.queries.faults) ==>
              var before, after := old(store.queries.users)[username].lastActivity,
                                   store.queries.users[username].lastActivity;
              && after.Some?
              && if before.Some? && now - before.value * 1_000_000_000 <= 60 * 1_000_000_000 then after == before
                 else after.value * 1_000_000_000 <= now < (after.value + 1) * 1_000_000_000
  {
    var user := store.queries.GetUser(username);
    authenticated := user.Some? && passwordOk;
    if !authenticated {
      return;
    }
    var last := user.value.lastActivity;
    if last.None? || now - last.value * NANOS > DEBOUNCE {
      var ignored := store.queries.UpdateUserLastActivity(username, now / NANOS);
    }
  }
}
