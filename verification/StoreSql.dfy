/**
 The store: transactions and loops over the SQL statements.

 A transaction may fail to begin, at any statement or at its commit; it then restores what it
 started from. Each write is proved to compute, on success, the one-step meaning of the request.
 */
module StoreSql {
  import opened Prelude
  import opened Pggen
  import Subs = SubscriptionTable
  import Eps = EpisodeTable
  import opened AccountModel
  import EpisodeHash
  import EpisodeSync

  const EPISODE_BATCH_SIZE := 500

  /** In order and with repetitions: what to add and what to remove to get from one list to the other. */
  method DiffSubscriptions(existing: seq<string>, desired: seq<string>) returns (add: seq<string>, remove: seq<string>)
    ensures add == Without(desired, SetOf(existing)) && remove == Without(existing, SetOf(desired))
  {
    var existingSet, desiredSet := {}, {};
    for i := 0 to |existing|
      invariant existingSet == SetOf(existing[..i])
    {
      existingSet := existingSet + {existing[i]};
      assert existing[..i + 1] == existing[..i] + [existing[i]];
    }
    for i := 0 to |desired|
      invariant desiredSet == SetOf(desired[..i])
    {
      desiredSet := desiredSet + {desired[i]};
      assert desired[..i + 1] == desired[..i] + [desired[i]];
    }
    assert existing[..|existing|] == existing && desired[..|desired|] == desired;
    add, remove := [], [];
    for i := 0 to |desired|
      invariant add == Without(desired[..i], SetOf(existing))
    {
      assert desired[..i + 1][..i] == desired[..i];
      if desired[i] !in existingSet {
        add := add + [desired[i]];
      }
    }
    for i := 0 to |existing|
      invariant remove == Without(existing[..i], SetOf(desired))
    {
      assert existing[..i + 1][..i] == existing[..i];
      if existing[i] !in desiredSet {
        remove := remove + [existing[i]];
      }
    }
  }

  /** At most the one device was added; every other row is as it was. */
  ghost predicate Registered(before: map<DeviceKey, Device>, after: map<DeviceKey, Device>, username: string,
                             id: string) {
    || after == before
    || (DeviceKey(id, username) !in before
        && after == before[DeviceKey(id, username) := Device(None, "other", None)])
  }

  class SQLStore {
    const queries: Queries
    /** The digest of a printed episode action. */
    const sha: string -> string

    constructor (queries: Queries, sha: string -> string)
      ensures this.queries == queries && this.sha == sha
    {
      this.queries := queries;
      this.sha := sha;
    }

    // Subscriptions

    /** The feed, split by status: each changed URL once, on exactly one side. */
    method GetSubscriptionChanges(username: string, since: int)
      returns (ok: bool, add: seq<string>, remove: seq<string>)
      modifies queries`faults
      ensures Reported(ok, true, old(queries.faults), queries.faults)
      ensures ok ==> SetOf(add) == Subs.FeedAdd(queries.subscriptions, username, since)
      ensures ok ==> SetOf(remove) == Subs.FeedRemove(queries.subscriptions, username, since)
      ensures NoDuplicates(add + remove)
    {
      var rows;
      ok, rows := queries.GetSubscriptionsSince(username, since);
      add, remove := [], [];
      if !ok {
        return;
      }
      for n := 0 to |rows|
        invariant forall url :: url in add <==> exists i :: 0 <= i < n && rows[i].url == url && rows[i].isDeleted != 1
        invariant forall url :: url in remove <==>
                    exists i :: 0 <= i < n && rows[i].url == url && rows[i].isDeleted == 1
        invariant NoDuplicates(add) && NoDuplicates(remove) && forall url :: url in add ==> url !in remove
      {
        assert forall i :: 0 <= i < n ==> rows[i].url != rows[n].url;
        assert rows[n].url !in add && rows[n].url !in remove;
        if rows[n].isDeleted == 1 {
          remove := remove + [rows[n].url];
        } else {
          add := add + [rows[n].url];
        }
      }
      ConcatNoDuplicates(add, remove);
      FeedSides(rows, username, since, add, remove);
    }

    lemma FeedSides(rows: seq<SinceRow>, username: string, since: int, add: seq<string>, remove: seq<string>)
      requires forall i :: 0 <= i < |rows| ==>
                 var k := Subs.Key(username, rows[i].url);
                 k in queries.subscriptions && Subs.InFeed(queries.subscriptions[k], since)
                 && rows[i].isDeleted == IsDeleted(queries.subscriptions[k])
      requires forall k :: k in queries.subscriptions && k.username == username
                                && Subs.InFeed(queries.subscriptions[k], since) ==>
                 exists i :: 0 <= i < |rows| && rows[i].url == k.url
      requires forall url :: url in add <==> exists i :: 0 <= i < |rows| && rows[i].url == url && rows[i].isDeleted != 1
      requires forall url :: url in remove <==>
                 exists i :: 0 <= i < |rows| && rows[i].url == url && rows[i].isDeleted == 1
      ensures SetOf(add) == Subs.FeedAdd(queries.subscriptions, username, since)
      ensures SetOf(remove) == Subs.FeedRemove(queries.subscriptions, username, since)
    {
    }

    method ApplySubscriptionChanges(username: string, add: seq<string>, remove: seq<string>, timestamp: int)
      returns (ok: bool)
      modifies queries`subscriptions, queries`faults
      ensures Reported(ok, true, old(queries.faults), queries.faults)
      ensures ok ==>
                queries.subscriptions
                == Subs.Changed(old(queries.subscriptions), username, SetOf(add), SetOf(remove), timestamp)
    {
      ghost var t := queries.subscriptions;
      Subs.NothingChanged(t, username, timestamp);
      for i := 0 to |add|
        invariant queries.faults == old(queries.faults)
        invariant queries.subscriptions == Subs.Changed(t, username, SetOf(add[..i]), {}, timestamp)
      {
        ok := queries.AddSubscription(username, add[i], timestamp);
        if !ok {
          return;
        }
        Subs.AddStep(t, username, SetOf(add[..i]), add[i], timestamp);
        assert SetOf(add[..i + 1]) == SetOf(add[..i]) + {add[i]};
      }
      assert add[..|add|] == add;
      for i := 0 to |remove|
        invariant queries.faults == old(queries.faults)
        invariant queries.subscriptions == Subs.Changed(t, username, SetOf(add), SetOf(remove[..i]), timestamp)
      {
        ok := queries.DeleteSubscription(timestamp, username, remove[i]);
        if !ok {
          return;
        }
        Subs.DeleteStep(t, username, SetOf(add), SetOf(remove[..i]), remove[i], timestamp);
        assert SetOf(remove[..i + 1]) == SetOf(remove[..i]) + {remove[i]};
      }
      assert remove[..|remove|] == remove;
      ok := true;
    }

    method UpdateSubscriptions(username: string, add: seq<string>, remove: seq<string>, timestamp: int)
      returns (ok: bool)
      modifies queries`subscriptions, queries`faults
      ensures Reported(ok, true, old(queries.faults), queries.faults)
      ensures queries.subscriptions
           == if ok then Subs.Changed(old(queries.subscriptions), username, SetOf(add), SetOf(remove), timestamp)
              else old(queries.subscriptions)
    {
      ok := queries.Attempt();
      if !ok {
        return;
      }
      var begun := queries.subscriptions;
      ok := ApplySubscriptionChanges(username, add, remove, timestamp);
      if ok {
        ok := queries.Attempt();
      }
      if !ok {
        queries.subscriptions := begun;
      }
    }

    /** Computes the minimal difference, yet replaces; errors of the reactivations are ignored. */
    method ReplaceSubscriptions(username: string, desired: seq<string>, timestamp: int) returns (ok: bool)
      modifies queries`subscriptions, queries`faults
      ensures Excused(ok, old(queries.faults), queries.faults)
      ensures queries.subscriptions
           == if ok then Subs.Replaced(old(queries.subscriptions), username, SetOf(desired), timestamp)
              else old(queries.subscriptions)
    {
      ok := queries.Attempt();
      if !ok {
        return;
      }
      var begun := queries.subscriptions;
      var existing;
      ok, existing := queries.GetSubscriptions(username);
      if !ok {
        return;
      }
      var add, remove := DiffSubscriptions(existing, desired);
      ghost var revived := ReactivateAll(username, add, timestamp);
      ok := ApplySubscriptionChanges(username, add, remove, timestamp);
      if ok {
        ok := queries.Attempt();
      }
      if !ok {
        queries.subscriptions := begun;
        return;
      }
      Subs.ReactivateThenChange(begun, username, revived, SetOf(add), SetOf(remove), timestamp);
      assert SetOf(add) == SetOf(desired) - Subs.Active(begun, username);
      assert SetOf(remove) == Subs.Active(begun, username) - SetOf(desired);
      Subs.MinimalDiffReplaces(begun, username, SetOf(desired), timestamp);
    }

    /** One reactivation per URL, failures skipped: some of the tombstones become active. */
    method ReactivateAll(username: string, urls: seq<string>, timestamp: int) returns (ghost revived: set<string>)
      modifies queries`subscriptions, queries`faults
      ensures old(queries.faults) <= queries.faults
      ensures queries.faults == old(queries.faults) ==> revived == SetOf(urls)
      ensures revived <= SetOf(urls)
      ensures queries.subscriptions == Subs.Reactivated(old(queries.subscriptions), username, revived, timestamp)
    {
      ghost var t := queries.subscriptions;
      Subs.NothingChanged(t, username, timestamp);
      revived := {};
      for i := 0 to |urls|
        invariant revived <= SetOf(urls[..i]) && old(queries.faults) <= queries.faults
        invariant queries.faults == old(queries.faults) ==> revived == SetOf(urls[..i])
        invariant queries.subscriptions == Subs.Reactivated(t, username, revived, timestamp)
      {
        var done := queries.ReactivateSubscription(timestamp, username, urls[i]);
        if done {
          Subs.ReactivateStep(t, username, revived, urls[i], timestamp);
          revived := revived + {urls[i]};
        }
        assert SetOf(urls[..i + 1]) == SetOf(urls[..i]) + {urls[i]};
      }
      assert urls[..|urls|] == urls;
    }

    // Episodes

    /** Four statements, one meaning: the rows of the combined filter, each once. */
    method GetEpisodes(username: string, podcast: Option<string>, device: Option<string>, since: int)
      returns (ok: bool, rows: seq<EpisodeRow>)
      modifies queries`faults
      ensures Reported(ok, true, old(queries.faults), queries.faults)
      ensures ok ==> Lists(rows, Eps.Feed(queries.episodes, username, podcast, device, since))
      ensures ok ==> NoDuplicates(rows) && forall e :: e in rows <==>
                && e.key in queries.episodes && queries.episodes[e.key] == e.row && e.key.username == username
                && (podcast.Some? ==> e.key.podcast == podcast.value)
                && (device.Some? ==> e.row.device == Some(device.value))
                && e.row.modified >= since
    {
      ghost var t, feed := queries.episodes, Eps.Feed(queries.episodes, username, podcast, device, since);
      if podcast.Some? && device.Some? {
        ok, rows := queries.GetEpisodesByPodcastAndDevice(username, podcast.value, device.value, since);
        assert feed == map k | k in t && k.username == username && k.podcast == podcast.value
                               && t[k].device == Some(device.value) && t[k].modified >= since :: t[k];
      } else if podcast.Some? {
        ok, rows := queries.GetEpisodesByPodcast(username, podcast.value, since);
        assert feed == map k | k in t && k.username == username && k.podcast == podcast.value
                               && t[k].modified >= since :: t[k];
      } else if device.Some? {
        ok, rows := queries.GetEpisodesByDevice(username, device.value, since);
        assert feed == map k | k in t && k.username == username && t[k].device == Some(device.value)
                               && t[k].modified >= since :: t[k];
      } else {
        ok, rows := queries.GetEpisodes(username, since);
        assert feed == map k | k in t && k.username == username && t[k].modified >= since :: t[k];
      }
      if ok {
        ListedExactly(rows, feed);
      }
    }

    /** All of one batch or nothing. */
    method UpsertEpisodeBatch(username: string, episodes: seq<Eps.Episode>, timestamp: int) returns (ok: bool)
      modifies queries`episodes, queries`faults
      ensures Reported(ok, true, old(queries.faults), queries.faults)
      ensures queries.episodes
           == if ok then Eps.UpsertAll(EpisodeSync.ContentHash(sha), old(queries.episodes),
                                       Eps.Uploads(username, episodes, timestamp))
              else old(queries.episodes)
    {
      ok := queries.Attempt();
      if !ok {
        return;
      }
      hide EpisodeHash.Hash, Eps.UpsertAll;
      var begun := queries.episodes;
      ghost var hash, ups := EpisodeSync.ContentHash(sha), Eps.Uploads(username, episodes, timestamp);
      UpsertNone(hash, begun);
      assert ups[..0] == [];
      for i := 0 to |episodes|
        invariant queries.faults == old(queries.faults)
        invariant queries.episodes == Eps.UpsertAll(hash, begun, ups[..i])
      {
        var ep := episodes[i];
        var row := Eps.Row(ep.device, ep.timestamp, ep.guid, ep.content, timestamp, EpisodeHash.Hash(sha, ep.content));
        ok := queries.UpsertEpisode(Eps.Key(username, ep.podcast, ep.episode), row);
        if !ok {
          queries.episodes := begun;
          return;
        }
        assert row == Eps.RowOf(hash, ups[i]);
        Eps.UpsertNext(hash, begun, ups, i);
      }
      assert ups[..|episodes|] == ups;
      ok := queries.Attempt();
      if !ok {
        queries.episodes := begun;
      }
    }

    lemma UpsertNone(hash: Eps.Hasher, t: Eps.Table)
      ensures Eps.UpsertAll(hash, t, []) == t
    {
    }

    /**
     Batches of 500, each in a transaction of its own: on success the fold over the whole list, on
     failure the fold over the leading whole batches.
     */
    method UpdateEpisodes(username: string, episodes: seq<Eps.Episode>, timestamp: int)
      returns (ok: bool, ghost stored: nat, ghost batches: nat)
      modifies queries`episodes, queries`faults
      ensures Reported(ok, true, old(queries.faults), queries.faults)
      ensures stored <= |episodes| && (ok <==> stored == |episodes|) && (!ok ==> stored == batches * EPISODE_BATCH_SIZE)
      ensures queries.episodes == Eps.UpsertAll(EpisodeSync.ContentHash(sha), old(queries.episodes),
                                                Eps.Uploads(username, episodes[..stored], timestamp))
    {
      ghost var hash, t := EpisodeSync.ContentHash(sha), queries.episodes;
      ok, stored, batches := true, 0, 0;
      var i := 0;
      while i < |episodes|
        invariant ok && queries.faults == old(queries.faults)
        invariant 0 <= i && stored == (if i <= |episodes| then i else |episodes|)
        invariant i == batches * EPISODE_BATCH_SIZE
        invariant queries.episodes == Eps.UpsertAll(hash, t, Eps.Uploads(username, episodes[..stored], timestamp))
      {
        var end := if i + EPISODE_BATCH_SIZE <= |episodes| then i + EPISODE_BATCH_SIZE else |episodes|;
        assert queries.episodes == Eps.UpsertAll(hash, t, Eps.Uploads(username, episodes[..i], timestamp));
        ok := UpsertEpisodeBatch(username, episodes[i..end], timestamp);
        if !ok {
          return;
        }
        NextBatch(hash, t, username, episodes, i, end, timestamp);
        i, stored, batches := i + EPISODE_BATCH_SIZE, end, batches + 1;
      }
    }

    lemma NextBatch(hash: Eps.Hasher, t: Eps.Table, username: string, episodes: seq<Eps.Episode>, i: nat, end: nat,
                    timestamp: int)
      requires i <= end <= |episodes|
      ensures Eps.UpsertAll(hash, Eps.UpsertAll(hash, t, Eps.Uploads(username, episodes[..i], timestamp)),
                            Eps.Uploads(username, episodes[i..end], timestamp))
           == Eps.UpsertAll(hash, t, Eps.Uploads(username, episodes[..end], timestamp))
    {
      Eps.UploadsAppend(username, episodes[..i], episodes[i..end], timestamp);
      Eps.UpsertAllAppend(hash, t, Eps.Uploads(username, episodes[..i], timestamp),
                          Eps.Uploads(username, episodes[i..end], timestamp));
      assert episodes[..i] + episodes[i..end] == episodes[..end];
    }

    method DeleteEpisodesOlderThan(cutoff: int) returns (ok: bool, removed: int)
      modifies queries`episodes, queries`faults
      ensures Reported(ok, true, old(queries.faults), queries.faults)
      ensures queries.episodes == if ok then Eps.Retained(old(queries.episodes), cutoff) else old(queries.episodes)
      ensures ok ==> removed == |old(queries.episodes)| - |queries.episodes|
    {
      ghost var t := queries.episodes;
      ok, removed := queries.DeleteEpisodesOlderThan(cutoff);
      if ok {
        ghost var gone := set k | k in t && t[k].modified < cutoff;
        assert t.Keys == Eps.Retained(t, cutoff).Keys + gone;
        assert |t.Keys| == |Eps.Retained(t, cutoff).Keys| + |gone|;
      }
    }

    // Devices

    /** Registers the device unless it is known. */
    method UpsertDevice(username: string, id: string) returns (ok: bool)
      modifies queries`devices, queries`faults
      ensures Reported(ok, true, old(queries.faults), queries.faults)
      ensures Registered(old(queries.devices), queries.devices, username, id)
      ensures ok ==> DeviceKey(id, username) in queries.devices
    {
      ok := queries.CreateDevice(id, username, None, "other");
    }
  }
}
