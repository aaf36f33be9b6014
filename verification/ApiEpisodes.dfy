/** The episode handlers of the sync API; both read the clock before they touch the table. */
module ApiEpisodes {
  import opened Prelude
  import opened Pggen
  import opened StoreSql
  import EpisodeHash
  import EpisodeSync
  import Eps = EpisodeTable

  datatype Response = Actions(rows: seq<EpisodeRow>, timestamp: int) | Uploaded(timestamp: int) | InternalError

  /** An empty query parameter is no filter. */
  function Parameter(s: string): Option<string> {
    if s == "" then None else Some(s)
  }

  /** What a client does with an answer: it takes over the values of every row. */
  function Applied(replica: map<EpisodeSync.EpisodeId, EpisodeHash.Content>, rows: seq<EpisodeRow>)
    : map<EpisodeSync.EpisodeId, EpisodeHash.Content>
  {
    if rows == [] then replica
    else
      var last := rows[|rows| - 1];
      var episode := EpisodeSync.EpisodeId(last.key.podcast, last.key.episode);
      Applied(replica, rows[..|rows| - 1])[episode := last.row.content]
  }

  lemma {:induction false} AppliedRows(replica: map<EpisodeSync.EpisodeId, EpisodeHash.Content>,
                                       rows: seq<EpisodeRow>, username: string)
    requires forall i :: 0 <= i < |rows| ==> rows[i].key.username == username
    requires forall i, j :: 0 <= i < j < |rows| ==> rows[i].key != rows[j].key
    ensures forall i :: 0 <= i < |rows| ==> EpisodeSync.Holds(Applied(replica, rows), rows[i].key, rows[i].row.content)
    ensures forall id :: (forall i :: 0 <= i < |rows| ==>
                            id != EpisodeSync.EpisodeId(rows[i].key.podcast, rows[i].key.episode)) ==>
              (id in Applied(replica, rows) <==> id in replica)
              && (id in replica ==> Applied(replica, rows)[id] == replica[id])
  {
    if rows != [] {
      var init := rows[..|rows| - 1];
      AppliedRows(replica, init, username);
      assert forall i :: 0 <= i < |init| ==> init[i] == rows[i];
    }
  }

  /** Taking over an unfiltered answer is the pull of the protocol. */
  lemma AnswerIsPull(t: Eps.Table, rows: seq<EpisodeRow>, id: ClientId, c: EpisodeSync.Client, now: int)
    requires Lists(rows, Eps.Feed(t, id.username, None, None, c.token))
    ensures EpisodeSync.PullInto(t, id, c, now) == EpisodeSync.Client(Applied(c.replica, rows), now)
  {
    hide EpisodeSync.PullInto, Applied, Lists, Eps.Feed;
    var pulled, applied := EpisodeSync.PullInto(t, id, c, now).replica, Applied(c.replica, rows);
    forall e: EpisodeSync.EpisodeId
      ensures e in applied <==> e in pulled
      ensures e in applied ==> applied[e] == pulled[e]
    {
      AnswerAgreesAt(t, rows, id, c, now, e);
    }
    assert applied == pulled;
    PullToken(t, id, c, now);
  }

  lemma PullToken(t: Eps.Table, id: ClientId, c: EpisodeSync.Client, now: int)
    ensures EpisodeSync.PullInto(t, id, c, now).token == now
  {
  }

  lemma AnswerAgreesAt(t: Eps.Table, rows: seq<EpisodeRow>, id: ClientId, c: EpisodeSync.Client, now: int,
                       e: EpisodeSync.EpisodeId)
    requires Lists(rows, Eps.Feed(t, id.username, None, None, c.token))
    ensures var pulled, applied := EpisodeSync.PullInto(t, id, c, now).replica, Applied(c.replica, rows);
            (e in applied <==> e in pulled) && (e in applied ==> applied[e] == pulled[e])
  {
    hide EpisodeSync.PullInto, Applied;
    AppliedRows(c.replica, rows, id.username);
    if i :| 0 <= i < |rows| && e == EpisodeSync.EpisodeId(rows[i].key.podcast, rows[i].key.episode) {
      EpisodeSync.PullBrings(t, id, c, now, rows[i].key);
    } else {
      forall k | k in Eps.Feed(t, id.username, None, None, c.token)
        ensures e != EpisodeSync.EpisodeId(k.podcast, k.episode)
      {
        assert EpisodeRow(k, t[k]) in rows;
      }
      EpisodeSync.PullKeepsOthers(t, id, c, now, e);
    }
  }

  method HandleGetEpisodes(store: SQLStore, username: string, since: int, podcast: string, device: string, now: int)
    returns (r: Response)
    modifies store.queries`faults
    ensures r.Actions? || r.InternalError?
    ensures Excused(r.Actions?, old(store.queries.faults), store.queries.faults)
    ensures r.Actions? ==> r.timestamp == now
    ensures r.Actions? ==>
              NoDuplicates(r.rows) && forall e :: e in r.rows <==>
                && e.key in store.queries.episodes && store.queries.episodes[e.key] == e.row
                && e.key.username == username && (podcast == "" || e.key.podcast == podcast)
                && (device == "" || e.row.device == Some(device)) && e.row.modified >= since
    ensures r.Actions? && podcast == "" && device == "" ==>
              forall own: string, c: EpisodeSync.Client :: c.token == since ==>
                EpisodeSync.PullInto(store.queries.episodes, ClientId(username, own), c, now)
                == EpisodeSync.Client(Applied(c.replica, r.rows), r.timestamp)
  {
    var ok, rows := store.GetEpisodes(username, Parameter(podcast), Parameter(device), since);
    r := if ok then Actions(rows, now) else InternalError;
    if ok && podcast == "" && device == "" {
      forall own: string, c: EpisodeSync.Client | c.token == since
        ensures EpisodeSync.PullInto(store.queries.episodes, ClientId(username, own), c, now)
             == EpisodeSync.Client(Applied(c.replica, rows), now)
      {
        AnswerIsPull(store.queries.episodes, rows, ClientId(username, own), c, now);
      }
    }
  }

  lemma PartSparesOthers(hash: Eps.Hasher, t: Eps.Table, username: string, eps: seq<Eps.Episode>, stored: nat,
                         now: int, k: Eps.Key)
    requires stored <= |eps| && (k.username != username || !EpisodeSync.Listed(eps, k))
    ensures Eps.Lookup(Eps.UpsertAll(hash, t, Eps.Uploads(username, eps[..stored], now)), k) == Eps.Lookup(t, k)
  {
    if EpisodeSync.Listed(eps[..stored], k) {
      var i :| 0 <= i < stored && eps[..stored][i].podcast == k.podcast && eps[..stored][i].episode == k.episode;
      assert eps[i] == eps[..stored][i];
    }
    EpisodeSync.UploadSparesOthers(hash, t, username, eps[..stored], now, k);
  }

  /** An accepted upload is one step of the protocol, a failed one the step that broke off part-way. */
  method HandleUploadEpisodes(store: SQLStore, id: ClientId, episodes: seq<Eps.Episode>, now: int)
    returns (r: Response, ghost stored: nat)
    modifies store.queries`episodes, store.queries`faults
    ensures Excused(r.Uploaded?, old(store.queries.faults), store.queries.faults)
    ensures r == Uploaded(now) || r.InternalError?
    ensures forall clients :: var s := EpisodeSync.State(old(store.queries.episodes), clients);
              var step := if r.Uploaded? then EpisodeSync.Push(id, episodes)
                          else EpisodeSync.BrokenPush(id, episodes, stored);
              EpisodeSync.Next(EpisodeSync.ContentHash(store.sha), s, EpisodeSync.Event(now, step)).table
              == store.queries.episodes
    ensures r.Uploaded? ==>
              forall i: nat {:trigger episodes[i]} :: EpisodeSync.LastOfItsEpisode(episodes, i) ==>
                var before, after := old(store.queries.episodes), store.queries.episodes;
                var k := Eps.Key(id.username, episodes[i].podcast, episodes[i].episode);
                && k in after && after[k].hash == EpisodeHash.Hash(store.sha, episodes[i].content)
                && (k !in before || before[k].hash != after[k].hash ==> after[k].modified == now)
    ensures forall k: Eps.Key :: k.username != id.username || !EpisodeSync.Listed(episodes, k) ==>
              Eps.Lookup(store.queries.episodes, k) == Eps.Lookup(old(store.queries.episodes), k)
  {
    hide EpisodeHash.Hash, Eps.UpsertAll, EpisodeSync.Listed;
    ghost var t, hash := store.queries.episodes, EpisodeSync.ContentHash(store.sha);
    var ok;
    ghost var batches;
    ok, stored, batches := store.UpdateEpisodes(id.username, episodes, now);
    assert episodes[..|episodes|] == episodes;
    r := if ok then Uploaded(now) else InternalError;
    forall i: nat | ok && EpisodeSync.LastOfItsEpisode(episodes, i)
      ensures var k := Eps.Key(id.username, episodes[i].podcast, episodes[i].episode);
              && k in store.queries.episodes && store.queries.episodes[k].hash == hash(episodes[i].content)
              && (k !in t || t[k].hash != store.queries.episodes[k].hash ==> store.queries.episodes[k].modified == now)
    {
      EpisodeSync.UploadStores(hash, t, id.username, episodes, now, i);
    }
    forall k: Eps.Key | k.username != id.username || !EpisodeSync.Listed(episodes, k)
      ensures Eps.Lookup(store.queries.episodes, k) == Eps.Lookup(t, k)
    {
      PartSparesOthers(hash, t, id.username, episodes, stored, now, k);
    }
  }
}
