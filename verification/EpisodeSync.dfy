/**
 Episode pulls between the server and any number of clients.

 Writes are atomic steps reading a nondecreasing clock. A pull reads the clock first and queries
 later, with any other steps in between; its answer lists the rows with `modified >= since` and its
 token is that reading. A client carries the token of its last unfiltered pull, takes over every row
 it is sent, and records its own uploads once they are accepted.
 */
module EpisodeSync {
  import opened Prelude
  import opened EpisodeHash
  import opened EpisodeTable

  /** The stored content hash: the digest of the printed values. */
  function ContentHash(sha: string -> string): Hasher {
    c => Hash(sha, c)
  }

  datatype EpisodeId = EpisodeId(podcast: string, episode: string)
  datatype Client = Client(replica: map<EpisodeId, Content>, token: int)

  datatype Step =
    | Push(client: ClientId, episodes: seq<Episode>)
      // An upload that stopped with an error after storing its first `stored` episodes.
    | BrokenPush(client: ClientId, episodes: seq<Episode>, stored: nat)
      // The query of a pull whose clock reading was `clock`.
    | Pull(client: ClientId, clock: int)
    | Retention(cutoff: int)
    | DeleteUser(username: string)
  datatype Event = Event(time: int, step: Step)
  datatype State = State(table: Table, clients: map<ClientId, Client>)

  const Start := State(map[], map[])

  function ClientOf(s: State, id: ClientId): Client {
    if id in s.clients then s.clients[id] else Client(map[], 0)
  }

  function Noted(replica: map<EpisodeId, Content>, eps: seq<Episode>): map<EpisodeId, Content> {
    if eps == [] then replica
    else
      var ep := eps[|eps| - 1];
      Noted(replica, eps[..|eps| - 1])[EpisodeId(ep.podcast, ep.episode) := ep.content]
  }

  function PullInto(t: Table, id: ClientId, c: Client, clock: int): Client {
    var feed := Feed(t, id.username, None, None, c.token);
    Client(c.replica + (map k | k in feed :: EpisodeId(k.podcast, k.episode) := feed[k].content), clock)
  }

  function Next(hash: Hasher, s: State, e: Event): State {
    match e.step
    case Push(id, eps) =>
      var c := ClientOf(s, id);
      State(UpsertAll(hash, s.table, Uploads(id.username, eps, e.time)),
            s.clients[id := c.(replica := Noted(c.replica, eps))])
    case BrokenPush(id, eps, stored) =>
      var done := if stored <= |eps| then stored else |eps|;
      s.(table := UpsertAll(hash, s.table, Uploads(id.username, eps[..done], e.time)))
    case Pull(id, clock) => s.(clients := s.clients[id := PullInto(s.table, id, ClientOf(s, id), clock)])
    case Retention(cutoff) => s.(table := Retained(s.table, cutoff))
    case DeleteUser(username) => s.(table := WithoutUsers(s.table, {username}))
  }

  function Run(hash: Hasher, events: seq<Event>): State {
    if events == [] then Start
    else Next(hash, Run(hash, events[..|events| - 1]), events[|events| - 1])
  }

  ghost predicate ClockRuns(events: seq<Event>) {
    && (forall i :: 0 <= i < |events| ==> 0 <= events[i].time)
    && (forall i, j :: 0 <= i <= j < |events| ==> events[i].time <= events[j].time)
    && (forall i :: 0 <= i < |events| && events[i].step.Pull? ==> events[i].step.clock <= events[i].time)
  }

  /** The contents an event uploads. */
  function Uploaded(e: Event): set<Content> {
    match e.step
    case Push(_, eps) => set ep | ep in eps :: ep.content
    case BrokenPush(_, eps, _) => set ep | ep in eps :: ep.content
    case _ => {}
  }

  /** Equal hashes mean equal values. */
  ghost predicate Separates(hash: Hasher, contents: set<Content>) {
    forall c, d :: c in contents && d in contents && hash(c) == hash(d) ==> c == d
  }

  /** The digest tells the printed texts of these contents apart. */
  ghost predicate CollisionFree(sha: string -> string, contents: set<Content>) {
    forall c, d :: c in contents && d in contents && sha(Text(c)) == sha(Text(d)) ==> Text(c) == Text(d)
  }

  /** Without semicolons in actions the stored hash separates contents exactly when no two texts collide. */
  lemma SeparatesIffCollisionFree(sha: string -> string, contents: set<Content>)
    requires forall c :: c in contents ==> ';' !in c.action
    ensures Separates(ContentHash(sha), contents) <==> CollisionFree(sha, contents)
  {
    hide Text;
    if CollisionFree(sha, contents) {
      forall c, d | c in contents && d in contents && ContentHash(sha)(c) == ContentHash(sha)(d) ensures c == d {
        TextInjective(c, d);
      }
    } else {
      var c, d :| c in contents && d in contents && sha(Text(c)) == sha(Text(d)) && Text(c) != Text(d);
      assert ContentHash(sha)(c) == ContentHash(sha)(d);
    }
  }

  // The invariant.

  predicate Holds(replica: map<EpisodeId, Content>, k: Key, content: Content) {
    var id := EpisodeId(k.podcast, k.episode);
    id in replica && replica[id] == content
  }

  /** The replica agrees with each of the user's rows on action, started, position and total. */
  ghost predicate HoldsAll(t: Table, username: string, replica: map<EpisodeId, Content>) {
    forall k :: k in t && k.username == username ==> Holds(replica, k, t[k].content)
  }

  /** The client holds the row's content, or the row is still ahead of the client's token. */
  ghost predicate RowKnown(k: Key, r: Row, c: Client) {
    r.modified >= c.token || Holds(c.replica, k, r.content)
  }

  ghost predicate UpToDate(t: Table, id: ClientId, c: Client) {
    forall k :: k in t && k.username == id.username ==> RowKnown(k, t[k], c)
  }

  /** Rows store contents from `contents` with their own hash. */
  ghost predicate Genuine(hash: Hasher, t: Table, contents: set<Content>) {
    forall k :: k in t ==> t[k].content in contents && t[k].hash == hash(t[k].content)
  }

  /** A pull brings exactly the rows ahead of the token; all others the client must have held. */
  lemma PullBrings(t: Table, id: ClientId, c: Client, now: int, k: Key)
    requires k in t && k.username == id.username
    ensures Holds(PullInto(t, id, c, now).replica, k, t[k].content) <==> RowKnown(k, t[k], c)
  {
    var feed := Feed(t, id.username, None, None, c.token);
    var sent := map q | q in feed :: EpisodeId(q.podcast, q.episode) := feed[q].content;
    assert EpisodeId(k.podcast, k.episode) in sent <==> k in feed;
  }

  lemma PullKeepsOthers(t: Table, id: ClientId, c: Client, now: int, e: EpisodeId)
    requires forall k :: k in Feed(t, id.username, None, None, c.token) ==> e != EpisodeId(k.podcast, k.episode)
    ensures var replica := PullInto(t, id, c, now).replica;
            (e in replica <==> e in c.replica) && (e in replica ==> replica[e] == c.replica[e])
  {
  }

  lemma PullRightIffUpToDate(t: Table, id: ClientId, c: Client, now: int)
    ensures HoldsAll(t, id.username, PullInto(t, id, c, now).replica) <==> UpToDate(t, id, c)
  {
    hide PullInto, RowKnown, Holds;
    forall k | k in t && k.username == id.username
      ensures Holds(PullInto(t, id, c, now).replica, k, t[k].content) <==> RowKnown(k, t[k], c)
    {
      PullBrings(t, id, c, now, k);
    }
  }

  lemma {:induction false} UploadsKeep(hash: Hasher, t: Table, username: string, eps: seq<Episode>, stamp: int,
                                       id: ClientId, c: Client)
    requires UpToDate(t, id, c) && c.token <= stamp
    ensures UpToDate(UpsertAll(hash, t, Uploads(username, eps, stamp)), id, c)
  {
    if eps != [] {
      UploadsInit(username, eps, stamp);
      UploadsKeep(hash, t, username, eps[..|eps| - 1], stamp, id, c);
    }
  }

  ghost predicate ContentsIn(eps: seq<Episode>, contents: set<Content>) {
    forall ep :: ep in eps ==> ep.content in contents
  }

  lemma {:induction false} UploadsGenuine(hash: Hasher, t: Table, username: string, eps: seq<Episode>, stamp: int,
                                          contents: set<Content>)
    requires Genuine(hash, t, contents) && ContentsIn(eps, contents)
    ensures Genuine(hash, UpsertAll(hash, t, Uploads(username, eps, stamp)), contents)
  {
    if eps != [] {
      UploadsInit(username, eps, stamp);
      assert eps[|eps| - 1] in eps;
      UploadsGenuine(hash, t, username, eps[..|eps| - 1], stamp, contents);
    }
  }

  ghost predicate Listed(eps: seq<Episode>, k: Key) {
    exists i :: 0 <= i < |eps| && eps[i].podcast == k.podcast && eps[i].episode == k.episode
  }

  /** After its own upload a client that noted it holds the row of each listed episode; the others stay as they were. */
  lemma {:induction false} UploaderHolds(hash: Hasher, t: Table, username: string, eps: seq<Episode>, stamp: int,
                                         contents: set<Content>, was: map<EpisodeId, Content>, k: Key)
    requires Genuine(hash, t, contents) && Separates(hash, contents) && ContentsIn(eps, contents)
    requires k.username == username
    ensures var t' := UpsertAll(hash, t, Uploads(username, eps, stamp));
            if Listed(eps, k) then k in t' && Holds(Noted(was, eps), k, t'[k].content)
            else
              && Lookup(t', k) == Lookup(t, k)
              && forall content :: Holds(Noted(was, eps), k, content) <==> Holds(was, k, content)
  {
    if eps != [] {
      var init, last := eps[..|eps| - 1], eps[|eps| - 1];
      UploadsInit(username, eps, stamp);
      assert last in eps;
      UploaderHolds(hash, t, username, init, stamp, contents, was, k);
      UploadsGenuine(hash, t, username, init, stamp, contents);
      assert Listed(eps, k) <==> Listed(init, k) || (last.podcast == k.podcast && last.episode == k.episode);
    }
  }

  /** Hence the uploading client stays up to date when it records its own list. */
  lemma OwnUploadsKeep(hash: Hasher, t: Table, eps: seq<Episode>, stamp: int, contents: set<Content>, id: ClientId,
                       c: Client)
    requires UpToDate(t, id, c) && c.token <= stamp
    requires Genuine(hash, t, contents) && Separates(hash, contents) && ContentsIn(eps, contents)
    ensures UpToDate(UpsertAll(hash, t, Uploads(id.username, eps, stamp)), id, c.(replica := Noted(c.replica, eps)))
  {
    hide UpsertAll, Noted, Genuine, Separates, Listed, Holds;
    UploadsKeep(hash, t, id.username, eps, stamp, id, c);
    var t' := UpsertAll(hash, t, Uploads(id.username, eps, stamp));
    forall k | k in t' && k.username == id.username
      ensures RowKnown(k, t'[k], c.(replica := Noted(c.replica, eps)))
    {
      UploaderHolds(hash, t, id.username, eps, stamp, contents, c.replica, k);
    }
  }

  lemma {:induction false} RunKeepsClients(hash: Hasher, events: seq<Event>, contents: set<Content>, id: ClientId)
    requires ClockRuns(events) && Separates(hash, contents)
    requires forall e :: e in events ==> Uploaded(e) <= contents
    ensures var s := Run(hash, events);
            && UpToDate(s.table, id, ClientOf(s, id)) && Genuine(hash, s.table, contents)
            && (ClientOf(s, id).token == 0 || exists i :: 0 <= i < |events| && ClientOf(s, id).token <= events[i].time)
  {
    if events != [] {
      var before, e := events[..|events| - 1], events[|events| - 1];
      assert e in events;
      RunKeepsClients(hash, before, contents, id);
      var s := Run(hash, before);
      var c := ClientOf(s, id);
      if c.token != 0 {
        var i :| 0 <= i < |before| && c.token <= before[i].time;
        assert before[i] == events[i];
      }
      assert c.token <= e.time;
      match e.step
      case Push(other, eps) =>
        forall ep | ep in eps ensures ep.content in contents { assert ep.content in Uploaded(e); }
        UploadsGenuine(hash, s.table, other.username, eps, e.time, contents);
        if other == id {
          OwnUploadsKeep(hash, s.table, eps, e.time, contents, id, c);
        } else {
          UploadsKeep(hash, s.table, other.username, eps, e.time, id, c);
        }
      case BrokenPush(other, eps, stored) =>
        var part := eps[..if stored <= |eps| then stored else |eps|];
        forall ep | ep in part ensures ep.content in contents { assert ep.content in Uploaded(e); }
        UploadsGenuine(hash, s.table, other.username, part, e.time, contents);
        UploadsKeep(hash, s.table, other.username, part, e.time, id, c);
      case Pull(other, clock) =>
        if other == id {
          PullRightIffUpToDate(s.table, id, c, clock);
        }
      case Retention(cutoff) =>
      case DeleteUser(username) =>
    }
  }

  /** The client agrees with each of its user's rows on action, started, position and total. */
  ghost predicate Agrees(s: State, id: ClientId) {
    HoldsAll(s.table, id.username, ClientOf(s, id).replica)
  }

  /** A run with the clock in order that uploads only `contents`. */
  ghost predicate UploadsWithin(events: seq<Event>, contents: set<Content>) {
    ClockRuns(events) && forall e :: e in events ==> Uploaded(e) <= contents
  }

  /**
   Lossless pulls: in every run whose contents the hash separates, after every pull the client agrees
   with the server, through same-second writes, its own uploads, uploads that broke off, retention
   and deletion.
   */
  lemma LosslessPulls(hash: Hasher, events: seq<Event>, contents: set<Content>, pull: nat, id: ClientId)
    requires UploadsWithin(events, contents) && Separates(hash, contents)
    requires pull < |events| && events[pull].step.Pull? && events[pull].step.client == id
    ensures Agrees(Run(hash, events[..pull + 1]), id)
  {
    var prefix := events[..pull];
    assert events[..pull + 1][..pull] == prefix;
    RunKeepsClients(hash, prefix, contents, id);
    var s := Run(hash, prefix);
    PullRightIffUpToDate(s.table, id, ClientOf(s, id), events[pull].step.clock);
  }

  ghost predicate AlwaysLossless(hash: Hasher, contents: set<Content>) {
    forall events: seq<Event>, pull: nat ::
      UploadsWithin(events, contents) && pull < |events| && events[pull].step.Pull? ==>
        Agrees(Run(hash, events[..pull + 1]), events[pull].step.client)
  }

  /** Every run uploading only these contents is lossless exactly when the hash separates them. */
  lemma AlwaysLosslessIffSeparates(hash: Hasher, contents: set<Content>)
    ensures AlwaysLossless(hash, contents) <==> Separates(hash, contents)
  {
    if Separates(hash, contents) {
      forall events: seq<Event>, pull: nat | UploadsWithin(events, contents) && pull < |events|
        && events[pull].step.Pull?
        ensures Agrees(Run(hash, events[..pull + 1]), events[pull].step.client)
      {
        LosslessPulls(hash, events, contents, pull, events[pull].step.client);
      }
    } else {
      var c, d :| c in contents && d in contents && hash(c) == hash(d) && c != d;
      var id := ClientId("", "");
      var events := CollisionBreaksPulls(hash, c, d, id);
      var pull: nat := |events| - 1;
      assert UploadsWithin(events, contents) by {
        assert {c, d} <= contents;
      }
      assert events[..pull + 1] == events;
      var s := Run(hash, events);
      assert Key("", "p", "e") in s.table;
      assert !Agrees(s, id);
    }
  }

  /**
   Uploads, in contrast, do have to be atomic: a changed row reaches a client that is in step with
   the server exactly when it is stamped no earlier than the client's token.
   */
  lemma UploadSeenIffStampedSincePull(hash: Hasher, t: Table, id: ClientId, c: Client, up: Upload, clock: int)
    requires up.username == id.username
    requires KeyOf(up) in t ==> t[KeyOf(up)].hash != HashOf(hash, up)
    requires var episode := EpisodeId(up.ep.podcast, up.ep.episode);
             episode in c.replica ==> c.replica[episode] != up.ep.content
    ensures var replica := PullInto(Upsert(hash, t, up), id, c, clock).replica;
            var episode := EpisodeId(up.ep.podcast, up.ep.episode);
            (episode in replica && replica[episode] == up.ep.content) <==> up.stamp >= c.token
  {
    var t', k := Upsert(hash, t, up), KeyOf(up);
    var feed := Feed(t', id.username, None, None, c.token);
    var sent := map q | q in feed :: EpisodeId(q.podcast, q.episode) := feed[q].content;
    assert k in feed <==> up.stamp >= c.token;
    assert EpisodeId(k.podcast, k.episode) in sent <==> k in feed;
  }

  // Carrying on from the token of an upload.

  lemma {:induction false} UploadedRow(hash: Hasher, t: Table, username: string, eps: seq<Episode>, stamp: int, k: Key)
    ensures var t' := UpsertAll(hash, t, Uploads(username, eps, stamp));
            k in t' ==> t'[k].modified == stamp || Lookup(t, k) == Some(t'[k])
  {
    if eps != [] {
      UploadsInit(username, eps, stamp);
      UploadedRow(hash, t, username, eps[..|eps| - 1], stamp, k);
    }
  }

  /** Entry `i` is the last of its episode in the list. */
  ghost predicate LastOfItsEpisode(eps: seq<Episode>, i: nat) {
    i < |eps| && forall j :: i < j < |eps| ==> eps[j].podcast != eps[i].podcast || eps[j].episode != eps[i].episode
  }

  /** An upload leaves each listed episode with the hash of its last entry, stamped if that is news. */
  lemma {:induction false} UploadStores(hash: Hasher, t: Table, username: string, eps: seq<Episode>, stamp: int, i: nat)
    requires LastOfItsEpisode(eps, i)
    ensures var t' := UpsertAll(hash, t, Uploads(username, eps, stamp));
            var k := Key(username, eps[i].podcast, eps[i].episode);
            && k in t' && t'[k].hash == hash(eps[i].content)
            && (k !in t || t[k].hash != t'[k].hash ==> t'[k].modified == stamp)
  {
    var init, last := eps[..|eps| - 1], eps[|eps| - 1];
    UploadsInit(username, eps, stamp);
    UploadedRow(hash, t, username, eps, stamp, Key(username, eps[i].podcast, eps[i].episode));
    if i < |init| {
      UploadStores(hash, t, username, init, stamp, i);
    }
  }

  /** And it touches no other row. */
  lemma {:induction false} UploadSparesOthers(hash: Hasher, t: Table, username: string, eps: seq<Episode>, stamp: int,
                                              k: Key)
    requires k.username != username || !Listed(eps, k)
    ensures Lookup(UpsertAll(hash, t, Uploads(username, eps, stamp)), k) == Lookup(t, k)
  {
    if eps != [] {
      var init, last := eps[..|eps| - 1], eps[|eps| - 1];
      UploadsInit(username, eps, stamp);
      assert eps[|eps| - 1] == last;
      assert forall i :: 0 <= i < |init| ==> init[i] == eps[i];
      UploadSparesOthers(hash, t, username, init, stamp, k);
    }
  }

  /** A row last changed before second `since` was there when that second began. */
  lemma {:induction false} OldRowWasThere(hash: Hasher, events: seq<Event>, n: nat, since: int, k: Key)
    requires n <= |events| && forall i :: n <= i < |events| ==> since <= events[i].time
    ensures var t, t' := Run(hash, events[..n]).table, Run(hash, events).table;
            k in t' && t'[k].modified < since ==> Lookup(t, k) == Some(t'[k])
  {
    if n == |events| {
      assert events[..n] == events;
    } else {
      var before, e := events[..|events| - 1], events[|events| - 1];
      assert before[..n] == events[..n];
      OldRowWasThere(hash, before, n, since, k);
      var t := Run(hash, before).table;
      match e.step
      case Push(other, eps) => UploadedRow(hash, t, other.username, eps, e.time, k);
      case BrokenPush(other, eps, stored) =>
        UploadedRow(hash, t, other.username, eps[..if stored <= |eps| then stored else |eps|], e.time, k);
      case _ =>
    }
  }

  /**
   A client that adopts the token of its own upload is right after its next pull exactly when it held
   every row outside the upload that last changed before the second of the upload: whatever others
   did in that second or later, before or after the upload, it still gets to see.
   */
  lemma PushTokenRightIff(hash: Hasher, events: seq<Event>, contents: set<Content>, p: nat, id: ClientId,
                          eps: seq<Episode>, was: map<EpisodeId, Content>, clock: int)
    requires UploadsWithin(events, contents) && Separates(hash, contents)
    requires p < |events| && events[p].step == Push(id, eps)
    ensures var t, c := Run(hash, events).table, Client(Noted(was, eps), events[p].time);
            HoldsAll(t, id.username, PullInto(t, id, c, clock).replica)
            <==> forall k :: k in t && k.username == id.username
                             && t[k].modified < events[p].time && !Listed(eps, k) ==>
                   Holds(was, k, t[k].content)
  {
    hide Run, PullInto, Noted, Listed, Holds, Separates;
    var t, c := Run(hash, events).table, Client(Noted(was, eps), events[p].time);
    PullRightIffUpToDate(t, id, c, clock);
    forall k | k in t && k.username == id.username && t[k].modified < events[p].time
      ensures Holds(c.replica, k, t[k].content) <==> Listed(eps, k) || Holds(was, k, t[k].content)
    {
      OldRowAfterUpload(hash, events, contents, p, id, eps, was, k);
    }
  }

  lemma OldRowAfterUpload(hash: Hasher, events: seq<Event>, contents: set<Content>, p: nat, id: ClientId,
                          eps: seq<Episode>, was: map<EpisodeId, Content>, k: Key)
    requires UploadsWithin(events, contents) && Separates(hash, contents)
    requires p < |events| && events[p].step == Push(id, eps)
    requires var t := Run(hash, events).table; k in t && k.username == id.username && t[k].modified < events[p].time
    ensures var content := Run(hash, events).table[k].content;
            Holds(Noted(was, eps), k, content) <==> Listed(eps, k) || Holds(was, k, content)
  {
    hide Noted, Holds, Separates, Listed;
    var before := events[..p];
    assert events[..p + 1][..p] == before;
    OldRowWasThere(hash, events, p + 1, events[p].time, k);
    forall e | e in before ensures Uploaded(e) <= contents {
      assert e in events;
    }
    RunKeepsClients(hash, before, contents, id);
    assert events[p] in events;
    forall ep | ep in eps ensures ep.content in contents { assert ep.content in Uploaded(events[p]); }
    UploaderHolds(hash, Run(hash, before).table, id.username, eps, events[p].time, contents, was, k);
  }

  lemma RunNext(hash: Hasher, events: seq<Event>, e: Event)
    ensures Run(hash, events + [e]) == Next(hash, Run(hash, events), e)
  {
  }

  function PushOne(id: ClientId, c: Content): Step {
    Push(id, [Episode("p", "e", None, None, None, c)])
  }

  /**
   Separating the uploaded contents is needed: for any two that collide there is a run of the one
   client, clock in order, whose final pull leaves it holding `d` where the server holds `c`.
   */
  lemma CollisionBreaksPulls(hash: Hasher, c: Content, d: Content, id: ClientId) returns (events: seq<Event>)
    requires c != d && hash(c) == hash(d)
    ensures ClockRuns(events) && (forall e :: e in events ==> Uploaded(e) <= {c, d})
    ensures events != [] && events[|events| - 1].step == Pull(id, 4)
    ensures var s := Run(hash, events);
            var k := Key(id.username, "p", "e");
            k in s.table && s.table[k].content == c && ClientOf(s, id).replica == map[EpisodeId("p", "e") := d]
  {
    events := CollisionRun(hash, c, d, id);
    CollisionRunAdmissible(id, c, d, events);
  }

  lemma CollisionRun(hash: Hasher, c: Content, d: Content, id: ClientId) returns (events: seq<Event>)
    requires hash(c) == hash(d)
    ensures |events| == 4 && events[0] == Event(1, PushOne(id, c)) && events[1] == Event(2, Pull(id, 2))
    ensures events[2] == Event(3, PushOne(id, d)) && events[3] == Event(4, Pull(id, 4))
    ensures var s := Run(hash, events);
            var k := Key(id.username, "p", "e");
            k in s.table && s.table[k].content == c && ClientOf(s, id).replica == map[EpisodeId("p", "e") := d]
  {
    hide PushOne, Next;
    var firstTwo, s2 := PushThenPull(hash, c, id);
    events := CollideThenPull(hash, firstTwo, d, id);
    assert events[0] == events[..2][0] && events[1] == events[..2][1];
  }

  lemma CollideThenPull(hash: Hasher, before: seq<Event>, d: Content, id: ClientId) returns (events: seq<Event>)
    requires var s, k := Run(hash, before), Key(id.username, "p", "e");
             && k in s.table && s.table[k].hash == hash(d)
             && forall q :: q in s.table ==> s.table[q].modified < ClientOf(s, id).token
    ensures |events| == |before| + 2 && events[..|before|] == before
    ensures events[|before|] == Event(3, PushOne(id, d)) && events[|before| + 1] == Event(4, Pull(id, 4))
    ensures var s, s' := Run(hash, before), Run(hash, events);
            && s'.table == s.table
            && ClientOf(s', id).replica == ClientOf(s, id).replica[EpisodeId("p", "e") := d]
  {
    var s := Run(hash, before);
    var e3, e4 := Event(3, PushOne(id, d)), Event(4, Pull(id, 4));
    var three := before + [e3];
    events := three + [e4];
    RunNext(hash, before, e3);
    RunNext(hash, three, e4);
    CollidingPush(hash, s, d, id, 3);
    PullOfOldRows(Next(hash, s, e3), id, 4);
  }

  lemma CollisionRunAdmissible(id: ClientId, c: Content, d: Content, events: seq<Event>)
    requires |events| == 4 && events[0] == Event(1, PushOne(id, c)) && events[1] == Event(2, Pull(id, 2))
    requires events[2] == Event(3, PushOne(id, d)) && events[3] == Event(4, Pull(id, 4))
    ensures ClockRuns(events) && (forall e :: e in events ==> Uploaded(e) <= {c, d})
  {
  }

  lemma PushThenPull(hash: Hasher, c: Content, id: ClientId) returns (events: seq<Event>, s: State)
    ensures |events| == 2 && events[0] == Event(1, PushOne(id, c)) && events[1] == Event(2, Pull(id, 2))
    ensures s == Run(hash, events)
    ensures s.table == map[Key(id.username, "p", "e") := Row(None, None, None, c, 1, hash(c))]
    ensures ClientOf(s, id) == Client(map[EpisodeId("p", "e") := c], 2)
  {
    var e1, e2 := Event(1, PushOne(id, c)), Event(2, Pull(id, 2));
    var one := [] + [e1];
    events := one + [e2];
    s := Run(hash, events);
    RunNext(hash, [], e1);
    RunNext(hash, one, e2);
    var first := Episode("p", "e", None, None, None, c);
    OneUpload(hash, map[], id.username, first, 1);
    NotedOne(map[], first);
    var s1 := Run(hash, one);
    assert ClientOf(s1, id) == Client(map[EpisodeId("p", "e") := c], 0);
    PullOfKnownRow(s1.table, id, Key(id.username, "p", "e"), c, 2);
  }

  lemma CollidingPush(hash: Hasher, s: State, d: Content, id: ClientId, now: int)
    requires var k := Key(id.username, "p", "e"); k in s.table && s.table[k].hash == hash(d)
    ensures var s' := Next(hash, s, Event(now, PushOne(id, d)));
            s'.table == s.table
            && ClientOf(s', id) == Client(ClientOf(s, id).replica[EpisodeId("p", "e") := d], ClientOf(s, id).token)
  {
    var ep := Episode("p", "e", None, None, None, d);
    OneUpload(hash, s.table, id.username, ep, now);
    NotedOne(ClientOf(s, id).replica, ep);
  }

  lemma PullOfOldRows(s: State, id: ClientId, now: int)
    requires forall k :: k in s.table ==> s.table[k].modified < ClientOf(s, id).token
    ensures PullInto(s.table, id, ClientOf(s, id), now).replica == ClientOf(s, id).replica
  {
  }

  lemma PullOfKnownRow(t: Table, id: ClientId, k: Key, c: Content, now: int)
    requires k.username == id.username && t.Keys == {k} && t[k].content == c && t[k].modified >= 0
    ensures var episode := EpisodeId(k.podcast, k.episode);
            PullInto(t, id, Client(map[episode := c], 0), now) == Client(map[episode := c], now)
  {
  }

  lemma OneUpload(hash: Hasher, t: Table, username: string, ep: Episode, stamp: int)
    ensures UpsertAll(hash, t, Uploads(username, [ep], stamp)) == Upsert(hash, t, Upload(username, ep, stamp))
  {
  }

  lemma NotedOne(replica: map<EpisodeId, Content>, ep: Episode)
    ensures Noted(replica, [ep]) == replica[EpisodeId(ep.podcast, ep.episode) := ep.content]
  {
  }
}
