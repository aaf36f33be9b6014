/**
 The delta protocol between the server and any number of clients.

 Every handler is one atomic step that reads the clock once. All writers of the table (sync push
 and PUT, API v1, the web UI) are requests; `Handle` is the table each leaves behind, and
 `HandleIsOneWrite` shows that they all boil down to one disjoint add/remove batch.
 A client starts with an empty replica at since=0 and afterwards carries the token of its last pull.
 */
module SubscriptionSync {
  import opened Prelude
  import opened SubscriptionTable
  import Log = SubscriptionLog

  /** The URL check applied by `filterValidURLs`. */
  type UrlCheck = string -> bool

  function ValidURLs(valid: UrlCheck, urls: seq<string>): (r: set<string>)
    ensures forall url :: url in r <==> url in urls && valid(url)
  {
    set url | url in urls && valid(url)
  }

  datatype Request =
    | Push(username: string, add: seq<string>, remove: seq<string>)
    | Put(username: string, urls: seq<string>)
    | ApiUpdate(username: string, add: seq<string>, remove: seq<string>)
    | Subscribe(username: string, url: string)
    | Import(username: string, urls: seq<string>)
    | DeleteOne(username: string, url: string)
    | DeleteAll(username: string)
      // A request that failed after some of its separately committed reactivations.
    | Failed(username: string, reactivated: set<string>)

  /** The table after a request handled at second `now`. */
  function Handle(valid: UrlCheck, t: Table, r: Request, now: int): Table {
    match r
    case Push(u, add, remove) =>
      var a, d := ValidURLs(valid, add), SetOf(remove);
      if a !! d then Changed(t, u, a, d, now) else t
    case Put(u, urls) => Replaced(t, u, ValidURLs(valid, urls), now)
    case ApiUpdate(u, add, remove) =>
      var a, d := ValidURLs(valid, add), ValidURLs(valid, remove);
      if a !! d then Changed(t, u, a, d, now) else t
    case Subscribe(u, url) => if url != "" && valid(url) then Changed(t, u, {url}, {}, now) else t
    case Import(u, urls) => Changed(t, u, ValidURLs(valid, urls), {}, now)
    case DeleteOne(u, url) => if url != "" then Changed(t, u, {}, {url}, now) else t
    case DeleteAll(u) => Changed(t, u, {}, Active(t, u), now)
    case Failed(u, urls) => Reactivated(t, u, urls, now)
  }

  datatype Batch = Batch(add: set<string>, remove: set<string>)

  /** What a request comes down to on a given table. */
  function BatchOf(valid: UrlCheck, t: Table, r: Request): Batch {
    match r
    case Push(_, add, remove) =>
      var a, d := ValidURLs(valid, add), SetOf(remove);
      if a !! d then Batch(a, d) else Batch({}, {})
    case Put(u, urls) => Batch(ValidURLs(valid, urls), Active(t, u) - ValidURLs(valid, urls))
    case ApiUpdate(_, add, remove) =>
      var a, d := ValidURLs(valid, add), ValidURLs(valid, remove);
      if a !! d then Batch(a, d) else Batch({}, {})
    case Subscribe(_, url) => if url != "" && valid(url) then Batch({url}, {}) else Batch({}, {})
    case Import(_, urls) => Batch(ValidURLs(valid, urls), {})
    case DeleteOne(_, url) => if url != "" then Batch({}, {url}) else Batch({}, {})
    case DeleteAll(u) => Batch({}, Active(t, u))
    case Failed(u, urls) => Batch(set url | url in urls && Key(u, url) in t && t[Key(u, url)].deleted.Some?, {})
  }

  /** Every writer applies one batch whose two sides are disjoint. */
  lemma HandleIsOneWrite(valid: UrlCheck, t: Table, r: Request, now: int)
    ensures var b := BatchOf(valid, t, r);
            b.add !! b.remove && Handle(valid, t, r, now) == Changed(t, r.username, b.add, b.remove, now)
  {
    NothingChanged(t, r.username, now);
    if r.Failed? {
      ReactivatedIsChange(t, r.username, r.reactivated, now);
    }
  }

  // What a request means, said of the active set alone.

  /** The user's subscriptions after a request, from those before it. */
  lemma ActiveAfterRequest(valid: UrlCheck, t: Table, r: Request, now: int)
    ensures var before, after := Active(t, r.username), Active(Handle(valid, t, r, now), r.username);
            match r
            case Push(_, add, remove) =>
              after == if ValidURLs(valid, add) !! SetOf(remove) then before + ValidURLs(valid, add) - SetOf(remove)
                       else before
            case Put(_, urls) => after == ValidURLs(valid, urls)
            case ApiUpdate(_, add, remove) =>
              after == if ValidURLs(valid, add) !! ValidURLs(valid, remove)
                       then before + ValidURLs(valid, add) - ValidURLs(valid, remove) else before
            case Subscribe(_, url) => after == if url != "" && valid(url) then before + {url} else before
            case Import(_, urls) => after == before + ValidURLs(valid, urls)
            case DeleteOne(_, url) => after == if url != "" then before - {url} else before
            case DeleteAll(_) => after == {}
            case Failed(u, urls) => after == before + set url | url in urls && Key(u, url) in t
  {
    hide Handle, Changed, Active;
    HandleIsOneWrite(valid, t, r, now);
    var b := BatchOf(valid, t, r);
    ActiveAfterChange(t, r.username, b.add, b.remove, now);
  }

  /** Rows of other users and rows whose status stays are untouched; the others are stamped with the request. */
  lemma RowAfterRequest(valid: UrlCheck, t: Table, r: Request, now: int, k: Key)
    ensures var t' := Handle(valid, t, r, now);
            var before, after := IsActive(t, k.username, k.url), IsActive(t', k.username, k.url);
            if k.username != r.username || before == after then Get(t', k) == Get(t, k)
            else if after then Get(t', k) == Some(Row(now, None))
            else k in t && Get(t', k) == Some(t[k].(deleted := Some(now)))
  {
    hide Handle, BatchOf;
    HandleIsOneWrite(valid, t, r, now);
  }

  /** So two requests of a user that leave the same active set leave the same table. */
  lemma SameActiveSameTable(valid: UrlCheck, t: Table, r: Request, r': Request, now: int)
    requires r.username == r'.username
    requires Active(Handle(valid, t, r, now), r.username) == Active(Handle(valid, t, r', now), r.username)
    ensures Handle(valid, t, r, now) == Handle(valid, t, r', now)
  {
    hide Handle, Active;
    var a, b := Handle(valid, t, r, now), Handle(valid, t, r', now);
    forall k: Key ensures Get(a, k) == Get(b, k) {
      RowAfterRequest(valid, t, r, now, k);
      RowAfterRequest(valid, t, r', now, k);
      if k.username == r.username {
        assert IsActive(a, k.username, k.url) <==> k.url in Active(a, r.username);
        assert IsActive(b, k.username, k.url) <==> k.url in Active(b, r.username);
      }
    }
    SameRows(a, b);
  }

  lemma SameRows(a: Table, b: Table)
    requires forall k: Key :: Get(a, k) == Get(b, k)
    ensures a == b
  {
    forall k ensures k in a <==> k in b { assert Get(a, k) == Get(b, k); }
    forall k | k in a ensures a[k] == b[k] { assert Get(a, k) == Get(b, k); }
  }

  /** All writers agree: adding a list by API v1, by OPML import, by push or URL by URL is the same. */
  lemma AddersAgree(valid: UrlCheck, t: Table, username: string, urls: seq<string>, url: string, now: int)
    ensures Handle(valid, t, ApiUpdate(username, urls, []), now) == Handle(valid, t, Import(username, urls), now)
    ensures Handle(valid, t, Push(username, urls, []), now) == Handle(valid, t, Import(username, urls), now)
    ensures url != "" ==>
              Handle(valid, t, Subscribe(username, url), now) == Handle(valid, t, Import(username, [url]), now)
  {
    hide Handle, Active;
    var byImport, byApi, byPush := Import(username, urls), ApiUpdate(username, urls, []), Push(username, urls, []);
    ActiveAfterRequest(valid, t, byImport, now);
    ActiveAfterRequest(valid, t, byApi, now);
    ActiveAfterRequest(valid, t, byPush, now);
    SameActiveSameTable(valid, t, byApi, byImport, now);
    SameActiveSameTable(valid, t, byPush, byImport, now);
    if url != "" {
      ActiveAfterRequest(valid, t, Subscribe(username, url), now);
      ActiveAfterRequest(valid, t, Import(username, [url]), now);
      assert ValidURLs(valid, [url]) == if valid(url) then {url} else {};
      SameActiveSameTable(valid, t, Subscribe(username, url), Import(username, [url]), now);
    }
  }

  /** And so do the removers: deleting one URL is a push, deleting all an upload of the empty list. */
  lemma RemoversAgree(valid: UrlCheck, t: Table, username: string, url: string, now: int)
    ensures url != "" ==>
              Handle(valid, t, DeleteOne(username, url), now) == Handle(valid, t, Push(username, [], [url]), now)
    ensures Handle(valid, t, DeleteAll(username), now) == Handle(valid, t, Put(username, []), now)
  {
    hide Handle, Active;
    ActiveAfterRequest(valid, t, DeleteOne(username, url), now);
    ActiveAfterRequest(valid, t, Push(username, [], [url]), now);
    ActiveAfterRequest(valid, t, DeleteAll(username), now);
    ActiveAfterRequest(valid, t, Put(username, []), now);
    SameActiveSameTable(valid, t, DeleteAll(username), Put(username, []), now);
    if url != "" {
      SameActiveSameTable(valid, t, DeleteOne(username, url), Push(username, [], [url]), now);
    }
  }

  // Clients and runs.

  datatype Client = Client(replica: set<string>, token: int)

  datatype Step = Serve(request: Request) | Pull(client: ClientId)
  datatype Event = Event(time: int, step: Step)
  datatype State = State(table: Table, clients: map<ClientId, Client>)

  const Start := State(map[], map[])

  function ClientOf(s: State, id: ClientId): Client {
    if id in s.clients then s.clients[id] else Client({}, 0)
  }

  /** The client applies the feed since its token and keeps the token of the answer. */
  function PullInto(t: Table, id: ClientId, c: Client, now: int): Client {
    Client(c.replica - FeedRemove(t, id.username, c.token) + FeedAdd(t, id.username, c.token), now + 1)
  }

  function Next(valid: UrlCheck, s: State, e: Event): State {
    match e.step
    case Serve(r) => s.(table := Handle(valid, s.table, r, e.time))
    case Pull(id) => s.(clients := s.clients[id := PullInto(s.table, id, ClientOf(s, id), e.time)])
  }

  function Run(valid: UrlCheck, events: seq<Event>): State {
    if events == [] then Start
    else Next(valid, Run(valid, events[..|events| - 1]), events[|events| - 1])
  }

  /** Clock readings never go back. */
  ghost predicate ClockRuns(events: seq<Event>) {
    && (forall i :: 0 <= i < |events| ==> 0 <= events[i].time)
    && (forall i, j :: 0 <= i <= j < |events| ==> events[i].time <= events[j].time)
  }

  /** No write for the client's user follows a pull of the client within the second of that pull. */
  ghost predicate NoWriteInPulledSecond(events: seq<Event>, id: ClientId) {
    forall i, j :: 0 <= i < j < |events| && events[i].step == Pull(id)
                   && events[j].step.Serve? && events[j].step.request.username == id.username
                   ==> events[i].time < events[j].time
  }

  /** A URL on which the client may be wrong is still ahead of the client's token. */
  ghost predicate UpToDate(t: Table, id: ClientId, c: Client) {
    forall url {:trigger Key(id.username, url)} ::
      (url in c.replica <==> IsActive(t, id.username, url))
      || (Key(id.username, url) in t && InFeed(t[Key(id.username, url)], c.token))
  }

  /** The token is the initial 0 or that of an earlier pull. */
  ghost predicate TokenFromPull(events: seq<Event>, id: ClientId, token: int) {
    token == 0 || exists i :: 0 <= i < |events| && events[i].step == Pull(id) && token == events[i].time + 1
  }

  /** A pull leaves the replica equal to the active set exactly when the client was up to date. */
  lemma PullRightIffUpToDate(t: Table, id: ClientId, c: Client, now: int)
    ensures PullInto(t, id, c, now).replica == Active(t, id.username) <==> UpToDate(t, id, c)
  {
    var replica := PullInto(t, id, c, now).replica;
    if UpToDate(t, id, c) {
      forall url ensures url in replica <==> url in Active(t, id.username) {
        var k := Key(id.username, url);
      }
    }
  }

  /** A write no older than the token cannot slip past the client. */
  lemma WriteKeepsUpToDate(valid: UrlCheck, t: Table, r: Request, now: int, id: ClientId, c: Client)
    requires UpToDate(t, id, c)
    requires r.username == id.username ==> c.token <= now
    ensures UpToDate(Handle(valid, t, r, now), id, c)
  {
  }

  lemma {:induction false} RunKeepsClients(valid: UrlCheck, events: seq<Event>, id: ClientId)
    requires ClockRuns(events) && NoWriteInPulledSecond(events, id)
    ensures var s := Run(valid, events);
            UpToDate(s.table, id, ClientOf(s, id)) && TokenFromPull(events, id, ClientOf(s, id).token)
  {
    if events != [] {
      var before, e := events[..|events| - 1], events[|events| - 1];
      RunKeepsClients(valid, before, id);
      var s := Run(valid, before);
      var c := ClientOf(s, id);
      match e.step {
        case Serve(r) =>
          assert r.username == id.username ==> c.token <= e.time;
          WriteKeepsUpToDate(valid, s.table, r, e.time, id, c);
        case Pull(other) =>
          if other == id {
            PullRightIffUpToDate(s.table, id, c, e.time);
            assert events[|events| - 1].step == Pull(id);
          }
      }
      if c.token != 0 {
        var i :| 0 <= i < |before| && before[i].step == Pull(id) && c.token == before[i].time + 1;
        assert events[i] == before[i];
      }
    }
  }

  /**
   Convergence: in every run in which no write for the user shares the second of an earlier pull of
   this client, after every pull the client holds exactly the active set.
   */
  lemma Convergence(valid: UrlCheck, events: seq<Event>, pull: nat, id: ClientId)
    requires ClockRuns(events) && NoWriteInPulledSecond(events, id)
    requires pull < |events| && events[pull].step == Pull(id)
    ensures var s := Run(valid, events[..pull + 1]);
            ClientOf(s, id).replica == Active(s.table, id.username)
  {
    var prefix := events[..pull];
    assert events[..pull + 1][..pull] == prefix;
    RunKeepsClients(valid, prefix, id);
    var s := Run(valid, prefix);
    PullRightIffUpToDate(s.table, id, ClientOf(s, id), events[pull].time);
  }

  /** The requests of a run: one entry each, with its second, its user and the batch it came down to. */
  function LogOf(valid: UrlCheck, events: seq<Event>): Log.Log {
    if events == [] then []
    else
      var before, e := events[..|events| - 1], events[|events| - 1];
      match e.step
      case Pull(_) => LogOf(valid, before)
      case Serve(r) =>
        var b := BatchOf(valid, Run(valid, before).table, r);
        LogOf(valid, before) + [Log.Write(e.time, r.username, b.add, b.remove)]
  }

  /** Every table a run reaches is the replay of its requests, so its feeds answer for those. */
  lemma {:induction false} RunIsReplay(valid: UrlCheck, events: seq<Event>)
    requires ClockRuns(events)
    ensures var log := LogOf(valid, events);
            && Log.WellFormed(log) && Log.Replay(log) == Run(valid, events).table
            && (log != [] ==> events != [] && log[|log| - 1].stamp <= events[|events| - 1].time)
  {
    if events != [] {
      var before, e := events[..|events| - 1], events[|events| - 1];
      RunIsReplay(valid, before);
      if before != [] {
        assert before[|before| - 1] == events[|events| - 2];
      }
      if e.step.Serve? {
        var t := Run(valid, before).table;
        HandleIsOneWrite(valid, t, e.step.request, e.time);
        var b := BatchOf(valid, t, e.step.request);
        Log.ReplayNext(LogOf(valid, before), Log.Write(e.time, e.step.request.username, b.add, b.remove));
      }
    }
  }

  // Exactly when a pull is right, with no hypothesis on the writes.

  /** For every log, replica and token: the pull is right iff each disagreement flipped since the token. */
  lemma PullRightIffFlippedSince(log: Log.Log, id: ClientId, was: set<string>, token: int, now: int)
    requires Log.WellFormed(log)
    ensures PullInto(Log.Replay(log), id, Client(was, token), now).replica == Active(Log.Replay(log), id.username)
       <==> forall url :: (url in was) != (url in Log.Members(log, id.username)) ==>
              Log.FlippedSince(log, id.username, url, token)
  {
    var t, c := Log.Replay(log), Client(was, token);
    PullRightIffUpToDate(t, id, c, now);
    forall url {:trigger Key(id.username, url)}
      ensures IsActive(t, id.username, url) <==> url in Log.Members(log, id.username)
      ensures Key(id.username, url) in t && InFeed(t[Key(id.username, url)], token)
         <==> Log.FlippedSince(log, id.username, url, token)
    {
      Log.RowRefinesLog(log, id.username, url);
    }
    if UpToDate(t, id, c) {
      forall url | (url in was) != (url in Log.Members(log, id.username))
        ensures Log.FlippedSince(log, id.username, url, token)
      {
        var k := Key(id.username, url);
      }
    }
  }

  ghost predicate NoPullBetween(events: seq<Event>, id: ClientId, from: nat, to: nat) {
    forall i :: from <= i < to && i < |events| ==> events[i].step != Pull(id)
  }

  lemma {:induction false} ClientUntouched(valid: UrlCheck, events: seq<Event>, id: ClientId, from: nat, to: nat)
    requires from <= to <= |events| && NoPullBetween(events, id, from, to)
    ensures ClientOf(Run(valid, events[..to]), id) == ClientOf(Run(valid, events[..from]), id)
  {
    if from < to {
      ClientUntouched(valid, events, id, from, to - 1);
      assert events[..to][..to - 1] == events[..to - 1];
    }
  }

  lemma RunAfterPull(valid: UrlCheck, events: seq<Event>, i: nat, id: ClientId)
    requires i < |events| && events[i].step == Pull(id)
    ensures var s, s' := Run(valid, events[..i]), Run(valid, events[..i + 1]);
            && s'.table == s.table && ClientOf(s', id) == PullInto(s.table, id, ClientOf(s, id), events[i].time)
            && ClientOf(s', id).token == events[i].time + 1
  {
    assert events[..i + 1][..i] == events[..i];
  }

  /**
   Between two consecutive pulls of a client any requests may come from anywhere, at any time the
   clock allows. The second pull is right exactly when every URL whose membership differs from the
   replica after the first last flipped later than the second of the first pull.
   */
  lemma ConvergesIff(valid: UrlCheck, events: seq<Event>, first: nat, second: nat, id: ClientId)
    requires ClockRuns(events) && first < second < |events|
    requires events[first].step == Pull(id) && events[second].step == Pull(id)
             && NoPullBetween(events, id, first + 1, second)
    ensures var log := LogOf(valid, events[..second]);
            var was := ClientOf(Run(valid, events[..first + 1]), id).replica;
            var s := Run(valid, events[..second + 1]);
            ClientOf(s, id).replica == Active(s.table, id.username)
            <==> forall url :: (url in was) != (url in Log.Members(log, id.username)) ==>
                   Log.FlippedSince(log, id.username, url, events[first].time + 1)
  {
    hide PullInto, Run, LogOf, Log.WellFormed;
    var was := ClientOf(Run(valid, events[..first + 1]), id).replica;
    RunIsReplay(valid, events[..second]);
    RunAfterPull(valid, events, first, id);
    ClientUntouched(valid, events, id, first + 1, second);
    RunAfterPull(valid, events, second, id);
    PullRightIffFlippedSince(LogOf(valid, events[..second]), id, was, events[first].time + 1, events[second].time);
  }

  // The cases of a single write and of the push token.

  ghost predicate StampedBy(t: Table, now: int) {
    forall k :: k in t ==> t[k].created <= now && (t[k].deleted.Some? ==> t[k].deleted.value <= now)
  }

  lemma {:induction false} RunStampedByClock(valid: UrlCheck, events: seq<Event>)
    requires ClockRuns(events)
    ensures events == [] ==> Run(valid, events).table == map[]
    ensures events != [] ==> StampedBy(Run(valid, events).table, events[|events| - 1].time)
  {
    if events != [] {
      var before, e := events[..|events| - 1], events[|events| - 1];
      RunStampedByClock(valid, before);
      if before != [] {
        assert before[|before| - 1] == events[|events| - 2];
      }
      if e.step.Serve? {
        HandleIsOneWrite(valid, Run(valid, before).table, e.step.request, e.time);
      }
    }
  }

  /**
   A client in step with the server misses the next write exactly when that write is stamped before
   the client's token and changes the active set: with the token of a pull, one in the same second.
   */
  lemma NextPullMissesIffStampedBeforeToken(valid: UrlCheck, t: Table, id: ClientId, token: int, r: Request,
                                            wroteAt: int, now: int)
    requires StampedBy(t, token - 1)
    requires r.username == id.username
    ensures var t' := Handle(valid, t, r, wroteAt);
            var c := Client(Active(t, id.username), token);
            PullInto(t', id, c, now).replica == Active(t', id.username)
            <==> wroteAt >= token || Active(t', id.username) == Active(t, id.username)
  {
    HandleIsOneWrite(valid, t, r, wroteAt);
    var t' := Handle(valid, t, r, wroteAt);
    var c := Client(Active(t, id.username), token);
    if wroteAt >= token {
      WriteKeepsUpToDate(valid, t, r, wroteAt, id, c);
      PullRightIffUpToDate(t', id, c, now);
    } else {
      forall url ensures url !in FeedAdd(t', id.username, c.token) && url !in FeedRemove(t', id.username, c.token) {
        var k := Key(id.username, url);
        assert k in t' ==> !InFeed(t'[k], c.token);
      }
      assert PullInto(t', id, c, now).replica == c.replica;
    }
  }

  /** In a run: after a right pull a lone write that changes anything is missed exactly in the same second. */
  lemma LoneWriteMissedIffSameSecond(valid: UrlCheck, events: seq<Event>, id: ClientId, r: Request, wroteAt: int,
                                     now: int)
    requires ClockRuns(events) && events != [] && events[|events| - 1].step == Pull(id)
    requires ClientOf(Run(valid, events), id).replica == Active(Run(valid, events).table, id.username)
    requires r.username == id.username && events[|events| - 1].time <= wroteAt
    ensures var s := Run(valid, events);
            var t' := Handle(valid, s.table, r, wroteAt);
            PullInto(t', id, ClientOf(s, id), now).replica == Active(t', id.username)
            <==> wroteAt > events[|events| - 1].time || Active(t', id.username) == Active(s.table, id.username)
  {
    hide Run, PullInto, Handle;
    RunStampedByClock(valid, events);
    assert events[..|events| - 1 + 1] == events;
    RunAfterPull(valid, events, |events| - 1, id);
    NextPullMissesIffStampedBeforeToken(valid, Run(valid, events).table, id,
                                        events[|events| - 1].time + 1, r, wroteAt, now);
  }

  /** The smallest failing run: pull and subscribe within second 5, and the client never hears of it. */
  lemma WriteInPulledSecondIsLost(valid: UrlCheck, id: ClientId, url: string, later: int)
    requires url != "" && valid(url) && 5 <= later
    ensures var s := Run(valid, [Event(5, Pull(id)),
                                  Event(5, Serve(Subscribe(id.username, url))), Event(later, Pull(id))]);
            ClientOf(s, id).replica == {} && Active(s.table, id.username) == {url}
  {
    var a, b, c := Event(5, Pull(id)), Event(5, Serve(Subscribe(id.username, url))), Event(later, Pull(id));
    assert [a, b, c][..2] == [a, b] && [a, b][..1] == [a] && [a][..0] == [];
    var s1 := Run(valid, [a]);
    assert Run(valid, [a][..0]) == Start && [a][0] == a;
    assert s1 == Next(valid, Start, a);
    var s2 := Run(valid, [a, b]);
    assert s2 == Next(valid, s1, b);
    ActiveAfterChange(s1.table, id.username, {url}, {}, 5);
    NextPullMissesIffStampedBeforeToken(valid, s1.table, id, 6, Subscribe(id.username, url), 5, later);
    assert ClientOf(s2, id) == Client({}, 6);
    forall u ensures u !in FeedAdd(s2.table, id.username, 6) && u !in FeedRemove(s2.table, id.username, 6) {
    }
  }

  // Carrying on from a token that is not the client's last pull.

  /** A row either stays as it was or, once written from second `since` on, lies ahead of a token `since`. */
  lemma {:induction false} RowKeptOrAhead(valid: UrlCheck, events: seq<Event>, n: nat, username: string, url: string,
                                          since: int)
    requires n <= |events| && WritesFrom(events, n, username, since)
    ensures var k, t, t' := Key(username, url), Run(valid, events[..n]).table, Run(valid, events).table;
            Get(t', k) == Get(t, k) || (k in t' && InFeed(t'[k], since))
  {
    if n == |events| {
      assert events[..n] == events;
    } else {
      var before, e := events[..|events| - 1], events[|events| - 1];
      assert before[..n] == events[..n];
      RowKeptOrAhead(valid, before, n, username, url, since);
      if e.step.Serve? {
        HandleIsOneWrite(valid, Run(valid, before).table, e.step.request, e.time);
      }
    }
  }

  /** From event `n` on the user's writes are stamped `since` or later. */
  ghost predicate WritesFrom(events: seq<Event>, n: nat, username: string, since: int) {
    forall i :: n <= i < |events| && events[i].step.Serve? && events[i].step.request.username == username ==>
      since <= events[i].time
  }

  /**
   For any replica and token, wherever they come from: after any further requests a pull is right
   exactly when each URL on which the replica differs from the active set at the token, that is
   before the first write stamped by it, has flipped since.
   */
  lemma TokenRightIff(valid: UrlCheck, events: seq<Event>, n: nat, id: ClientId, c: Client, now: int)
    requires ClockRuns(events) && n <= |events| && WritesFrom(events, n, id.username, c.token)
    ensures var t, t' := Run(valid, events[..n]).table, Run(valid, events).table;
            PullInto(t', id, c, now).replica == Active(t', id.username)
            <==> forall url :: (url in c.replica) != (url in Active(t, id.username)) ==>
                   Log.FlippedSince(LogOf(valid, events), id.username, url, c.token)
  {
    hide Run, PullInto, LogOf, Log.WellFormed;
    var t, t', log := Run(valid, events[..n]).table, Run(valid, events).table, LogOf(valid, events);
    RunIsReplay(valid, events);
    PullRightIffUpToDate(t', id, c, now);
    forall url {:trigger Key(id.username, url)}
      ensures Key(id.username, url) in t' && InFeed(t'[Key(id.username, url)], c.token)
         <==> Log.FlippedSince(log, id.username, url, c.token)
      ensures Log.FlippedSince(log, id.username, url, c.token)
           || (IsActive(t', id.username, url) <==> IsActive(t, id.username, url))
    {
      Log.RowRefinesLog(log, id.username, url);
      RowKeptOrAhead(valid, events, n, id.username, url, c.token);
    }
    if UpToDate(t', id, c) {
      forall url | (url in c.replica) != (url in Active(t, id.username))
        ensures Log.FlippedSince(log, id.username, url, c.token)
      {
        var k := Key(id.username, url);
      }
    }
  }

  /** What a client holds after its own accepted push, with the token of the answer. */
  function Pushed(valid: UrlCheck, was: set<string>, add: seq<string>, remove: seq<string>, now: int): Client {
    Client(was + ValidURLs(valid, add) - SetOf(remove), now + 1)
  }

  /**
   A client that adopts the token of its own push, as the answer invites it to, is right after its
   next pull exactly when each URL on which it differs from the active set at the end of the second
   of the push flips in a later second. Requests may precede, share the second and follow at will;
   `n` is the first event past that second, or any later one with no write for the user between.
   */
  lemma PushTokenRightIff(valid: UrlCheck, events: seq<Event>, p: nat, n: nat, id: ClientId, was: set<string>,
                          add: seq<string>, remove: seq<string>, now: int)
    requires ClockRuns(events) && p < n <= |events|
    requires events[p].step == Serve(Push(id.username, add, remove)) && ValidURLs(valid, add) !! SetOf(remove)
    requires WritesFrom(events, n, id.username, events[p].time + 1)
    ensures var c, t, t' := Pushed(valid, was, add, remove, events[p].time), Run(valid, events[..n]).table,
                            Run(valid, events).table;
            PullInto(t', id, c, now).replica == Active(t', id.username)
            <==> forall url :: (url in c.replica) != (url in Active(t, id.username)) ==>
                   Log.FlippedSince(LogOf(valid, events), id.username, url, events[p].time + 1)
  {
    TokenRightIff(valid, events, n, id, Pushed(valid, was, add, remove, events[p].time), now);
  }

  /**
   If no write for the user follows the push within its second, that means: outside the URLs of the
   push, whatever the client was wrong about before it flips in a later second.
   */
  lemma QuietPushTokenRightIff(valid: UrlCheck, events: seq<Event>, p: nat, id: ClientId, was: set<string>,
                                        add: seq<string>, remove: seq<string>, now: int)
    requires ClockRuns(events) && p < |events|
    requires events[p].step == Serve(Push(id.username, add, remove)) && ValidURLs(valid, add) !! SetOf(remove)
    requires WritesFrom(events, p + 1, id.username, events[p].time + 1)
    ensures var c, t, t' := Pushed(valid, was, add, remove, events[p].time), Run(valid, events[..p]).table,
                            Run(valid, events).table;
            PullInto(t', id, c, now).replica == Active(t', id.username)
            <==> forall url :: url !in ValidURLs(valid, add) + SetOf(remove)
                               && (url in was) != (url in Active(t, id.username)) ==>
                   Log.FlippedSince(LogOf(valid, events), id.username, url, events[p].time + 1)
  {
    hide Run, PullInto, LogOf, Log.FlippedSince, WritesFrom, ClockRuns, Active, Pushed;
    PushTokenRightIff(valid, events, p, p + 1, id, was, add, remove, now);
    AfterPush(valid, events, p, id.username, add, remove);
    WrongAfterPush(valid, was, Active(Run(valid, events[..p]).table, id.username), add, remove, events[p].time);
  }

  lemma WrongAfterPush(valid: UrlCheck, was: set<string>, before: set<string>, add: seq<string>, remove: seq<string>,
                       now: int)
    requires ValidURLs(valid, add) !! SetOf(remove)
    ensures forall url ::
              (url in Pushed(valid, was, add, remove, now).replica)
              != (url in before + ValidURLs(valid, add) - SetOf(remove))
              <==> url !in ValidURLs(valid, add) + SetOf(remove) && (url in was) != (url in before)
  {
  }

  lemma AfterPush(valid: UrlCheck, events: seq<Event>, p: nat, username: string, add: seq<string>, remove: seq<string>)
    requires p < |events| && events[p].step == Serve(Push(username, add, remove))
    requires ValidURLs(valid, add) !! SetOf(remove)
    ensures Active(Run(valid, events[..p + 1]).table, username)
         == Active(Run(valid, events[..p]).table, username) + ValidURLs(valid, add) - SetOf(remove)
  {
    assert events[..p + 1][..p] == events[..p];
    ActiveAfterChange(Run(valid, events[..p]).table, username, ValidURLs(valid, add), SetOf(remove), events[p].time);
  }

  function PushThenSubscribe(username: string, mine: string, other: string): seq<Event> {
    [Event(5, Serve(Push(username, [mine], []))), Event(5, Serve(Subscribe(username, other)))]
  }

  /** Without that proviso: another device subscribes in the second of the push, and the client never hears of it. */
  lemma WriteInPushedSecondIsLost(valid: UrlCheck, id: ClientId, mine: string, other: string, later: int)
    requires mine != "" && other != "" && mine != other && valid(mine) && valid(other)
    ensures var c := Pushed(valid, {}, [mine], [], 5);
            var t := Run(valid, PushThenSubscribe(id.username, mine, other)).table;
            PullInto(t, id, c, later).replica == {mine} && Active(t, id.username) == {mine, other}
  {
    var events := PushThenSubscribe(id.username, mine, other);
    PushedThenSubscribed(valid, id.username, mine, other);
    RunStampedByClock(valid, events);
    NothingNewAfter(Run(valid, events).table, id.username, 5);
  }

  lemma PushedThenSubscribed(valid: UrlCheck, username: string, mine: string, other: string)
    requires mine != "" && other != "" && mine != other && valid(mine) && valid(other)
    ensures Active(Run(valid, PushThenSubscribe(username, mine, other)).table, username) == {mine, other}
  {
    hide Changed;
    var events := PushThenSubscribe(username, mine, other);
    var push := events[0];
    assert events[..1] == [push] && [push][..0] == [] && [push][..1] == [push];
    AfterPush(valid, [push], 0, username, [mine], []);
    ActiveAfterChange(Run(valid, [push]).table, username, {other}, {}, 5);
  }

  lemma NothingNewAfter(t: Table, username: string, now: int)
    requires StampedBy(t, now)
    ensures FeedAdd(t, username, now + 1) == {} && FeedRemove(t, username, now + 1) == {}
  {
  }
}
