/**
 The subscription handlers of the sync API and of API v1, from the decoded request on. Each takes
 the clock reading it makes; `SubscriptionSync.Handle` says what an accepted request means.
 */
module ApiSubscriptions {
  import opened Prelude
  import opened Pggen
  import opened StoreSql
  import opened SubscriptionSync
  import opened AccountModel
  import Subs = SubscriptionTable

  datatype Response =
    | Accepted(timestamp: int)
    | Changes(add: seq<string>, remove: seq<string>, timestamp: int)
    | BadRequest
    | InternalError

  function FilterValidURLs(valid: UrlCheck, urls: seq<string>): (r: seq<string>)
    ensures SetOf(r) == ValidURLs(valid, urls)
  {
    if urls == [] then []
    else
      assert urls == [urls[0]] + urls[1..];
      (if valid(urls[0]) then [urls[0]] else []) + FilterValidURLs(valid, urls[1..])
  }

  method HasOverlap(a: seq<string>, b: seq<string>) returns (r: bool)
    ensures r <==> !(SetOf(a) !! SetOf(b))
  {
    var seen := {};
    for i := 0 to |a|
      invariant seen == SetOf(a[..i])
    {
      seen := seen + {a[i]};
      assert a[..i + 1] == a[..i] + [a[i]];
    }
    assert a[..|a|] == a;
    for i := 0 to |b|
      invariant forall j :: 0 <= j < i ==> b[j] !in seen
    {
      if b[i] in seen {
        assert b[i] in SetOf(b);
        return true;
      }
    }
    r := false;
  }

  method HandleUploadSubscriptions(store: SQLStore, valid: UrlCheck, username: string, device: string,
                                   urls: seq<string>, now: int)
    returns (r: Response)
    modifies store.queries`devices, store.queries`subscriptions, store.queries`faults
    ensures Registered(old(store.queries.devices), store.queries.devices, username, device)
    ensures r.Accepted? ==> DeviceKey(device, username) in store.queries.devices
    ensures Excused(!r.InternalError?, old(store.queries.faults), store.queries.faults)
    ensures r.Accepted? || r.InternalError?
    ensures store.queries.subscriptions
         == if r.Accepted? then Handle(valid, old(store.queries.subscriptions), Put(username, urls), now)
            else old(store.queries.subscriptions)
    ensures r.Accepted? ==> Subs.Active(store.queries.subscriptions, username) == ValidURLs(valid, urls)
  {
    ActiveAfterRequest(valid, store.queries.subscriptions, Put(username, urls), now);
    var ok := store.UpsertDevice(username, device);
    if !ok {
      return InternalError;
    }
    var desired := FilterValidURLs(valid, urls);
    ok := store.ReplaceSubscriptions(username, desired, now);
    r := if ok then Accepted(now) else InternalError;
  }

  /** A pull answers with the feed since the client's token and a token one second ahead. */
  method HandleGetSubscriptionChanges(store: SQLStore, username: string, device: string, since: int, now: int)
    returns (r: Response)
    modifies store.queries`devices, store.queries`faults
    ensures Registered(old(store.queries.devices), store.queries.devices, username, device)
    ensures store.queries.faults == old(store.queries.faults) ==>
              DeviceKey(device, username) in store.queries.devices
    ensures Excused(r.Changes?, old(store.queries.faults), store.queries.faults)
    ensures r.Changes? || r.InternalError?
    ensures r.Changes? ==> NoDuplicates(r.add + r.remove)
    ensures r.Changes? ==> forall c: Client :: c.token == since ==>
              PullInto(store.queries.subscriptions, ClientId(username, device), c, now)
              == Client(c.replica - SetOf(r.remove) + SetOf(r.add), r.timestamp)
  {
    var ignored := store.UpsertDevice(username, device);
    var ok, add, remove := store.GetSubscriptionChanges(username, since);
    r := if ok then Changes(add, remove, now + 1) else InternalError;
  }

  method HandleUploadSubscriptionChanges(store: SQLStore, valid: UrlCheck, username: string, device: string,
                                         add: seq<string>, remove: seq<string>, now: int)
    returns (r: Response)
    modifies store.queries`devices, store.queries`subscriptions, store.queries`faults
    ensures Registered(old(store.queries.devices), store.queries.devices, username, device)
    ensures r.Accepted? ==> DeviceKey(device, username) in store.queries.devices
    ensures Excused(!r.InternalError?, old(store.queries.faults), store.queries.faults)
    ensures r == Accepted(now + 1) || r.BadRequest? || r.InternalError?
    ensures r.BadRequest? <==> !(ValidURLs(valid, add) !! SetOf(remove))
    ensures store.queries.subscriptions
         == if r.Accepted? then Handle(valid, old(store.queries.subscriptions), Push(username, add, remove), now)
            else old(store.queries.subscriptions)
    ensures r.Accepted? ==>
              Subs.Active(store.queries.subscriptions, username)
              == Subs.Active(old(store.queries.subscriptions), username) + ValidURLs(valid, add) - SetOf(remove)
  {
    ActiveAfterRequest(valid, store.queries.subscriptions, Push(username, add, remove), now);
    var toAdd := FilterValidURLs(valid, add);
    var overlap := HasOverlap(toAdd, remove);
    if overlap {
      return BadRequest;
    }
    var ok := store.UpsertDevice(username, device);
    if !ok {
      return InternalError;
    }
    ok := store.UpdateSubscriptions(username, toAdd, remove, now);
    r := if ok then Accepted(now + 1) else InternalError;
  }

  /**
   API v1 reactivates first, outside any transaction and ignoring errors: a request that then fails
   may leave some of its tombstones active.
   */
  method HandleAPIUpdateSubscriptions(store: SQLStore, valid: UrlCheck, username: string,
                                      add: seq<string>, remove: seq<string>, now: int)
    returns (r: Response, ghost revived: set<string>)
    modifies store.queries`subscriptions, store.queries`faults
    ensures Excused(!r.InternalError?, old(store.queries.faults), store.queries.faults)
    ensures r == Accepted(now) || r.BadRequest? || r.InternalError?
    ensures r.BadRequest? <==> !(ValidURLs(valid, add) !! ValidURLs(valid, remove))
    ensures revived <= ValidURLs(valid, add)
    ensures store.queries.subscriptions
         == match r
            case Accepted(_) => Handle(valid, old(store.queries.subscriptions), ApiUpdate(username, add, remove), now)
            case InternalError => Handle(valid, old(store.queries.subscriptions), Failed(username, revived), now)
            case _ => old(store.queries.subscriptions)
    ensures r.Accepted? ==>
              Subs.Active(store.queries.subscriptions, username)
              == Subs.Active(old(store.queries.subscriptions), username)
                 + ValidURLs(valid, add) - ValidURLs(valid, remove)
  {
    ActiveAfterRequest(valid, store.queries.subscriptions, ApiUpdate(username, add, remove), now);
    revived := {};
    var toAdd, toRemove := FilterValidURLs(valid, add), FilterValidURLs(valid, remove);
    var overlap := HasOverlap(toAdd, toRemove);
    if overlap {
      return BadRequest, {};
    }
    ghost var t := store.queries.subscriptions;
    revived := store.ReactivateAll(username, toAdd, now);
    var ok := store.UpdateSubscriptions(username, toAdd, toRemove, now);
    if ok {
      Subs.ReactivateThenChange(t, username, revived, SetOf(toAdd), SetOf(toRemove), now);
    }
    r := if ok then Accepted(now) else InternalError;
  }
}
