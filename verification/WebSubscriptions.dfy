/** The web UI's writers of the subscription table, OPML import included. */
module WebSubscriptions {
  import opened Prelude
  import opened Pggen
  import opened StoreSql
  import opened SubscriptionSync
  import opened ApiSubscriptions
  import Opml
  import Subs = SubscriptionTable

  /** The slice that the OPML walk appends to through a pointer. */
  class UrlList {
    var items: seq<string>

    constructor ()
      ensures items == []
    {
      items := [];
    }
  }

  method CollectOPMLURLs(outlines: seq<Opml.Outline>, urls: UrlList)
    modifies urls
    ensures urls.items == old(urls.items) + Opml.FeedURLs(outlines)
    decreases outlines
  {
    hide Opml.FeedURLs;
    ghost var before := urls.items;
    Opml.NoFeedURLs();
    assert outlines[..0] == [];
    for i := 0 to |outlines|
      invariant urls.items == before + Opml.FeedURLs(outlines[..i])
    {
      Opml.FeedURLsNext(outlines, i);
      if outlines[i].xmlUrl != "" {
        urls.items := urls.items + [outlines[i].xmlUrl];
      }
      CollectOPMLURLs(outlines[i].outlines, urls);
    }
    assert outlines[..|outlines|] == outlines;
  }

  /** `url` is the form value with surrounding blanks removed. */
  method Subscribe(store: SQLStore, valid: UrlCheck, username: string, url: string, now: int)
    returns (ok: bool, ghost revived: set<string>)
    modifies store.queries`subscriptions, store.queries`faults
    ensures Reported(ok, url != "" && valid(url), old(store.queries.faults), store.queries.faults)
    ensures revived <= {url}
    ensures store.queries.subscriptions
         == Handle(valid, old(store.queries.subscriptions),
                   if ok then SubscriptionSync.Subscribe(username, url) else Failed(username, revived), now)
    ensures ok ==>
              Subs.Active(store.queries.subscriptions, username)
              == Subs.Active(old(store.queries.subscriptions), username) + {url}
  {
    ActiveAfterRequest(valid, store.queries.subscriptions, SubscriptionSync.Subscribe(username, url), now);
    ghost var t := store.queries.subscriptions;
    Subs.NothingChanged(t, username, now);
    revived := {};
    if url == "" || !valid(url) {
      return false, {};
    }
    ok := store.queries.ReactivateSubscription(now, username, url);
    if !ok {
      return;
    }
    Subs.ReactivateStep(t, username, {}, url, now);
    revived := {} + {url};
    ok := store.UpdateSubscriptions(username, [url], [], now);
    if ok {
      Subs.ReactivateThenChange(t, username, revived, {url}, {}, now);
      assert SetOf([url]) == {url} && SetOf<string>([]) == {};
    }
  }

  lemma ActiveAfterImport(valid: UrlCheck, t: Subs.Table, username: string, outlines: seq<Opml.Outline>, now: int)
    ensures forall url :: url in Subs.Active(Handle(valid, t, Import(username, Opml.FeedURLs(outlines)), now), username)
                     <==> || url in Subs.Active(t, username)
                          || (url != "" && valid(url) && Opml.OnSomeNode(outlines, url))
  {
    hide Handle, Subs.Active, Opml.FeedURLs, Opml.OnSomeNode;
    ActiveAfterRequest(valid, t, Import(username, Opml.FeedURLs(outlines)), now);
    forall url ensures url in Opml.FeedURLs(outlines) <==> url != "" && Opml.OnSomeNode(outlines, url) {
      Opml.CollectedIffOnSomeNode(outlines, url);
    }
  }

  /** Stops at the first failed reactivation, keeping the earlier ones; the additions are all or nothing. */
  method ImportSubscriptions(store: SQLStore, valid: UrlCheck, username: string, outlines: seq<Opml.Outline>, now: int)
    returns (ok: bool, ghost revived: set<string>)
    modifies store.queries`subscriptions, store.queries`faults
    ensures Reported(ok, true, old(store.queries.faults), store.queries.faults)
    ensures revived <= ValidURLs(valid, Opml.FeedURLs(outlines))
    ensures store.queries.subscriptions
         == Handle(valid, old(store.queries.subscriptions),
                   if ok then Import(username, Opml.FeedURLs(outlines)) else Failed(username, revived), now)
    ensures ok ==> forall url ::
              url in Subs.Active(store.queries.subscriptions, username)
              <==> || url in Subs.Active(old(store.queries.subscriptions), username)
                   || (url != "" && valid(url) && Opml.OnSomeNode(outlines, url))
  {
    hide Subs.Changed, Subs.Reactivated, Opml.FeedURLs, Opml.OnSomeNode, Subs.Active;
    ActiveAfterImport(valid, store.queries.subscriptions, username, outlines, now);
    ghost var t := store.queries.subscriptions;
    Subs.NothingChanged(t, username, now);
    var collected := new UrlList();
    CollectOPMLURLs(outlines, collected);
    assert collected.items == Opml.FeedURLs(outlines);
    var urls := FilterValidURLs(valid, collected.items);
    revived := {};
    for i := 0 to |urls|
      invariant revived == SetOf(urls[..i]) && store.queries.faults == old(store.queries.faults)
      invariant store.queries.subscriptions == Subs.Reactivated(t, username, revived, now)
    {
      ok := store.queries.ReactivateSubscription(now, username, urls[i]);
      if !ok {
        return;
      }
      Subs.ReactivateStep(t, username, revived, urls[i], now);
      revived := revived + {urls[i]};
      assert urls[..i + 1] == urls[..i] + [urls[i]];
    }
    assert urls[..|urls|] == urls;
    ok := store.UpdateSubscriptions(username, urls, [], now);
    if ok {
      Subs.ReactivateThenChange(t, username, revived, SetOf(urls), {}, now);
      assert SetOf<string>([]) == {};
    }
  }

  method DeleteOneSubscription(store: SQLStore, valid: UrlCheck, username: string, url: string, now: int)
    returns (ok: bool)
    modifies store.queries`subscriptions, store.queries`faults
    ensures Reported(ok, true, old(store.queries.faults), store.queries.faults)
    ensures store.queries.subscriptions
         == if ok then Handle(valid, old(store.queries.subscriptions), DeleteOne(username, url), now)
            else old(store.queries.subscriptions)
    ensures ok && url != "" ==>
              Subs.Active(store.queries.subscriptions, username)
              == Subs.Active(old(store.queries.subscriptions), username) - {url}
  {
    ActiveAfterRequest(valid, store.queries.subscriptions, DeleteOne(username, url), now);
    ok := true;
    if url != "" {
      ok := store.UpdateSubscriptions(username, [], [url], now);
      assert SetOf([url]) == {url} && SetOf<string>([]) == {};
    }
  }

  /** A list that cannot be read counts as empty, so the request then succeeds without effect. */
  method DeleteAllSubscriptions(store: SQLStore, valid: UrlCheck, username: string, now: int) returns (ok: bool)
    modifies store.queries`subscriptions, store.queries`faults
    ensures Excused(ok, old(store.queries.faults), store.queries.faults)
    ensures store.queries.subscriptions
         == if store.queries.faults == old(store.queries.faults)
            then Handle(valid, old(store.queries.subscriptions), DeleteAll(username), now)
            else old(store.queries.subscriptions)
    ensures store.queries.faults == old(store.queries.faults) ==>
              Subs.Active(store.queries.subscriptions, username) == {}
  {
    ActiveAfterRequest(valid, store.queries.subscriptions, DeleteAll(username), now);
    var listed, urls := store.queries.GetSubscriptions(username);
    ok := true;
    Subs.NothingChanged(store.queries.subscriptions, username, now);
    assert SetOf<string>([]) == {};
    if |urls| > 0 {
      ok := store.UpdateSubscriptions(username, [], urls, now);
    }
  }
}
