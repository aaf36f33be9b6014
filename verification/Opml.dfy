/**
 OPML import and export of subscription lists: outlines nest, and every outline with a non-empty
 `xmlUrl` names a feed ("Subscription lists" in the OPML 2.0 specification).
 */
module Opml {
  import opened Prelude
  import opened SubscriptionTable
  import opened SubscriptionSync

  datatype Outline = Outline(kind: string, text: string, title: string, xmlUrl: string, outlines: seq<Outline>)

  /** A node of the forest, addressed by the child index taken at each level. */
  ghost predicate IsNode(forest: seq<Outline>, path: seq<nat>)
    decreases |path|
  {
    path != [] && path[0] < |forest| && (|path| == 1 || IsNode(forest[path[0]].outlines, path[1..]))
  }

  ghost function NodeAt(forest: seq<Outline>, path: seq<nat>): Outline
    requires IsNode(forest, path)
    decreases |path|
  {
    if |path| == 1 then forest[path[0]] else NodeAt(forest[path[0]].outlines, path[1..])
  }

  /** Some outline, at whatever depth, carries the URL. */
  ghost predicate OnSomeNode(forest: seq<Outline>, url: string) {
    exists path :: IsNode(forest, path) && NodeAt(forest, path).xmlUrl == url
  }

  /** The non-empty feed URLs in preorder. */
  function FeedURLs(forest: seq<Outline>): seq<string> {
    if forest == [] then []
    else OwnURL(forest[0]) + (FeedURLs(forest[0].outlines) + FeedURLs(forest[1..]))
  }

  function OwnURL(o: Outline): seq<string> {
    if o.xmlUrl != "" then [o.xmlUrl] else []
  }

  lemma NoFeedURLs()
    ensures FeedURLs([]) == []
  {
  }

  lemma FeedURLsCons(o: Outline, rest: seq<Outline>)
    ensures FeedURLs([o] + rest) == OwnURL(o) + (FeedURLs(o.outlines) + FeedURLs(rest))
  {
  }

  lemma {:induction false} FeedURLsAppend(a: seq<Outline>, b: seq<Outline>)
    ensures FeedURLs(a + b) == FeedURLs(a) + FeedURLs(b)
  {
    hide FeedURLs, OwnURL;
    if a == [] {
      NoFeedURLs();
      assert a + b == b;
    } else {
      FeedURLsAppend(a[1..], b);
      AppendCons(a[0], a[1..], b);
      assert a == [a[0]] + a[1..];
    }
  }

  lemma AppendCons(o: Outline, rest: seq<Outline>, b: seq<Outline>)
    requires FeedURLs(rest + b) == FeedURLs(rest) + FeedURLs(b)
    ensures FeedURLs(([o] + rest) + b) == FeedURLs([o] + rest) + FeedURLs(b)
  {
    hide FeedURLs, OwnURL;
    assert ([o] + rest) + b == [o] + (rest + b);
    FeedURLsCons(o, rest);
    FeedURLsCons(o, rest + b);
    Regroup(OwnURL(o), FeedURLs(o.outlines), FeedURLs(rest), FeedURLs(b));
  }

  lemma Regroup(a: seq<string>, b: seq<string>, c: seq<string>, d: seq<string>)
    ensures a + (b + (c + d)) == (a + (b + c)) + d
  {
  }

  /** One more outline adds its own URL and then those below it. */
  lemma FeedURLsNext(outlines: seq<Outline>, i: nat)
    requires i < |outlines|
    ensures FeedURLs(outlines[..i + 1])
         == FeedURLs(outlines[..i]) + (OwnURL(outlines[i]) + FeedURLs(outlines[i].outlines))
  {
    var o := outlines[i];
    assert outlines[..i + 1] == outlines[..i] + [o];
    FeedURLsAppend(outlines[..i], [o]);
    FeedURLsCons(o, []);
    assert [o] + [] == [o];
  }

  /** A URL is collected exactly when it is not empty and some outline carries it. */
  lemma CollectedIffOnSomeNode(forest: seq<Outline>, url: string)
    ensures url in FeedURLs(forest) <==> url != "" && OnSomeNode(forest, url)
  {
    if url in FeedURLs(forest) {
      var path := NodeOfCollected(forest, url);
    }
    forall path | IsNode(forest, path) && NodeAt(forest, path).xmlUrl == url && url != ""
      ensures url in FeedURLs(forest)
    {
      NodeIsCollected(forest, path);
    }
  }

  lemma {:induction false} NodeOfCollected(forest: seq<Outline>, url: string) returns (path: seq<nat>)
    requires url in FeedURLs(forest)
    ensures url != "" && IsNode(forest, path) && NodeAt(forest, path).xmlUrl == url
    decreases forest
  {
    if url == forest[0].xmlUrl && url != "" {
      path := [0];
    } else if url in FeedURLs(forest[0].outlines) {
      path := NodeOfCollected(forest[0].outlines, url);
      NodeBelowFirst(forest, path);
      path := [0] + path;
    } else {
      path := NodeOfCollected(forest[1..], url);
      NodeInRest(forest, path);
      path := [path[0] + 1] + path[1..];
    }
  }

  lemma {:induction false} NodeIsCollected(forest: seq<Outline>, path: seq<nat>)
    requires IsNode(forest, path) && NodeAt(forest, path).xmlUrl != ""
    ensures NodeAt(forest, path).xmlUrl in FeedURLs(forest)
    decreases forest
  {
    if path[0] > 0 {
      var shifted: seq<nat> := [path[0] - 1] + path[1..];
      assert shifted[1..] == path[1..];
      assert forest[1..][shifted[0]] == forest[path[0]];
      NodeIsCollected(forest[1..], shifted);
    } else if |path| > 1 {
      NodeIsCollected(forest[0].outlines, path[1..]);
    }
  }

  lemma NodeBelowFirst(forest: seq<Outline>, path: seq<nat>)
    requires forest != [] && IsNode(forest[0].outlines, path)
    ensures IsNode(forest, [0] + path) && NodeAt(forest, [0] + path) == NodeAt(forest[0].outlines, path)
  {
  }

  lemma NodeInRest(forest: seq<Outline>, path: seq<nat>)
    requires forest != [] && IsNode(forest[1..], path)
    ensures var shifted: seq<nat> := [path[0] + 1] + path[1..];
            IsNode(forest, shifted) && NodeAt(forest, shifted) == NodeAt(forest[1..], path)
  {
  }

  /** In document order: an outline's own URL, those below it, and then those of the outlines that follow. */
  lemma CollectedInOrder(before: seq<Outline>, o: Outline, after: seq<Outline>)
    ensures var urls := FeedURLs(before + [o] + after);
            var b, below := |FeedURLs(before)|, |FeedURLs(o.outlines)|;
            var own := if o.xmlUrl != "" then 1 else 0;
            && b + own + below <= |urls|
            && urls[..b] == FeedURLs(before)
            && (o.xmlUrl != "" ==> urls[b] == o.xmlUrl)
            && urls[b + own..b + own + below] == FeedURLs(o.outlines)
            && urls[b + own + below..] == FeedURLs(after)
  {
    FeedURLsAppend(before + [o], after);
    FeedURLsAppend(before, [o]);
    FeedURLsCons(o, []);
    assert [o] + [] == [o];
  }

  // Export.

  function OutlineOf(url: string): Outline {
    Outline("rss", url, url, url, [])
  }

  function Outlines(urls: seq<string>): (r: seq<Outline>)
    ensures |r| == |urls| && forall i :: 0 <= i < |r| ==> r[i] == OutlineOf(urls[i])
  {
    seq(|urls|, i requires 0 <= i < |urls| => OutlineOf(urls[i]))
  }

  /** Collecting an exported list drops its empty entries and nothing else. */
  lemma {:induction false} CollectExported(urls: seq<string>)
    ensures FeedURLs(Outlines(urls)) == Without(urls, {""})
  {
    if urls != [] {
      var init, last := urls[..|urls| - 1], urls[|urls| - 1];
      CollectExported(init);
      assert Outlines(urls) == Outlines(init) + [OutlineOf(last)];
      FeedURLsAppend(Outlines(init), [OutlineOf(last)]);
      assert FeedURLs([OutlineOf(last)]) == if last != "" then [last] else [];
    }
  }

  lemma {:induction false} WithoutUntouched<T(!new)>(xs: seq<T>, drop: set<T>)
    ensures |Without(xs, drop)| <= |xs|
    ensures Without(xs, drop) == xs <==> forall x :: x in drop ==> x !in xs
  {
    if xs != [] {
      var init, last := xs[..|xs| - 1], xs[|xs| - 1];
      assert xs == init + [last];
      WithoutUntouched(init, drop);
      if last in drop {
        assert |Without(xs, drop)| < |xs|;
      } else if Without(init, drop) != init {
        assert Without(xs, drop)[..|Without(init, drop)|] == Without(init, drop);
        assert |Without(init, drop)| == |init| ==> Without(xs, drop)[..|init|] != xs[..|init|];
      }
    }
  }

  /** The round trip returns the exported list exactly when no entry is empty. */
  lemma ExportRoundTrip(urls: seq<string>)
    ensures FeedURLs(Outlines(urls)) == urls <==> "" !in urls
  {
    CollectExported(urls);
    WithoutUntouched(urls, {""});
  }

  /** Importing one's own export leaves the table as it was, stamps included. */
  lemma OwnExportImportsAsNothing(valid: UrlCheck, t: Table, username: string, exported: seq<string>, now: int)
    requires SetOf(exported) == Active(t, username)
    ensures Handle(valid, t, Import(username, FeedURLs(Outlines(exported))), now) == t
  {
    CollectExported(exported);
    var urls := ValidURLs(valid, FeedURLs(Outlines(exported)));
    forall url | url in urls ensures IsActive(t, username, url) {
      assert url in SetOf(exported);
    }
  }
}
