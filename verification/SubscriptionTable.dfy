/**
 The `subscriptions` table, keyed by UNIQUE(url, username), and what its SQL statements do to it.
 Rows are never removed by a sync request: an unsubscribed row keeps a `deleted` stamp.

 `Changed` is the meaning of one request: a set of URLs to add and a set to remove, applied at
 once. The loops over statements in StoreSql are proved to compute it.
 */
module SubscriptionTable {
  import opened Prelude

  datatype Key = Key(username: string, url: string)
  datatype Row = Row(created: int, deleted: Option<int>)
  type Table = map<Key, Row>

  function Get(t: Table, k: Key): Option<Row> {
    if k in t then Some(t[k]) else None
  }

  /** Column values after INSERT ... ON CONFLICT DO UPDATE. */
  function AddedRow(o: Option<Row>, stamp: int): Row {
    match o
    case None => Row(stamp, None)
    case Some(r) => Row(if r.deleted.Some? then stamp else r.created, None)
  }

  function ReactivatedRow(r: Row, stamp: int): Row {
    if r.deleted.Some? then Row(stamp, None) else r
  }

  function DeletedRow(r: Row, stamp: int): Row {
    if r.deleted.None? then r.(deleted := Some(stamp)) else r
  }

  // The three write statements.

  function AddSubscription(t: Table, username: string, url: string, stamp: int): Table {
    t[Key(username, url) := AddedRow(Get(t, Key(username, url)), stamp)]
  }

  function ReactivateSubscription(t: Table, username: string, url: string, stamp: int): Table {
    var k := Key(username, url);
    if k in t then t[k := ReactivatedRow(t[k], stamp)] else t
  }

  function DeleteSubscription(t: Table, username: string, url: string, stamp: int): Table {
    var k := Key(username, url);
    if k in t then t[k := DeletedRow(t[k], stamp)] else t
  }

  // One request as a whole.

  function ChangedRow(o: Option<Row>, added: bool, removed: bool, stamp: int): Row
    requires o.Some? || added
  {
    var r := if added then AddedRow(o, stamp) else o.value;
    if removed then DeletedRow(r, stamp) else r
  }

  function Changed(t: Table, username: string, add: set<string>, remove: set<string>, stamp: int): Table {
    map k | k in t.Keys + (set url | url in add :: Key(username, url)) ::
      ChangedRow(Get(t, k), k.username == username && k.url in add, k.username == username && k.url in remove, stamp)
  }

  /** The tombstones among `urls` turned active, nothing inserted. */
  function Reactivated(t: Table, username: string, urls: set<string>, stamp: int): Table {
    map k | k in t :: if k.username == username && k.url in urls then ReactivatedRow(t[k], stamp) else t[k]
  }

  predicate IsActive(t: Table, username: string, url: string) {
    Key(username, url) in t && t[Key(username, url)].deleted.None?
  }

  function Active(t: Table, username: string): (urls: set<string>)
    ensures forall url :: url in urls <==> IsActive(t, username, url)
  {
    set k | k in t && k.username == username && t[k].deleted.None? :: k.url
  }

  /** The rows of these users deleted outright. */
  function WithoutUsers(t: Table, names: set<string>): Table {
    map k | k in t && k.username !in names :: t[k]
  }

  // The statement loops build `Changed` one URL at a time.

  lemma NothingChanged(t: Table, username: string, stamp: int)
    ensures Changed(t, username, {}, {}, stamp) == t
    ensures Reactivated(t, username, {}, stamp) == t
  {
  }

  lemma AddStep(t: Table, username: string, add: set<string>, url: string, stamp: int)
    ensures AddSubscription(Changed(t, username, add, {}, stamp), username, url, stamp)
         == Changed(t, username, add + {url}, {}, stamp)
  {
  }

  lemma DeleteStep(t: Table, username: string, add: set<string>, remove: set<string>, url: string, stamp: int)
    ensures DeleteSubscription(Changed(t, username, add, remove, stamp), username, url, stamp)
         == Changed(t, username, add, remove + {url}, stamp)
  {
  }

  lemma ReactivateStep(t: Table, username: string, urls: set<string>, url: string, stamp: int)
    ensures ReactivateSubscription(Reactivated(t, username, urls, stamp), username, url, stamp)
         == Reactivated(t, username, urls + {url}, stamp)
  {
  }

  // What a request means for the active set.

  lemma ActiveAfterChange(t: Table, username: string, add: set<string>, remove: set<string>, stamp: int)
    ensures Active(Changed(t, username, add, remove, stamp), username) == Active(t, username) + add - remove
    ensures forall other :: other != username ==>
              Active(Changed(t, username, add, remove, stamp), other) == Active(t, other)
  {
  }

  // Retrying and reordering a push.

  /** A push re-sent at another stamp is invisible exactly when its two lists are disjoint. */
  lemma RetryInvisibleIffDisjoint(t: Table, username: string, add: set<string>, remove: set<string>, stamp: int,
                                  later: int)
    requires later != stamp
    ensures var once := Changed(t, username, add, remove, stamp);
            Changed(once, username, add, remove, later) == once <==> add !! remove
  {
    var once := Changed(t, username, add, remove, stamp);
    var twice := Changed(once, username, add, remove, later);
    if add !! remove {
      forall k | k in twice ensures k in once && once[k] == twice[k] {
      }
      assert once.Keys == twice.Keys;
    } else {
      var url :| url in add && url in remove;
      var k := Key(username, url);
      assert k in once && once[k].deleted == Some(stamp);
      assert k in twice && twice[k].deleted == Some(later);
    }
  }

  /** Running the removal loop before the addition loop matters exactly when the lists overlap. */
  lemma LoopOrderIrrelevantIffDisjoint(t: Table, username: string, add: set<string>, remove: set<string>, stamp: int)
    ensures Changed(Changed(t, username, add, {}, stamp), username, {}, remove, stamp)
         == Changed(t, username, add, remove, stamp)
    ensures (Changed(Changed(t, username, {}, remove, stamp), username, add, {}, stamp)
             == Changed(t, username, add, remove, stamp)) <==> add !! remove
  {
    AddThenRemove(t, username, add, remove, stamp);
    var removed := Changed(t, username, {}, remove, stamp);
    var removedFirst := Changed(removed, username, add, {}, stamp);
    var addedFirst := Changed(t, username, add, remove, stamp);
    if add !! remove {
      forall k | k in addedFirst ensures k in removedFirst && removedFirst[k] == addedFirst[k] {
        assert k in removed <==> k in t;
      }
      assert removedFirst.Keys == addedFirst.Keys;
    } else {
      var url :| url in add && url in remove;
      assert Key(username, url) in addedFirst && addedFirst[Key(username, url)].deleted.Some?;
      assert Key(username, url) in removedFirst && removedFirst[Key(username, url)].deleted.None?;
    }
  }

  lemma AddThenRemove(t: Table, username: string, add: set<string>, remove: set<string>, stamp: int)
    ensures Changed(Changed(t, username, add, {}, stamp), username, {}, remove, stamp)
         == Changed(t, username, add, remove, stamp)
  {
  }

  // All writers agree.

  /** Reactivating any part of the additions first, at the same stamp, changes nothing in the end. */
  lemma ReactivateThenChange(t: Table, username: string, revived: set<string>, add: set<string>, remove: set<string>,
                             stamp: int)
    requires revived <= add
    ensures Changed(Reactivated(t, username, revived, stamp), username, add, remove, stamp)
         == Changed(t, username, add, remove, stamp)
  {
  }

  /** On its own a reactivation is an addition of the URLs that have a tombstone. */
  lemma ReactivatedIsChange(t: Table, username: string, urls: set<string>, stamp: int)
    ensures var tombstones := set url | url in urls && Key(username, url) in t && t[Key(username, url)].deleted.Some?;
            Reactivated(t, username, urls, stamp) == Changed(t, username, tombstones, {}, stamp)
  {
  }

  // Uploading a whole list (PUT).

  /** The plain reading of "replace": add everything desired, remove every other active URL. */
  function Replaced(t: Table, username: string, desired: set<string>, stamp: int): Table {
    Changed(t, username, desired, Active(t, username) - desired, stamp)
  }

  /** The minimal difference has the effect of the plain replacement, and keeps the rows of the intersection. */
  lemma MinimalDiffReplaces(t: Table, username: string, desired: set<string>, stamp: int)
    ensures var active := Active(t, username);
            Changed(t, username, desired - active, active - desired, stamp) == Replaced(t, username, desired, stamp)
    ensures Active(Replaced(t, username, desired, stamp), username) == desired
    ensures forall k :: k in t && (k.username != username || (t[k].deleted.None? <==> k.url in desired)) ==>
              Get(Replaced(t, username, desired, stamp), k) == Some(t[k])
    ensures forall k: Key :: k.username != username ==> Get(Replaced(t, username, desired, stamp), k) == Get(t, k)
  {
  }

  // The change feed.

  /** WHERE created >= since OR deleted >= since; a NULL stamp satisfies no comparison. */
  predicate InFeed(r: Row, since: int) {
    r.created >= since || (r.deleted.Some? && r.deleted.value >= since)
  }

  function FeedAdd(t: Table, username: string, since: int): (urls: set<string>)
    ensures forall url :: url in urls <==> IsActive(t, username, url) && InFeed(t[Key(username, url)], since)
  {
    set k | k in t && k.username == username && InFeed(t[k], since) && t[k].deleted.None? :: k.url
  }

  function FeedRemove(t: Table, username: string, since: int): (urls: set<string>)
    ensures forall url :: url in urls <==>
              Key(username, url) in t && !IsActive(t, username, url) && InFeed(t[Key(username, url)], since)
  {
    set k | k in t && k.username == username && InFeed(t[k], since) && t[k].deleted.Some? :: k.url
  }

  /** When the row last changed status. */
  function Stamp(r: Row): int {
    if r.deleted.Some? then r.deleted.value else r.created
  }

  /** Filtering on both stamps is filtering on the last change exactly for rows deleted no earlier than created. */
  lemma OrFilterExactIffOrdered(r: Row)
    ensures (forall since :: InFeed(r, since) <==> Stamp(r) >= since)
       <==> (r.deleted.Some? ==> r.created <= r.deleted.value)
  {
    if r.deleted.Some? && r.created > r.deleted.value {
      assert InFeed(r, r.created) && Stamp(r) < r.created;
    }
  }
}
