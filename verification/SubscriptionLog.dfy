/**
 The stamped table against the log of requests it replaces.

 A log entry is one accepted request. Read as plain sets, the log says who subscribes to what
 and when that last flipped, with no row, stamp column or tombstone in sight. The table is a
 faithful summary of it: `TableRefinesLog` ties every row to the flips of its URL, and
 `FeedIsLastFlips` says that a pull reads off the table what the log would have answered.
 */
module SubscriptionLog {
  import opened Prelude
  import opened SubscriptionTable

  datatype Write = Write(stamp: int, username: string, add: set<string>, remove: set<string>)
  type Log = seq<Write>

  /** Stamps never go back, and no request adds and removes the same URL. */
  ghost predicate WellFormed(log: Log) {
    && (forall i, j :: 0 <= i <= j < |log| ==> log[i].stamp <= log[j].stamp)
    && (forall i :: 0 <= i < |log| ==> log[i].add !! log[i].remove)
  }

  // The reference: sets only.

  function Members(log: Log, username: string): set<string> {
    if log == [] then {}
    else
      var w, before := log[|log| - 1], Members(log[..|log| - 1], username);
      if w.username == username then before + w.add - w.remove else before
  }

  predicate Flips(log: Log, username: string, url: string)
    requires log != []
  {
    (url in Members(log, username)) != (url in Members(log[..|log| - 1], username))
  }

  /** The stamp of the last request that changed whether the user subscribes to the URL. */
  function LastFlip(log: Log, username: string, url: string): Option<int> {
    if log == [] then None
    else if Flips(log, username, url) then Some(log[|log| - 1].stamp)
    else LastFlip(log[..|log| - 1], username, url)
  }

  /** The stamp of the last request that made the URL a member. */
  function LastJoin(log: Log, username: string, url: string): Option<int> {
    if log == [] then None
    else if Flips(log, username, url) && url in Members(log, username) then Some(log[|log| - 1].stamp)
    else LastJoin(log[..|log| - 1], username, url)
  }

  // The implementation: the table left by executing the log.

  function Replay(log: Log): Table {
    if log == [] then map[]
    else
      var w := log[|log| - 1];
      Changed(Replay(log[..|log| - 1]), w.username, w.add, w.remove, w.stamp)
  }

  lemma ReplayNext(log: Log, w: Write)
    ensures Replay(log + [w]) == Changed(Replay(log), w.username, w.add, w.remove, w.stamp)
    ensures WellFormed(log) && w.add !! w.remove && (log == [] || log[|log| - 1].stamp <= w.stamp) ==>
              WellFormed(log + [w])
  {
    assert (log + [w])[..|log|] == log;
  }

  ghost predicate RowMatchesLog(o: Option<Row>, log: Log, username: string, url: string) {
    match o
    case None => LastFlip(log, username, url).None? && url !in Members(log, username)
    case Some(r) =>
      && (r.deleted.None? <==> url in Members(log, username))
      && (r.deleted.Some? ==> r.created <= r.deleted.value)
      && LastJoin(log, username, url) == Some(r.created)
      && LastFlip(log, username, url) == Some(Stamp(r))
      && log != [] && Stamp(r) <= log[|log| - 1].stamp
  }

  lemma {:induction false} RowRefinesLog(log: Log, username: string, url: string)
    requires WellFormed(log)
    ensures RowMatchesLog(Get(Replay(log), Key(username, url)), log, username, url)
  {
    if log != [] {
      var before := log[..|log| - 1];
      RowRefinesLog(before, username, url);
      if before != [] {
        assert before[|before| - 1] == log[|log| - 2];
      }
    }
  }

  /** Table refines log: every reachable row carries the last join and the last flip of its URL. */
  lemma TableRefinesLog(log: Log)
    requires WellFormed(log)
    ensures forall username, url :: RowMatchesLog(Get(Replay(log), Key(username, url)), log, username, url)
    ensures forall username :: Active(Replay(log), username) == Members(log, username)
  {
    forall username, url
      ensures RowMatchesLog(Get(Replay(log), Key(username, url)), log, username, url)
    {
      RowRefinesLog(log, username, url);
    }
    forall username ensures Active(Replay(log), username) == Members(log, username) {
      forall url ensures url in Active(Replay(log), username) <==> url in Members(log, username) {
        RowRefinesLog(log, username, url);
      }
    }
  }

  ghost predicate FlippedSince(log: Log, username: string, url: string, since: int) {
    var last := LastFlip(log, username, url);
    last.Some? && last.value >= since
  }

  /** The feed is the log filtered by last flip: members on `add`, the others on `remove`. */
  lemma FeedIsLastFlips(log: Log, username: string, since: int)
    requires WellFormed(log)
    ensures forall url :: url in FeedAdd(Replay(log), username, since)
                     <==> url in Members(log, username) && FlippedSince(log, username, url, since)
    ensures forall url :: url in FeedRemove(Replay(log), username, since)
                     <==> url !in Members(log, username) && FlippedSince(log, username, url, since)
  {
    forall url
      ensures url in FeedAdd(Replay(log), username, since)
         <==> url in Members(log, username) && FlippedSince(log, username, url, since)
      ensures url in FeedRemove(Replay(log), username, since)
         <==> url !in Members(log, username) && FlippedSince(log, username, url, since)
    {
      RowRefinesLog(log, username, url);
    }
  }

  /** A pull with the token of a pull made at or after the last write returns nothing. */
  lemma SecondPullEmpty(log: Log, username: string, pulledAt: int)
    requires WellFormed(log)
    requires log == [] || log[|log| - 1].stamp <= pulledAt
    ensures FeedAdd(Replay(log), username, pulledAt + 1) == {}
    ensures FeedRemove(Replay(log), username, pulledAt + 1) == {}
  {
  }
}
