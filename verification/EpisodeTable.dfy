/**
 The `episodes` table, keyed by UNIQUE(username, podcast, episode): one row per episode, replaced
 only by an upload whose content hash differs from the stored one.
 */
module EpisodeTable {
  import opened Prelude
  import opened EpisodeHash

  /** The content hash stored beside a row; the rules here hold for any. */
  type Hasher = Content -> string

  datatype Key = Key(username: string, podcast: string, episode: string)

  /** An uploaded action; `timestamp` is the client's own time, already parsed. */
  datatype Episode = Episode(podcast: string, episode: string, device: Option<string>, timestamp: Option<int>,
                             guid: Option<string>, content: Content)

  datatype Row = Row(device: Option<string>, timestamp: Option<int>, guid: Option<string>, content: Content,
                     modified: int, hash: string)
  type Table = map<Key, Row>

  /** One statement's worth of upload: who, what, and the second of the request. */
  datatype Upload = Upload(username: string, ep: Episode, stamp: int)

  function KeyOf(up: Upload): Key {
    Key(up.username, up.ep.podcast, up.ep.episode)
  }

  function HashOf(hash: Hasher, up: Upload): string {
    hash(up.ep.content)
  }

  function RowOf(hash: Hasher, up: Upload): Row {
    Row(up.ep.device, up.ep.timestamp, up.ep.guid, up.ep.content, up.stamp, HashOf(hash, up))
  }

  /** INSERT ... ON CONFLICT DO UPDATE ... WHERE the hashes differ. */
  function Upsert(hash: Hasher, t: Table, up: Upload): Table {
    if KeyOf(up) in t && t[KeyOf(up)].hash == HashOf(hash, up) then t else t[KeyOf(up) := RowOf(hash, up)]
  }

  function UpsertAll(hash: Hasher, t: Table, ups: seq<Upload>): Table {
    if ups == [] then t else Upsert(hash, UpsertAll(hash, t, ups[..|ups| - 1]), ups[|ups| - 1])
  }

  function Uploads(username: string, eps: seq<Episode>, stamp: int): (ups: seq<Upload>)
    ensures |ups| == |eps|
    ensures forall i :: 0 <= i < |ups| ==> ups[i] == Upload(username, eps[i], stamp)
  {
    seq(|eps|, i requires 0 <= i < |eps| => Upload(username, eps[i], stamp))
  }

  /** Uploading in two parts is uploading at once: batch boundaries leave no trace. */
  lemma {:induction false} UpsertAllAppend(hash: Hasher, t: Table, a: seq<Upload>, b: seq<Upload>)
    ensures UpsertAll(hash, t, a + b) == UpsertAll(hash, UpsertAll(hash, t, a), b)
  {
    if b == [] {
      assert a + b == a;
    } else {
      var init := b[..|b| - 1];
      UpsertAllAppend(hash, t, a, init);
      assert (a + b)[..|a + b| - 1] == a + init;
    }
  }

  /** Uploads remove no row and add one for each of their keys. */
  lemma {:induction false} UploadedKeys(hash: Hasher, t: Table, ups: seq<Upload>)
    ensures forall k :: k in UpsertAll(hash, t, ups) <==> k in t || exists i :: 0 <= i < |ups| && KeyOf(ups[i]) == k
  {
    if ups != [] {
      var init := ups[..|ups| - 1];
      UploadedKeys(hash, t, init);
      assert forall i :: 0 <= i < |init| ==> init[i] == ups[i];
    }
  }

  // Attribution: which upload a stored row speaks for.

  /** The latest upload for `k` among the first `n`, or -1. */
  function Latest(ups: seq<Upload>, k: Key, n: nat): (j: int)
    requires n <= |ups|
    ensures -1 <= j < n
    ensures j >= 0 ==> KeyOf(ups[j]) == k
  {
    if n == 0 then -1 else if KeyOf(ups[n - 1]) == k then n - 1 else Latest(ups, k, n - 1)
  }

  lemma {:induction false} NoneAfterLatest(ups: seq<Upload>, k: Key, n: nat, m: int)
    requires n <= |ups| && Latest(ups, k, n) < m < n
    ensures KeyOf(ups[m]) != k
  {
    if m < n - 1 {
      NoneAfterLatest(ups, k, n - 1, m);
    }
  }

  /** Among the first `n` uploads, `ups[i]` opens the last maximal run of equal-hash uploads for `k`. */
  ghost predicate OpensLastRun(hash: Hasher, ups: seq<Upload>, k: Key, n: nat, i: nat) {
    && i < n <= |ups| && KeyOf(ups[i]) == k
    && (forall j :: i < j < n && KeyOf(ups[j]) == k ==> HashOf(hash, ups[j]) == HashOf(hash, ups[i]))
    && (Latest(ups, k, i) >= 0 ==> HashOf(hash, ups[Latest(ups, k, i)]) != HashOf(hash, ups[i]))
  }

  lemma UpsertNext(hash: Hasher, t: Table, ups: seq<Upload>, n: nat)
    requires n < |ups|
    ensures UpsertAll(hash, t, ups[..n + 1]) == Upsert(hash, UpsertAll(hash, t, ups[..n]), ups[n])
  {
    assert ups[..n + 1][..n] == ups[..n];
  }

  lemma {:induction false} StoredHashIsLatest(hash: Hasher, ups: seq<Upload>, k: Key, n: nat)
    requires n <= |ups|
    ensures var t := UpsertAll(hash, map[], ups[..n]);
            var j := Latest(ups, k, n);
            if j < 0 then k !in t else k in t && t[k].hash == HashOf(hash, ups[j])
  {
    if n > 0 {
      StoredHashIsLatest(hash, ups, k, n - 1);
      UpsertNext(hash, map[], ups, n - 1);
    }
  }

  lemma {:induction false} RowIsOpeningUpload(hash: Hasher, ups: seq<Upload>, k: Key, n: nat, i: nat)
    requires OpensLastRun(hash, ups, k, n, i)
    ensures var t := UpsertAll(hash, map[], ups[..n]); k in t && t[k] == RowOf(hash, ups[i])
  {
    hide UpsertAll;
    UpsertNext(hash, map[], ups, n - 1);
    if i < n - 1 {
      RowIsOpeningUpload(hash, ups, k, n - 1, i);
    } else {
      StoredHashIsLatest(hash, ups, k, n - 1);
    }
  }

  lemma {:induction false} LastRunExists(hash: Hasher, ups: seq<Upload>, k: Key, n: nat) returns (i: nat)
    requires n <= |ups| && Latest(ups, k, n) >= 0
    ensures OpensLastRun(hash, ups, k, n, i)
  {
    if Latest(ups, k, n - 1) < 0 {
      i := n - 1;
    } else {
      i := LastRunExists(hash, ups, k, n - 1);
      var j := Latest(ups, k, n - 1);
      if j < i {
        NoneAfterLatest(ups, k, n - 1, i);
      }
      assert HashOf(hash, ups[j]) == HashOf(hash, ups[i]);
      if KeyOf(ups[n - 1]) == k && HashOf(hash, ups[n - 1]) != HashOf(hash, ups[i]) {
        i := n - 1;
      }
    }
  }

  /**
   Over a whole history without deletions, the rows are exactly the uploads that open the last
   maximal run of equal-hash uploads for their key: device, timestamp, guid, values and `modified`
   stamp are theirs, and the hash is that of the very last upload.
   */
  lemma Attribution(hash: Hasher, ups: seq<Upload>, k: Key) returns (i: int)
    ensures i < 0 <==> forall j :: 0 <= j < |ups| ==> KeyOf(ups[j]) != k
    ensures i < 0 <==> k !in UpsertAll(hash, map[], ups)
    ensures i >= 0 ==> OpensLastRun(hash, ups, k, |ups|, i)
    ensures i >= 0 ==>
              var r, ep := UpsertAll(hash, map[], ups)[k], ups[i].ep;
              && r.device == ep.device && r.timestamp == ep.timestamp && r.guid == ep.guid
              && r.content == ep.content && r.modified == ups[i].stamp
    ensures i >= 0 ==> var j := Latest(ups, k, |ups|);
            i <= j && UpsertAll(hash, map[], ups)[k].hash == HashOf(hash, ups[j])
  {
    assert ups[..|ups|] == ups;
    StoredHashIsLatest(hash, ups, k, |ups|);
    i := -1;
    if Latest(ups, k, |ups|) >= 0 {
      assert KeyOf(ups[Latest(ups, k, |ups|)]) == k;
      i := LastRunExists(hash, ups, k, |ups|);
      RowIsOpeningUpload(hash, ups, k, |ups|, i);
      if i > Latest(ups, k, |ups|) {
        NoneAfterLatest(ups, k, |ups|, i);
      }
    } else {
      forall j | 0 <= j < |ups| ensures KeyOf(ups[j]) != k {
        NoneAfterLatest(ups, k, |ups|, j);
      }
    }
  }

  /** An upload leaves the whole table as it is exactly when it repeats the latest state of its key. */
  lemma EchoIsSilent(hash: Hasher, ups: seq<Upload>, echo: Upload)
    ensures UpsertAll(hash, map[], ups + [echo]) == UpsertAll(hash, map[], ups)
       <==> (var j := Latest(ups, KeyOf(echo), |ups|); j >= 0 && HashOf(hash, echo) == HashOf(hash, ups[j]))
  {
    StoredHashIsLatest(hash, ups, KeyOf(echo), |ups|);
    assert ups[..|ups|] == ups;
    var t, t' := UpsertAll(hash, map[], ups), Upsert(hash, UpsertAll(hash, map[], ups), echo);
    assert UpsertAll(hash, map[], ups + [echo]) == t' by {
      assert (ups + [echo])[..|ups|] == ups;
    }
    assert t' != t ==> t'[KeyOf(echo)] == RowOf(hash, echo);
  }

  // Crash and retry.

  /** The row a list of uploads leaves for one key, stamps forgotten. */
  function Unstamped(o: Option<Row>): Option<Row> {
    match o
    case None => None
    case Some(r) => Some(r.(modified := 0))
  }

  function Lookup(t: Table, k: Key): Option<Row> {
    if k in t then Some(t[k]) else None
  }

  /** What one upload does to the row of `k`. */
  function UpsertRow(hash: Hasher, o: Option<Row>, k: Key, up: Upload): Option<Row> {
    if KeyOf(up) != k || (o.Some? && o.value.hash == HashOf(hash, up)) then o else Some(RowOf(hash, up))
  }

  function UpsertRowAll(hash: Hasher, o: Option<Row>, k: Key, ups: seq<Upload>): Option<Row> {
    if ups == [] then o else UpsertRow(hash, UpsertRowAll(hash, o, k, ups[..|ups| - 1]), k, ups[|ups| - 1])
  }

  /** Each key evolves on its own. */
  lemma {:induction false} RowwiseUpsertAll(hash: Hasher, t: Table, ups: seq<Upload>, k: Key)
    ensures Lookup(UpsertAll(hash, t, ups), k) == UpsertRowAll(hash, Lookup(t, k), k, ups)
  {
    if ups != [] {
      RowwiseUpsertAll(hash, t, ups[..|ups| - 1], k);
    }
  }

  /** Stamps of uploads and stored rows never influence anything but `modified`. */
  lemma {:induction false} StampsDoNotMatter(hash: Hasher, o: Option<Row>, o': Option<Row>, k: Key,
                                             username: string, eps: seq<Episode>, stamp: int, stamp': int)
    requires Unstamped(o) == Unstamped(o')
    ensures Unstamped(UpsertRowAll(hash, o, k, Uploads(username, eps, stamp)))
         == Unstamped(UpsertRowAll(hash, o', k, Uploads(username, eps, stamp')))
  {
    if eps != [] {
      var init := eps[..|eps| - 1];
      UploadsInit(username, eps, stamp);
      UploadsInit(username, eps, stamp');
      StampsDoNotMatter(hash, o, o', k, username, init, stamp, stamp');
    }
  }

  lemma UploadsInit(username: string, eps: seq<Episode>, stamp: int)
    requires eps != []
    ensures Uploads(username, eps, stamp)[..|eps| - 1] == Uploads(username, eps[..|eps| - 1], stamp)
  {
  }

  lemma UploadsAppend(username: string, a: seq<Episode>, b: seq<Episode>, stamp: int)
    ensures Uploads(username, a + b, stamp) == Uploads(username, a, stamp) + Uploads(username, b, stamp)
  {
  }

  /** Whatever the row was, its final hash is that of the last upload for the key. */
  lemma {:induction false} FinalHashForgetsStart(hash: Hasher, o: Option<Row>, o': Option<Row>, k: Key,
                                                 ups: seq<Upload>)
    ensures var r, r' := UpsertRowAll(hash, o, k, ups), UpsertRowAll(hash, o', k, ups);
            (r == o && r' == o') || (r.Some? && r'.Some? && r.value.hash == r'.value.hash)
  {
    if ups != [] {
      FinalHashForgetsStart(hash, o, o', k, ups[..|ups| - 1]);
    }
  }

  /** Replaying a list on top of its own result gives the same row again. */
  lemma {:induction false} ReplayIsIdempotent(hash: Hasher, o: Option<Row>, k: Key, ups: seq<Upload>)
    ensures var r := UpsertRowAll(hash, o, k, ups); UpsertRowAll(hash, r, k, ups) == r
  {
    if ups != [] {
      var init, last := ups[..|ups| - 1], ups[|ups| - 1];
      ReplayIsIdempotent(hash, o, k, init);
      FinalHashForgetsStart(hash, o, UpsertRowAll(hash, o, k, ups), k, init);
    }
  }

  lemma {:induction false} UpsertRowAllAppend(hash: Hasher, o: Option<Row>, k: Key, a: seq<Upload>, b: seq<Upload>)
    ensures UpsertRowAll(hash, o, k, a + b) == UpsertRowAll(hash, UpsertRowAll(hash, o, k, a), k, b)
  {
    if b == [] {
      assert a + b == a;
    } else {
      UpsertRowAllAppend(hash, o, k, a, b[..|b| - 1]);
      assert (a + b)[..|a + b| - 1] == a + b[..|b| - 1];
    }
  }

  /**
   Crash and retry: an upload that got `done` episodes in before it failed, re-sent whole at any
   other stamp, leaves every row as one undisturbed upload would, `modified` aside.
   */
  lemma RetryAfterCrash(hash: Hasher, t: Table, username: string, eps: seq<Episode>, done: nat, stamp: int,
                        retry: int, k: Key)
    requires done <= |eps|
    ensures var crashed := UpsertAll(hash, t, Uploads(username, eps[..done], stamp));
            var retried := UpsertAll(hash, crashed, Uploads(username, eps, retry));
            var undisturbed := UpsertAll(hash, t, Uploads(username, eps, stamp));
            Unstamped(Lookup(retried, k)) == Unstamped(Lookup(undisturbed, k))
  {
    var head, tail := eps[..done], eps[done..];
    assert eps == head + tail;
    var a, b := Uploads(username, head, stamp), Uploads(username, tail, stamp);
    var crashed := UpsertAll(hash, t, a);
    RowwiseUpsertAll(hash, t, a, k);
    RowwiseUpsertAll(hash, t, Uploads(username, eps, stamp), k);
    RowwiseUpsertAll(hash, crashed, Uploads(username, eps, retry), k);
    UploadsAppend(username, head, tail, stamp);
    var o := Lookup(t, k);
    var r := UpsertRowAll(hash, o, k, a);
    ReplayIsIdempotent(hash, o, k, a);
    UpsertRowAllAppend(hash, o, k, a, b);
    UpsertRowAllAppend(hash, r, k, a, b);
    StampsDoNotMatter(hash, r, r, k, username, eps, retry, stamp);
  }

  // Queries and retention.

  /** One filter for all four episode queries; a row without device equals no given device. */
  predicate Matches(k: Key, r: Row, username: string, podcast: Option<string>, device: Option<string>, since: int) {
    && k.username == username
    && (podcast.Some? ==> k.podcast == podcast.value)
    && (device.Some? ==> r.device == device)
    && r.modified >= since
  }

  function Feed(t: Table, username: string, podcast: Option<string>, device: Option<string>, since: int): Table {
    map k | k in t && Matches(k, t[k], username, podcast, device, since) :: t[k]
  }

  /** DELETE FROM episodes WHERE modified < cutoff. */
  function Retained(t: Table, cutoff: int): Table {
    map k | k in t && t[k].modified >= cutoff :: t[k]
  }

  /** The rows of these users deleted outright. */
  function WithoutUsers(t: Table, names: set<string>): Table {
    map k | k in t && k.username !in names :: t[k]
  }

  /** A pull cannot tell whether retention ran before it exactly when it asks from the cutoff on. */
  lemma RetentionInvisibleIffSinceCutoff(username: string, podcast: Option<string>, device: Option<string>,
                                         since: int, cutoff: int)
    ensures (forall t: Table ::
               Feed(Retained(t, cutoff), username, podcast, device, since) == Feed(t, username, podcast, device, since))
       <==> since >= cutoff
  {
    if since >= cutoff {
      forall t: Table
        ensures Feed(Retained(t, cutoff), username, podcast, device, since) == Feed(t, username, podcast, device, since)
      {
      }
    } else {
      var k := Key(username, if podcast.Some? then podcast.value else "", "");
      var r := Row(device, None, None, Content("", None, None, None), since, "");
      var t: Table := map[k := r];
      assert k in Feed(t, username, podcast, device, since);
      assert k !in Feed(Retained(t, cutoff), username, podcast, device, since);
    }
  }
}
