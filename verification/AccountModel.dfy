/**
 Accounts, the sync logins ("users") they own and everything stored for those: the data, what
 deleting an account takes away, and which accounts count as inactive.
 */
module AccountModel {
  import opened Prelude
  import Subs = SubscriptionTable
  import Eps = EpisodeTable

  const ADMIN := "admin"
  const STANDARD := "standard"
  const SELF_REGISTRATION := "self_registration"

  datatype Account = Account(username: string, role: string, createdAt: int)
  datatype User = User(accountId: string, lastActivity: Option<int>)
  datatype DeviceKey = DeviceKey(id: string, username: string)
  datatype Device = Device(caption: Option<string>, kind: string, lastActivity: Option<int>)
  datatype ApiKey = ApiKey(accountId: string, role: string)

  /** All tables; the maps are keyed by primary key or UNIQUE constraint. */
  datatype Db = Db(accounts: map<string, Account>, users: map<string, User>, devices: map<DeviceKey, Device>,
                   subscriptions: Subs.Table, episodes: Eps.Table, apiKeys: map<string, ApiKey>,
                   settings: map<string, string>)

  /** REFERENCES accounts(id) holds for users and API keys. */
  ghost predicate RefsValid(db: Db) {
    && (forall u :: u in db.users ==> db.users[u].accountId in db.accounts)
    && (forall k :: k in db.apiKeys ==> db.apiKeys[k].accountId in db.accounts)
  }

  ghost predicate UniqueNames(db: Db) {
    forall a, b :: a in db.accounts && b in db.accounts && db.accounts[a].username == db.accounts[b].username ==> a == b
  }

  /** No other account carries the name. */
  ghost predicate NameFree(accounts: map<string, Account>, id: string, username: string) {
    forall other :: other in accounts && other != id ==> accounts[other].username != username
  }

  /** No user and no API key refers to the account. */
  ghost predicate Unreferenced(db: Db, id: string) {
    && (forall u :: u in db.users ==> db.users[u].accountId != id)
    && (forall k :: k in db.apiKeys ==> db.apiKeys[k].accountId != id)
  }

  predicate IsAdmin(db: Db, id: string) {
    id in db.accounts && db.accounts[id].role == ADMIN
  }

  ghost predicate HasAdmin(db: Db) {
    exists id :: IsAdmin(db, id)
  }

  ghost predicate OtherAdmin(db: Db, id: string) {
    exists other :: other != id && IsAdmin(db, other)
  }

  // What a deletion takes away.

  function UsersOf(db: Db, ids: set<string>): (names: set<string>)
    ensures forall u :: u in names <==> u in db.users && db.users[u].accountId in ids
  {
    set u | u in db.users && db.users[u].accountId in ids
  }

  /**
   What the statements of a deletion removed: the users whose episodes, subscriptions, devices and
   own row are gone, and the accounts whose API keys and own row are.
   */
  datatype Gone = Gone(episodes: set<string>, subscriptions: set<string>, devices: set<string>, users: set<string>,
                       keys: set<string>, accounts: set<string>)

  const NOTHING := Gone({}, {}, {}, {}, {}, {})

  /** The users with all their rows. */
  function WholeUsers(names: set<string>): Gone {
    Gone(names, names, names, names, {}, {})
  }

  /** The accounts with their API keys, their users and all rows of those. */
  function WholeAccounts(db: Db, ids: set<string>): Gone {
    WholeUsers(UsersOf(db, ids)).(keys := ids, accounts := ids)
  }

  function Both(a: Gone, b: Gone): Gone {
    Gone(a.episodes + b.episodes, a.subscriptions + b.subscriptions, a.devices + b.devices, a.users + b.users,
         a.keys + b.keys, a.accounts + b.accounts)
  }

  predicate Within(a: Gone, b: Gone) {
    && a.episodes <= b.episodes && a.subscriptions <= b.subscriptions && a.devices <= b.devices
    && a.users <= b.users && a.keys <= b.keys && a.accounts <= b.accounts
  }

  function Removed(db: Db, gone: Gone): Db {
    Db(map a | a in db.accounts && a !in gone.accounts :: db.accounts[a],
       map u | u in db.users && u !in gone.users :: db.users[u],
       map d | d in db.devices && d.username !in gone.devices :: db.devices[d],
       Subs.WithoutUsers(db.subscriptions, gone.subscriptions),
       Eps.WithoutUsers(db.episodes, gone.episodes),
       map k | k in db.apiKeys && db.apiKeys[k].accountId !in gone.keys :: db.apiKeys[k],
       db.settings)
  }

  function WithoutUsers(db: Db, names: set<string>): Db {
    Removed(db, WholeUsers(names))
  }

  /** The accounts, their API keys, their users and all data of those users gone at once; nothing else. */
  function WithoutAccounts(db: Db, ids: set<string>): Db {
    Removed(db, WholeAccounts(db, ids))
  }

  /** What a cascade over `ids` leaves when just the statements in `gone` succeeded. */
  ghost predicate Deleting(db: Db, db': Db, ids: set<string>, gone: Gone) {
    && Within(gone, WholeAccounts(db, ids)) && db' == Removed(db, gone)
    && (RefsValid(db) ==> RefsValid(db'))
  }

  /** What a user's cascade leaves when just the statements in `gone` succeeded. */
  ghost predicate DeletingUser(db: Db, db': Db, username: string, gone: Gone) {
    Within(gone, WholeUsers({username})) && db' == Removed(db, gone)
  }

  /** Every device, subscription and episode row belongs to an existing user. */
  ghost predicate OwnersExist(db: Db) {
    && (forall d :: d in db.devices ==> d.username in db.users)
    && (forall k :: k in db.subscriptions ==> k.username in db.users)
    && (forall k :: k in db.episodes ==> k.username in db.users)
  }

  /** A full cascade leaves nothing behind that refers to the accounts, and no orphaned rows. */
  lemma CascadeLeavesNothingBehind(db: Db, ids: set<string>)
    ensures var db' := WithoutAccounts(db, ids);
            && (forall id :: id in ids ==> id !in db'.accounts)
            && (forall u :: u in db'.users ==> db'.users[u].accountId !in ids)
            && (forall k :: k in db'.apiKeys ==> db'.apiKeys[k].accountId !in ids)
            && (RefsValid(db) ==> RefsValid(db')) && (OwnersExist(db) ==> OwnersExist(db'))
  {
  }

  /** And it touches nothing of anybody else: other accounts, their keys, users and rows are what they were. */
  lemma CascadeSparesOthers(db: Db, ids: set<string>)
    ensures var db' := WithoutAccounts(db, ids);
            && db'.settings == db.settings
            && (forall id :: id in db.accounts && id !in ids ==>
                  id in db'.accounts && db'.accounts[id] == db.accounts[id])
            && (forall k :: k in db.apiKeys && db.apiKeys[k].accountId !in ids ==>
                  k in db'.apiKeys && db'.apiKeys[k] == db.apiKeys[k])
            && (forall u :: u in db.users && db.users[u].accountId !in ids ==>
                  u in db'.users && db'.users[u] == db.users[u])
  {
  }

  lemma CascadeSparesOtherRows(db: Db, ids: set<string>, username: string)
    requires username in db.users ==> db.users[username].accountId !in ids
    ensures var db' := WithoutAccounts(db, ids);
            && (forall d :: d in db.devices && d.username == username ==>
                  d in db'.devices && db'.devices[d] == db.devices[d])
            && (forall k :: k in db.subscriptions && k.username == username ==>
                  k in db'.subscriptions && db'.subscriptions[k] == db.subscriptions[k])
            && (forall k :: k in db.episodes && k.username == username ==>
                  k in db'.episodes && db'.episodes[k] == db.episodes[k])
  {
  }

  lemma RemovedTwice(db: Db, a: Gone, b: Gone)
    ensures Removed(Removed(db, a), b) == Removed(db, Both(a, b))
  {
    var once, both := Removed(Removed(db, a), b), Removed(db, Both(a, b));
    assert once.accounts == both.accounts;
    assert once.users == both.users;
    assert once.devices == both.devices;
    assert once.subscriptions == both.subscriptions;
    assert once.episodes == both.episodes;
    assert once.apiKeys == both.apiKeys;
  }

  /** Account after account is the same as all at once. */
  lemma CascadesCompose(db: Db, ids: set<string>, more: set<string>)
    ensures WithoutAccounts(WithoutAccounts(db, ids), more) == WithoutAccounts(db, ids + more)
  {
    var one := WithoutAccounts(db, ids);
    RemovedTwice(db, WholeAccounts(db, ids), WholeAccounts(one, more));
    assert UsersOf(db, ids + more) == UsersOf(db, ids) + UsersOf(one, more);
    assert Both(WholeAccounts(db, ids), WholeAccounts(one, more)) == WholeAccounts(db, ids + more);
  }

  /** Incomplete cascades compose as well, and what both must spare is spared. */
  lemma DeletionsCompose(db: Db, mid: Db, db': Db, ids: set<string>, more: set<string>, a: Gone, b: Gone)
    requires Deleting(db, mid, ids, a) && Deleting(mid, db', more, b)
    ensures Deleting(db, db', ids + more, Both(a, b))
  {
    RemovedTwice(db, a, b);
    assert UsersOf(mid, more) <= UsersOf(db, ids + more) && UsersOf(db, ids) <= UsersOf(db, ids + more);
  }

  // Rows and their owners.

  /** Wherever the statement for a user's own row succeeded, those for its rows did, unless it had none. */
  ghost predicate RowsFollowUsers(db: Db, gone: Gone) {
    && (forall d :: d in db.devices && d.username in gone.users ==> d.username in gone.devices)
    && (forall k :: k in db.subscriptions && k.username in gone.users ==> k.username in gone.subscriptions)
    && (forall k :: k in db.episodes && k.username in gone.users ==> k.username in gone.episodes)
  }

  /** Exactly then no row loses its owner, whichever statements of however many cascades failed. */
  lemma OwnersStayIffRowsFollow(db: Db, gone: Gone)
    requires OwnersExist(db)
    ensures OwnersExist(Removed(db, gone)) <==> RowsFollowUsers(db, gone)
  {
    var db' := Removed(db, gone);
    if OwnersExist(db') {
      forall d | d in db.devices && d.username in gone.users ensures d.username in gone.devices {
        assert d !in db'.devices;
      }
      forall k | k in db.subscriptions && k.username in gone.users ensures k.username in gone.subscriptions {
        assert k !in db'.subscriptions;
      }
      forall k | k in db.episodes && k.username in gone.users ensures k.username in gone.episodes {
        assert k !in db'.episodes;
      }
    }
  }

  /** Complete cascades never orphan a row. */
  lemma WholeDeletionsKeepOwners(db: Db, names: set<string>, ids: set<string>)
    requires OwnersExist(db)
    ensures OwnersExist(WithoutUsers(db, names)) && OwnersExist(WithoutAccounts(db, ids))
  {
    OwnersStayIffRowsFollow(db, WholeUsers(names));
    OwnersStayIffRowsFollow(db, WholeAccounts(db, ids));
  }

  // Inactivity.

  /** The larger of two nullable stamps, NULL counting as absent. */
  function MaxStamp(a: Option<int>, b: Option<int>): Option<int> {
    if a.None? then b else if b.None? || a.value >= b.value then a else b
  }

  /**
   Not an admin, and the most recent activity of its users, or its creation when none was ever
   recorded, lies before the cutoff.
   */
  ghost predicate IsInactive(db: Db, id: string, cutoff: int) {
    && id in db.accounts && db.accounts[id].role != ADMIN
    && (forall u :: u in db.users && db.users[u].accountId == id && db.users[u].lastActivity.Some? ==>
          db.users[u].lastActivity.value < cutoff)
    && ((exists u :: u in db.users && db.users[u].accountId == id && db.users[u].lastActivity.Some?)
        || db.accounts[id].createdAt < cutoff)
  }

  ghost function Inactive(db: Db, cutoff: int): (ids: set<string>)
    ensures forall id :: id in ids <==> IsInactive(db, id, cutoff)
  {
    set id | id in db.accounts && IsInactive(db, id, cutoff)
  }

  /** Some activity of one of the account's users is on record. */
  ghost predicate EverActive(db: Db, id: string) {
    exists u :: u in db.users && db.users[u].accountId == id && db.users[u].lastActivity.Some?
  }

  /** Some user of the account was last active at or after the cutoff. */
  ghost predicate ActiveFrom(db: Db, id: string, cutoff: int) {
    exists u :: u in db.users && db.users[u].accountId == id && db.users[u].lastActivity.Some?
                && db.users[u].lastActivity.value >= cutoff
  }

  /** An account that never was active counts from its creation, any other from its latest activity. */
  lemma InactiveIff(db: Db, id: string, cutoff: int)
    requires id in db.accounts
    ensures !EverActive(db, id) ==>
              (id in Inactive(db, cutoff) <==> db.accounts[id].role != "admin" && db.accounts[id].createdAt < cutoff)
    ensures EverActive(db, id) ==>
              (id in Inactive(db, cutoff) <==> db.accounts[id].role != "admin" && !ActiveFrom(db, id, cutoff))
  {
  }

  /** A sweep, complete or not, keeps every admin. */
  lemma SweepKeepsAdmins(db: Db, db': Db, cutoff: int, gone: Gone, id: string)
    requires Deleting(db, db', Inactive(db, cutoff), gone)
    requires IsAdmin(db, id)
    ensures IsAdmin(db', id) && db'.accounts[id] == db.accounts[id]
  {
  }

  // Activity debouncing.

  const NANOS := 1_000_000_000
  const DEBOUNCE := 60 * NANOS

  /** Nanosecond clock: the stored second is refreshed only when more than 60 s old. */
  function Touched(last: Option<int>, now: int): Option<int> {
    if last.None? || now - last.value * NANOS > DEBOUNCE then Some(now / NANOS) else last
  }

  /** The stored activity never goes back, whatever the clock does, and is at most 60 s behind. */
  lemma TouchLagsAtMostDebounce(last: Option<int>, now: int)
    ensures Touched(last, now).Some? && Touched(last, now).value * NANOS + DEBOUNCE >= now
    ensures last.Some? ==> Touched(last, now).value >= last.value
  {
  }

  /** What is stored was there before or is the second of the request itself, neither earlier nor ahead of it. */
  lemma TouchedIsOldOrNow(last: Option<int>, now: int)
    ensures || Touched(last, now) == last
            || (Touched(last, now).value * 1_000_000_000 <= now < (Touched(last, now).value + 1) * 1_000_000_000)
    ensures last.None? ==> Touched(last, now) != last
  {
  }

  /** A request protects its account from a sweep, whatever was stored before, exactly from 59 s past the cutoff. */
  lemma RequestProtectsIffPastDebounce(now: int, cutoff: int)
    ensures (forall last :: Touched(last, now).value >= cutoff) <==> now > (cutoff + 59) * NANOS
  {
    if now > (cutoff + 59) * NANOS {
      forall last ensures Touched(last, now).value >= cutoff {
        TouchLagsAtMostDebounce(last, now);
      }
    } else {
      assert Touched(Some(cutoff - 1), now) == Some(cutoff - 1);
    }
  }
}
