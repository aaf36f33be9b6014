# A verified model of goPodder's sync and account rules

goPodder keeps podcast subscriptions and episode progress in sync between devices. This project
models the parts of it whose guarantees only show over whole runs and proves those guarantees.
`dafny verify dfyconfig.toml` checks everything.

**Subscriptions.** One table row per user and URL, never removed by a sync request but stamped
`created`/`deleted`. `SubscriptionTable` says what the SQL statements and one request do to it,
`SubscriptionLog` compares the stamped table with the log of requests it replaces, and
`SubscriptionSync` runs any number of clients (replica and token) against all writers: push, PUT,
API v1, the web UI and OPML import (`Opml`).

**Episode actions.** `EpisodeHash` is the text that is hashed and a reader for it, `EpisodeTable`
the hash-guarded upsert, its histories, retry and retention, `EpisodeSync` the clients.

**Accounts.** `AccountModel` holds the data, the cascade, inactivity and the activity debounce;
`AccountRuns` is the lifecycle as a relation between database states, one step per handler.

**The imperative side.** `Pggen` has the SQL statements as methods of a class holding the tables,
`StoreSql` the transactions and loops, and `ApiSubscriptions`, `ApiEpisodes`, `WebSubscriptions`,
`WebAccounts`, `ApiKeys`, `Cascades` and `Server` the handlers and background jobs. Each method is
proved to compute what the definitions above say. Any statement may fail; it then changes nothing and
raises the ghost counter `Queries.faults`, unless a UNIQUE or REFERENCES clause refused it. A
transaction may fail at its beginning, at any statement and at its commit, and restores its starting
point. So "without faults" below means that the counter is the same before and after: the contracts
then say exactly what happened and exactly when a request is granted. With faults they say what can
still not go wrong. A SELECT without ORDER BY returns rows in an arbitrary order.

What the proofs take as given: every handler but the episode pull is one atomic step with one clock
reading; SHA-256 is an arbitrary function `sha`, and `EpisodeSync.AlwaysLosslessIffSeparates` with
`SeparatesIffCollisionFree` says on which uploaded contents it must not collide; `isValidFeedURL`,
`isValidUsername` and `strconv.Atoi` are arbitrary functions passed as parameters; password checks,
fresh ids and the clock are parameters; UNIQUE and REFERENCES clauses are enforced as `schema.sql`
declares them.

## Properties that fail, and exactly when

- A pull token lies one second ahead of the pull, so a client is right after every pull if no write
  for its user follows one of its own pulls within the second (`Convergence`); with such writes,
  `WriteInPulledSecondIsLost` is the smallest failing run. Exactly: of two consecutive pulls with any
  requests between them the second is right if and only if each URL whose membership differs from the
  replica last flipped after the second of the first pull (`ConvergesIff`; for all logs, replicas and
  tokens `PullRightIffFlippedSince`). For a lone write that is "not in the pulled second"
  (`LoneWriteMissedIffSameSecond`). `NextPullMissesIffStampedBeforeToken`, for any table, request and
  token, also covers a write that slips between the query of a subscription pull and the clock
  reading the pull makes afterwards.
- An episode pull reads its clock first, and `LosslessPulls` holds with other steps between that
  reading and the query. An upload has no such freedom (`UploadSeenIffStampedSincePull`).
- The token a push answers with lies a second ahead as well. A client that carries on with it is right
  after its next pull if and only if each URL on which it differs from the active set at the end of
  the second of the push flips in a later second, whatever requests precede, share that second or
  follow (`PushTokenRightIff`; for any replica and token `TokenRightIff`). With no later write for the
  user in that second: each URL outside the push about which it was wrong before
  (`QuietPushTokenRightIff`). `WriteInPushedSecondIsLost` is the smallest run in which such a write is lost.
- The token an episode upload answers with does not lie ahead. A client that carries on with it is
  right if and only if it held every row outside the upload that last changed before the second of
  the upload (`EpisodeSync.PushTokenRightIff`).
- A push with a URL on both lists is not idempotent and its loops do not commute; the two iff
  lemmas in `SubscriptionTable` show that `hasOverlap` is the exact guard.
- The hashed text of an action is shared by a different one if and only if it has a value (which the
  other's action can spell out) or its own action spells values out after a semicolon
  (`AmbiguousIff`). Among semicolon-free actions it is unambiguous (`TextInjective`).
- Episode pulls are lossless in every run over given contents if and only if the stored hash tells
  those contents apart (`AlwaysLosslessIffSeparates`); for semicolon-free actions that means no
  SHA-256 collision among their texts (`SeparatesIffCollisionFree`).
- An admin always exists exactly when registration is off in the empty database
  (`AdminAlwaysIffRegistrationOff`). A reachable state without an admin gets one if and only if a setup
  takes effect (`AdminIffSetUp`), so accounts without an admin stay so until all of them are gone,
  unless a setup fails to count them (`LockedUntilEmptied`). From every such state a run of
  self-deletions and one setup leads to an admin (`EveryLockoutCanBeLeft`).
- No constraint ties devices, subscriptions and episodes to a user, and a cascade goes on after a failed
  statement. Cascades over users or accounts keep every row owned if and only if, of each user whose
  own DELETE succeeded, all rows were taken by statements that succeeded (`OwnersStayIffRowsFollow`);
  without faults they always do. A sync request does so if and only if its user exists or it writes
  no row. A run keeps every row owned if and only if all its effective steps are of these kinds
  (`RunKeepsOwnersIff`). `OrphansAreInherited` and `WriteForAbsentUserIsStored` are the failures: the
  admin routes behind `forAnyUser` (web_handler.go:533-539) do not look up the user in their path.
- A request protects its account from a sweep exactly when it came later than 59 seconds after the
  cutoff (`RequestProtectsIffPastDebounce`, over runs `SweepSpares`); an account none of whose users'
  requests came from the cutoff on is taken (`SweepTakesIdle`). In the 59 seconds between, an earlier
  stored stamp decides.
- APIDOCS.md's remark that API v1's `timestamp` can serve as `since` is about a token of `now`, not of
  `now + 1` as in the sync API; `HandleAPIUpdateSubscriptions` follows the code.

## Model

| member | source | states |
|---|---|---|
| SubscriptionTable.ActiveAfterChange | gopodder/store_sql.go:496-516 | after a request the user's active set is (old ∪ add) \ remove, and nobody else's changed |
| SubscriptionTable.RetryInvisibleIffDisjoint | gopodder/api_subscriptions.go:172-190 | re-sending a push at another stamp leaves the table identical exactly when no URL is on both lists, which is what the overlap check guards |
| SubscriptionTable.LoopOrderIrrelevantIffDisjoint | gopodder/store_sql.go:496-516 | running the removal loop first gives the same table exactly when the lists are disjoint |
| SubscriptionTable.ReactivateThenChange | gopodder/api_keys.go:315-319 | reactivating any part of the additions first, whether or not each ignored statement took effect, gives the table of a plain push |
| SubscriptionTable.ReactivatedIsChange | gopodder/pggen/queries.sql.go:1110-1113 | a reactivation alone equals adding just the URLs that have a tombstone |
| SubscriptionTable.MinimalDiffReplaces | gopodder/store_helpers.go:133-154 | applying only the difference equals adding everything desired and removing every other active URL; the active set becomes the desired set, rows in the intersection keep their stamps, other users keep their rows |
| SubscriptionTable.OrFilterExactIffOrdered | gopodder/pggen/queries.sql.go:710-714 | `created >= since OR deleted >= since` selects by last change, for every since, exactly for rows not deleted before they were created |
| SubscriptionLog.RowRefinesLog | gopodder/pggen/queries.sql.go:13-19 | under nondecreasing stamps a row exists once its URL was ever joined, is active iff the URL is a member of the log's set, and carries the last join as `created` and the last flip as its latest stamp |
| SubscriptionLog.TableRefinesLog | gopodder/pggen/queries.sql.go:268-271 | the same for all rows at once, and active sets equal the log's member sets |
| SubscriptionLog.FeedIsLastFlips | gopodder/store_sql.go:436-455 | for every since the feed lists on `add` the members and on `remove` the non-members whose last flip in the log is at or after since, and nothing else |
| SubscriptionLog.SecondPullEmpty | gopodder/api_subscriptions.go:144-148 | a pull with the token of a pull made after the last write is empty |
| SubscriptionSync.HandleIsOneWrite | gopodder/api_subscriptions.go:151-190 | every writer of the table, failed requests included, amounts to the one batch `BatchOf` names, whose additions and removals are disjoint |
| SubscriptionSync.ActiveAfterRequest | gopodder/store_sql.go:457-494 | the active set after each kind of request, from the one before it: a PUT leaves exactly its valid URLs, API v1 adds and removes its valid URLs, subscribing and importing add, deleting removes one or all |
| SubscriptionSync.RowAfterRequest | gopodder/store_sql.go:496-516 | a request changes no row but those of its user whose status it changes, and stamps those with its second |
| SubscriptionSync.SameActiveSameTable | gopodder/store_sql.go:457-494 | hence two requests that leave the same active set leave the same table |
| SubscriptionSync.AddersAgree | gopodder/api_keys.go:315-319 | adding a list by API v1, by OPML import or by push, and one URL in the web UI, leave the same table |
| SubscriptionSync.RemoversAgree | gopodder/web_handler.go:566-579 | deleting one URL in the web UI is the push that removes it, deleting all is the PUT of the empty list |
| SubscriptionSync.RunKeepsClients | gopodder/api_subscriptions.go:115-149 | along every run with no write for the user in the second of an earlier pull of this client, each URL the client is wrong about is still ahead of its token |
| SubscriptionSync.Convergence | gopodder/api_subscriptions.go:115-197 | for any clients and any interleaving of pulls and writes, if no write for its user follows one of the client's own pulls within the second, then after every pull its replica equals the server's active set |
| SubscriptionSync.PullRightIffUpToDate | gopodder/api_subscriptions.go:127-148 | a pull leaves the replica equal to the active set exactly when every URL on which the client is wrong lies ahead of its token |
| SubscriptionSync.PullRightIffFlippedSince | gopodder/store_sql.go:436-455 | for every log, replica and token, with no condition on the writes: the pull is right exactly when each URL on which the replica and the log disagree last flipped at or after the token |
| SubscriptionSync.ConvergesIff | gopodder/api_subscriptions.go:115-148 | in every run, of two consecutive pulls of a client with any requests between them the second is right exactly when each URL whose membership differs from the replica after the first was last flipped by a request of the run later than the second of the first pull |
| SubscriptionSync.RunIsReplay | gopodder/store_sql.go:457-494 | every reachable table is the replay of the log of the run's requests, one entry each with its second, its user and the batch it came down to |
| SubscriptionSync.NextPullMissesIffStampedBeforeToken | gopodder/api_subscriptions.go:127-148 | a client in step with the server misses a single write exactly when that write is stamped before the client's token and changes the active set |
| SubscriptionSync.LoneWriteMissedIffSameSecond | gopodder/api_subscriptions.go:144-148 | after any run ending in a right pull, the next write is missed exactly when it falls in the second of that pull and changes the active set |
| SubscriptionSync.WriteInPulledSecondIsLost | gopodder/api_subscriptions.go:144-148 | a concrete run in which the `+1` token makes the client miss a subscription |
| SubscriptionSync.TokenRightIff | gopodder/api_subscriptions.go:115-148 | in every run, for any replica and token: the pull is right exactly when each URL on which the replica differs from the active set before the first write stamped by the token was flipped by a request of the run at or after it |
| SubscriptionSync.PushTokenRightIff | gopodder/api_subscriptions.go:185-196 | in every run, with any requests before, in the second of and after its push: a client that adopts the token is right at a later pull exactly when each URL on which it differs from the active set at the end of that second flipped in a later one |
| SubscriptionSync.QuietPushTokenRightIff | gopodder/api_subscriptions.go:185-196 | when no write for the user follows the push within its second, exactly when each URL outside the push on which the client was wrong before it flipped in a later second |
| SubscriptionSync.WriteInPushedSecondIsLost | gopodder/api_subscriptions.go:185-196 | a concrete run in which a subscription of another device in the second of the push never arrives |
| EpisodeHash.ReadDigitsOfDigits | gopodder/store_helpers.go:32-45 | reading digits undoes printing them, for every number and whatever follows |
| EpisodeHash.ReadFieldOfField | gopodder/store_helpers.go:35-43 | an optional field is read back, absent and zero told apart, and the rest is left over |
| EpisodeHash.ReadBackIffNoSemicolon | gopodder/store_helpers.go:32-45 | the hashed text is undone by the reader exactly when the action holds no semicolon, for all integers |
| EpisodeHash.TextInjective | gopodder/store_helpers.go:32-45 | semicolon-free actions with equal text have equal action, started, position and total |
| EpisodeHash.ValuesHideInAction | gopodder/store_helpers.go:34-43 | with semicolons allowed every action carrying a value shares its text with a different one |
| EpisodeHash.AmbiguousIff | gopodder/store_helpers.go:32-45 | a different action with the same text exists exactly when this one has a value or its action, behind one of its semicolons, continues like printed values |
| EpisodeHash.TextFormat | gopodder/store_helpers.go:32-45 | action, started, position and total in that order behind `a=`, `s=`, `p=` and `t=`, absent values left out |
| EpisodeHash.SampleText | gopodder/store_helpers.go:32-45 | the text of two actions written out |
| EpisodeTable.UpsertAllAppend | gopodder/store_sql.go:596-604 | uploading a list in consecutive parts gives the table of one unchunked pass |
| EpisodeTable.Attribution | gopodder/pggen/queries.sql.go:1313-1327 | over any history without deletions a row exists iff its key was uploaded, and holds device, timestamp, guid, values and `modified` of the first upload in the last maximal run of equal hashes, with the hash of the very last upload |
| EpisodeTable.RowIsOpeningUpload | gopodder/store_sql.go:606-635 | any upload that opens the last run for its key is what is stored |
| EpisodeTable.EchoIsSilent | gopodder/pggen/queries.sql.go:1313-1327 | one more upload leaves the whole table as it is exactly when it repeats the hash of the latest upload for its key |
| EpisodeTable.ReplayIsIdempotent | gopodder/store_sql.go:606-635 | replaying a list on top of its own outcome gives the same row |
| EpisodeTable.RetryAfterCrash | gopodder/store_sql.go:596-635 | an upload that broke off after any number of episodes and is re-sent whole at any stamp leaves every row as one undisturbed upload would, except `modified` |
| EpisodeTable.RetentionInvisibleIffSinceCutoff | gopodder/pggen/queries.sql.go:260-262 | no table lets a filtered or unfiltered pull notice the cleanup, exactly when it asks from the cutoff on |
| EpisodeSync.LosslessPulls | gopodder/api_episodes.go:25-54 | in every run whose uploaded contents the hash tells apart, after every pull, other steps between its clock reading and its query included, the client agrees with each row on action, started, position and total, through same-second writes, its own and broken uploads, retention and deletion |
| EpisodeSync.PullRightIffUpToDate | gopodder/api_episodes.go:25-54 | a pull leaves the client in agreement exactly when every row not ahead of its token was held |
| EpisodeSync.RunKeepsClients | gopodder/api_episodes.go:70-82 | along every run each row is known to the client or still ahead of its token |
| EpisodeSync.UploadSeenIffStampedSincePull | gopodder/api_episodes.go:70-82 | a changed row reaches a client in step with the server exactly when it is stamped no earlier than the client's token |
| EpisodeSync.UploadStores | gopodder/store_sql.go:606-635 | an upload leaves each listed episode with the hash of its last entry, stamped with the upload if the stored hash was another |
| EpisodeSync.UploadSparesOthers | gopodder/store_sql.go:606-635 | and leaves every other row as it was |
| EpisodeSync.PushTokenRightIff | gopodder/api_episodes.go:70-82 | in every run, with anything before and after its upload: a client that adopts the token of the answer is right at a later pull exactly when it held every row outside the upload that last changed before the second of the upload |
| EpisodeSync.CollisionBreaksPulls | gopodder/store_helpers.go:32-45 | for any two contents that collide some run leaves the uploader with one where the server holds the other |
| EpisodeSync.AlwaysLosslessIffSeparates | gopodder/api_episodes.go:25-83 | every pull of every run that uploads only the given contents leaves the client in agreement, exactly when the hash tells those contents apart |
| EpisodeSync.SeparatesIffCollisionFree | gopodder/store_helpers.go:32-45 | for semicolon-free actions the stored hash tells contents apart exactly when the digest does not collide on their texts |
| Opml.CollectedIffOnSomeNode | gopodder/web_handler.go:1254-1261 | a URL is collected exactly when it is non-empty and some outline at any depth carries it |
| Opml.CollectedInOrder | gopodder/web_handler.go:1254-1261 | an outline's own URL comes after those of the outlines before it and before those below it, and these before the outlines that follow |
| Opml.ExportRoundTrip | gopodder/web_handler.go:1189-1192 | collecting the outlines built from a list returns the list exactly when no entry is empty |
| Opml.OwnExportImportsAsNothing | gopodder/web_handler.go:599-616 | importing a user's own export leaves the table unchanged, stamps included |
| AccountModel.CascadesCompose | gopodder/server.go:147-150 | deleting accounts one after the other equals removing them all at once |
| AccountModel.DeletionsCompose | gopodder/server.go:147-150 | incomplete cascades compose: together they take what their successful statements took, within the union of their accounts |
| AccountModel.CascadeLeavesNothingBehind | gopodder/web_handler.go:643-650 | after a full cascade no user, key or row refers to the accounts, references stay valid and no row is orphaned |
| AccountModel.CascadeSparesOthers | gopodder/web_handler.go:643-650 | every other account, with or without users, and every key and user of theirs is unchanged by a full cascade, and so are the settings |
| AccountModel.CascadeSparesOtherRows | gopodder/web_handler.go:643-650 | and every device, subscription and episode row of anybody but the users of these accounts is unchanged |
| AccountModel.SweepKeepsAdmins | gopodder/pggen/queries.sql.go:950-958 | no sweep, complete or not, touches an admin account |
| AccountModel.InactiveIff | gopodder/pggen/queries.sql.go:950-958 | an account whose users were never active is inactive exactly if no admin's and created before the cutoff, any other exactly if no admin's and not active from the cutoff on |
| AccountModel.TouchLagsAtMostDebounce | gopodder/api.go:114-127 | stored activity never goes back even if the clock does, and is at most 60 s behind the request |
| AccountModel.TouchedIsOldOrNow | gopodder/store_sql.go:245-249 | stored activity is what was stored before or the second of the request itself, neither earlier nor ahead |
| AccountModel.RequestProtectsIffPastDebounce | gopodder/api.go:114-127 | whatever was stored before, a request at `now` puts the stored activity at or after the cutoff exactly when it is later than cutoff + 59 s |
| AccountRuns.AdminsStay | gopodder/web_handler.go:1415-1426 | no step removes, demotes or sweeps the last admin |
| AccountRuns.StaysGoverned | gopodder/web_handler.go:987-991 | "there is an admin, or no account and registration off" is kept by every step |
| AccountRuns.AdminAlwaysIffRegistrationOff | gopodder/web_handler.go:159-197 | from an empty database every reachable state with an account has an admin, exactly when registration is not already on |
| AccountRuns.AdminlessUntilSetup | gopodder/web_handler.go:987-1029 | from a state with neither an admin nor an admin key a step makes an admin exactly when it is a setup that takes effect, and no other step makes an admin key |
| AccountRuns.AdminIffSetUp | gopodder/web_handler.go:159-197 | in every run from an empty database a state without an admin is followed by one with an admin exactly when a setup took effect in between |
| AccountRuns.LockedUntilEmptied | gopodder/web_handler.go:159-197 | hence, if every setup in between can count the accounts, only after a state in which all accounts were gone |
| AccountRuns.EveryLockoutCanBeLeft | gopodder/web_handler.go:321-338 | from every state without an admin a run of self-deletions and one setup leads to an admin |
| AccountRuns.StaysConsistent | gopodder/pggen/schema.sql:12-20 | every step keeps references to accounts valid and account names unique, failing statements included |
| AccountRuns.RunsStayConsistent | gopodder/pggen/schema.sql:55-64 | hence so does every run from an empty database |
| AccountModel.OwnersStayIffRowsFollow | gopodder/web_handler.go:636-641 | whichever statements of however many cascades succeeded, every row keeps its owner exactly when the rows of each user whose own DELETE succeeded were taken too, or there were none |
| AccountModel.WholeDeletionsKeepOwners | gopodder/web_handler.go:636-650 | complete removals of any users or accounts leave no row without its owner |
| AccountRuns.SubscribersExistIff | gopodder/web_handler.go:533-616 | a subscription request leaves every row owned exactly when its user exists or it adds no URL |
| AccountRuns.OwnersStayIff | gopodder/web_handler.go:636-641 | every effective step of the lifecycle keeps rows owned exactly when the condition read off its pre-state and its successful statements holds |
| AccountRuns.RunKeepsOwnersIff | gopodder/web_handler.go:636-650 | in every run from a state with every row owned, rows stay owned throughout exactly when each effective step, read off the state before it, deletes users only with their rows or writes rows of existing users only |
| AccountRuns.WriteForAbsentUserIsStored | gopodder/web_handler.go:533-597 | subscribing for a user that does not exist stores a row without an owner |
| AccountRuns.OrphansAreInherited | gopodder/web_handler.go:636-641 | whatever a cascade that lost only its first three statements leaves behind belongs to whoever takes the name next, under any account |
| AccountRuns.ActivityNeverGoesBack | gopodder/server.go:136-151 | no step other than its deletion loses a user active since the cutoff or moves its activity back |
| AccountRuns.SweepSpares | gopodder/server.go:136-151 | over any run, a user whose request was recorded survives with its account every sweep whose cutoff lies more than 59 s before the request, and its stored activity stays within 60 s of it |
| AccountRuns.ActivityIsRecorded | gopodder/api.go:116-131 | in every run from an empty database stored activity is the second of some earlier recorded request of that user, so never ahead of all of them |
| AccountRuns.SweepTakesIdle | gopodder/server.go:136-151 | in every such run a complete sweep takes each account but an admin's of whose present users no request from the cutoff on was recorded, if one was recorded at all or the account was created before the cutoff |
| AccountRuns.SweepSparesUnused | gopodder/pggen/queries.sql.go:954-957 | over any run an account whose users were never active survives every sweep whose cutoff is not after its creation, until it is deleted or a request of one of its users is recorded |
| Pggen.Queries.GetSubscriptionsSince | gopodder/pggen/queries.sql.go:710-714 | each row in the feed once, with its status flag |
| Pggen.Queries.MaxActivity | gopodder/pggen/queries.sql.go:950-958 | the largest recorded activity of an account's users, NULL if none |
| Pggen.Queries.ListInactiveAccounts | gopodder/pggen/queries.sql.go:950-958 | exactly the accounts that are not admins and of which no user was active from the cutoff on, if any ever was, or which were created before the cutoff, if none was |
| StoreSql.DiffSubscriptions | gopodder/store_helpers.go:133-154 | the desired URLs not existing and the existing ones not desired, in order, repetitions kept |
| Prelude.WithoutAppend | gopodder/store_helpers.go:133-154 | what is left of two lists put together is what is left of each, in order and with repetitions |
| StoreSql.SQLStore.GetSubscriptionChanges | gopodder/store_sql.go:436-455 | the two sides of the feed, every URL once and on one side only |
| StoreSql.SQLStore.ApplySubscriptionChanges | gopodder/store_sql.go:496-516 | the two loops compute the one-step change of the two URL sets, whatever order or repetitions |
| StoreSql.SQLStore.UpdateSubscriptions | gopodder/store_sql.go:457-468 | the change in full or nothing |
| StoreSql.SQLStore.ReplaceSubscriptions | gopodder/store_sql.go:470-494 | the plain replacement in full or nothing, ignored reactivation errors included |
| StoreSql.SQLStore.GetEpisodes | gopodder/store_sql.go:532-594 | each row once that belongs to the user, was modified at or after since, and matches the podcast and the device where given; rows without device match no device |
| StoreSql.SQLStore.UpsertEpisodeBatch | gopodder/store_sql.go:606-635 | one batch in full or nothing |
| StoreSql.SQLStore.UpdateEpisodes | gopodder/store_sql.go:596-604 | the loop terminates within bounds and gives the unchunked result; after a failure that of the leading whole batches |
| StoreSql.SQLStore.DeleteEpisodesOlderThan | gopodder/store_sql.go:641-648 | retention in full or nothing, and the count is the number of rows removed |
| ApiSubscriptions.HasOverlap | gopodder/api_subscriptions.go:223-232 | true exactly when a URL is on both lists |
| ApiSubscriptions.HandleUploadSubscriptions | gopodder/api_subscriptions.go:81-113 | accepted, the active set is exactly the valid URLs of the list, as a PUT step of the protocol, and the device is known; an error, only after a fault, leaves the subscriptions alone |
| ApiSubscriptions.HandleGetSubscriptionChanges | gopodder/api_subscriptions.go:115-149 | the answer moves any client at that token as a pull step does; no device but this one is added |
| ApiSubscriptions.HandleUploadSubscriptionChanges | gopodder/api_subscriptions.go:151-197 | refused exactly on overlap after filtering `add`; accepted, the valid additions are active and the removals are not, as a push step with token `now + 1` and the device known; an error, only after a fault, leaves the subscriptions alone |
| ApiSubscriptions.HandleAPIUpdateSubscriptions | gopodder/api_keys.go:292-325 | refused exactly on overlap after filtering both lists; accepted, the valid additions are active and the valid removals are not; an error, only after a fault, leaves only some reactivations behind |
| ApiEpisodes.HandleGetEpisodes | gopodder/api_episodes.go:19-55 | exactly the user's rows modified at or after since that match the podcast and the device, where given, each once, with the clock read first as token; a client that takes over an unfiltered answer has made a pull step of the protocol |
| ApiEpisodes.AnswerIsPull | gopodder/api_episodes.go:40-55 | taking over the rows of an unfiltered answer one after the other, in any order, is the pull of the protocol |
| ApiEpisodes.HandleUploadEpisodes | gopodder/api_episodes.go:57-83 | a push step of the protocol, or one that broke off after the stored prefix; accepted, each listed episode has the hash of its last entry, stamped now if that is news; no other row changes |
| WebSubscriptions.CollectOPMLURLs | gopodder/web_handler.go:1254-1261 | appends exactly the preorder list of non-empty feed URLs |
| WebSubscriptions.Subscribe | gopodder/web_handler.go:581-597 | done, the URL is active beside what was before, as a subscribe step; an error leaves at most the reactivation |
| WebSubscriptions.ImportSubscriptions | gopodder/web_handler.go:599-616 | done, exactly the valid URLs on some node of the file have joined the active set, as an import step; an error leaves at most reactivations of valid URLs |
| WebSubscriptions.DeleteOneSubscription | gopodder/web_handler.go:574-579 | done, the URL is not active and all else is as before, or nothing changed |
| WebSubscriptions.DeleteAllSubscriptions | gopodder/web_handler.go:566-572 | without faults nothing stays active; after a fault nothing changed, whether or not it reports success |
| Cascades.DeleteUserCascade | gopodder/web_handler.go:636-641 | the table after exactly the statements that succeeded: without faults the user and all its rows are gone and nothing else; owners stay exactly when the user went only with its rows |
| Cascades.DeleteAccountCascade | gopodder/web_handler.go:643-650 | the tables after exactly the statements that succeeded, references staying valid; without faults the account, its keys, users and their rows are gone, so the order of the statements lets the final DELETE pass its REFERENCES check |
| Cascades.DeleteAccounts | gopodder/server.go:147-150 | without faults one cascade per account equals one simultaneous removal; with faults exactly what the successful statements took is gone |
| Cascades.DeletedUserIsNotAnnounced | gopodder/web_handler.go:636-641 | after the removal of any set of users a pull of one of their clients changes nothing, so the client is right only if it held nothing |
| WebAccounts.IsLastAdmin | gopodder/web_handler.go:1415-1426 | false exactly when another admin exists and no fault occurred |
| WebAccounts.HandleSetupSubmit | gopodder/web_handler.go:159-197 | success means the admin account was inserted, failure that nothing changed; without faults granted exactly for an acceptable form and no accounts; only a fault lets it run on a populated table |
| WebAccounts.HandleRegisterSubmit | gopodder/web_handler.go:987-1029 | success means the account was inserted while registration was on, failure that nothing changed; without faults granted exactly when registration is on, the form acceptable and both id and name free |
| WebAccounts.HandleCreateAccount | gopodder/web_handler.go:810-842 | success means an admin inserted the account, an admin account exactly when that role was asked for; failure that nothing changed; without faults granted exactly to an admin with a valid name, a good password and both id and name free |
| WebAccounts.HandleUpdateAccount | gopodder/web_handler.go:844-868 | succeeds exactly when both the name and the role change are allowed and no fault occurs; without faults the table is exactly the old one when the name is refused, the renamed one when only the demotion of the last admin is, and else has the requested name and role |
| WebAccounts.UpdateGrantedIff | gopodder/web_handler.go:844-868 | both changes are allowed exactly to an admin, with a valid and free name or none, and for a demotion only if another admin is left |
| WebAccounts.EditedFields | gopodder/web_handler.go:844-868 | an edit changes the one account only, its name if one is given and its role if it is one of the two |
| WebAccounts.HandleDeleteAccount | gopodder/web_handler.go:889-905 | without faults granted exactly to an admin when another admin exists, and then exactly the account and what belongs to it are gone; refused it changes nothing |
| WebAccounts.HandleSelfDeleteAccount | gopodder/web_handler.go:321-338 | without faults granted exactly unless the account is the last admin, and then exactly it and what belongs to it are gone; refused it changes nothing |
| WebAccounts.HandleCreateUser | gopodder/web_handler.go:935-967 | success means a new user of an existing account, failure that nothing changed; without faults granted exactly when the account exists, the checks pass and the name is free |
| WebAccounts.HandleDeleteUser | gopodder/web_handler.go:969-975 | without faults exactly the user and its rows are gone; with faults never more |
| WebAccounts.HandleCreateAPIKey | gopodder/web_handler.go:342-403 | success means a new key, with the admin role exactly when an admin asked for it, failure that nothing changed; without faults granted exactly when the account exists, the checks pass and the id is new |
| WebAccounts.HandleDeleteAPIKey | gopodder/web_handler.go:405-412 | succeeds exactly without faults, and then the account has no such key; every other key, one of the same id on another account included, is what it was |
| WebAccounts.HandleSettingsSave | gopodder/web_handler.go:1055-1101 | succeeds exactly for an admin, a form in order and no fault, and then precisely the requested settings are overwritten; a refused form changes nothing, and after faults each setting is the old or the requested one |
| WebAccounts.RefusedIff | gopodder/web_handler.go:1055-1081 | a form is refused exactly for a number field that is no number or negative, a session age of zero, or a window out of range |
| WebAccounts.SavedReadsBack | gopodder/web_handler.go:1082-1093 | an accepted form stores exactly the ten settings, each switch as ticked and each number reading back as entered, at least one API key, given that `strconv.Atoi` reads again what it has read once |
| ApiKeys.HandleAPICreateAccount | gopodder/api_keys.go:363-406 | success means the account was inserted behind an admin key of an existing account, an admin account exactly when that role was asked for; failure that nothing changed; without faults granted exactly when allowed and both id and name are free |
| ApiKeys.HandleAPIDeleteAccount | gopodder/api_keys.go:408-421 | without faults granted exactly behind an admin key for an account that is no admin, and then exactly it and what belongs to it are gone; refused it changes nothing |
| Server.GetClampedSetting | gopodder/server.go:153-163 | without faults 0 stays 0, a value in range stays, one outside becomes the nearest bound, and an unset setting is the default; after a fault the default |
| Server.Clamped | gopodder/server.go:153-163 | 0 stays 0, anything else becomes the nearest value in range |
| Server.AcceptedWindowsTakeEffect | gopodder/server.go:120-163 | given that `strconv.Atoi` reads back the numbers up to 3650, the clamping never alters a window the settings page accepted: what was entered is what the cleanups use |
| Server.CleanupEpisodes | gopodder/server.go:120-134 | the window is off or 7 to 3650 days, 90 when unset; without faults it is the configured one and exactly the rows last modified before that many times 86400 seconds ago are gone (none when it is off); in every case the count is the number of rows removed |
| Server.CleanupInactiveAccounts | gopodder/server.go:136-151 | a sweep step with a window that is off or 30 to 3650 days; without faults the window is the configured one, and an account is gone exactly when it is no admin's and was last active, or if never active created, before the cutoff; everything else equals one simultaneous removal |
| Server.WithAuth | gopodder/api.go:116-131 | without faults authenticated exactly for an existing user with the right password; then the stored activity stays if at most 60 s old and otherwise is the second of the request, as a recorded request step; with faults activity stays as it was |

## Left out

- HTTP routing, JSON and XML encoding, cookies, templates, metrics, logging, start-up: input and output. An OPML text that XML cannot carry is therefore not covered by the round trip.
- bcrypt, UUID generation and SHA-256 themselves: foreign code. A fresh id is any id; the primary key refuses a used one.
- ISO timestamps: an upload carries its parsed `timestamp` or none, and a pull its stored one.
- 64-bit integers: stamps and counters are unbounded; nothing wraps at the times the server runs.
- Real concurrency: handlers run one at a time, so the read-then-write races of `isLastAdmin` and of overlapping uploads are not covered; only the episode pull is split into its clock reading and its query.
- A failed commit is taken to leave the old state.
- Foreign keys are enforced as declared in `schema.sql`; whether a SQLite connection enforces them depends on its driver options.
- `AddDate(0, 0, -n)` is taken as n times 86400 seconds, so a change of daylight saving time is not covered. Cutoffs are otherwise arbitrary.
- Server.WithAuth: the session-cookie branch of `authenticate` (auth.go:24-34) is folded into the flag `passwordOk`, as sessions and their expiry are not modelled.
- Device rows beyond their creation and their place in the cascade, `warnUnmatchedRemovals` (log only), share tokens, statistics, sessions, password and limit checks: easy members only.
- WebSubscriptions.Subscribe: the removal of surrounding blanks happens before the model's `url`.
