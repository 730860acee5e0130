# Flavordex sync engine in Dafny

Flavordex is a tasting journal whose devices share one account. Each device syncs with the server
through a sync session that moves categories, entries and their child lists. This project models the
server side of that session, for both copies of it in the repository.

- **Current copy** (`web/`): a device takes a time-limited *lease* on the user's data with
  `startSync`. Every data call renews the lease. A push is accepted only when the stored row is
  older than the client's copy, judged by the age the client reports. Deletions leave a tombstone in
  `deleted`. A successful push sets the device's *pending* flag. When the flag is set, `endSync`
  releases the lease and sends a push message to the user's other devices. The reply from the
  messaging service is then folded back into the client registry.
- **Older copy** (root `Flavordex/`): conflicts are resolved by the record's own `updated`
  timestamp. A single query returns tombstones and changed records together. The endpoint sends the
  message to every device of the user.

The database is a value held in a class. Each table is a sequence of rows in table order, and each
SQL statement is one function from tables to tables. `NOW(3)` is an integer number of milliseconds,
`now`, passed to each call. mysqli's `affected_rows` counts the rows a statement actually changed.
So an UPDATE reports success exactly when it changed the table, and a DELETE exactly when the table
got shorter.

The project has three layers:

- **Pure layer.** The modules `Schema`, `ChildTables`, `Leases`, `Delta`, `Records`, `Users`,
  `Views`, `Fanout`, `Sessions` and `Legacy` give each statement, and each request as a whole, as
  functions. Lemmas state what the system promises about them.
- **Helper classes.** `Helper.DatabaseHelper` and `LegacyHelper.LegacyDatabaseHelper` do what the
  PHP helpers do: they set their `userId`/`clientId` fields, run the fetch and insert loops, and
  update the tables in place. Each method is proved to leave the tables and answer exactly as the
  pure layer says.
- **Endpoints.** `SyncEndpoint` (the current endpoint) and `LegacyEndpoint` (the older `endSync`
  and `notifyClients`) are methods that call the helper in the order the PHP does.

Several requests of the older endpoint have the same text as the current copy's. Those are modelled
once, in `SyncEndpoint`. The older endpoint calls lease methods that its own helper does not define.
It is therefore modelled against the current helper.

## Model

| member | source | states |
|---|---|---|
| Helper.DatabaseHelper.SetUser | web/Flavordex/DatabaseHelper.php:93-95 | the helper's user becomes the id the uid resolves to, with the user table extended as `findUserId` does; client and lease state are untouched |
| Helper.DatabaseHelper.FindUserId | web/Flavordex/DatabaseHelper.php:1272-1302 | the fetch-or-insert lookup: the returned id and the new user table are those of `Users.FindUserId` |
| Users.UserIdOf | web/Flavordex/DatabaseHelper.php:1273-1280 | no result exactly when no row holds the uid; a result is the id of a row holding the uid |
| Users.FindUserIdResolves | web/Flavordex/DatabaseHelper.php:1272-1302 | afterwards the uid resolves to the returned id; the table only grows, and it gains a row exactly when the uid was unknown |
| Users.FindUserIdIdempotent | web/Flavordex/DatabaseHelper.php:1272-1302 | a second lookup of the same uid returns the same id and changes nothing |
| Users.FindUserIdKeepsUnique | web/Flavordex/DatabaseHelper.php:1272-1302 | if uids were unique before the lookup, they stay unique after it |
| Helper.DatabaseHelper.SetClientId | web/Flavordex/DatabaseHelper.php:112-128 | the client id is stored either way; the result passes exactly when the user has a client row with that id, and fails with Unauthorized otherwise |
| Helper.DatabaseHelper.GetLock | web/Flavordex/DatabaseHelper.php:135-149 | the answer and the new client rows are those of the conditional lease UPDATE in `Leases.GetLock`; nothing else changes |
| Helper.DatabaseHelper.ReleaseLock | web/Flavordex/DatabaseHelper.php:154-164 | only the client rows change, as `Leases.ReleaseLock` says |
| Helper.DatabaseHelper.TouchLock | web/Flavordex/DatabaseHelper.php:171-185 | the answer and the new client rows are those of the renewal UPDATE in `Leases.TouchLock` |
| Helper.DatabaseHelper.ChangesPending | web/Flavordex/DatabaseHelper.php:192-207 | the answer is true exactly when the caller's first registered row has its pending flag set |
| Helper.DatabaseHelper.Changed | web/Flavordex/DatabaseHelper.php:212-222 | only the client rows change, as `Leases.MarkChanged` says |
| Helper.DatabaseHelper.RegisterClient | web/Flavordex/DatabaseHelper.php:231-261 | Unauthorized and no change without a user; otherwise the user's rows for the device are deleted, one row is appended under the next id, and that id is returned |
| Helper.DatabaseHelper.UnregisterClient | web/Flavordex/DatabaseHelper.php:270-286 | Unauthorized and no change without a user; otherwise the user's rows with the id are deleted, and the result is true exactly when there were any |
| Helper.DatabaseHelper.SetFcmId | web/Flavordex/DatabaseHelper.php:295-307 | the push id of every row with the client id is rewritten, whoever owns the row; the answer is true exactly when the table changed |
| Helper.DatabaseHelper.ListFcmIds | web/Flavordex/DatabaseHelper.php:315-338 | Unauthorized without a user; otherwise the fetch loop yields `Leases.FcmList` of the user's rows |
| Leases.SetExpiry | web/Flavordex/DatabaseHelper.php:136-172 | the expiry UPDATE keeps the number of client rows; its effect on each row is stated by `Leases.GetLockGrants` and `Leases.TouchLockSucceeds` |
| Leases.ReleaseLock | web/Flavordex/DatabaseHelper.php:155-155 | the release UPDATE keeps the number of client rows; its effect on each row is stated by `Leases.ReleaseLockEffect` |
| Leases.MarkChanged | web/Flavordex/DatabaseHelper.php:213-213 | the flag UPDATE keeps the number of client rows; its effect is stated by `Leases.MarkChangedThenPending` |
| Leases.WithoutDevice | web/Flavordex/DatabaseHelper.php:238-238 | a row survives exactly when it is not the user's row for that push id |
| Leases.WithoutClient | web/Flavordex/DatabaseHelper.php:275-275 | a row survives exactly when it is not the user's row with that client id |
| Leases.GetLockSucceeds | web/Flavordex/DatabaseHelper.php:136-148 | `getLock` succeeds exactly when no client of the user, the caller included, holds a live lease and the caller's registered row did not already carry the new expiry |
| Leases.GetLockGrants | web/Flavordex/DatabaseHelper.php:136-148 | after a granted lock with a positive timeout, each row of the caller carries the new expiry and is live; every other row is unchanged |
| Leases.GetLockExclusive | web/Flavordex/DatabaseHelper.php:136-148 | if at most one client of each user held a live lease before `getLock`, that still holds after it |
| Leases.LeaseBlocksOthers | web/Flavordex/DatabaseHelper.php:135-185 | while another client of the user holds a live lease, a client without one can neither obtain nor renew a lock |
| Leases.TouchLockSucceeds | web/Flavordex/DatabaseHelper.php:171-185 | `touchLock` succeeds exactly when a registered row of the caller holds a live lease whose expiry is not already the new one |
| Leases.TouchLockExclusive | web/Flavordex/DatabaseHelper.php:171-185 | renewing a lease keeps the invariant that each user has at most one live lease |
| Leases.ReleaseLockEffect | web/Flavordex/DatabaseHelper.php:154-164 | after `releaseLock` the caller holds no lease, has nothing pending and has the release time as its watermark; other clients are untouched |
| Leases.ReleaseLockExclusive | web/Flavordex/DatabaseHelper.php:154-164 | releasing keeps the lease invariant |
| Leases.ChangesPendingFirst | web/Flavordex/DatabaseHelper.php:192-207 | the flag read is that of the caller's first registered row, and false when it has none |
| Leases.MarkChangedThenPending | web/Flavordex/DatabaseHelper.php:192-222 | after `changed`, a registered caller reads `changesPending` back as true |
| Leases.MarkChangedExclusive | web/Flavordex/DatabaseHelper.php:212-222 | setting the pending flag keeps the lease invariant |
| Leases.SetFcmIdEffect | web/Flavordex/DatabaseHelper.php:295-307 | `setFcmId` rewrites the push id of every row with that client id, whichever user owns it, and changes nothing else |
| Leases.SetFcmIdExclusive | web/Flavordex/DatabaseHelper.php:295-307 | rewriting push ids keeps the lease invariant |
| Leases.RegisterReplaces | web/Flavordex/DatabaseHelper.php:231-261 | afterwards the user has exactly one row for the device, the new one with the fresh id; every other row is kept |
| Leases.RegisterExclusive | web/Flavordex/DatabaseHelper.php:231-261 | registering keeps the lease invariant |
| Leases.UnregisterEffect | web/Flavordex/DatabaseHelper.php:270-286 | the table gets shorter exactly when the caller's row existed; afterwards no such row is left, and every other row is kept |
| Leases.UnregisterExclusive | web/Flavordex/DatabaseHelper.php:270-286 | unregistering keeps the lease invariant |
| Leases.FcmListDistinct | web/Flavordex/DatabaseHelper.php:315-338 | the list built with `$list[$id] = ...` has distinct client ids |
| Leases.FcmListSound | web/Flavordex/DatabaseHelper.php:315-338 | every entry of the list is the push id of the user's last row with that client id |
| Leases.FcmListComplete | web/Flavordex/DatabaseHelper.php:315-338 | every client row of the user has its id in the list |
| Helper.DatabaseHelper.GetDeleted | web/Flavordex/DatabaseHelper.php:346-369 | Unauthorized without a user; otherwise the map the fetch loop builds from the `deleted` table under the caller's watermark (also used for `getDeletedCats`, lines 851-874) |
| Helper.DatabaseHelper.GetUpdatedEntries | web/Flavordex/DatabaseHelper.php:377-400 | Unauthorized without a user; otherwise the age map of the entries the caller must fetch |
| Helper.DatabaseHelper.GetUpdatedCats | web/Flavordex/DatabaseHelper.php:882-905 | Unauthorized without a user; otherwise the age map of the categories the caller must fetch |
| Delta.EntryStamps | web/Flavordex/DatabaseHelper.php:384-384 | one stamp (user, uuid, write time, writer) per entry row, so the delta query sees every row |
| Delta.CatStamps | web/Flavordex/DatabaseHelper.php:889-889 | one stamp per category row |
| Delta.TombstoneStamps | web/Flavordex/DatabaseHelper.php:858-858 | one stamp per tombstone; the type column is not read |
| Delta.LastSyncOf | web/Flavordex/DatabaseHelper.php:353-353 | NULL when no client row has the id; otherwise the `last_sync` of the first row with it |
| Delta.CollectAges | web/Flavordex/DatabaseHelper.php:346-369 | the fetch loop's map equals `Delta.Ages` of the stamps |
| Delta.AgesDomain | web/Flavordex/DatabaseHelper.php:353-365 | a uuid is reported exactly when some row of the user with it was written by another client after the watermark |
| Delta.AgesLastWins | web/Flavordex/DatabaseHelper.php:353-365 | the age reported for a uuid is `now` minus the write time of the last qualifying row with it |
| Delta.AgesHidesOwnWrites | web/Flavordex/DatabaseHelper.php:384-396 | a uuid the caller alone wrote is never reported back to it |
| Delta.AgesEmptyWithoutWatermark | web/Flavordex/DatabaseHelper.php:384-396 | a client with no watermark is reported nothing |
| Helper.DatabaseHelper.GetEntry | web/Flavordex/DatabaseHelper.php:409-450 | Unauthorized without a user; otherwise `Views.EntryViewOf`, which is null when the user has no entry with the uuid |
| Helper.DatabaseHelper.GetEntryExtras | web/Flavordex/DatabaseHelper.php:458-482 | the fetch loop gives the rows of the extras join for the entry |
| Helper.DatabaseHelper.GetCat | web/Flavordex/DatabaseHelper.php:914-945 | Unauthorized without a user; otherwise `Views.CatViewOf`, which is null when the user has no category with the uuid |
| Helper.DatabaseHelper.GetCatExtras | web/Flavordex/DatabaseHelper.php:953-978 | the fetch loop gives the category's extra definitions in table order |
| Views.JoinExtrasMembers | web/Flavordex/DatabaseHelper.php:459-459 | a row is in the join exactly when it pairs a definition with a value of the entry that names it |
| Views.CatExtrasOfMembers | web/Flavordex/DatabaseHelper.php:954-954 | a fetched category extra is exactly a stored definition of the category |
| Schema.FindEntry | web/Flavordex/DatabaseHelper.php:563-570 | no row exactly when the user has no entry with the uuid; otherwise a stored row with that key |
| Schema.FindCat | web/Flavordex/DatabaseHelper.php:582-589 | no row when the uuid is NULL or the user has no category with it; otherwise a stored row with that key |
| Schema.ExtraIdOf | web/Flavordex/DatabaseHelper.php:683-683 | NULL exactly when the category is NULL or has no definition with the uuid; otherwise some stored definition's id |
| Schema.CatUuidOf | web/Flavordex/DatabaseHelper.php:414-414 | NULL exactly when no category has the id; otherwise the uuid of a category with it |
| Helper.DatabaseHelper.PushEntry | web/Flavordex/DatabaseHelper.php:555-608 | Unauthorized without a user; otherwise the tables, success and resulting id are those of `Records.PushEntry` |
| Helper.DatabaseHelper.InsertEntry | web/Flavordex/DatabaseHelper.php:616-645 | the tables, answer and new id are those of `Records.InsertEntry` |
| Helper.DatabaseHelper.UpdateEntry | web/Flavordex/DatabaseHelper.php:653-671 | the tables and answer are those of `Records.UpdateEntry` |
| Helper.DatabaseHelper.DeleteEntry | web/Flavordex/DatabaseHelper.php:817-843 | the tables and answer are those of `Records.DeleteEntry` |
| Helper.DatabaseHelper.InsertEntryExtras | web/Flavordex/DatabaseHelper.php:678-694 | the entry's extra values, each with the definition id its subquery finds, are appended; nothing else changes |
| Helper.DatabaseHelper.UpdateEntryExtras | web/Flavordex/DatabaseHelper.php:701-717 | an empty list changes nothing; otherwise the entry's extra values are replaced |
| Helper.DatabaseHelper.InsertEntryFlavors | web/Flavordex/DatabaseHelper.php:724-740 | the flavors are appended under the entry; nothing else changes |
| Helper.DatabaseHelper.UpdateEntryFlavors | web/Flavordex/DatabaseHelper.php:747-763 | an empty list changes nothing; otherwise the entry's flavors are replaced |
| Helper.DatabaseHelper.InsertEntryPhotos | web/Flavordex/DatabaseHelper.php:770-786 | the photos are appended under the entry; nothing else changes |
| Helper.DatabaseHelper.UpdateEntryPhotos | web/Flavordex/DatabaseHelper.php:793-809 | an empty list changes nothing; otherwise the entry's photos are replaced |
| Helper.DatabaseHelper.PushCat | web/Flavordex/DatabaseHelper.php:1018-1056 | Unauthorized without a user; otherwise the tables, success and resulting id are those of `Records.PushCat` |
| Helper.DatabaseHelper.InsertCat | web/Flavordex/DatabaseHelper.php:1064-1092 | the tables, answer and new id are those of `Records.InsertCat` |
| Helper.DatabaseHelper.UpdateCat | web/Flavordex/DatabaseHelper.php:1100-1117 | the tables and answer are those of `Records.UpdateCat` |
| Helper.DatabaseHelper.DeleteCat | web/Flavordex/DatabaseHelper.php:1238-1264 | the tables and answer are those of `Records.DeleteCat` |
| Helper.DatabaseHelper.InsertCatExtras | web/Flavordex/DatabaseHelper.php:1124-1140 | the extras table and its counter become those of the upsert loop `Records.UpsertExtras` |
| Helper.DatabaseHelper.UpdateCatExtras | web/Flavordex/DatabaseHelper.php:1147-1184 | an empty list changes nothing; otherwise the category's definitions whose uuid is not incoming are deleted by id, and then the list is upserted |
| Helper.DatabaseHelper.InsertCatFlavors | web/Flavordex/DatabaseHelper.php:1191-1207 | the flavors are appended under the category; nothing else changes |
| Helper.DatabaseHelper.UpdateCatFlavors | web/Flavordex/DatabaseHelper.php:1214-1230 | an empty list changes nothing; otherwise the category's flavors are replaced |
| Records.UpdateEntryRows | web/Flavordex/DatabaseHelper.php:654-663 | the conditional UPDATE keeps the number of entry rows; what it writes is stated by `PushProperties.EntryUpdateAccepted` |
| Records.DeleteEntryRows | web/Flavordex/DatabaseHelper.php:819-824 | a row survives exactly when it is not targeted; the table is shorter exactly when some row was targeted |
| Records.UpdateCatRows | web/Flavordex/DatabaseHelper.php:1101-1109 | the conditional UPDATE keeps the number of category rows; what it writes is stated by `PushProperties.CatUpdateAccepted` |
| Records.DeleteCatRows | web/Flavordex/DatabaseHelper.php:1240-1245 | the same as entry deletes, for categories |
| Records.WithoutTombstones | web/Flavordex/DatabaseHelper.php:634-644 | a tombstone survives exactly when it is not the user's tombstone for the uuid |
| Records.ExtrasOf | web/Flavordex/DatabaseHelper.php:1157-1157 | the fetched definitions are exactly the stored ones of the category |
| Records.WithoutIds | web/Flavordex/DatabaseHelper.php:1162-1166 | a definition survives exactly when its id was not deleted |
| Records.ExtraValues | web/Flavordex/DatabaseHelper.php:678-694 | one inserted value per incoming value; the definition each is joined to is stated by `Views.PushedExtraJoined` |
| ChildTables.WithoutOwner | web/Flavordex/DatabaseHelper.php:706-706 | a child row survives exactly when it belongs to another owner |
| ChildTables.ReplaceThenSelect | web/Flavordex/DatabaseHelper.php:701-717 | reading an owner's children back after an update helper gives the incoming list when it was non-empty, and the stored children when it was empty |
| ChildTables.ReplaceKeepsOthers | web/Flavordex/DatabaseHelper.php:747-763 | an update helper leaves the children of every other owner unchanged |
| ChildTables.SelectOwned | web/Flavordex/DatabaseHelper.php:490-514 | the child fetch loop returns exactly the owner's children in table order |
| PushProperties.EntryBranchKeepsClients | web/Flavordex/DatabaseHelper.php:555-608 | the insert, update and delete branches of an entry push leave the client rows alone; only `changed` writes them |
| PushProperties.EntryBranchKeepsUsers | web/Flavordex/DatabaseHelper.php:555-608 | the branches of an entry push leave the user table and its counter alone |
| PushProperties.CatBranchKeepsClients | web/Flavordex/DatabaseHelper.php:1018-1056 | the branches of a category push leave the client rows alone; only `changed` writes them |
| PushProperties.PushEntryPendingIffSuccess | web/Flavordex/DatabaseHelper.php:604-606 | after `pushEntry` the caller's pending flag is set exactly when the push succeeded or the flag was already set |
| PushProperties.PushCatPendingIffSuccess | web/Flavordex/DatabaseHelper.php:1052-1054 | the same for `pushCat` |
| PushProperties.PushWithoutUser | web/Flavordex/DatabaseHelper.php:555-560 | without a user every push raises Unauthorized |
| PushProperties.StaleEntryPushRejected | web/Flavordex/DatabaseHelper.php:654-663 | a push of an existing entry whose stored rows are not older than the client's copy is rejected and changes nothing, for an update and for a delete |
| PushProperties.StaleCatPushRejected | web/Flavordex/DatabaseHelper.php:1101-1109 | the same for categories |
| PushProperties.EntryUpdateAccepted | web/Flavordex/DatabaseHelper.php:653-671 | an update of an existing entry with a non-negative age succeeds exactly when some targeted row is older than the client's copy; every such row then has the pushed fields, the caller as writer and a newer write time |
| PushProperties.CatUpdateAccepted | web/Flavordex/DatabaseHelper.php:1100-1117 | the same for categories |
| PushProperties.EntryUpdateChildren | web/Flavordex/DatabaseHelper.php:701-809 | after an accepted entry update, a non-empty incoming list replaces the stored one and an empty one leaves it; other entries' children are untouched |
| PushProperties.CatUpdateFlavors | web/Flavordex/DatabaseHelper.php:1214-1230 | category flavors after an accepted update follow the same rule |
| PushProperties.EntryDeleteLogsOnce | web/Flavordex/DatabaseHelper.php:817-843 | a delete succeeds exactly when it removes a targeted row; it then removes every targeted row and appends exactly one entry tombstone with the uuid, category and caller; a failed delete changes nothing |
| PushProperties.CatDeleteLogsOnce | web/Flavordex/DatabaseHelper.php:1238-1264 | the same for categories, with a category tombstone |
| PushProperties.EntryInsertNeedsCategory | web/Flavordex/DatabaseHelper.php:581-597 | a new entry whose category uuid does not resolve to a category of the user is rejected and nothing is written |
| PushProperties.EntryInsertAccepted | web/Flavordex/DatabaseHelper.php:616-645 | a new entry whose category resolves is inserted under the next id with the pushed fields, that category and the caller as writer; its children are appended and the user's tombstones for its uuid are cleared |
| PushProperties.CatInsertKeepsTombstones | web/Flavordex/DatabaseHelper.php:1081-1091 | a new category is inserted under the next id and no tombstone is removed, because the cleanup binds an undefined variable |
| PushProperties.InsertedEntryReachesSiblings | web/Flavordex/DatabaseHelper.php:384-396 | an entry inserted by one client is reported to every other client of the user whose watermark is before the push, with the time since the push as its age |
| PushProperties.DeletedEntryReachesSiblings | web/Flavordex/DatabaseHelper.php:353-365 | an accepted delete is reported by the tombstone queries to every other client of the user whose watermark is before the push |
| PushProperties.InsertedEntryHiddenFromPusher | web/Flavordex/DatabaseHelper.php:384-396 | the pushing client is not told about its own insert |
| ExtrasProperties.UpsertExtraEffect | web/Flavordex/DatabaseHelper.php:1129-1135 | one upsert adds its uuid to the category, stores the values it carries, and touches no other category |
| ExtrasProperties.UpsertExtrasUuids | web/Flavordex/DatabaseHelper.php:1124-1140 | after the upsert loop the category has every incoming uuid besides the ones it had; other categories are untouched |
| ExtrasProperties.PruneKeepsOnly | web/Flavordex/DatabaseHelper.php:1157-1170 | pruning leaves the category only uuids that are kept; with distinct row ids, every row of the other categories survives |
| ExtrasProperties.ReplaceExtrasUuids | web/Flavordex/DatabaseHelper.php:1147-1184 | a non-empty list leaves the category with exactly the incoming uuids; with distinct row ids, other categories are untouched |
| ExtrasProperties.CatUpdateExtras | web/Flavordex/DatabaseHelper.php:1100-1117 | a category update that succeeds with a non-empty extras list leaves the category with exactly the incoming extra uuids |
| ExtrasProperties.CatInsertExtras | web/Flavordex/DatabaseHelper.php:1064-1092 | a new category gets exactly the incoming extra uuids once its fresh id has no rows |
| Views.EntryInsertThenGet | web/Flavordex/DatabaseHelper.php:409-450 | a new entry whose category resolves is fetched back at any later time with its new id, that category, the pushed fields and child lists, and the time since the push as its age |
| Views.EntryInsertExtrasThenGet | web/Flavordex/DatabaseHelper.php:458-482 | every extra value pushed with a new entry that names a definition of its category is fetched back under that definition's uuid and name |
| Views.PushedExtraJoined | web/Flavordex/DatabaseHelper.php:683-683 | a pushed extra value whose uuid names a definition of the category is joined with that definition when the entry's extras are read |
| Views.EntryUpdateThenGet | web/Flavordex/DatabaseHelper.php:409-450 | an accepted update is fetched back with the pushed fields, an age counted from the push, and each child list replaced when the push carried one |
| Views.CatInsertThenGet | web/Flavordex/DatabaseHelper.php:914-945 | a new category is fetched back with its new id, the pushed name and flavors, and the time since the push as its age |
| Views.CatUpdateThenGet | web/Flavordex/DatabaseHelper.php:914-945 | an accepted category update is fetched back with the pushed name, an age counted from the push, and its flavors replaced when the push carried some |
| SyncEndpoint.StartSync | web/Flavordex/Endpoint/SyncEndpoint.php:50-60 | the answer and tables are those of `Sessions.StartSync`: Unauthorized for a foreign client and Locked when the lease is refused (the older copy's lines 26-36 are the same) |
| SyncEndpoint.EndSync | web/Flavordex/Endpoint/SyncEndpoint.php:67-82 | the answer and tables are those of `Sessions.Finish`: the flag is read, the lease released, and the other devices messaged only when the flag was set |
| SyncEndpoint.GetUpdates | web/Flavordex/Endpoint/SyncEndpoint.php:90-100 | the four delta maps after a renewed lease, as `Sessions.GetUpdates` says (the older copy's lines 66-76 are the same) |
| SyncEndpoint.GetCat | web/Flavordex/Endpoint/SyncEndpoint.php:109-112 | the category view after a renewed lease, as `Sessions.GetCat` says (older copy: lines 85-88) |
| SyncEndpoint.PutCat | web/Flavordex/Endpoint/SyncEndpoint.php:120-130 | `success` is the push answer and `remoteId` the category id after the push, as `Sessions.PutCat` says (older copy: lines 96-106) |
| SyncEndpoint.GetEntry | web/Flavordex/Endpoint/SyncEndpoint.php:139-142 | the entry view after a renewed lease, as `Sessions.GetEntry` says (older copy: lines 115-118) |
| SyncEndpoint.PutEntry | web/Flavordex/Endpoint/SyncEndpoint.php:150-160 | `success` is the push answer and `remoteId` the entry id after the push, as `Sessions.PutEntry` says (older copy: lines 126-136) |
| SyncEndpoint.GetLockedHelper | web/Flavordex/Endpoint/SyncEndpoint.php:169-179 | a fresh helper on the same database for the client; Unauthorized for a foreign client and Locked when the lease is not renewed (older copy: lines 145-155) |
| SyncEndpoint.NotifyClients | web/Flavordex/Endpoint/SyncEndpoint.php:186-231 | no message below two clients; otherwise the recipients are the user's devices other than the caller's, and the client rows become those `Fanout.Notify` gives |
| SyncEndpoint.Reconcile | web/Flavordex/Endpoint/SyncEndpoint.php:218-230 | only when the reply reports failures or canonical ids, the client rows become `Fanout.Reconcile` over the results; nothing else changes |
| Fanout.Select | web/Flavordex/Endpoint/SyncEndpoint.php:206-212 | the two arrays have equal length and are no longer than the list |
| Fanout.SelectAligned | web/Flavordex/Endpoint/SyncEndpoint.php:206-212 | `registration_ids[i]` is the push id of client `fcmIds[i]`; the caller is left out unless all clients are targeted; every other entry of the list is messaged |
| Fanout.SelectDistinct | web/Flavordex/Endpoint/SyncEndpoint.php:206-212 | distinct client ids in the list give distinct recipients |
| Fanout.TargetsOfRegistry | web/Flavordex/Endpoint/SyncEndpoint.php:186-212 | every recipient is a client of the user, not the caller, messaged at the push id of its last row; every client of the user but the caller is a recipient |
| Fanout.NotifyNeedsTwoClients | web/Flavordex/Endpoint/SyncEndpoint.php:187-190 | in the current copy a message goes out exactly when the user has two or more client ids |
| Fanout.ReconcileDeletesOnlyNotRegistered | web/Flavordex/Endpoint/SyncEndpoint.php:218-230 | reconciliation deletes only clients of the user answered with `NotRegistered`; every other row survives with at most a new push id, and no row is added |
| Fanout.ReconcileUnregisters | web/Flavordex/Endpoint/SyncEndpoint.php:218-230 | every client of the user answered with `NotRegistered` is gone afterwards |
| Fanout.ReconcileStoresCanonical | web/Flavordex/Endpoint/SyncEndpoint.php:218-230 | a canonical id returned for a client is stored on its rows when no later result is about the same client |
| Fanout.ReconcileExclusive | web/Flavordex/Endpoint/SyncEndpoint.php:218-230 | reconciliation keeps the lease invariant |
| Fanout.NotifyRewritesOnly | web/Flavordex/Endpoint/SyncEndpoint.php:186-231 | the fan-out only deletes rows and rewrites push ids, and keeps the lease invariant |
| Sessions.OpenTwice | web/Flavordex/Endpoint/SyncEndpoint.php:169-179 | a second helper opened for the same uid acts for the same user and changes no table |
| Sessions.LeaseExcludesOthers | web/Flavordex/Endpoint/SyncEndpoint.php:50-60 | once a client has started a session with a positive timeout, no other client of the user can start one or make a data call until the lease expires |
| Sessions.DataCallNeedsLease | web/Flavordex/Endpoint/SyncEndpoint.php:169-179 | the data-call helper is handed out only to a client holding a live lease |
| Sessions.RequestsKeepExclusive | web/Flavordex/Endpoint/SyncEndpoint.php:50-179 | every request keeps the lease invariant |
| Sessions.PushThenEndSyncNotifies | web/Flavordex/Endpoint/SyncEndpoint.php:67-82 | a push that succeeds inside a session makes the following `endSync` message the other devices |
| Sessions.EndSyncFreesLease | web/Flavordex/Endpoint/SyncEndpoint.php:67-82 | after `endSync` the caller holds no lease and has nothing pending; when its lease was the user's only live one, any other registered client can start a session next |
| Sessions.DataCallsNeedLease | web/Flavordex/Endpoint/SyncEndpoint.php:90-160 | every data call that answers held a live lease; a push without one leaves the client rows and the entries as they were |
| Sessions.OthersLockedOut | web/Flavordex/Endpoint/SyncEndpoint.php:150-160 | while one client's lease runs, another client's pushes and fetches fail |
| Sessions.RemoteIdOfKnownEntry | web/Flavordex/Endpoint/SyncEndpoint.php:150-160 | `remoteId` is the stored id of a known uuid, whether or not the push was accepted |
| Sessions.FinishReleases | web/Flavordex/Endpoint/SyncEndpoint.php:67-82 | after `endSync`, fan-out included, the caller holds no lease and has nothing pending, and the lease invariant holds |
| Sessions.FinishNotifiesOnlyPending | web/Flavordex/Endpoint/SyncEndpoint.php:75-81 | `endSync` messages other devices only when the caller had pushed something |
| LegacyEndpoint.EndSync | Flavordex/Endpoint/SyncEndpoint.php:43-58 | the answer and tables are those of `Sessions.Finish` with every client targeted: flag read, lease released, and fan-out only when the flag was set |
| LegacyEndpoint.NotifyClients | Flavordex/Endpoint/SyncEndpoint.php:162-199 | every client of the user, the caller included, is messaged with no minimum count, and the reply is reconciled by the same index-aligned rule |
| LegacyHelper.LegacyDatabaseHelper.SetUser | Flavordex/DatabaseHelper.php:56-58 | the helper's user becomes the id `Legacy.GetUserId` gives for the uid and address, with the user table it gives |
| LegacyHelper.LegacyDatabaseHelper.GetUserId | Flavordex/DatabaseHelper.php:1099-1127 | the returned id, the user table and its counter are those of `Legacy.GetUserId` |
| LegacyHelper.LegacyDatabaseHelper.SetClientId | Flavordex/DatabaseHelper.php:74-76 | the client id is stored with no ownership check; nothing else changes |
| LegacyHelper.LegacyDatabaseHelper.UnregisterClient | Flavordex/DatabaseHelper.php:124-141 | Unauthorized and no change without a user; otherwise the user's rows with the id are deleted, and their number is returned |
| LegacyHelper.LegacyDatabaseHelper.SetFcmId | Flavordex/DatabaseHelper.php:171-184 | the push ids are rewritten as in the current copy, and the answer is always false |
| LegacyHelper.LegacyDatabaseHelper.GetEntryIds | Flavordex/DatabaseHelper.php:223-248 | Unauthorized without a user; otherwise the fetch loop gives the uuid-to-id map of the user's entries |
| LegacyHelper.LegacyDatabaseHelper.GetGone | Flavordex/DatabaseHelper.php:263-280 | the tombstone loop gives one deleted record per qualifying tombstone, in table order |
| LegacyHelper.LegacyDatabaseHelper.GetUpdatedEntries | Flavordex/DatabaseHelper.php:256-318 | the answer is `Legacy.UpdatedEntries`: the deleted records, then the changed entries with their child lists |
| LegacyHelper.LegacyDatabaseHelper.GetEntryExtras | Flavordex/DatabaseHelper.php:326-350 | the fetch loop gives the rows of the extras join for the entry |
| LegacyHelper.LegacyDatabaseHelper.GetUpdatedCats | Flavordex/DatabaseHelper.php:720-771 | the answer is `Legacy.UpdatedCats`: the deleted records, then the changed categories with their child lists |
| LegacyHelper.LegacyDatabaseHelper.GetCatExtras | Flavordex/DatabaseHelper.php:779-804 | the fetch loop gives the category's extra definitions in table order |
| LegacyHelper.LegacyDatabaseHelper.PushEntry | Flavordex/DatabaseHelper.php:423-472 | Unauthorized without a user; otherwise the tables and answer are those of `Legacy.PushEntry` |
| LegacyHelper.LegacyDatabaseHelper.InsertEntry | Flavordex/DatabaseHelper.php:480-510 | the tables and answer are those of `Legacy.InsertEntry` |
| LegacyHelper.LegacyDatabaseHelper.UpdateEntry | Flavordex/DatabaseHelper.php:518-537 | the tables and answer are those of `Legacy.UpdateEntry` |
| LegacyHelper.LegacyDatabaseHelper.DeleteEntry | Flavordex/DatabaseHelper.php:683-712 | the tables and answer are those of `Legacy.DeleteEntry` |
| LegacyHelper.LegacyDatabaseHelper.InsertEntryExtras | Flavordex/DatabaseHelper.php:544-560 | the entry's extra values, each with the definition id its subquery finds, are appended; nothing else changes |
| LegacyHelper.LegacyDatabaseHelper.UpdateEntryExtras | Flavordex/DatabaseHelper.php:567-583 | an empty list changes nothing; otherwise the entry's extra values are replaced |
| LegacyHelper.LegacyDatabaseHelper.InsertEntryFlavors | Flavordex/DatabaseHelper.php:590-606 | the flavors are appended under the entry; nothing else changes |
| LegacyHelper.LegacyDatabaseHelper.UpdateEntryFlavors | Flavordex/DatabaseHelper.php:613-629 | an empty list changes nothing; otherwise the entry's flavors are replaced |
| LegacyHelper.LegacyDatabaseHelper.InsertEntryPhotos | Flavordex/DatabaseHelper.php:636-652 | the photos are appended under the entry; nothing else changes |
| LegacyHelper.LegacyDatabaseHelper.UpdateEntryPhotos | Flavordex/DatabaseHelper.php:659-675 | an empty list changes nothing; otherwise the entry's photos are replaced |
| LegacyHelper.LegacyDatabaseHelper.PushCat | Flavordex/DatabaseHelper.php:844-878 | Unauthorized without a user; otherwise the tables and answer are those of `Legacy.PushCat` |
| LegacyHelper.LegacyDatabaseHelper.InsertCat | Flavordex/DatabaseHelper.php:886-915 | the tables and answer are those of `Legacy.InsertCat` |
| LegacyHelper.LegacyDatabaseHelper.UpdateCat | Flavordex/DatabaseHelper.php:923-941 | the tables and answer are those of `Legacy.UpdateCat` |
| LegacyHelper.LegacyDatabaseHelper.DeleteCat | Flavordex/DatabaseHelper.php:1061-1090 | the tables and answer are those of `Legacy.DeleteCat` |
| LegacyHelper.LegacyDatabaseHelper.InsertCatExtras | Flavordex/DatabaseHelper.php:948-964 | the extras table and its counter become those of the upsert loop |
| LegacyHelper.LegacyDatabaseHelper.UpdateCatExtras | Flavordex/DatabaseHelper.php:971-1007 | an empty list changes nothing; otherwise definitions whose uuid is not incoming are deleted by id, and then the list is upserted |
| LegacyHelper.LegacyDatabaseHelper.InsertCatFlavors | Flavordex/DatabaseHelper.php:1014-1030 | the flavors are appended under the category; nothing else changes |
| LegacyHelper.LegacyDatabaseHelper.UpdateCatFlavors | Flavordex/DatabaseHelper.php:1037-1053 | an empty list changes nothing; otherwise the category's flavors are replaced |
| Legacy.FindEntry | Flavordex/DatabaseHelper.php:431-438 | no row exactly when the user has no entry with the uuid; otherwise a stored row with that key |
| Legacy.FindCat | Flavordex/DatabaseHelper.php:450-457 | no row when the uuid is NULL or the user has no category with it; otherwise a stored row with that key |
| Legacy.CatUuidOf | Flavordex/DatabaseHelper.php:282-282 | NULL exactly when no category has the id; otherwise the uuid of a category with it |
| Legacy.UpdateEntryRows | Flavordex/DatabaseHelper.php:519-529 | the conditional UPDATE keeps the number of entry rows; what it writes is stated by `Legacy.UpdateAdvancesTimestamps` |
| Legacy.DeleteEntryRows | Flavordex/DatabaseHelper.php:685-690 | a row survives exactly when it is not targeted; the table is shorter exactly when some row was targeted |
| Legacy.UpdateCatRows | Flavordex/DatabaseHelper.php:924-934 | the conditional UPDATE keeps the number of category rows; what it writes is stated by `Legacy.UpdateCatAdvancesTimestamps` |
| Legacy.DeleteCatRows | Flavordex/DatabaseHelper.php:1063-1068 | the same as entry deletes, for categories |
| Legacy.GoneRecords | Flavordex/DatabaseHelper.php:263-280 | every record of the tombstone loop is a deleted record |
| Legacy.ChangedEntries | Flavordex/DatabaseHelper.php:282-316 | every record of the entries loop is a full record |
| Legacy.ChangedCats | Flavordex/DatabaseHelper.php:746-769 | every record of the categories loop is a full record |
| Legacy.UidOf | Flavordex/DatabaseHelper.php:1100-1107 | no result exactly when no row holds the uid; a result is the id of the first row holding it |
| Legacy.EmailRow | Flavordex/DatabaseHelper.php:1109-1109 | no row exactly when no user has the address; otherwise the first row with it |
| Legacy.UpdateAdvancesTimestamps | Flavordex/DatabaseHelper.php:518-537 | an update push keeps every row in place, and each stored `updated` either stays or is replaced by a strictly newer one; the push succeeds exactly when some targeted row was older than the incoming record |
| Legacy.UpdateCatAdvancesTimestamps | Flavordex/DatabaseHelper.php:923-941 | the same for categories |
| Legacy.StaleEntryPushIgnored | Flavordex/DatabaseHelper.php:518-537 | an update or delete of an existing entry whose `updated` is not newer than any row it targets fails and changes nothing |
| Legacy.StaleCatPushIgnored | Flavordex/DatabaseHelper.php:923-941 | the same for categories |
| Legacy.DeleteEntryLogsOnce | Flavordex/DatabaseHelper.php:683-712 | a delete succeeds exactly when it removed a targeted row; it then removes every targeted row and logs one tombstone stamped with `now` and the caller; otherwise nothing changes |
| Legacy.DeleteCatLogsOnce | Flavordex/DatabaseHelper.php:1061-1090 | the same for categories |
| Legacy.InsertNeedsCategory | Flavordex/DatabaseHelper.php:447-466 | a new entry whose category uuid does not resolve to a category of the user is refused and nothing is written |
| Legacy.InsertEntryClearsTombstones | Flavordex/DatabaseHelper.php:499-509 | when the category resolves, the entry is appended under it with its `updated`, and no tombstone of the user for the uuid survives |
| Legacy.InsertCatKeepsTombstones | Flavordex/DatabaseHelper.php:904-914 | a new category never clears a tombstone, and it succeeds exactly when it got an id |
| Legacy.PushesKeepClients | Flavordex/DatabaseHelper.php:423-472 | no push of this copy touches the client rows: it has no pending flag |
| Legacy.GoneRecordsExact | Flavordex/DatabaseHelper.php:263-280 | a deleted record is reported for a uuid exactly when some tombstone of the user with it, of either type, was written by another client after the watermark |
| Legacy.ChangedEntriesExact | Flavordex/DatabaseHelper.php:282-316 | a full entry record is reported exactly for the user's rows written by another client after the watermark |
| Legacy.ChangedCatsExact | Flavordex/DatabaseHelper.php:746-769 | the same for categories |
| Legacy.UpdatedEntriesExact | Flavordex/DatabaseHelper.php:256-318 | every deleted record comes before every full record; the deleted records are those of the qualifying tombstones and the full records those of the qualifying entries |
| Legacy.UpdatedCatsExact | Flavordex/DatabaseHelper.php:720-771 | the same for categories |
| Legacy.DeletionsShared | Flavordex/DatabaseHelper.php:727-727 | neither query looks at the tombstone's type, so both lists report the same deletions |
| Legacy.EntryIdsDomain | Flavordex/DatabaseHelper.php:223-248 | `getEntryIds` has a key for exactly the uuids of the user's entries |
| Legacy.EntryIdsLastWins | Flavordex/DatabaseHelper.php:223-248 | the id reported for a uuid is that of the user's last row with it |
| Legacy.GetUserIdResolves | Flavordex/DatabaseHelper.php:1099-1127 | afterwards the uid resolves to the returned id; the table keeps its length, or gains exactly one row when neither the uid nor the address was known |
| Legacy.GetUserIdIdempotent | Flavordex/DatabaseHelper.php:1099-1127 | a second call with the same uid returns the same id and changes nothing, whatever address it carries |
| Legacy.UnregisterCounts | Flavordex/DatabaseHelper.php:124-141 | the count returned is the number of rows deleted, and it is positive exactly when the client was the user's |

## Left out

- mysqli plumbing: connecting, preparing, binding and closing are left out. A `prepare` or `execute`
  that fails is not modelled; every statement runs.
- Transactions and interleavings: `autocommit` brackets a push but nothing rolls back, so no
  all-or-nothing claim is made. Concurrent requests are not modelled. Each request runs alone on
  the tables.
- Network fan-out: the HTTP POST to the messaging service is not modelled. Its decoded reply is an
  input (`Fanout.FcmResponse`), and its per-address results keep the field `registration_ids`
  exactly as the code reads it.
- Authentication (`Auth.php`, both copies): token checks are foreign calls. The endpoint receives
  the already authenticated uid, and for the older helper also the address.
- `web/Flavordex/Util/FileManager.php`: image scaling and file handling are I/O.
- Routing and dispatch (`index.php`, `Endpoint.php`, `RegistrationEndpoint.php`, `requirePost`):
  plumbing. Requests arrive as method calls with parsed arguments.
- `Model/*Record.php`: JSON shaping. Records are datatypes. Exceptions are `Failure` values, and
  the headers and body they write are left out.
- Clock: `NOW(3)` and the older copy's `getTimestamp` (a float made from `microtime`) are one
  integer millisecond `now` per request, passed in.
- The database schema is not part of this model, so its column defaults are assumptions:
  - rows inserted into `categories`, `entries` and `deleted` get `sync_time = now`;
  - a client's first `last_sync` is a constant of the database class (`lastSyncDefault`);
  - `lock_expire` starts NULL and `changes_pending` starts 0.
- Foreign-key cascades are not modelled, because the schema is not part of this model. Deleting an
  entry or category leaves its child rows in place.
- Config::LOCK_TIMEOUT is not part of this model; it is a constructor parameter of the helper.
- The conditional writes compare `sync_time < SUBTIME(NOW(3), ? / 1000)` as `syncTime < now - age`.
  MySQL's reading of a plain number as an HHMMSS time is not modelled.
- Records.UpsertExtras: an upsert that takes the UPDATE path also uses up an auto-increment id in
  MySQL. That gap is not modelled: the model's counter advances only when a row is inserted.
- All uid, uuid and address comparisons are exact string equality. MySQL's default collation
  ignores case; that is not modelled.
- The upsert of category extras assumes a unique key on (category, uuid), since the schema is not
  part of this model.
- Join output order: a join's rows are listed definition by definition, in table order. MySQL does
  not promise any order, so the model picks this one.
- A result index past the end of `fcmIds` gives a NULL client id. The call it would make then
  matches no row, so the model skips that call.
- `getDeletedCats` runs the same query as `getDeletedEntries`, so both are `Helper.DatabaseHelper.GetDeleted`.
- The getters `getUserId` and `getClientId` of the current helper are plain field reads. They are
  the `userId` and `clientId` fields.
- SyncEndpoint.Reconcile: requires a user. Both callers reach it only after `listFcmIds` succeeded,
  which needs a user.
- The older helper's `registerClient` and `listFcmIds` are not modelled. The current helper runs
  the same statements, and they are modelled there.
- The older helper's `setSyncTime` is not modelled. It writes a caller-supplied `last_sync`, and
  nothing in the repository calls it. The current helper has no such method; it writes the
  watermark only in `releaseLock` (`Helper.DatabaseHelper.ReleaseLock`).
- Legacy.GetUserId: the `0` returned when the insert fails is not modelled, since statements do not
  fail. A unique key on `users.email` is assumed. After the duplicate-key update, the insert id is
  taken to be the updated row's id. Auto-increment gaps are not modelled.
- The older helper binds a photo's `drive_id` as an integer. That cast is not modelled; the value
  is kept as given.
- The older helper runs statements while another unbuffered result is still open. Its
  `updateCatExtras` also has no `store_result`. The driver errors these can raise are not modelled.
