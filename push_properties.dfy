/** Properties of `pushEntry` and `pushCat`: stale writes are rejected, accepted writes stamp the
    row, deletes log exactly one tombstone, inserts need their category, child lists are
    replaced only by non-empty lists, the pending flag follows success, and what one client
    pushes the delta queries report to its siblings. */
module PushProperties {
  import opened Wrappers
  import opened Schema
  import opened ChildTables
  import opened Records
  import Leases
  import Delta

  // ----- the branches never touch `clients`; `pushEntry` sets the flag on success -----

  lemma EntryBranchKeepsClients(t: Tables, user: int, client: int, e: EntryRecord, now: int)
    ensures PushEntryBranch(t, user, client, e, now).t.clients == t.clients
  {
  }

  lemma EntryBranchKeepsUsers(t: Tables, user: int, client: int, e: EntryRecord, now: int)
    ensures var p := PushEntryBranch(t, user, client, e, now).t;
            p.users == t.users && p.nextUser == t.nextUser
  {
  }

  lemma CatBranchKeepsClients(t: Tables, user: int, client: int, c: CatRecord, now: int)
    ensures PushCatBranch(t, user, client, c, now).t.clients == t.clients
  {
  }

  /** After `pushEntry` the caller's pending flag is set exactly when the push succeeded or it
      was already set. */
  lemma PushEntryPendingIffSuccess(t: Tables, user: int, client: int, e: EntryRecord, now: int)
    requires user != 0 && Leases.Registered(t.clients, client, user)
    ensures var p := PushEntry(t, user, client, e, now).value;
            Leases.ChangesPending(p.t.clients, client, user) <==> p.ok || Leases.ChangesPending(t.clients, client, user)
  {
    EntryBranchKeepsClients(t, user, client, e, now);
    if PushEntryBranch(t, user, client, e, now).ok {
      Leases.MarkChangedThenPending(t.clients, client, user);
    }
  }

  lemma PushCatPendingIffSuccess(t: Tables, user: int, client: int, c: CatRecord, now: int)
    requires user != 0 && Leases.Registered(t.clients, client, user)
    ensures var p := PushCat(t, user, client, c, now).value;
            Leases.ChangesPending(p.t.clients, client, user) <==> p.ok || Leases.ChangesPending(t.clients, client, user)
  {
    CatBranchKeepsClients(t, user, client, c, now);
    if PushCatBranch(t, user, client, c, now).ok {
      Leases.MarkChangedThenPending(t.clients, client, user);
    }
  }

  /** Without a user every push raises Unauthorized. */
  lemma PushWithoutUser(t: Tables, client: int, e: EntryRecord, c: CatRecord, now: int)
    ensures PushEntry(t, 0, client, e, now) == Err(Unauthorized)
    ensures PushCat(t, 0, client, c, now) == Err(Unauthorized)
  {
  }

  // ----- last writer wins -----

  lemma UpdateEntryRowsUnchanged(rows: seq<EntryRow>, user: int, id: int, fields: EntryFields, client: int, now: int, age: int)
    requires forall k :: 0 <= k < |rows| ==> !EntryTarget(rows[k], user, id, now, age)
    ensures UpdateEntryRows(rows, user, id, fields, client, now, age) == rows
  {
  }

  lemma UpdateCatRowsUnchanged(rows: seq<CatRow>, user: int, id: int, name: string, client: int, now: int, age: int)
    requires forall k :: 0 <= k < |rows| ==> !CatTarget(rows[k], user, id, now, age)
    ensures UpdateCatRows(rows, user, id, name, client, now, age) == rows
  {
  }

  /** A push of an existing entry whose stored rows are not older than the client's copy is
      rejected and changes nothing, whether it updates or deletes. */
  lemma StaleEntryPushRejected(t: Tables, user: int, client: int, e: EntryRecord, now: int)
    requires user != 0
    requires e.deleted || EntryTargetId(t, user, e) != 0
    requires forall k :: 0 <= k < |t.entries| && t.entries[k].user == user && t.entries[k].id == EntryTargetId(t, user, e)
               ==> !Older(t.entries[k].syncTime, now, e.age)
    ensures PushEntry(t, user, client, e, now) == Ok(Push(t, false, EntryTargetId(t, user, e)))
  {
    var id := EntryTargetId(t, user, e);
    UpdateEntryRowsUnchanged(t.entries, user, id, e.fields, client, now, e.age);
  }

  lemma StaleCatPushRejected(t: Tables, user: int, client: int, c: CatRecord, now: int)
    requires user != 0
    requires c.deleted || CatTargetId(t, user, c) != 0
    requires forall k :: 0 <= k < |t.categories| && t.categories[k].user == user && t.categories[k].id == CatTargetId(t, user, c)
               ==> !Older(t.categories[k].syncTime, now, c.age)
    ensures PushCat(t, user, client, c, now) == Ok(Push(t, false, CatTargetId(t, user, c)))
  {
    var id := CatTargetId(t, user, c);
    UpdateCatRowsUnchanged(t.categories, user, id, c.name, client, now, c.age);
  }

  /** An update push of an existing entry (with a non-negative age) succeeds exactly when some
      stored row it targets is older than the client's copy. Every such row then carries the
      pushed fields, the caller as writer and a strictly later `sync_time` equal to `now`; every
      other row is unchanged. A rejected update changes no table. */
  lemma EntryUpdateAccepted(t: Tables, user: int, client: int, e: EntryRecord, now: int)
    requires user != 0 && !e.deleted && EntryTargetId(t, user, e) != 0 && e.age >= 0
    ensures var id := EntryTargetId(t, user, e);
            var p := PushEntryBranch(t, user, client, e, now);
            (p.ok <==> exists k :: 0 <= k < |t.entries| && EntryTarget(t.entries[k], user, id, now, e.age))
            && (!p.ok ==> p.t == t)
            && |p.t.entries| == |t.entries|
            && (forall k :: 0 <= k < |t.entries| && EntryTarget(t.entries[k], user, id, now, e.age) ==>
                  p.t.entries[k].fields == e.fields && p.t.entries[k].client == client
                  && p.t.entries[k].syncTime == now > t.entries[k].syncTime
                  && p.t.entries[k].uuid == t.entries[k].uuid && p.t.entries[k].cat == t.entries[k].cat)
            && (forall k :: 0 <= k < |t.entries| && !EntryTarget(t.entries[k], user, id, now, e.age) ==> p.t.entries[k] == t.entries[k])
  {
    var id := EntryTargetId(t, user, e);
    var rows := UpdateEntryRows(t.entries, user, id, e.fields, client, now, e.age);
    if exists k :: 0 <= k < |t.entries| && EntryTarget(t.entries[k], user, id, now, e.age) {
      var k :| 0 <= k < |t.entries| && EntryTarget(t.entries[k], user, id, now, e.age);
      assert rows[k].syncTime != t.entries[k].syncTime;
    } else {
      UpdateEntryRowsUnchanged(t.entries, user, id, e.fields, client, now, e.age);
    }
  }

  lemma CatUpdateAccepted(t: Tables, user: int, client: int, c: CatRecord, now: int)
    requires user != 0 && !c.deleted && CatTargetId(t, user, c) != 0 && c.age >= 0
    ensures var id := CatTargetId(t, user, c);
            var p := PushCatBranch(t, user, client, c, now);
            (p.ok <==> exists k :: 0 <= k < |t.categories| && CatTarget(t.categories[k], user, id, now, c.age))
            && (!p.ok ==> p.t == t)
            && |p.t.categories| == |t.categories|
            && (forall k :: 0 <= k < |t.categories| && CatTarget(t.categories[k], user, id, now, c.age) ==>
                  p.t.categories[k].name == c.name && p.t.categories[k].client == client
                  && p.t.categories[k].syncTime == now > t.categories[k].syncTime
                  && p.t.categories[k].uuid == t.categories[k].uuid)
            && (forall k :: 0 <= k < |t.categories| && !CatTarget(t.categories[k], user, id, now, c.age) ==> p.t.categories[k] == t.categories[k])
  {
    var id := CatTargetId(t, user, c);
    var rows := UpdateCatRows(t.categories, user, id, c.name, client, now, c.age);
    if exists k :: 0 <= k < |t.categories| && CatTarget(t.categories[k], user, id, now, c.age) {
      var k :| 0 <= k < |t.categories| && CatTarget(t.categories[k], user, id, now, c.age);
      assert rows[k].syncTime != t.categories[k].syncTime;
    } else {
      UpdateCatRowsUnchanged(t.categories, user, id, c.name, client, now, c.age);
    }
  }

  /** Child lists after an accepted entry update: a non-empty incoming list replaces the
      entry's stored list, an empty one leaves it; other entries' children are untouched. */
  lemma EntryUpdateChildren(t: Tables, user: int, client: int, e: EntryRecord, now: int, other: int)
    requires user != 0 && !e.deleted && EntryTargetId(t, user, e) != 0
    requires PushEntryBranch(t, user, client, e, now).ok
    requires other != EntryTargetId(t, user, e)
    ensures var id := EntryTargetId(t, user, e);
            var p := PushEntryBranch(t, user, client, e, now);
            OwnedItems(p.t.entryFlavors, id) == (if e.flavors == [] then OwnedItems(t.entryFlavors, id) else e.flavors)
            && OwnedItems(p.t.photos, id) == (if e.photos == [] then OwnedItems(t.photos, id) else e.photos)
            && OwnedItems(p.t.entryExtras, id)
               == (if e.extras == [] then OwnedItems(t.entryExtras, id) else ExtraValues(t.extras, EntryTargetCat(t, user, e), e.extras))
            && OwnedItems(p.t.entryFlavors, other) == OwnedItems(t.entryFlavors, other)
            && OwnedItems(p.t.photos, other) == OwnedItems(t.photos, other)
            && OwnedItems(p.t.entryExtras, other) == OwnedItems(t.entryExtras, other)
  {
    var id := EntryTargetId(t, user, e);
    var xs := ExtraValues(t.extras, EntryTargetCat(t, user, e), e.extras);
    ReplaceThenSelect(t.entryFlavors, id, e.flavors);
    ReplaceThenSelect(t.photos, id, e.photos);
    ReplaceThenSelect(t.entryExtras, id, xs);
    assert xs == [] <==> e.extras == [];
    ReplaceKeepsOthers(t.entryFlavors, id, e.flavors, other);
    ReplaceKeepsOthers(t.photos, id, e.photos, other);
    ReplaceKeepsOthers(t.entryExtras, id, xs, other);
  }

  /** Category flavors after an accepted update follow the same rule. */
  lemma CatUpdateFlavors(t: Tables, user: int, client: int, c: CatRecord, now: int, other: int)
    requires user != 0 && !c.deleted && CatTargetId(t, user, c) != 0
    requires PushCatBranch(t, user, client, c, now).ok
    requires other != CatTargetId(t, user, c)
    ensures var id := CatTargetId(t, user, c);
            var p := PushCatBranch(t, user, client, c, now);
            OwnedItems(p.t.flavors, id) == (if c.flavors == [] then OwnedItems(t.flavors, id) else c.flavors)
            && OwnedItems(p.t.flavors, other) == OwnedItems(t.flavors, other)
  {
    var id := CatTargetId(t, user, c);
    ReplaceThenSelect(t.flavors, id, c.flavors);
    ReplaceKeepsOthers(t.flavors, id, c.flavors, other);
  }

  // ----- deletes and the tombstone log -----

  /** A delete push succeeds exactly when it removes a targeted row; then it removes every
      targeted row and appends exactly one tombstone for the entry. A failed delete changes
      nothing. */
  lemma EntryDeleteLogsOnce(t: Tables, user: int, client: int, e: EntryRecord, now: int)
    requires user != 0 && e.deleted
    ensures var id := EntryTargetId(t, user, e);
            var p := PushEntryBranch(t, user, client, e, now);
            (p.ok <==> exists k :: 0 <= k < |t.entries| && EntryTarget(t.entries[k], user, id, now, e.age))
            && (p.ok ==> p.t.deleted == t.deleted + [Tombstone(user, EntryKind, EntryTargetCat(t, user, e), e.uuid, now, client)]
                         && (forall x :: x in p.t.entries <==> x in t.entries && !EntryTarget(x, user, id, now, e.age)))
            && (!p.ok ==> p.t == t)
  {
  }

  lemma CatDeleteLogsOnce(t: Tables, user: int, client: int, c: CatRecord, now: int)
    requires user != 0 && c.deleted
    ensures var id := CatTargetId(t, user, c);
            var p := PushCatBranch(t, user, client, c, now);
            (p.ok <==> exists k :: 0 <= k < |t.categories| && CatTarget(t.categories[k], user, id, now, c.age))
            && (p.ok ==> p.t.deleted == t.deleted + [Tombstone(user, CatKind, None, c.uuid, now, client)]
                         && (forall x :: x in p.t.categories <==> x in t.categories && !CatTarget(x, user, id, now, c.age)))
            && (!p.ok ==> p.t == t)
  {
  }

  // ----- inserts -----

  /** A new entry whose category uuid does not resolve to a category of the user is rejected
      and nothing is written. */
  lemma EntryInsertNeedsCategory(t: Tables, user: int, client: int, e: EntryRecord, now: int)
    requires user != 0 && !e.deleted && EntryTargetId(t, user, e) == 0
    requires FindCat(t.categories, e.catUuid, user).None?
    ensures PushEntry(t, user, client, e, now) == Ok(Push(t, false, 0))
  {
  }

  /** A new entry whose category resolves is inserted under the next id with the pushed
      fields, the category found and the caller as writer; its children are appended and the
      user's tombstones for its uuid are cleared. */
  lemma EntryInsertAccepted(t: Tables, user: int, client: int, e: EntryRecord, now: int)
    requires user != 0 && !e.deleted && EntryTargetId(t, user, e) == 0
    requires FindCat(t.categories, e.catUuid, user).Some? && FindCat(t.categories, e.catUuid, user).value.id != 0
    requires t.nextEntry > 0
    ensures var cat := FindCat(t.categories, e.catUuid, user).value.id;
            var p := PushEntryBranch(t, user, client, e, now);
            p.ok && p.id == t.nextEntry
            && p.t.entries == t.entries + [EntryRow(t.nextEntry, e.uuid, user, cat, e.fields, now, client)]
            && OwnedItems(p.t.entryFlavors, p.id) == OwnedItems(t.entryFlavors, p.id) + e.flavors
            && OwnedItems(p.t.photos, p.id) == OwnedItems(t.photos, p.id) + e.photos
            && OwnedItems(p.t.entryExtras, p.id) == OwnedItems(t.entryExtras, p.id) + ExtraValues(t.extras, Some(cat), e.extras)
            && (forall x :: x in p.t.deleted <==> x in t.deleted && !(x.user == user && x.uuid == e.uuid))
  {
    var cat := FindCat(t.categories, e.catUuid, user).value.id;
    var id := t.nextEntry;
    OwnedItemsAppend(t.entryFlavors, Owned(id, e.flavors), id);
    OwnedItemsOfOwned(id, e.flavors, id);
    OwnedItemsAppend(t.photos, Owned(id, e.photos), id);
    OwnedItemsOfOwned(id, e.photos, id);
    var xs := ExtraValues(t.extras, Some(cat), e.extras);
    OwnedItemsAppend(t.entryExtras, Owned(id, xs), id);
    OwnedItemsOfOwned(id, xs, id);
  }

  /** A new category is inserted under the next id; its tombstones are left in place, because
      the cleanup binds an undefined variable. */
  lemma CatInsertKeepsTombstones(t: Tables, user: int, client: int, c: CatRecord, now: int)
    requires user != 0 && !c.deleted && CatTargetId(t, user, c) == 0
    requires t.nextCat > 0
    ensures var p := PushCatBranch(t, user, client, c, now);
            p.ok && p.id == t.nextCat
            && p.t.categories == t.categories + [CatRow(t.nextCat, c.uuid, user, c.name, now, client)]
            && p.t.deleted == t.deleted
            && OwnedItems(p.t.flavors, p.id) == OwnedItems(t.flavors, p.id) + c.flavors
  {
    OwnedItemsAppend(t.flavors, Owned(t.nextCat, c.flavors), t.nextCat);
    OwnedItemsOfOwned(t.nextCat, c.flavors, t.nextCat);
  }

  // ----- what siblings see -----

  /** An entry inserted by one client is reported by `getUpdatedEntries` to every other client
      of the user whose watermark is before the push, with the age since the push. */
  lemma InsertedEntryReachesSiblings(t: Tables, user: int, client: int, e: EntryRecord, now: int,
                                     other: int, watermark: int, later: int)
    requires user != 0 && !e.deleted && EntryTargetId(t, user, e) == 0
    requires FindCat(t.categories, e.catUuid, user).Some? && FindCat(t.categories, e.catUuid, user).value.id != 0
    requires other != client && watermark < now
    ensures var p := PushEntry(t, user, client, e, now).value;
            var m := Delta.Ages(Delta.EntryStamps(p.t.entries), user, other, Some(watermark), later);
            e.uuid in m && m[e.uuid] == later - now
  {
    var p := PushEntry(t, user, client, e, now).value;
    var s := Delta.EntryStamps(p.t.entries);
    assert p.t.entries[|p.t.entries| - 1].uuid == e.uuid;
    Delta.AgesLastWins(s, user, other, Some(watermark), later, |s| - 1);
  }

  /** A delete accepted from one client is reported by the tombstone queries to every other
      client of the user whose watermark is before the push. */
  lemma DeletedEntryReachesSiblings(t: Tables, user: int, client: int, e: EntryRecord, now: int,
                                    other: int, watermark: int, later: int)
    requires user != 0 && e.deleted && PushEntryBranch(t, user, client, e, now).ok
    requires other != client && watermark < now
    ensures var p := PushEntry(t, user, client, e, now).value;
            var m := Delta.Ages(Delta.TombstoneStamps(p.t.deleted), user, other, Some(watermark), later);
            e.uuid in m && m[e.uuid] == later - now
  {
    var p := PushEntry(t, user, client, e, now).value;
    var s := Delta.TombstoneStamps(p.t.deleted);
    Delta.AgesLastWins(s, user, other, Some(watermark), later, |s| - 1);
  }

  /** The pusher itself is not told about its own write. */
  lemma InsertedEntryHiddenFromPusher(t: Tables, user: int, client: int, e: EntryRecord, now: int, watermark: Option<int>, later: int)
    requires user != 0 && !e.deleted && EntryTargetId(t, user, e) == 0
    requires FindCat(t.categories, e.catUuid, user).Some? && FindCat(t.categories, e.catUuid, user).value.id != 0
    requires forall r :: r in t.entries && r.uuid == e.uuid && r.user == user ==> r.client == client
    ensures var p := PushEntry(t, user, client, e, now).value;
            e.uuid !in Delta.Ages(Delta.EntryStamps(p.t.entries), user, client, watermark, later)
  {
    var p := PushEntry(t, user, client, e, now).value;
    var s := Delta.EntryStamps(p.t.entries);
    forall i | 0 <= i < |s| && s[i].uuid == e.uuid && s[i].user == user ensures s[i].client == client {
      assert p.t.entries[i] in p.t.entries;
      if i < |t.entries| { assert p.t.entries[i] == t.entries[i]; }
    }
    Delta.AgesHidesOwnWrites(s, user, client, watermark, later, e.uuid);
  }
}
