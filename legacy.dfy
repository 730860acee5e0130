/** The older database helper (`Flavordex/DatabaseHelper.php`). Its rows carry the client's own
    `updated` timestamp, and a write to an existing record takes effect only when that stored
    value is older than the incoming one. It has no lease and no pending-changes flag, builds the
    user from a uid and an email address, and reports updates as one list of records, deletions
    first. The statements are functions over `LegacyTables`, in the order the helper runs them. */
module Legacy {
  import opened Wrappers
  import opened Schema
  import opened ChildTables
  import Leases
  import Delta
  import Records
  import Views

  // ----- rows and records -----

  /** A row of `users`, which also stores the e-mail address. */
  datatype LegacyUserRow = LegacyUserRow(id: int, uid: string, email: string)

  /** A row of `categories`; `updated` is the client's timestamp, NULL when it sent none. */
  datatype LegacyCatRow = LegacyCatRow(
    id: int, uuid: Uuid, user: int, name: string, updated: Option<int>, syncTime: int, client: int)

  /** A row of `entries`, with the client's timestamp and the `shared` flag. */
  datatype LegacyEntryRow = LegacyEntryRow(
    id: int, uuid: Uuid, user: int, cat: int, fields: EntryFields, updated: Option<int>,
    shared: bool, syncTime: int, client: int)

  /** A category as a client pushes it. */
  datatype LegacyCatRecord = LegacyCatRecord(
    id: int, uuid: Uuid, name: string, updated: Option<int>, deleted: bool,
    extras: seq<CatExtra>, flavors: seq<CatFlavor>)

  /** An entry as a client pushes it. */
  datatype LegacyEntryRecord = LegacyEntryRecord(
    id: int, uuid: Uuid, cat: Option<int>, catUuid: Option<Uuid>, fields: EntryFields,
    updated: Option<int>, shared: bool, deleted: bool,
    extras: seq<EntryExtra>, flavors: seq<EntryFlavor>, photos: seq<Photo>)

  /** A category as `getUpdatedCats` reports it. */
  datatype LegacyCatView = LegacyCatView(
    id: int, uuid: Uuid, name: string, updated: Option<int>, extras: seq<CatExtra>, flavors: seq<CatFlavor>)

  /** An entry as `getUpdatedEntries` reports it; `catUuid` is NULL when the LEFT JOIN finds no
      category. */
  datatype LegacyEntryView = LegacyEntryView(
    id: int, uuid: Uuid, cat: int, catUuid: Option<Uuid>, fields: EntryFields, updated: Option<int>,
    shared: bool, extras: seq<EntryExtraView>, flavors: seq<EntryFlavor>, photos: seq<Photo>)

  /** One element of the list `getUpdatedEntries` and `getUpdatedCats` return: a record with only
      its uuid and `deleted = true`, or a full record. */
  datatype Update<V> = Gone(uuid: Uuid) | Changed(view: V)

  /** The whole database of the older schema. */
  datatype LegacyTables = LegacyTables(
    users: seq<LegacyUserRow>, clients: seq<ClientRow>,
    categories: seq<LegacyCatRow>, entries: seq<LegacyEntryRow>, deleted: seq<Tombstone>,
    extras: seq<ExtraRow>, flavors: seq<Child<CatFlavor>>,
    entryExtras: seq<Child<EntryExtraValue>>, entryFlavors: seq<Child<EntryFlavor>>,
    photos: seq<Child<Photo>>,
    nextUser: int, nextCat: int, nextEntry: int, nextExtra: int)

  // ----- lookups -----

  predicate EntryKey(r: LegacyEntryRow, uuid: Uuid, user: int) { r.uuid == uuid && r.user == user }
  predicate CatKey(r: LegacyCatRow, uuid: Uuid, user: int) { r.uuid == uuid && r.user == user }

  /** `SELECT id, cat FROM entries WHERE uuid = ? AND user = ?`, first row fetched. */
  function FindEntry(rows: seq<LegacyEntryRow>, uuid: Uuid, user: int): (r: Option<LegacyEntryRow>)
    ensures r.None? <==> forall i :: 0 <= i < |rows| ==> !EntryKey(rows[i], uuid, user)
    ensures r.Some? ==> EntryKey(r.value, uuid, user) && r.value in rows
  {
    if rows == [] then None
    else if EntryKey(rows[0], uuid, user) then Some(rows[0])
    else
      var r := FindEntry(rows[1..], uuid, user);
      assert forall i :: 1 <= i < |rows| ==> rows[i] == rows[1..][i - 1];
      r
  }

  /** `SELECT id FROM categories WHERE uuid = ? AND user = ?`; a NULL uuid matches nothing. */
  function FindCat(rows: seq<LegacyCatRow>, uuid: Option<Uuid>, user: int): (r: Option<LegacyCatRow>)
    ensures r.None? <==> uuid.None? || forall i :: 0 <= i < |rows| ==> !CatKey(rows[i], uuid.value, user)
    ensures r.Some? ==> uuid.Some? && CatKey(r.value, uuid.value, user) && r.value in rows
  {
    if uuid.None? || rows == [] then None
    else if CatKey(rows[0], uuid.value, user) then Some(rows[0])
    else
      var r := FindCat(rows[1..], uuid, user);
      assert forall i :: 1 <= i < |rows| ==> rows[i] == rows[1..][i - 1];
      r
  }

  /** The uuid the `LEFT JOIN categories b ON a.cat = b.id` of `getUpdatedEntries` yields. */
  function CatUuidOf(rows: seq<LegacyCatRow>, id: int): (r: Option<Uuid>)
    ensures r.None? <==> forall i :: 0 <= i < |rows| ==> rows[i].id != id
    ensures r.Some? ==> exists i :: 0 <= i < |rows| && rows[i].id == id && rows[i].uuid == r.value
  {
    if rows == [] then None
    else if rows[0].id == id then Some(rows[0].uuid)
    else
      var r := CatUuidOf(rows[1..], id);
      assert forall i :: 1 <= i < |rows| ==> rows[i] == rows[1..][i - 1];
      r
  }

  // ----- the conditional writes -----

  /** The guard `updated < ?`: both timestamps are present and the stored one is the older;
      a NULL on either side makes the comparison NULL, which matches nothing. */
  predicate Newer(stored: Option<int>, incoming: Option<int>)
  {
    stored.Some? && incoming.Some? && stored.value < incoming.value
  }

  /** `WHERE user = ? AND id = ? AND updated < ?` on `entries`. */
  predicate EntryTarget(r: LegacyEntryRow, user: int, id: int, updated: Option<int>)
  {
    r.user == user && r.id == id && Newer(r.updated, updated)
  }

  predicate CatTarget(r: LegacyCatRow, user: int, id: int, updated: Option<int>)
  {
    r.user == user && r.id == id && Newer(r.updated, updated)
  }

  /** `UPDATE entries SET <fields>, updated = ?, sync_time = ?, client = ?, shared = ? WHERE <EntryTarget>`. */
  function UpdateEntryRows(rows: seq<LegacyEntryRow>, user: int, id: int, e: LegacyEntryRecord, client: int, now: int): (r: seq<LegacyEntryRow>)
    ensures |r| == |rows|
  {
    seq(|rows|, k requires 0 <= k < |rows| =>
      if EntryTarget(rows[k], user, id, e.updated)
      then rows[k].(fields := e.fields, updated := e.updated, shared := e.shared, syncTime := now, client := client)
      else rows[k])
  }

  /** `DELETE FROM entries WHERE <EntryTarget>`. */
  function DeleteEntryRows(rows: seq<LegacyEntryRow>, user: int, id: int, updated: Option<int>): (r: seq<LegacyEntryRow>)
    ensures forall x :: x in r <==> x in rows && !EntryTarget(x, user, id, updated)
    ensures |r| <= |rows|
    ensures |r| == |rows| <==> forall k :: 0 <= k < |rows| ==> !EntryTarget(rows[k], user, id, updated)
  {
    if rows == [] then []
    else
      var rest := DeleteEntryRows(rows[1..], user, id, updated);
      assert forall x :: x in rows <==> x == rows[0] || x in rows[1..];
      assert forall k :: 1 <= k < |rows| ==> rows[k] == rows[1..][k - 1];
      if EntryTarget(rows[0], user, id, updated) then rest else [rows[0]] + rest
  }

  /** `UPDATE categories SET name = ?, updated = ?, sync_time = ?, client = ? WHERE <CatTarget>`. */
  function UpdateCatRows(rows: seq<LegacyCatRow>, user: int, id: int, c: LegacyCatRecord, client: int, now: int): (r: seq<LegacyCatRow>)
    ensures |r| == |rows|
  {
    seq(|rows|, k requires 0 <= k < |rows| =>
      if CatTarget(rows[k], user, id, c.updated)
      then rows[k].(name := c.name, updated := c.updated, syncTime := now, client := client)
      else rows[k])
  }

  /** `DELETE FROM categories WHERE <CatTarget>`. */
  function DeleteCatRows(rows: seq<LegacyCatRow>, user: int, id: int, updated: Option<int>): (r: seq<LegacyCatRow>)
    ensures forall x :: x in r <==> x in rows && !CatTarget(x, user, id, updated)
    ensures |r| <= |rows|
    ensures |r| == |rows| <==> forall k :: 0 <= k < |rows| ==> !CatTarget(rows[k], user, id, updated)
  {
    if rows == [] then []
    else
      var rest := DeleteCatRows(rows[1..], user, id, updated);
      assert forall x :: x in rows <==> x == rows[0] || x in rows[1..];
      assert forall k :: 1 <= k < |rows| ==> rows[k] == rows[1..][k - 1];
      if CatTarget(rows[0], user, id, updated) then rest else [rows[0]] + rest
  }

  // ----- pushing an entry -----

  /** What a push leaves behind: the tables and the value the helper returns. */
  datatype Written = Written(t: LegacyTables, ok: bool)

  /** `insertEntry`: the row, its children when it got an id, then the tombstone cleanup. */
  function InsertEntry(t: LegacyTables, user: int, client: int, e: LegacyEntryRecord, cat: int, now: int): Written
  {
    var id := t.nextEntry;
    var t1 := t.(entries := t.entries + [LegacyEntryRow(id, e.uuid, user, cat, e.fields, e.updated, e.shared, now, client)],
                 nextEntry := id + 1);
    var t2 := if id != 0 then
        t1.(entryExtras := t1.entryExtras + Owned(id, Records.ExtraValues(t1.extras, Some(cat), e.extras)),
            entryFlavors := t1.entryFlavors + Owned(id, e.flavors),
            photos := t1.photos + Owned(id, e.photos))
      else t1;
    Written(t2.(deleted := Records.WithoutTombstones(t2.deleted, user, e.uuid)), id > 0)
  }

  /** `updateEntry`: the conditional UPDATE, and the child lists only when it changed a row. */
  function UpdateEntry(t: LegacyTables, user: int, client: int, e: LegacyEntryRecord, id: int, cat: Option<int>, now: int): Written
  {
    var rows := UpdateEntryRows(t.entries, user, id, e, client, now);
    if rows == t.entries then Written(t, false)
    else
      Written(t.(entries := rows,
                 entryExtras := Replace(t.entryExtras, id, Records.ExtraValues(t.extras, cat, e.extras)),
                 entryFlavors := Replace(t.entryFlavors, id, e.flavors),
                 photos := Replace(t.photos, id, e.photos)), true)
  }

  /** `deleteEntry`: the conditional DELETE, and one tombstone when it removed a row. */
  function DeleteEntry(t: LegacyTables, user: int, client: int, e: LegacyEntryRecord, id: int, cat: Option<int>, now: int): Written
  {
    var rows := DeleteEntryRows(t.entries, user, id, e.updated);
    if |rows| == |t.entries| then Written(t, false)
    else Written(t.(entries := rows, deleted := t.deleted + [Tombstone(user, EntryKind, cat, e.uuid, now, client)]), true)
  }

  /** The id `pushEntry` works on: the stored row's when the uuid is known, otherwise the
      client's. */
  function EntryTargetId(t: LegacyTables, user: int, e: LegacyEntryRecord): int
  {
    var found := FindEntry(t.entries, e.uuid, user);
    if found.Some? then found.value.id else e.id
  }

  /** The category `pushEntry` works with: the stored row's when the uuid is known. */
  function EntryTargetCat(t: LegacyTables, user: int, e: LegacyEntryRecord): Option<int>
  {
    var found := FindEntry(t.entries, e.uuid, user);
    if found.Some? then Some(found.value.cat) else e.cat
  }

  /** The branch `pushEntry` takes once a user is set. A new entry is inserted whenever the
      category lookup fetches a row, whatever its id. */
  function PushEntryBranch(t: LegacyTables, user: int, client: int, e: LegacyEntryRecord, now: int): Written
  {
    var id := EntryTargetId(t, user, e);
    var cat := EntryTargetCat(t, user, e);
    if e.deleted then DeleteEntry(t, user, client, e, id, cat, now)
    else if id == 0 then
      match FindCat(t.categories, e.catUuid, user)
      case None => Written(t, false)
      case Some(c) => InsertEntry(t, user, client, e, c.id, now)
    else UpdateEntry(t, user, client, e, id, cat, now)
  }

  /** `pushEntry`: Unauthorized without a user. */
  function PushEntry(t: LegacyTables, user: int, client: int, e: LegacyEntryRecord, now: int): Result<Written, Failure>
  {
    if user == 0 then Err(Unauthorized) else Ok(PushEntryBranch(t, user, client, e, now))
  }

  // ----- pushing a category -----

  /** `insertCat`: the row and its children; the tombstone cleanup binds an undefined
      variable, that is NULL, and removes nothing. */
  function InsertCat(t: LegacyTables, user: int, client: int, c: LegacyCatRecord, now: int): Written
  {
    var id := t.nextCat;
    var t1 := t.(categories := t.categories + [LegacyCatRow(id, c.uuid, user, c.name, c.updated, now, client)],
                 nextCat := id + 1);
    var x := Records.UpsertExtras(Records.ExtraTable(t1.extras, t1.nextExtra), id, c.extras);
    var t2 := if id != 0 then t1.(extras := x.rows, nextExtra := x.next, flavors := t1.flavors + Owned(id, c.flavors)) else t1;
    Written(t2.(deleted := Records.ClearTombstones(t2.deleted, user, None)), id > 0)
  }

  /** `updateCat`: the conditional UPDATE; extras and flavors only when it changed a row and
      the incoming list is non-empty. */
  function UpdateCat(t: LegacyTables, user: int, client: int, c: LegacyCatRecord, id: int, now: int): Written
  {
    var rows := UpdateCatRows(t.categories, user, id, c, client, now);
    if rows == t.categories then Written(t, false)
    else
      var x := if c.extras == [] then Records.ExtraTable(t.extras, t.nextExtra)
               else Records.ReplaceExtras(Records.ExtraTable(t.extras, t.nextExtra), id, c.extras);
      Written(t.(categories := rows, extras := x.rows, nextExtra := x.next,
                 flavors := Replace(t.flavors, id, c.flavors)), true)
  }

  /** `deleteCat`: the tombstone has no category column, that is NULL. */
  function DeleteCat(t: LegacyTables, user: int, client: int, c: LegacyCatRecord, id: int, now: int): Written
  {
    var rows := DeleteCatRows(t.categories, user, id, c.updated);
    if |rows| == |t.categories| then Written(t, false)
    else Written(t.(categories := rows, deleted := t.deleted + [Tombstone(user, CatKind, None, c.uuid, now, client)]), true)
  }

  function CatTargetId(t: LegacyTables, user: int, c: LegacyCatRecord): int
  {
    var found := FindCat(t.categories, Some(c.uuid), user);
    if found.Some? then found.value.id else c.id
  }

  function PushCatBranch(t: LegacyTables, user: int, client: int, c: LegacyCatRecord, now: int): Written
  {
    var id := CatTargetId(t, user, c);
    if c.deleted then DeleteCat(t, user, client, c, id, now)
    else if id == 0 then InsertCat(t, user, client, c, now)
    else UpdateCat(t, user, client, c, id, now)
  }

  /** `pushCat`: Unauthorized without a user. */
  function PushCat(t: LegacyTables, user: int, client: int, c: LegacyCatRecord, now: int): Result<Written, Failure>
  {
    if user == 0 then Err(Unauthorized) else Ok(PushCatBranch(t, user, client, c, now))
  }

  // ----- the update lists -----

  function EntryStamp(r: LegacyEntryRow): Delta.Stamp { Delta.Stamp(r.user, r.uuid, r.syncTime, r.client) }
  function CatStamp(r: LegacyCatRow): Delta.Stamp { Delta.Stamp(r.user, r.uuid, r.syncTime, r.client) }
  function TombstoneStamp(r: Tombstone): Delta.Stamp { Delta.Stamp(r.user, r.uuid, r.syncTime, r.client) }

  /** The first loop of `getUpdatedEntries` and `getUpdatedCats`: one deleted record per
      qualifying tombstone, of either type, in table order. */
  function GoneRecords<V>(rows: seq<Tombstone>, user: int, client: int, w: Option<int>): (r: seq<Update<V>>)
    ensures forall k :: 0 <= k < |r| ==> r[k].Gone?
  {
    if rows == [] then []
    else
      var front := GoneRecords<V>(rows[..|rows| - 1], user, client, w);
      var s := rows[|rows| - 1];
      if Delta.Visible(TombstoneStamp(s), user, client, w) then front + [Gone(s.uuid)] else front
  }

  /** An entry of `getUpdatedEntries` with its category's uuid and its child rows. */
  function EntryViewOf(t: LegacyTables, r: LegacyEntryRow): LegacyEntryView
  {
    LegacyEntryView(r.id, r.uuid, r.cat, CatUuidOf(t.categories, r.cat), r.fields, r.updated, r.shared,
                    Views.JoinExtras(t.extras, t.entryExtras, r.id),
                    OwnedItems(t.entryFlavors, r.id), OwnedItems(t.photos, r.id))
  }

  function CatViewOf(t: LegacyTables, r: LegacyCatRow): LegacyCatView
  {
    LegacyCatView(r.id, r.uuid, r.name, r.updated, Views.CatExtrasOf(t.extras, r.id), OwnedItems(t.flavors, r.id))
  }

  /** The second loop of `getUpdatedEntries` over `rows`, a prefix of `t.entries`. */
  function ChangedEntries(t: LegacyTables, rows: seq<LegacyEntryRow>, user: int, client: int, w: Option<int>): (r: seq<Update<LegacyEntryView>>)
    ensures forall k :: 0 <= k < |r| ==> r[k].Changed?
  {
    if rows == [] then []
    else
      var front := ChangedEntries(t, rows[..|rows| - 1], user, client, w);
      var s := rows[|rows| - 1];
      if Delta.Visible(EntryStamp(s), user, client, w) then front + [Changed(EntryViewOf(t, s))] else front
  }

  function ChangedCats(t: LegacyTables, rows: seq<LegacyCatRow>, user: int, client: int, w: Option<int>): (r: seq<Update<LegacyCatView>>)
    ensures forall k :: 0 <= k < |r| ==> r[k].Changed?
  {
    if rows == [] then []
    else
      var front := ChangedCats(t, rows[..|rows| - 1], user, client, w);
      var s := rows[|rows| - 1];
      if Delta.Visible(CatStamp(s), user, client, w) then front + [Changed(CatViewOf(t, s))] else front
  }

  /** `getUpdatedEntries`. */
  function UpdatedEntries(t: LegacyTables, user: int, client: int): Result<seq<Update<LegacyEntryView>>, Failure>
  {
    if user == 0 then Err(Unauthorized)
    else
      var w := Delta.LastSyncOf(t.clients, client);
      Ok(GoneRecords(t.deleted, user, client, w) + ChangedEntries(t, t.entries, user, client, w))
  }

  /** `getUpdatedCats`. */
  function UpdatedCats(t: LegacyTables, user: int, client: int): Result<seq<Update<LegacyCatView>>, Failure>
  {
    if user == 0 then Err(Unauthorized)
    else
      var w := Delta.LastSyncOf(t.clients, client);
      Ok(GoneRecords(t.deleted, user, client, w) + ChangedCats(t, t.categories, user, client, w))
  }

  // ----- entry ids, users and clients -----

  /** The loop of `getEntryIds`: `$list[$uuid] = $id` over the user's entries in table order. */
  function EntryIds(rows: seq<LegacyEntryRow>, user: int): map<Uuid, int>
  {
    if rows == [] then map[]
    else
      var m := EntryIds(rows[..|rows| - 1], user);
      var r := rows[|rows| - 1];
      if r.user == user then m[r.uuid := r.id] else m
  }

  /** `SELECT id FROM users WHERE uid = ?`, first row fetched. */
  function UidOf(rows: seq<LegacyUserRow>, uid: string): (r: Option<int>)
    ensures r.None? <==> forall i :: 0 <= i < |rows| ==> rows[i].uid != uid
    ensures r.Some? ==> exists i :: 0 <= i < |rows| && rows[i].uid == uid && rows[i].id == r.value
                                 && forall j :: 0 <= j < i ==> rows[j].uid != uid
  {
    if rows == [] then None
    else if rows[0].uid == uid then Some(rows[0].id)
    else
      var r := UidOf(rows[1..], uid);
      assert forall i :: 1 <= i < |rows| ==> rows[i] == rows[1..][i - 1];
      r
  }

  /** The row the unique key on `users.email` makes `INSERT ... ON DUPLICATE KEY` collide
      with: the first one holding the address. */
  function EmailRow(rows: seq<LegacyUserRow>, email: string): (r: Option<nat>)
    ensures r.None? <==> forall i :: 0 <= i < |rows| ==> rows[i].email != email
    ensures r.Some? ==> (r.value < |rows| && rows[r.value].email == email
                         && forall j :: 0 <= j < r.value ==> rows[j].email != email)
  {
    if rows == [] then None
    else if rows[0].email == email then Some(0)
    else
      var r := EmailRow(rows[1..], email);
      assert forall i :: 1 <= i < |rows| ==> rows[i] == rows[1..][i - 1];
      if r.None? then None else Some(r.value + 1)
  }

  /** The user table after `getUserId`, its counter, and the id returned. */
  datatype Resolution = Resolution(users: seq<LegacyUserRow>, next: int, id: int)

  /** `getUserId`: the id of the row with the uid; otherwise `INSERT INTO users (email, uid)
      ... ON DUPLICATE KEY UPDATE uid = ?`, which gives an existing row of the address the new
      uid, or adds a row, and the id of that row. */
  function GetUserId(users: seq<LegacyUserRow>, next: int, uid: string, email: string): Resolution
  {
    match UidOf(users, uid)
    case Some(id) => Resolution(users, next, id)
    case None =>
      match EmailRow(users, email)
      case Some(k) => Resolution(users[k := users[k].(uid := uid)], next, users[k].id)
      case None => Resolution(users + [LegacyUserRow(next, uid, email)], next + 1, next)
  }

  /** The number of client rows `DELETE FROM clients WHERE id = ? AND user = ?` matches. */
  function OwnedCount(rows: seq<ClientRow>, id: int, user: int): nat
  {
    if rows == [] then 0 else (if Leases.Owns(rows[0], id, user) then 1 else 0) + OwnedCount(rows[1..], id, user)
  }

  // ============================================================================
  // Properties
  // ============================================================================

  // ----- the conflict rule -----

  /** An update push keeps every row in place, and each row's stored `updated` either stays or
      is replaced by a strictly newer one; the push succeeds exactly when some row of the user
      with the target id was older than the incoming record, and each such row then holds the
      incoming values. */
  lemma UpdateAdvancesTimestamps(t: LegacyTables, user: int, client: int, e: LegacyEntryRecord, now: int)
    requires user != 0 && !e.deleted && EntryTargetId(t, user, e) != 0
    ensures var p := PushEntryBranch(t, user, client, e, now);
            var id := EntryTargetId(t, user, e);
            |p.t.entries| == |t.entries|
            && (forall k :: 0 <= k < |t.entries| ==>
                  p.t.entries[k].updated == t.entries[k].updated || Newer(t.entries[k].updated, p.t.entries[k].updated))
            && (forall k :: 0 <= k < |t.entries| && EntryTarget(t.entries[k], user, id, e.updated) ==>
                  p.t.entries[k].updated == e.updated && p.t.entries[k].fields == e.fields
                  && p.t.entries[k].syncTime == now && p.t.entries[k].client == client)
            && (p.ok <==> exists k :: 0 <= k < |t.entries| && EntryTarget(t.entries[k], user, id, e.updated))
  {
    var id := EntryTargetId(t, user, e);
    var rows := UpdateEntryRows(t.entries, user, id, e, client, now);
    var p := PushEntryBranch(t, user, client, e, now);
    assert p == UpdateEntry(t, user, client, e, id, EntryTargetCat(t, user, e), now);
    if exists k :: 0 <= k < |t.entries| && EntryTarget(t.entries[k], user, id, e.updated) {
      var k :| 0 <= k < |t.entries| && EntryTarget(t.entries[k], user, id, e.updated);
      assert rows[k].updated != t.entries[k].updated;
    } else {
      assert rows == t.entries;
    }
  }

  /** The same for categories. */
  lemma UpdateCatAdvancesTimestamps(t: LegacyTables, user: int, client: int, c: LegacyCatRecord, now: int)
    requires user != 0 && !c.deleted && CatTargetId(t, user, c) != 0
    ensures var p := PushCatBranch(t, user, client, c, now);
            var id := CatTargetId(t, user, c);
            |p.t.categories| == |t.categories|
            && (forall k :: 0 <= k < |t.categories| ==>
                  p.t.categories[k].updated == t.categories[k].updated || Newer(t.categories[k].updated, p.t.categories[k].updated))
            && (forall k :: 0 <= k < |t.categories| && CatTarget(t.categories[k], user, id, c.updated) ==>
                  p.t.categories[k].updated == c.updated && p.t.categories[k].name == c.name
                  && p.t.categories[k].syncTime == now && p.t.categories[k].client == client)
            && (p.ok <==> exists k :: 0 <= k < |t.categories| && CatTarget(t.categories[k], user, id, c.updated))
  {
    var id := CatTargetId(t, user, c);
    var rows := UpdateCatRows(t.categories, user, id, c, client, now);
    var p := PushCatBranch(t, user, client, c, now);
    assert p == UpdateCat(t, user, client, c, id, now);
    if exists k :: 0 <= k < |t.categories| && CatTarget(t.categories[k], user, id, c.updated) {
      var k :| 0 <= k < |t.categories| && CatTarget(t.categories[k], user, id, c.updated);
      assert rows[k].updated != t.categories[k].updated;
    } else {
      assert rows == t.categories;
    }
  }

  /** A push of an existing entry (an update or a delete) whose `updated` is not newer than any
      stored row it targets fails and changes nothing. */
  lemma StaleEntryPushIgnored(t: LegacyTables, user: int, client: int, e: LegacyEntryRecord, now: int)
    requires user != 0 && (e.deleted || EntryTargetId(t, user, e) != 0)
    requires forall k :: 0 <= k < |t.entries| && t.entries[k].user == user && t.entries[k].id == EntryTargetId(t, user, e)
               ==> !Newer(t.entries[k].updated, e.updated)
    ensures PushEntry(t, user, client, e, now) == Ok(Written(t, false))
  {
    var id := EntryTargetId(t, user, e);
    assert forall k :: 0 <= k < |t.entries| ==> !EntryTarget(t.entries[k], user, id, e.updated);
    assert UpdateEntryRows(t.entries, user, id, e, client, now) == t.entries;
  }

  lemma StaleCatPushIgnored(t: LegacyTables, user: int, client: int, c: LegacyCatRecord, now: int)
    requires user != 0 && (c.deleted || CatTargetId(t, user, c) != 0)
    requires forall k :: 0 <= k < |t.categories| && t.categories[k].user == user && t.categories[k].id == CatTargetId(t, user, c)
               ==> !Newer(t.categories[k].updated, c.updated)
    ensures PushCat(t, user, client, c, now) == Ok(Written(t, false))
  {
    var id := CatTargetId(t, user, c);
    assert forall k :: 0 <= k < |t.categories| ==> !CatTarget(t.categories[k], user, id, c.updated);
    assert UpdateCatRows(t.categories, user, id, c, client, now) == t.categories;
  }

  // ----- deletes and the tombstone log -----

  /** A delete succeeds exactly when it removed a targeted row; it then removes every targeted
      row and logs exactly one tombstone stamped with `now` and the caller's client. A delete
      that matches nothing changes nothing. */
  lemma DeleteEntryLogsOnce(t: LegacyTables, user: int, client: int, e: LegacyEntryRecord, now: int)
    requires user != 0 && e.deleted
    ensures var p := PushEntryBranch(t, user, client, e, now);
            var id := EntryTargetId(t, user, e);
            (p.ok <==> exists k :: 0 <= k < |t.entries| && EntryTarget(t.entries[k], user, id, e.updated))
            && (p.ok ==> p.t.deleted == t.deleted + [Tombstone(user, EntryKind, EntryTargetCat(t, user, e), e.uuid, now, client)]
                         && (forall x :: x in p.t.entries <==> x in t.entries && !EntryTarget(x, user, id, e.updated))
                         && p.t.categories == t.categories && p.t.photos == t.photos)
            && (!p.ok ==> p.t == t)
  {
  }

  lemma DeleteCatLogsOnce(t: LegacyTables, user: int, client: int, c: LegacyCatRecord, now: int)
    requires user != 0 && c.deleted
    ensures var p := PushCatBranch(t, user, client, c, now);
            var id := CatTargetId(t, user, c);
            (p.ok <==> exists k :: 0 <= k < |t.categories| && CatTarget(t.categories[k], user, id, c.updated))
            && (p.ok ==> p.t.deleted == t.deleted + [Tombstone(user, CatKind, None, c.uuid, now, client)]
                         && (forall x :: x in p.t.categories <==> x in t.categories && !CatTarget(x, user, id, c.updated))
                         && p.t.entries == t.entries)
            && (!p.ok ==> p.t == t)
  {
  }

  // ----- inserts -----

  /** A new entry whose category uuid does not resolve to a category of the user is refused and
      nothing is written. */
  lemma InsertNeedsCategory(t: LegacyTables, user: int, client: int, e: LegacyEntryRecord, now: int)
    requires user != 0 && !e.deleted && EntryTargetId(t, user, e) == 0
    requires forall k :: 0 <= k < |t.categories| ==> e.catUuid != Some(t.categories[k].uuid) || t.categories[k].user != user
    ensures PushEntry(t, user, client, e, now) == Ok(Written(t, false))
  {
    assert FindCat(t.categories, e.catUuid, user).None?;
  }

  /** When the category resolves, the entry is appended under that category with the incoming
      timestamp, and no tombstone of the user with the entry's uuid survives. */
  lemma InsertEntryClearsTombstones(t: LegacyTables, user: int, client: int, e: LegacyEntryRecord, now: int, k: int)
    requires user != 0 && !e.deleted && EntryTargetId(t, user, e) == 0
    requires 0 <= k < |t.categories| && e.catUuid == Some(t.categories[k].uuid) && t.categories[k].user == user
    ensures var p := PushEntryBranch(t, user, client, e, now);
            (p.ok <==> t.nextEntry > 0)
            && p.t.entries[..|t.entries|] == t.entries && |p.t.entries| == |t.entries| + 1
            && p.t.entries[|t.entries|].uuid == e.uuid && p.t.entries[|t.entries|].updated == e.updated
            && (exists j :: 0 <= j < |t.categories| && CatKey(t.categories[j], e.catUuid.value, user)
                            && p.t.entries[|t.entries|].cat == t.categories[j].id)
            && (forall x :: x in p.t.deleted <==> x in t.deleted && !(x.user == user && x.uuid == e.uuid))
  {
    var c := FindCat(t.categories, e.catUuid, user);
    assert c.Some? by {
      assert CatKey(t.categories[k], e.catUuid.value, user);
    }
    var p := PushEntryBranch(t, user, client, e, now);
    assert p == InsertEntry(t, user, client, e, c.value.id, now);
    var n := |t.entries|;
    assert p.t.entries == t.entries + [LegacyEntryRow(t.nextEntry, e.uuid, user, c.value.id, e.fields, e.updated, e.shared, now, client)];
    var j :| 0 <= j < |t.categories| && t.categories[j] == c.value;
  }

  /** A new category never clears a tombstone, and succeeds exactly when it got an id. */
  lemma InsertCatKeepsTombstones(t: LegacyTables, user: int, client: int, c: LegacyCatRecord, now: int)
    requires user != 0 && !c.deleted && CatTargetId(t, user, c) == 0
    ensures var p := PushCatBranch(t, user, client, c, now);
            p.t.deleted == t.deleted && (p.ok <==> t.nextCat > 0)
            && p.t.categories == t.categories + [LegacyCatRow(t.nextCat, c.uuid, user, c.name, c.updated, now, client)]
  {
  }

  /** No push of this helper touches the client rows: there is no pending-changes flag. */
  lemma PushesKeepClients(t: LegacyTables, user: int, client: int, e: LegacyEntryRecord, c: LegacyCatRecord, now: int)
    requires user != 0
    ensures PushEntryBranch(t, user, client, e, now).t.clients == t.clients
    ensures PushCatBranch(t, user, client, c, now).t.clients == t.clients
    ensures PushEntryBranch(t, user, client, e, now).t.users == t.users
  {
    var id := EntryTargetId(t, user, e);
    var cat := EntryTargetCat(t, user, e);
    if !e.deleted && id == 0 {
      var f := FindCat(t.categories, e.catUuid, user);
      if f.Some? {
        assert PushEntryBranch(t, user, client, e, now) == InsertEntry(t, user, client, e, f.value.id, now);
      }
    }
  }

  // ----- the update lists -----

  /** A deleted record is reported for a uuid exactly when some tombstone of the user with
      that uuid, of either type, was written by another client after the watermark. */
  lemma {:induction false} GoneRecordsExact<V>(rows: seq<Tombstone>, user: int, client: int, w: Option<int>, uuid: Uuid)
    ensures Gone(uuid) in GoneRecords<V>(rows, user, client, w)
        <==> exists k :: 0 <= k < |rows| && rows[k].uuid == uuid && Delta.Visible(TombstoneStamp(rows[k]), user, client, w)
  {
    if rows != [] {
      var front := rows[..|rows| - 1];
      GoneRecordsExact<V>(front, user, client, w, uuid);
      assert forall k :: 0 <= k < |front| ==> front[k] == rows[k];
    }
  }

  /** A full entry record is reported exactly for the rows of the user written by another
      client after the watermark. */
  lemma {:induction false} ChangedEntriesExact(t: LegacyTables, rows: seq<LegacyEntryRow>, user: int, client: int, w: Option<int>, v: LegacyEntryView)
    ensures Changed(v) in ChangedEntries(t, rows, user, client, w)
        <==> exists k :: 0 <= k < |rows| && Delta.Visible(EntryStamp(rows[k]), user, client, w) && EntryViewOf(t, rows[k]) == v
  {
    if rows != [] {
      var front := rows[..|rows| - 1];
      ChangedEntriesExact(t, front, user, client, w, v);
      assert forall k :: 0 <= k < |front| ==> front[k] == rows[k];
    }
  }

  lemma {:induction false} ChangedCatsExact(t: LegacyTables, rows: seq<LegacyCatRow>, user: int, client: int, w: Option<int>, v: LegacyCatView)
    ensures Changed(v) in ChangedCats(t, rows, user, client, w)
        <==> exists k :: 0 <= k < |rows| && Delta.Visible(CatStamp(rows[k]), user, client, w) && CatViewOf(t, rows[k]) == v
  {
    if rows != [] {
      var front := rows[..|rows| - 1];
      ChangedCatsExact(t, front, user, client, w, v);
      assert forall k :: 0 <= k < |front| ==> front[k] == rows[k];
    }
  }

  /** `getUpdatedEntries` lists every deleted record before every full record; the deleted
      records are those of the qualifying tombstones and the full records those of the
      qualifying entries. */
  lemma UpdatedEntriesExact(t: LegacyTables, user: int, client: int, uuid: Uuid, v: LegacyEntryView)
    requires user != 0
    ensures var r := UpdatedEntries(t, user, client).value;
            var w := Delta.LastSyncOf(t.clients, client);
            (forall i, j :: 0 <= i < j < |r| && r[i].Changed? ==> r[j].Changed?)
            && (Gone(uuid) in r <==> exists k :: 0 <= k < |t.deleted| && t.deleted[k].uuid == uuid
                                               && Delta.Visible(TombstoneStamp(t.deleted[k]), user, client, w))
            && (Changed(v) in r <==> exists k :: 0 <= k < |t.entries| && Delta.Visible(EntryStamp(t.entries[k]), user, client, w)
                                               && EntryViewOf(t, t.entries[k]) == v)
  {
    var w := Delta.LastSyncOf(t.clients, client);
    var g := GoneRecords<LegacyEntryView>(t.deleted, user, client, w);
    var c := ChangedEntries(t, t.entries, user, client, w);
    GoneRecordsExact<LegacyEntryView>(t.deleted, user, client, w, uuid);
    ChangedEntriesExact(t, t.entries, user, client, w, v);
    assert forall i :: 0 <= i < |g| + |c| ==> (g + c)[i] == if i < |g| then g[i] else c[i - |g|];
  }

  lemma UpdatedCatsExact(t: LegacyTables, user: int, client: int, uuid: Uuid, v: LegacyCatView)
    requires user != 0
    ensures var r := UpdatedCats(t, user, client).value;
            var w := Delta.LastSyncOf(t.clients, client);
            (forall i, j :: 0 <= i < j < |r| && r[i].Changed? ==> r[j].Changed?)
            && (Gone(uuid) in r <==> exists k :: 0 <= k < |t.deleted| && t.deleted[k].uuid == uuid
                                               && Delta.Visible(TombstoneStamp(t.deleted[k]), user, client, w))
            && (Changed(v) in r <==> exists k :: 0 <= k < |t.categories| && Delta.Visible(CatStamp(t.categories[k]), user, client, w)
                                               && CatViewOf(t, t.categories[k]) == v)
  {
    var w := Delta.LastSyncOf(t.clients, client);
    var g := GoneRecords<LegacyCatView>(t.deleted, user, client, w);
    var c := ChangedCats(t, t.categories, user, client, w);
    GoneRecordsExact<LegacyCatView>(t.deleted, user, client, w, uuid);
    ChangedCatsExact(t, t.categories, user, client, w, v);
    assert forall i :: 0 <= i < |g| + |c| ==> (g + c)[i] == if i < |g| then g[i] else c[i - |g|];
  }

  /** Neither query looks at the tombstone's type: both lists report the same deletions. */
  lemma DeletionsShared(t: LegacyTables, user: int, client: int, uuid: Uuid)
    requires user != 0
    ensures Gone(uuid) in UpdatedEntries(t, user, client).value <==> Gone(uuid) in UpdatedCats(t, user, client).value
  {
    var w := Delta.LastSyncOf(t.clients, client);
    GoneRecordsExact<LegacyEntryView>(t.deleted, user, client, w, uuid);
    GoneRecordsExact<LegacyCatView>(t.deleted, user, client, w, uuid);
    var e := ChangedEntries(t, t.entries, user, client, w);
    var c := ChangedCats(t, t.categories, user, client, w);
    assert Gone(uuid) !in e && Gone(uuid) !in c;
  }

  // ----- entry ids -----

  /** `getEntryIds` has a key for exactly the uuids of the user's entries. */
  lemma {:induction false} EntryIdsDomain(rows: seq<LegacyEntryRow>, user: int, uuid: Uuid)
    ensures uuid in EntryIds(rows, user) <==> exists k :: 0 <= k < |rows| && EntryKey(rows[k], uuid, user)
  {
    if rows != [] {
      var front := rows[..|rows| - 1];
      EntryIdsDomain(front, user, uuid);
      assert forall k :: 0 <= k < |front| ==> front[k] == rows[k];
    }
  }

  /** The id reported for a uuid is that of the user's last row with it. */
  lemma {:induction false} EntryIdsLastWins(rows: seq<LegacyEntryRow>, user: int, i: int)
    requires 0 <= i < |rows| && rows[i].user == user
    requires forall j :: i < j < |rows| ==> !EntryKey(rows[j], rows[i].uuid, user)
    ensures rows[i].uuid in EntryIds(rows, user) && EntryIds(rows, user)[rows[i].uuid] == rows[i].id
  {
    var front := rows[..|rows| - 1];
    if i < |rows| - 1 {
      assert front[i] == rows[i];
      forall j | i < j < |front| ensures !EntryKey(front[j], front[i].uuid, user) {
        assert front[j] == rows[j];
      }
      EntryIdsLastWins(front, user, i);
    }
  }

  // ----- users -----

  /** After `getUserId` the uid resolves to the returned id. The table keeps its length, or
      gains one row exactly when neither the uid nor the address was known. */
  lemma GetUserIdResolves(users: seq<LegacyUserRow>, next: int, uid: string, email: string)
    ensures var r := GetUserId(users, next, uid, email);
            UidOf(r.users, uid) == Some(r.id)
            && (|r.users| == |users| + 1 <==> (forall i :: 0 <= i < |users| ==> users[i].uid != uid && users[i].email != email))
            && (|r.users| == |users| || |r.users| == |users| + 1)
  {
    var r := GetUserId(users, next, uid, email);
    if UidOf(users, uid).None? {
      var e := EmailRow(users, email);
      if e.Some? {
        var k := e.value;
        assert forall j :: 0 <= j < k ==> r.users[j] == users[j];
        assert r.users[k].uid == uid;
      } else {
        var all := r.users;
        assert forall i :: 0 <= i < |users| ==> all[i] == users[i];
        assert all[|users|].uid == uid;
      }
    }
  }

  /** A second call with the same uid returns the same id and changes nothing. */
  lemma GetUserIdIdempotent(users: seq<LegacyUserRow>, next: int, uid: string, email: string, email2: string)
    ensures var r := GetUserId(users, next, uid, email);
            GetUserId(r.users, r.next, uid, email2) == r
  {
    GetUserIdResolves(users, next, uid, email);
  }

  // ----- clients -----

  /** `unregisterClient` returns how many rows it deleted: the number of the user's rows with
      that id, positive exactly when the client was the user's. */
  lemma {:induction false} UnregisterCounts(rows: seq<ClientRow>, id: int, user: int)
    ensures |Leases.WithoutClient(rows, id, user)| + OwnedCount(rows, id, user) == |rows|
    ensures OwnedCount(rows, id, user) > 0 <==> Leases.Registered(rows, id, user)
  {
    if rows != [] {
      UnregisterCounts(rows[1..], id, user);
      Leases.WithoutClientShrinks(rows, id, user);
      Leases.WithoutClientShrinks(rows[1..], id, user);
    }
  }
}
