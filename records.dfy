/** What `pushEntry` and `pushCat` of the lease-based helper do to the database: the uuid
    lookup, the insert / conditional update / conditional delete branches, the tombstone log,
    and the replacement of child lists. Each function gives the tables after the statements of
    one helper method, in the order the helper runs them. */
module Records {
  import opened Wrappers
  import opened Schema
  import opened ChildTables
  import Leases

  /** The last-writer-wins guard `sync_time < SUBTIME(NOW(3), ? / 1000)`: the stored row is
      older than the client's copy, `age` ms old. */
  predicate Older(syncTime: int, now: int, age: int)
  {
    syncTime < now - age
  }

  // ----- entries, categories and the tombstone log -----

  /** `WHERE user = ? AND id = ? AND sync_time < SUBTIME(NOW(3), ? / 1000)` on `entries`. */
  predicate EntryTarget(r: EntryRow, user: int, id: int, now: int, age: int)
  {
    r.user == user && r.id == id && Older(r.syncTime, now, age)
  }

  predicate CatTarget(r: CatRow, user: int, id: int, now: int, age: int)
  {
    r.user == user && r.id == id && Older(r.syncTime, now, age)
  }

  /** `UPDATE entries SET <fields>, sync_time = NOW(3), client = ? WHERE <EntryTarget>`. */
  function UpdateEntryRows(rows: seq<EntryRow>, user: int, id: int, fields: EntryFields, client: int, now: int, age: int): (r: seq<EntryRow>)
    ensures |r| == |rows|
  {
    seq(|rows|, k requires 0 <= k < |rows| =>
      if EntryTarget(rows[k], user, id, now, age) then rows[k].(fields := fields, syncTime := now, client := client) else rows[k])
  }

  /** `DELETE FROM entries WHERE <EntryTarget>`. */
  function DeleteEntryRows(rows: seq<EntryRow>, user: int, id: int, now: int, age: int): (r: seq<EntryRow>)
    ensures forall x :: x in r <==> x in rows && !EntryTarget(x, user, id, now, age)
    ensures |r| <= |rows|
    ensures |r| == |rows| <==> forall k :: 0 <= k < |rows| ==> !EntryTarget(rows[k], user, id, now, age)
  {
    if rows == [] then []
    else
      var rest := DeleteEntryRows(rows[1..], user, id, now, age);
      assert forall x :: x in rows <==> x == rows[0] || x in rows[1..];
      assert forall k :: 1 <= k < |rows| ==> rows[k] == rows[1..][k - 1];
      if EntryTarget(rows[0], user, id, now, age) then rest else [rows[0]] + rest
  }

  /** `UPDATE categories SET name = ?, sync_time = NOW(3), client = ? WHERE <CatTarget>`. */
  function UpdateCatRows(rows: seq<CatRow>, user: int, id: int, name: string, client: int, now: int, age: int): (r: seq<CatRow>)
    ensures |r| == |rows|
  {
    seq(|rows|, k requires 0 <= k < |rows| =>
      if CatTarget(rows[k], user, id, now, age) then rows[k].(name := name, syncTime := now, client := client) else rows[k])
  }

  /** `DELETE FROM categories WHERE <CatTarget>`. */
  function DeleteCatRows(rows: seq<CatRow>, user: int, id: int, now: int, age: int): (r: seq<CatRow>)
    ensures forall x :: x in r <==> x in rows && !CatTarget(x, user, id, now, age)
    ensures |r| <= |rows|
    ensures |r| == |rows| <==> forall k :: 0 <= k < |rows| ==> !CatTarget(rows[k], user, id, now, age)
  {
    if rows == [] then []
    else
      var rest := DeleteCatRows(rows[1..], user, id, now, age);
      assert forall x :: x in rows <==> x == rows[0] || x in rows[1..];
      assert forall k :: 1 <= k < |rows| ==> rows[k] == rows[1..][k - 1];
      if CatTarget(rows[0], user, id, now, age) then rest else [rows[0]] + rest
  }

  /** `DELETE FROM deleted WHERE user = ? AND uuid = ?` with a non-NULL uuid. */
  function WithoutTombstones(rows: seq<Tombstone>, user: int, uuid: Uuid): (r: seq<Tombstone>)
    ensures forall x :: x in r <==> x in rows && !(x.user == user && x.uuid == uuid)
  {
    if rows == [] then []
    else
      var rest := WithoutTombstones(rows[1..], user, uuid);
      assert forall x :: x in rows <==> x == rows[0] || x in rows[1..];
      if rows[0].user == user && rows[0].uuid == uuid then rest else [rows[0]] + rest
  }

  /** The tombstone cleanup after an insert; binding NULL (an undefined variable) as the uuid
      makes `uuid = NULL` unknown for every row, so nothing is deleted. */
  function ClearTombstones(rows: seq<Tombstone>, user: int, uuid: Option<Uuid>): seq<Tombstone>
  {
    if uuid.None? then rows else WithoutTombstones(rows, user, uuid.value)
  }

  // ----- category extras -----

  /** The key the `ON DUPLICATE KEY UPDATE` of `insertCatExtras` collides on, taken to be the
      pair (category, uuid). */
  predicate ExtraKey(r: ExtraRow, cat: int, uuid: Uuid)
  {
    r.cat == cat && r.uuid == uuid
  }

  /** The `extras` table together with its auto-increment counter. */
  datatype ExtraTable = ExtraTable(rows: seq<ExtraRow>, next: int)

  /** One `INSERT INTO extras ... ON DUPLICATE KEY UPDATE name = ?, pos = ?, deleted = ?`. */
  function UpsertExtra(t: ExtraTable, cat: int, x: CatExtra): ExtraTable
  {
    if exists k :: 0 <= k < |t.rows| && ExtraKey(t.rows[k], cat, x.uuid) then
      ExtraTable(seq(|t.rows|, k requires 0 <= k < |t.rows| =>
        if ExtraKey(t.rows[k], cat, x.uuid) then t.rows[k].(name := x.name, pos := x.pos, deleted := x.deleted) else t.rows[k]), t.next)
    else
      ExtraTable(t.rows + [ExtraRow(t.next, cat, x.uuid, x.name, x.pos, x.deleted)], t.next + 1)
  }

  /** The `foreach` of `insertCatExtras`, in list order. */
  function UpsertExtras(t: ExtraTable, cat: int, xs: seq<CatExtra>): ExtraTable
  {
    if xs == [] then t else UpsertExtra(UpsertExtras(t, cat, xs[..|xs| - 1]), cat, xs[|xs| - 1])
  }

  /** `SELECT id, uuid FROM extras WHERE cat = ?`, in table order. */
  function ExtrasOf(rows: seq<ExtraRow>, cat: int): (r: seq<ExtraRow>)
    ensures forall x :: x in r <==> x in rows && x.cat == cat
  {
    if rows == [] then []
    else
      var rest := ExtrasOf(rows[1..], cat);
      assert forall x :: x in rows <==> x == rows[0] || x in rows[1..];
      if rows[0].cat == cat then [rows[0]] + rest else rest
  }

  /** The keys of `$catUuids`. */
  function UuidSet(xs: seq<CatExtra>): set<Uuid>
  {
    set k | 0 <= k < |xs| :: xs[k].uuid
  }

  /** The ids the pruning loop of `updateCatExtras` deletes: fetched rows whose uuid is not among
      the incoming ones. */
  function StaleIds(fetched: seq<ExtraRow>, keep: set<Uuid>): set<int>
  {
    set k | 0 <= k < |fetched| && fetched[k].uuid !in keep :: fetched[k].id
  }

  /** A sequence of `DELETE FROM extras WHERE id = ?`. */
  function WithoutIds(rows: seq<ExtraRow>, ids: set<int>): (r: seq<ExtraRow>)
    ensures forall x :: x in r <==> x in rows && x.id !in ids
  {
    if rows == [] then []
    else
      var rest := WithoutIds(rows[1..], ids);
      assert forall x :: x in rows <==> x == rows[0] || x in rows[1..];
      if rows[0].id in ids then rest else [rows[0]] + rest
  }

  /** `updateCatExtras` with a non-empty incoming list: prune, then upsert every incoming extra. */
  function ReplaceExtras(t: ExtraTable, cat: int, xs: seq<CatExtra>): ExtraTable
  {
    var pruned := WithoutIds(t.rows, StaleIds(ExtrasOf(t.rows, cat), UuidSet(xs)));
    UpsertExtras(ExtraTable(pruned, t.next), cat, xs)
  }

  // ----- entry children -----

  /** The rows `insertEntryExtras` adds: each incoming value with the id the subquery
      `(SELECT id FROM extras WHERE cat = ? AND uuid = ?)` finds for it. */
  function ExtraValues(extras: seq<ExtraRow>, cat: Option<int>, xs: seq<EntryExtra>): (r: seq<EntryExtraValue>)
    ensures |r| == |xs|
  {
    seq(|xs|, k requires 0 <= k < |xs| => EntryExtraValue(ExtraIdOf(extras, cat, xs[k].uuid), xs[k].value))
  }

  // ----- the push branches -----

  /** What a push leaves behind: the tables, the value the helper returns, and the record id
      the endpoint reports as `remoteId`. */
  datatype Push = Push(t: Tables, ok: bool, id: int)

  /** `insertEntry`: the row, its children when it got an id, then the tombstone cleanup. */
  function InsertEntry(t: Tables, user: int, client: int, e: EntryRecord, cat: int, now: int): Push
  {
    var id := t.nextEntry;
    var t1 := t.(entries := t.entries + [EntryRow(id, e.uuid, user, cat, e.fields, now, client)], nextEntry := id + 1);
    var t2 := if id != 0 then
        t1.(entryExtras := t1.entryExtras + Owned(id, ExtraValues(t1.extras, Some(cat), e.extras)),
            entryFlavors := t1.entryFlavors + Owned(id, e.flavors),
            photos := t1.photos + Owned(id, e.photos))
      else t1;
    Push(t2.(deleted := ClearTombstones(t2.deleted, user, Some(e.uuid))), id > 0, id)
  }

  /** `updateEntry`: the conditional UPDATE, and the child lists only when it changed a row. */
  function UpdateEntry(t: Tables, user: int, client: int, e: EntryRecord, id: int, cat: Option<int>, now: int): Push
  {
    var rows := UpdateEntryRows(t.entries, user, id, e.fields, client, now, e.age);
    if rows == t.entries then Push(t, false, id)
    else
      Push(t.(entries := rows,
              entryExtras := Replace(t.entryExtras, id, ExtraValues(t.extras, cat, e.extras)),
              entryFlavors := Replace(t.entryFlavors, id, e.flavors),
              photos := Replace(t.photos, id, e.photos)), true, id)
  }

  /** `deleteEntry`: the conditional DELETE, and one tombstone when it removed a row. */
  function DeleteEntry(t: Tables, user: int, client: int, e: EntryRecord, id: int, cat: Option<int>, now: int): Push
  {
    var rows := DeleteEntryRows(t.entries, user, id, now, e.age);
    if |rows| == |t.entries| then Push(t, false, id)
    else Push(t.(entries := rows, deleted := t.deleted + [Tombstone(user, EntryKind, cat, e.uuid, now, client)]), true, id)
  }

  /** The id a push works on: the stored row's when the uuid is known, otherwise the id the
      client sent. */
  function EntryTargetId(t: Tables, user: int, e: EntryRecord): int
  {
    var found := FindEntry(t.entries, e.uuid, user);
    if found.Some? then found.value.id else e.id
  }

  /** The category a push works with: the stored row's when the uuid is known, otherwise the
      one the client sent. */
  function EntryTargetCat(t: Tables, user: int, e: EntryRecord): Option<int>
  {
    var found := FindEntry(t.entries, e.uuid, user);
    if found.Some? then Some(found.value.cat) else e.cat
  }

  /** The branches of `pushEntry` before the pending flag is set. */
  function PushEntryBranch(t: Tables, user: int, client: int, e: EntryRecord, now: int): Push
  {
    var id := EntryTargetId(t, user, e);
    var cat := EntryTargetCat(t, user, e);
    if e.deleted then DeleteEntry(t, user, client, e, id, cat, now)
    else if id == 0 then
      var c := FindCat(t.categories, e.catUuid, user);
      if c.Some? && c.value.id != 0 then InsertEntry(t, user, client, e, c.value.id, now)
      else Push(t, false, id)
    else UpdateEntry(t, user, client, e, id, cat, now)
  }

  /** `pushEntry`: Unauthorized without a user; otherwise the branch, then `changed()` when it
      succeeded. */
  function PushEntry(t: Tables, user: int, client: int, e: EntryRecord, now: int): Result<Push, Failure>
  {
    if user == 0 then Err(Unauthorized)
    else
      var p := PushEntryBranch(t, user, client, e, now);
      Ok(if p.ok then p.(t := p.t.(clients := Leases.MarkChanged(p.t.clients, client, user))) else p)
  }

  /** `insertCat`: the row, its extras and flavors when it got an id, and a tombstone cleanup
      that binds NULL. */
  function InsertCat(t: Tables, user: int, client: int, c: CatRecord, now: int): Push
  {
    var id := t.nextCat;
    var t1 := t.(categories := t.categories + [CatRow(id, c.uuid, user, c.name, now, client)], nextCat := id + 1);
    var t2 := if id != 0 then
        var ex := UpsertExtras(ExtraTable(t1.extras, t1.nextExtra), id, c.extras);
        t1.(extras := ex.rows, nextExtra := ex.next, flavors := t1.flavors + Owned(id, c.flavors))
      else t1;
    Push(t2.(deleted := ClearTombstones(t2.deleted, user, None)), id > 0, id)
  }

  /** `updateCat`: the conditional UPDATE; then extras and flavors only when it changed a row,
      each only when its incoming list is non-empty. */
  function UpdateCat(t: Tables, user: int, client: int, c: CatRecord, id: int, now: int): Push
  {
    var rows := UpdateCatRows(t.categories, user, id, c.name, client, now, c.age);
    if rows == t.categories then Push(t, false, id)
    else
      var ex := if c.extras == [] then ExtraTable(t.extras, t.nextExtra)
                else ReplaceExtras(ExtraTable(t.extras, t.nextExtra), id, c.extras);
      Push(t.(categories := rows, extras := ex.rows, nextExtra := ex.next,
              flavors := Replace(t.flavors, id, c.flavors)), true, id)
  }

  /** `deleteCat`: the conditional DELETE, and one tombstone (with no category) when it removed
      a row. */
  function DeleteCat(t: Tables, user: int, client: int, c: CatRecord, id: int, now: int): Push
  {
    var rows := DeleteCatRows(t.categories, user, id, now, c.age);
    if |rows| == |t.categories| then Push(t, false, id)
    else Push(t.(categories := rows, deleted := t.deleted + [Tombstone(user, CatKind, None, c.uuid, now, client)]), true, id)
  }

  function CatTargetId(t: Tables, user: int, c: CatRecord): int
  {
    var found := FindCat(t.categories, Some(c.uuid), user);
    if found.Some? then found.value.id else c.id
  }

  function PushCatBranch(t: Tables, user: int, client: int, c: CatRecord, now: int): Push
  {
    var id := CatTargetId(t, user, c);
    if c.deleted then DeleteCat(t, user, client, c, id, now)
    else if id == 0 then InsertCat(t, user, client, c, now)
    else UpdateCat(t, user, client, c, id, now)
  }

  /** `pushCat`. */
  function PushCat(t: Tables, user: int, client: int, c: CatRecord, now: int): Result<Push, Failure>
  {
    if user == 0 then Err(Unauthorized)
    else
      var p := PushCatBranch(t, user, client, c, now);
      Ok(if p.ok then p.(t := p.t.(clients := Leases.MarkChanged(p.t.clients, client, user))) else p)
  }
}
