/** The rows of the sync database (the `web/` schema), the records clients push and fetch,
    and the single-row lookups the helper's SELECT statements perform.

    A table is a sequence of rows in table order. Server ids are auto-increment values;
    each `Tables` value carries the next value of every counter. */
module Schema {
  import opened Wrappers

  type Uuid = string

  /** The exceptions the helper and the endpoint raise: `UnauthorizedException` when no user is
      set or the client is not the user's, `LockedException` when the sync lease is missing. */
  datatype Failure = Unauthorized | Locked

  /** A row of `clients`: one device of one user. `lockExpire` is the lease; `lastSync` the
      watermark; `changesPending` the flag that decides the fan-out at the end of a session. */
  datatype ClientRow = ClientRow(
    id: int, user: int, fcmId: string,
    lastSync: Option<int>, lockExpire: Option<int>, changesPending: bool)

  /** A row of `users`. */
  datatype UserRow = UserRow(id: int, uid: string)

  /** The descriptive columns of an entry. */
  datatype EntryFields = EntryFields(
    title: string, maker: string, origin: string, price: string,
    location: string, date: int, rating: real, notes: string)

  /** A row of `categories`; `syncTime` is when the server last wrote it, `client` who did. */
  datatype CatRow = CatRow(id: int, uuid: Uuid, user: int, name: string, syncTime: int, client: int)

  /** A row of `entries`. */
  datatype EntryRow = EntryRow(
    id: int, uuid: Uuid, user: int, cat: int, fields: EntryFields, syncTime: int, client: int)

  datatype Kind = EntryKind | CatKind

  /** A row of `deleted`, the tombstone log. */
  datatype Tombstone = Tombstone(
    user: int, kind: Kind, cat: Option<int>, uuid: Uuid, syncTime: int, client: int)

  /** A row of `extras`: an extra field defined by a category. */
  datatype ExtraRow = ExtraRow(id: int, cat: int, uuid: Uuid, name: string, pos: int, deleted: bool)

  /** A row of a child table (`flavors`, `entries_flavors`, `entries_extras`, `photos`):
      the owning category or entry id and the remaining columns. */
  datatype Child<T> = Child(owner: int, data: T)

  datatype CatFlavor = CatFlavor(name: string, pos: int)
  datatype EntryFlavor = EntryFlavor(name: string, value: int, pos: int)
  /** `entries_extras.extra` is the id the `(SELECT id FROM extras ...)` subquery found, or NULL. */
  datatype EntryExtraValue = EntryExtraValue(extra: Option<int>, value: string)
  datatype Photo = Photo(hash: string, driveId: string, pos: int)

  /** An extra of an incoming or fetched category. */
  datatype CatExtra = CatExtra(uuid: Uuid, name: string, pos: int, deleted: bool)
  /** An extra value of an incoming entry. */
  datatype EntryExtra = EntryExtra(uuid: Uuid, value: string)
  /** An extra value of a fetched entry, joined with its definition. */
  datatype EntryExtraView = EntryExtraView(uuid: Uuid, name: string, value: string)

  /** A category as a client pushes it. `id` is whatever the client sent (0 when absent);
      `age` is how old the client's copy claims to be, in ms. */
  datatype CatRecord = CatRecord(
    id: int, uuid: Uuid, name: string, age: int, deleted: bool,
    extras: seq<CatExtra>, flavors: seq<CatFlavor>)

  /** An entry as a client pushes it; `cat` and `catUuid` may be absent. */
  datatype EntryRecord = EntryRecord(
    id: int, uuid: Uuid, cat: Option<int>, catUuid: Option<Uuid>, fields: EntryFields,
    age: int, deleted: bool,
    extras: seq<EntryExtra>, flavors: seq<EntryFlavor>, photos: seq<Photo>)

  /** A category as `getCat` returns it. */
  datatype CatView = CatView(
    id: int, uuid: Uuid, name: string, age: int, extras: seq<CatExtra>, flavors: seq<CatFlavor>)

  /** An entry as `getEntry` returns it; `catUuid` is NULL when the LEFT JOIN finds no category. */
  datatype EntryView = EntryView(
    id: int, uuid: Uuid, cat: int, catUuid: Option<Uuid>, fields: EntryFields, age: int,
    extras: seq<EntryExtraView>, flavors: seq<EntryFlavor>, photos: seq<Photo>)

  /** The whole database. `lastSyncDefault` is the schema's default for `clients.last_sync`. */
  datatype Tables = Tables(
    users: seq<UserRow>, clients: seq<ClientRow>,
    categories: seq<CatRow>, entries: seq<EntryRow>, deleted: seq<Tombstone>,
    extras: seq<ExtraRow>, flavors: seq<Child<CatFlavor>>,
    entryExtras: seq<Child<EntryExtraValue>>, entryFlavors: seq<Child<EntryFlavor>>,
    photos: seq<Child<Photo>>,
    nextUser: int, nextClient: int, nextCat: int, nextEntry: int, nextExtra: int,
    lastSyncDefault: Option<int>)

  /** Age in ms of a row written at `syncTime`: `TIMESTAMPDIFF(MICROSECOND, sync_time, NOW(3))`
      divided by 1000, exact because both timestamps have millisecond precision. */
  function Age(syncTime: int, now: int): int { now - syncTime }

  predicate EntryKey(r: EntryRow, uuid: Uuid, user: int) { r.uuid == uuid && r.user == user }
  predicate CatKey(r: CatRow, uuid: Uuid, user: int) { r.uuid == uuid && r.user == user }

  /** `SELECT ... FROM entries WHERE uuid = ? AND user = ?`, first row fetched. */
  function FindEntry(rows: seq<EntryRow>, uuid: Uuid, user: int): (r: Option<EntryRow>)
    ensures r.None? <==> forall i :: 0 <= i < |rows| ==> !EntryKey(rows[i], uuid, user)
    ensures r.Some? ==> exists i :: 0 <= i < |rows| && rows[i] == r.value && EntryKey(r.value, uuid, user)
                                 && forall j :: 0 <= j < i ==> !EntryKey(rows[j], uuid, user)
  {
    if rows == [] then None
    else if EntryKey(rows[0], uuid, user) then Some(rows[0])
    else
      var r := FindEntry(rows[1..], uuid, user);
      assert forall i :: 1 <= i < |rows| ==> rows[i] == rows[1..][i - 1];
      r
  }

  /** `SELECT ... FROM categories WHERE uuid = ? AND user = ?`, first row fetched; a NULL uuid
      matches nothing. */
  function FindCat(rows: seq<CatRow>, uuid: Option<Uuid>, user: int): (r: Option<CatRow>)
    ensures r.None? <==> uuid.None? || forall i :: 0 <= i < |rows| ==> !CatKey(rows[i], uuid.value, user)
    ensures r.Some? ==> uuid.Some?
    ensures r.Some? ==> exists i :: 0 <= i < |rows| && rows[i] == r.value && CatKey(r.value, uuid.value, user)
                                 && forall j :: 0 <= j < i ==> !CatKey(rows[j], uuid.value, user)
  {
    if uuid.None? || rows == [] then None
    else if CatKey(rows[0], uuid.value, user) then Some(rows[0])
    else
      var r := FindCat(rows[1..], uuid, user);
      assert forall i :: 1 <= i < |rows| ==> rows[i] == rows[1..][i - 1];
      r
  }

  /** `(SELECT id FROM extras WHERE cat = ? AND uuid = ?)`: NULL when nothing matches (or the
      category is NULL). */
  function ExtraIdOf(extras: seq<ExtraRow>, cat: Option<int>, uuid: Uuid): (r: Option<int>)
    ensures r.None? <==> cat.None? || forall i :: 0 <= i < |extras| ==> !(extras[i].cat == cat.value && extras[i].uuid == uuid)
    ensures r.Some? ==> exists i :: 0 <= i < |extras| && extras[i].id == r.value
                                 && extras[i].cat == cat.value && extras[i].uuid == uuid
  {
    if cat.None? || extras == [] then None
    else if extras[0].cat == cat.value && extras[0].uuid == uuid then Some(extras[0].id)
    else
      var r := ExtraIdOf(extras[1..], cat, uuid);
      assert forall i :: 1 <= i < |extras| ==> extras[i] == extras[1..][i - 1];
      r
  }

  /** The uuid the `LEFT JOIN categories b ON a.cat = b.id` of `getEntry` yields. */
  function CatUuidOf(rows: seq<CatRow>, id: int): (r: Option<Uuid>)
    ensures r.None? <==> forall i :: 0 <= i < |rows| ==> rows[i].id != id
    ensures r.Some? ==> exists i :: 0 <= i < |rows| && rows[i].id == id && rows[i].uuid == r.value
  {
    if rows == [] then None
    else if rows[0].id == id then Some(rows[0].uuid)
    else
      var r := CatUuidOf(rows[1..], id);
      assert forall i :: 1 <= i < |rows| ==> rows[i] == rows[1..][i - 1];
      r
  }
}
