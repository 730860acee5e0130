/** The lease-based database helper: a connection to the database, the current user and
    client, and one method per public or private helper function. Every statement runs as one
    step on the tables; each method is proved to leave the tables as the functions of `Leases`,
    `Delta`, `Records`, `Users` and `Views` say. */
module Helper {
  import opened Wrappers
  import opened Schema
  import opened ChildTables
  import Leases
  import Delta
  import Records
  import ExtrasProperties
  import Users
  import Views

  /** The database the helper's connection writes to: one field per table, one per
      auto-increment counter, and the schema default of `clients.last_sync`. */
  class Database {
    var users: seq<UserRow>
    var clients: seq<ClientRow>
    var categories: seq<CatRow>
    var entries: seq<EntryRow>
    var deleted: seq<Tombstone>
    var extras: seq<ExtraRow>
    var flavors: seq<Child<CatFlavor>>
    var entryExtras: seq<Child<EntryExtraValue>>
    var entryFlavors: seq<Child<EntryFlavor>>
    var photos: seq<Child<Photo>>
    var nextUser: int
    var nextClient: int
    var nextCat: int
    var nextEntry: int
    var nextExtra: int
    const lastSyncDefault: Option<int>

    function State(): Tables
      reads this
    {
      Tables(users, clients, categories, entries, deleted, extras, flavors, entryExtras, entryFlavors, photos,
             nextUser, nextClient, nextCat, nextEntry, nextExtra, lastSyncDefault)
    }

    /** Empty tables; every auto-increment counter starts at 1. */
    constructor (lastSyncDefault: Option<int>)
      ensures State() == Tables([], [], [], [], [], [], [], [], [], [], 1, 1, 1, 1, 1, lastSyncDefault)
    {
      users, clients, categories, entries, deleted := [], [], [], [], [];
      extras, flavors, entryExtras, entryFlavors, photos := [], [], [], [], [];
      nextUser, nextClient, nextCat, nextEntry, nextExtra := 1, 1, 1, 1, 1;
      this.lastSyncDefault := lastSyncDefault;
    }
  }

  class DatabaseHelper {
    const db: Database
    /** The lease length in seconds. */
    const lockTimeout: int
    /** The user requests are made for; 0 while none is set. */
    var userId: int
    /** The client requests are made from. */
    var clientId: int

    constructor (db: Database, lockTimeout: int)
      ensures this.db == db && this.lockTimeout == lockTimeout && userId == 0 && clientId == 0
    {
      this.db := db;
      this.lockTimeout := lockTimeout;
      userId, clientId := 0, 0;
    }

    // ----- user and client -----

    /** `setUser`: the user of the authenticated uid, created if new. */
    method SetUser(uid: string)
      modifies this, db
      ensures var l := Users.FindUserId(old(db.users), old(db.nextUser), uid);
              userId == l.id && clientId == old(clientId)
              && db.State() == old(db.State()).(users := l.users, nextUser := l.next)
    {
      var id := FindUserId(uid);
      userId := id;
    }

    /** `findUserId`. */
    method FindUserId(uid: string) returns (id: int)
      modifies db
      ensures var l := Users.FindUserId(old(db.users), old(db.nextUser), uid);
              id == l.id && db.State() == old(db.State()).(users := l.users, nextUser := l.next)
    {
      var found := Users.UserIdOf(db.users, uid);
      if found.Some? {
        return found.value;
      }
      id := db.nextUser;
      db.users := db.users + [UserRow(id, uid)];
      db.nextUser := id + 1;
    }

    /** `setClientId`: the id is stored, then Unauthorized unless the user has a client row
        with that id. */
    method SetClientId(id: int) returns (r: Outcome<Failure>)
      modifies this
      ensures clientId == id && userId == old(userId)
      ensures r.Pass? <==> Leases.Registered(db.clients, id, userId)
      ensures r.Fail? ==> r.error == Unauthorized
    {
      clientId := id;
      if Leases.Registered(db.clients, clientId, userId) {
        return Pass;
      }
      return Fail(Unauthorized);
    }

    // ----- the lease -----

    method GetLock(now: int) returns (ok: bool)
      modifies db
      ensures var u := Leases.GetLock(old(db.clients), clientId, userId, now, lockTimeout);
              ok == u.ok && db.State() == old(db.State()).(clients := u.rows)
    {
      var u := Leases.GetLock(db.clients, clientId, userId, now, lockTimeout);
      db.clients := u.rows;
      ok := u.ok;
    }

    method ReleaseLock(now: int)
      modifies db
      ensures db.State() == old(db.State()).(clients := Leases.ReleaseLock(old(db.clients), clientId, userId, now))
    {
      db.clients := Leases.ReleaseLock(db.clients, clientId, userId, now);
    }

    method TouchLock(now: int) returns (ok: bool)
      modifies db
      ensures var u := Leases.TouchLock(old(db.clients), clientId, userId, now, lockTimeout);
              ok == u.ok && db.State() == old(db.State()).(clients := u.rows)
    {
      var u := Leases.TouchLock(db.clients, clientId, userId, now, lockTimeout);
      db.clients := u.rows;
      ok := u.ok;
    }

    /** `changesPending`: the flag of the first row of the caller, false when it has none. */
    method ChangesPending() returns (pending: bool)
      ensures pending <==> exists k :: 0 <= k < |db.clients| && Leases.Owns(db.clients[k], clientId, userId)
                                       && db.clients[k].changesPending
                                       && forall j :: 0 <= j < k ==> !Leases.Owns(db.clients[j], clientId, userId)
    {
      Leases.ChangesPendingFirst(db.clients, clientId, userId);
      pending := Leases.ChangesPending(db.clients, clientId, userId);
    }

    /** `changed`. */
    method Changed()
      modifies db
      ensures db.State() == old(db.State()).(clients := Leases.MarkChanged(old(db.clients), clientId, userId))
    {
      db.clients := Leases.MarkChanged(db.clients, clientId, userId);
    }

    // ----- the client registry -----

    /** `registerClient`: the user's rows for the device are deleted, then a row is inserted;
        its id is returned. */
    method RegisterClient(fcmId: string) returns (r: Result<int, Failure>)
      modifies db
      ensures userId == 0 ==> r == Err(Unauthorized) && db.State() == old(db.State())
      ensures userId != 0 ==>
                r == Ok(old(db.nextClient))
                && db.State() == old(db.State()).(
                     clients := Leases.Register(old(db.clients), userId, fcmId, old(db.nextClient), db.lastSyncDefault),
                     nextClient := old(db.nextClient) + 1)
    {
      if userId == 0 {
        return Err(Unauthorized);
      }
      db.clients := Leases.WithoutDevice(db.clients, userId, fcmId);
      var id := db.nextClient;
      db.clients := db.clients + [Leases.NewClient(id, userId, fcmId, db.lastSyncDefault)];
      db.nextClient := id + 1;
      r := Ok(id);
    }

    /** `unregisterClient`: true when a row of the user with that id was deleted. */
    method UnregisterClient(id: int) returns (r: Result<bool, Failure>)
      modifies db
      ensures userId == 0 ==> r == Err(Unauthorized) && db.State() == old(db.State())
      ensures userId != 0 ==>
                var rows := Leases.WithoutClient(old(db.clients), id, userId);
                r == Ok(|rows| < |old(db.clients)|) && db.State() == old(db.State()).(clients := rows)
    {
      if userId == 0 {
        return Err(Unauthorized);
      }
      var before := db.clients;
      db.clients := Leases.WithoutClient(db.clients, id, userId);
      r := Ok(|db.clients| < |before|);
    }

    /** `setFcmId`, which does not look at the user. */
    method SetFcmId(id: int, fcmId: string) returns (ok: bool)
      modifies db
      ensures var u := Leases.SetFcmId(old(db.clients), id, fcmId);
              ok == u.ok && db.State() == old(db.State()).(clients := u.rows)
    {
      var u := Leases.SetFcmId(db.clients, id, fcmId);
      db.clients := u.rows;
      ok := u.ok;
    }

    /** `listFcmIds`: the fetch loop over the user's client rows. */
    method ListFcmIds() returns (r: Result<seq<Leases.Target>, Failure>)
      ensures userId == 0 ==> r == Err(Unauthorized)
      ensures userId != 0 ==> r == Ok(Leases.FcmList(db.clients, userId))
    {
      if userId == 0 {
        return Err(Unauthorized);
      }
      var rows := db.clients;
      var list: seq<Leases.Target> := [];
      var i := 0;
      while i < |rows|
        invariant 0 <= i <= |rows|
        invariant list == Leases.FcmList(rows[..i], userId)
      {
        assert rows[..i + 1][..i] == rows[..i];
        if rows[i].user == userId {
          list := Leases.Put(list, Leases.Target(rows[i].id, rows[i].fcmId));
        }
        i := i + 1;
      }
      assert rows[..|rows|] == rows;
      return Ok(list);
    }

    // ----- the delta queries -----

    /** `getDeletedEntries`, and `getDeletedCats`, which runs the same query. */
    method GetDeleted(now: int) returns (r: Result<map<Uuid, int>, Failure>)
      ensures userId == 0 ==> r == Err(Unauthorized)
      ensures userId != 0 ==>
                r == Ok(Delta.Ages(Delta.TombstoneStamps(db.deleted), userId, clientId, Delta.LastSyncOf(db.clients, clientId), now))
    {
      if userId == 0 {
        return Err(Unauthorized);
      }
      var records := Delta.CollectAges(Delta.TombstoneStamps(db.deleted), userId, clientId, Delta.LastSyncOf(db.clients, clientId), now);
      return Ok(records);
    }

    method GetUpdatedEntries(now: int) returns (r: Result<map<Uuid, int>, Failure>)
      ensures userId == 0 ==> r == Err(Unauthorized)
      ensures userId != 0 ==>
                r == Ok(Delta.Ages(Delta.EntryStamps(db.entries), userId, clientId, Delta.LastSyncOf(db.clients, clientId), now))
    {
      if userId == 0 {
        return Err(Unauthorized);
      }
      var records := Delta.CollectAges(Delta.EntryStamps(db.entries), userId, clientId, Delta.LastSyncOf(db.clients, clientId), now);
      return Ok(records);
    }

    method GetUpdatedCats(now: int) returns (r: Result<map<Uuid, int>, Failure>)
      ensures userId == 0 ==> r == Err(Unauthorized)
      ensures userId != 0 ==>
                r == Ok(Delta.Ages(Delta.CatStamps(db.categories), userId, clientId, Delta.LastSyncOf(db.clients, clientId), now))
    {
      if userId == 0 {
        return Err(Unauthorized);
      }
      var records := Delta.CollectAges(Delta.CatStamps(db.categories), userId, clientId, Delta.LastSyncOf(db.clients, clientId), now);
      return Ok(records);
    }

    // ----- fetching one record -----

    /** `getEntry`: null when the user has no entry with the uuid. */
    method GetEntry(uuid: Uuid, now: int) returns (r: Result<Option<EntryView>, Failure>)
      ensures userId == 0 ==> r == Err(Unauthorized)
      ensures userId != 0 ==> r == Ok(Views.EntryViewOf(db.State(), userId, uuid, now))
    {
      if userId == 0 {
        return Err(Unauthorized);
      }
      var found := FindEntry(db.entries, uuid, userId);
      if found.None? {
        return Ok(None);
      }
      var row := found.value;
      var extras := GetEntryExtras(row.id);
      var flavors := SelectOwned(db.entryFlavors, row.id);
      var photos := SelectOwned(db.photos, row.id);
      return Ok(Some(EntryView(row.id, row.uuid, row.cat, CatUuidOf(db.categories, row.cat), row.fields,
                               Age(row.syncTime, now), extras, flavors, photos)));
    }

    /** `getEntryExtras`: the rows of the join, one definition at a time. */
    method GetEntryExtras(entry: int) returns (records: seq<EntryExtraView>)
      ensures records == Views.JoinExtras(db.extras, db.entryExtras, entry)
    {
      var rows := db.extras;
      records := [];
      var i := 0;
      while i < |rows|
        invariant 0 <= i <= |rows|
        invariant records == Views.JoinExtras(rows[..i], db.entryExtras, entry)
      {
        assert rows[..i + 1][..i] == rows[..i];
        records := records + Views.Matches(rows[i], db.entryExtras, entry);
        i := i + 1;
      }
      assert rows[..|rows|] == rows;
    }

    /** `getCat`: null when the user has no category with the uuid. */
    method GetCat(uuid: Uuid, now: int) returns (r: Result<Option<CatView>, Failure>)
      ensures userId == 0 ==> r == Err(Unauthorized)
      ensures userId != 0 ==> r == Ok(Views.CatViewOf(db.State(), userId, uuid, now))
    {
      if userId == 0 {
        return Err(Unauthorized);
      }
      var found := FindCat(db.categories, Some(uuid), userId);
      if found.None? {
        return Ok(None);
      }
      var row := found.value;
      var extras := GetCatExtras(row.id);
      var flavors := SelectOwned(db.flavors, row.id);
      return Ok(Some(CatView(row.id, row.uuid, row.name, Age(row.syncTime, now), extras, flavors)));
    }

    /** `getCatExtras`. */
    method GetCatExtras(cat: int) returns (records: seq<CatExtra>)
      ensures records == Views.CatExtrasOf(db.extras, cat)
    {
      var rows := db.extras;
      records := [];
      var i := 0;
      while i < |rows|
        invariant 0 <= i <= |rows|
        invariant records == Views.CatExtrasOf(rows[..i], cat)
      {
        assert rows[..i + 1][..i] == rows[..i];
        if rows[i].cat == cat {
          records := records + [Views.CatExtraOf(rows[i])];
        }
        i := i + 1;
      }
      assert rows[..|rows|] == rows;
    }

    // ----- pushing an entry -----

    /** `pushEntry`: Unauthorized without a user; otherwise the lookup, the branch, and
        `changed` when it succeeded. `id` is the record id afterwards, the endpoint's
        `remoteId`. */
    method PushEntry(e: EntryRecord, now: int) returns (r: Result<bool, Failure>, id: int)
      modifies db
      ensures var p := Records.PushEntry(old(db.State()), userId, clientId, e, now);
              if p.Err? then r == Err(p.error) && id == e.id && db.State() == old(db.State())
              else r == Ok(p.value.ok) && id == p.value.id && db.State() == p.value.t
    {
      if userId == 0 {
        return Err(Unauthorized), e.id;
      }
      var found := FindEntry(db.entries, e.uuid, userId);
      id := if found.Some? then found.value.id else e.id;
      var cat := if found.Some? then Some(found.value.cat) else e.cat;
      var success := false;
      if e.deleted {
        success := DeleteEntry(e, id, cat, now);
      } else if id == 0 {
        var c := FindCat(db.categories, e.catUuid, userId);
        if c.Some? && c.value.id != 0 {
          success, id := InsertEntry(e, c.value.id, now);
        }
      } else {
        success := UpdateEntry(e, id, cat, now);
      }
      if success {
        Changed();
      }
      r := Ok(success);
    }

    /** `insertEntry`. */
    method InsertEntry(e: EntryRecord, cat: int, now: int) returns (ok: bool, id: int)
      modifies db
      ensures var p := Records.InsertEntry(old(db.State()), userId, clientId, e, cat, now);
              ok == p.ok && id == p.id && db.State() == p.t
    {
      id := db.nextEntry;
      db.entries := db.entries + [EntryRow(id, e.uuid, userId, cat, e.fields, now, clientId)];
      db.nextEntry := id + 1;
      if id != 0 {
        InsertEntryExtras(id, Some(cat), e.extras);
        InsertEntryFlavors(id, e.flavors);
        InsertEntryPhotos(id, e.photos);
      }
      db.deleted := Records.ClearTombstones(db.deleted, userId, Some(e.uuid));
      ok := id > 0;
    }

    /** `updateEntry`: the conditional UPDATE; the child lists only when it changed a row. */
    method UpdateEntry(e: EntryRecord, id: int, cat: Option<int>, now: int) returns (ok: bool)
      modifies db
      ensures var p := Records.UpdateEntry(old(db.State()), userId, clientId, e, id, cat, now);
              ok == p.ok && db.State() == p.t
    {
      var before := db.entries;
      db.entries := Records.UpdateEntryRows(db.entries, userId, id, e.fields, clientId, now, e.age);
      if db.entries == before {
        return false;
      }
      UpdateEntryExtras(id, cat, e.extras);
      UpdateEntryFlavors(id, e.flavors);
      UpdateEntryPhotos(id, e.photos);
      return true;
    }

    /** `deleteEntry`: the conditional DELETE; one tombstone when it removed a row. */
    method DeleteEntry(e: EntryRecord, id: int, cat: Option<int>, now: int) returns (ok: bool)
      modifies db
      ensures var p := Records.DeleteEntry(old(db.State()), userId, clientId, e, id, cat, now);
              ok == p.ok && db.State() == p.t
    {
      var rows := Records.DeleteEntryRows(db.entries, userId, id, now, e.age);
      if |rows| == |db.entries| {
        return false;
      }
      db.entries := rows;
      db.deleted := db.deleted + [Tombstone(userId, EntryKind, cat, e.uuid, now, clientId)];
      return true;
    }

    /** `insertEntryExtras`: one INSERT per value, its definition id found by a subquery. */
    method InsertEntryExtras(id: int, cat: Option<int>, xs: seq<EntryExtra>)
      modifies db
      ensures db.State() == old(db.State()).(entryExtras := old(db.entryExtras) + Owned(id, Records.ExtraValues(old(db.extras), cat, xs)))
    {
      ghost var values := Records.ExtraValues(db.extras, cat, xs);
      var i := 0;
      while i < |xs|
        invariant 0 <= i <= |xs|
        invariant db.State() == old(db.State()).(entryExtras := old(db.entryExtras) + Owned(id, values[..i]))
      {
        assert Owned(id, values[..i + 1]) == Owned(id, values[..i]) + [Child(id, values[i])];
        db.entryExtras := db.entryExtras + [Child(id, EntryExtraValue(ExtraIdOf(db.extras, cat, xs[i].uuid), xs[i].value))];
        i := i + 1;
      }
      assert values[..|xs|] == values;
    }

    /** `updateEntryExtras`: nothing for an empty list; otherwise delete, then insert. */
    method UpdateEntryExtras(id: int, cat: Option<int>, xs: seq<EntryExtra>)
      modifies db
      ensures db.State() == old(db.State()).(entryExtras := Replace(old(db.entryExtras), id, Records.ExtraValues(old(db.extras), cat, xs)))
    {
      if xs == [] {
        return;
      }
      db.entryExtras := WithoutOwner(db.entryExtras, id);
      InsertEntryExtras(id, cat, xs);
    }

    method InsertEntryFlavors(id: int, xs: seq<EntryFlavor>)
      modifies db
      ensures db.State() == old(db.State()).(entryFlavors := old(db.entryFlavors) + Owned(id, xs))
    {
      var i := 0;
      while i < |xs|
        invariant 0 <= i <= |xs|
        invariant db.State() == old(db.State()).(entryFlavors := old(db.entryFlavors) + Owned(id, xs[..i]))
      {
        assert Owned(id, xs[..i + 1]) == Owned(id, xs[..i]) + [Child(id, xs[i])];
        db.entryFlavors := db.entryFlavors + [Child(id, xs[i])];
        i := i + 1;
      }
      assert xs[..|xs|] == xs;
    }

    method UpdateEntryFlavors(id: int, xs: seq<EntryFlavor>)
      modifies db
      ensures db.State() == old(db.State()).(entryFlavors := Replace(old(db.entryFlavors), id, xs))
    {
      if xs == [] {
        return;
      }
      db.entryFlavors := WithoutOwner(db.entryFlavors, id);
      InsertEntryFlavors(id, xs);
    }

    method InsertEntryPhotos(id: int, xs: seq<Photo>)
      modifies db
      ensures db.State() == old(db.State()).(photos := old(db.photos) + Owned(id, xs))
    {
      var i := 0;
      while i < |xs|
        invariant 0 <= i <= |xs|
        invariant db.State() == old(db.State()).(photos := old(db.photos) + Owned(id, xs[..i]))
      {
        assert Owned(id, xs[..i + 1]) == Owned(id, xs[..i]) + [Child(id, xs[i])];
        db.photos := db.photos + [Child(id, xs[i])];
        i := i + 1;
      }
      assert xs[..|xs|] == xs;
    }

    method UpdateEntryPhotos(id: int, xs: seq<Photo>)
      modifies db
      ensures db.State() == old(db.State()).(photos := Replace(old(db.photos), id, xs))
    {
      if xs == [] {
        return;
      }
      db.photos := WithoutOwner(db.photos, id);
      InsertEntryPhotos(id, xs);
    }

    // ----- pushing a category -----

    /** `pushCat`. */
    method PushCat(c: CatRecord, now: int) returns (r: Result<bool, Failure>, id: int)
      modifies db
      ensures var p := Records.PushCat(old(db.State()), userId, clientId, c, now);
              if p.Err? then r == Err(p.error) && id == c.id && db.State() == old(db.State())
              else r == Ok(p.value.ok) && id == p.value.id && db.State() == p.value.t
    {
      if userId == 0 {
        return Err(Unauthorized), c.id;
      }
      var found := FindCat(db.categories, Some(c.uuid), userId);
      id := if found.Some? then found.value.id else c.id;
      var success;
      if c.deleted {
        success := DeleteCat(c, id, now);
      } else if id == 0 {
        success, id := InsertCat(c, now);
      } else {
        success := UpdateCat(c, id, now);
      }
      if success {
        Changed();
      }
      r := Ok(success);
    }

    /** `insertCat`; its tombstone cleanup binds an undefined variable, that is NULL. */
    method InsertCat(c: CatRecord, now: int) returns (ok: bool, id: int)
      modifies db
      ensures var p := Records.InsertCat(old(db.State()), userId, clientId, c, now);
              ok == p.ok && id == p.id && db.State() == p.t
    {
      id := db.nextCat;
      db.categories := db.categories + [CatRow(id, c.uuid, userId, c.name, now, clientId)];
      db.nextCat := id + 1;
      if id != 0 {
        InsertCatExtras(id, c.extras);
        InsertCatFlavors(id, c.flavors);
      }
      db.deleted := Records.ClearTombstones(db.deleted, userId, None);
      ok := id > 0;
    }

    /** `updateCat`. */
    method UpdateCat(c: CatRecord, id: int, now: int) returns (ok: bool)
      modifies db
      ensures var p := Records.UpdateCat(old(db.State()), userId, clientId, c, id, now);
              ok == p.ok && db.State() == p.t
    {
      var before := db.categories;
      db.categories := Records.UpdateCatRows(db.categories, userId, id, c.name, clientId, now, c.age);
      if db.categories == before {
        return false;
      }
      UpdateCatExtras(id, c.extras);
      UpdateCatFlavors(id, c.flavors);
      return true;
    }

    /** `deleteCat`. */
    method DeleteCat(c: CatRecord, id: int, now: int) returns (ok: bool)
      modifies db
      ensures var p := Records.DeleteCat(old(db.State()), userId, clientId, c, id, now);
              ok == p.ok && db.State() == p.t
    {
      var rows := Records.DeleteCatRows(db.categories, userId, id, now, c.age);
      if |rows| == |db.categories| {
        return false;
      }
      db.categories := rows;
      db.deleted := db.deleted + [Tombstone(userId, CatKind, None, c.uuid, now, clientId)];
      return true;
    }

    /** `insertCatExtras`: one `INSERT ... ON DUPLICATE KEY UPDATE` per extra. */
    method InsertCatExtras(cat: int, xs: seq<CatExtra>)
      modifies db
      ensures var x := Records.UpsertExtras(Records.ExtraTable(old(db.extras), old(db.nextExtra)), cat, xs);
              db.State() == old(db.State()).(extras := x.rows, nextExtra := x.next)
    {
      var i := 0;
      while i < |xs|
        invariant 0 <= i <= |xs|
        invariant var x := Records.UpsertExtras(Records.ExtraTable(old(db.extras), old(db.nextExtra)), cat, xs[..i]);
                  db.State() == old(db.State()).(extras := x.rows, nextExtra := x.next)
      {
        assert xs[..i + 1][..i] == xs[..i];
        var x := Records.UpsertExtra(Records.ExtraTable(db.extras, db.nextExtra), cat, xs[i]);
        db.extras := x.rows;
        db.nextExtra := x.next;
        i := i + 1;
      }
      assert xs[..|xs|] == xs;
    }

    /** `updateCatExtras`: for a non-empty list, the incoming uuids are collected, every
        fetched extra of the category whose uuid is not among them is deleted by id, and the
        list is upserted. */
    method UpdateCatExtras(cat: int, xs: seq<CatExtra>)
      modifies db
      ensures var x := if xs == [] then Records.ExtraTable(old(db.extras), old(db.nextExtra))
                       else Records.ReplaceExtras(Records.ExtraTable(old(db.extras), old(db.nextExtra)), cat, xs);
              db.State() == old(db.State()).(extras := x.rows, nextExtra := x.next)
    {
      if xs == [] {
        return;
      }
      var keep: set<Uuid> := {};
      var i := 0;
      while i < |xs|
        invariant 0 <= i <= |xs|
        invariant keep == Records.UuidSet(xs[..i])
        invariant db.State() == old(db.State())
      {
        ExtrasProperties.UuidSetPrefix(xs, i);
        keep := keep + {xs[i].uuid};
        i := i + 1;
      }
      assert xs[..|xs|] == xs;
      var fetched := Records.ExtrasOf(db.extras, cat);
      ExtrasProperties.WithoutNoIds(db.extras);
      assert Records.StaleIds(fetched[..0], keep) == {};
      var j := 0;
      while j < |fetched|
        invariant 0 <= j <= |fetched|
        invariant db.State() == old(db.State()).(extras := Records.WithoutIds(old(db.extras), Records.StaleIds(fetched[..j], keep)))
      {
        ExtrasProperties.StaleIdsPrefix(fetched, keep, j);
        if fetched[j].uuid !in keep {
          ExtrasProperties.WithoutIdsTwice(old(db.extras), Records.StaleIds(fetched[..j], keep), {fetched[j].id});
          db.extras := Records.WithoutIds(db.extras, {fetched[j].id});
          assert db.extras == Records.WithoutIds(old(db.extras), Records.StaleIds(fetched[..j + 1], keep));
        } else {
          assert Records.StaleIds(fetched[..j + 1], keep) == Records.StaleIds(fetched[..j], keep);
        }
        j := j + 1;
      }
      assert fetched[..|fetched|] == fetched;
      InsertCatExtras(cat, xs);
    }

    method InsertCatFlavors(cat: int, xs: seq<CatFlavor>)
      modifies db
      ensures db.State() == old(db.State()).(flavors := old(db.flavors) + Owned(cat, xs))
    {
      var i := 0;
      while i < |xs|
        invariant 0 <= i <= |xs|
        invariant db.State() == old(db.State()).(flavors := old(db.flavors) + Owned(cat, xs[..i]))
      {
        assert Owned(cat, xs[..i + 1]) == Owned(cat, xs[..i]) + [Child(cat, xs[i])];
        db.flavors := db.flavors + [Child(cat, xs[i])];
        i := i + 1;
      }
      assert xs[..|xs|] == xs;
    }

    method UpdateCatFlavors(cat: int, xs: seq<CatFlavor>)
      modifies db
      ensures db.State() == old(db.State()).(flavors := Replace(old(db.flavors), cat, xs))
    {
      if xs == [] {
        return;
      }
      db.flavors := WithoutOwner(db.flavors, cat);
      InsertCatFlavors(cat, xs);
    }
  }
}
