/** The older database helper as a class: a connection to the older database, the current user
    and client, and one method per helper function. Each method is proved to leave the tables
    and return what the functions of `Legacy` say. */
module LegacyHelper {
  import opened Wrappers
  import opened Schema
  import opened ChildTables
  import Leases
  import Delta
  import Records
  import ExtrasProperties
  import Views
  import Legacy

  /** The older database: one field per table and one per auto-increment counter. */
  class LegacyDatabase {
    var users: seq<Legacy.LegacyUserRow>
    var clients: seq<ClientRow>
    var categories: seq<Legacy.LegacyCatRow>
    var entries: seq<Legacy.LegacyEntryRow>
    var deleted: seq<Tombstone>
    var extras: seq<ExtraRow>
    var flavors: seq<Child<CatFlavor>>
    var entryExtras: seq<Child<EntryExtraValue>>
    var entryFlavors: seq<Child<EntryFlavor>>
    var photos: seq<Child<Photo>>
    var nextUser: int
    var nextCat: int
    var nextEntry: int
    var nextExtra: int

    function State(): Legacy.LegacyTables
      reads this
    {
      Legacy.LegacyTables(users, clients, categories, entries, deleted, extras, flavors, entryExtras, entryFlavors, photos,
                          nextUser, nextCat, nextEntry, nextExtra)
    }

    /** Empty tables; every auto-increment counter starts at 1. */
    constructor ()
      ensures State() == Legacy.LegacyTables([], [], [], [], [], [], [], [], [], [], 1, 1, 1, 1)
    {
      users, clients, categories, entries, deleted := [], [], [], [], [];
      extras, flavors, entryExtras, entryFlavors, photos := [], [], [], [], [];
      nextUser, nextCat, nextEntry, nextExtra := 1, 1, 1, 1;
    }
  }

  class LegacyDatabaseHelper {
    const db: LegacyDatabase
    /** The user requests are made for; 0 while none is set. */
    var userId: int
    /** The client requests are made from. */
    var clientId: int

    constructor (db: LegacyDatabase)
      ensures this.db == db && userId == 0 && clientId == 0
    {
      this.db := db;
      userId, clientId := 0, 0;
    }

    // ----- user and client -----

    /** `setUser`: the user of the authenticated uid and address. */
    method SetUser(uid: string, email: string)
      modifies this, db
      ensures var r := Legacy.GetUserId(old(db.users), old(db.nextUser), uid, email);
              userId == r.id && clientId == old(clientId)
              && db.State() == old(db.State()).(users := r.users, nextUser := r.next)
    {
      var id := GetUserId(uid, email);
      userId := id;
    }

    /** `getUserId`: the SELECT by uid, then the insert that falls back to an update of the row
        holding the address. */
    method GetUserId(uid: string, email: string) returns (id: int)
      modifies db
      ensures var r := Legacy.GetUserId(old(db.users), old(db.nextUser), uid, email);
              id == r.id && db.State() == old(db.State()).(users := r.users, nextUser := r.next)
    {
      var found := Legacy.UidOf(db.users, uid);
      if found.Some? {
        return found.value;
      }
      var dup := Legacy.EmailRow(db.users, email);
      if dup.Some? {
        id := db.users[dup.value].id;
        db.users := db.users[dup.value := db.users[dup.value].(uid := uid)];
        return;
      }
      id := db.nextUser;
      db.users := db.users + [Legacy.LegacyUserRow(id, uid, email)];
      db.nextUser := id + 1;
    }

    /** `setClientId`: the id is stored without any check. */
    method SetClientId(id: int)
      modifies this
      ensures clientId == id && userId == old(userId)
    {
      clientId := id;
    }

    // ----- the client registry -----

    /** `unregisterClient`: the number of the user's rows with that id it deleted. */
    method UnregisterClient(id: int) returns (r: Result<int, Failure>)
      modifies db
      ensures userId == 0 ==> r == Err(Unauthorized) && db.State() == old(db.State())
      ensures userId != 0 ==>
                r == Ok(Legacy.OwnedCount(old(db.clients), id, userId))
                && db.State() == old(db.State()).(clients := Leases.WithoutClient(old(db.clients), id, userId))
    {
      if userId == 0 {
        return Err(Unauthorized);
      }
      var before := db.clients;
      db.clients := Leases.WithoutClient(db.clients, id, userId);
      Legacy.UnregisterCounts(before, id, userId);
      r := Ok(|before| - |db.clients|);
    }

    /** `setFcmId`: the update runs, and false is returned whatever it did. */
    method SetFcmId(id: int, fcmId: string) returns (ok: bool)
      modifies db
      ensures !ok && db.State() == old(db.State()).(clients := Leases.SetFcmId(old(db.clients), id, fcmId).rows)
    {
      db.clients := Leases.SetFcmId(db.clients, id, fcmId).rows;
      ok := false;
    }

    // ----- the queries -----

    /** `getEntryIds`: the fetch loop over the user's entries. */
    method GetEntryIds() returns (r: Result<map<Uuid, int>, Failure>)
      ensures userId == 0 ==> r == Err(Unauthorized)
      ensures userId != 0 ==> r == Ok(Legacy.EntryIds(db.entries, userId))
    {
      if userId == 0 {
        return Err(Unauthorized);
      }
      var rows := db.entries;
      var list: map<Uuid, int> := map[];
      var i := 0;
      while i < |rows|
        invariant 0 <= i <= |rows|
        invariant list == Legacy.EntryIds(rows[..i], userId)
      {
        assert rows[..i + 1][..i] == rows[..i];
        if rows[i].user == userId {
          list := list[rows[i].uuid := rows[i].id];
        }
        i := i + 1;
      }
      assert rows[..|rows|] == rows;
      return Ok(list);
    }

    /** The first loop of `getUpdatedEntries` and `getUpdatedCats`. */
    method GetGone<V>(w: Option<int>) returns (records: seq<Legacy.Update<V>>)
      ensures records == Legacy.GoneRecords<V>(db.deleted, userId, clientId, w)
    {
      var rows := db.deleted;
      records := [];
      var i := 0;
      while i < |rows|
        invariant 0 <= i <= |rows|
        invariant records == Legacy.GoneRecords<V>(rows[..i], userId, clientId, w)
      {
        assert rows[..i + 1][..i] == rows[..i];
        if Delta.Visible(Legacy.TombstoneStamp(rows[i]), userId, clientId, w) {
          records := records + [Legacy.Gone(rows[i].uuid)];
        }
        i := i + 1;
      }
      assert rows[..|rows|] == rows;
    }

    /** `getUpdatedEntries`: the deleted records, then the entries with their child rows. */
    method GetUpdatedEntries() returns (r: Result<seq<Legacy.Update<Legacy.LegacyEntryView>>, Failure>)
      ensures r == Legacy.UpdatedEntries(db.State(), userId, clientId)
    {
      if userId == 0 {
        return Err(Unauthorized);
      }
      var w := Delta.LastSyncOf(db.clients, clientId);
      var gone := GetGone<Legacy.LegacyEntryView>(w);
      var records := gone;
      var rows := db.entries;
      var i := 0;
      while i < |rows|
        invariant 0 <= i <= |rows|
        invariant records == gone + Legacy.ChangedEntries(db.State(), rows[..i], userId, clientId, w)
      {
        assert rows[..i + 1][..i] == rows[..i];
        var row := rows[i];
        if Delta.Visible(Legacy.EntryStamp(row), userId, clientId, w) {
          var extras := GetEntryExtras(row.id);
          var flavors := SelectOwned(db.entryFlavors, row.id);
          var photos := SelectOwned(db.photos, row.id);
          var v := Legacy.LegacyEntryView(row.id, row.uuid, row.cat, Legacy.CatUuidOf(db.categories, row.cat), row.fields,
                                   row.updated, row.shared, extras, flavors, photos);
          assert v == Legacy.EntryViewOf(db.State(), row);
          records := records + [Legacy.Changed(v)];
        }
        i := i + 1;
      }
      assert rows[..|rows|] == rows;
      return Ok(records);
    }

    /** `getEntryExtras`: the rows of the join, one definition at a time. */
    method GetEntryExtras(entry: int) returns (records: seq<EntryExtraView>)
      ensures records == Views.JoinExtras(db.extras, db.entryExtras, entry)
    {
      var rows := db.extras;
      records := [];
      var i := 0;
      while i < |rows|
        invariant 0 <= i <= |rows|
        invariant records == Views.JoinExtras(rows[..i], db.entryExtras, entry)
      {
        assert rows[..i + 1][..i] == rows[..i];
        records := records + Views.Matches(rows[i], db.entryExtras, entry);
        i := i + 1;
      }
      assert rows[..|rows|] == rows;
    }

    /** `getUpdatedCats`: the deleted records, then the categories with their child rows. */
    method GetUpdatedCats() returns (r: Result<seq<Legacy.Update<Legacy.LegacyCatView>>, Failure>)
      ensures r == Legacy.UpdatedCats(db.State(), userId, clientId)
    {
      if userId == 0 {
        return Err(Unauthorized);
      }
      var w := Delta.LastSyncOf(db.clients, clientId);
      var gone := GetGone<Legacy.LegacyCatView>(w);
      var records := gone;
      var rows := db.categories;
      var i := 0;
      while i < |rows|
        invariant 0 <= i <= |rows|
        invariant records == gone + Legacy.ChangedCats(db.State(), rows[..i], userId, clientId, w)
      {
        assert rows[..i + 1][..i] == rows[..i];
        var row := rows[i];
        if Delta.Visible(Legacy.CatStamp(row), userId, clientId, w) {
          var extras := GetCatExtras(row.id);
          var flavors := SelectOwned(db.flavors, row.id);
          records := records + [Legacy.Changed(Legacy.LegacyCatView(row.id, row.uuid, row.name, row.updated, extras, flavors))];
        }
        i := i + 1;
      }
      assert rows[..|rows|] == rows;
      return Ok(records);
    }

    /** `getCatExtras`. */
    method GetCatExtras(cat: int) returns (records: seq<CatExtra>)
      ensures records == Views.CatExtrasOf(db.extras, cat)
    {
      var rows := db.extras;
      records := [];
      var i := 0;
      while i < |rows|
        invariant 0 <= i <= |rows|
        invariant records == Views.CatExtrasOf(rows[..i], cat)
      {
        assert rows[..i + 1][..i] == rows[..i];
        if rows[i].cat == cat {
          records := records + [Views.CatExtraOf(rows[i])];
        }
        i := i + 1;
      }
      assert rows[..|rows|] == rows;
    }

    // ----- pushing an entry -----

    /** `pushEntry`: Unauthorized without a user; otherwise the lookup and the branch. */
    method PushEntry(e: Legacy.LegacyEntryRecord, now: int) returns (r: Result<bool, Failure>)
      modifies db
      ensures var p := Legacy.PushEntry(old(db.State()), userId, clientId, e, now);
              if p.Err? then r == Err(p.error) && db.State() == old(db.State())
              else r == Ok(p.value.ok) && db.State() == p.value.t
    {
      if userId == 0 {
        return Err(Unauthorized);
      }
      var found := Legacy.FindEntry(db.entries, e.uuid, userId);
      var id := if found.Some? then found.value.id else e.id;
      var cat := if found.Some? then Some(found.value.cat) else e.cat;
      var success := false;
      if e.deleted {
        success := DeleteEntry(e, id, cat, now);
      } else if id == 0 {
        var c := Legacy.FindCat(db.categories, e.catUuid, userId);
        if c.Some? {
          success := InsertEntry(e, c.value.id, now);
        }
      } else {
        success := UpdateEntry(e, id, cat, now);
      }
      r := Ok(success);
    }

    /** `insertEntry`. */
    method InsertEntry(e: Legacy.LegacyEntryRecord, cat: int, now: int) returns (ok: bool)
      modifies db
      ensures var p := Legacy.InsertEntry(old(db.State()), userId, clientId, e, cat, now);
              ok == p.ok && db.State() == p.t
    {
      var id := db.nextEntry;
      db.entries := db.entries + [Legacy.LegacyEntryRow(id, e.uuid, userId, cat, e.fields, e.updated, e.shared, now, clientId)];
      db.nextEntry := id + 1;
      if id != 0 {
        InsertEntryExtras(id, Some(cat), e.extras);
        InsertEntryFlavors(id, e.flavors);
        InsertEntryPhotos(id, e.photos);
      }
      db.deleted := Records.WithoutTombstones(db.deleted, userId, e.uuid);
      ok := id > 0;
    }

    /** `updateEntry`: the conditional UPDATE; the child lists only when it changed a row. */
    method UpdateEntry(e: Legacy.LegacyEntryRecord, id: int, cat: Option<int>, now: int) returns (ok: bool)
      modifies db
      ensures var p := Legacy.UpdateEntry(old(db.State()), userId, clientId, e, id, cat, now);
              ok == p.ok && db.State() == p.t
    {
      var before := db.entries;
      db.entries := Legacy.UpdateEntryRows(db.entries, userId, id, e, clientId, now);
      if db.entries == before {
        return false;
      }
      UpdateEntryExtras(id, cat, e.extras);
      UpdateEntryFlavors(id, e.flavors);
      UpdateEntryPhotos(id, e.photos);
      return true;
    }

    /** `deleteEntry`: the conditional DELETE; one tombstone when it removed a row. */
    method DeleteEntry(e: Legacy.LegacyEntryRecord, id: int, cat: Option<int>, now: int) returns (ok: bool)
      modifies db
      ensures var p := Legacy.DeleteEntry(old(db.State()), userId, clientId, e, id, cat, now);
              ok == p.ok && db.State() == p.t
    {
      var rows := Legacy.DeleteEntryRows(db.entries, userId, id, e.updated);
      if |rows| == |db.entries| {
        return false;
      }
      db.entries := rows;
      db.deleted := db.deleted + [Tombstone(userId, EntryKind, cat, e.uuid, now, clientId)];
      return true;
    }

    /** `insertEntryExtras`: one INSERT per value, its definition id found by a subquery. */
    method InsertEntryExtras(id: int, cat: Option<int>, xs: seq<EntryExtra>)
      modifies db
      ensures db.State() == old(db.State()).(entryExtras := old(db.entryExtras) + Owned(id, Records.ExtraValues(old(db.extras), cat, xs)))
    {
      ghost var values := Records.ExtraValues(db.extras, cat, xs);
      var i := 0;
      while i < |xs|
        invariant 0 <= i <= |xs|
        invariant db.State() == old(db.State()).(entryExtras := old(db.entryExtras) + Owned(id, values[..i]))
      {
        assert Owned(id, values[..i + 1]) == Owned(id, values[..i]) + [Child(id, values[i])];
        db.entryExtras := db.entryExtras + [Child(id, EntryExtraValue(ExtraIdOf(db.extras, cat, xs[i].uuid), xs[i].value))];
        i := i + 1;
      }
      assert values[..|xs|] == values;
    }

    /** `updateEntryExtras`: nothing for an empty list; otherwise delete, then insert. */
    method UpdateEntryExtras(id: int, cat: Option<int>, xs: seq<EntryExtra>)
      modifies db
      ensures db.State() == old(db.State()).(entryExtras := Replace(old(db.entryExtras), id, Records.ExtraValues(old(db.extras), cat, xs)))
    {
      if xs == [] {
        return;
      }
      db.entryExtras := WithoutOwner(db.entryExtras, id);
      InsertEntryExtras(id, cat, xs);
    }

    method InsertEntryFlavors(id: int, xs: seq<EntryFlavor>)
      modifies db
      ensures db.State() == old(db.State()).(entryFlavors := old(db.entryFlavors) + Owned(id, xs))
    {
      var i := 0;
      while i < |xs|
        invariant 0 <= i <= |xs|
        invariant db.State() == old(db.State()).(entryFlavors := old(db.entryFlavors) + Owned(id, xs[..i]))
      {
        assert Owned(id, xs[..i + 1]) == Owned(id, xs[..i]) + [Child(id, xs[i])];
        db.entryFlavors := db.entryFlavors + [Child(id, xs[i])];
        i := i + 1;
      }
      assert xs[..|xs|] == xs;
    }

    method UpdateEntryFlavors(id: int, xs: seq<EntryFlavor>)
      modifies db
      ensures db.State() == old(db.State()).(entryFlavors := Replace(old(db.entryFlavors), id, xs))
    {
      if xs == [] {
        return;
      }
      db.entryFlavors := WithoutOwner(db.entryFlavors, id);
      InsertEntryFlavors(id, xs);
    }

    method InsertEntryPhotos(id: int, xs: seq<Photo>)
      modifies db
      ensures db.State() == old(db.State()).(photos := old(db.photos) + Owned(id, xs))
    {
      var i := 0;
      while i < |xs|
        invariant 0 <= i <= |xs|
        invariant db.State() == old(db.State()).(photos := old(db.photos) + Owned(id, xs[..i]))
      {
        assert Owned(id, xs[..i + 1]) == Owned(id, xs[..i]) + [Child(id, xs[i])];
        db.photos := db.photos + [Child(id, xs[i])];
        i := i + 1;
      }
      assert xs[..|xs|] == xs;
    }

    method UpdateEntryPhotos(id: int, xs: seq<Photo>)
      modifies db
      ensures db.State() == old(db.State()).(photos := Replace(old(db.photos), id, xs))
    {
      if xs == [] {
        return;
      }
      db.photos := WithoutOwner(db.photos, id);
      InsertEntryPhotos(id, xs);
    }

    // ----- pushing a category -----

    /** `pushCat`. */
    method PushCat(c: Legacy.LegacyCatRecord, now: int) returns (r: Result<bool, Failure>)
      modifies db
      ensures var p := Legacy.PushCat(old(db.State()), userId, clientId, c, now);
              if p.Err? then r == Err(p.error) && db.State() == old(db.State())
              else r == Ok(p.value.ok) && db.State() == p.value.t
    {
      if userId == 0 {
        return Err(Unauthorized);
      }
      var found := Legacy.FindCat(db.categories, Some(c.uuid), userId);
      var id := if found.Some? then found.value.id else c.id;
      var success;
      if c.deleted {
        success := DeleteCat(c, id, now);
      } else if id == 0 {
        success := InsertCat(c, now);
      } else {
        success := UpdateCat(c, id, now);
      }
      r := Ok(success);
    }

    /** `insertCat`; its tombstone cleanup binds an undefined variable, that is NULL. */
    method InsertCat(c: Legacy.LegacyCatRecord, now: int) returns (ok: bool)
      modifies db
      ensures var p := Legacy.InsertCat(old(db.State()), userId, clientId, c, now);
              ok == p.ok && db.State() == p.t
    {
      var id := db.nextCat;
      db.categories := db.categories + [Legacy.LegacyCatRow(id, c.uuid, userId, c.name, c.updated, now, clientId)];
      db.nextCat := id + 1;
      if id != 0 {
        InsertCatExtras(id, c.extras);
        InsertCatFlavors(id, c.flavors);
      }
      db.deleted := Records.ClearTombstones(db.deleted, userId, None);
      ok := id > 0;
    }

    /** `updateCat`. */
    method UpdateCat(c: Legacy.LegacyCatRecord, id: int, now: int) returns (ok: bool)
      modifies db
      ensures var p := Legacy.UpdateCat(old(db.State()), userId, clientId, c, id, now);
              ok == p.ok && db.State() == p.t
    {
      var before := db.categories;
      db.categories := Legacy.UpdateCatRows(db.categories, userId, id, c, clientId, now);
      if db.categories == before {
        return false;
      }
      UpdateCatExtras(id, c.extras);
      UpdateCatFlavors(id, c.flavors);
      return true;
    }

    /** `deleteCat`. */
    method DeleteCat(c: Legacy.LegacyCatRecord, id: int, now: int) returns (ok: bool)
      modifies db
      ensures var p := Legacy.DeleteCat(old(db.State()), userId, clientId, c, id, now);
              ok == p.ok && db.State() == p.t
    {
      var rows := Legacy.DeleteCatRows(db.categories, userId, id, c.updated);
      if |rows| == |db.categories| {
        return false;
      }
      db.categories := rows;
      db.deleted := db.deleted + [Tombstone(userId, CatKind, None, c.uuid, now, clientId)];
      return true;
    }

    /** `insertCatExtras`: one `INSERT ... ON DUPLICATE KEY UPDATE` per extra. */
    method InsertCatExtras(cat: int, xs: seq<CatExtra>)
      modifies db
      ensures var x := Records.UpsertExtras(Records.ExtraTable(old(db.extras), old(db.nextExtra)), cat, xs);
              db.State() == old(db.State()).(extras := x.rows, nextExtra := x.next)
    {
      var i := 0;
      while i < |xs|
        invariant 0 <= i <= |xs|
        invariant var x := Records.UpsertExtras(Records.ExtraTable(old(db.extras), old(db.nextExtra)), cat, xs[..i]);
                  db.State() == old(db.State()).(extras := x.rows, nextExtra := x.next)
      {
        assert xs[..i + 1][..i] == xs[..i];
        var x := Records.UpsertExtra(Records.ExtraTable(db.extras, db.nextExtra), cat, xs[i]);
        db.extras := x.rows;
        db.nextExtra := x.next;
        i := i + 1;
      }
      assert xs[..|xs|] == xs;
    }

    /** `updateCatExtras`: for a non-empty list, every fetched extra of the category whose uuid
        is not among the incoming ones is deleted by id, and the list is upserted. */
    method UpdateCatExtras(cat: int, xs: seq<CatExtra>)
      modifies db
      ensures var x := if xs == [] then Records.ExtraTable(old(db.extras), old(db.nextExtra))
                       else Records.ReplaceExtras(Records.ExtraTable(old(db.extras), old(db.nextExtra)), cat, xs);
              db.State() == old(db.State()).(extras := x.rows, nextExtra := x.next)
    {
      if xs == [] {
        return;
      }
      var keep: set<Uuid> := {};
      var i := 0;
      while i < |xs|
        invariant 0 <= i <= |xs|
        invariant keep == Records.UuidSet(xs[..i])
        invariant db.State() == old(db.State())
      {
        ExtrasProperties.UuidSetPrefix(xs, i);
        keep := keep + {xs[i].uuid};
        i := i + 1;
      }
      assert xs[..|xs|] == xs;
      var fetched := Records.ExtrasOf(db.extras, cat);
      ExtrasProperties.WithoutNoIds(db.extras);
      assert Records.StaleIds(fetched[..0], keep) == {};
      var j := 0;
      while j < |fetched|
        invariant 0 <= j <= |fetched|
        invariant db.State() == old(db.State()).(extras := Records.WithoutIds(old(db.extras), Records.StaleIds(fetched[..j], keep)))
      {
        ExtrasProperties.StaleIdsPrefix(fetched, keep, j);
        if fetched[j].uuid !in keep {
          ExtrasProperties.WithoutIdsTwice(old(db.extras), Records.StaleIds(fetched[..j], keep), {fetched[j].id});
          db.extras := Records.WithoutIds(db.extras, {fetched[j].id});
          assert db.extras == Records.WithoutIds(old(db.extras), Records.StaleIds(fetched[..j + 1], keep));
        } else {
          assert Records.StaleIds(fetched[..j + 1], keep) == Records.StaleIds(fetched[..j], keep);
        }
        j := j + 1;
      }
      assert fetched[..|fetched|] == fetched;
      InsertCatExtras(cat, xs);
    }

    method InsertCatFlavors(cat: int, xs: seq<CatFlavor>)
      modifies db
      ensures db.State() == old(db.State()).(flavors := old(db.flavors) + Owned(cat, xs))
    {
      var i := 0;
      while i < |xs|
        invariant 0 <= i <= |xs|
        invariant db.State() == old(db.State()).(flavors := old(db.flavors) + Owned(cat, xs[..i]))
      {
        assert Owned(cat, xs[..i + 1]) == Owned(cat, xs[..i]) + [Child(cat, xs[i])];
        db.flavors := db.flavors + [Child(cat, xs[i])];
        i := i + 1;
      }
      assert xs[..|xs|] == xs;
    }

    method UpdateCatFlavors(cat: int, xs: seq<CatFlavor>)
      modifies db
      ensures db.State() == old(db.State()).(flavors := Replace(old(db.flavors), cat, xs))
    {
      if xs == [] {
        return;
      }
      db.flavors := WithoutOwner(db.flavors, cat);
      InsertCatFlavors(cat, xs);
    }
  }
}
