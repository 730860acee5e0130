/** What `getEntry` and `getCat` return: the stored row looked up by uuid, joined with its child
    rows, and the round trips from a push to the next fetch. */
module Views {
  import opened Wrappers
  import opened Schema
  import opened ChildTables
  import Records
  import Leases

  // ----- the child SELECTs -----

  /** The rows of `extras a LEFT JOIN entries_extras b ON a.id = b.extra WHERE b.entry = ?` one
      definition `a` contributes: one per stored value that points at it. */
  function Matches(a: ExtraRow, values: seq<Child<EntryExtraValue>>, entry: int): seq<EntryExtraView>
  {
    if values == [] then []
    else
      (if values[0].owner == entry && values[0].data.extra == Some(a.id)
       then [EntryExtraView(a.uuid, a.name, values[0].data.value)] else [])
      + Matches(a, values[1..], entry)
  }

  /** `getEntryExtras`: the join, definitions in table order. */
  function JoinExtras(extras: seq<ExtraRow>, values: seq<Child<EntryExtraValue>>, entry: int): seq<EntryExtraView>
  {
    if extras == [] then []
    else JoinExtras(extras[..|extras| - 1], values, entry) + Matches(extras[|extras| - 1], values, entry)
  }

  /** The record `getCatExtras` builds from one row of `extras`. */
  function CatExtraOf(r: ExtraRow): CatExtra
  {
    CatExtra(r.uuid, r.name, r.pos, r.deleted)
  }

  /** `getCatExtras`: `SELECT uuid, name, pos, deleted FROM extras WHERE cat = ?`. */
  function CatExtrasOf(extras: seq<ExtraRow>, cat: int): seq<CatExtra>
  {
    if extras == [] then []
    else
      var last := extras[|extras| - 1];
      CatExtrasOf(extras[..|extras| - 1], cat) + (if last.cat == cat then [CatExtraOf(last)] else [])
  }

  // ----- the fetches -----

  /** `getEntry` for a user that is set: the first row with the uuid, its category's uuid, its
      age, and its children; `null` when there is no such row. */
  function EntryViewOf(t: Tables, user: int, uuid: Uuid, now: int): Option<EntryView>
  {
    match FindEntry(t.entries, uuid, user)
    case None => None
    case Some(r) =>
      Some(EntryView(r.id, r.uuid, r.cat, CatUuidOf(t.categories, r.cat), r.fields, Age(r.syncTime, now),
                     JoinExtras(t.extras, t.entryExtras, r.id),
                     OwnedItems(t.entryFlavors, r.id), OwnedItems(t.photos, r.id)))
  }

  /** `getCat` for a user that is set. */
  function CatViewOf(t: Tables, user: int, uuid: Uuid, now: int): Option<CatView>
  {
    match FindCat(t.categories, Some(uuid), user)
    case None => None
    case Some(r) =>
      Some(CatView(r.id, r.uuid, r.name, Age(r.syncTime, now), CatExtrasOf(t.extras, r.id), OwnedItems(t.flavors, r.id)))
  }

  // ----- what the joins contain -----

  lemma {:induction false} MatchesMembers(a: ExtraRow, values: seq<Child<EntryExtraValue>>, entry: int, v: EntryExtraView)
    ensures v in Matches(a, values, entry)
        <==> exists j :: 0 <= j < |values| && values[j].owner == entry && values[j].data.extra == Some(a.id)
                         && v == EntryExtraView(a.uuid, a.name, values[j].data.value)
  {
    if values != [] {
      MatchesMembers(a, values[1..], entry, v);
      assert forall j :: 1 <= j < |values| ==> values[j] == values[1..][j - 1];
    }
  }

  /** A fetched extra value is a stored value of the entry joined with the definition whose id
      it holds; a value stored with a NULL definition id is never fetched. */
  /** Row `i` of `extras` joined with value `j` yields `v`. */
  predicate Joined(extras: seq<ExtraRow>, values: seq<Child<EntryExtraValue>>, entry: int, v: EntryExtraView, i: int, j: int)
  {
    0 <= i < |extras| && 0 <= j < |values| && values[j].owner == entry
    && values[j].data.extra == Some(extras[i].id)
    && v == EntryExtraView(extras[i].uuid, extras[i].name, values[j].data.value)
  }

  lemma {:induction false} JoinExtrasMembers(extras: seq<ExtraRow>, values: seq<Child<EntryExtraValue>>, entry: int, v: EntryExtraView)
    ensures v in JoinExtras(extras, values, entry) <==> exists i, j :: Joined(extras, values, entry, v, i, j)
  {
    if extras != [] {
      var front := extras[..|extras| - 1];
      var last := extras[|extras| - 1];
      MatchesMembers(last, values, entry, v);
      JoinExtrasMembers(front, values, entry, v);
      if v in JoinExtras(front, values, entry) {
        var i, j :| Joined(front, values, entry, v, i, j);
        assert front[i] == extras[i];
        assert Joined(extras, values, entry, v, i, j);
      } else if v in Matches(last, values, entry) {
        var j :| 0 <= j < |values| && values[j].owner == entry && values[j].data.extra == Some(last.id)
                 && v == EntryExtraView(last.uuid, last.name, values[j].data.value);
        assert Joined(extras, values, entry, v, |extras| - 1, j);
      }
      if exists i, j :: Joined(extras, values, entry, v, i, j) {
        var i, j :| Joined(extras, values, entry, v, i, j);
        if i < |front| {
          assert front[i] == extras[i];
          assert Joined(front, values, entry, v, i, j);
        }
      }
    }
  }

  /** A fetched category extra is exactly a stored definition of the category. */
  lemma {:induction false} CatExtrasOfMembers(extras: seq<ExtraRow>, cat: int, x: CatExtra)
    ensures x in CatExtrasOf(extras, cat)
        <==> exists i :: 0 <= i < |extras| && extras[i].cat == cat && x == CatExtraOf(extras[i])
  {
    if extras != [] {
      var front := extras[..|extras| - 1];
      CatExtrasOfMembers(front, cat, x);
      assert forall i :: 0 <= i < |front| ==> front[i] == extras[i];
    }
  }

  // ----- lookups after a write -----

  lemma FindEntryAppend(rows: seq<EntryRow>, row: EntryRow, uuid: Uuid, user: int)
    requires EntryKey(row, uuid, user)
    requires forall i :: 0 <= i < |rows| ==> !EntryKey(rows[i], uuid, user)
    ensures FindEntry(rows + [row], uuid, user) == Some(row)
  {
    var all := rows + [row];
    assert all[|rows|] == row;
    var i :| 0 <= i < |all| && all[i] == FindEntry(all, uuid, user).value && EntryKey(all[i], uuid, user);
  }

  lemma FindCatAppend(rows: seq<CatRow>, row: CatRow, uuid: Uuid, user: int)
    requires CatKey(row, uuid, user)
    requires forall i :: 0 <= i < |rows| ==> !CatKey(rows[i], uuid, user)
    ensures FindCat(rows + [row], Some(uuid), user) == Some(row)
  {
    var all := rows + [row];
    assert all[|rows|] == row;
    var i :| 0 <= i < |all| && all[i] == FindCat(all, Some(uuid), user).value && CatKey(all[i], uuid, user);
  }

  /** A statement that keeps every row's key finds, at the same position, the row the uuid
      lookup found before it. */
  lemma FindEntryKeysKept(rows: seq<EntryRow>, rows': seq<EntryRow>, uuid: Uuid, user: int, i: int)
    requires |rows'| == |rows|
    requires forall k :: 0 <= k < |rows| ==> (EntryKey(rows'[k], uuid, user) <==> EntryKey(rows[k], uuid, user))
    requires 0 <= i < |rows| && EntryKey(rows[i], uuid, user)
    requires forall j :: 0 <= j < i ==> !EntryKey(rows[j], uuid, user)
    ensures FindEntry(rows', uuid, user) == Some(rows'[i])
  {
    var i' :| 0 <= i' < |rows'| && rows'[i'] == FindEntry(rows', uuid, user).value && EntryKey(rows'[i'], uuid, user)
              && forall j :: 0 <= j < i' ==> !EntryKey(rows'[j], uuid, user);
  }

  lemma FindCatKeysKept(rows: seq<CatRow>, rows': seq<CatRow>, uuid: Uuid, user: int, i: int)
    requires |rows'| == |rows|
    requires forall k :: 0 <= k < |rows| ==> (CatKey(rows'[k], uuid, user) <==> CatKey(rows[k], uuid, user))
    requires 0 <= i < |rows| && CatKey(rows[i], uuid, user)
    requires forall j :: 0 <= j < i ==> !CatKey(rows[j], uuid, user)
    ensures FindCat(rows', Some(uuid), user) == Some(rows'[i])
  {
    var i' :| 0 <= i' < |rows'| && rows'[i'] == FindCat(rows', Some(uuid), user).value && CatKey(rows'[i'], uuid, user)
              && forall j :: 0 <= j < i' ==> !CatKey(rows'[j], uuid, user);
  }

  // ----- from a push to the next fetch -----

  /** A new entry whose category resolves is fetched back, at any later time, with the id it
      was given, that category, the pushed fields and child lists, and the time since the push
      as its age (when its fresh id had no stale children). */
  lemma EntryInsertThenGet(t: Tables, user: int, client: int, e: EntryRecord, now: int, later: int)
    requires user != 0 && !e.deleted && e.id == 0 && t.nextEntry > 0
    requires FindEntry(t.entries, e.uuid, user).None?
    requires FindCat(t.categories, e.catUuid, user).Some? && FindCat(t.categories, e.catUuid, user).value.id != 0
    requires OwnedItems(t.entryFlavors, t.nextEntry) == [] && OwnedItems(t.photos, t.nextEntry) == []
    ensures var p := Records.PushEntry(t, user, client, e, now);
            var v := EntryViewOf(p.value.t, user, e.uuid, later);
            p.Ok? && p.value.ok && p.value.id == t.nextEntry && v.Some?
            && v.value.id == t.nextEntry && v.value.cat == FindCat(t.categories, e.catUuid, user).value.id
            && v.value.fields == e.fields && v.value.age == later - now
            && v.value.flavors == e.flavors && v.value.photos == e.photos
  {
    var id := t.nextEntry;
    var cat := FindCat(t.categories, e.catUuid, user).value.id;
    var p := Records.PushEntry(t, user, client, e, now);
    var row := EntryRow(id, e.uuid, user, cat, e.fields, now, client);
    FindEntryAppend(t.entries, row, e.uuid, user);
    OwnedItemsAppend(t.entryFlavors, Owned(id, e.flavors), id);
    OwnedItemsOfOwned(id, e.flavors, id);
    OwnedItemsAppend(t.photos, Owned(id, e.photos), id);
    OwnedItemsOfOwned(id, e.photos, id);
  }

  /** Every extra value pushed with a new entry whose uuid names a definition of the entry's
      category is fetched back under that definition's uuid and name. */
  lemma EntryInsertExtrasThenGet(t: Tables, user: int, client: int, e: EntryRecord, now: int, later: int, k: int)
    requires user != 0 && !e.deleted && e.id == 0 && t.nextEntry > 0
    requires FindEntry(t.entries, e.uuid, user).None?
    requires FindCat(t.categories, e.catUuid, user).Some? && FindCat(t.categories, e.catUuid, user).value.id != 0
    requires 0 <= k < |e.extras|
    requires ExtraIdOf(t.extras, Some(FindCat(t.categories, e.catUuid, user).value.id), e.extras[k].uuid).Some?
    ensures var v := EntryViewOf(Records.PushEntry(t, user, client, e, now).value.t, user, e.uuid, later);
            v.Some? && exists x :: x in v.value.extras && x.uuid == e.extras[k].uuid && x.value == e.extras[k].value
  {
    var id := t.nextEntry;
    var cat := FindCat(t.categories, e.catUuid, user).value.id;
    var p := Records.PushEntry(t, user, client, e, now);
    var row := EntryRow(id, e.uuid, user, cat, e.fields, now, client);
    var values := t.entryExtras + Owned(id, Records.ExtraValues(t.extras, Some(cat), e.extras));
    assert p.value.t.entries == t.entries + [row];
    assert p.value.t.entryExtras == values && p.value.t.extras == t.extras;
    FindEntryAppend(t.entries, row, e.uuid, user);
    PushedExtraJoined(t.extras, t.entryExtras, id, cat, e.extras, k);
  }

  /** An appended extra value whose uuid names a definition of the category is joined with it. */
  lemma PushedExtraJoined(extras: seq<ExtraRow>, values: seq<Child<EntryExtraValue>>, id: int, cat: int, xs: seq<EntryExtra>, k: int)
    requires 0 <= k < |xs| && ExtraIdOf(extras, Some(cat), xs[k].uuid).Some?
    ensures exists x :: x in JoinExtras(extras, values + Owned(id, Records.ExtraValues(extras, Some(cat), xs)), id)
                        && x.uuid == xs[k].uuid && x.value == xs[k].value
  {
    var added := Owned(id, Records.ExtraValues(extras, Some(cat), xs));
    var all := values + added;
    var xid := ExtraIdOf(extras, Some(cat), xs[k].uuid).value;
    var i :| 0 <= i < |extras| && extras[i].id == xid && extras[i].cat == cat && extras[i].uuid == xs[k].uuid;
    assert all[|values| + k] == added[k];
    var x := EntryExtraView(extras[i].uuid, extras[i].name, xs[k].value);
    assert Joined(extras, all, id, x, i, |values| + k);
    JoinExtrasMembers(extras, all, id, x);
  }

  /** An accepted update of an existing entry is fetched back with the pushed fields, an age
      counted from the push, and each child list replaced when the push carried one. */
  lemma EntryUpdateThenGet(t: Tables, user: int, client: int, e: EntryRecord, now: int, later: int)
    requires user != 0 && !e.deleted && e.age >= 0
    requires FindEntry(t.entries, e.uuid, user).Some?
    requires FindEntry(t.entries, e.uuid, user).value.id != 0
    requires Records.Older(FindEntry(t.entries, e.uuid, user).value.syncTime, now, e.age)
    ensures var r := FindEntry(t.entries, e.uuid, user).value;
            var p := Records.PushEntry(t, user, client, e, now);
            var v := EntryViewOf(p.value.t, user, e.uuid, later);
            p.Ok? && p.value.ok && v.Some? && v.value.id == r.id
            && v.value.fields == e.fields && v.value.age == later - now
            && v.value.flavors == (if e.flavors == [] then OwnedItems(t.entryFlavors, r.id) else e.flavors)
            && v.value.photos == (if e.photos == [] then OwnedItems(t.photos, r.id) else e.photos)
  {
    var r := FindEntry(t.entries, e.uuid, user).value;
    var i :| 0 <= i < |t.entries| && t.entries[i] == r && EntryKey(r, e.uuid, user)
             && forall j :: 0 <= j < i ==> !EntryKey(t.entries[j], e.uuid, user);
    var rows := Records.UpdateEntryRows(t.entries, user, r.id, e.fields, client, now, e.age);
    assert rows[i].syncTime == now != t.entries[i].syncTime;
    FindEntryKeysKept(t.entries, rows, e.uuid, user, i);
    ReplaceThenSelect(t.entryFlavors, r.id, e.flavors);
    ReplaceThenSelect(t.photos, r.id, e.photos);
  }

  /** A new category is fetched back with the id it was given, the pushed name and flavors, and
      the time since the push as its age. */
  lemma CatInsertThenGet(t: Tables, user: int, client: int, c: CatRecord, now: int, later: int)
    requires user != 0 && !c.deleted && c.id == 0 && t.nextCat > 0
    requires FindCat(t.categories, Some(c.uuid), user).None?
    requires OwnedItems(t.flavors, t.nextCat) == []
    ensures var p := Records.PushCat(t, user, client, c, now);
            var v := CatViewOf(p.value.t, user, c.uuid, later);
            p.Ok? && p.value.ok && p.value.id == t.nextCat && v.Some?
            && v.value.id == t.nextCat && v.value.name == c.name && v.value.age == later - now
            && v.value.flavors == c.flavors
  {
    var id := t.nextCat;
    FindCatAppend(t.categories, CatRow(id, c.uuid, user, c.name, now, client), c.uuid, user);
    OwnedItemsAppend(t.flavors, Owned(id, c.flavors), id);
    OwnedItemsOfOwned(id, c.flavors, id);
  }

  /** An accepted update of an existing category is fetched back with the pushed name, an age
      counted from the push, and its flavors replaced when the push carried some. */
  lemma CatUpdateThenGet(t: Tables, user: int, client: int, c: CatRecord, now: int, later: int)
    requires user != 0 && !c.deleted && c.age >= 0
    requires FindCat(t.categories, Some(c.uuid), user).Some?
    requires FindCat(t.categories, Some(c.uuid), user).value.id != 0
    requires Records.Older(FindCat(t.categories, Some(c.uuid), user).value.syncTime, now, c.age)
    ensures var r := FindCat(t.categories, Some(c.uuid), user).value;
            var p := Records.PushCat(t, user, client, c, now);
            var v := CatViewOf(p.value.t, user, c.uuid, later);
            p.Ok? && p.value.ok && v.Some? && v.value.id == r.id
            && v.value.name == c.name && v.value.age == later - now
            && v.value.flavors == (if c.flavors == [] then OwnedItems(t.flavors, r.id) else c.flavors)
  {
    var r := FindCat(t.categories, Some(c.uuid), user).value;
    var i :| 0 <= i < |t.categories| && t.categories[i] == r && CatKey(r, c.uuid, user)
             && forall j :: 0 <= j < i ==> !CatKey(t.categories[j], c.uuid, user);
    var rows := Records.UpdateCatRows(t.categories, user, r.id, c.name, client, now, c.age);
    assert rows[i].syncTime == now != t.categories[i].syncTime;
    FindCatKeysKept(t.categories, rows, c.uuid, user, i);
    ReplaceThenSelect(t.flavors, r.id, c.flavors);
  }
}
