/** Properties of the category extras table: the upsert loop of `insertCatExtras` and the
    prune-then-upsert of `updateCatExtras`. */
module ExtrasProperties {
  import opened Schema
  import opened Records

  /** The uuids of the extras a category has. */
  function CatUuids(rows: seq<ExtraRow>, cat: int): set<Uuid>
  {
    set r | r in rows && r.cat == cat :: r.uuid
  }

  /** The extras of the other categories. */
  ghost predicate SameOtherCats(rows: seq<ExtraRow>, rows': seq<ExtraRow>, cat: int)
  {
    forall r: ExtraRow :: r.cat != cat ==> (r in rows' <==> r in rows)
  }

  /** Every row id occurs once (the auto-increment primary key). */
  predicate DistinctIds(rows: seq<ExtraRow>)
  {
    forall i, j :: 0 <= i < |rows| && 0 <= j < |rows| && rows[i].id == rows[j].id ==> i == j
  }

  /** One upsert adds its uuid to the category, stores the values it carries, and touches no
      other category. */
  lemma UpsertExtraEffect(t: ExtraTable, cat: int, x: CatExtra)
    ensures var t' := UpsertExtra(t, cat, x);
            CatUuids(t'.rows, cat) == CatUuids(t.rows, cat) + {x.uuid}
            && ExtraRow(if exists k :: 0 <= k < |t.rows| && ExtraKey(t.rows[k], cat, x.uuid) then FirstKeyId(t.rows, cat, x.uuid) else t.next,
                        cat, x.uuid, x.name, x.pos, x.deleted) in t'.rows
            && SameOtherCats(t.rows, t'.rows, cat)
  {
    var t' := UpsertExtra(t, cat, x);
    if exists k :: 0 <= k < |t.rows| && ExtraKey(t.rows[k], cat, x.uuid) {
      var k := FirstKey(t.rows, cat, x.uuid);
      assert t'.rows[k] == t.rows[k].(name := x.name, pos := x.pos, deleted := x.deleted);
      forall u | u in CatUuids(t'.rows, cat) ensures u in CatUuids(t.rows, cat) + {x.uuid} {
        var r :| r in t'.rows && r.cat == cat && r.uuid == u;
        var i :| 0 <= i < |t'.rows| && t'.rows[i] == r;
        assert t.rows[i] in t.rows;
      }
      forall u | u in CatUuids(t.rows, cat) ensures u in CatUuids(t'.rows, cat) {
        var r :| r in t.rows && r.cat == cat && r.uuid == u;
        var i :| 0 <= i < |t.rows| && t.rows[i] == r;
        assert t'.rows[i] in t'.rows;
      }
      forall r: ExtraRow | r.cat != cat ensures r in t'.rows <==> r in t.rows {
        if r in t'.rows {
          var i :| 0 <= i < |t'.rows| && t'.rows[i] == r;
          assert t'.rows[i] == t.rows[i];
        }
        if r in t.rows {
          var i :| 0 <= i < |t.rows| && t.rows[i] == r;
          assert t'.rows[i] == t.rows[i];
        }
      }
    } else {
      var n := ExtraRow(t.next, cat, x.uuid, x.name, x.pos, x.deleted);
      assert t'.rows == t.rows + [n];
      assert forall r :: r in t'.rows <==> r in t.rows || r == n;
    }
  }

  /** The first row holding the key. */
  lemma FirstKey(rows: seq<ExtraRow>, cat: int, uuid: Uuid) returns (k: int)
    requires exists k :: 0 <= k < |rows| && ExtraKey(rows[k], cat, uuid)
    ensures 0 <= k < |rows| && ExtraKey(rows[k], cat, uuid) && rows[k].id == FirstKeyId(rows, cat, uuid)
  {
    k := 0;
    while !ExtraKey(rows[k], cat, uuid)
      invariant 0 <= k < |rows|
      invariant forall j :: 0 <= j < k ==> !ExtraKey(rows[j], cat, uuid)
      invariant exists j :: k <= j < |rows| && ExtraKey(rows[j], cat, uuid)
      decreases |rows| - k
    {
      k := k + 1;
    }
    FirstKeyIdIs(rows, cat, uuid, k);
  }

  /** The id of the first row holding the key, the one `ON DUPLICATE KEY UPDATE` rewrites. */
  function FirstKeyId(rows: seq<ExtraRow>, cat: int, uuid: Uuid): int
  {
    if rows == [] then 0
    else if ExtraKey(rows[0], cat, uuid) then rows[0].id
    else FirstKeyId(rows[1..], cat, uuid)
  }

  lemma {:induction false} FirstKeyIdIs(rows: seq<ExtraRow>, cat: int, uuid: Uuid, k: int)
    requires 0 <= k < |rows| && ExtraKey(rows[k], cat, uuid)
    requires forall j :: 0 <= j < k ==> !ExtraKey(rows[j], cat, uuid)
    ensures FirstKeyId(rows, cat, uuid) == rows[k].id
  {
    if k > 0 {
      assert forall j :: 0 <= j < k - 1 ==> rows[1..][j] == rows[j + 1];
      FirstKeyIdIs(rows[1..], cat, uuid, k - 1);
    }
  }

  /** After the upsert loop the category has every incoming uuid in addition to the ones it
      had; other categories are untouched. */
  lemma {:induction false} UpsertExtrasUuids(t: ExtraTable, cat: int, xs: seq<CatExtra>)
    ensures CatUuids(UpsertExtras(t, cat, xs).rows, cat) == CatUuids(t.rows, cat) + UuidSet(xs)
    ensures SameOtherCats(t.rows, UpsertExtras(t, cat, xs).rows, cat)
  {
    if xs != [] {
      var front := xs[..|xs| - 1];
      UpsertExtrasUuids(t, cat, front);
      UpsertExtraEffect(UpsertExtras(t, cat, front), cat, xs[|xs| - 1]);
      assert UuidSet(xs) == UuidSet(front) + {xs[|xs| - 1].uuid} by {
        forall u | u in UuidSet(xs) ensures u in UuidSet(front) + {xs[|xs| - 1].uuid} {
          var k :| 0 <= k < |xs| && xs[k].uuid == u;
          if k < |xs| - 1 { assert front[k] == xs[k]; }
        }
        forall u | u in UuidSet(front) ensures u in UuidSet(xs) {
          var k :| 0 <= k < |front| && front[k].uuid == u;
          assert xs[k] == front[k];
        }
      }
    } else {
      assert UuidSet(xs) == {};
    }
  }

  /** Pruning leaves the category only uuids that are kept; with distinct row ids it keeps
      every row of the other categories. */
  lemma PruneKeepsOnly(rows: seq<ExtraRow>, cat: int, keep: set<Uuid>)
    ensures CatUuids(WithoutIds(rows, StaleIds(ExtrasOf(rows, cat), keep)), cat) <= keep
    ensures DistinctIds(rows) ==> SameOtherCats(rows, WithoutIds(rows, StaleIds(ExtrasOf(rows, cat), keep)), cat)
  {
    var fetched := ExtrasOf(rows, cat);
    var stale := StaleIds(fetched, keep);
    var pruned := WithoutIds(rows, stale);
    forall u | u in CatUuids(pruned, cat) ensures u in keep {
      var r :| r in pruned && r.cat == cat && r.uuid == u;
    }
    if DistinctIds(rows) {
      forall r: ExtraRow | r.cat != cat && r in rows ensures r in pruned {
        var i :| 0 <= i < |rows| && rows[i] == r;
      }
    }
  }

  /** After an accepted category update with a non-empty extras list the category's extras
      carry exactly the incoming uuids; with distinct row ids other categories are untouched. */
  lemma ReplaceExtrasUuids(t: ExtraTable, cat: int, xs: seq<CatExtra>)
    ensures CatUuids(ReplaceExtras(t, cat, xs).rows, cat) == UuidSet(xs)
    ensures DistinctIds(t.rows) ==> SameOtherCats(t.rows, ReplaceExtras(t, cat, xs).rows, cat)
  {
    var pruned := WithoutIds(t.rows, StaleIds(ExtrasOf(t.rows, cat), UuidSet(xs)));
    PruneKeepsOnly(t.rows, cat, UuidSet(xs));
    UpsertExtrasUuids(ExtraTable(pruned, t.next), cat, xs);
  }

  /** A category update that succeeds with a non-empty extras list leaves the category with
      exactly the incoming extra uuids. */
  lemma CatUpdateExtras(t: Tables, user: int, client: int, c: CatRecord, now: int)
    requires user != 0 && !c.deleted && CatTargetId(t, user, c) != 0 && c.extras != []
    requires PushCatBranch(t, user, client, c, now).ok
    ensures CatUuids(PushCat(t, user, client, c, now).value.t.extras, CatTargetId(t, user, c)) == UuidSet(c.extras)
  {
    ReplaceExtrasUuids(ExtraTable(t.extras, t.nextExtra), CatTargetId(t, user, c), c.extras);
  }

  /** A new category gets exactly the incoming extra uuids once its fresh id has no rows. */
  lemma CatInsertExtras(t: Tables, user: int, client: int, c: CatRecord, now: int)
    requires user != 0 && !c.deleted && CatTargetId(t, user, c) == 0 && t.nextCat > 0
    requires CatUuids(t.extras, t.nextCat) == {}
    ensures CatUuids(PushCat(t, user, client, c, now).value.t.extras, t.nextCat) == UuidSet(c.extras)
  {
    UpsertExtrasUuids(ExtraTable(t.extras, t.nextExtra), t.nextCat, c.extras);
  }

  // ----- the statement-by-statement loops of `insertCatExtras` and `updateCatExtras` -----

  lemma {:induction false} WithoutNoIds(rows: seq<ExtraRow>)
    ensures WithoutIds(rows, {}) == rows
  {
    if rows != [] {
      WithoutNoIds(rows[1..]);
      assert rows == [rows[0]] + rows[1..];
    }
  }

  /** Two rounds of deletes by id are one round deleting both sets. */
  lemma {:induction false} WithoutIdsTwice(rows: seq<ExtraRow>, a: set<int>, b: set<int>)
    ensures WithoutIds(WithoutIds(rows, a), b) == WithoutIds(rows, a + b)
  {
    if rows != [] {
      WithoutIdsTwice(rows[1..], a, b);
      if rows[0].id !in a {
        assert WithoutIds(rows, a) == [rows[0]] + WithoutIds(rows[1..], a);
        assert ([rows[0]] + WithoutIds(rows[1..], a))[1..] == WithoutIds(rows[1..], a);
      }
    }
  }

  lemma UuidSetPrefix(xs: seq<CatExtra>, i: int)
    requires 0 <= i < |xs|
    ensures UuidSet(xs[..i + 1]) == UuidSet(xs[..i]) + {xs[i].uuid}
  {
    var a := xs[..i + 1];
    assert a[i] == xs[i];
    forall u | u in UuidSet(a) ensures u in UuidSet(xs[..i]) + {xs[i].uuid} {
      var k :| 0 <= k < |a| && a[k].uuid == u;
      assert k < i ==> xs[..i][k] == a[k];
    }
    forall u | u in UuidSet(xs[..i]) ensures u in UuidSet(a) {
      var k :| 0 <= k < i && xs[..i][k].uuid == u;
      assert a[k] == xs[..i][k];
    }
  }

  lemma StaleIdsPrefix(fetched: seq<ExtraRow>, keep: set<Uuid>, j: int)
    requires 0 <= j < |fetched|
    ensures StaleIds(fetched[..j + 1], keep)
         == StaleIds(fetched[..j], keep) + (if fetched[j].uuid in keep then {} else {fetched[j].id})
  {
    var a := fetched[..j + 1];
    assert a[j] == fetched[j];
    forall d | d in StaleIds(a, keep)
      ensures d in StaleIds(fetched[..j], keep) + (if fetched[j].uuid in keep then {} else {fetched[j].id})
    {
      var k :| 0 <= k < |a| && a[k].uuid !in keep && a[k].id == d;
      assert k < j ==> fetched[..j][k] == a[k];
    }
    forall d | d in StaleIds(fetched[..j], keep) ensures d in StaleIds(a, keep) {
      var k :| 0 <= k < j && fetched[..j][k].uuid !in keep && fetched[..j][k].id == d;
      assert a[k] == fetched[..j][k];
    }
  }
}
