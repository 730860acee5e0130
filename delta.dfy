/** The delta queries: every row of the user written by another client after the caller's last
    sync, folded into the array `uuid => age` the helper returns. */
module Delta {
  import opened Wrappers
  import opened Schema

  /** The columns a delta query reads from a row of `categories`, `entries` or `deleted`. */
  datatype Stamp = Stamp(user: int, uuid: Uuid, syncTime: int, client: int)

  function EntryStamps(rows: seq<EntryRow>): (r: seq<Stamp>)
    ensures |r| == |rows|
  {
    seq(|rows|, i requires 0 <= i < |rows| => Stamp(rows[i].user, rows[i].uuid, rows[i].syncTime, rows[i].client))
  }

  function CatStamps(rows: seq<CatRow>): (r: seq<Stamp>)
    ensures |r| == |rows|
  {
    seq(|rows|, i requires 0 <= i < |rows| => Stamp(rows[i].user, rows[i].uuid, rows[i].syncTime, rows[i].client))
  }

  /** The tombstone queries read `deleted` without looking at its `type` column. */
  function TombstoneStamps(rows: seq<Tombstone>): (r: seq<Stamp>)
    ensures |r| == |rows|
  {
    seq(|rows|, i requires 0 <= i < |rows| => Stamp(rows[i].user, rows[i].uuid, rows[i].syncTime, rows[i].client))
  }

  /** `(SELECT last_sync FROM clients WHERE id = ?)`: NULL when the client has no row, and
      otherwise the `last_sync` of the first row with that id. */
  function LastSyncOf(clients: seq<ClientRow>, id: int): (w: Option<int>)
    ensures w.Some? ==> exists i :: 0 <= i < |clients| && clients[i].id == id && clients[i].lastSync == w
    ensures (forall i :: 0 <= i < |clients| ==> clients[i].id != id) ==> w.None?
    ensures forall k :: 0 <= k < |clients| && clients[k].id == id && (forall j :: 0 <= j < k ==> clients[j].id != id)
                        ==> w == clients[k].lastSync
  {
    if clients == [] then None
    else if clients[0].id == id then clients[0].lastSync
    else
      var w := LastSyncOf(clients[1..], id);
      assert forall i :: 1 <= i < |clients| ==> clients[i] == clients[1..][i - 1];
      w
  }

  /** `WHERE user = ? AND client != ? AND sync_time > (watermark)`; a NULL watermark makes the
      comparison NULL, so nothing qualifies. */
  predicate Visible(s: Stamp, user: int, client: int, watermark: Option<int>)
  {
    s.user == user && s.client != client && watermark.Some? && s.syncTime > watermark.value
  }

  /** The `while($stmt->fetch())` loop: `$records[$uuid] = age` over the qualifying rows in
      table order, a later row of the same uuid overwriting an earlier one. */
  function Ages(stamps: seq<Stamp>, user: int, client: int, watermark: Option<int>, now: int): map<Uuid, int>
  {
    if stamps == [] then map[]
    else
      var m := Ages(stamps[..|stamps| - 1], user, client, watermark, now);
      var s := stamps[|stamps| - 1];
      if Visible(s, user, client, watermark) then m[s.uuid := Age(s.syncTime, now)] else m
  }

  /** The fetch loop of `getDeletedEntries`, `getUpdatedEntries`, `getDeletedCats` and
      `getUpdatedCats`. */
  method CollectAges(stamps: seq<Stamp>, user: int, client: int, watermark: Option<int>, now: int)
    returns (records: map<Uuid, int>)
    ensures records == Ages(stamps, user, client, watermark, now)
  {
    records := map[];
    var i := 0;
    while i < |stamps|
      invariant 0 <= i <= |stamps|
      invariant records == Ages(stamps[..i], user, client, watermark, now)
    {
      var s := stamps[i];
      assert stamps[..i + 1][..i] == stamps[..i];
      if Visible(s, user, client, watermark) {
        records := records[s.uuid := Age(s.syncTime, now)];
      }
      i := i + 1;
    }
    assert stamps[..|stamps|] == stamps;
  }

  /** A uuid is reported exactly when some row carrying it qualifies. */
  lemma {:induction false} AgesDomain(stamps: seq<Stamp>, user: int, client: int, watermark: Option<int>, now: int, uuid: Uuid)
    ensures uuid in Ages(stamps, user, client, watermark, now)
        <==> exists i :: 0 <= i < |stamps| && stamps[i].uuid == uuid && Visible(stamps[i], user, client, watermark)
  {
    if stamps != [] {
      var front := stamps[..|stamps| - 1];
      AgesDomain(front, user, client, watermark, now, uuid);
      assert forall i :: 0 <= i < |front| ==> front[i] == stamps[i];
      if uuid in Ages(stamps, user, client, watermark, now) && uuid !in Ages(front, user, client, watermark, now) {
        assert stamps[|stamps| - 1].uuid == uuid && Visible(stamps[|stamps| - 1], user, client, watermark);
      }
    }
  }

  /** The age reported for a uuid is that of the last qualifying row carrying it. */
  lemma {:induction false} AgesLastWins(stamps: seq<Stamp>, user: int, client: int, watermark: Option<int>, now: int, i: int)
    requires 0 <= i < |stamps| && Visible(stamps[i], user, client, watermark)
    requires forall j :: i < j < |stamps| ==> !(stamps[j].uuid == stamps[i].uuid && Visible(stamps[j], user, client, watermark))
    ensures var m := Ages(stamps, user, client, watermark, now);
            stamps[i].uuid in m && m[stamps[i].uuid] == now - stamps[i].syncTime
  {
    var front := stamps[..|stamps| - 1];
    if i < |stamps| - 1 {
      assert front[i] == stamps[i];
      forall j | i < j < |front| ensures !(front[j].uuid == front[i].uuid && Visible(front[j], user, client, watermark)) {
        assert front[j] == stamps[j];
      }
      AgesLastWins(front, user, client, watermark, now, i);
    }
  }

  /** Rows the caller wrote itself are never reported back to it, and nothing is reported to a
      client that has no watermark. */
  lemma {:induction false} AgesHidesOwnWrites(stamps: seq<Stamp>, user: int, client: int, watermark: Option<int>, now: int, uuid: Uuid)
    requires forall i :: 0 <= i < |stamps| && stamps[i].uuid == uuid && stamps[i].user == user ==> stamps[i].client == client
    ensures uuid !in Ages(stamps, user, client, watermark, now)
  {
    AgesDomain(stamps, user, client, watermark, now, uuid);
  }

  lemma {:induction false} AgesEmptyWithoutWatermark(stamps: seq<Stamp>, user: int, client: int, now: int, uuid: Uuid)
    ensures uuid !in Ages(stamps, user, client, None, now)
  {
    AgesDomain(stamps, user, client, None, now, uuid);
  }
}
