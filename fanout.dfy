/** The push-messaging fan-out at the end of a session: which devices are messaged, and how
    the per-address results of the decoded push-service response are written back to the
    client registry. The response is an input; the HTTP call itself is not modelled. */
module Fanout {
  import opened Wrappers
  import opened Schema
  import Leases

  /** One element of the response's `results` array; `isset` reads an absent or null field
      as `None`. */
  datatype FcmResult = FcmResult(messageId: Option<string>, registrationIds: Option<string>, error: Option<string>)

  /** The decoded response: its `failure` and `canonical_ids` counts, and `results`. */
  datatype FcmResponse = FcmResponse(failure: int, canonicalIds: int, results: seq<FcmResult>)

  /** The message's `registration_ids`, and `$fcmIds`, the client ids in the same order. */
  datatype Recipients = Recipients(registrationIds: seq<string>, fcmIds: seq<int>)

  /** The `foreach` over `listFcmIds`: every entry, or (when `all` is false) every entry but
      the caller's. */
  function Select(list: seq<Leases.Target>, caller: int, all: bool): (r: Recipients)
    ensures |r.registrationIds| == |r.fcmIds| <= |list|
  {
    if list == [] then Recipients([], [])
    else
      var r := Select(list[..|list| - 1], caller, all);
      var t := list[|list| - 1];
      if all || t.id != caller then Recipients(r.registrationIds + [t.fcmId], r.fcmIds + [t.id]) else r
  }

  /** `$fcmIds[$i]`, NULL past the end; a NULL id matches no row. */
  function IdAt(fcmIds: seq<int>, i: int): Option<int>
  {
    if 0 <= i < |fcmIds| then Some(fcmIds[i]) else None
  }

  /** A result the loop answers by unregistering the client. */
  predicate Unregisters(res: FcmResult)
  {
    res.messageId.None? && res.error == Some("NotRegistered")
  }

  /** One round of the reconciliation loop: a delivered message with a canonical id stores it;
      an undelivered one with `NotRegistered` deletes the client; anything else is ignored. */
  function Apply(rows: seq<ClientRow>, user: int, id: Option<int>, res: FcmResult): seq<ClientRow>
  {
    if id.None? then rows
    else if res.messageId.Some? then
      if res.registrationIds.Some? then Leases.SetFcmId(rows, id.value, res.registrationIds.value).rows else rows
    else if Unregisters(res) then Leases.WithoutClient(rows, id.value, user)
    else rows
  }

  /** The loop over `results[0..n)`. */
  function Reconcile(rows: seq<ClientRow>, user: int, fcmIds: seq<int>, results: seq<FcmResult>): seq<ClientRow>
  {
    if results == [] then rows
    else
      var n := |results| - 1;
      Apply(Reconcile(rows, user, fcmIds, results[..n]), user, IdAt(fcmIds, n), results[n])
  }

  /** The loop runs only for a decoded response reporting a failure or a canonical id. */
  predicate Reconciles(response: Option<FcmResponse>)
  {
    response.Some? && (response.value.failure != 0 || response.value.canonicalIds != 0)
  }

  /** The registry after the fan-out, and the message sent, if any. */
  datatype Notice = Notice(clients: seq<ClientRow>, sent: Option<Recipients>)

  /** `notifyClients`: Unauthorized without a user (from `listFcmIds`); the lease-based copy
      sends nothing when the user has fewer than two clients and leaves out the caller; the
      older copy messages every client. */
  function Notify(rows: seq<ClientRow>, user: int, caller: int, all: bool, response: Option<FcmResponse>): Result<Notice, Failure>
  {
    if user == 0 then Err(Unauthorized)
    else
      var list := Leases.FcmList(rows, user);
      if !all && |list| < 2 then Ok(Notice(rows, None))
      else
        var r := Select(list, caller, all);
        Ok(Notice(if Reconciles(response) then Reconcile(rows, user, r.fcmIds, response.value.results) else rows, Some(r)))
  }

  // ----- target selection -----

  /** `registration_ids[i]` is the push id of client `fcmIds[i]`; the caller is left out unless
      `all`; every other entry of the list is messaged. */
  lemma {:induction false} SelectAligned(list: seq<Leases.Target>, caller: int, all: bool)
    ensures var r := Select(list, caller, all);
            |r.registrationIds| == |r.fcmIds|
            && (forall k :: 0 <= k < |r.fcmIds| ==>
                  Leases.Target(r.fcmIds[k], r.registrationIds[k]) in list && (all || r.fcmIds[k] != caller))
            && (forall t :: t in list && (all || t.id != caller) ==>
                  exists k :: 0 <= k < |r.fcmIds| && r.fcmIds[k] == t.id && r.registrationIds[k] == t.fcmId)
  {
    if list != [] {
      var front := list[..|list| - 1];
      var t := list[|list| - 1];
      SelectAligned(front, caller, all);
      var f := Select(front, caller, all);
      var r := Select(list, caller, all);
      assert forall u :: u in list <==> u in front || u == t;
      assert forall k :: 0 <= k < |f.fcmIds| ==> r.fcmIds[k] == f.fcmIds[k] && r.registrationIds[k] == f.registrationIds[k];
      if all || t.id != caller {
        assert r.fcmIds[|f.fcmIds|] == t.id && r.registrationIds[|f.fcmIds|] == t.fcmId;
      }
    }
  }

  /** Distinct keys in the list give distinct recipients. */
  lemma {:induction false} SelectDistinct(list: seq<Leases.Target>, caller: int, all: bool)
    requires Leases.DistinctIds(list)
    ensures var ids := Select(list, caller, all).fcmIds;
            forall i, j :: 0 <= i < |ids| && 0 <= j < |ids| && ids[i] == ids[j] ==> i == j
  {
    if list != [] {
      var front := list[..|list| - 1];
      var t := list[|list| - 1];
      assert Leases.DistinctIds(front) by {
        assert forall k :: 0 <= k < |front| ==> front[k] == list[k];
      }
      SelectDistinct(front, caller, all);
      SelectAligned(front, caller, all);
      var f := Select(front, caller, all);
      forall k | 0 <= k < |f.fcmIds| ensures f.fcmIds[k] != t.id {
        var u := Leases.Target(f.fcmIds[k], f.registrationIds[k]);
        var m :| 0 <= m < |front| && front[m] == u;
        assert list[m] == u;
      }
    }
  }

  /** On the registry: every recipient other than the caller is a client of the user whose
      push id is the one its last row stores, and every client of the user other than the
      caller is a recipient. */
  lemma TargetsOfRegistry(rows: seq<ClientRow>, user: int, caller: int)
    ensures var r := Select(Leases.FcmList(rows, user), caller, false);
            (forall k :: 0 <= k < |r.fcmIds| ==>
               r.fcmIds[k] != caller && exists i :: Leases.LastWrite(rows, user, Leases.Target(r.fcmIds[k], r.registrationIds[k]), i))
            && (forall i :: 0 <= i < |rows| && rows[i].user == user && rows[i].id != caller ==> rows[i].id in r.fcmIds)
  {
    var list := Leases.FcmList(rows, user);
    var r := Select(list, caller, false);
    SelectAligned(list, caller, false);
    forall k | 0 <= k < |r.fcmIds|
      ensures exists i :: Leases.LastWrite(rows, user, Leases.Target(r.fcmIds[k], r.registrationIds[k]), i)
    {
      Leases.FcmListSound(rows, user, Leases.Target(r.fcmIds[k], r.registrationIds[k]));
    }
    forall i | 0 <= i < |rows| && rows[i].user == user && rows[i].id != caller ensures rows[i].id in r.fcmIds {
      Leases.FcmListComplete(rows, user, i);
      var t :| t in list && t.id == rows[i].id;
      var k :| 0 <= k < |r.fcmIds| && r.fcmIds[k] == t.id && r.registrationIds[k] == t.fcmId;
    }
  }

  /** In the lease-based copy a message goes out exactly when the user has two client ids. */
  lemma NotifyNeedsTwoClients(rows: seq<ClientRow>, user: int, caller: int, response: Option<FcmResponse>)
    requires user != 0
    ensures Notify(rows, user, caller, false, response).value.sent.Some?
        <==> exists i, j :: 0 <= i < |rows| && 0 <= j < |rows| && rows[i].user == user && rows[j].user == user && rows[i].id != rows[j].id
  {
    var list := Leases.FcmList(rows, user);
    Leases.FcmListDistinct(rows, user);
    if |list| >= 2 {
      Leases.FcmListSound(rows, user, list[0]);
      Leases.FcmListSound(rows, user, list[1]);
      var i :| Leases.LastWrite(rows, user, list[0], i);
      var j :| Leases.LastWrite(rows, user, list[1], j);
      assert rows[i].id != rows[j].id;
    }
    if exists i, j :: 0 <= i < |rows| && 0 <= j < |rows| && rows[i].user == user && rows[j].user == user && rows[i].id != rows[j].id {
      var i, j :| 0 <= i < |rows| && 0 <= j < |rows| && rows[i].user == user && rows[j].user == user && rows[i].id != rows[j].id;
      Leases.FcmListComplete(rows, user, i);
      Leases.FcmListComplete(rows, user, j);
      var a :| a in list && a.id == rows[i].id;
      var b :| b in list && b.id == rows[j].id;
      var x :| 0 <= x < |list| && list[x] == a;
      var y :| 0 <= y < |list| && list[y] == b;
      assert x != y;
    }
  }

  // ----- reconciliation -----

  /** `d` is `c` with at most its push id rewritten. */
  predicate Rewrites(c: ClientRow, d: ClientRow)
  {
    d == c.(fcmId := d.fcmId)
  }

  lemma ApplyKeeps(rows: seq<ClientRow>, user: int, id: Option<int>, res: FcmResult)
    ensures var r := Apply(rows, user, id, res);
            (forall c :: c in rows ==>
               (exists d :: d in r && Rewrites(c, d)) || (c.user == user && Unregisters(res) && id == Some(c.id)))
            && (forall d :: d in r ==> exists c :: c in rows && Rewrites(c, d))
  {
    var r := Apply(rows, user, id, res);
    if id.Some? && res.messageId.Some? && res.registrationIds.Some? {
      Leases.SetFcmIdEffect(rows, id.value, res.registrationIds.value);
      forall c | c in rows ensures exists d :: d in r && Rewrites(c, d) {
        var i :| 0 <= i < |rows| && rows[i] == c;
        assert r[i] in r && Rewrites(c, r[i]);
      }
      forall d | d in r ensures exists c :: c in rows && Rewrites(c, d) {
        var i :| 0 <= i < |r| && r[i] == d;
        assert rows[i] in rows && Rewrites(rows[i], d);
      }
    } else {
      assert forall c :: c in rows && c in r ==> Rewrites(c, c);
    }
  }

  /** Rewriting the push id twice is one rewrite. */
  lemma RewritesTrans(c: ClientRow, d: ClientRow, e: ClientRow)
    requires Rewrites(c, d) && Rewrites(d, e)
    ensures Rewrites(c, e)
  {
  }

  /** Reconciliation deletes only clients of the user answered with `NotRegistered`; every
      other row survives with at most a new push id, and no row appears that was not there. */
  lemma {:induction false} ReconcileDeletesOnlyNotRegistered(rows: seq<ClientRow>, user: int, fcmIds: seq<int>, results: seq<FcmResult>)
    ensures var r := Reconcile(rows, user, fcmIds, results);
            (forall c :: c in rows ==>
               (exists d :: d in r && Rewrites(c, d))
               || (c.user == user && exists i :: 0 <= i < |results| && i < |fcmIds| && Unregisters(results[i]) && fcmIds[i] == c.id))
            && (forall d :: d in r ==> exists c :: c in rows && Rewrites(c, d))
  {
    if results != [] {
      var n := |results| - 1;
      var front := results[..n];
      var mid := Reconcile(rows, user, fcmIds, front);
      var r := Reconcile(rows, user, fcmIds, results);
      ReconcileDeletesOnlyNotRegistered(rows, user, fcmIds, front);
      ApplyKeeps(mid, user, IdAt(fcmIds, n), results[n]);
      assert forall i :: 0 <= i < n ==> front[i] == results[i];
      forall c | c in rows
        ensures (exists d :: d in r && Rewrites(c, d))
                || (c.user == user && exists i :: 0 <= i < |results| && i < |fcmIds| && Unregisters(results[i]) && fcmIds[i] == c.id)
      {
        if exists m :: m in mid && Rewrites(c, m) {
          var m :| m in mid && Rewrites(c, m);
          if exists d :: d in r && Rewrites(m, d) {
            var d :| d in r && Rewrites(m, d);
            RewritesTrans(c, m, d);
          } else {
            assert m.user == user && Unregisters(results[n]) && IdAt(fcmIds, n) == Some(m.id);
          }
        }
      }
      forall d | d in r ensures exists c :: c in rows && Rewrites(c, d) {
        var m :| m in mid && Rewrites(m, d);
        var c :| c in rows && Rewrites(c, m);
        RewritesTrans(c, m, d);
      }
    } else {
      forall c | c in rows ensures exists d :: d in rows && Rewrites(c, d) {
        assert Rewrites(c, c);
      }
    }
  }

  /** No round of the loop brings back a deleted client. */
  lemma ApplyKeepsUnregistered(rows: seq<ClientRow>, user: int, id: Option<int>, res: FcmResult, x: int)
    requires !Leases.Registered(rows, x, user)
    ensures !Leases.Registered(Apply(rows, user, id, res), x, user)
  {
    var r := Apply(rows, user, id, res);
    if id.Some? && res.messageId.Some? && res.registrationIds.Some? {
      Leases.SetFcmIdEffect(rows, id.value, res.registrationIds.value);
      assert forall k :: 0 <= k < |r| ==> r[k].id == rows[k].id && r[k].user == rows[k].user;
    } else {
      forall k | 0 <= k < |r| ensures !Leases.Owns(r[k], x, user) {
        assert r[k] in r;
        var j :| 0 <= j < |rows| && rows[j] == r[k];
      }
    }
  }

  /** Every client of the user answered with `NotRegistered` is gone afterwards. */
  lemma {:induction false} ReconcileUnregisters(rows: seq<ClientRow>, user: int, fcmIds: seq<int>, results: seq<FcmResult>, i: int)
    requires 0 <= i < |results| && i < |fcmIds| && Unregisters(results[i])
    ensures !Leases.Registered(Reconcile(rows, user, fcmIds, results), fcmIds[i], user)
  {
    var n := |results| - 1;
    var mid := Reconcile(rows, user, fcmIds, results[..n]);
    var r := Reconcile(rows, user, fcmIds, results);
    if i < n {
      assert results[..n][i] == results[i];
      ReconcileUnregisters(rows, user, fcmIds, results[..n], i);
      ApplyKeepsUnregistered(mid, user, IdAt(fcmIds, n), results[n], fcmIds[i]);
    } else {
      Leases.UnregisterEffect(mid, fcmIds[i], user);
    }
  }

  /** A canonical id returned for a client is stored on its rows when no later result is about
      the same client. */
  lemma {:induction false} ReconcileStoresCanonical(rows: seq<ClientRow>, user: int, fcmIds: seq<int>, results: seq<FcmResult>, i: int)
    requires 0 <= i < |results| && i < |fcmIds|
    requires results[i].messageId.Some? && results[i].registrationIds.Some?
    requires forall j :: i < j < |results| && j < |fcmIds| ==> fcmIds[j] != fcmIds[i]
    ensures forall c :: c in Reconcile(rows, user, fcmIds, results) && c.id == fcmIds[i] ==> c.fcmId == results[i].registrationIds.value
  {
    var n := |results| - 1;
    var mid := Reconcile(rows, user, fcmIds, results[..n]);
    var r := Reconcile(rows, user, fcmIds, results);
    var x := fcmIds[i];
    var v := results[i].registrationIds.value;
    if i < n {
      assert results[..n][i] == results[i];
      assert forall j :: i < j < n ==> results[..n][j] == results[j];
      ReconcileStoresCanonical(rows, user, fcmIds, results[..n], i);
      var id := IdAt(fcmIds, n);
      assert id.Some? ==> id.value != x;
      if id.Some? && results[n].messageId.Some? && results[n].registrationIds.Some? {
        Leases.SetFcmIdEffect(mid, id.value, results[n].registrationIds.value);
        forall c | c in r && c.id == x ensures c.fcmId == v {
          var k :| 0 <= k < |r| && r[k] == c;
          assert mid[k] in mid;
        }
      }
    } else {
      Leases.SetFcmIdEffect(mid, x, v);
      forall c | c in r && c.id == x ensures c.fcmId == v {
        var k :| 0 <= k < |r| && r[k] == c;
      }
    }
  }

  /** The loop keeps the lease invariant. */
  lemma {:induction false} ReconcileExclusive(rows: seq<ClientRow>, user: int, fcmIds: seq<int>, results: seq<FcmResult>, now: int)
    requires Leases.Exclusive(rows, now)
    ensures Leases.Exclusive(Reconcile(rows, user, fcmIds, results), now)
  {
    if results != [] {
      var n := |results| - 1;
      var mid := Reconcile(rows, user, fcmIds, results[..n]);
      ReconcileExclusive(rows, user, fcmIds, results[..n], now);
      var id := IdAt(fcmIds, n);
      if id.Some? {
        if results[n].registrationIds.Some? {
          Leases.SetFcmIdExclusive(mid, id.value, results[n].registrationIds.value, now);
        }
        Leases.UnregisterExclusive(mid, id.value, user, now);
      }
    }
  }

  /** The fan-out deletes rows and rewrites push ids, nothing else, and keeps the lease
      invariant. */
  lemma NotifyRewritesOnly(rows: seq<ClientRow>, user: int, caller: int, all: bool, response: Option<FcmResponse>, now: int)
    requires user != 0
    ensures var r := Notify(rows, user, caller, all, response).value.clients;
            (forall d :: d in r ==> exists c :: c in rows && Rewrites(c, d))
            && (Leases.Exclusive(rows, now) ==> Leases.Exclusive(r, now))
  {
    var list := Leases.FcmList(rows, user);
    var rc := Select(list, caller, all);
    var r := Notify(rows, user, caller, all, response).value.clients;
    if (all || |list| >= 2) && Reconciles(response) {
      var results := response.value.results;
      assert r == Reconcile(rows, user, rc.fcmIds, results);
      ReconcileDeletesOnlyNotRegistered(rows, user, rc.fcmIds, results);
      if Leases.Exclusive(rows, now) {
        ReconcileExclusive(rows, user, rc.fcmIds, results, now);
      }
    } else {
      assert r == rows;
      forall d | d in r ensures exists c :: c in rows && Rewrites(c, d) {
        assert Rewrites(d, d);
      }
    }
  }
}
