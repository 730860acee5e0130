/** The lease-based sync endpoint. Each request builds a fresh helper on the database, sets the
    authenticated user and the client, and calls the helper in the order the endpoint does; each
    method is proved to leave the tables and answer as the request functions of `Sessions` say. */
module SyncEndpoint {
  import opened Wrappers
  import opened Schema
  import Leases
  import Helper
  import Sessions
  import Fanout

  /** `startSync`: Locked when the lease cannot be taken. */
  method StartSync(db: Helper.Database, lockTimeout: int, uid: string, clientId: int, now: int) returns (r: Outcome<Failure>)
    modifies db
    ensures var s := Sessions.StartSync(old(db.State()), lockTimeout, uid, clientId, now);
            r == s.status && db.State() == s.t
  {
    var helper := new Helper.DatabaseHelper(db, lockTimeout);
    helper.SetUser(uid);
    r := helper.SetClientId(clientId);
    if r.Fail? {
      return;
    }
    var ok := helper.GetLock(now);
    if !ok {
      r := Fail(Locked);
    }
  }

  /** `endSync`: the pending flag is read, the lease released, and the other devices notified
      when the flag was set. */
  method EndSync(db: Helper.Database, lockTimeout: int, uid: string, clientId: int, now: int, response: Option<Fanout.FcmResponse>)
    returns (r: Result<Option<Fanout.Recipients>, Failure>)
    modifies db
    ensures var f := Sessions.Finish(old(db.State()), uid, clientId, now, false, response);
            r == f.response && db.State() == f.t
  {
    var helper := new Helper.DatabaseHelper(db, lockTimeout);
    helper.SetUser(uid);
    var check := helper.SetClientId(clientId);
    if check.Fail? {
      return Err(check.error);
    }
    var notify := helper.ChangesPending();
    Leases.ChangesPendingFirst(db.clients, clientId, helper.userId);
    helper.ReleaseLock(now);
    if !notify {
      return Ok(None);
    }
    r := NotifyClients(helper, response);
  }

  /** `getUpdates`: the four delta queries after the lease check. */
  method GetUpdates(db: Helper.Database, lockTimeout: int, uid: string, clientId: int, now: int)
    returns (r: Result<Sessions.SyncRecord, Failure>)
    modifies db
    ensures var g := Sessions.GetUpdates(old(db.State()), lockTimeout, uid, clientId, now);
            r == g.response && db.State() == g.t
  {
    var helper, check := GetLockedHelper(db, lockTimeout, uid, clientId, now);
    if check.Fail? {
      return Err(check.error);
    }
    var deletedCats := helper.GetDeleted(now);
    if deletedCats.Err? {
      return Err(deletedCats.error);
    }
    var updatedCats := helper.GetUpdatedCats(now);
    var deletedEntries := helper.GetDeleted(now);
    var updatedEntries := helper.GetUpdatedEntries(now);
    r := Ok(Sessions.SyncRecord(deletedCats.value, updatedCats.value, deletedEntries.value, updatedEntries.value));
  }

  /** `getCat`. */
  method GetCat(db: Helper.Database, lockTimeout: int, uid: string, clientId: int, uuid: Uuid, now: int)
    returns (r: Result<Option<CatView>, Failure>)
    modifies db
    ensures var g := Sessions.GetCat(old(db.State()), lockTimeout, uid, clientId, uuid, now);
            r == g.response && db.State() == g.t
  {
    var helper, check := GetLockedHelper(db, lockTimeout, uid, clientId, now);
    if check.Fail? {
      return Err(check.error);
    }
    r := helper.GetCat(uuid, now);
  }

  /** `putCat`: `success` is the push result, `remoteId` the category id after the push. */
  method PutCat(db: Helper.Database, lockTimeout: int, uid: string, clientId: int, c: CatRecord, now: int)
    returns (r: Result<Sessions.UpdateResponse, Failure>)
    modifies db
    ensures var g := Sessions.PutCat(old(db.State()), lockTimeout, uid, clientId, c, now);
            r == g.response && db.State() == g.t
  {
    var helper, check := GetLockedHelper(db, lockTimeout, uid, clientId, now);
    if check.Fail? {
      return Err(check.error);
    }
    var success, remoteId := helper.PushCat(c, now);
    if success.Err? {
      return Err(success.error);
    }
    r := Ok(Sessions.UpdateResponse(success.value, remoteId));
  }

  /** `getEntry`. */
  method GetEntry(db: Helper.Database, lockTimeout: int, uid: string, clientId: int, uuid: Uuid, now: int)
    returns (r: Result<Option<EntryView>, Failure>)
    modifies db
    ensures var g := Sessions.GetEntry(old(db.State()), lockTimeout, uid, clientId, uuid, now);
            r == g.response && db.State() == g.t
  {
    var helper, check := GetLockedHelper(db, lockTimeout, uid, clientId, now);
    if check.Fail? {
      return Err(check.error);
    }
    r := helper.GetEntry(uuid, now);
  }

  /** `putEntry`: `success` is the push result, `remoteId` the entry id after the push. */
  method PutEntry(db: Helper.Database, lockTimeout: int, uid: string, clientId: int, e: EntryRecord, now: int)
    returns (r: Result<Sessions.UpdateResponse, Failure>)
    modifies db
    ensures var g := Sessions.PutEntry(old(db.State()), lockTimeout, uid, clientId, e, now);
            r == g.response && db.State() == g.t
  {
    var helper, check := GetLockedHelper(db, lockTimeout, uid, clientId, now);
    if check.Fail? {
      return Err(check.error);
    }
    var success, remoteId := helper.PushEntry(e, now);
    if success.Err? {
      return Err(success.error);
    }
    r := Ok(Sessions.UpdateResponse(success.value, remoteId));
  }

  /** `getLockedHelper`: a helper for the user and client whose lease was just renewed, or
      Locked. */
  method GetLockedHelper(db: Helper.Database, lockTimeout: int, uid: string, clientId: int, now: int)
    returns (helper: Helper.DatabaseHelper, r: Outcome<Failure>)
    modifies db
    ensures fresh(helper) && helper.db == db && helper.lockTimeout == lockTimeout && helper.clientId == clientId
    ensures var s := Sessions.LockedHelper(old(db.State()), lockTimeout, uid, clientId, now);
            r == s.status && db.State() == s.t && helper.userId == s.user
  {
    helper := new Helper.DatabaseHelper(db, lockTimeout);
    helper.SetUser(uid);
    r := helper.SetClientId(clientId);
    if r.Fail? {
      return;
    }
    var ok := helper.TouchLock(now);
    if !ok {
      r := Fail(Locked);
    }
  }

  /** `notifyClients`: nothing below two clients; otherwise the devices other than the
      caller's are messaged, and the per-address results are written back. */
  method NotifyClients(helper: Helper.DatabaseHelper, response: Option<Fanout.FcmResponse>)
    returns (r: Result<Option<Fanout.Recipients>, Failure>)
    modifies helper.db
    ensures var n := Fanout.Notify(old(helper.db.clients), helper.userId, helper.clientId, false, response);
            if n.Err? then r == Err(n.error) && helper.db.State() == old(helper.db.State())
            else r == Ok(n.value.sent) && helper.db.State() == old(helper.db.State()).(clients := n.value.clients)
  {
    var clients := helper.ListFcmIds();
    if clients.Err? {
      return Err(clients.error);
    }
    var list := clients.value;
    if |list| < 2 {
      return Ok(None);
    }
    var registrationIds: seq<string> := [];
    var fcmIds: seq<int> := [];
    var i := 0;
    while i < |list|
      invariant 0 <= i <= |list|
      invariant Fanout.Recipients(registrationIds, fcmIds) == Fanout.Select(list[..i], helper.clientId, false)
    {
      assert list[..i + 1][..i] == list[..i];
      if list[i].id != helper.clientId {
        registrationIds := registrationIds + [list[i].fcmId];
        fcmIds := fcmIds + [list[i].id];
      }
      i := i + 1;
    }
    assert list[..|list|] == list;
    var sent := Fanout.Recipients(registrationIds, fcmIds);
    Reconcile(helper, fcmIds, response);
    return Ok(Some(sent));
  }

  /** The loop over the response's results, run only when it reports a failure or a canonical
      id. Shared by both copies of the endpoint. */
  method Reconcile(helper: Helper.DatabaseHelper, fcmIds: seq<int>, response: Option<Fanout.FcmResponse>)
    requires helper.userId != 0
    modifies helper.db
    ensures helper.db.State() == old(helper.db.State()).(clients :=
              if Fanout.Reconciles(response) then Fanout.Reconcile(old(helper.db.clients), helper.userId, fcmIds, response.value.results)
              else old(helper.db.clients))
  {
    if !Fanout.Reconciles(response) {
      return;
    }
    var results := response.value.results;
    var i := 0;
    while i < |results|
      invariant 0 <= i <= |results|
      invariant helper.db.State() == old(helper.db.State()).(clients := Fanout.Reconcile(old(helper.db.clients), helper.userId, fcmIds, results[..i]))
    {
      assert results[..i + 1][..i] == results[..i];
      var res := results[i];
      var id := Fanout.IdAt(fcmIds, i);
      if res.messageId.Some? {
        if res.registrationIds.Some? && id.Some? {
          var _ := helper.SetFcmId(id.value, res.registrationIds.value);
        }
      } else if res.error.Some? {
        if res.error.value == "NotRegistered" && id.Some? {
          var _ := helper.UnregisterClient(id.value);
        }
      }
      i := i + 1;
    }
    assert results[..|results|] == results;
  }
}
