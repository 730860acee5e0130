/** The older copy of the sync endpoint. Its requests are those of `SyncEndpoint` except
    `endSync`, whose fan-out messages every client of the user, the caller included, with no
    minimum count. */
module LegacyEndpoint {
  import opened Wrappers
  import opened Schema
  import Leases
  import Helper
  import Sessions
  import Fanout
  import SyncEndpoint

  /** `endSync` of the older copy. */
  method EndSync(db: Helper.Database, lockTimeout: int, uid: string, clientId: int, now: int, response: Option<Fanout.FcmResponse>)
    returns (r: Result<Option<Fanout.Recipients>, Failure>)
    modifies db
    ensures var f := Sessions.Finish(old(db.State()), uid, clientId, now, true, response);
            r == f.response && db.State() == f.t
  {
    var helper := new Helper.DatabaseHelper(db, lockTimeout);
    helper.SetUser(uid);
    var check := helper.SetClientId(clientId);
    if check.Fail? {
      return Err(check.error);
    }
    var notify := helper.ChangesPending();
    Leases.ChangesPendingFirst(db.clients, clientId, helper.userId);
    helper.ReleaseLock(now);
    if !notify {
      return Ok(None);
    }
    r := NotifyClients(helper, response);
  }

  /** `notifyClients` of the older copy: every client of the user is messaged. */
  method NotifyClients(helper: Helper.DatabaseHelper, response: Option<Fanout.FcmResponse>)
    returns (r: Result<Option<Fanout.Recipients>, Failure>)
    modifies helper.db
    ensures var n := Fanout.Notify(old(helper.db.clients), helper.userId, helper.clientId, true, response);
            if n.Err? then r == Err(n.error) && helper.db.State() == old(helper.db.State())
            else r == Ok(n.value.sent) && helper.db.State() == old(helper.db.State()).(clients := n.value.clients)
  {
    var clients := helper.ListFcmIds();
    if clients.Err? {
      return Err(clients.error);
    }
    var list := clients.value;
    var registrationIds: seq<string> := [];
    var fcmIds: seq<int> := [];
    var i := 0;
    while i < |list|
      invariant 0 <= i <= |list|
      invariant Fanout.Recipients(registrationIds, fcmIds) == Fanout.Select(list[..i], helper.clientId, true)
    {
      assert list[..i + 1][..i] == list[..i];
      registrationIds := registrationIds + [list[i].fcmId];
      fcmIds := fcmIds + [list[i].id];
      i := i + 1;
    }
    assert list[..|list|] == list;
    var sent := Fanout.Recipients(registrationIds, fcmIds);
    SyncEndpoint.Reconcile(helper, fcmIds, response);
    return Ok(Some(sent));
  }
}
