/** The sync session the endpoint runs: each request makes a fresh helper, sets the user and
    the client, then takes (`startSync`), renews (every data call) or releases (`endSync`) the
    lease. The functions give the tables and the outcome of each request; the lemmas are the
    session guarantees. */
module Sessions {
  import opened Wrappers
  import opened Schema
  import Leases
  import Users
  import Delta
  import Records
  import PushProperties
  import Views
  import Fanout

  /** The tables after the requests's helper calls so far, the user id it set, and whether it
      may go on. */
  datatype Session = Session(t: Tables, user: int, status: Outcome<Failure>)

  /** `setUser` then `setClientId`. */
  function Open(t: Tables, uid: string, clientId: int): Session
  {
    var l := Users.FindUserId(t.users, t.nextUser, uid);
    var t1 := t.(users := l.users, nextUser := l.next);
    Session(t1, l.id, if Leases.Registered(t1.clients, clientId, l.id) then Pass else Fail(Unauthorized))
  }

  /** `startSync`: Locked when `getLock` fails. */
  function StartSync(t: Tables, lockTimeout: int, uid: string, clientId: int, now: int): Session
  {
    var s := Open(t, uid, clientId);
    if s.status.Fail? then s
    else
      var u := Leases.GetLock(s.t.clients, clientId, s.user, now, lockTimeout);
      Session(s.t.(clients := u.rows), s.user, if u.ok then Pass else Fail(Locked))
  }

  /** `getLockedHelper`, which every data call runs first: Locked when `touchLock` fails. */
  function LockedHelper(t: Tables, lockTimeout: int, uid: string, clientId: int, now: int): Session
  {
    var s := Open(t, uid, clientId);
    if s.status.Fail? then s
    else
      var u := Leases.TouchLock(s.t.clients, clientId, s.user, now, lockTimeout);
      Session(s.t.(clients := u.rows), s.user, if u.ok then Pass else Fail(Locked))
  }

  /** `endSync` before the fan-out: the pending flag is read, then the lease is released
      whether or not the caller held it. */
  datatype Ending = Ending(s: Session, notify: bool)

  function EndSync(t: Tables, uid: string, clientId: int, now: int): Ending
  {
    var s := Open(t, uid, clientId);
    if s.status.Fail? then Ending(s, false)
    else
      Ending(s.(t := s.t.(clients := Leases.ReleaseLock(s.t.clients, clientId, s.user, now))),
             Leases.ChangesPending(s.t.clients, clientId, s.user))
  }

  /** The `SyncRecord` of `getUpdates`. */
  datatype SyncRecord = SyncRecord(
    deletedCats: map<Uuid, int>, updatedCats: map<Uuid, int>,
    deletedEntries: map<Uuid, int>, updatedEntries: map<Uuid, int>)

  /** `getUpdates` after the lease check: the four delta queries. */
  function Updates(t: Tables, user: int, client: int, now: int): Result<SyncRecord, Failure>
  {
    if user == 0 then Err(Unauthorized)
    else
      var w := Delta.LastSyncOf(t.clients, client);
      var gone := Delta.Ages(Delta.TombstoneStamps(t.deleted), user, client, w, now);
      Ok(SyncRecord(gone, Delta.Ages(Delta.CatStamps(t.categories), user, client, w, now),
                    gone, Delta.Ages(Delta.EntryStamps(t.entries), user, client, w, now)))
  }

  /** The `UpdateResponse` of `putCat` and `putEntry`. */
  datatype UpdateResponse = UpdateResponse(success: bool, remoteId: int)

  /** The tables after a request, and what it answers: a value, or the failure it raises. */
  datatype Reply<T> = Reply(t: Tables, response: Result<T, Failure>)

  /** `endSync` with its fan-out; `all` selects the older copy, which messages every client. */
  function Finish(t: Tables, uid: string, clientId: int, now: int, all: bool, response: Option<Fanout.FcmResponse>): Reply<Option<Fanout.Recipients>>
  {
    var e := EndSync(t, uid, clientId, now);
    if e.s.status.Fail? then Reply(e.s.t, Err(e.s.status.error))
    else if !e.notify then Reply(e.s.t, Ok(None))
    else
      match Fanout.Notify(e.s.t.clients, e.s.user, clientId, all, response)
      case Err(f) => Reply(e.s.t, Err(f))
      case Ok(n) => Reply(e.s.t.(clients := n.clients), Ok(n.sent))
  }

  /** `getUpdates`. */
  function GetUpdates(t: Tables, lockTimeout: int, uid: string, clientId: int, now: int): Reply<SyncRecord>
  {
    var s := LockedHelper(t, lockTimeout, uid, clientId, now);
    if s.status.Fail? then Reply(s.t, Err(s.status.error)) else Reply(s.t, Updates(s.t, s.user, clientId, now))
  }

  /** `getEntry`. */
  function GetEntry(t: Tables, lockTimeout: int, uid: string, clientId: int, uuid: Uuid, now: int): Reply<Option<EntryView>>
  {
    var s := LockedHelper(t, lockTimeout, uid, clientId, now);
    if s.status.Fail? then Reply(s.t, Err(s.status.error))
    else if s.user == 0 then Reply(s.t, Err(Unauthorized))
    else Reply(s.t, Ok(Views.EntryViewOf(s.t, s.user, uuid, now)))
  }

  /** `getCat`. */
  function GetCat(t: Tables, lockTimeout: int, uid: string, clientId: int, uuid: Uuid, now: int): Reply<Option<CatView>>
  {
    var s := LockedHelper(t, lockTimeout, uid, clientId, now);
    if s.status.Fail? then Reply(s.t, Err(s.status.error))
    else if s.user == 0 then Reply(s.t, Err(Unauthorized))
    else Reply(s.t, Ok(Views.CatViewOf(s.t, s.user, uuid, now)))
  }

  /** `putEntry`: the push result, and the record id after the push. */
  function PutEntry(t: Tables, lockTimeout: int, uid: string, clientId: int, e: EntryRecord, now: int): Reply<UpdateResponse>
  {
    var s := LockedHelper(t, lockTimeout, uid, clientId, now);
    if s.status.Fail? then Reply(s.t, Err(s.status.error))
    else
      match Records.PushEntry(s.t, s.user, clientId, e, now)
      case Err(f) => Reply(s.t, Err(f))
      case Ok(p) => Reply(p.t, Ok(UpdateResponse(p.ok, p.id)))
  }

  /** `putCat`. */
  function PutCat(t: Tables, lockTimeout: int, uid: string, clientId: int, c: CatRecord, now: int): Reply<UpdateResponse>
  {
    var s := LockedHelper(t, lockTimeout, uid, clientId, now);
    if s.status.Fail? then Reply(s.t, Err(s.status.error))
    else
      match Records.PushCat(s.t, s.user, clientId, c, now)
      case Err(f) => Reply(s.t, Err(f))
      case Ok(p) => Reply(p.t, Ok(UpdateResponse(p.ok, p.id)))
  }

  // ----- the session guarantees -----

  /** The two helpers of one device open onto the same user. */
  lemma OpenTwice(t: Tables, uid: string, a: int, b: int)
    ensures Open(Open(t, uid, a).t, uid, b).user == Open(t, uid, a).user
    ensures Open(Open(t, uid, a).t, uid, b).t == Open(t, uid, a).t
  {
    Users.FindUserIdIdempotent(t.users, t.nextUser, uid);
  }

  /** Once a client has started a session with a positive timeout, no other client of the
      user can start one or make a data call until the lease expires. */
  lemma LeaseExcludesOthers(t: Tables, lockTimeout: int, uid: string, a: int, b: int, now: int, later: int)
    requires lockTimeout > 0 && Leases.Exclusive(t.clients, now)
    requires StartSync(t, lockTimeout, uid, a, now).status == Pass
    requires b != a && now <= later < Leases.Expiry(now, lockTimeout)
    ensures StartSync(StartSync(t, lockTimeout, uid, a, now).t, lockTimeout, uid, b, later).status != Pass
    ensures LockedHelper(StartSync(t, lockTimeout, uid, a, now).t, lockTimeout, uid, b, later).status != Pass
  {
    var s := Open(t, uid, a);
    var rows := s.t.clients;
    var t' := StartSync(t, lockTimeout, uid, a, now).t;
    var rows' := t'.clients;
    OpenTwice(t, uid, a, b);
    Users.FindUserIdIdempotent(s.t.users, s.t.nextUser, uid);
    assert Open(t', uid, b).user == s.user;
    Leases.GetLockGrants(rows, a, s.user, now, lockTimeout);
    Leases.GetLockExclusive(rows, a, s.user, now, lockTimeout);
    Leases.ExclusiveLater(rows', now, later);
    var k :| 0 <= k < |rows| && Leases.Owns(rows[k], a, s.user);
    assert Leases.Owns(rows'[k], a, s.user) && Leases.Live(rows'[k], later);
    Leases.LeaseBlocksOthers(rows', a, b, s.user, later, lockTimeout);
  }

  /** A data call goes ahead only for a client holding a live lease. */
  lemma DataCallNeedsLease(t: Tables, lockTimeout: int, uid: string, a: int, now: int)
    requires LockedHelper(t, lockTimeout, uid, a, now).status == Pass
    ensures var s := Open(t, uid, a);
            exists i :: 0 <= i < |s.t.clients| && Leases.Owns(s.t.clients[i], a, s.user) && Leases.Live(s.t.clients[i], now)
  {
    var s := Open(t, uid, a);
    Leases.TouchLockSucceeds(s.t.clients, a, s.user, now, lockTimeout);
  }

  /** Every request keeps the lease invariant. */
  lemma RequestsKeepExclusive(t: Tables, lockTimeout: int, uid: string, a: int, now: int)
    requires Leases.Exclusive(t.clients, now)
    ensures Leases.Exclusive(StartSync(t, lockTimeout, uid, a, now).t.clients, now)
    ensures Leases.Exclusive(LockedHelper(t, lockTimeout, uid, a, now).t.clients, now)
    ensures Leases.Exclusive(EndSync(t, uid, a, now).s.t.clients, now)
  {
    var s := Open(t, uid, a);
    Leases.GetLockExclusive(s.t.clients, a, s.user, now, lockTimeout);
    Leases.TouchLockExclusive(s.t.clients, a, s.user, now, lockTimeout);
    Leases.ReleaseLockExclusive(s.t.clients, a, s.user, now);
  }

  /** A push that succeeds inside a session makes the `endSync` that follows notify the other
      devices. */
  lemma PushThenEndSyncNotifies(t: Tables, lockTimeout: int, uid: string, a: int, e: EntryRecord, now: int, later: int)
    requires LockedHelper(t, lockTimeout, uid, a, now).status == Pass
    requires var s := LockedHelper(t, lockTimeout, uid, a, now);
             var p := Records.PushEntry(s.t, s.user, a, e, now);
             p.Ok? && p.value.ok
    ensures var s := LockedHelper(t, lockTimeout, uid, a, now);
            EndSync(Records.PushEntry(s.t, s.user, a, e, now).value.t, uid, a, later).notify
  {
    var s := LockedHelper(t, lockTimeout, uid, a, now);
    var p := Records.PushEntry(s.t, s.user, a, e, now).value;
    var o := Open(t, uid, a);
    Users.FindUserIdIdempotent(t.users, t.nextUser, uid);
    Users.FindUserIdIdempotent(o.t.users, o.t.nextUser, uid);
    PushProperties.EntryBranchKeepsUsers(s.t, s.user, a, e, now);
    Leases.TouchLockSucceeds(o.t.clients, a, o.user, now, lockTimeout);
    var u := Leases.TouchLock(o.t.clients, a, o.user, now, lockTimeout).rows;
    var k :| 0 <= k < |o.t.clients| && Leases.Owns(o.t.clients[k], a, o.user);
    assert Leases.Owns(u[k], a, o.user);
    PushProperties.PushEntryPendingIffSuccess(s.t, s.user, a, e, now);
    assert Leases.ChangesPending(p.t.clients, a, o.user);
    assert p.t.users == o.t.users && p.t.nextUser == o.t.nextUser;
    assert Open(p.t, uid, a).user == o.user;
    Leases.ChangesPendingFirst(p.t.clients, a, o.user);
    assert Leases.Registered(p.t.clients, a, o.user);
  }

  /** After `endSync` the caller holds no lease and has no pending changes; when its lease was
      the user's only live one, any other registered client can start a session next. */
  lemma EndSyncFreesLease(t: Tables, lockTimeout: int, uid: string, a: int, b: int, now: int, later: int)
    requires lockTimeout > 0 && now <= later
    requires EndSync(t, uid, a, now).s.status == Pass
    requires var s := Open(t, uid, a);
             forall i :: 0 <= i < |s.t.clients| && s.t.clients[i].user == s.user && Leases.Live(s.t.clients[i], now) ==> s.t.clients[i].id == a
    requires Leases.Registered(EndSync(t, uid, a, now).s.t.clients, b, Open(t, uid, a).user)
    ensures var e := EndSync(t, uid, a, now).s;
            !Leases.ChangesPending(e.t.clients, a, e.user)
            && StartSync(e.t, lockTimeout, uid, b, later).status == Pass
  {
    var s := Open(t, uid, a);
    var rows := s.t.clients;
    var e := EndSync(t, uid, a, now).s;
    var r := e.t.clients;
    Leases.ReleaseLockEffect(rows, a, s.user, now);
    Users.FindUserIdIdempotent(t.users, t.nextUser, uid);
    assert Open(e.t, uid, b).user == s.user;
    forall i | 0 <= i < |r| && r[i].user == s.user ensures !Leases.Live(r[i], later) {
      assert r[i] in r;
    }
    var k :| 0 <= k < |r| && Leases.Owns(r[k], b, s.user);
    assert r[k].lockExpire != Some(Leases.Expiry(later, lockTimeout));
    Leases.GetLockSucceeds(r, b, s.user, later, lockTimeout);
  }

  /** Every data call that answers holds a live lease; without one it raises Locked or
      Unauthorized and changes nothing but the user table. */
  lemma DataCallsNeedLease(t: Tables, lockTimeout: int, uid: string, a: int, e: EntryRecord, c: CatRecord, uuid: Uuid, now: int)
    ensures var s := Open(t, uid, a);
            var live := exists i :: 0 <= i < |s.t.clients| && Leases.Owns(s.t.clients[i], a, s.user) && Leases.Live(s.t.clients[i], now);
            (GetUpdates(t, lockTimeout, uid, a, now).response.Ok? ==> live)
            && (GetEntry(t, lockTimeout, uid, a, uuid, now).response.Ok? ==> live)
            && (GetCat(t, lockTimeout, uid, a, uuid, now).response.Ok? ==> live)
            && (PutEntry(t, lockTimeout, uid, a, e, now).response.Ok? ==> live)
            && (PutCat(t, lockTimeout, uid, a, c, now).response.Ok? ==> live)
            && (!live ==> PutEntry(t, lockTimeout, uid, a, e, now).t.clients == s.t.clients
                          && PutEntry(t, lockTimeout, uid, a, e, now).t.entries == t.entries)
  {
    var s := Open(t, uid, a);
    Leases.TouchLockSucceeds(s.t.clients, a, s.user, now, lockTimeout);
    var u := Leases.TouchLock(s.t.clients, a, s.user, now, lockTimeout);
    assert !u.ok ==> u.rows == s.t.clients;
  }

  /** While a client's lease runs, another client's pushes and fetches fail. */
  lemma OthersLockedOut(t: Tables, lockTimeout: int, uid: string, a: int, b: int, e: EntryRecord, now: int, later: int)
    requires lockTimeout > 0 && Leases.Exclusive(t.clients, now)
    requires StartSync(t, lockTimeout, uid, a, now).status == Pass
    requires b != a && now <= later < Leases.Expiry(now, lockTimeout)
    ensures var t' := StartSync(t, lockTimeout, uid, a, now).t;
            PutEntry(t', lockTimeout, uid, b, e, later).response.Err?
            && GetUpdates(t', lockTimeout, uid, b, later).response.Err?
  {
    LeaseExcludesOthers(t, lockTimeout, uid, a, b, now, later);
  }

  /** `remoteId` is the stored id of a known uuid whether or not the push was accepted. */
  lemma RemoteIdOfKnownEntry(t: Tables, lockTimeout: int, uid: string, a: int, e: EntryRecord, now: int)
    requires var s := LockedHelper(t, lockTimeout, uid, a, now);
             s.status == Pass && s.user != 0
             && FindEntry(s.t.entries, e.uuid, s.user).Some? && FindEntry(s.t.entries, e.uuid, s.user).value.id != 0
    ensures var s := LockedHelper(t, lockTimeout, uid, a, now);
            var r := PutEntry(t, lockTimeout, uid, a, e, now).response;
            r.Ok? && r.value.remoteId == FindEntry(s.t.entries, e.uuid, s.user).value.id
  {
  }

  /** After `endSync`, fan-out included, the caller holds no lease and has nothing pending,
      and the lease invariant still holds. */
  lemma FinishReleases(t: Tables, uid: string, a: int, now: int, all: bool, response: Option<Fanout.FcmResponse>)
    requires Leases.Exclusive(t.clients, now)
    requires Finish(t, uid, a, now, all, response).response.Ok?
    ensures var r := Finish(t, uid, a, now, all, response).t.clients;
            var user := Open(t, uid, a).user;
            (forall c :: c in r && Leases.Owns(c, a, user) ==> !Leases.Live(c, now) && !c.changesPending)
            && Leases.Exclusive(r, now)
  {
    var s := Open(t, uid, a);
    var rel := Leases.ReleaseLock(s.t.clients, a, s.user, now);
    var r := Finish(t, uid, a, now, all, response).t.clients;
    assert forall c :: c in rel && Leases.Owns(c, a, s.user) ==> !Leases.Live(c, now) && !c.changesPending;
    Leases.ReleaseLockExclusive(s.t.clients, a, s.user, now);
    if EndSync(t, uid, a, now).notify {
      Fanout.NotifyRewritesOnly(rel, s.user, a, all, response, now);
      forall d | d in r && Leases.Owns(d, a, s.user) ensures !Leases.Live(d, now) && !d.changesPending {
        var c :| c in rel && Fanout.Rewrites(c, d);
      }
    }
  }

  /** `endSync` messages other devices only when the caller had pushed something. */
  lemma FinishNotifiesOnlyPending(t: Tables, uid: string, a: int, now: int, all: bool, response: Option<Fanout.FcmResponse>)
    requires Finish(t, uid, a, now, all, response).response.Ok? && Finish(t, uid, a, now, all, response).response.value.Some?
    ensures var s := Open(t, uid, a);
            exists i :: 0 <= i < |s.t.clients| && Leases.Owns(s.t.clients[i], a, s.user) && s.t.clients[i].changesPending
  {
    var s := Open(t, uid, a);
    Leases.ChangesPendingFirst(s.t.clients, a, s.user);
  }
}
