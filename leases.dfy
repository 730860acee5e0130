/** The statements the helper runs against the `clients` table: the per-user sync lease
    (`getLock`, `touchLock`, `releaseLock`), the pending-changes flag, registration, and the
    list of push-messaging ids. Each statement is a function from the old rows to the new rows
    (and the value the helper returns), one SQL statement being one atomic step. */
module Leases {
  import opened Wrappers
  import opened Schema

  /** `lock_expire > NOW(3)`: a NULL expiry is never live. */
  predicate Live(c: ClientRow, now: int)
  {
    c.lockExpire.Some? && c.lockExpire.value > now
  }

  /** `WHERE id = ? AND user = ?`. */
  predicate Owns(c: ClientRow, id: int, user: int)
  {
    c.id == id && c.user == user
  }

  /** `EXISTS (SELECT 1 FROM clients WHERE user = ? AND lock_expire > NOW(3))`. */
  predicate AnyLive(rows: seq<ClientRow>, user: int, now: int)
  {
    exists i :: 0 <= i < |rows| && rows[i].user == user && Live(rows[i], now)
  }

  /** The lease invariant: at time `now`, all live leases of one user belong to one client id. */
  predicate Exclusive(rows: seq<ClientRow>, now: int)
  {
    forall c, d :: c in rows && d in rows && c.user == d.user && Live(c, now) && Live(d, now) ==> c.id == d.id
  }

  /** The expiry `TIMESTAMPADD(SECOND, ?, NOW(3))` writes, in ms. */
  function Expiry(now: int, lockTimeout: int): int
  {
    now + lockTimeout * 1000
  }

  /** An UPDATE on `clients`: the new rows, and whether `affected_rows > 0`. MySQL counts only
      the rows whose values actually changed, so `ok` is "the table changed". */
  datatype ClientUpdate = ClientUpdate(rows: seq<ClientRow>, ok: bool)

  function Changed(old_: seq<ClientRow>, new_: seq<ClientRow>): ClientUpdate
  {
    ClientUpdate(new_, new_ != old_)
  }

  /** `SET lock_expire = e WHERE id = ? AND user = ? [AND lock_expire > NOW(3)]`. */
  function SetExpiry(rows: seq<ClientRow>, id: int, user: int, e: int, now: int, liveOnly: bool): (r: seq<ClientRow>)
    ensures |r| == |rows|
  {
    seq(|rows|, i requires 0 <= i < |rows| =>
      if Owns(rows[i], id, user) && (!liveOnly || Live(rows[i], now)) then rows[i].(lockExpire := Some(e)) else rows[i])
  }

  /** `getLock`: the expiry is set on the caller's row only when no client of the user holds a
      live lease. */
  function GetLock(rows: seq<ClientRow>, id: int, user: int, now: int, lockTimeout: int): ClientUpdate
  {
    if AnyLive(rows, user, now) then ClientUpdate(rows, false)
    else Changed(rows, SetExpiry(rows, id, user, Expiry(now, lockTimeout), now, false))
  }

  /** `touchLock`: the expiry is renewed only on the caller's row and only while it is live. */
  function TouchLock(rows: seq<ClientRow>, id: int, user: int, now: int, lockTimeout: int): ClientUpdate
  {
    Changed(rows, SetExpiry(rows, id, user, Expiry(now, lockTimeout), now, true))
  }

  /** `releaseLock`: `SET last_sync = NOW(3), lock_expire = NULL, changes_pending = 0`. */
  function ReleaseLock(rows: seq<ClientRow>, id: int, user: int, now: int): (r: seq<ClientRow>)
    ensures |r| == |rows|
  {
    seq(|rows|, i requires 0 <= i < |rows| =>
      if Owns(rows[i], id, user) then rows[i].(lastSync := Some(now), lockExpire := None, changesPending := false)
      else rows[i])
  }

  /** `changed`: `SET changes_pending = 1`. */
  function MarkChanged(rows: seq<ClientRow>, id: int, user: int): (r: seq<ClientRow>)
    ensures |r| == |rows|
  {
    seq(|rows|, i requires 0 <= i < |rows| =>
      if Owns(rows[i], id, user) then rows[i].(changesPending := true) else rows[i])
  }

  /** `changesPending`: the flag of the first row fetched, false when there is none. */
  function ChangesPending(rows: seq<ClientRow>, id: int, user: int): bool
  {
    if rows == [] then false
    else if Owns(rows[0], id, user) then rows[0].changesPending
    else ChangesPending(rows[1..], id, user)
  }

  /** `SELECT 1 FROM clients WHERE id = ? AND user = ?` finds a row. */
  predicate Registered(rows: seq<ClientRow>, id: int, user: int)
  {
    exists i :: 0 <= i < |rows| && Owns(rows[i], id, user)
  }

  /** `setFcmId`: `SET fcm_id = ? WHERE id = ?`, with no condition on the user. */
  function SetFcmId(rows: seq<ClientRow>, id: int, fcmId: string): ClientUpdate
  {
    Changed(rows, seq(|rows|, i requires 0 <= i < |rows| =>
      if rows[i].id == id then rows[i].(fcmId := fcmId) else rows[i]))
  }

  /** `DELETE FROM clients WHERE user = ? AND fcm_id = ?`. */
  function WithoutDevice(rows: seq<ClientRow>, user: int, fcmId: string): (r: seq<ClientRow>)
    ensures forall c :: c in r <==> c in rows && !(c.user == user && c.fcmId == fcmId)
  {
    if rows == [] then []
    else
      var rest := WithoutDevice(rows[1..], user, fcmId);
      assert forall c :: c in rows <==> c == rows[0] || c in rows[1..];
      if rows[0].user == user && rows[0].fcmId == fcmId then rest else [rows[0]] + rest
  }

  /** `DELETE FROM clients WHERE id = ? AND user = ?`. */
  function WithoutClient(rows: seq<ClientRow>, id: int, user: int): (r: seq<ClientRow>)
    ensures forall c :: c in r <==> c in rows && !Owns(c, id, user)
    ensures |r| <= |rows|
  {
    if rows == [] then []
    else
      var rest := WithoutClient(rows[1..], id, user);
      assert forall c :: c in rows <==> c == rows[0] || c in rows[1..];
      if Owns(rows[0], id, user) then rest else [rows[0]] + rest
  }

  /** The row `INSERT INTO clients (user, fcm_id)` adds: every other column takes its default. */
  function NewClient(id: int, user: int, fcmId: string, lastSyncDefault: Option<int>): ClientRow
  {
    ClientRow(id, user, fcmId, lastSyncDefault, None, false)
  }

  /** `registerClient` on the table: the user's rows for the same device are replaced by a new
      row with the next auto-increment id. */
  function Register(rows: seq<ClientRow>, user: int, fcmId: string, nextId: int, lastSyncDefault: Option<int>): seq<ClientRow>
  {
    WithoutDevice(rows, user, fcmId) + [NewClient(nextId, user, fcmId, lastSyncDefault)]
  }

  // ----- Leases are exclusive -----

  /** No statement that only narrows the set of live leases can break exclusivity. */
  lemma ExclusiveOfFewerLeases(rows: seq<ClientRow>, rows': seq<ClientRow>, now: int)
    requires Exclusive(rows, now)
    requires forall c :: c in rows' && Live(c, now) ==> c in rows
    ensures Exclusive(rows', now)
  {
  }

  /** A lease that is exclusive now stays exclusive as time advances. */
  lemma ExclusiveLater(rows: seq<ClientRow>, now: int, later: int)
    requires Exclusive(rows, now)
    requires now <= later
    ensures Exclusive(rows, later)
  {
    forall c, d | c in rows && d in rows && c.user == d.user && Live(c, later) && Live(d, later)
      ensures c.id == d.id
    {
      assert Live(c, now) && Live(d, now);
    }
  }

  /** A granted lock is the only live lease of the user; a refused one changes nothing. */
  lemma GetLockExclusive(rows: seq<ClientRow>, id: int, user: int, now: int, lockTimeout: int)
    requires Exclusive(rows, now)
    ensures Exclusive(GetLock(rows, id, user, now, lockTimeout).rows, now)
  {
    if !AnyLive(rows, user, now) {
      var r := GetLock(rows, id, user, now, lockTimeout).rows;
      forall c, d | c in r && d in r && c.user == d.user && Live(c, now) && Live(d, now)
        ensures c.id == d.id
      {
        var i :| 0 <= i < |r| && r[i] == c;
        var j :| 0 <= j < |r| && r[j] == d;
        if c.user == user {
          assert Owns(rows[i], id, user) && Owns(rows[j], id, user);
        } else {
          assert rows[i] == c && rows[j] == d;
        }
      }
    }
  }

  /** Renewing a lease never creates one. */
  lemma TouchLockExclusive(rows: seq<ClientRow>, id: int, user: int, now: int, lockTimeout: int)
    requires Exclusive(rows, now)
    ensures Exclusive(TouchLock(rows, id, user, now, lockTimeout).rows, now)
  {
    var r := TouchLock(rows, id, user, now, lockTimeout).rows;
    forall c, d | c in r && d in r && c.user == d.user && Live(c, now) && Live(d, now)
      ensures c.id == d.id
    {
      var i :| 0 <= i < |r| && r[i] == c;
      var j :| 0 <= j < |r| && r[j] == d;
      assert Live(rows[i], now) && Live(rows[j], now);
      assert rows[i] in rows && rows[j] in rows;
    }
  }

  lemma ReleaseLockExclusive(rows: seq<ClientRow>, id: int, user: int, now: int)
    requires Exclusive(rows, now)
    ensures Exclusive(ReleaseLock(rows, id, user, now), now)
  {
    var r := ReleaseLock(rows, id, user, now);
    forall c | c in r && Live(c, now) ensures c in rows {
      var i :| 0 <= i < |r| && r[i] == c;
    }
    ExclusiveOfFewerLeases(rows, r, now);
  }

  lemma MarkChangedExclusive(rows: seq<ClientRow>, id: int, user: int, now: int)
    requires Exclusive(rows, now)
    ensures Exclusive(MarkChanged(rows, id, user), now)
  {
    var r := MarkChanged(rows, id, user);
    forall c, d | c in r && d in r && c.user == d.user && Live(c, now) && Live(d, now)
      ensures c.id == d.id
    {
      var i :| 0 <= i < |r| && r[i] == c;
      var j :| 0 <= j < |r| && r[j] == d;
      assert rows[i] in rows && rows[j] in rows;
    }
  }

  lemma SetFcmIdExclusive(rows: seq<ClientRow>, id: int, fcmId: string, now: int)
    requires Exclusive(rows, now)
    ensures Exclusive(SetFcmId(rows, id, fcmId).rows, now)
  {
    var r := SetFcmId(rows, id, fcmId).rows;
    forall c, d | c in r && d in r && c.user == d.user && Live(c, now) && Live(d, now)
      ensures c.id == d.id
    {
      var i :| 0 <= i < |r| && r[i] == c;
      var j :| 0 <= j < |r| && r[j] == d;
      assert rows[i] in rows && rows[j] in rows;
    }
  }

  lemma RegisterExclusive(rows: seq<ClientRow>, user: int, fcmId: string, nextId: int, lastSyncDefault: Option<int>, now: int)
    requires Exclusive(rows, now)
    ensures Exclusive(Register(rows, user, fcmId, nextId, lastSyncDefault), now)
  {
    var r := Register(rows, user, fcmId, nextId, lastSyncDefault);
    forall c | c in r && Live(c, now) ensures c in rows {
      assert c in WithoutDevice(rows, user, fcmId);
    }
    ExclusiveOfFewerLeases(rows, r, now);
  }

  lemma UnregisterExclusive(rows: seq<ClientRow>, id: int, user: int, now: int)
    requires Exclusive(rows, now)
    ensures Exclusive(WithoutClient(rows, id, user), now)
  {
    ExclusiveOfFewerLeases(rows, WithoutClient(rows, id, user), now);
  }

  // ----- What each statement does -----

  /** `getLock` succeeds exactly when no client of the user holds a live lease and the caller's
      registered row did not already carry the new expiry. */
  lemma GetLockSucceeds(rows: seq<ClientRow>, id: int, user: int, now: int, lockTimeout: int)
    ensures GetLock(rows, id, user, now, lockTimeout).ok
        <==> !AnyLive(rows, user, now)
             && exists i :: 0 <= i < |rows| && Owns(rows[i], id, user)
                          && rows[i].lockExpire != Some(Expiry(now, lockTimeout))
  {
    var e := Expiry(now, lockTimeout);
    var r := SetExpiry(rows, id, user, e, now, false);
    if !AnyLive(rows, user, now) {
      if exists i :: 0 <= i < |rows| && Owns(rows[i], id, user) && rows[i].lockExpire != Some(e) {
        var i :| 0 <= i < |rows| && Owns(rows[i], id, user) && rows[i].lockExpire != Some(e);
        assert r[i] != rows[i];
      } else {
        assert r == rows;
      }
    }
  }

  /** After a granted lock with a positive timeout, the caller holds a live lease; every other
      row is unchanged. */
  lemma GetLockGrants(rows: seq<ClientRow>, id: int, user: int, now: int, lockTimeout: int)
    requires lockTimeout > 0
    requires GetLock(rows, id, user, now, lockTimeout).ok
    ensures var r := GetLock(rows, id, user, now, lockTimeout).rows;
            |r| == |rows|
            && (forall i :: 0 <= i < |r| && Owns(rows[i], id, user) ==> r[i] == rows[i].(lockExpire := Some(Expiry(now, lockTimeout))) && Live(r[i], now))
            && (forall i :: 0 <= i < |r| && !Owns(rows[i], id, user) ==> r[i] == rows[i])
  {
  }

  /** A client whose row is not live, while another client of the user holds a live lease,
      cannot obtain or renew a lock. */
  lemma LeaseBlocksOthers(rows: seq<ClientRow>, holder: int, id: int, user: int, now: int, lockTimeout: int)
    requires Exclusive(rows, now)
    requires exists i :: 0 <= i < |rows| && Owns(rows[i], holder, user) && Live(rows[i], now)
    requires id != holder
    ensures !GetLock(rows, id, user, now, lockTimeout).ok
    ensures !TouchLock(rows, id, user, now, lockTimeout).ok
  {
    var r := SetExpiry(rows, id, user, Expiry(now, lockTimeout), now, true);
    var h :| 0 <= h < |rows| && Owns(rows[h], holder, user) && Live(rows[h], now);
    assert rows[h] in rows;
    assert r == rows;
  }

  /** `touchLock` succeeds exactly when the caller holds a live lease whose expiry moves. */
  lemma TouchLockSucceeds(rows: seq<ClientRow>, id: int, user: int, now: int, lockTimeout: int)
    ensures TouchLock(rows, id, user, now, lockTimeout).ok
        <==> exists i :: 0 <= i < |rows| && Owns(rows[i], id, user) && Live(rows[i], now)
                       && rows[i].lockExpire != Some(Expiry(now, lockTimeout))
  {
    var e := Expiry(now, lockTimeout);
    var r := SetExpiry(rows, id, user, e, now, true);
    if exists i :: 0 <= i < |rows| && Owns(rows[i], id, user) && Live(rows[i], now) && rows[i].lockExpire != Some(e) {
      var i :| 0 <= i < |rows| && Owns(rows[i], id, user) && Live(rows[i], now) && rows[i].lockExpire != Some(e);
      assert r[i] != rows[i];
    } else {
      assert r == rows;
    }
  }

  /** After `releaseLock` the caller holds no lease, has no pending changes and its watermark
      is the release time; other clients are untouched. */
  lemma ReleaseLockEffect(rows: seq<ClientRow>, id: int, user: int, now: int)
    ensures var r := ReleaseLock(rows, id, user, now);
            !ChangesPending(r, id, user)
            && (forall c :: c in r && Owns(c, id, user) ==> !Live(c, now) && c.lastSync == Some(now))
            && (forall c :: c in rows && !Owns(c, id, user) ==> c in r)
  {
    var r := ReleaseLock(rows, id, user, now);
    ChangesPendingFirst(r, id, user);
    forall c | c in rows && !Owns(c, id, user) ensures c in r {
      var i :| 0 <= i < |rows| && rows[i] == c;
      assert r[i] == c;
    }
  }

  /** `changesPending` reads the flag of the first registered row of the caller. */
  lemma {:induction false} ChangesPendingFirst(rows: seq<ClientRow>, id: int, user: int)
    ensures ChangesPending(rows, id, user)
        <==> exists i :: 0 <= i < |rows| && Owns(rows[i], id, user) && rows[i].changesPending
                       && forall j :: 0 <= j < i ==> !Owns(rows[j], id, user)
  {
    if rows != [] && !Owns(rows[0], id, user) {
      ChangesPendingFirst(rows[1..], id, user);
      if ChangesPending(rows, id, user) {
        var k :| 0 <= k < |rows[1..]| && Owns(rows[1..][k], id, user) && rows[1..][k].changesPending
                 && forall j :: 0 <= j < k ==> !Owns(rows[1..][j], id, user);
        assert forall j :: 0 <= j < k + 1 ==> !Owns(rows[j], id, user) by {
          forall j | 0 <= j < k + 1 ensures !Owns(rows[j], id, user) {
            if j > 0 { assert rows[j] == rows[1..][j - 1]; }
          }
        }
      }
      if exists i :: 0 <= i < |rows| && Owns(rows[i], id, user) && rows[i].changesPending
                     && forall j :: 0 <= j < i ==> !Owns(rows[j], id, user) {
        var i :| 0 <= i < |rows| && Owns(rows[i], id, user) && rows[i].changesPending
                 && forall j :: 0 <= j < i ==> !Owns(rows[j], id, user);
        assert i > 0;
        assert rows[1..][i - 1] == rows[i];
        assert forall j :: 0 <= j < i - 1 ==> rows[1..][j] == rows[j + 1];
      }
    }
  }

  /** After `changed`, a registered caller reads back `changesPending` as true. */
  lemma MarkChangedThenPending(rows: seq<ClientRow>, id: int, user: int)
    requires Registered(rows, id, user)
    ensures ChangesPending(MarkChanged(rows, id, user), id, user)
  {
    var r := MarkChanged(rows, id, user);
    var i :| 0 <= i < |rows| && Owns(rows[i], id, user);
    var k := FirstOwned(rows, id, user, i);
    assert Owns(r[k], id, user) && r[k].changesPending;
    assert forall j :: 0 <= j < k ==> !Owns(r[j], id, user);
    ChangesPendingFirst(r, id, user);
  }

  /** The first registered row at or before `i`. */
  lemma {:induction false} FirstOwned(rows: seq<ClientRow>, id: int, user: int, i: int) returns (k: int)
    requires 0 <= i < |rows| && Owns(rows[i], id, user)
    ensures 0 <= k <= i && Owns(rows[k], id, user)
    ensures forall j :: 0 <= j < k ==> !Owns(rows[j], id, user)
    decreases i
  {
    if exists j :: 0 <= j < i && Owns(rows[j], id, user) {
      var j :| 0 <= j < i && Owns(rows[j], id, user);
      k := FirstOwned(rows, id, user, j);
    } else {
      k := i;
    }
  }

  /** `setFcmId` rewrites the push id of every row with that client id, whichever user owns it,
      and nothing else. */
  lemma SetFcmIdEffect(rows: seq<ClientRow>, id: int, fcmId: string)
    ensures var u := SetFcmId(rows, id, fcmId);
            |u.rows| == |rows|
            && (forall i :: 0 <= i < |rows| && rows[i].id == id ==> u.rows[i] == rows[i].(fcmId := fcmId))
            && (forall i :: 0 <= i < |rows| && rows[i].id != id ==> u.rows[i] == rows[i])
            && (u.ok <==> exists i :: 0 <= i < |rows| && rows[i].id == id && rows[i].fcmId != fcmId)
  {
    var u := SetFcmId(rows, id, fcmId);
    if exists i :: 0 <= i < |rows| && rows[i].id == id && rows[i].fcmId != fcmId {
      var i :| 0 <= i < |rows| && rows[i].id == id && rows[i].fcmId != fcmId;
      assert u.rows[i] != rows[i];
    } else {
      assert u.rows == rows;
    }
  }

  /** After `registerClient` the user has exactly one row for the device, the new one; every
      other row is kept. */
  lemma RegisterReplaces(rows: seq<ClientRow>, user: int, fcmId: string, nextId: int, lastSyncDefault: Option<int>)
    ensures var r := Register(rows, user, fcmId, nextId, lastSyncDefault);
            NewClient(nextId, user, fcmId, lastSyncDefault) in r
            && (forall c :: c in r && c.user == user && c.fcmId == fcmId ==> c == NewClient(nextId, user, fcmId, lastSyncDefault))
            && (forall c :: c in rows && !(c.user == user && c.fcmId == fcmId) <==> c in r && c != NewClient(nextId, user, fcmId, lastSyncDefault))
  {
  }

  /** `unregisterClient` reports success exactly when the caller's row existed, and removes it. */
  lemma UnregisterEffect(rows: seq<ClientRow>, id: int, user: int)
    ensures var r := WithoutClient(rows, id, user);
            (|r| < |rows| <==> Registered(rows, id, user))
            && !Registered(r, id, user)
            && (forall c :: c in rows && !Owns(c, id, user) ==> c in r)
  {
    WithoutClientShrinks(rows, id, user);
  }

  lemma {:induction false} WithoutClientShrinks(rows: seq<ClientRow>, id: int, user: int)
    ensures |WithoutClient(rows, id, user)| < |rows| <==> Registered(rows, id, user)
  {
    if rows != [] {
      WithoutClientShrinks(rows[1..], id, user);
      assert Registered(rows, id, user) <==> Owns(rows[0], id, user) || Registered(rows[1..], id, user) by {
        if Registered(rows, id, user) && !Owns(rows[0], id, user) {
          var i :| 0 <= i < |rows| && Owns(rows[i], id, user);
          assert rows[1..][i - 1] == rows[i];
        }
        if Registered(rows[1..], id, user) {
          var i :| 0 <= i < |rows[1..]| && Owns(rows[1..][i], id, user);
          assert rows[i + 1] == rows[1..][i];
        }
      }
    }
  }

  // ----- The list of push-messaging ids -----

  /** One entry `$list[$id] = $fcmId` of the ordered array `listFcmIds` returns. */
  datatype Target = Target(id: int, fcmId: string)

  /** PHP array assignment: replaces the entry with that key in place, or appends. */
  function Put(list: seq<Target>, t: Target): (r: seq<Target>)
    ensures t in r
    ensures forall u :: u in r ==> u == t || u in list
    ensures DistinctIds(list) ==> forall u :: u in r ==> u == t || (u in list && u.id != t.id)
    ensures forall u :: u in list && u.id != t.id ==> u in r
  {
    if list == [] then [t]
    else if list[0].id == t.id then
      assert DistinctIds(list) ==> forall k :: 1 <= k < |list| ==> list[k].id != t.id;
      [t] + list[1..]
    else
      var rest := Put(list[1..], t);
      assert forall u :: u in list <==> u == list[0] || u in list[1..];
      assert DistinctIds(list) ==> DistinctIds(list[1..]) by {
        if DistinctIds(list) {
          forall i, j | 0 <= i < |list[1..]| && 0 <= j < |list[1..]| && list[1..][i].id == list[1..][j].id ensures i == j {
            assert list[i + 1].id == list[j + 1].id;
          }
        }
      }
      [list[0]] + rest
  }

  /** The keys of an ordered array are distinct. */
  predicate DistinctIds(list: seq<Target>)
  {
    forall i, j :: 0 <= i < |list| && 0 <= j < |list| && list[i].id == list[j].id ==> i == j
  }

  /** `listFcmIds`: the rows of the user fetched in table order and put into the array. */
  function FcmList(rows: seq<ClientRow>, user: int): seq<Target>
  {
    if rows == [] then []
    else
      var list := FcmList(rows[..|rows| - 1], user);
      var c := rows[|rows| - 1];
      if c.user == user then Put(list, Target(c.id, c.fcmId)) else list
  }

  lemma {:induction false} PutDistinct(list: seq<Target>, t: Target)
    requires DistinctIds(list)
    ensures DistinctIds(Put(list, t))
  {
    if list != [] && list[0].id != t.id {
      PutDistinct(list[1..], t);
      var r := Put(list, t);
      var rest := Put(list[1..], t);
      assert r == [list[0]] + rest;
      forall i, j | 0 <= i < |r| && 0 <= j < |r| && r[i].id == r[j].id ensures i == j {
        if i > 0 { assert r[i] == rest[i - 1]; assert r[i] in rest; }
        if j > 0 { assert r[j] == rest[j - 1]; assert r[j] in rest; }
      }
    }
  }

  lemma {:induction false} FcmListDistinct(rows: seq<ClientRow>, user: int)
    ensures DistinctIds(FcmList(rows, user))
  {
    if rows != [] {
      var c := rows[|rows| - 1];
      FcmListDistinct(rows[..|rows| - 1], user);
      if c.user == user {
        PutDistinct(FcmList(rows[..|rows| - 1], user), Target(c.id, c.fcmId));
      }
    }
  }

  /** A row of `rows` that puts `t` into the list and is the last row that writes its key. */
  predicate LastWrite(rows: seq<ClientRow>, user: int, t: Target, i: int)
  {
    0 <= i < |rows| && rows[i].user == user && rows[i].id == t.id && rows[i].fcmId == t.fcmId
    && forall j :: i < j < |rows| ==> !(rows[j].user == user && rows[j].id == t.id)
  }

  /** Every entry of the list comes from the last row of the user with that client id. */
  lemma {:induction false} FcmListSound(rows: seq<ClientRow>, user: int, t: Target)
    requires t in FcmList(rows, user)
    ensures exists i :: LastWrite(rows, user, t, i)
  {
    var front := rows[..|rows| - 1];
    var c := rows[|rows| - 1];
    if c.user == user && t == Target(c.id, c.fcmId) {
      assert LastWrite(rows, user, t, |rows| - 1);
    } else {
      FcmListDistinct(front, user);
      assert t in FcmList(front, user) && (c.user == user ==> t.id != c.id);
      FcmListSound(front, user, t);
      var i :| LastWrite(front, user, t, i);
      assert forall j :: i < j < |rows| - 1 ==> rows[j] == front[j];
      assert LastWrite(rows, user, t, i);
    }
  }

  /** Every client row of the user has its id in the list. */
  lemma {:induction false} FcmListComplete(rows: seq<ClientRow>, user: int, i: int)
    requires 0 <= i < |rows| && rows[i].user == user
    ensures exists t :: t in FcmList(rows, user) && t.id == rows[i].id
  {
    var front := rows[..|rows| - 1];
    var c := rows[|rows| - 1];
    var list := FcmList(rows, user);
    if i < |rows| - 1 {
      assert rows[i] == front[i];
      FcmListComplete(front, user, i);
      var t :| t in FcmList(front, user) && t.id == front[i].id;
      if c.user == user && t.id == c.id {
        assert Target(c.id, c.fcmId) in list;
      } else {
        assert t in list;
      }
    } else {
      assert Target(c.id, c.fcmId) in list;
    }
  }
}
