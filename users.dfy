/** The `users` table and `findUserId`, the find-or-create lookup that maps an authenticated uid
    to the user's database id. */
module Users {
  import opened Wrappers
  import opened Schema

  /** `SELECT id FROM users WHERE uid = ?`, first row fetched. */
  function UserIdOf(rows: seq<UserRow>, uid: string): (r: Option<int>)
    ensures r.None? <==> forall i :: 0 <= i < |rows| ==> rows[i].uid != uid
    ensures r.Some? ==> exists i :: 0 <= i < |rows| && rows[i].uid == uid && rows[i].id == r.value
                                 && forall j :: 0 <= j < i ==> rows[j].uid != uid
  {
    if rows == [] then None
    else if rows[0].uid == uid then Some(rows[0].id)
    else
      var r := UserIdOf(rows[1..], uid);
      assert forall i :: 1 <= i < |rows| ==> rows[i] == rows[1..][i - 1];
      r
  }

  /** The table after a lookup, its auto-increment counter, and the id returned. */
  datatype Lookup = Lookup(users: seq<UserRow>, next: int, id: int)

  /** `findUserId`: the id of the first row with the uid; otherwise `INSERT INTO users (uid)`
      and the new row's id. */
  function FindUserId(users: seq<UserRow>, next: int, uid: string): Lookup
  {
    match UserIdOf(users, uid)
    case Some(id) => Lookup(users, next, id)
    case None => Lookup(users + [UserRow(next, uid)], next + 1, next)
  }

  /** Each uid has at most one row (the unique key on `users.uid`). */
  predicate UniqueUids(rows: seq<UserRow>)
  {
    forall i, j :: 0 <= i < |rows| && 0 <= j < |rows| && rows[i].uid == rows[j].uid ==> i == j
  }

  /** Appending a row for a uid the table does not hold makes the lookup find it. */
  lemma UserIdOfAppend(rows: seq<UserRow>, row: UserRow)
    requires forall i :: 0 <= i < |rows| ==> rows[i].uid != row.uid
    ensures UserIdOf(rows + [row], row.uid) == Some(row.id)
  {
    var all := rows + [row];
    assert forall i :: 0 <= i < |rows| ==> all[i] == rows[i];
    assert all[|rows|] == row;
  }

  /** The lookup returns the id of a row holding the uid, only ever adds a row, and adds one
      exactly when the uid was unknown. */
  lemma FindUserIdResolves(users: seq<UserRow>, next: int, uid: string)
    ensures var l := FindUserId(users, next, uid);
            (exists i :: 0 <= i < |l.users| && l.users[i].uid == uid && l.users[i].id == l.id)
            && |users| <= |l.users| && l.users[..|users|] == users
            && (l.users == users <==> exists i :: 0 <= i < |users| && users[i].uid == uid)
  {
    var l := FindUserId(users, next, uid);
    if UserIdOf(users, uid).None? {
      assert l.users[|users|] == UserRow(next, uid);
      assert |l.users| != |users|;
    }
  }

  /** A second lookup of the same uid returns the same id and changes nothing. */
  lemma FindUserIdIdempotent(users: seq<UserRow>, next: int, uid: string)
    ensures var l := FindUserId(users, next, uid);
            FindUserId(l.users, l.next, uid) == l
  {
    if UserIdOf(users, uid).None? {
      UserIdOfAppend(users, UserRow(next, uid));
    }
  }

  /** The lookup never creates a second row for a uid. */
  lemma FindUserIdKeepsUnique(users: seq<UserRow>, next: int, uid: string)
    requires UniqueUids(users)
    ensures UniqueUids(FindUserId(users, next, uid).users)
  {
    var l := FindUserId(users, next, uid);
    if UserIdOf(users, uid).None? {
      assert forall k :: 0 <= k < |users| ==> l.users[k] == users[k];
      assert l.users[|users|].uid == uid;
    }
  }
}
