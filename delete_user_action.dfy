/** Deleting a user: the row is removed; the user's tokens are not touched. */
module DeleteUserAction {
  import opened Store

  /** `delete from users where id = ?`: every row but those with id `id`, in table order. */
  function RemoveUser(users: seq<User>, id: nat): (r: seq<User>)
    ensures forall u :: u in r <==> u in users && u.id != id
    ensures |r| <= |users|
  {
    if users == [] then []
    else
      assert forall u :: u in users ==> u == users[0] || u in users[1..];
      (if users[0].id == id then [] else [users[0]]) + RemoveUser(users[1..], id)
  }

  /** The table without its first row is well formed. */
  lemma TailWellFormed(users: seq<User>, nextId: nat)
    requires UsersWellFormed(users, nextId) && users != []
    ensures UsersWellFormed(users[1..], nextId)
    ensures forall v :: v in users[1..] ==> v.id != users[0].id && v.email != users[0].email
  {
  }

  /** A well-formed table with a row in front that clashes with none of its rows is well formed. */
  lemma ConsWellFormed(u: User, rest: seq<User>, nextId: nat)
    requires UsersWellFormed(rest, nextId) && 1 <= u.id < nextId
    requires forall v :: v in rest ==> v.id != u.id && v.email != u.email
    ensures UsersWellFormed([u] + rest, nextId)
  {
  }

  /** Removing rows keeps the table well formed. */
  lemma {:induction false} RemoveUserKeepsWellFormed(users: seq<User>, nextId: nat, id: nat)
    requires UsersWellFormed(users, nextId)
    ensures UsersWellFormed(RemoveUser(users, id), nextId)
  {
    if users != [] {
      TailWellFormed(users, nextId);
      RemoveUserKeepsWellFormed(users[1..], nextId, id);
      if users[0].id != id {
        ConsWellFormed(users[0], RemoveUser(users[1..], id), nextId);
      }
    }
  }

  /** In a well-formed table holding the id once, removing it drops exactly one row. */
  lemma {:induction false} RemoveUserCount(users: seq<User>, nextId: nat, id: nat)
    requires UsersWellFormed(users, nextId)
    ensures (exists i :: 0 <= i < |users| && users[i].id == id) ==> |RemoveUser(users, id)| == |users| - 1
    ensures (forall i :: 0 <= i < |users| ==> users[i].id != id) ==> RemoveUser(users, id) == users
  {
    if users != [] {
      var tail := users[1..];
      TailWellFormed(users, nextId);
      RemoveUserCount(tail, nextId, id);
      if users[0].id == id {
        assert forall i :: 0 <= i < |tail| ==> tail[i].id != id by {
          forall i | 0 <= i < |tail|
            ensures tail[i].id != id
          {
            assert tail[i] == users[i + 1];
          }
        }
      } else {
        assert forall i :: 0 <= i < |tail| ==> tail[i] == users[i + 1];
      }
    }
  }

  /**
   * `$user->delete()`: the row with the user's id is gone, every other row is
   * kept, the table shrinks by one, and the token table is left as it was.
   */
  method DeleteUser(db: Database, user: User)
    requires db.Valid() && user in db.users
    modifies db
    ensures db.Valid()
    ensures db.users == RemoveUser(old(db.users), user.id)
    ensures |db.users| == |old(db.users)| - 1
    ensures forall u :: u in db.users ==> u.id != user.id
    ensures db.tokens == old(db.tokens)
    ensures db.nextUserId == old(db.nextUserId) && db.nextTokenId == old(db.nextTokenId)
  {
    RemoveUserKeepsWellFormed(db.users, db.nextUserId, user.id);
    RemoveUserCount(db.users, db.nextUserId, user.id);
    db.users := RemoveUser(db.users, user.id);
  }
}
