/** Partial update of a user: rehash a supplied password, fill the supplied fields, save. */
module UpdateUserAction {
  import opened Wrappers
  import opened Hashing
  import opened Store
  import LoginController

  /** The validated body of an update request: each field is optional. */
  datatype UpdatePayload = UpdatePayload(name: Option<string>, email: Option<string>, password: Option<string>)

  /**
   * The user's attributes after `fill`: a supplied name or email replaces the
   * old one, a supplied password is stored as a fresh digest of it, and every
   * absent field keeps its old value.
   */
  function Fill(user: User, payload: UpdatePayload, salt: nat): (r: User)
    ensures r.id == user.id && r.createdAt == user.createdAt && r.updatedAt == user.updatedAt
    ensures payload.name.None? ==> r.name == user.name
    ensures payload.name.Some? ==> r.name == payload.name.value
    ensures payload.email.None? ==> r.email == user.email
    ensures payload.email.Some? ==> r.email == payload.email.value
    ensures payload.password.None? ==> r.password == user.password
    ensures payload.password.Some? ==> Check(payload.password.value, r.password)
  {
    var password := if payload.password.Some? then Make(payload.password.value, salt) else user.password;
    user.(name := GetOr(payload.name, user.name), email := GetOr(payload.email, user.email), password := password)
  }

  /** Some attribute differs, so `save` writes the row and stamps `updated_at`. */
  predicate Dirty(before: User, after: User)
  {
    before.name != after.name || before.email != after.email || before.password != after.password
  }

  /** The table with the row whose id is `u.id` replaced by `u`. */
  function Replace(users: seq<User>, u: User): (r: seq<User>)
    ensures |r| == |users|
    ensures forall i :: 0 <= i < |users| && users[i].id != u.id ==> r[i] == users[i]
    ensures forall i :: 0 <= i < |users| && users[i].id == u.id ==> r[i] == u
  {
    seq(|users|, i requires 0 <= i < |users| => if users[i].id == u.id then u else users[i])
  }

  /** Replacing a row by one with the same id and an email no other row has keeps the table well formed. */
  lemma ReplaceKeepsWellFormed(users: seq<User>, nextId: nat, target: User, u: User)
    requires UsersWellFormed(users, nextId) && target in users && u.id == target.id
    requires !EmailTakenByOther(users, u.email, u.id)
    ensures UsersWellFormed(Replace(users, u), nextId)
    ensures u in Replace(users, u)
  {
  }

  /**
   * After a password update the user logs in with the new password and no
   * longer with any other.
   */
  lemma UpdatedPasswordLogsIn(users: seq<User>, nextId: nat, user: User, payload: UpdatePayload, salt: nat,
                              saved: User, password: string)
    requires UsersWellFormed(users, nextId) && user in users && payload.password.Some?
    requires saved == Fill(user, payload, salt).(updatedAt := saved.updatedAt)
    requires !EmailTakenByOther(users, saved.email, saved.id)
    ensures LoginController.Authenticate(Replace(users, saved), saved.email, password).Some?
            <==> password == payload.password.value
  {
    ReplaceKeepsWellFormed(users, nextId, user, saved);
    var r := Replace(users, saved);
    var k :| 0 <= k < |r| && r[k] == saved;
    FindByEmailUnique(r, nextId, saved.email, k);
    CheckOnlyOriginal(payload.password.value, password, salt);
  }

  /**
   * `fill` then `save` then `fresh()`. Only the target row changes; it is
   * returned as stored, with its id unchanged. A new email that another row
   * already holds is refused by the unique index and nothing changes.
   */
  method UpdateUser(db: Database, user: User, payload: UpdatePayload, salt: nat, now: int)
    returns (r: Result<User, StoreError>)
    requires db.Valid() && user in db.users
    modifies db
    ensures db.Valid()
    ensures db.tokens == old(db.tokens) && db.nextUserId == old(db.nextUserId) && db.nextTokenId == old(db.nextTokenId)
    ensures var filled := Fill(user, payload, salt);
            if EmailTakenByOther(old(db.users), filled.email, user.id) then
              r == Err(DuplicateEmail) && db.users == old(db.users)
            else
              && r.Ok?
              && r.value == (if Dirty(user, filled) then filled.(updatedAt := now) else user)
              && r.value in db.users
              && db.users == Replace(old(db.users), r.value)
  {
    var filled := Fill(user, payload, salt);
    if EmailTakenByOther(db.users, filled.email, user.id) {
      return Err(DuplicateEmail);
    }
    var saved := if Dirty(user, filled) then filled.(updatedAt := now) else user;
    ReplaceKeepsWellFormed(db.users, db.nextUserId, user, saved);
    db.users := Replace(db.users, saved);
    r := Ok(saved);
  }
}
