/** Creating a user: hash the password, then insert the row. */
module CreateUserAction {
  import opened Wrappers
  import opened Hashing
  import opened Store
  import LoginController

  /** The validated body of a create request: all three fields are required. */
  datatype CreatePayload = CreatePayload(name: string, email: string, password: string)

  /** The row `User::create` inserts: name and email as given, the password only as its digest, both timestamps `now`. */
  function NewUser(id: nat, payload: CreatePayload, salt: nat, now: int): (u: User)
    ensures u.id == id && u.name == payload.name && u.email == payload.email
    ensures Check(payload.password, u.password)
    ensures forall other :: Check(other, u.password) ==> other == payload.password
    ensures u.createdAt == now && u.updatedAt == now
  {
    var digest := Make(payload.password, salt);
    forall other | Check(other, digest)
      ensures other == payload.password
    {
      CheckOnlyOriginal(payload.password, other, salt);
    }
    User(id, payload.name, payload.email, digest, now, now)
  }

  /** Appending a row whose email is new, under the next id, keeps the table well formed. */
  lemma InsertKeepsWellFormed(users: seq<User>, nextId: nat, u: User)
    requires UsersWellFormed(users, nextId)
    requires u.id == nextId && !EmailTaken(users, u.email)
    ensures UsersWellFormed(users + [u], nextId + 1)
  {
  }

  /** A freshly created user can log in with the email and password it was created with. */
  lemma CreatedUserCanLogIn(users: seq<User>, nextId: nat, payload: CreatePayload, salt: nat, now: int)
    requires UsersWellFormed(users, nextId) && !EmailTaken(users, payload.email)
    ensures var u := NewUser(nextId, payload, salt, now);
            LoginController.Authenticate(users + [u], payload.email, payload.password) == Some(u)
  {
    var u := NewUser(nextId, payload, salt, now);
    InsertKeepsWellFormed(users, nextId, u);
    FindByEmailUnique(users + [u], nextId + 1, payload.email, |users|);
  }

  /**
   * `User::create($payload)` after hashing the password. Exactly one row is
   * appended and returned; an email already in the table is refused by the
   * unique index and nothing changes.
   */
  method CreateUser(db: Database, payload: CreatePayload, salt: nat, now: int) returns (r: Result<User, StoreError>)
    requires db.Valid()
    modifies db
    ensures db.Valid()
    ensures db.tokens == old(db.tokens) && db.nextTokenId == old(db.nextTokenId)
    ensures EmailTaken(old(db.users), payload.email) ==>
              r == Err(DuplicateEmail) && db.users == old(db.users) && db.nextUserId == old(db.nextUserId)
    ensures !EmailTaken(old(db.users), payload.email) ==>
              && r == Ok(NewUser(old(db.nextUserId), payload, salt, now))
              && db.users == old(db.users) + [r.value]
              && db.nextUserId == old(db.nextUserId) + 1
  {
    if EmailTaken(db.users, payload.email) {
      return Err(DuplicateEmail);
    }
    var user := NewUser(db.nextUserId, payload, salt, now);
    InsertKeepsWellFormed(db.users, db.nextUserId, user);
    db.users := db.users + [user];
    db.nextUserId := db.nextUserId + 1;
    r := Ok(user);
  }
}
