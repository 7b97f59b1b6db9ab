/**
 * The two tables the application works on: users and personal access tokens,
 * held by one in-memory database object that the actions update in place.
 */
module Store {
  import opened Wrappers
  import opened Hashing

  /** A row of the users table. The password column only ever holds a digest. */
  datatype User = User(id: nat, name: string, email: string, password: Digest, createdAt: int, updatedAt: int)

  /** The user resource sent to clients: every column but the password. */
  datatype PublicUser = PublicUser(id: nat, name: string, email: string, createdAt: int, updatedAt: int)

  /** A row of the personal access tokens table: the owning user's id, the token's name, its abilities and its expiry. */
  datatype Token = Token(id: nat, owner: nat, name: string, abilities: seq<string>, expiresAt: int)

  /** A write that the users table's unique index on email refuses. */
  datatype StoreError = DuplicateEmail

  function Public(u: User): PublicUser
  {
    PublicUser(u.id, u.name, u.email, u.createdAt, u.updatedAt)
  }

  /** The token occupies the slot (owner, name). */
  predicate InSlot(t: Token, owner: nat, name: string)
  {
    t.owner == owner && t.name == name
  }

  /** Ids are positive and below the next id to hand out; no two rows share an id or an email. */
  predicate UsersWellFormed(users: seq<User>, nextId: nat)
  {
    && 1 <= nextId
    && (forall i :: 0 <= i < |users| ==> 1 <= users[i].id < nextId)
    && (forall i, j :: 0 <= i < j < |users| ==> users[i].id != users[j].id && users[i].email != users[j].email)
  }

  /** Every token is stored under its own id, below the next id; no two tokens share a slot. */
  predicate TokensWellFormed(tokens: map<nat, Token>, nextId: nat)
  {
    && 1 <= nextId
    && (forall k :: k in tokens ==> tokens[k].id == k && 1 <= k < nextId)
    && (forall k1, k2 :: k1 in tokens && k2 in tokens && k1 != k2 ==>
          !InSlot(tokens[k2], tokens[k1].owner, tokens[k1].name))
  }

  /** Some row has this email. */
  predicate EmailTaken(users: seq<User>, email: string)
  {
    exists i :: 0 <= i < |users| && users[i].email == email
  }

  /** Some row other than the one with id `ignoredId` has this email. */
  predicate EmailTakenByOther(users: seq<User>, email: string, ignoredId: int)
  {
    exists i :: 0 <= i < |users| && users[i].email == email && users[i].id != ignoredId
  }

  /** `where('email', email)->first()`: the first row, in table order, with exactly this email. */
  function FindByEmail(users: seq<User>, email: string): (r: Option<User>)
    ensures r.None? <==> !EmailTaken(users, email)
    ensures r.Some? ==> exists i :: 0 <= i < |users| && users[i] == r.value && r.value.email == email
                                    && forall j :: 0 <= j < i ==> users[j].email != email
  {
    if users == [] then None
    else if users[0].email == email then Some(users[0])
    else
      var r := FindByEmail(users[1..], email);
      assert forall i :: 1 <= i < |users| ==> users[i] == users[1..][i - 1];
      r
  }

  /** In a well-formed table, the row found by email is the only row with that email. */
  lemma FindByEmailUnique(users: seq<User>, nextId: nat, email: string, i: nat)
    requires UsersWellFormed(users, nextId)
    requires i < |users| && users[i].email == email
    ensures FindByEmail(users, email) == Some(users[i])
  {
  }

  /** The in-memory database: both tables and the auto-increment counters of their ids. */
  class Database {
    var users: seq<User>
    var tokens: map<nat, Token>
    var nextUserId: nat
    var nextTokenId: nat

    ghost predicate Valid()
      reads this
    {
      UsersWellFormed(users, nextUserId) && TokensWellFormed(tokens, nextTokenId)
    }

    constructor ()
      ensures Valid()
      ensures users == [] && tokens == map[] && nextUserId == 1 && nextTokenId == 1
    {
      users := [];
      tokens := map[];
      nextUserId := 1;
      nextTokenId := 1;
    }
  }
}
