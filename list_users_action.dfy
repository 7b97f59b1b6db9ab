/** Listing users: every row, newest `created_at` first (`latest()`). */
module ListUsersAction {
  import opened Store

  /** Ordered by `created_at`, non-increasing. */
  predicate NewestFirst(users: seq<User>)
  {
    forall i, j :: 0 <= i < j < |users| ==> users[i].createdAt >= users[j].createdAt
  }

  /** `u` placed into a newest-first list before the first row that is not newer than it. */
  function InsertNewest(u: User, sorted: seq<User>): (r: seq<User>)
    requires NewestFirst(sorted)
    ensures NewestFirst(r)
    ensures multiset(r) == multiset(sorted) + multiset{u}
    ensures forall x :: x in r ==> x == u || x in sorted
  {
    if sorted == [] then [u]
    else if u.createdAt >= sorted[0].createdAt then
      var r := [u] + sorted;
      assert forall j :: 1 <= j < |r| ==> r[j] == sorted[j - 1];
      r
    else
      var head, tail := sorted[0], sorted[1..];
      var rest := InsertNewest(u, tail);
      assert sorted == [head] + tail;
      var r := [head] + rest;
      assert forall j :: 1 <= j < |r| ==> r[j] == rest[j - 1];
      assert forall x :: x in rest ==> head.createdAt >= x.createdAt;
      r
  }

  /**
   * The rows in newest-first order, none dropped and none added. Rows with the
   * same `created_at` may come in any order; this model fixes one.
   */
  function Latest(users: seq<User>): (r: seq<User>)
    ensures NewestFirst(r)
    ensures multiset(r) == multiset(users)
    ensures |r| == |users|
  {
    if users == [] then []
    else
      assert users == [users[0]] + users[1..];
      InsertNewest(users[0], Latest(users[1..]))
  }

  /** The list action: reads the users table and changes nothing. */
  method ListUsers(db: Database) returns (r: seq<User>)
    ensures NewestFirst(r)
    ensures multiset(r) == multiset(db.users)
    ensures forall u :: u in r <==> u in db.users
  {
    r := Latest(db.users);
    assert forall u :: u in r <==> u in multiset(db.users);
  }
}
