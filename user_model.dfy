/** Users are owned by another part of the system; the data layer only joins
    them in for username, email and avatar. */
module Users {
  import opened Outcomes
  import opened Tables
  import opened Listing

  datatype User = User(id: Id, username: string, email: string, avatar: string, createdAt: int)

  /** The `$lookup` + `$unwind` join on `_id`: the matching user, or None,
      which drops the joined row. */
  function FindUser(users: seq<User>, id: Id): (r: Option<User>)
    ensures r.Some? ==> r.value in users && r.value.id == id
    ensures r.None? ==> forall i :: 0 <= i < |users| ==> users[i].id != id
  {
    match FirstIndex(users, (u: User) => u.id == id)
    case Some(i) => Some(users[i])
    case None => None
  }

  /** The `_id` index every collection has. */
  predicate UniqueIds(users: seq<User>) {
    forall i, j :: 0 <= i < j < |users| ==> users[i].id != users[j].id
  }

  /** With unique ids the join finds the one user holding the id, whatever
      the table's order. */
  lemma FindUserUnique(users: seq<User>, u: User)
    requires UniqueIds(users) && u in users
    ensures FindUser(users, u.id) == Some(u)
  {
    var i :| 0 <= i < |users| && users[i] == u;
    var k := FirstIndex(users, (v: User) => v.id == u.id).value;
    assert users[k].id == users[i].id;
    assert !(k < i) && !(i < k);
  }

  /** `$sort: { createdAt: -1 }`. */
  function NewestFirst(u: User): Rank {
    Rank(u.createdAt, 0)
  }
}
