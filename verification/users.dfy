/** Users and the user store. User.java is not part of this model: a user is
    taken to be its stored row (id, name, email, password hash), and its
    user-details name to be the email, as ApplicationConfig.java:36 looks
    users up by that name. */
module Users {
  import opened Wrappers

  datatype User = User(id: nat, name: string, email: string, password: string)

  /** The store's exact-match lookup by email, in store order. */
  function FindByEmail(users: seq<User>, email: string): (r: Option<User>)
    ensures r.Some? ==> r.value in users && r.value.email == email
    ensures r.None? <==> forall u :: u in users ==> u.email != email
  {
    if users == [] then None
    else if users[0].email == email then Some(users[0])
    else FindByEmail(users[1..], email)
  }

  /** The store's lookup by id, in store order. */
  function FindUserById(users: seq<User>, id: nat): (r: Option<User>)
    ensures r.Some? ==> r.value in users && r.value.id == id
    ensures r.None? <==> forall u :: u in users ==> u.id != id
  {
    if users == [] then None
    else if users[0].id == id then Some(users[0])
    else FindUserById(users[1..], id)
  }

  /** No two stored users share an email. */
  ghost predicate UniqueEmails(users: seq<User>) {
    forall i, j :: 0 <= i < j < |users| ==> users[i].email != users[j].email
  }

  /** Appending a user changes a lookup by email only when nothing earlier matched. */
  lemma {:induction false} FindByEmailAppend(users: seq<User>, u: User, email: string)
    ensures FindByEmail(users + [u], email) ==
      if FindByEmail(users, email).Some? then FindByEmail(users, email)
      else if u.email == email then Some(u)
      else None
  {
    if users != [] {
      assert (users + [u])[1..] == users[1..] + [u];
      FindByEmailAppend(users[1..], u, email);
    }
  }

  /** Under unique emails, the lookup finds the one user that has the email. */
  lemma {:induction false} FindByEmailUnique(users: seq<User>, u: User)
    requires UniqueEmails(users) && u in users
    ensures FindByEmail(users, u.email) == Some(u)
  {
    if users[0] != u {
      assert forall i, j :: 0 <= i < j < |users[1..]| ==>
        users[1..][i] == users[i + 1] && users[1..][j] == users[j + 1];
      FindByEmailUnique(users[1..], u);
    }
  }

  /** Ids increase along the table, as the store's sequence hands them out. */
  ghost predicate IncreasingIds(users: seq<User>) {
    forall i, j :: 0 <= i < j < |users| ==> users[i].id < users[j].id
  }

  /** With increasing ids, the lookup by a stored user's id finds that user. */
  lemma {:induction false} FindUserByIdStored(users: seq<User>, u: User)
    requires IncreasingIds(users) && u in users
    ensures FindUserById(users, u.id) == Some(u)
  {
    if users[0] != u {
      assert u in users[1..];
      assert users[0].id != u.id;
      FindUserByIdStored(users[1..], u);
    }
  }

  /** The user table: rows in insertion order and the next id the store's
      sequence will hand out. */
  class UserRepository {
    var rows: seq<User>
    var nextId: nat

    /** Ids are handed out in increasing order, so every row's id is below
        nextId and ids are distinct. */
    ghost predicate Valid()
      reads this
    {
      && (forall i :: 0 <= i < |rows| ==> rows[i].id < nextId)
      && IncreasingIds(rows)
    }

    constructor ()
      ensures Valid() && rows == [] && nextId == 1
    {
      rows := [];
      nextId := 1;
    }

    /** Saving a new user assigns it the next id and appends its row. */
    method Save(name: string, email: string, password: string) returns (u: User)
      requires Valid()
      modifies this
      ensures Valid()
      ensures u == User(old(nextId), name, email, password)
      ensures rows == old(rows) + [u] && nextId == old(nextId) + 1
    {
      u := User(nextId, name, email, password);
      rows := rows + [u];
      nextId := nextId + 1;
    }
  }
}
