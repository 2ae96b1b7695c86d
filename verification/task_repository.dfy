/** The task table. Its rows are the Task objects themselves, so a change
    made to a loaded task is a change to the stored task, as with the
    persistence context the source runs in. */
module TaskStore {
  import opened Wrappers
  import opened Tasks

  /** `t` belongs to the user with id `userId`. */
  predicate Owns(t: Task, userId: nat)
    reads t
  {
    t.user.Some? && t.user.value.id == userId
  }

  /** The stored rows keep the store's invariant: every row has an id below
      `nextId` and an owner, and ids strictly increase in store order (the id
      sequence only grows), so no two rows share an id. */
  ghost predicate StoreInvariant(rows: seq<Task>, nextId: nat)
    reads rows
  {
    && (forall i :: 0 <= i < |rows| ==>
          rows[i].id.Some? && rows[i].id.value < nextId && rows[i].user.Some?)
    && (forall i, j :: 0 <= i < j < |rows| ==> rows[i].id.value < rows[j].id.value)
  }

  /** The store's lookup by id. */
  function FindTaskById(rows: seq<Task>, id: nat): (r: Option<Task>)
    reads rows
    ensures r.Some? ==> r.value in rows && r.value.id == Some(id)
    ensures r.None? <==> forall t :: t in rows ==> t.id != Some(id)
  {
    if rows == [] then None
    else if rows[0].id == Some(id) then Some(rows[0])
    else FindTaskById(rows[1..], id)
  }

  /** The store's query for the tasks of one user, in store order. */
  function OwnedBy(rows: seq<Task>, userId: nat): (r: seq<Task>)
    reads rows
    ensures |r| <= |rows|
    ensures forall t :: t in r ==> t in rows && Owns(t, userId)
    ensures forall t :: t in rows && Owns(t, userId) ==> t in r
  {
    if rows == [] then []
    else (if Owns(rows[0], userId) then [rows[0]] else []) + OwnedBy(rows[1..], userId)
  }

  /** The rows left after deleting by id, in store order. */
  function WithoutId(rows: seq<Task>, id: nat): (r: seq<Task>)
    reads rows
    ensures |r| <= |rows|
    ensures forall t :: t in r ==> t in rows && t.id != Some(id)
    ensures forall t :: t in rows && t.id != Some(id) ==> t in r
  {
    if rows == [] then []
    else (if rows[0].id == Some(id) then [] else [rows[0]]) + WithoutId(rows[1..], id)
  }

  /** The query for one user's tasks distributes over the store's order: the
      rows of other users, wherever they stand, add nothing. */
  lemma {:induction false} OwnedByAppend(a: seq<Task>, b: seq<Task>, userId: nat)
    ensures OwnedBy(a + b, userId) == OwnedBy(a, userId) + OwnedBy(b, userId)
  {
    if a == [] {
      assert a + b == b;
    } else {
      assert (a + b)[0] == a[0];
      assert (a + b)[1..] == a[1..] + b;
      OwnedByAppend(a[1..], b, userId);
    }
  }

  /** A store without tasks of a user answers its query with nothing. */
  lemma {:induction false} OwnedByNone(rows: seq<Task>, userId: nat)
    requires forall t :: t in rows ==> !Owns(t, userId)
    ensures OwnedBy(rows, userId) == []
  {
    if rows != [] {
      OwnedByNone(rows[1..], userId);
    }
  }

  /** The tail of a store keeping its invariant keeps it too, and its ids are
      all above the first row's. */
  lemma TailInvariant(rows: seq<Task>, nextId: nat)
    requires StoreInvariant(rows, nextId) && rows != []
    ensures StoreInvariant(rows[1..], nextId)
    ensures forall t :: t in rows[1..] ==> rows[0].id.value < t.id.value
  {
    forall t | t in rows[1..]
      ensures rows[0].id.value < t.id.value
    {
      var j :| 0 <= j < |rows[1..]| && rows[1..][j] == t;
      assert rows[j + 1] == t;
    }
  }

  /** Putting a row with a smaller id in front of a store keeps the invariant. */
  lemma ConsInvariant(x: Task, rest: seq<Task>, nextId: nat)
    requires StoreInvariant(rest, nextId)
    requires x.id.Some? && x.id.value < nextId && x.user.Some?
    requires forall t :: t in rest ==> x.id.value < t.id.value
    ensures StoreInvariant([x] + rest, nextId)
  {
    var r := [x] + rest;
    forall i, j | 0 <= i < j < |r|
      ensures r[i].id.value < r[j].id.value
    {
      assert r[j] == rest[j - 1];
      if i > 0 {
        assert r[i] == rest[i - 1];
      }
    }
  }

  /** A row of a store keeping its invariant is what the lookup by its id finds. */
  lemma {:induction false} FindTaskByIdStored(rows: seq<Task>, nextId: nat, i: nat)
    requires StoreInvariant(rows, nextId) && i < |rows|
    ensures FindTaskById(rows, rows[i].id.value) == Some(rows[i])
  {
    if i > 0 {
      TailInvariant(rows, nextId);
      assert rows[1..][i - 1] == rows[i];
      FindTaskByIdStored(rows[1..], nextId, i - 1);
    }
  }

  /** Deleting keeps the store's invariant. */
  lemma {:induction false} WithoutIdKeepsInvariant(rows: seq<Task>, nextId: nat, id: nat)
    requires StoreInvariant(rows, nextId)
    ensures StoreInvariant(WithoutId(rows, id), nextId)
  {
    if rows != [] {
      TailInvariant(rows, nextId);
      WithoutIdKeepsInvariant(rows[1..], nextId, id);
      var rest := WithoutId(rows[1..], id);
      if rows[0].id != Some(id) {
        assert WithoutId(rows, id) == [rows[0]] + rest;
        ConsInvariant(rows[0], rest, nextId);
      } else {
        assert WithoutId(rows, id) == rest;
      }
    }
  }

  /** Deleting by id removes that id and leaves every other lookup as it was. */
  lemma {:induction false} WithoutIdLookups(rows: seq<Task>, id: nat, other: nat)
    ensures FindTaskById(WithoutId(rows, id), id).None?
    ensures other != id ==> FindTaskById(WithoutId(rows, id), other) == FindTaskById(rows, other)
  {
    if rows != [] {
      WithoutIdLookups(rows[1..], id, other);
      var rest := WithoutId(rows[1..], id);
      if rows[0].id != Some(id) {
        var r := [rows[0]] + rest;
        assert WithoutId(rows, id) == r;
        assert r[0] == rows[0] && r[1..] == rest;
      } else {
        assert WithoutId(rows, id) == rest;
      }
    }
  }

  class TaskRepository {
    var rows: seq<Task>
    var nextId: nat

    ghost predicate Valid()
      reads this, rows
    {
      StoreInvariant(rows, nextId)
    }

    constructor ()
      ensures Valid() && rows == [] && nextId == 1
    {
      rows := [];
      nextId := 1;
    }

    /** Saving a new task gives it the next id and appends it; the saved
        object itself is returned. */
    method Save(task: Task) returns (saved: Task)
      requires Valid()
      requires task !in rows && task.id.None? && task.user.Some?
      modifies this, task
      ensures Valid()
      ensures saved == task
      ensures task.State() == old(task.State()).(id := Some(old(nextId)))
      ensures rows == old(rows) + [task] && nextId == old(nextId) + 1
    {
      task.SetId(Some(nextId));
      rows := rows + [task];
      nextId := nextId + 1;
      saved := task;
    }

    /** Deleting by id removes the row with that id, if there is one. */
    method DeleteById(id: nat)
      requires Valid()
      modifies this
      ensures Valid()
      ensures rows == WithoutId(old(rows), id) && nextId == old(nextId)
    {
      WithoutIdKeepsInvariant(rows, nextId, id);
      rows := WithoutId(rows, id);
    }
  }
}
