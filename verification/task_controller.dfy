/** TaskController: every single-task endpoint first finds the task (404),
    then resolves the caller (401) and checks that the caller owns the task
    (403), and only then reads, changes or deletes it. Listing by user
    requires the path's user id to be the caller's. */
module TaskController {
  import opened Wrappers
  import opened Http
  import opened Exceptions
  import opened Users
  import opened Security
  import opened Tasks
  import opened TaskStore
  import opened TaskService
  import opened AuthUtils

  const INVALID_USER: string := "Invalid user"
  const NOT_YOUR_TASK: string := "Unauthorised - not your task"
  const UNAUTHORISED: string := "Unauthorised"
  const DELETED: string := "Task was successfully deleted"

  /** Every stored task has an owner. */
  ghost predicate Owned(rows: seq<Task>)
    reads rows
  {
    forall t :: t in rows ==> t.user.Some?
  }

  /** The caller is the owner of the task with `id`: such a task is stored,
      and the principal's email resolves to a user whose id is its owner's. */
  ghost predicate CallerOwns(rows: seq<Task>, id: nat, auth: Authentication, users: seq<User>)
    reads rows
  {
    && FindTaskById(rows, id).Some?
    && FindTaskById(rows, id).value.user.Some?
    && GetUserIdFromAuth(auth, users) == Success(FindTaskById(rows, id).value.user.value.id)
  }

  /** The checks shared by getTask, updateTask and deleteTask, in the source's
      order: existence, then the caller's identity, then ownership. */
  function Guard(rows: seq<Task>, id: nat, auth: Authentication, users: seq<User>)
    : (r: Result<Task, Exception>)
    reads rows
    requires Owned(rows)
    ensures r.Success? <==> CallerOwns(rows, id, auth, users)
    ensures r.Success? ==> r.value in rows && r.value.id == Some(id) && r.value.user.Some?
    ensures (forall t :: t in rows ==> t.id != Some(id)) ==>
      r == Failure(NotFoundException(TaskNotFoundMessage(id)))
    ensures FindTaskById(rows, id).Some? && GetUserIdFromAuth(auth, users).Failure? ==>
      r == Failure(AuthenticationException(UNAUTHENTICATED))
    ensures (FindTaskById(rows, id).Some? && GetUserIdFromAuth(auth, users).Success?
             && !CallerOwns(rows, id, auth, users)) ==>
      r == Failure(AuthorisationException(NOT_YOUR_TASK))
  {
    match GetTaskById(rows, id)
    case Failure(e) => Failure(e)
    case Success(task) =>
      match GetUserIdFromAuth(auth, users)
      case Failure(e) => Failure(e)
      case Success(userId) =>
        if userId != task.user.value.id then Failure(AuthorisationException(NOT_YOUR_TASK))
        else Success(task)
  }

  /** A stored task is refused to every caller who resolves to a user other
      than its owner, with an authorisation error. */
  lemma NonOwnerIsForbidden(tasks: TaskRepository, i: nat, auth: Authentication, users: seq<User>, caller: User)
    requires tasks.Valid() && i < |tasks.rows|
    requires UniqueEmails(users) && caller in users && caller.email == Username(auth)
    requires caller.id != tasks.rows[i].user.value.id
    ensures Guard(tasks.rows, tasks.rows[i].id.value, auth, users)
      == Failure(AuthorisationException(NOT_YOUR_TASK))
  {
    FindTaskByIdStored(tasks.rows, tasks.nextId, i);
    CallerIdIsOwnersId(auth, users, caller);
  }

  /** A stored task is granted to its owner. */
  lemma OwnerIsGranted(tasks: TaskRepository, i: nat, auth: Authentication, users: seq<User>, caller: User)
    requires tasks.Valid() && i < |tasks.rows|
    requires UniqueEmails(users) && caller in users && caller.email == Username(auth)
    requires caller.id == tasks.rows[i].user.value.id
    ensures Guard(tasks.rows, tasks.rows[i].id.value, auth, users) == Success(tasks.rows[i])
  {
    FindTaskByIdStored(tasks.rows, tasks.nextId, i);
    CallerIdIsOwnersId(auth, users, caller);
  }

  /** createTask: a caller with no stored user is a bad request and nothing is
      created; otherwise the caller's new task is saved and its DTO returned
      with status 201. */
  method CreateTask(payload: NewTaskPayload, auth: Authentication, users: seq<User>, tasks: TaskRepository)
    returns (r: Result<Response<TaskDTO>, Exception>)
    requires tasks.Valid()
    modifies tasks
    ensures tasks.Valid()
    ensures GetUserFromAuth(auth, users).None? ==>
      && r == Failure(BadRequestException(INVALID_USER))
      && tasks.rows == old(tasks.rows) && tasks.nextId == old(tasks.nextId)
    ensures GetUserFromAuth(auth, users).Some? ==>
      var created := NewTaskState(payload, GetUserFromAuth(auth, users).value).(id := Some(old(tasks.nextId)));
      && |tasks.rows| == |old(tasks.rows)| + 1
      && tasks.rows[..|old(tasks.rows)|] == old(tasks.rows)
      && tasks.rows[|old(tasks.rows)|].State() == created
      && r == Success(Response(CREATED, DtoOf(created)))
  {
    var user := GetUserFromAuth(auth, users);
    if user.None? {
      return Failure(BadRequestException(INVALID_USER));
    }
    var newTask := CreateTaskFor(payload, user.value, tasks);
    assert tasks.rows[..|old(tasks.rows)|] == old(tasks.rows);
    r := Success(Response(CREATED, newTask.ToDTO()));
  }

  /** getTask: the guard's verdict; on success the stored task's DTO with status 200. */
  function GetTask(id: nat, auth: Authentication, users: seq<User>, rows: seq<Task>)
    : (r: Result<Response<TaskDTO>, Exception>)
    reads rows
    requires Owned(rows)
    ensures r.Success? <==> CallerOwns(rows, id, auth, users)
    ensures r.Failure? ==> r.error == Guard(rows, id, auth, users).error
    ensures r.Success? ==>
      && r.value.status == OK
      && r.value.body == DtoOf(FindTaskById(rows, id).value.State())
  {
    match Guard(rows, id, auth, users)
    case Failure(e) => Failure(e)
    case Success(task) => Success(Response(OK, task.ToDTO()))
  }

  /** The DTOs of the given tasks, in order; every task must have an owner. */
  function DTOs(ts: seq<Task>): (r: seq<TaskDTO>)
    reads set t | t in ts
    requires Owned(ts)
    ensures |r| == |ts|
    ensures forall k :: 0 <= k < |ts| ==> r[k] == DtoOf(ts[k].State())
  {
    if ts == [] then []
    else
      assert ts[0] in ts;
      [ts[0].ToDTO()] + DTOs(ts[1..])
  }

  /** `body` lists a user's tasks: the DTOs of the stored tasks the user
      owns, position by position in store order. */
  ghost predicate ListsUserTasks(rows: seq<Task>, userId: nat, body: seq<TaskDTO>)
    reads rows
  {
    var owned := OwnedBy(rows, userId);
    && |body| == |owned|
    && forall k :: 0 <= k < |body| ==>
         assert owned[k] in owned; body[k] == DtoOf(owned[k].State())
  }

  /** The DTOs of the service's answer list exactly the user's tasks in store
      order; so every entry names the user and is the DTO of a stored task
      the user owns, and every such task is listed. */
  lemma OwnedDTOs(rows: seq<Task>, userId: nat)
    requires Owned(rows)
    ensures var body := DTOs(TaskService.GetUserTasks(rows, userId));
      && ListsUserTasks(rows, userId, body)
      && (forall d :: d in body ==> d.userId == userId)
      && (forall d :: d in body ==> exists t :: t in rows && Owns(t, userId) && d == DtoOf(t.State()))
      && (forall t :: t in rows && Owns(t, userId) ==> DtoOf(t.State()) in body)
  {
    var owned := TaskService.GetUserTasks(rows, userId);
    assert owned == OwnedBy(rows, userId);
    var body := DTOs(owned);
    forall d | d in body
      ensures d.userId == userId
      ensures exists t :: t in rows && Owns(t, userId) && d == DtoOf(t.State())
    {
      var k :| 0 <= k < |body| && body[k] == d;
      assert owned[k] in owned;
    }
    forall t | t in rows && Owns(t, userId)
      ensures DtoOf(t.State()) in body
    {
      var k :| 0 <= k < |owned| && owned[k] == t;
      assert body[k] == DtoOf(t.State());
    }
  }

  /** The body getUserTasks answers with: the DTOs of the service's list of
      the user's tasks. */
  function UserTaskDTOs(rows: seq<Task>, userId: nat): (body: seq<TaskDTO>)
    reads rows
    requires Owned(rows)
    ensures ListsUserTasks(rows, userId, body)
  {
    var owned := TaskService.GetUserTasks(rows, userId);
    OwnedDTOs(rows, userId);
    DTOs(owned)
  }

  /** getUserTasks: a path id other than the caller's is refused before any
      query runs; otherwise the DTOs of the user's tasks, in store order. */
  function GetUserTasks(userId: nat, auth: Authentication, users: seq<User>, rows: seq<Task>)
    : (r: Result<Response<seq<TaskDTO>>, Exception>)
    reads rows
    requires Owned(rows)
    ensures GetUserIdFromAuth(auth, users).Failure? ==>
      r == Failure(AuthenticationException(UNAUTHENTICATED))
    ensures GetUserIdFromAuth(auth, users).Success? && GetUserIdFromAuth(auth, users).value != userId ==>
      r == Failure(AuthorisationException(UNAUTHORISED))
    ensures r.Success? <==> GetUserIdFromAuth(auth, users) == Success(userId)
    ensures r.Success? ==> r.value.status == OK && ListsUserTasks(rows, userId, r.value.body)
  {
    match GetUserIdFromAuth(auth, users)
    case Failure(e) => Failure(e)
    case Success(authUserId) =>
      if authUserId != userId then Failure(AuthorisationException(UNAUTHORISED))
      else
        Success(Response(OK, UserTaskDTOs(rows, userId)))
  }

  /** updateTask: the guard's verdict; only when it passes is the merge
      applied, in place, to the stored task, whose DTO is returned with status
      200. A refused request changes no task. */
  method UpdateTask(id: nat, payload: UpdateTaskPayload, auth: Authentication, users: seq<User>, tasks: TaskRepository)
    returns (r: Result<Response<TaskDTO>, Exception>)
    requires tasks.Valid()
    modifies tasks.rows
    ensures tasks.Valid()
    ensures old(Guard(tasks.rows, id, auth, users)).Failure? ==>
      && r == Failure(old(Guard(tasks.rows, id, auth, users)).error)
      && forall t :: t in tasks.rows ==> t.State() == old(t.State())
    ensures old(Guard(tasks.rows, id, auth, users)).Success? ==>
      var task := old(Guard(tasks.rows, id, auth, users)).value;
      && task.State() == Merge(old(task.State()), payload)
      && (forall t :: t in tasks.rows && t != task ==> t.State() == old(t.State()))
      && r == Success(Response(OK, DtoOf(task.State())))
  {
    var g := Guard(tasks.rows, id, auth, users);
    if g.Failure? {
      return Failure(g.error);
    }
    label found:
    var updatedTask := TaskService.UpdateTask(g.value, payload);
    assert forall t :: t in tasks.rows && t != g.value ==> unchanged@found(t);
    r := Success(Response(OK, updatedTask.ToDTO()));
  }

  /** deleteTask: the guard's verdict; only when it passes is the task removed,
      and success is reported with a fixed message. A refused request leaves
      the store as it was. */
  method DeleteTask(id: nat, auth: Authentication, users: seq<User>, tasks: TaskRepository)
    returns (r: Result<Response<string>, Exception>)
    requires tasks.Valid()
    modifies tasks
    ensures tasks.Valid() && tasks.nextId == old(tasks.nextId)
    ensures old(Guard(tasks.rows, id, auth, users)).Failure? ==>
      && r == Failure(old(Guard(tasks.rows, id, auth, users)).error)
      && tasks.rows == old(tasks.rows)
    ensures old(Guard(tasks.rows, id, auth, users)).Success? ==>
      && tasks.rows == WithoutId(old(tasks.rows), id)
      && r == Success(Response(OK, DELETED))
  {
    var g := Guard(tasks.rows, id, auth, users);
    if g.Failure? {
      return Failure(g.error);
    }
    TaskService.DeleteTask(tasks, id);
    r := Success(Response(OK, DELETED));
  }
}
