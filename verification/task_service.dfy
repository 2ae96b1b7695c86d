/** TaskService: creating a task from a request, the read-only lookups, the
    field-by-field merge of an update request, and deletion. */
module TaskService {
  import opened Wrappers
  import opened JavaString
  import opened Exceptions
  import opened Users
  import opened Tasks
  import opened TaskStore

  /** The text field a patch leaves behind: the trimmed patch value when one is
      given and is not blank, otherwise the current value. */
  function MergeText(current: string, patch: Option<string>): (r: string)
    ensures patch.None? || IsBlank(patch.value) ==> r == current
    ensures patch.Some? && !IsBlank(patch.value) ==> r == Trim(patch.value) && IsTrimmed(r) && r != []
  {
    if patch.Some? && !IsBlank(patch.value) then Trim(patch.value) else current
  }

  /** The due date a patch leaves behind: the patch's date when one is given. */
  function MergeDate(current: LocalDate, patch: Option<LocalDate>): (r: LocalDate)
    ensures patch.None? ==> r == current
    ensures patch.Some? ==> r == patch.value
  {
    if patch.Some? then patch.value else current
  }

  /** The task state an update request leaves behind. The completion flag
      always ends equal to the request's, which has no "absent" value. */
  function Merge(s: TaskState, p: UpdateTaskPayload): (r: TaskState)
    ensures r.id == s.id && r.user == s.user
    ensures r.title == MergeText(s.title, p.title)
    ensures r.description == MergeText(s.description, p.description)
    ensures r.dueDate == MergeDate(s.dueDate, p.dueDate)
    ensures r.isComplete == p.isComplete
  {
    s.(title := MergeText(s.title, p.title),
       description := MergeText(s.description, p.description),
       dueDate := MergeDate(s.dueDate, p.dueDate),
       isComplete := p.isComplete)
  }

  /** A text patch that cannot change the current value. */
  predicate TextPatchIsNoOp(current: string, patch: Option<string>) {
    patch.None? || IsBlank(patch.value) || Trim(patch.value) == current
  }

  /** The new task a creation request describes, before the store gives it an id. */
  function NewTaskState(p: NewTaskPayload, owner: User): TaskState {
    TaskState(None, Trim(p.title),
      if p.description.None? then "" else Trim(p.description.value),
      p.dueDate, false, Some(owner))
  }

  /** The shape every task created through the API has: a trimmed, non-empty
      title and a trimmed description. */
  predicate Normalised(s: TaskState) {
    IsTrimmed(s.title) && s.title != [] && IsTrimmed(s.description)
  }

  /** A creation request whose title passed the not-blank check yields a
      normalised, unfinished task owned by the given user. */
  lemma NewTaskIsNormalised(p: NewTaskPayload, owner: User)
    requires !IsBlank(p.title)
    ensures Normalised(NewTaskState(p, owner))
    ensures NewTaskState(p, owner).description == "" <==> p.description.None? || IsBlank(p.description.value)
  {
  }

  /** Each text field changes exactly when the source's three-part test
      passes (present, non-blank after trim, different from the current
      value), and then becomes the trimmed patch value. */
  lemma {:induction false} MergeTextRule(current: string, patch: Option<string>)
    ensures MergeText(current, patch) != current <==>
      patch.Some? && !IsBlank(patch.value) && Trim(patch.value) != current
    ensures MergeText(current, patch) != current ==> MergeText(current, patch) == Trim(patch.value)
  {
  }

  /** A blank or absent patch never clears a text field: whatever the merge
      leaves is the old value or a non-blank trimmed string. */
  lemma {:induction false} MergeNeverBlanks(s: TaskState, p: UpdateTaskPayload)
    ensures var r := Merge(s, p);
      && (r.title == s.title || (!IsBlank(r.title) && IsTrimmed(r.title)))
      && (r.description == s.description || (!IsBlank(r.description) && IsTrimmed(r.description)))
  {
    if p.title.Some? && !IsBlank(p.title.value) {
      TrimIdempotent(p.title.value);
    }
    if p.description.Some? && !IsBlank(p.description.value) {
      TrimIdempotent(p.description.value);
    }
  }

  /** The merge keeps a normalised task normalised. */
  lemma {:induction false} MergeKeepsNormalised(s: TaskState, p: UpdateTaskPayload)
    requires Normalised(s)
    ensures Normalised(Merge(s, p))
  {
  }

  /** The merge never touches the id or the owner. */
  lemma MergeKeepsIdentity(s: TaskState, p: UpdateTaskPayload)
    ensures Merge(s, p).id == s.id && Merge(s, p).user == s.user
  {
  }

  /** Applying the same update twice leaves what applying it once leaves. */
  lemma {:induction false} MergeIdempotent(s: TaskState, p: UpdateTaskPayload)
    ensures Merge(Merge(s, p), p) == Merge(s, p)
  {
  }

  /** An update changes nothing exactly when every field's patch is a no-op
      and the request's completion flag equals the current one. */
  lemma {:induction false} MergeNoOpIff(s: TaskState, p: UpdateTaskPayload)
    ensures Merge(s, p) == s <==>
      && TextPatchIsNoOp(s.title, p.title)
      && TextPatchIsNoOp(s.description, p.description)
      && (p.dueDate.None? || p.dueDate.value == s.dueDate)
      && p.isComplete == s.isComplete
  {
    if Merge(s, p) == s {
      assert Merge(s, p).title == s.title && Merge(s, p).description == s.description;
    }
  }

  /** A later update overrides an earlier one on every field it sets, and the
      earlier one survives on the fields the later one leaves absent. */
  lemma {:induction false} MergeLaterWins(s: TaskState, p: UpdateTaskPayload, q: UpdateTaskPayload)
    ensures var r := Merge(Merge(s, p), q);
      && (q.title.Some? && !IsBlank(q.title.value) ==> r.title == Trim(q.title.value))
      && (q.title.None? ==> r.title == Merge(s, p).title)
      && (q.description.Some? && !IsBlank(q.description.value) ==> r.description == Trim(q.description.value))
      && (q.description.None? ==> r.description == Merge(s, p).description)
      && (q.dueDate.Some? ==> r.dueDate == q.dueDate.value)
      && (q.dueDate.None? ==> r.dueDate == Merge(s, p).dueDate)
      && r.isComplete == q.isComplete
  {
  }

  /** The unsaved task createTask builds: the given fields, not complete,
      owned by `owner`, with no id yet. */
  method BuildTask(title: string, description: string, dueDate: LocalDate, owner: User)
    returns (t: Task)
    ensures fresh(t)
    ensures t.State() == TaskState(None, title, description, dueDate, false, Some(owner))
  {
    t := new Task(title, description, dueDate, false);
    t.SetUser(Some(owner));
  }

  /** createTask as the controller and the tests call it, with the owner
      passed in: builds the normalised task, saves it once and returns the
      saved object. */
  method CreateTaskFor(payload: NewTaskPayload, owner: User, tasks: TaskRepository) returns (task: Task)
    requires tasks.Valid()
    modifies tasks
    ensures tasks.Valid() && fresh(task)
    ensures tasks.rows == old(tasks.rows) + [task] && tasks.nextId == old(tasks.nextId) + 1
    ensures task.State() == NewTaskState(payload, owner).(id := Some(old(tasks.nextId)))
  {
    var title := Trim(payload.title);
    var description := if payload.description.None? then "" else Trim(payload.description.value);
    var t := BuildTask(title, description, payload.dueDate, owner);
    task := tasks.Save(t);
  }

  function UserNotFoundMessage(id: nat): string {
    "User with ID " + Decimal(id) + " doesn't exist"
  }

  /** createTask as TaskService writes it: the owner is looked up by the
      request's user id, and an unknown id is a validation error that saves
      nothing. */
  method CreateTask(payload: NewTaskPayload, users: seq<User>, tasks: TaskRepository)
    returns (r: Result<Task, Exception>)
    requires tasks.Valid()
    modifies tasks
    ensures tasks.Valid()
    ensures FindUserById(users, payload.userId).None? ==>
      && r == Failure(ValidationException(UserNotFoundMessage(payload.userId)))
      && tasks.rows == old(tasks.rows) && tasks.nextId == old(tasks.nextId)
    ensures FindUserById(users, payload.userId).Some? ==>
      && r.Success? && fresh(r.value)
      && tasks.rows == old(tasks.rows) + [r.value]
      && r.value.State() ==
           NewTaskState(payload, FindUserById(users, payload.userId).value).(id := Some(old(tasks.nextId)))
  {
    var user := FindUserById(users, payload.userId);
    if user.None? {
      return Failure(ValidationException(UserNotFoundMessage(payload.userId)));
    }
    var task := CreateTaskFor(payload, user.value, tasks);
    r := Success(task);
  }

  function TaskNotFoundMessage(id: nat): string {
    "Cannot find task with ID " + Decimal(id)
  }

  /** getTaskById: the stored task with the id, or a not-found error naming the id. */
  function GetTaskById(rows: seq<Task>, id: nat): (r: Result<Task, Exception>)
    reads rows
    ensures r.Success? ==> r.value in rows && r.value.id == Some(id)
    ensures r.Failure? <==> forall t :: t in rows ==> t.id != Some(id)
    ensures r.Failure? ==> r.error == NotFoundException(TaskNotFoundMessage(id))
  {
    match FindTaskById(rows, id)
    case None => Failure(NotFoundException(TaskNotFoundMessage(id)))
    case Some(task) => Success(task)
  }

  /** getUserTasks: the stored tasks the user owns, and no others. */
  function GetUserTasks(rows: seq<Task>, userId: nat): (r: seq<Task>)
    reads rows
    ensures forall t :: t in r ==> t in rows && Owns(t, userId)
    ensures forall t :: t in rows && Owns(t, userId) ==> t in r
  {
    OwnedBy(rows, userId)
  }

  /** updateTask: changes the given task in place, one conditional setter
      per field, and returns the same object. */
  method UpdateTask(task: Task, payload: UpdateTaskPayload) returns (r: Task)
    modifies task
    ensures r == task
    ensures task.State() == Merge(old(task.State()), payload)
  {
    if payload.title.Some?
      && !IsBlank(payload.title.value)
      && Trim(payload.title.value) != task.title
    {
      task.SetTitle(Trim(payload.title.value));
    }
    if payload.description.Some?
      && !IsBlank(payload.description.value)
      && Trim(payload.description.value) != task.description
    {
      task.SetDescription(Trim(payload.description.value));
    }
    if payload.dueDate.Some? && payload.dueDate.value != task.dueDate {
      task.SetDueDate(payload.dueDate.value);
    }
    if payload.isComplete != task.isComplete {
      task.SetComplete(payload.isComplete);
    }
    r := task;
  }

  /** deleteTask: removes the task with the id, without checking first that one exists. */
  method DeleteTask(tasks: TaskRepository, id: nat)
    requires tasks.Valid()
    modifies tasks
    ensures tasks.Valid()
    ensures tasks.rows == WithoutId(old(tasks.rows), id) && tasks.nextId == old(tasks.nextId)
  {
    tasks.DeleteById(id);
  }
}
