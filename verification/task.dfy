/** The Task entity, its DTO and the two request payloads of the task
    endpoints. */
module Tasks {
  import opened Wrappers
  import opened Users

  /** A calendar date with no time of day; the core only compares dates for equality. */
  datatype LocalDate = LocalDate(epochDay: int)

  /** The value of every field of a Task object at one moment. */
  datatype TaskState = TaskState(
    id: Option<nat>,
    title: string,
    description: string,
    dueDate: LocalDate,
    isComplete: bool,
    user: Option<User>)

  /** What the API sends back for a task: the owner is reduced to its id. */
  datatype TaskDTO = TaskDTO(
    id: Option<nat>,
    userId: nat,
    title: string,
    description: string,
    dueDate: LocalDate,
    isComplete: bool)

  /** Body of a task-creation request. */
  datatype NewTaskPayload = NewTaskPayload(
    title: string,
    description: Option<string>,
    dueDate: LocalDate,
    userId: nat)

  /** Body of a task-update request; absent fields are None. The completion
      flag is a primitive boolean and so is never absent. */
  datatype UpdateTaskPayload = UpdateTaskPayload(
    userId: nat,
    title: Option<string>,
    description: Option<string>,
    dueDate: Option<LocalDate>,
    isComplete: bool)

  /** The DTO of a task in state `s`; dereferencing the owner requires one. */
  function DtoOf(s: TaskState): (r: TaskDTO)
    requires s.user.Some?
    ensures r.id == s.id && r.userId == s.user.value.id
    ensures r.title == s.title && r.description == s.description
    ensures r.dueDate == s.dueDate && r.isComplete == s.isComplete
  {
    TaskDTO(s.id, s.user.value.id, s.title, s.description, s.dueDate, s.isComplete)
  }

  /** Two tasks have the same DTO exactly when they agree on id, owner id,
      title, description, due date and completion: the owner's name, email and
      password hash never reach the client. */
  lemma DtoDeterminedByPublicFields(s1: TaskState, s2: TaskState)
    requires s1.user.Some? && s2.user.Some?
    ensures DtoOf(s1) == DtoOf(s2) <==>
      && s1.id == s2.id
      && s1.user.value.id == s2.user.value.id
      && s1.title == s2.title
      && s1.description == s2.description
      && s1.dueDate == s2.dueDate
      && s1.isComplete == s2.isComplete
  {
  }

  /** The persistent task entity; its setters update it in place. */
  class Task {
    var id: Option<nat>
    var title: string
    var description: string
    var dueDate: LocalDate
    var isComplete: bool
    var user: Option<User>

    function State(): TaskState
      reads this
    {
      TaskState(id, title, description, dueDate, isComplete, user)
    }

    /** The four-argument constructor: id and owner stay unset. */
    constructor (title: string, description: string, dueDate: LocalDate, isComplete: bool)
      ensures State() == TaskState(None, title, description, dueDate, isComplete, None)
    {
      this.id := None;
      this.title := title;
      this.description := description;
      this.dueDate := dueDate;
      this.isComplete := isComplete;
      this.user := None;
    }

    method SetId(id: Option<nat>)
      modifies this
      ensures State() == old(State()).(id := id)
    {
      this.id := id;
    }

    method SetTitle(title: string)
      modifies this
      ensures State() == old(State()).(title := title)
    {
      this.title := title;
    }

    method SetDescription(description: string)
      modifies this
      ensures State() == old(State()).(description := description)
    {
      this.description := description;
    }

    method SetDueDate(dueDate: LocalDate)
      modifies this
      ensures State() == old(State()).(dueDate := dueDate)
    {
      this.dueDate := dueDate;
    }

    method SetComplete(completed: bool)
      modifies this
      ensures State() == old(State()).(isComplete := completed)
    {
      this.isComplete := completed;
    }

    method SetUser(user: Option<User>)
      modifies this
      ensures State() == old(State()).(user := user)
    {
      this.user := user;
    }

    /** toDTO: the object's current fields, with the owner reduced to its id. */
    function ToDTO(): (r: TaskDTO)
      reads this
      requires user.Some?
      ensures r.id == id && r.userId == user.value.id
      ensures r.title == title && r.description == description
      ensures r.dueDate == dueDate && r.isComplete == isComplete
    {
      DtoOf(State())
    }
  }
}
