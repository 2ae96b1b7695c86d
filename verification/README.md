# Todo API core, modelled in Dafny

A model of the request-handling core of a Spring Boot todo API:

- the task endpoints: create, read, list by owner, update and delete, with their ownership checks;
- the service behind them: trimming, the field-by-field update merge, and the task store;
- registration and sign-in;
- resolving the authenticated caller to a stored user;
- the bearer-token filter that authenticates a request;
- the exception handler that turns each failure into an HTTP status and a `{status, message}` body.

Exceptions are values of one `Exception` datatype, and an operation that throws returns `Failure(e)`.

Where the source changes objects in place, the model does too:

- `Task` is a class with setters, and `State()` is its value view.
- The task table (`TaskStore.TaskRepository`) stores the `Task` objects themselves. A change to a loaded task is therefore a change to the stored one, as in the persistence context the source runs in.
- The user table (`Users.UserRepository`), the security context and the filter chain are classes.

Read-only code takes the user table as a `seq<User>`, a snapshot of its rows.

BCrypt hashing, JWT generation, JWT parsing and JWT validation are foreign code. They appear as function-valued fields of `PasswordEncoder`, `JwtService` and `JwtUtils`. Nothing is assumed about them, except that `encode` is deterministic (see "## Left out") and in lemmas that require `SoundEncoder`: a raw password matches the hash of exactly itself.

The request's security context is a parameter, not a thread-local holder.

Files:

- `wrappers.dfy`: `Option` and `Result`.
- `java_string.dfy`: Java's `String.trim`, blankness, and the decimal rendering of a `Long`.
- `http.dfy`: status codes and `Response`.
- `exceptions.dfy`: the exception kinds and `CustomExceptionHandler`.
- `users.dfy`: `User`, the user table and its lookups.
- `security.dfy`: `Authentication` and `SecurityContext`.
- `task.dfy`: `Task`, `TaskDTO` and the request payloads.
- `task_repository.dfy`: the task table.
- `task_service.dfy`: `TaskService`.
- `task_controller.dfy`: `TaskController`.
- `auth_utils.dfy`: `AuthUtils`.
- `auth_service.dfy`: `AuthService`.
- `auth_controller.dfy`: `AuthController`.
- `jwt_authentication_filter.dfy`: `JwtAuthenticationFilter`.

## Model

| member | source | states |
|---|---|---|
| JavaString.Trim | src/main/java/com/example/todo/task/TaskService.java:31 | `String.trim`: the result has no leading or trailing character `<= ' '`, and it is the contiguous middle of the input with only such characters cut from both ends |
| JavaString.LeadingTrimCharIgnored | src/main/java/com/example/todo/auth/AuthService.java:31 | a leading character `<= ' '` makes no difference to the trimmed result |
| JavaString.TrimIdempotent | src/main/java/com/example/todo/task/TaskService.java:55-58 | trimming twice is trimming once |
| JavaString.TrimOfTrimmed | src/main/java/com/example/todo/auth/AuthService.java:31-32 | a string with no surrounding trim characters is returned unchanged |
| JavaString.BlankIffAllTrimChars | src/main/java/com/example/todo/task/TaskService.java:56 | `s.trim().isEmpty()` holds exactly when every character is a trim character |
| JavaString.TrimmedNonEmptyNotBlank | src/main/java/com/example/todo/task/NewTaskPayload.java:9-10 | a trimmed, non-empty string is not blank |
| JavaString.Decimal | src/main/java/com/example/todo/task/TaskService.java:45 | a `Long` id in a message is a non-empty run of decimal digits with no leading zero that denotes the id, so distinct ids give distinct messages |
| Exceptions.Handle | src/main/java/com/example/todo/exceptions/CustomExceptionHandler.java:11-74 | validation failures give 400 with the first field error's message, or "Missing field" when there is none; Validation gives 400, Authentication 401, Authorisation 403 and NotFound 404, each with its message; anything else gives 500 "Internal Server Error"; the body's status always equals the HTTP status; BadRequestException is left open |
| Exceptions.StatusIdentifiesKind | src/main/java/com/example/todo/exceptions/CustomExceptionHandler.java:15-73 | each status identifies the kind: 401, 403, 404 and 500 each come from exactly one kind, and 400 from the two validation kinds |
| Exceptions.UnclassifiedMessageNotExposed | src/main/java/com/example/todo/exceptions/CustomExceptionHandler.java:64-74 | the message of an unclassified exception never reaches the client |
| Users.FindByEmail | src/main/java/com/example/todo/config/ApplicationConfig.java:36-39 | the found user is stored and has the email; the result is absent exactly when no stored user has it |
| Users.FindUserById | src/main/java/com/example/todo/task/TaskService.java:26-29 | the found user is stored and has the id; the result is absent exactly when no stored user has it |
| Users.FindUserByIdStored | src/main/java/com/example/todo/task/TaskService.java:26 | with ids increasing along the table, the lookup by a stored user's id finds that user |
| Users.FindByEmailAppend | src/main/java/com/example/todo/auth/AuthService.java:33 | appending a user changes a lookup only when nothing earlier matched and the new user has the email |
| Users.FindByEmailUnique | src/main/java/com/example/todo/auth/AuthUtils.java:50 | with unique emails, the lookup finds the one user that has the email |
| Users.UserRepository.Save | src/main/java/com/example/todo/auth/AuthService.java:33 | the new user gets the next id and is appended; ids stay increasing and below the next id |
| Tasks.DtoOf | src/main/java/com/example/todo/task/Task.java:91-94 | the DTO of a task state carries its id, its owner's id, title, description, due date and completion flag; it requires an owner |
| Tasks.Task.ToDTO | src/main/java/com/example/todo/task/Task.java:91-94 | the object's current id, owner's id, title, description, due date and completion flag; it requires an owner |
| Tasks.DtoDeterminedByPublicFields | src/main/java/com/example/todo/task/Task.java:91-94 | `toDTO` needs an owner; two DTOs are equal exactly when the tasks agree on id, owner id, title, description, due date and completion; the owner's name, email and password never reach the client |
| Tasks.Task.constructor | src/main/java/com/example/todo/task/Task.java:35-41 | the new task holds the four given fields, with no id and no owner |
| Tasks.Task.SetTitle | src/main/java/com/example/todo/task/Task.java:55-57 | only the title changes |
| Tasks.Task.SetDescription | src/main/java/com/example/todo/task/Task.java:63-65 | only the description changes |
| Tasks.Task.SetDueDate | src/main/java/com/example/todo/task/Task.java:71-73 | only the due date changes |
| Tasks.Task.SetComplete | src/main/java/com/example/todo/task/Task.java:79-81 | only the completion flag changes |
| Tasks.Task.SetUser | src/main/java/com/example/todo/task/Task.java:87-89 | only the owner changes |
| Tasks.Task.SetId | src/main/java/com/example/todo/task/Task.java:47-49 | only the id changes |
| TaskStore.FindTaskById | src/main/java/com/example/todo/task/TaskService.java:44 | the found task is stored and has the id; the result is absent exactly when no stored task has the id |
| TaskStore.OwnedBy | src/main/java/com/example/todo/task/TaskService.java:50 | a user's tasks are exactly the stored tasks that user owns |
| TaskStore.WithoutId | src/main/java/com/example/todo/task/TaskService.java:81 | after a delete by id, the remaining rows are exactly the stored rows with another id |
| TaskStore.OwnedByAppend | src/main/java/com/example/todo/task/TaskService.java:49-51 | the per-user query distributes over concatenation, so it keeps store order |
| TaskStore.OwnedByNone | src/main/java/com/example/todo/task/TaskService.java:49-51 | a user who owns no task gets the empty list |
| TaskStore.TailInvariant | src/main/java/com/example/todo/task/Task.java:11-21 | the store invariant holds for the tail, and the first id is below all the later ones |
| TaskStore.ConsInvariant | src/main/java/com/example/todo/task/Task.java:11-21 | putting a task with a smaller id and an owner in front keeps the store invariant |
| TaskStore.FindTaskByIdStored | src/main/java/com/example/todo/task/Task.java:11-21 | with the sequence-generated ids, the lookup by a stored row's id finds that row |
| TaskStore.WithoutIdKeepsInvariant | src/main/java/com/example/todo/task/TaskService.java:80-82 | deleting keeps the ids unique and increasing |
| TaskStore.WithoutIdLookups | src/main/java/com/example/todo/task/TaskService.java:80-82 | after deleting an id, that id is not found and every other lookup is unchanged |
| TaskStore.TaskRepository.Save | src/main/java/com/example/todo/task/TaskService.java:40 | the saved object is the one passed in; it gets the next id and is appended; the store invariant is kept |
| TaskStore.TaskRepository.DeleteById | src/main/java/com/example/todo/task/TaskService.java:81 | the rows become those without the id; the store invariant is kept |
| TaskService.NewTaskIsNormalised | src/main/java/com/example/todo/task/TaskService.java:30-39 | a request that passed the not-blank title check yields a trimmed, non-empty title and a trimmed description; the description is empty exactly when it was absent or blank |
| TaskService.MergeText | src/main/java/com/example/todo/task/TaskService.java:55-66 | an absent or blank patch keeps the current text; otherwise the result is the trimmed patch, which is trimmed and non-empty |
| TaskService.MergeDate | src/main/java/com/example/todo/task/TaskService.java:68-71 | an absent due date keeps the current one; otherwise the result is the patch's date |
| TaskService.Merge | src/main/java/com/example/todo/task/TaskService.java:53-78 | the state an update leaves: title and description by the text rule, the due date by the date rule, the completion flag taken from the request, id and owner unchanged |
| TaskService.MergeTextRule | src/main/java/com/example/todo/task/TaskService.java:55-66 | a text field changes exactly when the patch is present, non-blank after trimming and different from the current value, and then it becomes the trimmed patch |
| TaskService.MergeNeverBlanks | src/main/java/com/example/todo/task/TaskService.java:55-66 | an update never blanks the title or the description |
| TaskService.MergeKeepsNormalised | src/main/java/com/example/todo/task/TaskService.java:53-78 | an update keeps a normalised task normalised |
| TaskService.MergeKeepsIdentity | src/main/java/com/example/todo/task/TaskService.java:53-78 | an update never changes the id or the owner |
| TaskService.MergeIdempotent | src/main/java/com/example/todo/task/TaskService.java:53-78 | applying the same update twice equals applying it once |
| TaskService.MergeNoOpIff | src/main/java/com/example/todo/task/TaskService.java:55-75 | an update changes nothing exactly when every field's patch is a no-op and the completion flags agree |
| TaskService.MergeLaterWins | src/main/java/com/example/todo/task/TaskService.java:53-78 | a later update wins on every field it sets, and an earlier one survives where the later one is absent |
| TaskService.BuildTask | src/main/java/com/example/todo/task/TaskService.java:30-39 | a fresh task with the given title, description and due date, not complete, owned by the given user, with no id yet |
| TaskService.CreateTaskFor | src/main/java/com/example/todo/task/TaskService.java:30-40 | exactly one fresh task is saved; it has the next id, the trimmed title, the trimmed description (or "" when absent), the due date, is not complete, and is owned by the given user |
| TaskService.CreateTask | src/main/java/com/example/todo/task/TaskService.java:25-41 | an unknown user id gives ValidationException("User with ID n doesn't exist") and saves nothing; otherwise it does as CreateTaskFor with that user |
| TaskService.GetTaskById | src/main/java/com/example/todo/task/TaskService.java:43-47 | the stored task with the id, or NotFoundException("Cannot find task with ID n") exactly when no stored task has the id |
| TaskService.GetUserTasks | src/main/java/com/example/todo/task/TaskService.java:49-51 | exactly the stored tasks the user owns |
| TaskService.UpdateTask | src/main/java/com/example/todo/task/TaskService.java:53-78 | returns the same object, changed in place to the merge of its old state with the request |
| TaskService.DeleteTask | src/main/java/com/example/todo/task/TaskService.java:80-82 | the rows become those without the id, even when none had it |
| AuthUtils.GetUserFromAuth | src/main/java/com/example/todo/auth/AuthUtils.java:44-51 | the stored user whose email is the principal's username; absent exactly when there is none |
| AuthUtils.GetUserIdFromAuth | src/main/java/com/example/todo/auth/AuthUtils.java:33-38 | that user's id; AuthenticationException("Unauthenticated") exactly when no stored user has the email |
| AuthUtils.CallerIdIsOwnersId | src/main/java/com/example/todo/auth/AuthUtils.java:33-50 | with unique emails, the caller's id is the id of the user with the principal's email |
| TaskController.Guard | src/main/java/com/example/todo/task/TaskController.java:61-67 | it passes exactly when the caller owns the stored task with the id; a missing task gives NotFound first, then an unresolved caller gives "Unauthenticated", then another owner gives "Unauthorised - not your task" |
| TaskController.NonOwnerIsForbidden | src/main/java/com/example/todo/task/TaskController.java:64-67 | a stored task is refused with an authorisation error to every other stored user |
| TaskController.OwnerIsGranted | src/main/java/com/example/todo/task/TaskController.java:61-67 | a stored task is granted to its owner |
| TaskController.CreateTask | src/main/java/com/example/todo/task/TaskController.java:39-47 | a caller with no stored user gets BadRequestException("Invalid user") and nothing is saved; otherwise the caller's new task is appended and its DTO returned with 201 |
| TaskController.GetTask | src/main/java/com/example/todo/task/TaskController.java:59-69 | succeeds exactly when the caller owns the task, with 200 and that task's DTO; otherwise the guard's error |
| TaskController.DTOs | src/main/java/com/example/todo/task/TaskController.java:86-88 | one DTO per task, in order |
| TaskController.OwnedDTOs | src/main/java/com/example/todo/task/TaskController.java:86-88 | the DTOs of the service's list are, position by position, the DTOs of the user's tasks in store order; so every entry names the user and is the DTO of a stored task the user owns, and every such task is listed |
| TaskController.UserTaskDTOs | src/main/java/com/example/todo/task/TaskController.java:86-89 | the listing body: entry k is the DTO of the user's k-th task in store order, and there are no other entries |
| TaskController.GetUserTasks | src/main/java/com/example/todo/task/TaskController.java:79-90 | succeeds exactly when the path id is the caller's id; an unresolved caller gives "Unauthenticated" and another id gives "Unauthorised"; entry k of the body is the DTO of the user's k-th task in store order, and there are no other entries |
| TaskController.UpdateTask | src/main/java/com/example/todo/task/TaskController.java:102-114 | when refused, the guard's error and no task changes; otherwise only the guarded task changes, to the merge, and its DTO is returned with 200 |
| TaskController.DeleteTask | src/main/java/com/example/todo/task/TaskController.java:125-136 | when refused, the guard's error and the store unchanged; otherwise the rows become those without the id and "Task was successfully deleted" is returned with 200 |
| AuthService.GetUserByEmail | src/main/java/com/example/todo/auth/AuthService.java:26-28 | the found user is stored and has the email; the result is absent exactly when none has it |
| AuthService.GenerateUserToken | src/main/java/com/example/todo/auth/AuthService.java:36-38 | the token the foreign token service issues for the user |
| AuthService.IsPasswordValid | src/main/java/com/example/todo/auth/AuthService.java:40-42 | the foreign encoder's verdict; with a correct hasher, the hash of a password accepts exactly that password |
| AuthService.CreateUser | src/main/java/com/example/todo/auth/AuthService.java:30-34 | exactly one user is stored, with the next id, the trimmed name and email, and the hash of the trimmed password |
| AuthService.StoredPasswordVerifies | src/main/java/com/example/todo/auth/AuthService.java:31-41 | with a correct hasher, the stored hash accepts the trimmed password and nothing else, and the raw password only if it was already trimmed |
| AuthController.RegisterUser | src/main/java/com/example/todo/auth/AuthController.java:37-53 | an email already stored gives BadRequestException("Account with email already exists") and writes nothing; otherwise one user is appended and returned with a token and 201 |
| AuthController.SignInUser | src/main/java/com/example/todo/auth/AuthController.java:66-85 | an unknown email gives BadRequest("Account with this email doesn't exist"); success means a stored user has the email and accepts the password, and the response is 200 with that user and a token; the only errors are these two kinds |
| AuthController.SignInChecksStoredHash | src/main/java/com/example/todo/auth/AuthController.java:70-77 | with unique emails, sign-in succeeds exactly when that user's hash accepts the password, and fails with "Incorrect password" otherwise |
| AuthController.RegisterThenSignIn | src/main/java/com/example/todo/auth/AuthController.java:37-85 | registering and then signing in with the same trimmed email and password returns the new user |
| AuthController.RegisterThenWrongPassword | src/main/java/com/example/todo/auth/AuthController.java:37-85 | after registering, every other password is refused with "Incorrect password" |
| AuthController.UntrimmedPasswordRefusedAtSignIn | src/main/java/com/example/todo/auth/AuthController.java:74-76 | a password registered with surrounding whitespace is refused when typed the same way again |
| AuthController.RegisterKeepsEmailsUnique | src/main/java/com/example/todo/auth/AuthController.java:41-44 | accepting an already-trimmed new email keeps the stored emails unique |
| AuthController.UntrimmedEmailEvadesDuplicateCheck | src/main/java/com/example/todo/auth/AuthController.java:41-44 | when every stored email is trimmed, a stored email sent again behind a space passes the duplicate check, and the store then holds that email twice |
| JwtAuthenticationFilter.BearerToken | src/main/java/com/example/todo/config/JwtAuthenticationFilter.java:49-54 | a token is read only from a header that is "Bearer " followed by that token; shorter headers carry none |
| JwtAuthenticationFilter.BearerRoundTrip | src/main/java/com/example/todo/config/JwtAuthenticationFilter.java:50-54 | the filter reads back exactly the token that was sent after the prefix |
| JwtAuthenticationFilter.OnlyExactPrefixCarriesToken | src/main/java/com/example/todo/config/JwtAuthenticationFilter.java:50 | every header that does not begin with exactly "Bearer " (shorter, another scheme, another letter case) carries no token |
| JwtAuthenticationFilter.LowerCaseSchemeIgnored | src/main/java/com/example/todo/config/JwtAuthenticationFilter.java:50 | the prefix is matched case-sensitively: "bearer " followed by anything carries no token |
| JwtAuthenticationFilter.Decide | src/main/java/com/example/todo/config/JwtAuthenticationFilter.java:49-63 | an existing authentication is never overwritten; with no bearer token nothing changes; the lookup throws exactly when the token names an email no user has; the authentication changes exactly when the token names a stored user's email, the context is empty and the token is valid for that user, and the new principal is that user |
| JwtAuthenticationFilter.FilterThenCallerResolves | src/main/java/com/example/todo/auth/AuthUtils.java:44-51 | an authentication the filter sets resolves, in the controllers, to the user the filter loaded |
| JwtAuthenticationFilter.DecideSettles | src/main/java/com/example/todo/config/JwtAuthenticationFilter.java:56 | running the filter again on the context it left changes nothing |
| JwtAuthenticationFilter.FilterChain.DoFilter | src/main/java/com/example/todo/config/JwtAuthenticationFilter.java:51 | the chain records one more request, carrying the context's current authentication |
| JwtAuthenticationFilter.SetRequestAuthentication | src/main/java/com/example/todo/config/JwtAuthenticationFilter.java:71-82 | the context's authentication becomes a token whose principal is the loaded user |
| JwtAuthenticationFilter.DoFilterInternal | src/main/java/com/example/todo/config/JwtAuthenticationFilter.java:44-64 | the context ends as `Decide` says; the chain is invoked exactly once, seeing that context, except when loading the user throws, and then it is not invoked |

## Left out

- BadRequestException: its class is not part of this model, so `Exceptions.Handle` does not say which handler catches it. Unless the class extends one of the handled kinds, the catch-all handler would answer 500.
- `TaskService.GetTaskById`: as written, it throws NotFoundException itself. `TaskController` nevertheless calls `orElseThrow` on its result, as if it returned an `Optional`. Either reading gives the same NotFoundException with the same message, and the model passes the service's error through.
- `TaskService.GetUserTasks` calls `getTasksByUserId`, which `TaskRepository.java` does not declare. It is modelled as the derived query "every task whose owner has this id, in store order".
- `UserRepository.java` does not declare the `findByEmail` that `AuthService.java:27` calls; it declares `getUserByEmail`, which returns a nullable `User`. `findById`, called at `TaskService.java:26`, is inherited from `JpaRepository<User, Long>`. Both lookups are modelled as exact-match lookups returning the first match in store order.
- `Users.FindByEmail`: with an email stored twice, which `AuthController.UntrimmedEmailEvadesDuplicateCheck` shows can happen, a JPA single-result query fails on the non-unique result, so later sign-ins and registrations with that email would end in the 500 catch-all. A bearer request whose token names that email would fail earlier, inside `JwtAuthenticationFilter` (its lookup at `JwtAuthenticationFilter.java:57-58` runs before any controller), so `CustomExceptionHandler` never sees it; the response it gets is not described by this model. The model's first-match lookup keeps answering with the earlier row instead.
- `TaskService.CreateTask` (one argument, owner looked up by `payload.userId`) and `TaskService.CreateTaskFor` (owner passed in, as `TaskController.java:45` calls it) are both modelled. The two-argument overload is not in `TaskService.java`.
- The no-argument `Task()` constructor and its null fields are not modelled. Tasks are built through the four-argument constructor plus `SetUser`, which yields the same state as the source's setter sequence.
- A null authentication or principal (a `NullPointerException` in `getUserFromAuth`) is not modelled. The controllers always take an `Authentication`.
- JPA mechanics are not modelled: transactions (`@Transactional`), flushing, lazy loading, and the sequence generator's allocation size. Ids come from a counter that only grows.
- Bean validation (`@Valid`, `@NotBlank`, `@NotNull`) runs before the controllers and is not modelled as an operation. Its verdict appears as the `MethodArgumentNotValidException` kind and as `!IsBlank` preconditions of lemmas.
- `AuthService.GenerateUserToken` and `AuthService.IsPasswordValid` are plain calls into the foreign token service and password encoder, so their contracts state the delegation and, for the encoder, what a correct hasher gives. No cryptographic property of BCrypt or JWT is modelled, and exceptions thrown by the JWT library (an expired or malformed token) are not modelled.
- The request details and authorities attached to the authentication token, and the request and response objects passed down the filter chain, are not modelled.
- Logging (`System.out.println` in the catch-all handler) is not modelled.
- `LocalDate` is reduced to its epoch day, since the core only compares dates for equality.
- Ids are unbounded naturals. The 64-bit `Long` range is not modelled, and neither are negative path ids, which the source accepts as `Long` values: `GET /task/-1` would answer 404 "Cannot find task with ID -1", and `GET /task/user/-1` would answer 403 to any authenticated caller.
- `AuthService.PasswordEncoder`: `encode` is a function, so the model hashes a password the same way every time. BCrypt salts every call, so two registrations with the same password store different hashes, while `AuthService.CreateUser` fixes one hash per password. No proved lemma depends on this.
- `AuthService.SoundEncoder`: the lemmas that require it hold for an idealised hasher under which a password matches only its own hash. BCrypt reads only the first 72 bytes of a password, so with BCrypt `AuthController.RegisterThenWrongPassword` fails for long passwords that agree on those bytes.
- `User.java` and the `user` package (`UserController`, `UserService`) are not part of this model.
