# Task table service: a Dafny model

This project models the core of a small task-management CRUD service. A task is a mutable
record with an id, title, description, status and due date. It is kept in a keyed table
behind a store. On top of the store sits a service with "exists-or-fail" semantics, and on
top of the service a REST controller that validates requests and turns outcomes into HTTP
status codes. A global exception handler classifies escaping errors by their message.

The files follow the layers of the source:

- `task.dfy` (module `Models`): `Task` is a class with `Option` fields, where `None` stands
  for Java's `null`. Both constructors and all five setters are modelled, and the getters
  are the functions the contracts are written in. `LocalDateTime` is the abstract type `DateTime`.
- `task_repository.dfy` (module `Repositories`): `TaskRepository` stands in for the JPA
  `EntityManager` and has three fields:
  - a map from id to the managed `Task` object of each row;
  - the order in which findAll returns the rows;
  - the identity generator of the id column.

  `Valid()` says three things: each stored object carries the id it is stored under; the
  generator is ahead of every stored id; and the row order lists each id once. `Contents()`
  is the table as a map of `TaskRecord` values.
- `task_service.dfy` (module `Services`): `TaskService`, and the message of the not-found
  error.
- `task_controller.dfy` (module `Controllers`): the pure guards and the translation of an
  outcome into a response, plus `TaskController`, whose endpoints compose those functions
  with the service calls.
- `exception_handler.dfy` (module `ExceptionHandling`): the two handlers, and the choice
  between them.
- `wrappers.dfy`, `exceptions.dfy`, `http.dfy`, `text.dfy`: nullable values and thrown
  exceptions as datatypes, HTTP replies, `String.startsWith`, and the decimal rendering of a
  `Long`.
- `scenarios.dfy` (module `Scenarios`): client methods that use only the contracts. They
  cover the create / read / patch / delete / read lifecycle, the refused create, the
  empty-status patch, read-after-delete and read-after-update.

Three facts about the code shape the model:

- `createTask` passes the request object to `save` unchanged, so a client-supplied id takes
  the merge path.
- Ids come from the database's IDENTITY column (`GenerationType.IDENTITY`). The model
  promises only that a new id is not in use.
- The model covers the JPA-backed classes in `models/`, `repositories/` and `services/`.

## Model

| member | source | states |
|---|---|---|
| `Models.Task.constructor` | src/main/java/uk/gov/hmcts/reform/dev/models/Task.java:37-38 | the default constructor leaves all five fields null |
| `Models.Task.WithDetails` | src/main/java/uk/gov/hmcts/reform/dev/models/Task.java:48-53 | the getters return the four given details, and the id stays null |
| `Models.Task.SetId` | src/main/java/uk/gov/hmcts/reform/dev/models/Task.java:60-71 | getId returns the value set; no other field changes |
| `Models.Task.SetTitle` | src/main/java/uk/gov/hmcts/reform/dev/models/Task.java:78-89 | getTitle returns the value set; no other field changes |
| `Models.Task.SetDescription` | src/main/java/uk/gov/hmcts/reform/dev/models/Task.java:96-107 | getDescription returns the value set; no other field changes |
| `Models.Task.SetStatus` | src/main/java/uk/gov/hmcts/reform/dev/models/Task.java:114-125 | getStatus returns the value set; no other field changes |
| `Models.Task.SetDueDate` | src/main/java/uk/gov/hmcts/reform/dev/models/Task.java:132-143 | getDueDate returns the value set; no other field changes |
| `Repositories.TaskRepository.FindAll` | src/main/java/uk/gov/hmcts/reform/dev/repositories/TaskRepository.java:20-23 | returns exactly the stored objects, each once; its length is the table size |
| `Repositories.TaskRepository.FindById` | src/main/java/uk/gov/hmcts/reform/dev/repositories/TaskRepository.java:25-28 | returns the stored object when the id is present, and empty (not an error) when it is absent |
| `Repositories.TaskRepository.Save` | src/main/java/uk/gov/hmcts/reform/dev/repositories/TaskRepository.java:30-37 | with a null id, stores the task itself under an id not previously in use; with an id set, the row for that id takes the given fields; all other rows keep their objects and records |
| `Repositories.TaskRepository.Persist` | src/main/java/uk/gov/hmcts/reform/dev/repositories/TaskRepository.java:31-33 | the generated id is not in use, is written into the task, and the task becomes that row's managed object |
| `Repositories.TaskRepository.Merge` | src/main/java/uk/gov/hmcts/reform/dev/repositories/TaskRepository.java:34-36 | the managed object of the row takes the given object's fields and is returned; the given object is untouched |
| `Repositories.TaskRepository.CopyOnto` | src/main/java/uk/gov/hmcts/reform/dev/repositories/TaskRepository.java:34-36 | merge onto an existing row: that row's managed object takes the given fields and is returned, no other record changes, and the given object is untouched |
| `Repositories.TaskRepository.AddCopy` | src/main/java/uk/gov/hmcts/reform/dev/repositories/TaskRepository.java:34-36 | merge with no row of that id: a new managed copy with the given fields is stored under the id, and the other rows are kept |
| `Repositories.TaskRepository.Delete` | src/main/java/uk/gov/hmcts/reform/dev/repositories/TaskRepository.java:39-45 | removes the row with the task's id, whether the object is managed or detached; nothing else changes |
| `Repositories.TaskRepository.RemoveRow` | src/main/java/uk/gov/hmcts/reform/dev/repositories/TaskRepository.java:41-43 | the table loses exactly that id, and the invariant is kept |
| `Services.NotFoundMessage` | src/main/java/uk/gov/hmcts/reform/dev/services/TaskService.java:27 | the message starts with "Task not found with id: " |
| `Services.NotFoundMessageIdentifiesId` | src/main/java/uk/gov/hmcts/reform/dev/services/TaskService.java:27 | two ids never share a not-found message, so the message carries the id |
| `Services.TaskService.GetAllTasks` | src/main/java/uk/gov/hmcts/reform/dev/services/TaskService.java:21-23 | returns findAll's result (every stored task once) and changes nothing |
| `Services.TaskService.GetTaskById` | src/main/java/uk/gov/hmcts/reform/dev/services/TaskService.java:25-28 | returns the stored task if the id is present, else fails with "Task not found with id: " + id |
| `Services.TaskService.CreateTask` | src/main/java/uk/gov/hmcts/reform/dev/services/TaskService.java:30-32 | saves the task as given: a null id gets a new id; a client-supplied id takes the merge path, which leaves the request object untouched and returns the row's managed object, or a fresh one when no row has that id |
| `Services.TaskService.UpdateTask` | src/main/java/uk/gov/hmcts/reform/dev/services/TaskService.java:34-44 | for a present id, the record takes the details' title, description, status and due date and keeps its id, and the managed object is returned; an absent id fails with not-found and leaves the table unchanged |
| `Services.TaskService.UpdateTaskStatus` | src/main/java/uk/gov/hmcts/reform/dev/services/TaskService.java:46-50 | for a present id, only the status changes; an absent id fails with not-found and leaves the table unchanged |
| `Services.TaskService.DeleteTask` | src/main/java/uk/gov/hmcts/reform/dev/services/TaskService.java:52-55 | for a present id, exactly that row is removed; an absent id fails with not-found and leaves the table unchanged |
| `ExceptionHandling.HandleRuntimeException` | src/main/java/uk/gov/hmcts/reform/dev/controllers/GlobalExceptionHandler.java:23-33 | the body is exactly {"error": message}; the status is 404 if and only if the message is non-null and starts with "Task not found", and 500 otherwise |
| `ExceptionHandling.HandleGeneralException` | src/main/java/uk/gov/hmcts/reform/dev/controllers/GlobalExceptionHandler.java:41-48 | the status is 500 and the body has exactly "error" = "An unexpected error occurred" and "message" = the message |
| `ExceptionHandling.Handle` | src/main/java/uk/gov/hmcts/reform/dev/controllers/GlobalExceptionHandler.java:23-48 | only a RuntimeException can give 404; any other exception gives 500 |
| `ExceptionHandling.ServiceNotFoundIs404` | src/main/java/uk/gov/hmcts/reform/dev/controllers/GlobalExceptionHandler.java:28-29 | for every id, the service's not-found error is answered with 404 and its own message |
| `Controllers.ValidationFailure` | src/main/java/uk/gov/hmcts/reform/dev/controllers/TaskController.java:66-75 | 400 with no body exactly when the title is null or empty, the status is null or empty, or the due date is null |
| `Controllers.RequestedStatus` | src/main/java/uk/gov/hmcts/reform/dev/controllers/TaskController.java:119-122 | null exactly when the "status" key is missing or maps to null; otherwise the given value, the empty string included |
| `Controllers.Translate` | src/main/java/uk/gov/hmcts/reform/dev/controllers/TaskController.java:50-55 | success gives the endpoint's status and body; the status is 404 if and only if the service threw a RuntimeException, and that 404 has no body |
| `Controllers.TaskController.GetAllTasks` | src/main/java/uk/gov/hmcts/reform/dev/controllers/TaskController.java:37-40 | always 200, with every stored task once and no task twice |
| `Controllers.TaskController.GetTaskById` | src/main/java/uk/gov/hmcts/reform/dev/controllers/TaskController.java:48-56 | 200 with the stored task if the id is present, else 404 with no body |
| `Controllers.TaskController.CreateTask` | src/main/java/uk/gov/hmcts/reform/dev/controllers/TaskController.java:64-79 | an invalid request gives 400 and the store and the request object are untouched; a valid one gives 201 with the saved task as body, and on the merge path the request object is untouched |
| `Controllers.TaskController.UpdateTask` | src/main/java/uk/gov/hmcts/reform/dev/controllers/TaskController.java:88-107 | validation comes before the lookup, so an invalid body gives 400 whether or not the id exists; then 404 for an absent id, or 200 with the updated task |
| `Controllers.TaskController.UpdateTaskStatus` | src/main/java/uk/gov/hmcts/reform/dev/controllers/TaskController.java:116-129 | 400 only for a missing or null status; then 404 for an absent id, or 200 with only the status changed |
| `Controllers.TaskController.DeleteTask` | src/main/java/uk/gov/hmcts/reform/dev/controllers/TaskController.java:137-145 | 204 with exactly that row removed, or 404 with the table unchanged |
| `Scenarios.Lifecycle` | src/main/java/uk/gov/hmcts/reform/dev/controllers/TaskController.java:48-145 | create, get, patch status, delete, get yields 201, 200, 200, 204, 404; the task read back has its created fields, and the patch changes the status and not the title |
| `Scenarios.EmptyTitleRejected` | src/main/java/uk/gov/hmcts/reform/dev/controllers/TaskController.java:67-69 | a create with an empty title gives 400 and the table size is unchanged |
| `Scenarios.EmptyStatusPassesThrough` | src/main/java/uk/gov/hmcts/reform/dev/controllers/TaskController.java:119-124 | a patch with status "" gives 200 and stores "" as the status |
| `Scenarios.DeleteThenGet` | src/main/java/uk/gov/hmcts/reform/dev/services/TaskService.java:52-55 | after a delete answered with 204, a get of the same id gives 404 |
| `Scenarios.UpdateThenGet` | src/main/java/uk/gov/hmcts/reform/dev/services/TaskService.java:34-44 | after an update answered with 200, a get returns the request's four fields under the original id |

## Left out

- WelcomeController: it returns a constant string and holds no logic.
- Spring wiring: annotations, dependency injection and request mapping are not modelled. Each endpoint is a method that takes already-decoded arguments.
- JSON (de)serialisation and the due-date pattern: `LocalDateTime` is the abstract type `DateTime`, and only equality on it is used.
- Bean-validation annotations on `Task`: they are not modelled. Whether JPA enforces them at persist time depends on the build. The controller's explicit checks are the validation that is modelled.
- Transactions and concurrent requests: the model is single-threaded.
- JPA internals: persistence contexts, JPQL and the database are not modelled. Only their effect on the table is.
- Repositories.TaskRepository.FindAll: the model returns rows in insertion order, but the contract promises no order, because the query has no ORDER BY.
- Repositories.TaskRepository.Persist: the identity generator is a counter. The contract promises only that the new id is not in use, not any particular numbering.
- Repositories.TaskRepository.Merge: for a set id with no row, the model stores a new managed copy under that id (upsert). What Hibernate does there under IDENTITY generation is not reproduced.
- Repositories.TaskRepository.Delete: for a task whose id is null, the table is unchanged. JPA would persist a copy through merge and then remove it again.
- Ids are unbounded integers: the 64-bit range of `Long` and overflow of the generator are not modelled.
- Controllers.Translate: a non-runtime exception would escape to the general handler. The service never throws one, so in the composed endpoints that branch is not reachable.
