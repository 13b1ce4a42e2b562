# Task lifecycle of the task-reminder application, in Dafny

The application tracks tasks (title, optional description, priority HIGH /
MEDIUM / LOW, status PENDING / IN_PROGRESS / COMPLETED, creation time and
completion time) through a thin service over a JPA repository. This project
models its core:

- **`Entity`** (`task_entity.dfy`): the `Task` entity with every nullable Java
  field as an `Option`, the column constraints of the `tasks` table, and the
  two JPA callbacks `onCreate` (`@PrePersist`) and `onUpdate` (`@PreUpdate`)
  as record-to-record functions.
- **`Repository`** (`task_repository.dfy`): the table as a class
  `TaskRepository` holding a `map<int, Task>` and the next identity value.
  `Save` inserts (running `onCreate`) or overwrites (keeping the
  non-updatable `created_on`, running `onUpdate` when the row changes), and
  refuses a row that breaks a column constraint. It is specified by the pure
  function `SaveOutcome`. `FindById`, `ExistsById` and `DeleteById` are the
  inherited CRUD operations. The three derived queries are functions of the
  table: a scan in id order, a filter, and an insertion sort newest-first.
- **`Service`** (`task_service.dfy`): the class `TaskService` with
  `CreateTask`, `UpdateTask`, `MarkAsCompleted`, `DeleteTask` and the four
  read pass-throughs. Each one is a single atomic read-modify-write of the
  repository. The missing-id exception becomes `Err(NotFound(id))`, and the
  database's constraint exception becomes `Err(ValidationFailure)`; in both
  cases the table is left as it was.
  `BuyMilkScenario` walks one task through create, complete, complete again,
  update to IN_PROGRESS and delete, asserting each intermediate state.

The clock (`LocalDateTime.now()`) is an explicit `now: Timestamp` (`nat`)
parameter of every operation that reads it. One service call uses one clock
value for the service's own assignments and for the callbacks it triggers.

Behaviour of the code worth knowing (the entity's own comment at
`entity/Task.java:58` gives the intent: set `completedOn` when the status
changes to COMPLETED):

- A title must be present and at most 200 characters long. It may be empty,
  because the entity declares no non-blank constraint.
- The completion invariant ("`completedOn` is present exactly when the
  status is COMPLETED") does not hold for every stored task. `createTask`
  with status COMPLETED stores the task without a completion time, because
  `onCreate` does not touch `completedOn` (`Entity.OnCreateMayLeaveCompletedUnstamped`).
- After that, an `updateTask` that repeats the stored fields leaves the
  entity clean. The row is not rewritten and `onUpdate` does not run, so the
  stamp stays missing (`Service.UnchangedUpdateKeepsMissingStamp`).
- Every other update, every completion and every delete preserves the
  invariant for the whole table (`AllCompletionConsistent` in the service
  methods' contracts).
- `createTask` hands its draft to `save` unchanged apart from the status.
  A draft that carries the id of a stored task therefore overwrites that task
  rather than creating a new one. The contracts state the fresh-id insert for
  drafts without an id.

## Model

| member | source | states |
|---|---|---|
| `Entity.OnCreate` | task-reminder-app/src/main/java/com/taskreminder/app/entity/Task.java:49-55 | createdOn becomes `now`, overwriting any draft value; a missing status becomes PENDING and a present one is kept; no other field (completedOn included) changes |
| `Entity.OnUpdate` | task-reminder-app/src/main/java/com/taskreminder/app/entity/Task.java:60-67 | only completedOn can change; a COMPLETED task without a stamp gets `now`, an existing stamp is kept, a task not COMPLETED (or with no status) loses it; afterwards completedOn is present iff status is COMPLETED |
| `Entity.OnUpdateFixesConsistent` | task-reminder-app/src/main/java/com/taskreminder/app/entity/Task.java:60-67 | a task already satisfying the completion invariant is left unchanged by onUpdate at any time |
| `Entity.OnUpdateIdempotent` | task-reminder-app/src/main/java/com/taskreminder/app/entity/Task.java:60-67 | running onUpdate again, even later, changes nothing |
| `Entity.OnCreateMayLeaveCompletedUnstamped` | task-reminder-app/src/main/java/com/taskreminder/app/entity/Task.java:49-55 | every draft created COMPLETED without completedOn is persisted COMPLETED without completedOn, breaking the completion invariant |
| `Repository.Merged` | task-reminder-app/src/main/java/com/taskreminder/app/entity/Task.java:40-67 | an overwrite keeps the stored id and createdOn (`updatable = false`), takes title, description, priority and status from the entity, and yields a row that satisfies the completion invariant unless nothing was written; a consistent stored row stays consistent |
| `Repository.SaveOutcome` | task-reminder-app/src/main/java/com/taskreminder/app/repository/TaskRepository.java:15 | save keeps the table invariant; an insert adds exactly one row under the fresh id `nextId` with createdOn `now` and bumps the counter; an overwrite replaces only that id's row, keeping its createdOn; it fails with ValidationFailure exactly when title, priority or status is missing, the title exceeds 200 or the description 1000 characters, and then changes nothing |
| `Repository.TaskRepository.Save` | task-reminder-app/src/main/java/com/taskreminder/app/repository/TaskRepository.java:15 | the returned value, new table and new counter are those `SaveOutcome` gives for the old table |
| `Repository.TaskRepository.FindById` | task-reminder-app/src/main/java/com/taskreminder/app/repository/TaskRepository.java:15 | finds a row iff the id is a key; the row found carries that id and satisfies the column constraints |
| `Repository.TaskRepository.ExistsById` | task-reminder-app/src/main/java/com/taskreminder/app/repository/TaskRepository.java:15 | true iff findById finds a row |
| `Repository.TaskRepository.DeleteById` | task-reminder-app/src/main/java/com/taskreminder/app/repository/TaskRepository.java:15 | removes exactly that key (no-op if absent), keeps the counter; afterwards existsById is false |
| `Repository.ScanCounts` | task-reminder-app/src/main/java/com/taskreminder/app/repository/TaskRepository.java:15 | reading a table keyed by id yields each stored row in the id range exactly once and nothing else |
| `Repository.Rows` | task-reminder-app/src/main/java/com/taskreminder/app/repository/TaskRepository.java:15 | the full read of the table holds every stored task exactly once |
| `Repository.Filter` | task-reminder-app/src/main/java/com/taskreminder/app/repository/TaskRepository.java:17-25 | a derived WHERE query keeps each matching row as often as it occurs and drops every other row |
| `Repository.TaskRepository.FindByStatus` | task-reminder-app/src/main/java/com/taskreminder/app/repository/TaskRepository.java:17-20 | returns every stored task with the given status exactly once, and no other task |
| `Repository.OccursInTail` | task-reminder-app/src/main/java/com/taskreminder/app/repository/TaskRepository.java:22-25 | an occurrence in the tail of a string is an occurrence in the string one position later |
| `Repository.ContainsIsSubstring` | task-reminder-app/src/main/java/com/taskreminder/app/repository/TaskRepository.java:22-25 | the recursive search finds the search text exactly when it occurs as a contiguous block of the title |
| `Repository.TitleContains` | task-reminder-app/src/main/java/com/taskreminder/app/repository/TaskRepository.java:22-25 | a row matches iff it has a title and the upper-cased text is a substring of the upper-cased title |
| `Repository.TaskRepository.FindByTitleContainingIgnoreCase` | task-reminder-app/src/main/java/com/taskreminder/app/repository/TaskRepository.java:22-25 | returns every stored task whose title contains the text ignoring (ASCII) case exactly once, and no other task |
| `Repository.InsertNewestFirst` | task-reminder-app/src/main/java/com/taskreminder/app/repository/TaskRepository.java:27-30 | inserting into a newest-first sequence keeps it newest-first and adds exactly that task |
| `Repository.SortNewestFirst` | task-reminder-app/src/main/java/com/taskreminder/app/repository/TaskRepository.java:27-30 | the result is a permutation of the input with non-increasing createdOn |
| `Repository.TaskRepository.FindAllByOrderByCreatedOnDesc` | task-reminder-app/src/main/java/com/taskreminder/app/repository/TaskRepository.java:27-30 | returns every stored task exactly once (a permutation of the table's rows), newest createdOn first |
| `Service.UpdatedRow` | task-reminder-app/src/main/java/com/taskreminder/app/service/TaskService.java:57-74 | the row updateTask stores keeps id and createdOn, takes title, description, priority and status from the draft, gets completedOn = now on entering COMPLETED, loses it for any other status, keeps an existing one on COMPLETED to COMPLETED, and is consistent unless unchanged |
| `Service.UnchangedUpdateKeepsMissingStamp` | task-reminder-app/src/main/java/com/taskreminder/app/service/TaskService.java:62-74 | updating a COMPLETED task that has no completedOn with its own fields writes nothing, so it stays COMPLETED without a stamp |
| `Service.MarkedRow` | task-reminder-app/src/main/java/com/taskreminder/app/service/TaskService.java:85-88 | the row markAsCompleted stores is the stored one with status COMPLETED and completedOn = now, even if it was already completed, and it satisfies the invariant |
| `Service.DefaultStatusRedundant` | task-reminder-app/src/main/java/com/taskreminder/app/service/TaskService.java:43-46 | the service's own PENDING default inserts the same row onCreate's default would |
| `Service.TaskService.GetAllTasks` | task-reminder-app/src/main/java/com/taskreminder/app/service/TaskService.java:27-29 | every stored task exactly once, newest first |
| `Service.TaskService.GetTaskById` | task-reminder-app/src/main/java/com/taskreminder/app/service/TaskService.java:34-36 | the stored task with that id, or nothing iff the id is not stored |
| `Service.TaskService.GetTasksByStatus` | task-reminder-app/src/main/java/com/taskreminder/app/service/TaskService.java:105-107 | every stored task with that status exactly once, nothing else |
| `Service.TaskService.SearchTasksByTitle` | task-reminder-app/src/main/java/com/taskreminder/app/service/TaskService.java:112-114 | every stored task whose title contains the text ignoring case exactly once, nothing else |
| `Service.TaskService.CreateTask` | task-reminder-app/src/main/java/com/taskreminder/app/service/TaskService.java:42-47 | status defaults to PENDING and a supplied one is kept; a draft without id is inserted as exactly one new row under a fresh id with createdOn = now, all other rows unchanged; fails with ValidationFailure iff a column constraint is broken, changing nothing |
| `Service.TaskService.UpdateTask` | task-reminder-app/src/main/java/com/taskreminder/app/service/TaskService.java:53-75 | NotFound for a missing id; otherwise only that row changes, id and createdOn stay, title/description/priority/status come from the draft, completedOn follows the transition rule; ValidationFailure (no change) iff the draft breaks a constraint; the table-wide completion invariant is preserved |
| `Service.TaskService.MarkAsCompleted` | task-reminder-app/src/main/java/com/taskreminder/app/service/TaskService.java:81-89 | NotFound and no change for a missing id; otherwise exactly that row becomes COMPLETED with completedOn = now, unconditionally; the completion invariant is preserved |
| `Service.TaskService.DeleteTask` | task-reminder-app/src/main/java/com/taskreminder/app/service/TaskService.java:95-100 | NotFound and no change for a missing id; otherwise exactly that key is removed, the identity counter is kept (no id is reused) and existsById becomes false |

## Left out

- The controller (HTTP routes, views, flash messages, the catch-all handler)
  and the application entry point are not part of this model.
- The display names of `TaskStatus` and `TaskPriority` are not modelled;
  they carry no behaviour.
- Real time: `LocalDateTime.now()` is a `now` parameter, and timestamps are
  natural numbers rather than date-times.
- Transactions and concurrent requests: each service call is one atomic
  step. Lost updates between interleaved requests are out of scope.
- `Long` ids are unbounded integers; identity overflow is not modelled.
- A failed insert does not consume an identity value in the model. H2 may
  consume one.
- `save` of an entity whose id is not in the table is modelled as an insert
  under a fresh id, which is the classic merge behaviour. Newer Hibernate
  versions reject such an entity instead.
- Case-insensitive search upper-cases ASCII letters only, not full Unicode
  case folding. Lengths are counted in characters, not UTF-16 units. The
  search text is never null.
- `Repository.TaskRepository.FindByStatus`: the source promises no order;
  the model scans rows in id order but its contracts state no order. For
  `findAllByOrderByCreatedOnDesc` only the newest-first order is stated; the
  order among tasks created at the same time is left open, as it is in the
  database.
- Spring's rejection of a `null` id in `deleteById`/`findById` is not
  modelled. Ids are plain integers.
