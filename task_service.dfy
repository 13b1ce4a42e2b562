/**
 * `TaskService`: the task lifecycle on top of the repository.
 *
 * Each mutating operation is one atomic read-modify-write of the table. The
 * status may move between PENDING, IN_PROGRESS and COMPLETED in any
 * direction; `completedOn` follows it. A missing id yields `NotFound`
 * instead of an exception, and a row the table refuses yields
 * `ValidationFailure` with the table left as it was.
 */
module Service {
  import opened Wrappers
  import opened Entity
  import opened Repository

  /** Every stored task records a completion time exactly when it is completed. */
  predicate AllCompletionConsistent(tasks: map<int, Task>) {
    forall k :: k in tasks ==> CompletionConsistent(tasks[k])
  }

  /** `createTask` gives a draft without a status the status PENDING before saving it. */
  function WithDefaultStatus(draft: Task): Task {
    if draft.status.None? then draft.(status := Some(Pending)) else draft
  }

  /**
   * The entity `updateTask` hands to `save`: the stored task with title,
   * description, priority and status copied from the draft, and
   * `completedOn` set to `now` when the status enters COMPLETED, cleared when
   * the new status is anything else, and kept on COMPLETED to COMPLETED.
   */
  function ApplyUpdate(existing: Task, draft: Task, now: Timestamp): Task {
    var edited := existing.(title := draft.title, description := draft.description,
                            priority := draft.priority, status := draft.status);
    if draft.status == Some(Completed) && existing.status != Some(Completed) then
      edited.(completedOn := Some(now))
    else if draft.status != Some(Completed) then
      edited.(completedOn := None)
    else
      edited
  }

  /** The entity `markAsCompleted` hands to `save`. */
  function MarkCompleted(existing: Task, now: Timestamp): Task {
    existing.(status := Some(Completed), completedOn := Some(now))
  }

  /**
   * The row `updateTask` leaves in the table, once `save` has merged the
   * edited entity (id and creation time kept, `onUpdate` run if the row
   * changed). The transition rule decides `completedOn`; the row satisfies
   * the completion invariant unless the update changed nothing at all.
   */
  lemma UpdatedRow(existing: Task, draft: Task, now: Timestamp)
    ensures var row := Merged(existing, ApplyUpdate(existing, draft, now), now);
      && row.id == existing.id && row.createdOn == existing.createdOn
      && row.title == draft.title && row.description == draft.description
      && row.priority == draft.priority && row.status == draft.status
      && (draft.status == Some(Completed) && existing.status != Some(Completed) ==> row.completedOn == Some(now))
      && (draft.status != Some(Completed) ==> row.completedOn.None?)
      && (draft.status == Some(Completed) && existing.status == Some(Completed) && existing.completedOn.Some? ==>
            row.completedOn == existing.completedOn)
      && (CompletionConsistent(row) || row == existing)
      && (CompletionConsistent(existing) ==> CompletionConsistent(row))
  {
  }

  /**
   * The one case where `updateTask` leaves a completed task without a
   * completion time: the task was created COMPLETED (so `onCreate` left
   * `completedOn` empty) and the update repeats its stored fields, so the
   * entity is not dirty and `onUpdate` does not run.
   */
  lemma UnchangedUpdateKeepsMissingStamp(existing: Task, now: Timestamp)
    requires existing.status == Some(Completed) && existing.completedOn.None?
    ensures var row := Merged(existing, ApplyUpdate(existing, existing, now), now);
      row == existing && !CompletionConsistent(row)
  {
    assert ApplyUpdate(existing, existing, now) == existing;
  }

  /**
   * The row `markAsCompleted` leaves in the table: status COMPLETED and
   * completion time `now`, whatever they were before, everything else as
   * stored.
   */
  lemma MarkedRow(existing: Task, now: Timestamp)
    ensures var row := Merged(existing, MarkCompleted(existing, now), now);
      && row == existing.(status := Some(Completed), completedOn := Some(now))
      && CompletionConsistent(row)
  {
  }

  /**
   * `createTask`'s own defaulting of the status changes nothing in the row
   * it inserts: `onCreate` would have defaulted it the same way.
   */
  lemma DefaultStatusRedundant(draft: Task, id: int, now: Timestamp)
    ensures Inserted(WithDefaultStatus(draft), id, now) == Inserted(draft, id, now)
  {
  }

  /** The lifecycle service; the repository is the table it works on. */
  class TaskService {
    const repository: TaskRepository

    constructor (repository: TaskRepository)
      ensures this.repository == repository
    {
      this.repository := repository;
    }

    /** `getAllTasks()`: every stored task once, newest first. */
    method GetAllTasks() returns (r: seq<Task>)
      requires repository.Valid()
      ensures r == repository.FindAllByOrderByCreatedOnDesc()
      ensures forall t :: multiset(r)[t] == if t in repository.tasks.Values then 1 else 0
      ensures NewestFirst(r)
    {
      r := repository.FindAllByOrderByCreatedOnDesc();
    }

    /** `getTaskById(id)`: the task stored under `id`, or nothing. */
    method GetTaskById(id: int) returns (r: Option<Task>)
      requires repository.Valid()
      ensures r.Some? <==> id in repository.tasks
      ensures r.Some? ==> r.value == repository.tasks[id] && r.value.id == Some(id)
    {
      r := repository.FindById(id);
    }

    /** `getTasksByStatus(status)`: every stored task with that status, once each. */
    method GetTasksByStatus(status: TaskStatus) returns (r: seq<Task>)
      requires repository.Valid()
      ensures forall t :: multiset(r)[t] == if t in repository.tasks.Values && t.status == Some(status) then 1 else 0
    {
      r := repository.FindByStatus(status);
    }

    /** `searchTasksByTitle(text)`: every stored task whose title contains `text` ignoring case, once each. */
    method SearchTasksByTitle(text: string) returns (r: seq<Task>)
      requires repository.Valid()
      ensures forall t :: multiset(r)[t] == if t in repository.tasks.Values && TitleMatches(t, text) then 1 else 0
    {
      r := repository.FindByTitleContainingIgnoreCase(text);
    }

    /**
     * `createTask(draft)`: defaults the status to PENDING and saves. A draft
     * without an id becomes exactly one new row under a fresh id, with every
     * existing row left as it was.
     */
    method CreateTask(draft: Task, now: Timestamp) returns (r: Result<Task>)
      requires repository.Valid()
      modifies repository
      ensures repository.Valid()
      ensures SaveStep(r, repository.tasks, repository.nextId)
              == SaveOutcome(old(repository.tasks), old(repository.nextId), WithDefaultStatus(draft), now)
      ensures r.Ok? ==> r.value.status == if draft.status.None? then Some(Pending) else draft.status
      ensures draft.id.None? ==> (r.Ok? <==> FieldsValid(WithDefaultStatus(draft)))
      ensures draft.id.None? && r.Ok? ==>
        var id := old(repository.nextId);
        && id !in old(repository.tasks)
        && r.value.id == Some(id) && r.value.createdOn == Some(now)
        && repository.tasks == old(repository.tasks)[id := r.value]
      ensures r.Err? ==>
        && r.error == ValidationFailure
        && repository.tasks == old(repository.tasks) && repository.nextId == old(repository.nextId)
      ensures draft.id.None? && CompletionConsistent(WithDefaultStatus(draft)) && old(AllCompletionConsistent(repository.tasks))
              ==> AllCompletionConsistent(repository.tasks)
    {
      var task := draft;
      if task.status.None? {
        task := task.(status := Some(Pending));
      }
      r := repository.Save(task, now);
    }

    /**
     * `updateTask(id, draft)`: `NotFound` for an unknown id. Otherwise the
     * title, description, priority and status come from the draft, the id
     * and creation time stay, `completedOn` follows the transition rule, and
     * no other row changes.
     */
    method UpdateTask(id: int, draft: Task, now: Timestamp) returns (r: Result<Task>)
      requires repository.Valid()
      modifies repository
      ensures repository.Valid()
      ensures id !in old(repository.tasks) ==> r == Err(NotFound(id))
      ensures id in old(repository.tasks) ==>
        SaveStep(r, repository.tasks, repository.nextId)
        == SaveOutcome(old(repository.tasks), old(repository.nextId), ApplyUpdate(old(repository.tasks)[id], draft, now), now)
      ensures id in old(repository.tasks) ==> (r.Ok? <==> FieldsValid(draft))
      ensures r.Ok? ==>
        var old_row := old(repository.tasks)[id];
        var row := r.value;
        && id in old(repository.tasks)
        && repository.tasks == old(repository.tasks)[id := row]
        && row.id == Some(id) && row.createdOn == old_row.createdOn
        && row.title == draft.title && row.description == draft.description
        && row.priority == draft.priority && row.status == draft.status
        && (draft.status == Some(Completed) && old_row.status != Some(Completed) ==> row.completedOn == Some(now))
        && (draft.status != Some(Completed) ==> row.completedOn.None?)
        && (draft.status == Some(Completed) && old_row.status == Some(Completed) && old_row.completedOn.Some? ==>
              row.completedOn == old_row.completedOn)
      ensures r.Err? ==> repository.tasks == old(repository.tasks) && repository.nextId == old(repository.nextId)
      ensures old(AllCompletionConsistent(repository.tasks)) ==> AllCompletionConsistent(repository.tasks)
    {
      var found := repository.FindById(id);
      if found.None? {
        return Err(NotFound(id));
      }
      var existing := found.value;
      var oldStatus := existing.status;
      var newStatus := draft.status;
      existing := existing.(title := draft.title);
      existing := existing.(description := draft.description);
      existing := existing.(priority := draft.priority);
      existing := existing.(status := newStatus);
      if newStatus == Some(Completed) && oldStatus != Some(Completed) {
        existing := existing.(completedOn := Some(now));
      } else if newStatus != Some(Completed) {
        existing := existing.(completedOn := None);
      }
      assert existing == ApplyUpdate(found.value, draft, now);
      UpdatedRow(found.value, draft, now);
      r := repository.Save(existing, now);
    }

    /**
     * `markAsCompleted(id)`: `NotFound` for an unknown id. Otherwise status
     * COMPLETED and completion time `now`, restamped even if the task was
     * already completed; nothing else changes.
     */
    method MarkAsCompleted(id: int, now: Timestamp) returns (r: Result<Task>)
      requires repository.Valid()
      modifies repository
      ensures repository.Valid()
      ensures id !in old(repository.tasks) ==>
        && r == Err(NotFound(id))
        && repository.tasks == old(repository.tasks) && repository.nextId == old(repository.nextId)
      ensures id in old(repository.tasks) ==>
        var row := old(repository.tasks)[id].(status := Some(Completed), completedOn := Some(now));
        && r == Ok(row)
        && repository.tasks == old(repository.tasks)[id := row]
        && repository.nextId == old(repository.nextId)
      ensures old(AllCompletionConsistent(repository.tasks)) ==> AllCompletionConsistent(repository.tasks)
    {
      var found := repository.FindById(id);
      if found.None? {
        return Err(NotFound(id));
      }
      var task := found.value;
      task := task.(status := Some(Completed));
      task := task.(completedOn := Some(now));
      MarkedRow(found.value, now);
      r := repository.Save(task, now);
    }

    /**
     * `deleteTask(id)`: `NotFound` and no change for an unknown id;
     * otherwise exactly that row is removed.
     */
    method DeleteTask(id: int) returns (r: Result<()>)
      requires repository.Valid()
      modifies repository
      ensures repository.Valid()
      ensures id !in old(repository.tasks) ==>
        && r == Err(NotFound(id))
        && repository.tasks == old(repository.tasks) && repository.nextId == old(repository.nextId)
      ensures id in old(repository.tasks) ==>
        && r == Ok(())
        && repository.tasks == old(repository.tasks) - {id}
        && repository.nextId == old(repository.nextId)
        && !repository.ExistsById(id)
      ensures old(AllCompletionConsistent(repository.tasks)) ==> AllCompletionConsistent(repository.tasks)
    {
      if !repository.ExistsById(id) {
        return Err(NotFound(id));
      }
      repository.DeleteById(id);
      r := Ok(());
    }
  }

  /**
   * An example run, not a model of a source function: create "Buy milk"
   * with priority LOW and no status, complete it, then move it back to
   * IN_PROGRESS and delete it.
   */
  method BuyMilkScenario()
  {
    var repository := new TaskRepository();
    var service := new TaskService(repository);
    var draft := Task(None, Some("Buy milk"), None, Some(Low), None, None, None);

    var created := service.CreateTask(draft, 10);
    assert created.Ok?;
    var t := created.value;
    assert t.id == Some(1) && t.status == Some(Pending) && t.completedOn.None? && t.createdOn == Some(10);

    var completed := service.MarkAsCompleted(1, 20);
    assert completed.Ok? && completed.value.status == Some(Completed) && completed.value.completedOn == Some(20);

    var again := service.MarkAsCompleted(1, 30);
    assert again.Ok? && again.value.completedOn == Some(30);

    var edit := t.(status := Some(InProgress));
    var updated := service.UpdateTask(1, edit, 40);
    assert updated.Ok? && updated.value.status == Some(InProgress) && updated.value.completedOn.None?;
    assert updated.value.createdOn == Some(10);

    var gone := service.DeleteTask(1);
    assert gone == Ok(());
    var missing := service.DeleteTask(1);
    assert missing == Err(NotFound(1));
  }
}
