/**
 * The `Task` JPA entity: its columns, the constraints the `tasks` table puts
 * on them, and the two lifecycle callbacks (`@PrePersist onCreate`,
 * `@PreUpdate onUpdate`) the persistence layer runs before writing a row.
 *
 * `LocalDateTime.now()` is replaced by a caller-supplied clock value `now`.
 */
module Entity {
  import opened Wrappers

  /** Lifecycle stage of a task (enum `TaskStatus`). */
  datatype TaskStatus = Pending | InProgress | Completed

  /** Urgency of a task (enum `TaskPriority`). */
  datatype TaskPriority = High | Medium | Low

  /** A clock reading; larger is later. */
  type Timestamp = nat

  /**
   * One `Task` object. Every column the Java class declares as a reference
   * type can be `null`, so each is an `Option`; which of them must be present
   * in a stored row is what `ColumnsValid` says.
   */
  datatype Task = Task(
    id: Option<int>,
    title: Option<string>,
    description: Option<string>,
    priority: Option<TaskPriority>,
    status: Option<TaskStatus>,
    createdOn: Option<Timestamp>,
    completedOn: Option<Timestamp>)

  /** `@Column(length = 200)` on `title`. */
  const MaxTitleLength := 200
  /** `@Column(length = 1000)` on `description`. */
  const MaxDescriptionLength := 1000

  /**
   * The constraints of the `tasks` table on the columns a caller supplies:
   * `title`, `priority` and `status` are `nullable = false`, and the two text
   * columns have a maximum length.
   */
  predicate FieldsValid(t: Task) {
    && t.title.Some? && |t.title.value| <= MaxTitleLength
    && (t.description.Some? ==> |t.description.value| <= MaxDescriptionLength)
    && t.priority.Some?
    && t.status.Some?
  }

  /**
   * Every column constraint of the `tasks` table, `created_on` (also
   * `nullable = false`) included. The database refuses a row that breaks one.
   */
  predicate ColumnsValid(t: Task) {
    FieldsValid(t) && t.createdOn.Some?
  }

  /** The completion invariant: a completion time is recorded exactly for completed tasks. */
  predicate CompletionConsistent(t: Task) {
    t.completedOn.Some? <==> t.status == Some(Completed)
  }

  /**
   * `@PrePersist onCreate`: stamps the creation time, overwriting whatever the
   * draft carried, and defaults a missing status to PENDING. Nothing else,
   * in particular not `completedOn`, is touched.
   */
  function OnCreate(t: Task, now: Timestamp): (r: Task)
    ensures r.createdOn == Some(now)
    ensures t.status.None? ==> r.status == Some(Pending)
    ensures t.status.Some? ==> r.status == t.status
    ensures r.(createdOn := t.createdOn, status := t.status) == t
  {
    var withStatus := if t.status.None? then t.(status := Some(Pending)) else t;
    withStatus.(createdOn := Some(now))
  }

  /**
   * `@PreUpdate onUpdate`: a completed task without a completion time is
   * stamped with `now`, an existing stamp is kept, and a task that is not
   * completed (including one with no status) loses its stamp. Only
   * `completedOn` can change, and the result always satisfies the invariant.
   */
  function OnUpdate(t: Task, now: Timestamp): (r: Task)
    ensures CompletionConsistent(r)
    ensures r.(completedOn := t.completedOn) == t
    ensures t.status == Some(Completed) && t.completedOn.None? ==> r.completedOn == Some(now)
    ensures t.status == Some(Completed) && t.completedOn.Some? ==> r == t
    ensures t.status != Some(Completed) ==> r.completedOn.None?
  {
    if t.status == Some(Completed) && t.completedOn.None? then t.(completedOn := Some(now))
    else if t.status != Some(Completed) then t.(completedOn := None)
    else t
  }

  /** A row that already satisfies the invariant is a fixed point of `onUpdate`, whatever the clock says. */
  lemma OnUpdateFixesConsistent(t: Task, now: Timestamp)
    requires CompletionConsistent(t)
    ensures OnUpdate(t, now) == t
  {
  }

  /** Running `onUpdate` twice is the same as running it once, even at a later time. */
  lemma OnUpdateIdempotent(t: Task, now: Timestamp, later: Timestamp)
    ensures OnUpdate(OnUpdate(t, now), later) == OnUpdate(t, now)
  {
    OnUpdateFixesConsistent(OnUpdate(t, now), later);
  }

  /**
   * `onCreate` does not establish the invariant: every draft created as
   * COMPLETED without a completion time is persisted without one.
   */
  lemma OnCreateMayLeaveCompletedUnstamped(draft: Task, now: Timestamp)
    requires draft.status == Some(Completed) && draft.completedOn.None?
    ensures var r := OnCreate(draft, now);
            r.status == Some(Completed) && r.completedOn.None? && !CompletionConsistent(r)
  {
  }
}
