/**
 * `TaskRepository`: the `tasks` table behind a `JpaRepository<Task, Long>`.
 *
 * The table is a map from id to row plus the next value of the identity
 * column. `Save` runs the entity callbacks the way JPA does (`onCreate` on
 * insert, `onUpdate` on an overwrite that changes the row) and refuses rows
 * that break a column constraint. The three derived queries are functions of
 * the table: a scan in id order, a filter, and a sort newest-first.
 */
module Repository {
  import opened Wrappers
  import opened Entity

  /** The two ways an operation can fail. */
  datatype Error = NotFound(id: int) | ValidationFailure

  /** An exception-free return value: the result or the reason it failed. */
  datatype Result<T> = Ok(value: T) | Err(error: Error)

  /**
   * The table invariant: ids come from the identity column (1, 2, ... below
   * `nextId`), every row carries its own key, and every row satisfies the
   * column constraints.
   */
  predicate TableValid(tasks: map<int, Task>, nextId: int) {
    && 1 <= nextId
    && forall k :: k in tasks ==> 1 <= k < nextId && tasks[k].id == Some(k) && ColumnsValid(tasks[k])
  }

  // ---------------------------------------------------------------------------
  // save(entity)

  /** `save` persists an entity whose id is null or unknown to the table, and merges the others. */
  predicate IsNew(tasks: map<int, Task>, t: Task) {
    t.id.None? || t.id.value !in tasks
  }

  /** The row an insert writes: `onCreate` applied, then the identity value assigned. */
  function Inserted(t: Task, id: int, now: Timestamp): Task {
    OnCreate(t, now).(id := Some(id))
  }

  /**
   * The row an overwrite leaves in the table. The entity's state is copied
   * onto the stored row except `created_on`, which is `updatable = false`.
   * If that changes nothing the entity is not dirty: nothing is written and
   * `onUpdate` does not run. Otherwise `onUpdate` runs before the write.
   */
  function Merged(stored: Task, incoming: Task, now: Timestamp): (r: Task)
    ensures r.id == stored.id && r.createdOn == stored.createdOn
    ensures r.title == incoming.title && r.description == incoming.description
    ensures r.priority == incoming.priority && r.status == incoming.status
    ensures r == stored || CompletionConsistent(r)
    ensures CompletionConsistent(stored) ==> CompletionConsistent(r)
    ensures CompletionConsistent(incoming) ==> r.completedOn == incoming.completedOn
  {
    var copied := incoming.(id := stored.id, createdOn := stored.createdOn);
    if copied == stored then stored else OnUpdate(copied, now)
  }

  /** What one call of `save` returns and leaves behind. */
  datatype SaveStep = SaveStep(result: Result<Task>, tasks: map<int, Task>, nextId: int)

  /**
   * `save(t)` at time `now`: an insert under the next identity value, or an
   * overwrite of the row with `t`'s id. A row that breaks a column
   * constraint is refused and the transaction leaves the table as it was.
   */
  function SaveOutcome(tasks: map<int, Task>, nextId: int, t: Task, now: Timestamp): (s: SaveStep)
    requires TableValid(tasks, nextId)
    ensures TableValid(s.tasks, s.nextId)
    ensures s.result.Err? ==> s.result.error == ValidationFailure && s.tasks == tasks && s.nextId == nextId
    ensures s.result.Ok? ==>
      var row := s.result.value;
      row.id.Some? && s.tasks == tasks[row.id.value := row]
    ensures IsNew(tasks, t) && s.result.Ok? ==>
      var row := s.result.value;
      && row.id == Some(nextId) && nextId !in tasks && s.nextId == nextId + 1
      && row.createdOn == Some(now) && row.completedOn == t.completedOn
    ensures !IsNew(tasks, t) && s.result.Ok? ==>
      var row := s.result.value;
      && row.id == t.id && row.createdOn == tasks[t.id.value].createdOn && s.nextId == nextId
    ensures s.result.Ok? <==> FieldsValid(if IsNew(tasks, t) then OnCreate(t, now) else t)
  {
    if IsNew(tasks, t) then
      var row := Inserted(t, nextId, now);
      if ColumnsValid(row) then SaveStep(Ok(row), tasks[nextId := row], nextId + 1)
      else SaveStep(Err(ValidationFailure), tasks, nextId)
    else
      var k := t.id.value;
      assert tasks[k].id == t.id && ColumnsValid(tasks[k]);
      var row := Merged(tasks[k], t, now);
      if ColumnsValid(row) then SaveStep(Ok(row), tasks[k := row], nextId)
      else SaveStep(Err(ValidationFailure), tasks, nextId)
  }

  // ---------------------------------------------------------------------------
  // Reading the table

  /** The rows with ids in [lo, hi), in id order: how the table is read when no order is requested. */
  function Scan(tasks: map<int, Task>, lo: int, hi: int): seq<Task>
    decreases hi - lo
  {
    if lo >= hi then []
    else (if lo in tasks then [tasks[lo]] else []) + Scan(tasks, lo + 1, hi)
  }

  /** A scan of a table whose rows carry their own keys yields each row in range exactly once. */
  lemma {:induction false} ScanCounts(tasks: map<int, Task>, lo: int, hi: int)
    requires forall k :: k in tasks ==> tasks[k].id == Some(k)
    ensures forall t :: multiset(Scan(tasks, lo, hi))[t] ==
              if t in tasks.Values && t.id.Some? && lo <= t.id.value < hi then 1 else 0
    decreases hi - lo
  {
    if lo < hi {
      ScanCounts(tasks, lo + 1, hi);
      var head := if lo in tasks then [tasks[lo]] else [];
      assert Scan(tasks, lo, hi) == head + Scan(tasks, lo + 1, hi);
      forall t
        ensures multiset(Scan(tasks, lo, hi))[t] ==
                if t in tasks.Values && t.id.Some? && lo <= t.id.value < hi then 1 else 0
      {
        if t in tasks.Values {
          var k :| k in tasks && tasks[k] == t;
          assert t.id.value == k;
        }
      }
    }
  }

  /** Every row of a valid table, in id order. */
  function Rows(tasks: map<int, Task>, nextId: int): (r: seq<Task>)
    requires TableValid(tasks, nextId)
    ensures forall t :: multiset(r)[t] == if t in tasks.Values then 1 else 0
  {
    ScanCounts(tasks, 1, nextId);
    Scan(tasks, 1, nextId)
  }

  /** The rows of `rows` that satisfy `p`, each as often as in `rows`. */
  function Filter(rows: seq<Task>, p: Task -> bool): (r: seq<Task>)
    ensures forall t :: multiset(r)[t] == if p(t) then multiset(rows)[t] else 0
  {
    if rows == [] then []
    else
      assert rows == [rows[0]] + rows[1..];
      (if p(rows[0]) then [rows[0]] else []) + Filter(rows[1..], p)
  }

  // ---------------------------------------------------------------------------
  // ORDER BY created_on DESC

  /** Sort key of `created_on`; a missing value sorts last, as NULL does in a descending H2 sort. */
  function CreatedKey(t: Task): int {
    if t.createdOn.Some? then t.createdOn.value else -1
  }

  /** Newest first: `created_on` never increases along the sequence. */
  predicate NewestFirst(rows: seq<Task>) {
    forall i, j :: 0 <= i < j < |rows| ==> CreatedKey(rows[i]) >= CreatedKey(rows[j])
  }

  /** Inserts `t` into a newest-first sequence before the first row that is not newer than it. */
  function InsertNewestFirst(t: Task, rows: seq<Task>): (r: seq<Task>)
    requires NewestFirst(rows)
    ensures NewestFirst(r)
    ensures multiset(r) == multiset(rows) + multiset{t}
  {
    if rows == [] || CreatedKey(t) >= CreatedKey(rows[0]) then [t] + rows
    else
      var rest := InsertNewestFirst(t, rows[1..]);
      assert rows == [rows[0]] + rows[1..];
      assert forall x :: x in rest ==> CreatedKey(x) <= CreatedKey(rows[0]) by {
        forall x | x in rest ensures CreatedKey(x) <= CreatedKey(rows[0]) {
          assert x in multiset(rest);
          assert x == t || x in rows[1..];
        }
      }
      [rows[0]] + rest
  }

  /** Insertion sort newest-first. */
  function SortNewestFirst(rows: seq<Task>): (r: seq<Task>)
    ensures NewestFirst(r)
    ensures multiset(r) == multiset(rows)
  {
    if rows == [] then []
    else
      assert rows == [rows[0]] + rows[1..];
      InsertNewestFirst(rows[0], SortNewestFirst(rows[1..]))
  }

  // ---------------------------------------------------------------------------
  // title LIKE %text% IGNORE CASE

  /** ASCII upper case of one character; every other character is left alone. */
  function UpperChar(c: char): char {
    if 'a' <= c <= 'z' then (c as int - 32) as char else c
  }

  /** ASCII upper case of a string, character by character. */
  function Upper(s: string): string {
    seq(|s|, i requires 0 <= i < |s| => UpperChar(s[i]))
  }

  /** `needle` occurs in `hay` starting at position `i`. */
  ghost predicate OccursAt(needle: string, hay: string, i: int) {
    0 <= i && i + |needle| <= |hay| && hay[i..i + |needle|] == needle
  }

  /** `needle` occurs in `hay` as a contiguous block. */
  ghost predicate IsSubstring(needle: string, hay: string) {
    exists i :: OccursAt(needle, hay, i)
  }

  /** Substring search: is `needle` a prefix of `hay` or of one of its suffixes? */
  function Contains(hay: string, needle: string): bool
    decreases |hay|
  {
    if needle <= hay then true
    else if hay == [] then false
    else Contains(hay[1..], needle)
  }

  /** An occurrence in the tail of `hay` is an occurrence in `hay` one position later. */
  lemma OccursInTail(needle: string, hay: string, i: int)
    requires hay != [] && 0 <= i
    ensures OccursAt(needle, hay[1..], i) <==> OccursAt(needle, hay, i + 1)
  {
    if 0 <= i && i + |needle| <= |hay[1..]| {
      assert hay[1..][i..i + |needle|] == hay[i + 1..i + 1 + |needle|];
    }
  }

  /** The search finds `needle` exactly when it occurs in `hay`. */
  lemma {:induction false} ContainsIsSubstring(hay: string, needle: string)
    ensures Contains(hay, needle) <==> IsSubstring(needle, hay)
    decreases |hay|
  {
    if needle <= hay {
      assert OccursAt(needle, hay, 0);
    } else if hay == [] {
      assert forall i :: !OccursAt(needle, hay, i);
    } else {
      ContainsIsSubstring(hay[1..], needle);
      if IsSubstring(needle, hay) {
        var i :| OccursAt(needle, hay, i);
        assert i != 0;
        OccursInTail(needle, hay, i - 1);
      }
      if IsSubstring(needle, hay[1..]) {
        var i :| OccursAt(needle, hay[1..], i);
        OccursInTail(needle, hay, i);
      }
    }
  }

  /** The title condition of `findByTitleContainingIgnoreCase(text)`. */
  ghost predicate TitleMatches(t: Task, text: string) {
    t.title.Some? && IsSubstring(Upper(text), Upper(t.title.value))
  }

  /** The filter the search query runs on each row. */
  function TitleContains(t: Task, text: string): (b: bool)
    ensures b <==> TitleMatches(t, text)
  {
    if t.title.None? then false
    else
      ContainsIsSubstring(Upper(t.title.value), Upper(text));
      Contains(Upper(t.title.value), Upper(text))
  }

  // ---------------------------------------------------------------------------
  // The repository object

  /** The table and its identity counter, updated in place by `save` and `deleteById`. */
  class TaskRepository {
    var tasks: map<int, Task>
    var nextId: int

    ghost predicate Valid()
      reads this
    {
      TableValid(tasks, nextId)
    }

    /** An empty table whose identity column starts at 1. */
    constructor ()
      ensures Valid() && tasks == map[] && nextId == 1
    {
      tasks := map[];
      nextId := 1;
    }

    /** `save(t)`: insert or overwrite, as `SaveOutcome` describes. */
    method Save(t: Task, now: Timestamp) returns (r: Result<Task>)
      requires Valid()
      modifies this
      ensures Valid()
      ensures SaveStep(r, tasks, nextId) == SaveOutcome(old(tasks), old(nextId), t, now)
    {
      if t.id.None? || t.id.value !in tasks {
        var row := OnCreate(t, now);
        row := row.(id := Some(nextId));
        if !ColumnsValid(row) {
          return Err(ValidationFailure);
        }
        tasks := tasks[nextId := row];
        nextId := nextId + 1;
        r := Ok(row);
      } else {
        var id := t.id.value;
        var row := Merged(tasks[id], t, now);
        if !ColumnsValid(row) {
          return Err(ValidationFailure);
        }
        tasks := tasks[id := row];
        r := Ok(row);
      }
    }

    /** `findById(id)`: the row stored under `id`, which carries that id, or nothing. */
    function FindById(id: int): (r: Option<Task>)
      reads this
      requires Valid()
      ensures r.Some? <==> id in tasks
      ensures r.Some? ==> r.value == tasks[id] && r.value.id == Some(id) && ColumnsValid(r.value)
    {
      if id in tasks then Some(tasks[id]) else None
    }

    /** `existsById(id)`: whether `findById(id)` finds a row. */
    function ExistsById(id: int): (b: bool)
      reads this
      requires Valid()
      ensures b <==> FindById(id).Some?
    {
      id in tasks
    }

    /** `deleteById(id)`: removes the row with that id, if there is one; the identity counter is not reused. */
    method DeleteById(id: int)
      requires Valid()
      modifies this
      ensures Valid()
      ensures tasks == old(tasks) - {id} && nextId == old(nextId)
      ensures !ExistsById(id)
    {
      tasks := tasks - {id};
    }

    /** `findByStatus(status)`: every stored task with that status, each once. */
    function FindByStatus(status: TaskStatus): (r: seq<Task>)
      reads this
      requires Valid()
      ensures forall t :: multiset(r)[t] == if t in tasks.Values && t.status == Some(status) then 1 else 0
    {
      Filter(Rows(tasks, nextId), (t: Task) => t.status == Some(status))
    }

    /** `findByTitleContainingIgnoreCase(text)`: every stored task whose title contains `text`, ignoring case, each once. */
    function FindByTitleContainingIgnoreCase(text: string): (r: seq<Task>)
      reads this
      requires Valid()
      ensures forall t :: multiset(r)[t] == if t in tasks.Values && TitleMatches(t, text) then 1 else 0
    {
      Filter(Rows(tasks, nextId), (t: Task) => TitleContains(t, text))
    }

    /** `findAllByOrderByCreatedOnDesc()`: every stored task exactly once, newest first. */
    function FindAllByOrderByCreatedOnDesc(): (r: seq<Task>)
      reads this
      requires Valid()
      ensures forall t :: multiset(r)[t] == if t in tasks.Values then 1 else 0
      ensures NewestFirst(r)
    {
      SortNewestFirst(Rows(tasks, nextId))
    }
  }
}
