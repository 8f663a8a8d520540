/** The `tasks` table of the store: its row type, the table the embedded engine holds,
    the table's constraints, and the two statements that touch one row by `task_id`:
    the INSERT of createTask and the SELECT of getTask. */
module Tasks {
  import opened Wrappers

  /** A reading of CURRENT_TIMESTAMP, in seconds on a logical clock. */
  type Timestamp = nat

  /** One row of `tasks`. `id` is the AUTOINCREMENT key; a NULL column is `None`. */
  datatype TaskRecord = TaskRecord(
    id: nat,
    taskId: string,
    apiType: string,
    status: string,
    createdAt: Timestamp,
    updatedAt: Timestamp,
    resultUrl: Option<string>,
    errorMessage: Option<string>)

  /** What createTask is given: a record without `id`, `created_at` and `updated_at`.
      An optional field the caller leaves out is `None`. */
  datatype NewTask = NewTask(
    taskId: string,
    apiType: string,
    status: string,
    resultUrl: Option<string>,
    errorMessage: Option<string>)

  /** The engine's table: the rows in rowid order, and the AUTOINCREMENT counter
      (the id the next inserted row receives). */
  datatype Table = Table(rows: seq<TaskRecord>, nextId: nat)

  /** The error the engine raises on the UNIQUE constraint of `task_id`. */
  datatype DbError = UniqueConstraintFailed(taskId: string)

  /** The table a brand-new database holds once `CREATE TABLE IF NOT EXISTS` has run. */
  const EMPTY_TABLE: Table := Table([], 1)

  /** JavaScript truthiness of an optional string: present and not the empty string. */
  predicate Truthy(s: Option<string>) {
    s.Some? && s.value != ""
  }

  /** The value `s || null` binds: the string when it is truthy, NULL otherwise. */
  function OrNull(s: Option<string>): Option<string> {
    if Truthy(s) then s else None
  }

  predicate HasTaskId(rows: seq<TaskRecord>, taskId: string) {
    exists i :: 0 <= i < |rows| && rows[i].taskId == taskId
  }

  /** The UNIQUE constraint on `task_id`. */
  predicate UniqueTaskIds(rows: seq<TaskRecord>) {
    forall i, j :: 0 <= i < j < |rows| ==> rows[i].taskId != rows[j].taskId
  }

  /** The PRIMARY KEY constraint on `id`. */
  predicate UniqueIds(rows: seq<TaskRecord>) {
    forall i, j :: 0 <= i < j < |rows| ==> rows[i].id != rows[j].id
  }

  /** What every table this layer writes satisfies at time `now`: both keys unique,
      every id below the AUTOINCREMENT counter, and timestamps ordered and not in the
      future. */
  predicate TableValid(t: Table, now: Timestamp) {
    UniqueTaskIds(t.rows) && UniqueIds(t.rows) &&
    forall i :: 0 <= i < |t.rows| ==>
      t.rows[i].id < t.nextId && t.rows[i].createdAt <= t.rows[i].updatedAt <= now
  }

  /** The row `INSERT INTO tasks (task_id, api_type, status, result_url, error_message)`
      creates at time `now`: both timestamps take their CURRENT_TIMESTAMP default. */
  function NewRow(id: nat, task: NewTask, now: Timestamp): TaskRecord {
    TaskRecord(id, task.taskId, task.apiType, task.status, now, now,
               OrNull(task.resultUrl), OrNull(task.errorMessage))
  }

  /** The INSERT of createTask as the engine runs it: a duplicate `task_id` violates the
      UNIQUE constraint and the statement changes nothing. */
  function Insert(t: Table, task: NewTask, now: Timestamp): Result<Table, DbError> {
    if HasTaskId(t.rows, task.taskId) then Failure(UniqueConstraintFailed(task.taskId))
    else Success(Table(t.rows + [NewRow(t.nextId, task, now)], t.nextId + 1))
  }

  /** The first row `SELECT * FROM tasks WHERE task_id = ?` steps to, if any. */
  function FindTask(rows: seq<TaskRecord>, taskId: string): (r: Option<TaskRecord>)
    ensures r.None? <==> !HasTaskId(rows, taskId)
    ensures r.Some? ==> r.value in rows && r.value.taskId == taskId
  {
    if rows == [] then None
    else if rows[0].taskId == taskId then Some(rows[0])
    else
      var r := FindTask(rows[1..], taskId);
      assert HasTaskId(rows[1..], taskId) ==> HasTaskId(rows, taskId) by {
        if HasTaskId(rows[1..], taskId) {
          var i :| 0 <= i < |rows[1..]| && rows[1..][i].taskId == taskId;
          assert rows[i + 1].taskId == taskId;
        }
      }
      assert HasTaskId(rows, taskId) ==> HasTaskId(rows[1..], taskId) by {
        if HasTaskId(rows, taskId) {
          var i :| 0 <= i < |rows| && rows[i].taskId == taskId;
          assert i > 0 && rows[1..][i - 1].taskId == taskId;
        }
      }
      r
  }

  /** Under the UNIQUE constraint, getTask's SELECT yields THE row with that `task_id`. */
  lemma FindTaskUnique(rows: seq<TaskRecord>, i: nat)
    requires UniqueTaskIds(rows) && i < |rows|
    ensures FindTask(rows, rows[i].taskId) == Some(rows[i])
  {
  }

  /** Appending a row leaves every earlier lookup alone and makes the new row findable. */
  lemma {:induction false} FindTaskAppend(rows: seq<TaskRecord>, x: TaskRecord, taskId: string)
    ensures FindTask(rows + [x], taskId) ==
              if HasTaskId(rows, taskId) then FindTask(rows, taskId)
              else if x.taskId == taskId then Some(x)
              else None
  {
    if rows == [] {
      assert rows + [x] == [x];
    } else {
      assert (rows + [x])[1..] == rows[1..] + [x];
      if rows[0].taskId != taskId {
        FindTaskAppend(rows[1..], x, taskId);
      }
    }
  }

  /** createTask then getTask: a successful insert makes `task_id` return exactly the new
      row (given status, `OrNull` of the optional fields, `created_at == updated_at`), and
      every other `task_id` returns what it returned before. */
  lemma InsertThenFind(t: Table, task: NewTask, now: Timestamp, taskId: string)
    requires Insert(t, task, now).Success?
    ensures var r := FindTask(Insert(t, task, now).value.rows, taskId);
      if taskId == task.taskId then
        r == Some(NewRow(t.nextId, task, now)) &&
        r.value.status == task.status && r.value.apiType == task.apiType &&
        r.value.resultUrl == OrNull(task.resultUrl) &&
        r.value.errorMessage == OrNull(task.errorMessage) &&
        r.value.createdAt == r.value.updatedAt == now
      else r == FindTask(t.rows, taskId)
  {
    FindTaskAppend(t.rows, NewRow(t.nextId, task, now), taskId);
  }

  /** A successful insert appends exactly one row and keeps every table constraint;
      a failed one reports the duplicate `task_id`. */
  lemma InsertKeepsValid(t: Table, task: NewTask, now: Timestamp)
    requires TableValid(t, now)
    ensures var r := Insert(t, task, now);
      (r.Failure? <==> HasTaskId(t.rows, task.taskId)) &&
      (r.Failure? ==> r.error == UniqueConstraintFailed(task.taskId)) &&
      (r.Success? ==>
        |r.value.rows| == |t.rows| + 1 && r.value.rows[..|t.rows|] == t.rows &&
        r.value.rows[|t.rows|] == NewRow(t.nextId, task, now) &&
        TableValid(r.value, now))
  {
  }

  /** A table stays valid as the clock moves on. */
  lemma TableValidLater(t: Table, now: Timestamp, later: Timestamp)
    requires TableValid(t, now) && now <= later
    ensures TableValid(t, later)
  {
  }
}
