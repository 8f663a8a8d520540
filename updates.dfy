/** updateTask: the SET clause it builds from the truthy supplied fields, what the
    engine does with the resulting `UPDATE tasks SET ... WHERE task_id = ?`, and the
    per-row effect that amounts to. */
module Updates {
  import opened Wrappers
  import opened Tasks

  /** The three fields of a `Partial<TaskRecord>` that updateTask looks at; any other
      field of the partial record is ignored by the source and is not modelled. */
  datatype TaskUpdate = TaskUpdate(
    status: Option<string>,
    resultUrl: Option<string>,
    errorMessage: Option<string>)

  /** Whether at least one field would be assigned: the update runs only then. */
  predicate HasRealField(u: TaskUpdate) {
    Truthy(u.status) || Truthy(u.resultUrl) || Truthy(u.errorMessage)
  }

  /** The intended effect on a row the update matches: each truthy supplied field is
      written, the falsy ones are left as they were, and `updated_at` becomes `now`. */
  function Updated(row: TaskRecord, u: TaskUpdate, now: Timestamp): TaskRecord {
    row.(status := if Truthy(u.status) then u.status.value else row.status,
         resultUrl := if Truthy(u.resultUrl) then u.resultUrl else row.resultUrl,
         errorMessage := if Truthy(u.errorMessage) then u.errorMessage else row.errorMessage,
         updatedAt := now)
  }

  /** The intended effect on the table: `Updated` on every row with that `task_id`. */
  function UpdateRows(rows: seq<TaskRecord>, taskId: string, u: TaskUpdate, now: Timestamp): seq<TaskRecord> {
    if rows == [] then []
    else [if rows[0].taskId == taskId then Updated(rows[0], u, now) else rows[0]]
         + UpdateRows(rows[1..], taskId, u, now)
  }

  /** The frame of an update: rows with another `task_id` are untouched; in a matched row
      only `updated_at` and the truthy supplied fields change, and `id`, `task_id`,
      `api_type` and `created_at` never do. */
  lemma {:induction false} UpdateFrame(rows: seq<TaskRecord>, taskId: string, u: TaskUpdate, now: Timestamp)
    ensures |UpdateRows(rows, taskId, u, now)| == |rows|
    ensures forall i :: 0 <= i < |rows| ==>
      var r, o := UpdateRows(rows, taskId, u, now)[i], rows[i];
      r.id == o.id && r.taskId == o.taskId && r.apiType == o.apiType && r.createdAt == o.createdAt &&
      (o.taskId != taskId ==> r == o) &&
      (o.taskId == taskId ==>
        r.updatedAt == now &&
        r.status == (if Truthy(u.status) then u.status.value else o.status) &&
        r.resultUrl == (if Truthy(u.resultUrl) then u.resultUrl else o.resultUrl) &&
        r.errorMessage == (if Truthy(u.errorMessage) then u.errorMessage else o.errorMessage))
  {
    if rows != [] {
      UpdateFrame(rows[1..], taskId, u, now);
      var rest := UpdateRows(rows[1..], taskId, u, now);
      assert forall i :: 1 <= i < |rows| ==> UpdateRows(rows, taskId, u, now)[i] == rest[i - 1];
    }
  }

  /** An update of an unknown `task_id` affects zero rows. */
  lemma UpdateUnknownIsNoop(rows: seq<TaskRecord>, taskId: string, u: TaskUpdate, now: Timestamp)
    requires !HasTaskId(rows, taskId)
    ensures UpdateRows(rows, taskId, u, now) == rows
  {
  }

  /** updateTask then getTask: the row getTask returned before the update comes back
      with the update applied; no other `task_id` is affected. */
  lemma {:induction false} UpdateThenFind(rows: seq<TaskRecord>, taskId: string, u: TaskUpdate, now: Timestamp, key: string)
    ensures FindTask(UpdateRows(rows, taskId, u, now), key) ==
      match FindTask(rows, key)
      case None => None
      case Some(x) => Some(if key == taskId then Updated(x, u, now) else x)
  {
    if rows != [] {
      assert UpdateRows(rows, taskId, u, now)[1..] == UpdateRows(rows[1..], taskId, u, now);
      UpdateThenFind(rows[1..], taskId, u, now, key);
    }
  }

  /** An update run at `now` keeps every table constraint, and no row's `updated_at`
      moves backwards (it may stay equal: timestamps have one-second resolution). */
  lemma UpdateKeepsValid(t: Table, taskId: string, u: TaskUpdate, now: Timestamp)
    requires TableValid(t, now)
    ensures TableValid(Table(UpdateRows(t.rows, taskId, u, now), t.nextId), now)
    ensures |UpdateRows(t.rows, taskId, u, now)| == |t.rows|
    ensures forall i :: 0 <= i < |t.rows| ==>
      t.rows[i].updatedAt <= UpdateRows(t.rows, taskId, u, now)[i].updatedAt
  {
    UpdateFrame(t.rows, taskId, u, now);
  }

  // ---------------------------------------------------------------------------
  // The SET clause

  /** A column on the left of an assignment in the SET clause. */
  datatype Column = Status | ResultUrl | ErrorMessage | UpdatedAt

  /** The number of `?` placeholders in a SET clause: every assignment has one except
      `updated_at = CURRENT_TIMESTAMP`. */
  function Placeholders(fields: seq<Column>): nat {
    if fields == [] then 0
    else (if fields[0] == UpdatedAt then 0 else 1) + Placeholders(fields[1..])
  }

  /** The parameter bound to column `c` when the placeholders of `fields` take the
      values of `params` in order, or `None` when `c` has no placeholder. */
  function BoundValue(fields: seq<Column>, params: seq<string>, c: Column): Option<string>
    requires Placeholders(fields) <= |params|
  {
    if fields == [] then None
    else if fields[0] == UpdatedAt then BoundValue(fields[1..], params, c)
    else if fields[0] == c then Some(params[0])
    else BoundValue(fields[1..], params[1..], c)
  }

  predicate Distinct(fields: seq<Column>) {
    forall i, j :: 0 <= i < j < |fields| ==> fields[i] != fields[j]
  }

  /** What the assignments `fields = params` do to one row, CURRENT_TIMESTAMP being `now`. */
  function ApplySet(row: TaskRecord, fields: seq<Column>, params: seq<string>, now: Timestamp): TaskRecord
    requires Placeholders(fields) <= |params|
    decreases |fields|
  {
    if fields == [] then row
    else match fields[0]
      case UpdatedAt => ApplySet(row.(updatedAt := now), fields[1..], params, now)
      case Status => ApplySet(row.(status := params[0]), fields[1..], params[1..], now)
      case ResultUrl => ApplySet(row.(resultUrl := Some(params[0])), fields[1..], params[1..], now)
      case ErrorMessage => ApplySet(row.(errorMessage := Some(params[0])), fields[1..], params[1..], now)
  }

  /** `UPDATE tasks SET <fields> WHERE task_id = ?` run with `params`: the placeholders of
      the SET clause come first and the last parameter is the `task_id` of the WHERE. */
  function ExecUpdate(rows: seq<TaskRecord>, fields: seq<Column>, params: seq<string>, now: Timestamp): seq<TaskRecord>
    requires Placeholders(fields) + 1 == |params|
  {
    var key := params[|params| - 1];
    seq(|rows|, i requires 0 <= i < |rows| =>
      if rows[i].taskId == key then ApplySet(rows[i], fields, params, now) else rows[i])
  }

  /** The shape updateTask's `updateFields`/`values` arrays always have: one value per
      placeholder plus `taskId` last for the WHERE, each column at most once,
      `updated_at` assigned, and each of the three fields bound to exactly `x || null`
      of the supplied value (so a falsy value binds nothing). */
  predicate SetClauseFor(u: TaskUpdate, taskId: string, fields: seq<Column>, values: seq<string>) {
    Placeholders(fields) + 1 == |values| && values[|values| - 1] == taskId &&
    Distinct(fields) && UpdatedAt in fields &&
    BoundValue(fields, values, Status) == OrNull(u.status) &&
    BoundValue(fields, values, ResultUrl) == OrNull(u.resultUrl) &&
    BoundValue(fields, values, ErrorMessage) == OrNull(u.errorMessage)
  }

  lemma {:induction false} PlaceholdersAppend(fields: seq<Column>, c: Column)
    ensures Placeholders(fields + [c]) == Placeholders(fields) + (if c == UpdatedAt then 0 else 1)
  {
    if fields == [] {
      assert fields + [c] == [c];
    } else {
      assert (fields + [c])[1..] == fields[1..] + [c];
      PlaceholdersAppend(fields[1..], c);
    }
  }

  /** Pushing an assignment with a placeholder and its value onto the two arrays binds
      the new column to that value and leaves every earlier binding alone. */
  lemma {:induction false} BoundValueAppend(fields: seq<Column>, params: seq<string>, c: Column, x: string, d: Column)
    requires Placeholders(fields) == |params| && c != UpdatedAt
    ensures Placeholders(fields + [c]) == |params| + 1
    ensures BoundValue(fields + [c], params + [x], d) ==
      if BoundValue(fields, params, d).Some? then BoundValue(fields, params, d)
      else if c == d then Some(x) else None
  {
    PlaceholdersAppend(fields, c);
    if fields == [] {
      assert fields + [c] == [c];
      assert params == [];
      assert params + [x] == [x];
    } else {
      assert (fields + [c])[1..] == fields[1..] + [c];
      if fields[0] == UpdatedAt {
        BoundValueAppend(fields[1..], params, c, x, d);
      } else if fields[0] != d {
        assert (params + [x])[1..] == params[1..] + [x];
        BoundValueAppend(fields[1..], params[1..], c, x, d);
      }
    }
  }

  /** Pushing `updated_at = CURRENT_TIMESTAMP` binds nothing. */
  lemma {:induction false} BoundValueAppendTimestamp(fields: seq<Column>, params: seq<string>, d: Column)
    requires Placeholders(fields) <= |params|
    ensures Placeholders(fields + [UpdatedAt]) == Placeholders(fields)
    ensures BoundValue(fields + [UpdatedAt], params, d) == BoundValue(fields, params, d)
  {
    PlaceholdersAppend(fields, UpdatedAt);
    if fields == [] {
      assert fields + [UpdatedAt] == [UpdatedAt];
    } else {
      assert (fields + [UpdatedAt])[1..] == fields[1..] + [UpdatedAt];
      if fields[0] == UpdatedAt {
        BoundValueAppendTimestamp(fields[1..], params, d);
      } else if fields[0] != d {
        BoundValueAppendTimestamp(fields[1..], params[1..], d);
      }
    }
  }

  /** Parameters beyond the last placeholder (the WHERE's `task_id`) bind no column. */
  lemma {:induction false} BoundValueExtraParam(fields: seq<Column>, params: seq<string>, x: string, d: Column)
    requires Placeholders(fields) <= |params|
    ensures BoundValue(fields, params + [x], d) == BoundValue(fields, params, d)
  {
    if fields != [] {
      if fields[0] == UpdatedAt {
        BoundValueExtraParam(fields[1..], params, x, d);
      } else if fields[0] != d {
        assert (params + [x])[1..] == params[1..] + [x];
        BoundValueExtraParam(fields[1..], params[1..], x, d);
      }
    }
  }

  lemma {:induction false} BoundValueAbsent(fields: seq<Column>, params: seq<string>, c: Column)
    requires Placeholders(fields) <= |params| && c !in fields
    ensures BoundValue(fields, params, c) == None
  {
    if fields != [] {
      if fields[0] == UpdatedAt {
        BoundValueAbsent(fields[1..], params, c);
      } else {
        BoundValueAbsent(fields[1..], params[1..], c);
      }
    }
  }

  /** The assignments of a SET clause without repeated columns write each column with
      its bound value (or `now` for `updated_at`) and leave every other column as it was. */
  lemma {:induction false} ApplySetEffect(row: TaskRecord, fields: seq<Column>, params: seq<string>, now: Timestamp)
    requires Placeholders(fields) <= |params| && Distinct(fields)
    decreases |fields|
    ensures var r := ApplySet(row, fields, params, now);
      r.id == row.id && r.taskId == row.taskId && r.apiType == row.apiType &&
      r.createdAt == row.createdAt &&
      r.status == BoundValue(fields, params, Status).GetOr(row.status) &&
      r.resultUrl == (if BoundValue(fields, params, ResultUrl).Some? then BoundValue(fields, params, ResultUrl) else row.resultUrl) &&
      r.errorMessage == (if BoundValue(fields, params, ErrorMessage).Some? then BoundValue(fields, params, ErrorMessage) else row.errorMessage) &&
      r.updatedAt == (if UpdatedAt in fields then now else row.updatedAt)
  {
    if fields != [] {
      var c, rest := fields[0], fields[1..];
      assert c !in rest;
      assert Distinct(rest) by {
        forall i, j | 0 <= i < j < |rest| ensures rest[i] != rest[j] {
          assert fields[i + 1] != fields[j + 1];
        }
      }
      assert forall d :: d in fields <==> d == c || d in rest;
      var params' := if c == UpdatedAt then params else params[1..];
      var row' := match c
        case UpdatedAt => row.(updatedAt := now)
        case Status => row.(status := params[0])
        case ResultUrl => row.(resultUrl := Some(params[0]))
        case ErrorMessage => row.(errorMessage := Some(params[0]));
      assert ApplySet(row, fields, params, now) == ApplySet(row', rest, params', now);
      ApplySetEffect(row', rest, params', now);
      BoundValueAbsent(rest, params', c);
    }
  }

  /** The heart of updateTask: running the UPDATE built from a SET clause of the shape
      `SetClauseFor` describes has exactly the intended effect `UpdateRows`. */
  lemma SetClauseMeaning(rows: seq<TaskRecord>, taskId: string, u: TaskUpdate,
                         fields: seq<Column>, values: seq<string>, now: Timestamp)
    requires SetClauseFor(u, taskId, fields, values)
    ensures ExecUpdate(rows, fields, values, now) == UpdateRows(rows, taskId, u, now)
  {
    UpdateFrame(rows, taskId, u, now);
    var lhs, rhs := ExecUpdate(rows, fields, values, now), UpdateRows(rows, taskId, u, now);
    forall i | 0 <= i < |rows| ensures lhs[i] == rhs[i] {
      if rows[i].taskId == taskId {
        ApplySetEffect(rows[i], fields, values, now);
      }
    }
  }

  /** updateTask's `push` sequence (src/database.ts:132-151): one assignment per truthy
      field, in the order status, result_url, error_message, then `updated_at`, with
      `taskId` pushed last for the WHERE. */
  method BuildSetClause(taskId: string, u: TaskUpdate) returns (fields: seq<Column>, values: seq<string>)
    ensures SetClauseFor(u, taskId, fields, values)
    ensures fields[|fields| - 1] == UpdatedAt
    ensures |fields| > 1 <==> HasRealField(u)
  {
    fields, values := [], [];
    if Truthy(u.status) {
      BoundValueAppend(fields, values, Status, u.status.value, Status);
      BoundValueAppend(fields, values, Status, u.status.value, ResultUrl);
      BoundValueAppend(fields, values, Status, u.status.value, ErrorMessage);
      fields, values := fields + [Status], values + [u.status.value];
    }
    if Truthy(u.resultUrl) {
      BoundValueAppend(fields, values, ResultUrl, u.resultUrl.value, Status);
      BoundValueAppend(fields, values, ResultUrl, u.resultUrl.value, ResultUrl);
      BoundValueAppend(fields, values, ResultUrl, u.resultUrl.value, ErrorMessage);
      fields, values := fields + [ResultUrl], values + [u.resultUrl.value];
    }
    if Truthy(u.errorMessage) {
      BoundValueAppend(fields, values, ErrorMessage, u.errorMessage.value, Status);
      BoundValueAppend(fields, values, ErrorMessage, u.errorMessage.value, ResultUrl);
      BoundValueAppend(fields, values, ErrorMessage, u.errorMessage.value, ErrorMessage);
      fields, values := fields + [ErrorMessage], values + [u.errorMessage.value];
    }
    BoundValueAppendTimestamp(fields, values, Status);
    BoundValueAppendTimestamp(fields, values, ResultUrl);
    BoundValueAppendTimestamp(fields, values, ErrorMessage);
    fields := fields + [UpdatedAt];
    BoundValueExtraParam(fields, values, taskId, Status);
    BoundValueExtraParam(fields, values, taskId, ResultUrl);
    BoundValueExtraParam(fields, values, taskId, ErrorMessage);
    values := values + [taskId];
  }
}
