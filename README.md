# Task store model

A Dafny model of `TaskDatabase`, the embedded, file-backed store of the kie-ai MCP
server. The store keeps one record per asynchronous external task: its `task_id`,
`api_type`, `status`, timestamps, and an optional `result_url` and `error_message`. The
in-memory SQL engine holds the `tasks` table. After every write the whole engine state
is exported to a single file.

The model is organised as follows:

- `wrappers.dfy` (`Wrappers`): `Option`, `Result` and `Outcome`.
- `tasks.dfy` (`Tasks`): the row type and the table the engine holds: rows in rowid order plus the AUTOINCREMENT counter. It also has the table's constraints (UNIQUE `task_id`, unique `id`), the INSERT of `createTask` and the `SELECT ... WHERE task_id = ?` of `getTask`.
- `updates.dfy` (`Updates`): `updateTask`'s construction of the SET clause by `push` (`BuildSetClause`), and what the engine does with `UPDATE tasks SET ... WHERE task_id = ?` (`ApplySet`, `ExecUpdate`). It also defines the intended per-row effect (`Updated`, `UpdateRows`) and proves that the built statement has exactly that effect (`SetClauseMeaning`).
- `queries.dfy` (`Queries`): the optional `status = ?` filter, `ORDER BY created_at DESC`, and `LIMIT` with SQLite's meaning of a negative limit (no bound). It also has the `while (stmt.step())` loop that collects the rows (`RunSelect`).
- `database.dfy` (`Database`): class `TaskDatabase`. Its fields are `dbOpen` (`db !== null`), `initialized`, the open engine's `records` and `nextId`, the `file` at the database path (absent, a `Snapshot` of a table, or bytes the engine rejects at open, `Corrupt`, or at the first statement, `CorruptLate`), a logical `clock` for `CURRENT_TIMESTAMP`, and a ghost count of `saves`.

The class invariant `Valid()` says:

- both flags move together;
- the open table keeps its constraints;
- whenever the store is open, the file holds exactly the in-memory table.

That last clause is the save-after-every-write policy stated as an invariant. The `saves` counter makes the other half observable: reads, failed inserts and skipped updates write nothing beyond the bootstrap save of a first-use initialisation.

## Model

| member | source | states |
|---|---|---|
| `Tasks.FindTask` | src/database.ts:113-122 | the SELECT by `task_id` yields nothing exactly when no row has that `task_id`; otherwise it yields a row of the table with that `task_id` |
| `Tasks.FindTaskUnique` | src/database.ts:113-122 | under the UNIQUE constraint, getTask's lookup yields the one row with that `task_id` |
| `Tasks.FindTaskAppend` | src/database.ts:95-105 | appending a row leaves every existing lookup unchanged and makes a new `task_id` find the appended row |
| `Tasks.InsertThenFind` | src/database.ts:95-105 | after a successful createTask, getTask of that `task_id` returns the new row: given `status` and `api_type`, NULL for an empty or absent `result_url`/`error_message`, and `created_at == updated_at`; every other `task_id` returns what it returned before |
| `Tasks.InsertKeepsValid` | src/database.ts:95-105 | the INSERT fails exactly on a duplicate `task_id`, with the UNIQUE error. Otherwise it appends exactly one row after the unchanged old rows and keeps both keys unique, ids below the counter and timestamps ordered |
| `Updates.UpdateFrame` | src/database.ts:132-157 | rows with another `task_id` are unchanged. In matched rows `id`, `task_id`, `api_type` and `created_at` are unchanged, `updated_at` becomes now, and each of `status`, `result_url`, `error_message` takes the supplied value when it is truthy and otherwise keeps its old value |
| `Updates.UpdateUnknownIsNoop` | src/database.ts:154-157 | an update of an unknown `task_id` affects no row |
| `Updates.UpdateThenFind` | src/database.ts:154-157 | after an update, getTask returns the row it returned before, with the update applied when it is the updated `task_id` and unchanged otherwise; an absent `task_id` stays absent |
| `Updates.UpdateKeepsValid` | src/database.ts:154-157 | an update keeps the UNIQUE and key constraints and the timestamp order, and no row's `updated_at` decreases |
| `Updates.ApplySetEffect` | src/database.ts:154-157 | a SET clause without repeated columns writes each listed column with its bound parameter (`updated_at` with CURRENT_TIMESTAMP) and leaves every other column as it was |
| `Updates.SetClauseMeaning` | src/database.ts:150-157 | running `UPDATE tasks SET <fields> WHERE task_id = ?` with an `updateFields`/`values` pair of the shape updateTask builds has exactly the intended effect `UpdateRows` |
| `Updates.BuildSetClause` | src/database.ts:132-151 | the `push` sequence yields one value per placeholder plus `taskId` last (for the WHERE), no column twice, and `updated_at` last. Each of the three fields is bound to its supplied value when that value is truthy, and to nothing otherwise. The list has more than one entry exactly when some supplied field is truthy |
| `Queries.MatchingAll` | src/database.ts:166-168 | without a WHERE clause getAllTasks considers every row |
| `Queries.MatchingMembers` | src/database.ts:186-188 | `WHERE status = ?` keeps exactly the rows of the table with that status, never more often than they occur |
| `Queries.SortPermutes` | src/database.ts:166-168 | `ORDER BY created_at DESC` neither adds, drops nor repeats a row |
| `Queries.SortSorted` | src/database.ts:166-168 | `ORDER BY created_at DESC` yields `created_at` non-increasing |
| `Queries.SelectProperties` | src/database.ts:186-196 | a list query returns `min(limit, matching rows)` rows, or all matching rows for a negative limit. Every returned row comes from the table and passes the status filter, none is repeated, and the result is ordered by `created_at` descending |
| `Queries.SelectKeepsMostRecent` | src/database.ts:166-169 | LIMIT only drops rows created no later than every returned row |
| `Queries.SelectComplete` | src/database.ts:166-169 | a limit that truncates nothing returns every matching row |
| `Queries.RunSelect` | src/database.ts:171-176 | the `while (stmt.step())` loop collects exactly the rows the bound query's cursor yields |
| `Database.TaskDatabase.constructor` | src/database.ts:12-35 | a new store is closed and uninitialised and sees the given file. Its path is `ResolveDbPath(override, home)`: a truthy override, and otherwise (absent or empty) `<home>/.kie-ai/tasks.db` |
| `Database.InitAsWrittenRejectsLateCorruption` | src/database.ts:37-64 | as written (the `catch` covers only opening the file; the schema statements run outside it), a file the engine accepts at open but rejects at the first `db.run` makes ensureInitialized reject with `db` set, `initialized` false, nothing saved and the file unchanged, so the early-return guard does not hold afterwards |
| `Database.LateCorruptionRejectsForever` | src/database.ts:37-64 | on such a file every one of any number of consecutive ensureInitialized calls, as written, rejects, and the file keeps the same bytes |
| `Database.LoadOrCreateRecovers` | src/database.ts:37-59 | the intended initialisation yields a valid table for every file. It agrees with the code as written wherever that succeeds, and where that rejects (exactly on `CorruptLate`) it starts from an empty table |
| `Database.TaskDatabase.Save` | src/database.ts:82-87 | on an open store the file becomes the exported table (one write); on a closed store nothing happens |
| `Database.TaskDatabase.InitializeDatabase` | src/database.ts:61-80 | schema bootstrap leaves the table as it is and saves once |
| `Database.TaskDatabase.EnsureInitialized` | src/database.ts:37-59 | on an initialised, open store it changes nothing. Otherwise a file that loads gives its table, and a missing file, or one the engine rejects, gives an empty table, never an error. A rejected file is either `Corrupt` (bytes `new SQL.Database(buffer)` rejects) or `CorruptLate` (bytes it accepts but the first statement rejects). Wherever the code as written succeeds, the result is the table it would load. The file is then overwritten with that table (one save). Afterwards the store is initialised and open |
| `Database.TaskDatabase.CreateTask` | src/database.ts:89-107 | it fails exactly when the `task_id` is already present, with the UNIQUE error, and table and file are left as initialisation made them. Otherwise exactly one row is appended with the next id and the current timestamp in both timestamps, and it is saved. The invariant (unique `task_id`, file equals table) holds afterwards |
| `Database.TaskDatabase.GetTask` | src/database.ts:109-123 | it returns the unique row with that `task_id`, or `None` when there is none. It leaves the table as loaded and writes the file only through a first-use initialisation |
| `Database.TaskDatabase.UpdateTask` | src/database.ts:125-160 | with a truthy field the table becomes `UpdateRows`, and one save follows. Without one, no row changes and nothing is saved beyond initialisation. An unknown `task_id` is not an error |
| `Database.TaskDatabase.GetAllTasks` | src/database.ts:162-177 | it returns `min(limit, rows)` rows (100 by default), all from the table, most recent first. It leaves the table as loaded and writes the file only through a first-use initialisation |
| `Database.TaskDatabase.GetTasksByStatus` | src/database.ts:179-197 | it returns at most `limit` rows (50 by default), each from the table with exactly that status, most recent first. It leaves the table as loaded and writes the file only through a first-use initialisation |
| `Database.TaskDatabase.Close` | src/database.ts:199-206 | an open store saves once, then is closed and uninitialised, and the next operation finds the same table again (close then reopen round-trips). A closed store is unchanged |

## Left out

- The SQL engine (sql.js) is treated as an abstract capability. SQL parsing, prepared statements and the binary `export()` format are not modelled. A file's content is an abstract copy of the table (`Snapshot`), `Corrupt` or `CorruptLate`.
- Index creation (src/database.ts:77-78) has no observable effect on the model and is omitted.
- File-system calls are not modelled: the file is an abstract optional value, and writes and reads never fail.
  - The directory creation in the constructor (src/database.ts:18-23) is assumed to succeed. Its failure is a construction-time throw that the model does not represent.
  - An exception thrown partway through initialisation would leave `db` set with `initialized` false. The class follows the intended initialisation, where that state does not arise, so `Valid()` states that both flags move together. The one such path this model represents, a `CorruptLate` file, is modelled at value level by `InitAsWritten` (see Findings).
- The constructor requires that a snapshot file already satisfy the table constraints, with no timestamp later than the clock. Any real database file with this schema enforces UNIQUE `task_id` itself, and a file written earlier carries no future timestamps.
- Which damaged files the engine rejects at open and which only at the first statement depends on sql.js and SQLite internals. The model leaves that choice to the file (`Corrupt` or `CorruptLate`) and does not decide it from the bytes.
- Database.ResolveDbPath: does not model `path.resolve` (making the path absolute, normalising `..`) or `homedir()`. The home directory is a parameter and the parts are joined with `/`.
- Async/Promise machinery and concurrent callers are left out. Each public method is one atomic step, and interleaved initialisation is not represented.
- The wall clock is left out. `CURRENT_TIMESTAMP` is a logical clock that the caller of each write moves on by `elapsed` seconds, possibly zero, because timestamps have one-second resolution.
- Database.TaskDatabase.UpdateTask: does not promise that `updated_at` strictly increases. It proves only that `updated_at` becomes the current time, which is never earlier than before.
- At equal `created_at`, SQLite leaves the order of `ORDER BY created_at DESC` unspecified. The model keeps tied rows in table order; the lemmas about list queries do not depend on that choice. Because of ties, `getAllTasks(2)` after three inserts in the same second need not return the two most recently inserted rows.
- `TaskRecord` timestamps are returned by `getAsObject()` as SQLite text. Here they are naturals on the logical clock, which order the same way.
- `console.error` logging is left out. So are the `if (!this.db) return` guards that follow `ensureInitialized` (src/database.ts:93, 111, 130, 164, 184): they cannot be reached.
- Fields of the `Partial<TaskRecord>` given to `updateTask` other than `status`, `result_url` and `error_message` are ignored by the source and are not modelled.
- A list query's `limit` is modelled as an integer. Non-integer or NaN JavaScript numbers are left out.
- The `status` column's `DEFAULT 'pending'` never applies, because the INSERT always binds the caller's `status`. The model uses the caller's value.

## Findings

| source | as written | input that shows it | evidently intended | confidence | as-written member | corrected member |
|---|---|---|---|---|---|---|
| src/database.ts:46-58 | only `new SQL.Database(buffer)` is inside the `try`; the first `db.run` (src/database.ts:64) runs outside it | a file the engine opens but whose first statement fails (`CorruptLate`): ensureInitialized rejects with `db` set, `initialized` false and nothing saved, so the file is unchanged and every later ensureInitialized, and so every later createTask, getTask, updateTask, getAllTasks and getTasksByStatus, rejects the same way | a file that cannot be used falls back to a fresh empty database, as the `catch` intends; `Database.TaskDatabase.EnsureInitialized` does this | medium; depends on when sql.js reports a damaged file; not executed | `Database.LateCorruptionRejectsForever` | `Database.LoadOrCreateRecovers` |
