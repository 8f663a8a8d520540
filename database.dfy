/** The store itself: class `TaskDatabase` with its lazy, idempotent initialisation
    (load the file, or start empty when it is missing or does not load), its schema
    bootstrap, and its operations, each saving the whole table to the file after a
    write and never after a read. */
module Database {
  import opened Wrappers
  import opened Tasks
  import opened Updates
  import opened Queries

  /** What the file at the database path holds when it exists: an exported snapshot of
      a database; bytes `new SQL.Database(buffer)` rejects (`Corrupt`); or bytes it
      accepts but the first statement run on them rejects (`CorruptLate`: SQLite reads
      the header lazily, so a damaged file is typically reported only then). */
  datatype FileContent = Snapshot(table: Table) | Corrupt | CorruptLate

  const DEFAULT_DIR_NAME: string := ".kie-ai"
  const DEFAULT_FILE_NAME: string := "tasks.db"
  const DEFAULT_ALL_TASKS_LIMIT: int := 100
  const DEFAULT_STATUS_LIMIT: int := 50

  /** resolveDbPath: a truthy override wins (an empty string does not); otherwise the
      fixed file under the home directory. `path.resolve` is not modelled beyond
      joining the parts. */
  function ResolveDbPath(dbPath: Option<string>, home: string): string {
    if Truthy(dbPath) then dbPath.value
    else home + "/" + DEFAULT_DIR_NAME + "/" + DEFAULT_FILE_NAME
  }

  /** Loading the file with the fallback ensureInitialized intends: a snapshot gives its
      table, and bytes the engine rejects, whether at open or at the first statement,
      give nothing (the caller falls back to a fresh database). */
  function OpenBytes(c: FileContent): Option<Table> {
    match c
    case Snapshot(t) => Some(t)
    case Corrupt => None
    case CorruptLate => None
  }

  /** The table ensureInitialized ends up with when it has to initialise: the file's
      table when the file exists and loads, and a fresh empty table otherwise. */
  function LoadOrCreate(file: Option<FileContent>): Table {
    if file.Some? && OpenBytes(file.value).Some? then OpenBytes(file.value).value
    else EMPTY_TABLE
  }

  /** The handle `new SQL.Database(...)` yields: a database holding a table, or one
      that opened without complaint but rejects every statement run on it. */
  datatype Handle = Usable(table: Table) | Rejecting

  /** `new SQL.Database(buffer)` as the engine runs it: a snapshot opens to its table,
      `Corrupt` bytes make it throw (`None`), and `CorruptLate` bytes open to a handle
      that rejects statements. */
  function OpenAsWritten(c: FileContent): Option<Handle> {
    match c
    case Snapshot(t) => Some(Usable(t))
    case Corrupt => None
    case CorruptLate => Some(Rejecting)
  }

  /** The `if (existsSync(...)) try { ... } catch { ... } else ...` of ensureInitialized:
      the only step guarded by the `catch` is opening the file, so the handle it leaves
      in `db` is the file's handle when that opens, and a fresh database otherwise. */
  function LoadAsWritten(file: Option<FileContent>): Handle {
    if file.Some? && OpenAsWritten(file.value).Some? then OpenAsWritten(file.value).value
    else Usable(EMPTY_TABLE)
  }

  /** The schema statements of initializeDatabase (`CREATE TABLE IF NOT EXISTS`, two
      `CREATE INDEX IF NOT EXISTS`): they leave a usable table as it is, and the first of
      them throws on a rejecting handle (`None`). The `catch` does not cover them. */
  function RunSchema(h: Handle): Option<Table> {
    match h
    case Usable(t) => Some(t)
    case Rejecting => None
  }

  /** What one run of ensureInitialized, as the source is written, leaves behind on a
      store that is not ready: whether `db` is set and `initialized` is set, the table
      the engine holds (`None` for a handle that rejects every statement), whether the
      file was saved, the file afterwards, and whether the returned promise rejects. */
  datatype InitAttempt = InitAttempt(
    dbSet: bool, initialized: bool, table: Option<Table>, saved: bool,
    file: Option<FileContent>, rejected: bool)

  /** ensureInitialized as written on a store that is not ready: `db` is set by the
      load step; then initializeDatabase runs the schema. When a statement throws, the
      exception leaves the call before `save()` and before `initialized = true`;
      otherwise the table is saved and the store is marked initialised. */
  function InitAsWritten(file: Option<FileContent>): InitAttempt {
    var db := LoadAsWritten(file);
    match RunSchema(db)
    case None => InitAttempt(true, false, None, false, file, true)
    case Some(t) => InitAttempt(true, true, Some(t), true, Some(Snapshot(t)), false)
  }

  /** A store that is not ready and whose file is `file`, after `n + 1` consecutive calls
      of ensureInitialized as written. Each call that rejects leaves `initialized` false,
      so the next one does not return early; it then starts again from the file alone,
      because `db` is reassigned before it is used. */
  function RetryAsWritten(file: Option<FileContent>, n: nat): InitAttempt {
    var a := InitAsWritten(file);
    if n == 0 || !a.rejected then a else RetryAsWritten(a.file, n - 1)
  }

  /** The discrepancy: on a `CorruptLate` file the code as written rejects, with `db`
      set, `initialized` false, nothing saved and the file unchanged, so the guard
      `if (this.initialized && this.db) return` does not hold afterwards. */
  lemma InitAsWrittenRejectsLateCorruption()
    ensures var a := InitAsWritten(Some(CorruptLate));
      a.rejected && a.dbSet && !(a.initialized && a.dbSet) &&
      !a.saved && a.table.None? && a.file == Some(CorruptLate)
  {
  }

  /** ... and the store never recovers: however many times ensureInitialized is called
      again, every call rejects and the file keeps the same bytes. */
  lemma {:induction false} LateCorruptionRejectsForever(n: nat)
    ensures var a := RetryAsWritten(Some(CorruptLate), n);
      a.rejected && !a.initialized && a.file == Some(CorruptLate)
  {
    if n > 0 {
      LateCorruptionRejectsForever(n - 1);
    }
  }

  /** The intended initialisation never fails: it agrees with the code as written
      whenever that succeeds, and where that rejects it starts from an empty table. The
      table it yields keeps the table constraints. */
  lemma LoadOrCreateRecovers(file: Option<FileContent>, now: Timestamp)
    requires FileValid(file, now)
    ensures TableValid(LoadOrCreate(file), now)
    ensures var a := InitAsWritten(file);
      (a.rejected <==> file == Some(CorruptLate)) &&
      (!a.rejected ==>
        a.initialized && a.saved && a.table == Some(LoadOrCreate(file)) &&
        a.file == Some(Snapshot(LoadOrCreate(file)))) &&
      (a.rejected ==> LoadOrCreate(file) == EMPTY_TABLE)
  {
  }

  /** A file this layer could have written by time `now`. */
  predicate FileValid(file: Option<FileContent>, now: Timestamp) {
    file.Some? && file.value.Snapshot? ==> TableValid(file.value.table, now)
  }

  /** A list query's `limit` parameter with its JavaScript default filled in. */
  function LimitOrDefault(limit: Option<int>, default: int): int {
    limit.GetOr(default)
  }

  class TaskDatabase {
    const dbPath: string
    /** `this.db !== null` */
    var dbOpen: bool
    var initialized: bool
    /** The open engine's `tasks` table, rows in rowid order. */
    var records: seq<TaskRecord>
    /** The open engine's AUTOINCREMENT counter for `id`. */
    var nextId: nat
    /** The file at `dbPath`; `None` when it does not exist. */
    var file: Option<FileContent>
    /** CURRENT_TIMESTAMP. */
    var clock: Timestamp
    /** How many times `save()` has written the file. */
    ghost var saves: nat

    function Current(): Table
      reads this
    {
      Table(records, nextId)
    }

    /** The condition under which ensureInitialized returns at once. */
    predicate Ready()
      reads this
    {
      initialized && dbOpen
    }

    /** The table the next operation works on, once ensureInitialized has run. */
    function ReadyTable(): Table
      reads this
    {
      if Ready() then Current() else LoadOrCreate(file)
    }

    /** How many saves the ensureInitialized at the start of an operation performs. */
    function InitSaves(): nat
      reads this
    {
      if Ready() then 0 else 1
    }

    /** The store's invariant: both flags move together; the open table keeps its
        constraints; whenever the store is open the file holds exactly the in-memory
        table (every write is followed by a save); and the file is one this layer
        could have written. */
    ghost predicate Valid()
      reads this
    {
      initialized == dbOpen &&
      (dbOpen ==> TableValid(Current(), clock) && file == Some(Snapshot(Current()))) &&
      FileValid(file, clock)
    }

    /** The constructor, given what the file system holds at the resolved path. Creating
        the parent directory is assumed to succeed. */
    constructor (dbPathOverride: Option<string>, home: string, disk: Option<FileContent>, now: Timestamp)
      requires FileValid(disk, now)
      ensures Valid() && !dbOpen && !initialized
      ensures dbPath == ResolveDbPath(dbPathOverride, home)
      ensures file == disk && clock == now && saves == 0
    {
      dbPath := ResolveDbPath(dbPathOverride, home);
      dbOpen, initialized := false, false;
      records, nextId := [], 1;
      file, clock := disk, now;
      saves := 0;
    }

    /** save(): on an open store, the file is overwritten with the exported table. */
    method Save()
      modifies this`file, this`saves
      ensures dbOpen ==> file == Some(Snapshot(Current())) && saves == old(saves) + 1
      ensures !dbOpen ==> file == old(file) && saves == old(saves)
    {
      if !dbOpen {
        return;
      }
      file := Some(Snapshot(Current()));
      saves := saves + 1;
    }

    /** initializeDatabase(): `CREATE TABLE IF NOT EXISTS tasks` leaves a loaded table as
        it is and gives a fresh database its empty table, which `records` already is;
        then the database is saved. */
    method InitializeDatabase()
      modifies this`file, this`saves
      ensures dbOpen ==> file == Some(Snapshot(Current())) && saves == old(saves) + 1
      ensures !dbOpen ==> file == old(file) && saves == old(saves)
    {
      if !dbOpen {
        return;
      }
      Save();
    }

    /** ensureInitialized(): does nothing on an initialised, open store; otherwise opens
        the file when it exists and loads, falls back silently to an empty table when it
        is missing or does not load, bootstraps the schema (which saves) and marks the
        store initialised. This is the intended behaviour: unlike the code as written
        (`InitAsWritten`), a file the engine rejects only at its first statement also
        falls back to an empty table. Where the code as written succeeds, both agree. */
    method EnsureInitialized()
      requires Valid()
      modifies this
      ensures Valid() && Ready()
      ensures Current() == old(ReadyTable()) && clock == old(clock)
      ensures saves == old(saves) + old(InitSaves())
      ensures old(Ready()) ==> records == old(records) && nextId == old(nextId) && file == old(file)
      ensures !old(Ready()) ==>
        match old(file)
        case Some(Snapshot(t)) => Current() == t
        case _ => Current() == EMPTY_TABLE
      ensures !old(Ready()) && !InitAsWritten(old(file)).rejected ==>
        InitAsWritten(old(file)).table == Some(Current())
    {
      if initialized && dbOpen {
        return;
      }
      if file.Some? {
        var loaded := OpenBytes(file.value);
        if loaded.Some? {
          records, nextId := loaded.value.rows, loaded.value.nextId;
        } else {
          records, nextId := EMPTY_TABLE.rows, EMPTY_TABLE.nextId;
        }
      } else {
        records, nextId := EMPTY_TABLE.rows, EMPTY_TABLE.nextId;
      }
      dbOpen := true;
      InitializeDatabase();
      initialized := true;
    }

    /** Moves CURRENT_TIMESTAMP on by `elapsed` seconds (possibly none). */
    method AdvanceClock(elapsed: Timestamp)
      requires Valid()
      modifies this`clock
      ensures Valid() && clock == old(clock) + elapsed
    {
      if dbOpen {
        TableValidLater(Current(), clock, clock + elapsed);
      }
      if file.Some? && file.value.Snapshot? {
        TableValidLater(file.value.table, clock, clock + elapsed);
      }
      clock := clock + elapsed;
    }

    /** createTask(): inserts one row; the empty or absent optional fields are stored as
        NULL. A duplicate `task_id` fails with the UNIQUE violation and changes neither
        the table nor the file; a successful insert is saved. */
    method CreateTask(task: NewTask, elapsed: Timestamp) returns (outcome: Outcome<DbError>)
      requires Valid()
      modifies this
      ensures Valid() && Ready() && clock == old(clock) + elapsed
      ensures file == Some(Snapshot(Current()))
      ensures outcome.Fail? <==> HasTaskId(old(ReadyTable()).rows, task.taskId)
      ensures outcome.Fail? ==>
        outcome.error == UniqueConstraintFailed(task.taskId) &&
        Current() == old(ReadyTable()) &&
        saves == old(saves) + old(InitSaves())
      ensures outcome.Pass? ==>
        records == old(ReadyTable()).rows + [NewRow(old(ReadyTable()).nextId, task, clock)] &&
        nextId == old(ReadyTable()).nextId + 1 &&
        saves == old(saves) + old(InitSaves()) + 1
    {
      AdvanceClock(elapsed);
      EnsureInitialized();
      InsertKeepsValid(Current(), task, clock);
      match Insert(Current(), task, clock)
      case Failure(e) =>
        outcome := Fail(e);
      case Success(t) =>
        records, nextId := t.rows, t.nextId;
        Save();
        outcome := Pass;
    }

    /** getTask(): the row with that `task_id`, or `None`; only reads. */
    method GetTask(taskId: string) returns (r: Option<TaskRecord>)
      requires Valid()
      modifies this
      ensures Valid() && Ready() && clock == old(clock)
      ensures Current() == old(ReadyTable()) && saves == old(saves) + old(InitSaves())
      ensures r.None? <==> !HasTaskId(records, taskId)
      ensures forall i :: 0 <= i < |records| && records[i].taskId == taskId ==> r == Some(records[i])
    {
      EnsureInitialized();
      r := FindTask(records, taskId);
      forall i | 0 <= i < |records| && records[i].taskId == taskId
        ensures r == Some(records[i])
      {
        FindTaskUnique(records, i);
      }
    }

    /** updateTask(): builds the SET clause from the truthy fields and runs it only when
        it assigns more than `updated_at`; then saves. Otherwise nothing happens: no
        statement, no save, no change to any row or its `updated_at`. */
    method UpdateTask(taskId: string, u: TaskUpdate, elapsed: Timestamp)
      requires Valid()
      modifies this
      ensures Valid() && Ready() && clock == old(clock) + elapsed
      ensures file == Some(Snapshot(Current())) && nextId == old(ReadyTable()).nextId
      ensures HasRealField(u) ==>
        records == UpdateRows(old(ReadyTable()).rows, taskId, u, clock) &&
        saves == old(saves) + old(InitSaves()) + 1
      ensures !HasRealField(u) ==>
        records == old(ReadyTable()).rows &&
        saves == old(saves) + old(InitSaves())
    {
      AdvanceClock(elapsed);
      EnsureInitialized();
      var updateFields, values := BuildSetClause(taskId, u);
      if |updateFields| > 1 {
        SetClauseMeaning(records, taskId, u, updateFields, values, clock);
        UpdateKeepsValid(Current(), taskId, u, clock);
        records := ExecUpdate(records, updateFields, values, clock);
        Save();
      }
    }

    /** getAllTasks(): the most recent rows first, at most `limit` of them (100 when
        the caller gives none); only reads. */
    method GetAllTasks(limit: Option<int>) returns (results: seq<TaskRecord>)
      requires Valid()
      modifies this
      ensures Valid() && Ready() && clock == old(clock)
      ensures Current() == old(ReadyTable()) && saves == old(saves) + old(InitSaves())
      ensures results == Select(records, None, LimitOrDefault(limit, DEFAULT_ALL_TASKS_LIMIT))
      ensures var lim := LimitOrDefault(limit, DEFAULT_ALL_TASKS_LIMIT);
        |results| == (if lim < 0 then |records| else Min(lim, |records|))
      ensures forall x :: x in results ==> x in records
      ensures SortedByCreatedDesc(results)
    {
      EnsureInitialized();
      results := RunSelect(records, None, LimitOrDefault(limit, DEFAULT_ALL_TASKS_LIMIT));
      SelectProperties(records, None, LimitOrDefault(limit, DEFAULT_ALL_TASKS_LIMIT));
      MatchingAll(records);
    }

    /** getTasksByStatus(): like getAllTasks over the rows with exactly that status
        (at most 50 when the caller gives no limit); only reads. */
    method GetTasksByStatus(status: string, limit: Option<int>) returns (results: seq<TaskRecord>)
      requires Valid()
      modifies this
      ensures Valid() && Ready() && clock == old(clock)
      ensures Current() == old(ReadyTable()) && saves == old(saves) + old(InitSaves())
      ensures results == Select(records, Some(status), LimitOrDefault(limit, DEFAULT_STATUS_LIMIT))
      ensures LimitOrDefault(limit, DEFAULT_STATUS_LIMIT) >= 0 ==>
        |results| <= LimitOrDefault(limit, DEFAULT_STATUS_LIMIT)
      ensures forall x :: x in results ==> x in records && x.status == status
      ensures SortedByCreatedDesc(results)
    {
      EnsureInitialized();
      results := RunSelect(records, Some(status), LimitOrDefault(limit, DEFAULT_STATUS_LIMIT));
      SelectProperties(records, Some(status), LimitOrDefault(limit, DEFAULT_STATUS_LIMIT));
    }

    /** close(): on an open store, saves, releases the engine and clears `initialized`,
        so the next operation loads the file again and finds the same table. On a
        closed store it does nothing. */
    method Close()
      requires Valid()
      modifies this
      ensures Valid() && !dbOpen && !initialized && clock == old(clock)
      ensures old(dbOpen) ==> file == Some(Snapshot(old(Current()))) && saves == old(saves) + 1
      ensures !old(dbOpen) ==> unchanged(this)
      ensures ReadyTable() == old(ReadyTable())
    {
      if dbOpen {
        Save();
        dbOpen := false;
        records, nextId := EMPTY_TABLE.rows, EMPTY_TABLE.nextId;
        initialized := false;
      }
    }
  }
}
