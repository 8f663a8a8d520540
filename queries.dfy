/** The two list queries, `SELECT * FROM tasks [WHERE status = ?] ORDER BY created_at
    DESC LIMIT ?`: which rows the engine's cursor yields, in which order, and the loop
    of getAllTasks and getTasksByStatus that collects them. */
module Queries {
  import opened Wrappers
  import opened Tasks

  /** The WHERE clause: none (getAllTasks) or `status = ?` (getTasksByStatus). */
  predicate Matches(r: TaskRecord, status: Option<string>) {
    status.None? || r.status == status.value
  }

  /** The rows the WHERE clause keeps, in table order. */
  function Matching(rows: seq<TaskRecord>, status: Option<string>): seq<TaskRecord> {
    if rows == [] then []
    else (if Matches(rows[0], status) then [rows[0]] else []) + Matching(rows[1..], status)
  }

  /** Most recent first: `created_at` never increases along the sequence. */
  predicate SortedByCreatedDesc(s: seq<TaskRecord>) {
    forall i, j :: 0 <= i < j < |s| ==> s[j].createdAt <= s[i].createdAt
  }

  /** Places `r` before the first row created no later than it. */
  function InsertByCreatedDesc(r: TaskRecord, s: seq<TaskRecord>): seq<TaskRecord> {
    if s == [] || s[0].createdAt <= r.createdAt then [r] + s
    else [s[0]] + InsertByCreatedDesc(r, s[1..])
  }

  /** `ORDER BY created_at DESC`. SQLite leaves the order of rows with equal `created_at`
      unspecified; this model keeps them in table order. */
  function SortByCreatedDesc(rows: seq<TaskRecord>): seq<TaskRecord> {
    if rows == [] then []
    else InsertByCreatedDesc(rows[0], SortByCreatedDesc(rows[1..]))
  }

  /** `LIMIT limit`: a negative limit means no upper bound, as in SQLite. */
  function Take(s: seq<TaskRecord>, limit: int): seq<TaskRecord> {
    if 0 <= limit < |s| then s[..limit] else s
  }

  /** The rows the query's cursor steps through, in order. */
  function Select(rows: seq<TaskRecord>, status: Option<string>, limit: int): seq<TaskRecord> {
    Take(SortByCreatedDesc(Matching(rows, status)), limit)
  }

  function Min(a: int, b: int): int {
    if a <= b then a else b
  }

  /** The WHERE clause keeps exactly the matching rows, each as often as it occurs. */
  lemma {:induction false} MatchingMembers(rows: seq<TaskRecord>, status: Option<string>)
    ensures forall x :: x in Matching(rows, status) <==> x in rows && Matches(x, status)
    ensures multiset(Matching(rows, status)) <= multiset(rows)
  {
    if rows != [] {
      MatchingMembers(rows[1..], status);
      assert rows == [rows[0]] + rows[1..];
    }
  }

  /** Without a WHERE clause every row is kept, in table order. */
  lemma {:induction false} MatchingAll(rows: seq<TaskRecord>)
    ensures Matching(rows, None) == rows
  {
    if rows != [] {
      MatchingAll(rows[1..]);
    }
  }

  lemma {:induction false} InsertByCreatedDescPermutes(r: TaskRecord, s: seq<TaskRecord>)
    ensures multiset(InsertByCreatedDesc(r, s)) == multiset(s) + multiset{r}
  {
    if s != [] && s[0].createdAt > r.createdAt {
      InsertByCreatedDescPermutes(r, s[1..]);
      assert s == [s[0]] + s[1..];
    }
  }

  /** No row of `s` was created after `t`. */
  predicate NoneLaterThan(s: seq<TaskRecord>, t: Timestamp) {
    forall i :: 0 <= i < |s| ==> s[i].createdAt <= t
  }

  lemma {:induction false} InsertByCreatedDescBounded(r: TaskRecord, s: seq<TaskRecord>, t: Timestamp)
    requires NoneLaterThan(s, t) && r.createdAt <= t
    ensures NoneLaterThan(InsertByCreatedDesc(r, s), t)
  {
    if s != [] && s[0].createdAt > r.createdAt {
      InsertByCreatedDescBounded(r, s[1..], t);
    }
  }

  lemma SortedCons(a: TaskRecord, s: seq<TaskRecord>)
    requires SortedByCreatedDesc(s) && NoneLaterThan(s, a.createdAt)
    ensures SortedByCreatedDesc([a] + s)
  {
  }

  lemma {:induction false} InsertByCreatedDescSorted(r: TaskRecord, s: seq<TaskRecord>)
    requires SortedByCreatedDesc(s)
    ensures SortedByCreatedDesc(InsertByCreatedDesc(r, s))
  {
    if s == [] || s[0].createdAt <= r.createdAt {
      SortedCons(r, s);
    } else {
      InsertByCreatedDescSorted(r, s[1..]);
      InsertByCreatedDescBounded(r, s[1..], s[0].createdAt);
      SortedCons(s[0], InsertByCreatedDesc(r, s[1..]));
    }
  }

  /** ORDER BY reorders the rows without adding, dropping or repeating any. */
  lemma {:induction false} SortPermutes(rows: seq<TaskRecord>)
    ensures multiset(SortByCreatedDesc(rows)) == multiset(rows)
  {
    if rows != [] {
      SortPermutes(rows[1..]);
      InsertByCreatedDescPermutes(rows[0], SortByCreatedDesc(rows[1..]));
      assert rows == [rows[0]] + rows[1..];
    }
  }

  /** ORDER BY created_at DESC puts the most recent rows first. */
  lemma {:induction false} SortSorted(rows: seq<TaskRecord>)
    ensures SortedByCreatedDesc(SortByCreatedDesc(rows))
  {
    if rows != [] {
      SortSorted(rows[1..]);
      InsertByCreatedDescSorted(rows[0], SortByCreatedDesc(rows[1..]));
    }
  }

  /** LIMIT keeps a prefix: the first `limit` rows, or all of them. */
  lemma TakePrefix(s: seq<TaskRecord>, limit: int)
    ensures var p := Take(s, limit);
      |p| == (if limit < 0 then |s| else Min(limit, |s|)) &&
      p == s[..|p|] &&
      multiset(p) <= multiset(s) &&
      (SortedByCreatedDesc(s) ==> SortedByCreatedDesc(p))
  {
    var p := Take(s, limit);
    assert s == p + s[|p|..];
    assert multiset(s) == multiset(p) + multiset(s[|p|..]);
  }

  /** What a list query returns: at most `limit` rows when the limit is not negative,
      and otherwise all of them; only rows of the table that pass the WHERE clause,
      none repeated; most recent first. */
  lemma SelectProperties(rows: seq<TaskRecord>, status: Option<string>, limit: int)
    ensures var sel, m := Select(rows, status, limit), Matching(rows, status);
      |sel| == (if limit < 0 then |m| else Min(limit, |m|)) &&
      SortedByCreatedDesc(sel) &&
      (forall x :: x in sel ==> x in rows && Matches(x, status)) &&
      multiset(sel) <= multiset(m)
  {
    var m := Matching(rows, status);
    var s := SortByCreatedDesc(m);
    SortPermutes(m);
    SortSorted(m);
    MatchingMembers(rows, status);
    TakePrefix(s, limit);
    var sel := Take(s, limit);
    forall x | x in sel ensures x in rows && Matches(x, status) {
      assert x in multiset(sel);
      assert x in multiset(m);
    }
  }

  /** LIMIT drops only the oldest rows: every matching row the query leaves out was
      created no later than every row it returns. */
  lemma SelectKeepsMostRecent(rows: seq<TaskRecord>, status: Option<string>, limit: int)
    ensures forall x, y ::
      (x in Select(rows, status, limit) && y in Matching(rows, status) && y !in Select(rows, status, limit))
      ==> y.createdAt <= x.createdAt
  {
    var m := Matching(rows, status);
    var s := SortByCreatedDesc(m);
    var sel := Take(s, limit);
    SortPermutes(m);
    SortSorted(m);
    forall x, y | x in sel && y in m && y !in sel ensures y.createdAt <= x.createdAt {
      assert y in multiset(s);
      var j :| 0 <= j < |s| && s[j] == y;
      var i :| 0 <= i < |sel| && sel[i] == x;
      assert s[i] == x;
      assert j >= |sel|;
    }
  }

  /** A limit that truncates nothing returns every matching row. */
  lemma SelectComplete(rows: seq<TaskRecord>, status: Option<string>, limit: int)
    requires limit < 0 || |Matching(rows, status)| <= limit
    ensures multiset(Select(rows, status, limit)) == multiset(Matching(rows, status))
  {
    SortPermutes(Matching(rows, status));
  }

  /** The `while (stmt.step()) results.push(...)` loop: the cursor yields the ordered
      matching rows and stops once LIMIT of them have been produced. */
  method RunSelect(rows: seq<TaskRecord>, status: Option<string>, limit: int) returns (results: seq<TaskRecord>)
    ensures results == Select(rows, status, limit)
  {
    var cursor := SortByCreatedDesc(Matching(rows, status));
    results := [];
    var i: nat := 0;
    while i < |cursor| && (limit < 0 || i < limit)
      invariant i <= |cursor| && (0 <= limit ==> i <= limit)
      invariant results == cursor[..i]
    {
      results := results + [cursor[i]];
      i := i + 1;
    }
  }
}
