/** The five SQL statements the handlers run (select, insert, complete-all, update by id,
    delete by id), stated directly on the rows of the table (held in id order), with
    sqlite's affected-row count and the laws each statement obeys. */
module TodoStatements {
  import opened TodoSchema

  /** `WHERE id = ?` bound to the parsed path id. An unparsable id (None, JavaScript's
      NaN) is bound as NULL and equals no row. */
  predicate Matches(r: Row, id: Option<int>) {
    id.Some? && r.id == id.value
  }

  /** `SELECT * FROM todos WHERE completed = ?`: the rows whose `completed` equals `v`,
      in table order. */
  function Where(rows: seq<Row>, v: int): (r: seq<Row>)
    ensures |r| <= |rows|
    ensures forall x :: x in r <==> x in rows && x.completed == v
  {
    if rows == [] then []
    else
      var rest := Where(rows[1..], v);
      if rows[0].completed == v then [rows[0]] + rest else rest
  }

  /** No row of `rows` has the id `id`. */
  predicate NoMatch(rows: seq<Row>, id: Option<int>) {
    forall x :: x in rows ==> !Matches(x, id)
  }

  /** sqlite's `changes` after a statement restricted by `WHERE id = ?`: the number of
      rows the restriction selects. It is zero exactly when no row has that id. */
  function Changes(rows: seq<Row>, id: Option<int>): (n: nat)
    ensures n <= |rows|
    ensures n == 0 <==> NoMatch(rows, id)
  {
    if rows == [] then 0
    else (if Matches(rows[0], id) then 1 else 0) + Changes(rows[1..], id)
  }

  /** `INSERT INTO todos (task, completed, priority) VALUES (?, 0, ?)`: one row appended
      after the existing ones, with the id after the AUTOINCREMENT counter and completed 0. */
  function InsertRow(rows: seq<Row>, lastId: int, task: string, priority: string): (r: seq<Row>)
    ensures |r| == |rows| + 1
    ensures r[..|rows|] == rows
    ensures r[|rows|] == Row(lastId + 1, task, 0, priority)
  {
    rows + [Row(lastId + 1, task, 0, priority)]
  }

  /** `UPDATE todos SET completed = 1`: every row marked completed, everything else kept. */
  function CompleteAllRows(rows: seq<Row>): (r: seq<Row>)
    ensures |r| == |rows|
    ensures forall i :: 0 <= i < |rows| ==>
      r[i].id == rows[i].id && r[i].task == rows[i].task &&
      r[i].priority == rows[i].priority && r[i].completed == 1
  {
    if rows == [] then [] else [rows[0].(completed := 1)] + CompleteAllRows(rows[1..])
  }

  /** The three values bound to the `COALESCE(?, column)` placeholders of the update
      statement; None is an unbound (NULL) placeholder. */
  datatype Patch = Patch(task: Option<string>, completed: Option<int>, priority: Option<string>)

  /** SQL `COALESCE(?, column)`: the supplied value when there is one, else the stored one. */
  function Coalesce<T>(supplied: Option<T>, stored: T): T {
    match supplied
    case Some(v) => v
    case None => stored
  }

  /** The SET list of the update statement applied to one row. */
  function ApplyPatch(r: Row, p: Patch): (s: Row)
    ensures s.id == r.id
    ensures p.task.None? ==> s.task == r.task
    ensures p.task.Some? ==> s.task == p.task.value
    ensures p.completed.None? ==> s.completed == r.completed
    ensures p.completed.Some? ==> s.completed == p.completed.value
    ensures p.priority.None? ==> s.priority == r.priority
    ensures p.priority.Some? ==> s.priority == p.priority.value
  {
    Row(r.id, Coalesce(p.task, r.task), Coalesce(p.completed, r.completed), Coalesce(p.priority, r.priority))
  }

  /** `UPDATE todos SET task = COALESCE(?, task), ... WHERE id = ?`: the row with that id
      is patched, every other row is left exactly as it was. */
  function UpdateRows(rows: seq<Row>, id: Option<int>, p: Patch): (r: seq<Row>)
    ensures |r| == |rows|
    ensures forall i :: 0 <= i < |rows| && Matches(rows[i], id) ==> r[i] == ApplyPatch(rows[i], p)
    ensures forall i :: 0 <= i < |rows| && !Matches(rows[i], id) ==> r[i] == rows[i]
  {
    if rows == [] then []
    else
      var head := if Matches(rows[0], id) then ApplyPatch(rows[0], p) else rows[0];
      [head] + UpdateRows(rows[1..], id, p)
  }

  /** `DELETE FROM todos WHERE id = ?`: the rows without that id, in table order. */
  function DeleteRows(rows: seq<Row>, id: Option<int>): (r: seq<Row>)
    ensures |r| <= |rows|
    ensures forall x {:trigger x in r} :: x in r <==> x in rows && !Matches(x, id)
  {
    if rows == [] then []
    else
      var rest := DeleteRows(rows[1..], id);
      if Matches(rows[0], id) then rest else [rows[0]] + rest
  }

  // ---------------------------------------------------------------------------
  // SELECT

  /** Filtering distributes over a concatenation of tables. */
  lemma {:induction false} WhereAppend(a: seq<Row>, b: seq<Row>, v: int)
    ensures Where(a + b, v) == Where(a, v) + Where(b, v)
  {
    if a == [] {
      assert a + b == b;
    } else {
      assert (a + b)[1..] == a[1..] + b;
      WhereAppend(a[1..], b, v);
    }
  }

  /** The filtered rows still come in id order within the same id range. */
  lemma {:induction false} WhereWellFormed(rows: seq<Row>, lastId: int, v: int)
    requires WellFormed(rows, lastId)
    ensures WellFormed(Where(rows, v), lastId)
  {
    if rows != [] {
      WellFormedTail(rows, lastId);
      WhereWellFormed(rows[1..], lastId, v);
      if rows[0].completed == v {
        WellFormedCons(rows[0], Where(rows[1..], v), lastId);
      }
    }
  }

  /** On 0/1 rows, `completed = 0` and `completed = 1` split the table: every row is
      returned by exactly one of the two filters. */
  lemma {:induction false} WherePartition(rows: seq<Row>)
    requires AllFlags(rows)
    ensures multiset(Where(rows, 0)) + multiset(Where(rows, 1)) == multiset(rows)
    ensures |Where(rows, 0)| + |Where(rows, 1)| == |rows|
  {
    if rows != [] {
      assert AllFlags(rows[1..]) by {
        forall i | 0 <= i < |rows[1..]| ensures IsFlag(rows[1..][i].completed) {
          assert rows[1..][i] == rows[i + 1];
        }
      }
      WherePartition(rows[1..]);
      assert rows == [rows[0]] + rows[1..];
    }
  }

  // ---------------------------------------------------------------------------
  // INSERT

  /** The row a create appends receives the id after the counter; that id is above every
      stored id, so the invariant holds with the counter advanced. */
  lemma InsertWellFormed(rows: seq<Row>, lastId: int, task: string, priority: string)
    requires WellFormed(rows, lastId) && lastId < MAX_ROW_ID
    ensures WellFormed(InsertRow(rows, lastId, task, priority), lastId + 1)
  {
  }

  /** A created row is listed exactly once by an unfiltered select and exactly once by the
      `completed = 0` filter, and never by the `completed = 1` filter. */
  lemma CreatedListedOnce(rows: seq<Row>, lastId: int, task: string, priority: string)
    requires WellFormed(rows, lastId) && lastId < MAX_ROW_ID
    ensures multiset(InsertRow(rows, lastId, task, priority))[Row(lastId + 1, task, 0, priority)] == 1
    ensures multiset(Where(InsertRow(rows, lastId, task, priority), 0))[Row(lastId + 1, task, 0, priority)] == 1
    ensures Row(lastId + 1, task, 0, priority) !in Where(InsertRow(rows, lastId, task, priority), 1)
  {
    var n := Row(lastId + 1, task, 0, priority);
    assert InsertRow(rows, lastId, task, priority) == rows + [n];
    assert n !in rows;
    assert Where([n], 0) == [n];
    WhereAppend(rows, [n], 0);
    assert n !in Where(rows, 0);
    assert multiset(Where(rows + [n], 0)) == multiset(Where(rows, 0)) + multiset{n};
  }

  // ---------------------------------------------------------------------------
  // UPDATE ... SET completed = 1

  lemma CompleteAllWellFormed(rows: seq<Row>, lastId: int)
    requires WellFormed(rows, lastId)
    ensures WellFormed(CompleteAllRows(rows), lastId)
  {
  }

  /** Completing all rows twice is the same as once. */
  lemma CompleteAllIdempotent(rows: seq<Row>)
    ensures CompleteAllRows(CompleteAllRows(rows)) == CompleteAllRows(rows)
  {
  }

  /** After completing all rows, the `completed = 0` filter finds nothing and the
      `completed = 1` filter finds the whole table. */
  lemma {:induction false} CompleteAllFilters(rows: seq<Row>)
    ensures Where(CompleteAllRows(rows), 0) == []
    ensures Where(CompleteAllRows(rows), 1) == CompleteAllRows(rows)
  {
    if rows != [] {
      var r := CompleteAllRows(rows);
      assert r[1..] == CompleteAllRows(rows[1..]);
      CompleteAllFilters(rows[1..]);
    }
  }

  // ---------------------------------------------------------------------------
  // UPDATE ... WHERE id = ? and DELETE ... WHERE id = ?

  /** Ids are unique, so a statement restricted by `WHERE id = ?` touches at most one row. */
  lemma {:induction false} ChangesAtMostOne(rows: seq<Row>, lastId: int, id: Option<int>)
    requires WellFormed(rows, lastId)
    ensures Changes(rows, id) <= 1
  {
    if rows != [] {
      WellFormedTail(rows, lastId);
      if Matches(rows[0], id) {
        assert Changes(rows[1..], id) == 0;
      } else {
        ChangesAtMostOne(rows[1..], lastId, id);
      }
    }
  }

  /** An update that selects no row leaves the table as it was (the 404 case). */
  lemma UpdateAbsent(rows: seq<Row>, id: Option<int>, p: Patch)
    requires Changes(rows, id) == 0
    ensures UpdateRows(rows, id, p) == rows
  {
  }

  /** An update that supplies no field changes nothing: omitted fields are fixed points. */
  lemma UpdateEmptyPatch(rows: seq<Row>, id: Option<int>)
    ensures UpdateRows(rows, id, Patch(None, None, None)) == rows
  {
  }

  /** Running the same update twice is the same as running it once. */
  lemma UpdateIdempotent(rows: seq<Row>, id: Option<int>, p: Patch)
    ensures UpdateRows(UpdateRows(rows, id, p), id, p) == UpdateRows(rows, id, p)
  {
  }

  /** An update keeps every id in place and, binding `completed` to 0 or 1 only, keeps
      the invariant. */
  lemma UpdateWellFormed(rows: seq<Row>, lastId: int, id: Option<int>, p: Patch)
    requires WellFormed(rows, lastId)
    requires p.completed.Some? ==> IsFlag(p.completed.value)
    ensures WellFormed(UpdateRows(rows, id, p), lastId)
  {
  }

  /** A delete removes exactly as many rows as it reports in `changes`. */
  lemma {:induction false} DeleteCount(rows: seq<Row>, id: Option<int>)
    ensures |DeleteRows(rows, id)| == |rows| - Changes(rows, id)
  {
    if rows != [] {
      DeleteCount(rows[1..], id);
    }
  }

  /** A delete that selects no row leaves the table as it was (the 404 case). */
  lemma {:induction false} DeleteAbsent(rows: seq<Row>, id: Option<int>)
    requires Changes(rows, id) == 0
    ensures DeleteRows(rows, id) == rows
  {
    if rows != [] {
      assert rows[0] in rows;
      assert forall x :: x in rows[1..] ==> x in rows;
      DeleteAbsent(rows[1..], id);
    }
  }

  /** Deleting distributes over a concatenation of tables. */
  lemma {:induction false} DeleteAppend(a: seq<Row>, b: seq<Row>, id: Option<int>)
    ensures DeleteRows(a + b, id) == DeleteRows(a, id) + DeleteRows(b, id)
  {
    if a == [] {
      assert a + b == b;
    } else {
      var ab := a + b;
      assert ab[0] == a[0] && ab[1..] == a[1..] + b;
      DeleteAppend(a[1..], b, id);
      if Matches(a[0], id) {
        assert DeleteRows(ab, id) == DeleteRows(a[1..] + b, id);
        assert DeleteRows(a, id) == DeleteRows(a[1..], id);
      } else {
        assert DeleteRows(ab, id) == [a[0]] + DeleteRows(a[1..] + b, id);
        assert DeleteRows(a, id) == [a[0]] + DeleteRows(a[1..], id);
      }
    }
  }

  /** Deleting the one matching row between two tables without a match leaves those two. */
  lemma DeleteOnly(before: seq<Row>, r: Row, after: seq<Row>, id: Option<int>)
    requires Matches(r, id) && NoMatch(before, id) && NoMatch(after, id)
    ensures DeleteRows(before + [r] + after, id) == before + after
  {
    assert DeleteRows(before, id) == before by { DeleteAbsent(before, id); }
    assert DeleteRows(after, id) == after by { DeleteAbsent(after, id); }
    assert DeleteRows([r], id) == [];
    assert DeleteRows(before + [r] + after, id) == DeleteRows(before, id) + DeleteRows([r], id) + DeleteRows(after, id) by {
      DeleteAppend(before + [r], after, id);
      DeleteAppend(before, [r], id);
    }
  }

  /** Deleting the row at position `k` of a well-formed table by its id removes exactly
      that row and keeps all the others, in order. */
  lemma DeleteRemovesOne(rows: seq<Row>, lastId: int, k: nat)
    requires WellFormed(rows, lastId) && k < |rows|
    ensures DeleteRows(rows, Some(rows[k].id)) == rows[..k] + rows[k + 1..]
  {
    var id := Some(rows[k].id);
    var before, after := rows[..k], rows[k + 1..];
    assert NoMatch(before, id) by {
      forall x | x in before ensures !Matches(x, id) {
        var i :| 0 <= i < |before| && before[i] == x;
        assert rows[i] == x;
      }
    }
    assert NoMatch(after, id) by {
      forall x | x in after ensures !Matches(x, id) {
        var i :| 0 <= i < |after| && after[i] == x;
        assert rows[k + 1 + i] == x;
      }
    }
    assert rows == before + [rows[k]] + after;
    DeleteOnly(before, rows[k], after, id);
  }

  /** A delete keeps the invariant. */
  lemma {:induction false} DeleteWellFormed(rows: seq<Row>, lastId: int, id: Option<int>)
    requires WellFormed(rows, lastId)
    ensures WellFormed(DeleteRows(rows, id), lastId)
  {
    if rows != [] {
      WellFormedTail(rows, lastId);
      DeleteWellFormed(rows[1..], lastId, id);
      if !Matches(rows[0], id) {
        WellFormedCons(rows[0], DeleteRows(rows[1..], id), lastId);
      }
    }
  }

  /** After a delete no row has the deleted id, so a second delete selects nothing. */
  lemma DeleteTwice(rows: seq<Row>, id: Option<int>)
    ensures Changes(DeleteRows(rows, id), id) == 0
    ensures DeleteRows(DeleteRows(rows, id), id) == DeleteRows(rows, id)
  {
  }
}
