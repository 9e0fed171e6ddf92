/** The five route handlers over an in-memory `todos` table. Each handler is one atomic
    step: it runs its statement on the table and maps the outcome to a status and a
    JSON body. A database failure other than the NOT NULL violation is the handler's
    `fault` parameter: when present the handler answers 500 with that message and the
    table does not change. */
module TodoRoutes {
  import opened TodoSchema
  import opened TodoStatements
  import opened TodoRequests

  const NOT_FOUND_MESSAGE: string := "To-Do item not found"
  const COMPLETE_ALL_MESSAGE: string := "All to-do items marked as completed"
  /** sqlite's message when the INSERT binds no task to `task TEXT NOT NULL`. */
  const TASK_NOT_NULL_MESSAGE: string := "SQLITE_CONSTRAINT: NOT NULL constraint failed: todos.task"
  /** sqlite's message when AUTOINCREMENT has already used the largest row id. */
  const TABLE_FULL_MESSAGE: string := "SQLITE_FULL: database or disk is full"

  /** The JSON bodies the handlers send. An `Echo` field that is None is `undefined` in
      the handler and so absent from the JSON text. */
  datatype Body =
    | Rows(rows: seq<Row>)
    | Created(item: Item)
    | Echo(id: int, task: Option<string>, completed: Option<bool>, priority: Option<string>)
    | Message(message: string)
    | Error(error: string)
    | NoContent

  datatype Response = Response(status: int, body: Body)

  /** The `todos` table: its rows in id order and its AUTOINCREMENT counter (the entry
      sqlite keeps in `sqlite_sequence`, the largest id ever assigned). */
  class TodoTable {
    var rows: seq<Row>
    var lastId: int
    /** Every id ever assigned, including those of deleted rows. */
    ghost var issued: set<int>

    ghost predicate Valid()
      reads this
    {
      && WellFormed(rows, lastId)
      && (forall k :: k in issued <==> 1 <= k <= lastId)
    }

    /** CREATE TABLE IF NOT EXISTS on a new database: no rows, no id assigned yet. */
    constructor ()
      ensures Valid()
      ensures rows == [] && lastId == 0 && issued == {}
    {
      rows := [];
      lastId := 0;
      issued := {};
    }

    /** GET /todos. Without a `completed` parameter every row; with one, the rows whose
        `completed` is 1 when it is exactly "true" and 0 otherwise. Rows are sent as
        stored, `completed` still 0 or 1, in id order; the table does not change. */
    method List(completedParam: Option<string>, fault: Option<string>) returns (resp: Response)
      requires Valid()
      ensures fault.Some? ==> resp == Response(500, Error(fault.value))
      ensures fault.None? ==> resp.status == 200 && resp.body.Rows?
      ensures fault.None? && completedParam.None? ==> resp.body.rows == rows
      ensures fault.None? && completedParam.Some? ==>
        resp.body.rows == Where(rows, FilterValue(completedParam.value))
      ensures fault.None? && completedParam.Some? ==>
        forall x :: x in resp.body.rows <==> x in rows && (x.completed == 1 <==> completedParam.value == "true")
      ensures fault.None? ==> WellFormed(resp.body.rows, lastId)
    {
      var params: seq<int> := [];
      if completedParam.Some? {
        params := params + [FilterValue(completedParam.value)];
      }
      if fault.Some? {
        return Response(500, Error(fault.value));
      }
      var selected := if params == [] then rows else Where(rows, params[0]);
      if params != [] {
        WhereWellFormed(rows, lastId, params[0]);
      }
      // The handler builds the Boolean view but sends the rows as they were read.
      var todos := Normalize(selected);
      resp := Response(200, Rows(selected));
    }

    /** POST /todos. With a task: one row appended, with a fresh id above every id ever
        assigned, completed 0 and the given priority or 'medium'; 201 with the new item.
        Without a task: the NOT NULL column refuses the row; 500 and nothing changes. */
    method Create(task: Option<string>, priority: Option<string>, fault: Option<string>) returns (resp: Response)
      requires Valid()
      modifies this
      ensures Valid()
      ensures fault.Some? ==> resp == Response(500, Error(fault.value))
      ensures fault.None? && old(lastId) == MAX_ROW_ID ==> resp == Response(500, Error(TABLE_FULL_MESSAGE))
      ensures fault.None? && old(lastId) < MAX_ROW_ID && task.None? ==>
        resp == Response(500, Error(TASK_NOT_NULL_MESSAGE))
      ensures resp.status != 201 ==>
        resp.status == 500 && rows == old(rows) && lastId == old(lastId) && issued == old(issued)
      ensures fault.None? && old(lastId) < MAX_ROW_ID && task.Some? ==>
        var id, p := old(lastId) + 1, PriorityOrDefault(priority);
        && resp == Response(201, Created(Item(id, task.value, false, p)))
        && id !in old(issued) && (forall k :: k in old(issued) ==> k < id)
        && issued == old(issued) + {id} && lastId == id
        && rows == InsertRow(old(rows), old(lastId), task.value, p)
    {
      var p := PriorityOrDefault(priority);
      if fault.Some? {
        return Response(500, Error(fault.value));
      }
      if lastId == MAX_ROW_ID {
        return Response(500, Error(TABLE_FULL_MESSAGE));
      }
      if task.None? {
        return Response(500, Error(TASK_NOT_NULL_MESSAGE));
      }
      var id := lastId + 1;
      InsertWellFormed(rows, lastId, task.value, p);
      rows := InsertRow(rows, lastId, task.value, p);
      lastId := id;
      issued := issued + {id};
      resp := Response(201, Created(Item(id, task.value, false, p)));
    }

    /** PUT /todos/complete-all. Every row gets completed 1, ids, tasks, priorities and the
        row count stay; 200 whether or not there were rows. */
    method CompleteAll(fault: Option<string>) returns (resp: Response)
      requires Valid()
      modifies this
      ensures Valid() && lastId == old(lastId) && issued == old(issued)
      ensures fault.Some? ==> resp == Response(500, Error(fault.value)) && rows == old(rows)
      ensures fault.None? ==>
        resp == Response(200, Message(COMPLETE_ALL_MESSAGE)) && rows == CompleteAllRows(old(rows))
    {
      if fault.Some? {
        return Response(500, Error(fault.value));
      }
      CompleteAllWellFormed(rows, lastId);
      rows := CompleteAllRows(rows);
      resp := Response(200, Message(COMPLETE_ALL_MESSAGE));
    }

    /** PUT /todos/:id. The update statement runs; when it touched no row the answer is
        404 and the table is as before; otherwise only the row with that id changed, each
        omitted field keeping its stored value, and the answer echoes the request. */
    method Update(id: Option<int>, task: Option<string>, completed: Option<bool>, priority: Option<string>,
                  fault: Option<string>) returns (resp: Response)
      requires Valid()
      modifies this
      ensures Valid() && lastId == old(lastId) && issued == old(issued)
      ensures fault.Some? ==> resp == Response(500, Error(fault.value)) && rows == old(rows)
      ensures fault.None? && Changes(old(rows), id) == 0 ==>
        resp == Response(404, Error(NOT_FOUND_MESSAGE)) && rows == old(rows)
      ensures fault.None? && Changes(old(rows), id) != 0 ==>
        && id.Some?
        && resp == Response(200, Echo(id.value, task, completed, priority))
        && rows == UpdateRows(old(rows), id, Patch(task, StoredCompleted(completed), priority))
    {
      if fault.Some? {
        return Response(500, Error(fault.value));
      }
      var patch := Patch(task, StoredCompleted(completed), priority);
      var changes := Changes(rows, id);
      UpdateWellFormed(rows, lastId, id, patch);
      if changes == 0 {
        UpdateAbsent(rows, id, patch);
      }
      rows := UpdateRows(rows, id, patch);
      if changes == 0 {
        return Response(404, Error(NOT_FOUND_MESSAGE));
      }
      resp := Response(200, Echo(id.value, task, completed, priority));
    }

    /** DELETE /todos/:id. The delete statement runs; when it removed no row the answer is
        404 and the table is as before; otherwise exactly the row with that id is gone,
        every other row stays, and the answer is 204 with no body. */
    method Delete(id: Option<int>, fault: Option<string>) returns (resp: Response)
      requires Valid()
      modifies this
      ensures Valid() && lastId == old(lastId) && issued == old(issued)
      ensures fault.Some? ==> resp == Response(500, Error(fault.value)) && rows == old(rows)
      ensures fault.None? && Changes(old(rows), id) == 0 ==>
        resp == Response(404, Error(NOT_FOUND_MESSAGE)) && rows == old(rows)
      ensures fault.None? && Changes(old(rows), id) != 0 ==>
        resp == Response(204, NoContent) && rows == DeleteRows(old(rows), id) && |rows| + 1 == |old(rows)|
      ensures fault.None? ==> Changes(rows, id) == 0
    {
      if fault.Some? {
        return Response(500, Error(fault.value));
      }
      var changes := Changes(rows, id);
      DeleteWellFormed(rows, lastId, id);
      if changes == 0 {
        DeleteAbsent(rows, id);
      }
      DeleteTwice(rows, id);
      DeleteCount(rows, id);
      ChangesAtMostOne(rows, lastId, id);
      rows := DeleteRows(rows, id);
      if changes == 0 {
        return Response(404, Error(NOT_FOUND_MESSAGE));
      }
      resp := Response(204, NoContent);
    }
  }

  /** A session on a new table: create "buy milk", mark it completed, list the completed
      items, delete it, and delete it again. */
  method ExampleSession() returns (created: Response, updated: Response, listed: Response,
                                   deleted: Response, again: Response)
    ensures created == Response(201, Created(Item(1, "buy milk", false, DEFAULT_PRIORITY)))
    ensures updated == Response(200, Echo(1, None, Some(true), None))
    ensures listed == Response(200, Rows([Row(1, "buy milk", 1, DEFAULT_PRIORITY)]))
    ensures deleted == Response(204, NoContent)
    ensures again == Response(404, Error(NOT_FOUND_MESSAGE))
  {
    var table := new TodoTable();
    created := table.Create(Some("buy milk"), None, None);
    updated := table.Update(Some(1), None, Some(true), None, None);
    listed := table.List(Some("true"), None);
    deleted := table.Delete(Some(1), None);
    again := table.Delete(Some(1), None);
  }
}
