# Todo table model

A Dafny model of a small Express service that keeps to-do items in one sqlite table,
`todos(id INTEGER PRIMARY KEY AUTOINCREMENT, task TEXT NOT NULL, completed BOOLEAN NOT NULL
DEFAULT 0, priority TEXT NOT NULL DEFAULT 'medium')`, and offers five routes: list (with an
optional `completed` filter), create, complete-all, partial update by id and delete by id.

The database is replaced by an in-memory table, the class `TodoRoutes.TodoTable`. It holds the
rows in id order and the AUTOINCREMENT counter (the largest id ever assigned). It also has a
ghost set of every id ever assigned. Each route is one method of the class. A method returns a
`Response`: a status code (200, 201, 204, 404 or 500) and a JSON body.

- `schema.dfy` (`TodoSchema`): the row, the priority default, the 64-bit row-id limit and the
  table invariant `WellFormed`. The invariant says that ids are increasing (so unique), that they
  lie between 1 and the counter, and that `completed` is 0 or 1.
- `statements.dfy` (`TodoStatements`): the five SQL statements written as functions on the rows.
  These are the `completed = ?` select, the insert, `SET completed = 1`, the COALESCE update by id,
  the delete by id, and sqlite's `changes` count. Next to them are the laws they obey, such as the
  filter partition, idempotence, "at most one row per id", "no match changes nothing" and "delete
  removes exactly that row".
- `requests.dfy` (`TodoRequests`): the pure translations. These are query string to 0/1, body
  `completed` to 0/1 or unbound, the default priority, and the Boolean view of a row with its
  inverse.
- `routes.dfy` (`TodoRoutes`): the class, one method per route, and an example session.

Each handler method first runs its statement on the table and then maps the outcome to a response.
For update and delete, `changes == 0` leads to 404. The update answer echoes the request fields, not
the stored row.

The list handler builds the Boolean-normalised copy of the rows and then discards it. It sends the
rows as stored, so `completed` is 0 or 1 in its output, while create and update answer with a
Boolean. The model does what the code does. `TodoRequests.NormalizeRoundTrip` shows that the
discarded copy holds the same information.

The code does not require `task` to be non-empty. Only the NOT NULL column guards it, so an empty
string is stored. The model follows the code here.

Calls into other code, and database failures, are parameters. Each handler takes
`fault: Option<string>`, which stands for a store error other than the NOT NULL violation (disk or
lock errors). When it is present, the handler answers 500 with that message and leaves the table
unchanged.

In the create route, the order of the failure checks follows sqlite. The id is allocated before the
NOT NULL check runs. So when the counter is already at 2^63 - 1, the answer is `SQLITE_FULL`, even if
the task is also missing.

## Model

| member | source | states |
|---|---|---|
| `TodoSchema.WellFormed` | index.js:19-22 | the table invariant: ids strictly increase (PRIMARY KEY, in rowid order), lie between 1 and the AUTOINCREMENT counter, which is at most 2^63 - 1, and `completed` is 0 or 1 (`BOOLEAN NOT NULL DEFAULT 0`); `task` and `priority` are strings, never NULL |
| `TodoSchema.IdsUnique` | index.js:19 | in a well-formed table no two rows share an id (PRIMARY KEY) |
| `TodoStatements.Matches` | index.js:91 | `WHERE id = ?`: a row matches a parsed id exactly when the id is a number equal to the row's id; an unparsable id (NaN, bound as NULL) matches no row |
| `TodoStatements.Where` | index.js:34-36 | the filtered select returns exactly the rows whose `completed` equals the bound value, and no more rows than the table has |
| `TodoStatements.WhereWellFormed` | index.js:39 | the rows a select returns keep the table's id order and id range |
| `TodoStatements.WherePartition` | index.js:34-36 | on 0/1 rows, the multisets returned by the `completed = 0` and `completed = 1` selects add up to the table's multiset, so together they return every row exactly as often as it is stored, and their sizes add up to the table's |
| `TodoStatements.Changes` | index.js:98 | the affected-row count of a statement restricted to one id is zero exactly when no row has that id |
| `TodoStatements.ChangesAtMostOne` | index.js:91 | ids are unique, so such a statement affects at most one row |
| `TodoStatements.InsertRow` | index.js:60 | the insert adds exactly one row after the existing ones, which stay as they were; the new row has id counter+1, the given task and priority, and completed 0 |
| `TodoStatements.InsertWellFormed` | index.js:60 | appending the inserted row with id counter+1 keeps the table invariant, with the counter advanced |
| `TodoStatements.CreatedListedOnce` | index.js:60 | a created row is listed exactly once unfiltered, exactly once by `completed = 0`, and never by `completed = 1` |
| `TodoStatements.CompleteAllRows` | index.js:72 | `SET completed = 1` keeps the row count and every id, task and priority, and sets every `completed` to 1 |
| `TodoStatements.CompleteAllWellFormed` | index.js:72 | complete-all keeps the table invariant |
| `TodoStatements.CompleteAllIdempotent` | index.js:72 | completing all rows twice is the same as once |
| `TodoStatements.CompleteAllFilters` | index.js:72 | after complete-all, `completed = 0` selects nothing and `completed = 1` selects the whole table |
| `TodoStatements.Coalesce` | index.js:88-90 | SQL `COALESCE(?, column)`: the bound value when one is supplied, otherwise the stored value |
| `TodoStatements.ApplyPatch` | index.js:88-90 | COALESCE: a supplied field takes the supplied value, an omitted field keeps its stored value, the id never changes |
| `TodoStatements.UpdateRows` | index.js:86-92 | the update patches the row whose id matches and leaves every other row exactly as it was, with the same row count |
| `TodoStatements.UpdateAbsent` | index.js:98-99 | an update that matches no row leaves the table unchanged |
| `TodoStatements.UpdateEmptyPatch` | index.js:88-90 | an update that supplies no field changes no row |
| `TodoStatements.UpdateIdempotent` | index.js:86-92 | applying the same update twice is the same as once |
| `TodoStatements.UpdateWellFormed` | index.js:89 | an update that binds `completed` to 0 or 1 keeps the table invariant |
| `TodoStatements.DeleteRows` | index.js:108 | the delete returns exactly the rows whose id differs from the given one |
| `TodoStatements.DeleteCount` | index.js:108 | the delete removes exactly as many rows as its affected-row count |
| `TodoStatements.DeleteAbsent` | index.js:114-115 | a delete that matches no row leaves the table unchanged |
| `TodoStatements.DeleteRemovesOne` | index.js:108 | deleting the id of the row at position k removes exactly that row and keeps the others in order |
| `TodoStatements.DeleteWellFormed` | index.js:108 | the delete keeps the table invariant |
| `TodoStatements.DeleteTwice` | index.js:108-116 | after a delete no row has that id, so a second delete affects no row |
| `TodoRequests.FilterValue` | index.js:36 | the filter value is 0 or 1, and 1 exactly when the query string is `"true"` |
| `TodoRequests.PriorityOrDefault` | index.js:59 | an omitted priority becomes `'medium'`, a supplied one is kept |
| `TodoRequests.StoredCompleted` | index.js:94 | an omitted `completed` stays unbound; a supplied one becomes 1 when true and 0 when false |
| `TodoRequests.StoredCompletedRoundTrip` | index.js:94 | reading back a stored flag with `Boolean` gives the supplied flag |
| `TodoRequests.Truthy` | index.js:48 | JavaScript `Boolean(n)` on the stored integer: true exactly when it is non-zero |
| `TodoRequests.ToItem` | index.js:45-49 | the Boolean view keeps id, task and priority, and `completed` is true exactly when the stored value is non-zero |
| `TodoRequests.Normalize` | index.js:44-51 | the `rows.map` copy has one item per row, in order, each the Boolean view of its row |
| `TodoRequests.ItemRoundTrip` | index.js:48 | on a 0/1 row the Boolean view converts back to the same row |
| `TodoRequests.NormalizeRoundTrip` | index.js:44-52 | on 0/1 rows the discarded normalised copy converts back to exactly the rows that are sent |
| `TodoRoutes.TodoTable.Valid` | index.js:17-24 | the class invariant: the rows and counter are well formed, and the ghost set of issued ids is exactly 1..counter, every id any insert has assigned, deleted rows' ids included |
| `TodoRoutes.TodoTable.constructor` | index.js:17-24 | a newly created table has no rows and has assigned no id |
| `TodoRoutes.TodoTable.List` | index.js:29-55 | 500 on a store error; otherwise 200 with every row (no parameter), or only `completed = 1` rows for `"true"` and only `completed = 0` rows for any other string, as stored and in id order; the table does not change |
| `TodoRoutes.TodoTable.Create` | index.js:58-68 | with a task: one row appended with a fresh id above every id ever assigned, completed 0 and the supplied or default priority, and 201 with `{id, task, completed: false, priority}`; without a task: 500 NOT NULL and nothing changes |
| `TodoRoutes.TodoTable.CompleteAll` | index.js:71-80 | 200 and every row completed, ids, tasks, priorities and row count kept, on an empty table too; 500 and no change on a store error |
| `TodoRoutes.TodoTable.Update` | index.js:83-103 | 404 "To-Do item not found" and no change when no row has the id; otherwise only that row is updated, with COALESCE semantics, and 200 echoes the request fields; the counter is kept |
| `TodoRoutes.TodoTable.Delete` | index.js:106-119 | 404 and no change when no row has the id; otherwise exactly that row is removed, the others are kept, and the answer is 204; afterwards no row has that id |
| `TodoRoutes.ExampleSession` | index.js:58-119 | create, mark completed, list completed, delete, delete again: 201 with id 1, 200 echo, 200 with the completed row, 204, 404 |

## Left out

- Express setup, JSON body parsing, route registration and dispatch order, and `app.listen` (index.js:1-7, 122-124): these are HTTP infrastructure. Dispatch order decides that `complete-all` is never read as an id.
- Opening the database file and the console logging (index.js:10-16, 123): these are I/O. The constructor models only a new, empty table. A database file that already holds rows is not modelled.
- The sqlite engine, its storage and its asynchronous callbacks: each handler is one atomic step on the in-memory table. Concurrent requests are not modelled.
- Store errors other than the NOT NULL violation and the full id range: they are the `fault` parameter, which answers 500 and changes nothing. Which error occurs is not modelled.
- `parseInt` of the path id (index.js:84, 107): the id is an `Option<int>` in which None stands for NaN and matches no row. Prefix parsing such as `"3abc"` becoming 3 is not modelled.
- JavaScript truthiness and JSON `null`: body fields are optional values. The update's `completed` is an optional Boolean, so a non-Boolean value such as the string `"false"` (truthy, stored as 1) is not modelled. An explicit `null` priority on create (a second NOT NULL violation) is not modelled either.
- A repeated query parameter (an array value, which is not `'true'` and so filters on 0) is not modelled: the parameter is a single optional string.
- Row order of the select (index.js:31, 35): `SELECT * FROM todos` has no ORDER BY, so SQL itself does not fix the order. The model returns rows in rowid order, which is the order sqlite's full scan of this table gives. Settings that change the scan order, such as `PRAGMA reverse_unordered_selects`, are not modelled.
- Precision of JavaScript numbers: ids above 2^53 would lose precision in `this.lastID` and in the parsed id. The model uses exact integers up to sqlite's 2^63 - 1.
