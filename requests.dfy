/** The small translations between request values, stored column values and the
    API's Boolean view of a row. */
module TodoRequests {
  import opened TodoSchema

  /** The value bound to `WHERE completed = ?` for a `completed` query parameter:
      1 for exactly the string "true", 0 for every other string ("false", "yes", ""). */
  function FilterValue(param: string): (v: int)
    ensures IsFlag(v)
    ensures v == 1 <==> param == "true"
  {
    if param == "true" then 1 else 0
  }

  /** `priority = 'medium'` in the create handler's destructuring: an omitted priority
      takes the column's default. */
  function PriorityOrDefault(priority: Option<string>): (p: string)
    ensures priority.Some? ==> p == priority.value
    ensures priority.None? ==> p == DEFAULT_PRIORITY
  {
    match priority
    case Some(v) => v
    case None => DEFAULT_PRIORITY
  }

  /** The update handler's `completed !== undefined ? (completed ? 1 : 0) : undefined`:
      an omitted flag stays unbound, a supplied one becomes 1 when true and 0 when false. */
  function StoredCompleted(completed: Option<bool>): (s: Option<int>)
    ensures s.Some? <==> completed.Some?
    ensures s.Some? ==> IsFlag(s.value) && (s.value == 1 <==> completed.value)
  {
    match completed
    case Some(b) => Some(if b then 1 else 0)
    case None => None
  }

  /** JavaScript's `Boolean(n)` on the integer read from the `completed` column. */
  function Truthy(n: int): bool {
    n != 0
  }

  /** A row as the API shows it, with `completed` a Boolean. */
  datatype Item = Item(id: int, task: string, completed: bool, priority: string)

  /** `{...todo, completed: Boolean(todo.completed)}`: one row in the Boolean view. */
  function ToItem(r: Row): (t: Item)
    ensures t.id == r.id && t.task == r.task && t.priority == r.priority
    ensures t.completed <==> r.completed != 0
  {
    Item(r.id, r.task, Truthy(r.completed), r.priority)
  }

  /** The stored form of an item: `completed` back to 0 or 1. */
  function ToRow(t: Item): (r: Row)
    ensures IsFlag(r.completed)
  {
    Row(t.id, t.task, if t.completed then 1 else 0, t.priority)
  }

  /** `rows.map(...)` in the list handler: every row in the Boolean view, in order. */
  function Normalize(rows: seq<Row>): (items: seq<Item>)
    ensures |items| == |rows|
    ensures forall i :: 0 <= i < |rows| ==> items[i] == ToItem(rows[i])
  {
    if rows == [] then [] else [ToItem(rows[0])] + Normalize(rows[1..])
  }

  /** Every item back in its stored form, in order. */
  function Denormalize(items: seq<Item>): (rows: seq<Row>)
    ensures |rows| == |items|
    ensures forall i :: 0 <= i < |items| ==> rows[i] == ToRow(items[i])
  {
    if items == [] then [] else [ToRow(items[0])] + Denormalize(items[1..])
  }

  /** On a row whose `completed` is 0 or 1 the Boolean view loses nothing. */
  lemma ItemRoundTrip(r: Row)
    requires IsFlag(r.completed)
    ensures ToRow(ToItem(r)) == r
  {
  }

  /** On 0/1 rows the normalised list the list handler builds carries exactly the rows it
      sends: converting it back gives the rows. */
  lemma NormalizeRoundTrip(rows: seq<Row>)
    requires AllFlags(rows)
    ensures Denormalize(Normalize(rows)) == rows
  {
  }

  /** A flag supplied to an update is stored so that reading it back with `Boolean`
      gives the flag that was supplied. */
  lemma StoredCompletedRoundTrip(b: bool)
    ensures Truthy(StoredCompleted(Some(b)).value) == b
  {
  }
}
