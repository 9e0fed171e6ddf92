/** The `todos` table: its row shape, the priority default and the invariant every
    state of the table keeps. */
module TodoSchema {

  datatype Option<T> = None | Some(value: T)

  /** Default of the `priority TEXT NOT NULL DEFAULT 'medium'` column, also the
      default of the create request's destructuring. */
  const DEFAULT_PRIORITY: string := "medium"

  /** sqlite row ids are signed 64-bit integers; AUTOINCREMENT never goes past this. */
  const MAX_ROW_ID: int := 0x7FFF_FFFF_FFFF_FFFF

  /** One stored row. `completed` is the BOOLEAN column, stored by sqlite as an integer. */
  datatype Row = Row(id: int, task: string, completed: int, priority: string)

  /** The two values the `completed` column ever holds. */
  predicate IsFlag(c: int) {
    c == 0 || c == 1
  }

  /** Every row's `completed` is 0 or 1. */
  predicate AllFlags(rows: seq<Row>) {
    forall i :: 0 <= i < |rows| ==> IsFlag(rows[i].completed)
  }

  /** The table invariant, given the AUTOINCREMENT counter `lastId` (the largest id
      ever assigned): every id lies in 1..lastId, `completed` is 0 or 1, and the rows
      are held in increasing id order, which is the order a full scan returns them and
      makes ids unique. `task` and `priority` are never NULL because a `string` has no
      NULL. */
  predicate WellFormed(rows: seq<Row>, lastId: int) {
    && 0 <= lastId <= MAX_ROW_ID
    && AllFlags(rows)
    && (forall i :: 0 <= i < |rows| ==> 1 <= rows[i].id <= lastId)
    && (forall i, j :: 0 <= i < j < |rows| ==> rows[i].id < rows[j].id)
  }

  /** The PRIMARY KEY property: no two rows share an id. */
  lemma IdsUnique(rows: seq<Row>, lastId: int)
    requires WellFormed(rows, lastId)
    ensures forall i, j :: 0 <= i < |rows| && 0 <= j < |rows| && i != j ==> rows[i].id != rows[j].id
  {
  }

  /** Dropping the first row keeps the invariant. */
  lemma WellFormedTail(rows: seq<Row>, lastId: int)
    requires WellFormed(rows, lastId) && rows != []
    ensures WellFormed(rows[1..], lastId)
    ensures forall x :: x in rows[1..] ==> rows[0].id < x.id
  {
  }

  /** Putting in front a row whose id is below every id of the rest keeps the invariant. */
  lemma WellFormedCons(r: Row, rest: seq<Row>, lastId: int)
    requires WellFormed(rest, lastId)
    requires 1 <= r.id <= lastId && IsFlag(r.completed)
    requires forall x :: x in rest ==> r.id < x.id
    ensures WellFormed([r] + rest, lastId)
  {
  }
}
