/// The values the grid engine stores: a cell value is a JavaScript string or
/// `undefined`, a row maps field names to values, and a selected cell names a
/// row by its `_id` and a column.
module Values {

  datatype Option<T> = None | Some(value: T)

  /** A cell value as the store sees it: `undefined` (None) or a string. */
  type Value = Option<string>

  /** A row: field name to value, including the `_id` field added at ingestion. */
  type Row = map<string, Value>

  /** The field that carries a row's identity. */
  const IdKey: string := "_id"

  /** `row[key]`: undefined when the row has no such field. */
  function Get(row: Row, key: string): Value {
    if key in row then row[key] else None
  }

  /** `row._id`. */
  function IdOf(row: Row): Value {
    Get(row, IdKey)
  }

  /** `row[column] || ''`: undefined and the empty string both read as "". */
  function OrEmpty(v: Value): string {
    match v
    case None => ""
    case Some(s) => s
  }

  /** The value is `undefined`, `null` or `''`. */
  predicate IsEmptyValue(v: Value) {
    v == None || v == Some("")
  }

  /** An entry of the selection: `{rowId, column}`. */
  datatype Cell = Cell(rowId: Value, column: string)

  /** No two rows carry the same `_id`. */
  ghost predicate UniqueIds(rows: seq<Row>) {
    forall i, j :: 0 <= i < j < |rows| ==> IdOf(rows[i]) != IdOf(rows[j])
  }

  /** The `_id`s of a sequence of rows, as a set. */
  ghost function IdSet(rows: seq<Row>): set<Value> {
    set i | 0 <= i < |rows| :: IdOf(rows[i])
  }
}
