/// Cell edits on the working rows: `updateCell` writes one cell of the first
/// row whose `_id` matches, and `bulkUpdateSelected` / `copyToSelected` do
/// that write for every selected cell in selection order, either in one pass
/// (at most 1000 cells) or in batches of 1000.
module Edits {
  import opened Values

  /** Cells handled per batch on the large-selection path, and the size up to which one pass is used. */
  const EditBatchSize: nat := 1000

  /** `rows.findIndex(row => row._id === id)`: the first matching index, or -1. */
  function IndexOfId(rows: seq<Row>, id: Value): (k: int)
    ensures -1 <= k < |rows|
  {
    if rows == [] then -1
    else if IdOf(rows[0]) == id then 0
    else
      var k := IndexOfId(rows[1..], id);
      if k == -1 then -1 else k + 1
  }

  /** The index found is the first row carrying `id`, and -1 exactly when no row carries it. */
  lemma {:induction false} IndexOfIdSpec(rows: seq<Row>, id: Value)
    ensures IndexOfId(rows, id) == -1 <==> forall i :: 0 <= i < |rows| ==> IdOf(rows[i]) != id
    ensures 0 <= IndexOfId(rows, id) ==>
      IdOf(rows[IndexOfId(rows, id)]) == id && forall i :: 0 <= i < IndexOfId(rows, id) ==> IdOf(rows[i]) != id
  {
    if rows != [] && IdOf(rows[0]) != id {
      IndexOfIdSpec(rows[1..], id);
      assert forall i :: 1 <= i < |rows| ==> rows[i] == rows[1..][i - 1];
    }
  }

  /** `updateCell(rowId, column, value)` on the working rows. */
  function SetCell(rows: seq<Row>, rowId: Value, column: string, value: Value): (r: seq<Row>)
    ensures |r| == |rows|
  {
    var k := IndexOfId(rows, rowId);
    if k == -1 then rows else rows[k := rows[k][column := value]]
  }

  /** Two rows agree on field `c`: both lack it, or both hold the same value. */
  predicate SameField(a: Row, b: Row, c: string) {
    (c in a <==> c in b) && Get(a, c) == Get(b, c)
  }

  /**
   * Only the targeted cell changes: the first row with the given `_id` gets
   * `value` in `column`; every other field of it, and every other row, is as
   * before; the number and order of rows are kept; with no matching row
   * nothing changes.
   */
  lemma SetCellFrame(rows: seq<Row>, rowId: Value, column: string, value: Value)
    ensures |SetCell(rows, rowId, column, value)| == |rows|
    ensures IndexOfId(rows, rowId) == -1 ==> SetCell(rows, rowId, column, value) == rows
    ensures forall i, c :: 0 <= i < |rows| && (i != IndexOfId(rows, rowId) || c != column) ==>
      SameField(SetCell(rows, rowId, column, value)[i], rows[i], c)
    ensures 0 <= IndexOfId(rows, rowId) ==>
      var r := SetCell(rows, rowId, column, value)[IndexOfId(rows, rowId)];
      column in r && Get(r, column) == value
  {
  }

  /**
   * The rows after writing `v` into the first `n` cells of `cells`, in
   * order, except any cell equal to `skip` (the copy source).
   */
  function ApplyFirst(rows: seq<Row>, cells: seq<Cell>, n: nat, v: Value, skip: Option<Cell>): (r: seq<Row>)
    requires n <= |cells|
    ensures |r| == |rows|
  {
    if n == 0 then rows
    else
      var before := ApplyFirst(rows, cells, n - 1, v, skip);
      var c := cells[n - 1];
      if skip == Some(c) then before else SetCell(before, c.rowId, c.column, v)
  }

  /** The rows after writing `v` into every cell of `cells` except the skipped one. */
  function ApplyWrites(rows: seq<Row>, cells: seq<Cell>, v: Value, skip: Option<Cell>): seq<Row> {
    ApplyFirst(rows, cells, |cells|, v, skip)
  }

  /** No cell that is written targets the `_id` field itself. */
  predicate NoIdWrites(cells: seq<Cell>, skip: Option<Cell>) {
    forall c :: c in cells && skip != Some(c) ==> c.column != IdKey
  }

  /** One of the first `n` written cells lands on field `col` of row `i`. */
  ghost predicate Targets(rows: seq<Row>, cells: seq<Cell>, n: int, skip: Option<Cell>, i: int, col: string) {
    exists m :: 0 <= m < n && m < |cells| && skip != Some(cells[m]) && cells[m].column == col && IndexOfId(rows, cells[m].rowId) == i
  }

  lemma {:induction false} ApplyFirstKeepsIds(rows: seq<Row>, cells: seq<Cell>, n: nat, v: Value, skip: Option<Cell>)
    requires n <= |cells| && NoIdWrites(cells, skip)
    ensures |ApplyFirst(rows, cells, n, v, skip)| == |rows|
    ensures forall i :: 0 <= i < |rows| ==> IdOf(ApplyFirst(rows, cells, n, v, skip)[i]) == IdOf(rows[i])
  {
    if n > 0 {
      ApplyFirstKeepsIds(rows, cells, n - 1, v, skip);
      assert cells[n - 1] in cells;
    }
  }

  /** When no write targets `_id`, every row keeps its `_id`, so lookups by id see the same rows throughout. */
  lemma ApplyWritesKeepsIds(rows: seq<Row>, cells: seq<Cell>, v: Value, skip: Option<Cell>)
    requires NoIdWrites(cells, skip)
    ensures |ApplyWrites(rows, cells, v, skip)| == |rows|
    ensures forall i :: 0 <= i < |rows| ==> IdOf(ApplyWrites(rows, cells, v, skip)[i]) == IdOf(rows[i])
  {
    ApplyFirstKeepsIds(rows, cells, |cells|, v, skip);
  }

  lemma IndexOfIdSameIds(a: seq<Row>, b: seq<Row>, id: Value)
    requires |a| == |b|
    requires forall i :: 0 <= i < |a| ==> IdOf(a[i]) == IdOf(b[i])
    ensures IndexOfId(a, id) == IndexOfId(b, id)
  {
  }

  lemma {:induction false} ApplyFirstCells(rows: seq<Row>, cells: seq<Cell>, n: nat, v: Value, skip: Option<Cell>, i: nat, col: string)
    requires n <= |cells| && NoIdWrites(cells, skip) && i < |rows|
    ensures |ApplyFirst(rows, cells, n, v, skip)| == |rows|
    ensures Targets(rows, cells, n, skip, i, col) ==>
      col in ApplyFirst(rows, cells, n, v, skip)[i] && Get(ApplyFirst(rows, cells, n, v, skip)[i], col) == v
    ensures !Targets(rows, cells, n, skip, i, col) ==> SameField(ApplyFirst(rows, cells, n, v, skip)[i], rows[i], col)
  {
    if n > 0 {
      var c := cells[n - 1];
      ApplyFirstCells(rows, cells, n - 1, v, skip, i, col);
      var before := ApplyFirst(rows, cells, n - 1, v, skip);
      ApplyFirstKeepsIds(rows, cells, n - 1, v, skip);
      IndexOfIdSameIds(before, rows, c.rowId);
      TargetsSnoc(rows, cells, n, skip, i, col);
      if skip != Some(c) {
        SetCellAt(before, c.rowId, c.column, v, i, col);
      }
    }
  }

  /**
   * Cell by cell, a bulk write does what it promises (when no write targets
   * `_id`): a field some written cell lands on holds `v`, and every other
   * field of every row is unchanged.
   */
  lemma ApplyWritesCells(rows: seq<Row>, cells: seq<Cell>, v: Value, skip: Option<Cell>, i: nat, col: string)
    requires NoIdWrites(cells, skip) && i < |rows|
    ensures |ApplyWrites(rows, cells, v, skip)| == |rows|
    ensures Targets(rows, cells, |cells|, skip, i, col) ==>
      col in ApplyWrites(rows, cells, v, skip)[i] && Get(ApplyWrites(rows, cells, v, skip)[i], col) == v
    ensures !Targets(rows, cells, |cells|, skip, i, col) ==> SameField(ApplyWrites(rows, cells, v, skip)[i], rows[i], col)
  {
    ApplyFirstCells(rows, cells, |cells|, v, skip, i, col);
  }

  /** One more cell: it is a target when it was one before or the new cell lands on it. */
  lemma TargetsSnoc(rows: seq<Row>, cells: seq<Cell>, n: nat, skip: Option<Cell>, i: int, col: string)
    requires 0 < n <= |cells|
    ensures Targets(rows, cells, n, skip, i, col) <==>
      Targets(rows, cells, n - 1, skip, i, col)
      || (skip != Some(cells[n - 1]) && cells[n - 1].column == col && IndexOfId(rows, cells[n - 1].rowId) == i)
  {
    if Targets(rows, cells, n, skip, i, col) {
      var m :| 0 <= m < n && m < |cells| && skip != Some(cells[m]) && cells[m].column == col && IndexOfId(rows, cells[m].rowId) == i;
      if m < n - 1 {
        assert Targets(rows, cells, n - 1, skip, i, col);
      }
    }
  }

  /** `SetCellFrame` at one row and field. */
  lemma SetCellAt(rows: seq<Row>, rowId: Value, column: string, value: Value, i: nat, c: string)
    requires i < |rows|
    ensures |SetCell(rows, rowId, column, value)| == |rows|
    ensures i == IndexOfId(rows, rowId) && c == column ==>
      c in SetCell(rows, rowId, column, value)[i] && Get(SetCell(rows, rowId, column, value)[i], c) == value
    ensures !(i == IndexOfId(rows, rowId) && c == column) ==>
      SameField(SetCell(rows, rowId, column, value)[i], rows[i], c)
  {
  }

  /** One write on a copy of the rows: `updatedData[rowIndex] = {...updatedData[rowIndex], [column]: v}`. */
  method WriteCell(data: array<Row>, cell: Cell, v: Value)
    modifies data
    ensures data[..] == SetCell(old(data[..]), cell.rowId, cell.column, v)
  {
    var rowIndex := IndexOfId(data[..], cell.rowId);
    if rowIndex != -1 {
      data[rowIndex] := data[rowIndex][cell.column := v];
    }
  }

  /** The body of both `forEach` loops: the `n`-th selected cell is written unless it is the skipped one. */
  method WriteStep(data: array<Row>, rows: seq<Row>, cells: seq<Cell>, n: nat, v: Value, skip: Option<Cell>)
    requires n < |cells|
    requires data[..] == ApplyFirst(rows, cells, n, v, skip)
    modifies data
    ensures data[..] == ApplyFirst(rows, cells, n + 1, v, skip)
  {
    var cell := cells[n];
    if skip != Some(cell) {
      WriteCell(data, cell, v);
    }
  }

  /** The one-pass path: `selectedCells.forEach(...)` over a copy of the rows. */
  method WriteCellsOnePass(rows: seq<Row>, cells: seq<Cell>, v: Value, skip: Option<Cell>) returns (updated: seq<Row>)
    ensures updated == ApplyWrites(rows, cells, v, skip)
  {
    var data := new Row[|rows|](i requires 0 <= i < |rows| => rows[i]);
    var i := 0;
    while i < |cells|
      invariant 0 <= i <= |cells|
      invariant data[..] == ApplyFirst(rows, cells, i, v, skip)
    {
      WriteStep(data, rows, cells, i, v, skip);
      i := i + 1;
    }
    updated := data[..];
  }

  /** One batch: the cells `cells[lo..hi]`, written in order into `data`. */
  method WriteBatch(data: array<Row>, rows: seq<Row>, cells: seq<Cell>, lo: nat, hi: nat, v: Value, skip: Option<Cell>)
    requires lo <= hi <= |cells|
    requires data[..] == ApplyFirst(rows, cells, lo, v, skip)
    modifies data
    ensures data[..] == ApplyFirst(rows, cells, hi, v, skip)
  {
    var k := lo;
    while k < hi
      invariant lo <= k <= hi
      invariant data[..] == ApplyFirst(rows, cells, k, v, skip)
    {
      WriteStep(data, rows, cells, k, v, skip);
      k := k + 1;
    }
  }

  /**
   * The batched path: `processedCount` advances by `batchSize`, each batch
   * written cell by cell into the same copy of the rows.
   */
  method WriteCellsBatched(rows: seq<Row>, cells: seq<Cell>, v: Value, skip: Option<Cell>, batchSize: nat)
    returns (updated: seq<Row>)
    requires batchSize > 0
    ensures updated == ApplyWrites(rows, cells, v, skip)
  {
    var data := new Row[|rows|](i requires 0 <= i < |rows| => rows[i]);
    var processedCount := 0;
    var totalCells := |cells|;
    while processedCount < totalCells
      invariant 0 <= processedCount <= totalCells
      invariant data[..] == ApplyFirst(rows, cells, processedCount, v, skip)
      decreases totalCells - processedCount
    {
      var endIndex := if processedCount + batchSize < totalCells then processedCount + batchSize else totalCells;
      WriteBatch(data, rows, cells, processedCount, endIndex, v, skip);
      processedCount := endIndex;
    }
    updated := data[..];
  }
}
