/// The selection model: a list of `{rowId, column}` entries. A plain click
/// replaces it with one entry; an additive click removes the first matching
/// entry if there is one and appends the cell otherwise; selecting a column
/// lists every current row's cell in that column, in row order.
module Selection {
  import opened Values

  /** `selected.findIndex(cell => cell.rowId === c.rowId && cell.column === c.column)`, or -1. */
  function IndexOfCell(selected: seq<Cell>, c: Cell): (k: int)
    ensures -1 <= k < |selected|
    ensures k == -1 <==> c !in selected
    ensures 0 <= k ==> selected[k] == c && c !in selected[..k]
  {
    if selected == [] then -1
    else if selected[0] == c then 0
    else
      var k := IndexOfCell(selected[1..], c);
      assert k >= 0 ==> selected[..k + 1] == [selected[0]] + selected[1..][..k];
      if k == -1 then -1 else k + 1
  }

  /** The additive click: splice out the first match, or append the cell. */
  function Toggle(selected: seq<Cell>, c: Cell): seq<Cell> {
    var k := IndexOfCell(selected, c);
    if k == -1 then selected + [c] else selected[..k] + selected[k + 1..]
  }

  /** `selectCell(rowId, column, isMultiSelect)`. */
  function SelectCell(selected: seq<Cell>, rowId: Value, column: string, additive: bool): seq<Cell> {
    if !additive then [Cell(rowId, column)] else Toggle(selected, Cell(rowId, column))
  }

  /** No entry is listed twice. */
  predicate NoDuplicates(selected: seq<Cell>) {
    forall i, j :: 0 <= i < j < |selected| ==> selected[i] != selected[j]
  }

  /**
   * On a selection without repeats, toggling flips membership of exactly
   * that cell and keeps the selection free of repeats.
   */
  lemma ToggleMembership(selected: seq<Cell>, c: Cell)
    requires NoDuplicates(selected)
    ensures NoDuplicates(Toggle(selected, c))
    ensures forall d :: d in Toggle(selected, c) <==> (if d == c then c !in selected else d in selected)
  {
    var k := IndexOfCell(selected, c);
    if k != -1 {
      var r := selected[..k] + selected[k + 1..];
      assert forall i :: 0 <= i < |r| ==> r[i] == if i < k then selected[i] else selected[i + 1];
      forall d
        ensures d in r <==> (if d == c then false else d in selected)
      {
        if d in selected {
          var i :| 0 <= i < |selected| && selected[i] == d;
          if d != c {
            assert i != k;
            if i < k { assert r[i] == d; } else { assert r[i - 1] == d; }
          }
        }
      }
    }
  }

  /** Toggling a cell that was not selected, twice, gives back the very same list. */
  lemma ToggleTwiceAbsent(selected: seq<Cell>, c: Cell)
    requires c !in selected
    ensures Toggle(Toggle(selected, c), c) == selected
  {
    var once := selected + [c];
    assert IndexOfCell(once, c) == |selected|;
    assert once[..|selected|] == selected;
  }

  /** Toggling any cell twice on a selection without repeats gives back the same set of cells. */
  lemma ToggleTwice(selected: seq<Cell>, c: Cell)
    requires NoDuplicates(selected)
    ensures NoDuplicates(Toggle(Toggle(selected, c), c))
    ensures forall d :: d in Toggle(Toggle(selected, c), c) <==> d in selected
  {
    ToggleMembership(selected, c);
    ToggleMembership(Toggle(selected, c), c);
  }

  /** The cells `selectColumn(column)` selects: each current row's `_id`, in row order. */
  function ColumnCells(rows: seq<Row>, column: string): seq<Cell> {
    seq(|rows|, i requires 0 <= i < |rows| => Cell(IdOf(rows[i]), column))
  }

  /** `selectColumn`'s loop: one pushed entry per row. */
  method SelectColumnCells(rows: seq<Row>, column: string) returns (columnCells: seq<Cell>)
    ensures |columnCells| == |rows|
    ensures forall i :: 0 <= i < |rows| ==> columnCells[i] == Cell(IdOf(rows[i]), column)
    ensures columnCells == ColumnCells(rows, column)
  {
    columnCells := [];
    var totalRows := |rows|;
    for i := 0 to totalRows
      invariant |columnCells| == i
      invariant forall k :: 0 <= k < i ==> columnCells[k] == Cell(IdOf(rows[k]), column)
    {
      columnCells := columnCells + [Cell(IdOf(rows[i]), column)];
    }
  }

  /** With distinct row ids, a column selection lists no cell twice, and every current row's cell is in it. */
  lemma ColumnCellsSelected(rows: seq<Row>, column: string)
    requires UniqueIds(rows)
    ensures NoDuplicates(ColumnCells(rows, column))
    ensures forall i :: 0 <= i < |rows| ==> Cell(IdOf(rows[i]), column) in ColumnCells(rows, column)
  {
    var cs := ColumnCells(rows, column);
    forall i | 0 <= i < |rows|
      ensures Cell(IdOf(rows[i]), column) in cs
    {
      assert cs[i] == Cell(IdOf(rows[i]), column);
    }
  }
}
