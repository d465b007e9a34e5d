/// The grid view's own logic: which validation record a cell shows, whether
/// a cell is drawn as selected, how a click selects, how a header click
/// picks the sort direction, and the in-cell editor (open on double click,
/// type, commit with Enter or on blur, abandon with Escape).
module Table {
  import opened Values
  import opened Validator
  import opened Validation
  import Selection
  import Sorting
  import Edits
  import Store

  /** The first record for cell (`rowId`, `column`), or -1. */
  function FirstErrorAt(errors: seq<ValidationError>, rowId: Value, column: string): (k: int)
    ensures -1 <= k < |errors|
    ensures k == -1 <==> forall i :: 0 <= i < |errors| ==> !(errors[i].rowId == rowId && errors[i].column == column)
    ensures 0 <= k ==> errors[k].rowId == rowId && errors[k].column == column
    ensures 0 <= k ==> forall i :: 0 <= i < k ==> !(errors[i].rowId == rowId && errors[i].column == column)
  {
    if errors == [] then -1
    else if errors[0].rowId == rowId && errors[0].column == column then 0
    else
      var k := FirstErrorAt(errors[1..], rowId, column);
      if k == -1 then -1 else k + 1
  }

  /**
   * `getCellError`: nothing while validation display is off; otherwise the
   * first record whose `rowId` and `column` both match, if any.
   */
  function GetCellError(errors: seq<ValidationError>, isValidationMode: bool, rowId: Value, column: string)
    : (r: Option<ValidationError>)
    ensures !isValidationMode ==> r.None?
    ensures isValidationMode ==>
      (r.None? <==> forall i :: 0 <= i < |errors| ==> !(errors[i].rowId == rowId && errors[i].column == column))
    ensures r.Some? ==> r.value in errors && r.value.rowId == rowId && r.value.column == column
    ensures r.Some? ==> 0 <= FirstErrorAt(errors, rowId, column) && r == Some(errors[FirstErrorAt(errors, rowId, column)])
  {
    if !isValidationMode then None
    else
      var k := FirstErrorAt(errors, rowId, column);
      if k == -1 then None else Some(errors[k])
  }

  /**
   * With validation display on and the records of a full pass over rows with
   * distinct ids, a cell shows a record exactly when the validator fails it,
   * and the record carries the validator's message.
   */
  lemma CellErrorShownIff(rows: seq<Row>, headers: seq<string>, i: nat, j: nat)
    requires UniqueIds(rows) && i < |rows| && j < |headers|
    ensures var shown := GetCellError(ErrorsOf(rows, headers), true, IdOf(rows[i]), headers[j]);
      var outcome := ValidateCell(Get(rows[i], headers[j]), headers[j]);
      (shown.Some? <==> outcome.Some?) && (shown.Some? ==> shown.value.error == outcome.value.error)
  {
    var errors := ErrorsOf(rows, headers);
    var shown := GetCellError(errors, true, IdOf(rows[i]), headers[j]);
    var outcome := ValidateCell(Get(rows[i], headers[j]), headers[j]);
    if outcome.Some? {
      var e := CellErrors(rows[i], i, headers[j])[0];
      assert FailingCell(rows, headers, i, j, e);
      ErrorsOfIff(rows, headers, e);
      var p :| 0 <= p < |errors| && errors[p] == e;
    }
    if shown.Some? {
      var e := shown.value;
      ErrorsOfIff(rows, headers, e);
      var i', j' :| FailingCell(rows, headers, i', j', e);
      assert i' == i;
    }
  }

  /** `isCellSelected`: some selected entry matches both `rowId` and `column`. */
  function IsCellSelected(selected: seq<Cell>, rowId: Value, column: string): (r: bool)
    ensures r <==> exists k :: 0 <= k < |selected| && selected[k].rowId == rowId && selected[k].column == column
  {
    if selected == [] then false
    else if selected[0].rowId == rowId && selected[0].column == column then true
    else
      var r := IsCellSelected(selected[1..], rowId, column);
      assert r ==> exists k :: 0 <= k < |selected[1..]| && selected[1..][k].rowId == rowId && selected[1..][k].column == column;
      assert (exists k :: 0 <= k < |selected| && selected[k].rowId == rowId && selected[k].column == column) ==>
        exists k :: 0 <= k < |selected[1..]| && selected[1..][k] == selected[k + 1] && selected[k + 1].rowId == rowId && selected[k + 1].column == column;
      r
  }

  /**
   * After a click on a cell, it is drawn as selected exactly when the click
   * was plain or it was not selected before; every other cell keeps its
   * state on an additive click and is cleared on a plain one.
   */
  lemma ClickSelection(selected: seq<Cell>, rowId: Value, column: string, additive: bool, other: Cell)
    requires Selection.NoDuplicates(selected)
    ensures var after := Selection.SelectCell(selected, rowId, column, additive);
      (IsCellSelected(after, rowId, column) <==> !additive || !IsCellSelected(selected, rowId, column))
      && (other != Cell(rowId, column) ==>
        (IsCellSelected(after, other.rowId, other.column) <==> additive && IsCellSelected(selected, other.rowId, other.column)))
  {
    var c := Cell(rowId, column);
    var after := Selection.SelectCell(selected, rowId, column, additive);
    SelectedIffIn(selected, c);
    SelectedIffIn(selected, other);
    SelectedIffIn(after, c);
    SelectedIffIn(after, other);
    if additive {
      Selection.ToggleMembership(selected, c);
    }
  }

  lemma SelectedIffIn(selected: seq<Cell>, c: Cell)
    ensures IsCellSelected(selected, c.rowId, c.column) <==> c in selected
  {
    if c in selected {
      var k :| 0 <= k < |selected| && selected[k] == c;
    }
  }

  /**
   * `handleHeaderClick`'s direction: 'asc' for a header other than the
   * sorted one, and the other direction for the sorted one.
   */
  function NextDirection(sortColumn: Option<string>, sortDirection: Sorting.Direction, column: string)
    : Sorting.Direction
  {
    if sortColumn == Some(column) then
      (if sortDirection == Sorting.Asc then Sorting.Desc else Sorting.Asc)
    else Sorting.Asc
  }

  /**
   * Clicking a header not currently sorted sorts ascending; clicking the
   * same header again alternates descending and ascending, so every second
   * click restores the direction.
   */
  lemma HeaderClicks(sortColumn: Option<string>, sortDirection: Sorting.Direction, column: string)
    ensures sortColumn != Some(column) ==> NextDirection(sortColumn, sortDirection, column) == Sorting.Asc
    ensures var first := NextDirection(sortColumn, sortDirection, column);
      var second := NextDirection(Some(column), first, column);
      second != first && NextDirection(Some(column), second, column) == first
  {
  }

  /** The cell under edit and the text typed so far. */
  datatype EditingCell = EditingCell(rowId: Value, column: string, value: Value)

  class GridView {
    var editingCell: Option<EditingCell>
    var sortColumn: Option<string>
    var sortDirection: Sorting.Direction

    /** No editor open, no header sorted yet, direction 'asc'. */
    constructor ()
      ensures editingCell == None && sortColumn == None && sortDirection == Sorting.Asc
    {
      editingCell := None;
      sortColumn := None;
      sortDirection := Sorting.Asc;
    }

    /** `handleHeaderClick`: remember the header and direction, and sort the store's rows by them. */
    method HeaderClick(store: Store.DataStore, column: string)
      requires store.Valid()
      modifies this, store
      ensures store.Valid()
      ensures sortColumn == Some(column)
      ensures sortDirection == NextDirection(old(sortColumn), old(sortDirection), column)
      ensures editingCell == old(editingCell)
      ensures store.State() == old(store.State()).(
        csvData := Sorting.SortRows(old(store.csvData), column, sortDirection), isLoading := false)
    {
      var direction := NextDirection(sortColumn, sortDirection, column);
      sortColumn := Some(column);
      sortDirection := direction;
      store.SortByColumn(column, direction);
    }

    /** `handleCellClick`: the click is additive when ctrl or meta is held. */
    method CellClick(store: Store.DataStore, rowId: Value, column: string, ctrlKey: bool, metaKey: bool)
      requires store.Valid()
      modifies store
      ensures store.Valid()
      ensures store.State() == old(store.State()).(
        selectedCells := Selection.SelectCell(old(store.selectedCells), rowId, column, ctrlKey || metaKey))
    {
      var isMultiSelect := ctrlKey || metaKey;
      store.SelectCell(rowId, column, isMultiSelect);
    }

    /** `handleCellDoubleClick`: open the editor on the cell with its current value. */
    method CellDoubleClick(rowId: Value, column: string, value: Value)
      modifies this
      ensures editingCell == Some(EditingCell(rowId, column, value))
      ensures sortColumn == old(sortColumn) && sortDirection == old(sortDirection)
    {
      editingCell := Some(EditingCell(rowId, column, value));
    }

    /** The editor's `onChange`: the typed text replaces the pending value. */
    method EditChange(text: string)
      requires editingCell.Some?
      modifies this
      ensures editingCell == Some(old(editingCell).value.(value := Some(text)))
      ensures sortColumn == old(sortColumn) && sortDirection == old(sortDirection)
    {
      editingCell := Some(editingCell.value.(value := Some(text)));
    }

    /** `handleCellEditComplete` (Enter or blur): write the pending value into the store and close the editor. */
    method EditComplete(store: Store.DataStore)
      requires editingCell.Some? && store.Valid()
      modifies this, store
      ensures store.Valid() && store.Validated()
      ensures editingCell == None
      ensures sortColumn == old(sortColumn) && sortDirection == old(sortDirection)
      ensures var e := old(editingCell).value;
        store.State() == old(store.State()).(
          csvData := Edits.SetCell(old(store.csvData), e.rowId, e.column, e.value),
          validationErrors := ErrorsOf(Edits.SetCell(old(store.csvData), e.rowId, e.column, e.value), old(store.headers)),
          processingChunk := false)
    {
      var e := editingCell.value;
      store.UpdateCell(e.rowId, e.column, e.value);
      editingCell := None;
    }

    /** The editor's `onKeyDown`: Enter commits, Escape closes without writing, other keys do nothing. */
    method EditKeyDown(store: Store.DataStore, key: string)
      requires editingCell.Some? && store.Valid()
      modifies this, store
      ensures store.Valid()
      ensures sortColumn == old(sortColumn) && sortDirection == old(sortDirection)
      ensures key == "Enter" ==> editingCell == None && store.Validated()
      ensures var e := old(editingCell).value;
        key == "Enter" ==> store.State() == old(store.State()).(
          csvData := Edits.SetCell(old(store.csvData), e.rowId, e.column, e.value),
          validationErrors := ErrorsOf(Edits.SetCell(old(store.csvData), e.rowId, e.column, e.value), old(store.headers)),
          processingChunk := false)
      ensures key == "Escape" ==> editingCell == None && store.State() == old(store.State())
      ensures key != "Enter" && key != "Escape" ==> editingCell == old(editingCell) && store.State() == old(store.State())
    {
      if key == "Enter" {
        EditComplete(store);
      } else if key == "Escape" {
        editingCell := None;
      }
    }
  }
}
