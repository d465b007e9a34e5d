/// The dataset store: the working rows `csvData`, the `originalData` snapshot
/// taken when an upload completes, the headers, the latest validation
/// records, the selection and the loading flags, with the operations the
/// grid calls on them. Validation, which the source debounces, runs at once
/// here at each place the source requests it.
module Store {
  import opened Values
  import opened Validator
  import opened Validation
  import opened Ingest
  import Edits
  import Selection
  import Filtering
  import Sorting

  /** Every field of the store at one moment. */
  datatype StoreState = StoreState(
    csvData: seq<Row>,
    headers: seq<string>,
    originalData: seq<Row>,
    isLoading: bool,
    loadingProgress: nat,
    validationErrors: seq<ValidationError>,
    selectedCells: seq<Cell>,
    isValidationMode: bool,
    processingChunk: bool,
    rowCount: nat,
    allData: seq<Row>)

  class DataStore {
    var csvData: seq<Row>
    var headers: seq<string>
    var originalData: seq<Row>
    var isLoading: bool
    var loadingProgress: nat
    var validationErrors: seq<ValidationError>
    var selectedCells: seq<Cell>
    var isValidationMode: bool
    var processingChunk: bool
    /** The upload in progress: rows received so far, and those rows with their ids. */
    var rowCount: nat
    var allData: seq<Row>

    function State(): StoreState
      reads this
    {
      StoreState(csvData, headers, originalData, isLoading, loadingProgress, validationErrors,
                 selectedCells, isValidationMode, processingChunk, rowCount, allData)
    }

    /**
     * Progress is a percentage; the rows of the upload in progress are numbered
     * "0", "1", ... in arrival order; the snapshot never holds two rows with
     * the same `_id`.
     */
    ghost predicate Valid()
      reads this
    {
      && loadingProgress <= 100
      && |allData| == rowCount
      && IdsFrom(allData, 0)
      && UniqueIds(originalData)
    }

    /** The validation records are those of a full pass over the current rows. */
    ghost predicate Validated()
      reads this
    {
      validationErrors == ErrorsOf(csvData, headers)
    }

    /** The store's initial state: empty, not loading, validation display off. */
    constructor ()
      ensures Valid()
      ensures State() == StoreState([], [], [], false, 0, [], [], false, false, 0, [])
    {
      csvData := [];
      headers := [];
      originalData := [];
      isLoading := false;
      loadingProgress := 0;
      validationErrors := [];
      selectedCells := [];
      isValidationMode := false;
      processingChunk := false;
      rowCount := 0;
      allData := [];
    }

    /** The start of `uploadCSV`: everything from an earlier dataset is dropped. */
    method BeginUpload()
      requires Valid()
      modifies this
      ensures Valid()
      ensures State() == old(State()).(isLoading := true, loadingProgress := 0, csvData := [], headers := [],
        originalData := [], validationErrors := [], selectedCells := [], isValidationMode := false)
    {
      isLoading := true;
      loadingProgress := 0;
      csvData := [];
      headers := [];
      originalData := [];
      validationErrors := [];
      selectedCells := [];
      isValidationMode := false;
    }

    /** The header row has been read: headers are stored and the row count starts from zero. */
    method ReceiveHeaders(fields: seq<string>)
      requires Valid()
      modifies this
      ensures Valid()
      ensures State() == old(State()).(headers := fields, rowCount := 0, allData := [])
    {
      headers := fields;
      rowCount := 0;
      allData := [];
    }

    /**
     * A parsed chunk arrives: its rows get the next ids, are appended to the
     * working rows and to the upload's rows, and progress becomes
     * `min(99, floor(100 * rowCount / (rowCount + 100)))`.
     */
    method ReceiveChunk(chunk: seq<Row>)
      requires Valid()
      modifies this
      ensures Valid()
      ensures State() == old(State()).(
        csvData := old(csvData) + WithIds(chunk, old(rowCount)),
        allData := old(allData) + WithIds(chunk, old(rowCount)),
        rowCount := old(rowCount) + |chunk|,
        loadingProgress := Progress(old(rowCount) + |chunk|))
      ensures loadingProgress <= 99
    {
      AppendChunkNumbering(allData, chunk);
      var dataWithIds := WithIds(chunk, rowCount);
      rowCount := rowCount + |chunk|;
      allData := allData + dataWithIds;
      csvData := csvData + dataWithIds;
      loadingProgress := Progress(rowCount);
    }

    /**
     * Parsing finished: the upload's rows become the snapshot, progress snaps
     * to 100, loading ends, and the rows are validated.
     */
    method CompleteUpload()
      requires Valid()
      modifies this
      ensures Valid() && Validated()
      ensures State() == old(State()).(originalData := old(allData), isLoading := false, loadingProgress := 100,
        validationErrors := ErrorsOf(old(csvData), old(headers)), processingChunk := false)
    {
      IdsFromUnique(allData, 0);
      originalData := allData;
      isLoading := false;
      loadingProgress := 100;
      ValidateData();
    }

    /** Parsing failed: loading ends and progress returns to 0; rows already appended stay. */
    method FailUpload()
      requires Valid()
      modifies this
      ensures Valid()
      ensures State() == old(State()).(isLoading := false, loadingProgress := 0)
    {
      isLoading := false;
      loadingProgress := 0;
    }

    /** The validation pass: the records are replaced by those of a full pass over the current rows. */
    method ValidateData()
      requires Valid()
      modifies this
      ensures Valid() && Validated()
      ensures State() == old(State()).(validationErrors := ErrorsOf(old(csvData), old(headers)), processingChunk := false)
    {
      processingChunk := true;
      var errors := ValidationPass(csvData, headers);
      validationErrors := errors;
      processingChunk := false;
    }

    /** `updateCell`: one cell of the first row with that `_id` is written, then the rows are validated. */
    method UpdateCell(rowId: Value, column: string, value: Value)
      requires Valid()
      modifies this
      ensures Valid() && Validated()
      ensures State() == old(State()).(csvData := Edits.SetCell(old(csvData), rowId, column, value),
        validationErrors := ErrorsOf(Edits.SetCell(old(csvData), rowId, column, value), old(headers)),
        processingChunk := false)
    {
      var newData := new Row[|csvData|](i requires 0 <= i < |csvData| reads this => csvData[i]);
      assert newData[..] == csvData;
      Edits.WriteCell(newData, Cell(rowId, column), value);
      csvData := newData[..];
      ValidateData();
    }

    /** `selectCell`: replace the selection, or toggle the cell when additive. */
    method SelectCell(rowId: Value, column: string, isMultiSelect: bool)
      requires Valid()
      modifies this
      ensures Valid()
      ensures State() == old(State()).(selectedCells := Selection.SelectCell(old(selectedCells), rowId, column, isMultiSelect))
      ensures !isMultiSelect ==> selectedCells == [Cell(rowId, column)]
    {
      selectedCells := Selection.SelectCell(selectedCells, rowId, column, isMultiSelect);
    }

    /**
     * `bulkUpdateSelected`: with an empty selection nothing happens; otherwise
     * every selected cell is written with the value, in one pass for at most
     * 1000 cells and in batches of 1000 beyond, and the rows are validated.
     */
    method BulkUpdateSelected(newValue: Value)
      requires Valid()
      modifies this
      ensures Valid()
      ensures old(selectedCells) == [] ==> State() == old(State())
      ensures old(selectedCells) != [] ==> Validated() && State() == old(State()).(
        csvData := Edits.ApplyWrites(old(csvData), old(selectedCells), newValue, None),
        validationErrors := ErrorsOf(Edits.ApplyWrites(old(csvData), old(selectedCells), newValue, None), old(headers)),
        processingChunk := false)
    {
      if |selectedCells| == 0 {
        return;
      }
      var updatedData;
      if |selectedCells| <= Edits.EditBatchSize {
        updatedData := Edits.WriteCellsOnePass(csvData, selectedCells, newValue, None);
      } else {
        updatedData := Edits.WriteCellsBatched(csvData, selectedCells, newValue, None, Edits.EditBatchSize);
      }
      csvData := updatedData;
      ValidateData();
    }

    /**
     * `copyToSelected`: when no row has the source `_id` nothing happens;
     * otherwise the source cell's value is written into every selected cell
     * except the source cell itself, and the rows are validated.
     */
    method CopyToSelected(sourceRowId: Value, sourceColumn: string)
      requires Valid()
      modifies this
      ensures Valid()
      ensures Edits.IndexOfId(old(csvData), sourceRowId) == -1 ==> State() == old(State())
      ensures Edits.IndexOfId(old(csvData), sourceRowId) != -1 ==>
        var sourceValue := Get(old(csvData)[Edits.IndexOfId(old(csvData), sourceRowId)], sourceColumn);
        var written := Edits.ApplyWrites(old(csvData), old(selectedCells), sourceValue, Some(Cell(sourceRowId, sourceColumn)));
        Validated() && State() == old(State()).(csvData := written,
          validationErrors := ErrorsOf(written, old(headers)), processingChunk := false)
    {
      var sourceIndex := Edits.IndexOfId(csvData, sourceRowId);
      if sourceIndex == -1 {
        return;
      }
      var sourceValue := Get(csvData[sourceIndex], sourceColumn);
      var skip := Some(Cell(sourceRowId, sourceColumn));
      var updatedData;
      if |selectedCells| <= Edits.EditBatchSize {
        updatedData := Edits.WriteCellsOnePass(csvData, selectedCells, sourceValue, skip);
      } else {
        updatedData := Edits.WriteCellsBatched(csvData, selectedCells, sourceValue, skip, Edits.EditBatchSize);
      }
      csvData := updatedData;
      ValidateData();
    }

    /** `filterRows`: the working rows are re-derived from the snapshot; the records are not recomputed. */
    method FilterRows(column: string, filterValue: string)
      requires Valid()
      modifies this
      ensures Valid()
      ensures State() == old(State()).(csvData := Filtering.FilterRows(old(originalData), column, filterValue), isLoading := false)
      ensures UniqueIds(csvData)
    {
      isLoading := true;
      csvData := Filtering.FilterRows(originalData, column, filterValue);
      isLoading := false;
      Filtering.FilterKeepsIdsUnique(originalData, column, filterValue);
    }

    /** `sortByColumn`: the working rows are reordered; the records are not recomputed. */
    method SortByColumn(column: string, direction: Sorting.Direction)
      requires Valid()
      modifies this
      ensures Valid()
      ensures State() == old(State()).(csvData := Sorting.SortRows(old(csvData), column, direction), isLoading := false)
      ensures multiset(csvData) == multiset(old(csvData))
    {
      isLoading := true;
      Sorting.SortRowsSpec(csvData, column, direction);
      csvData := Sorting.SortRows(csvData, column, direction);
      isLoading := false;
    }

    /** `resetData`: the working rows become the snapshot again, the selection is emptied, and the rows are validated. */
    method ResetData()
      requires Valid()
      modifies this
      ensures Valid() && Validated()
      ensures State() == old(State()).(csvData := old(originalData), selectedCells := [], isLoading := false,
        validationErrors := ErrorsOf(old(originalData), old(headers)), processingChunk := false)
      ensures csvData == originalData && UniqueIds(csvData)
    {
      isLoading := true;
      csvData := originalData;
      selectedCells := [];
      isLoading := false;
      ValidateData();
    }

    /** `clearData`: back to an empty dataset with validation display off. */
    method ClearData()
      requires Valid()
      modifies this
      ensures Valid()
      ensures State() == old(State()).(csvData := [], headers := [], originalData := [], validationErrors := [],
        selectedCells := [], isValidationMode := false, isLoading := false, loadingProgress := 0)
    {
      csvData := [];
      headers := [];
      originalData := [];
      validationErrors := [];
      selectedCells := [];
      isValidationMode := false;
      isLoading := false;
      loadingProgress := 0;
    }

    /** `toggleValidationMode`. */
    method ToggleValidationMode()
      requires Valid()
      modifies this
      ensures Valid()
      ensures State() == old(State()).(isValidationMode := !old(isValidationMode))
    {
      isValidationMode := !isValidationMode;
    }

    /**
     * `isReadyToImport`: no validation records. When the records are those of
     * the current rows, that is exactly: every cell passes the validator.
     */
    method IsReadyToImport() returns (ready: bool)
      ensures ready <==> validationErrors == []
      ensures Validated() ==> (ready <==>
        forall i, j :: 0 <= i < |csvData| && 0 <= j < |headers| ==> ValidateCell(Get(csvData[i], headers[j]), headers[j]).None?)
    {
      NoErrorsIff(csvData, headers);
      ready := |validationErrors| == 0;
    }

    /** `selectColumn`: the selection becomes every current row's cell in that column, in row order. */
    method SelectColumn(columnName: string)
      requires Valid()
      modifies this
      ensures Valid()
      ensures State() == old(State()).(selectedCells := Selection.ColumnCells(old(csvData), columnName))
      ensures UniqueIds(csvData) ==> Selection.NoDuplicates(selectedCells)
    {
      var columnCells := Selection.SelectColumnCells(csvData, columnName);
      selectedCells := columnCells;
      assert UniqueIds(csvData) ==> Selection.NoDuplicates(selectedCells) by {
        if UniqueIds(csvData) {
          Selection.ColumnCellsSelected(csvData, columnName);
        }
      }
    }

    /** `clearSelection`. */
    method ClearSelection()
      requires Valid()
      modifies this
      ensures Valid()
      ensures State() == old(State()).(selectedCells := [])
    {
      selectedCells := [];
    }
  }
}
