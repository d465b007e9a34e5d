# CSV import grid engine, modelled in Dafny

This project models the state engine of a browser tool that imports a CSV
file into an editable grid, validates its cells and prepares it for import.
It covers:

- the cell validator: a missing value, or a value whose column header
  mentions `email`, `date` or `number`, is checked, and the checks run in a
  fixed order;
- the store that owns the working rows (`csvData`), the `originalData`
  snapshot, the headers, the validation records, the selection and the
  loading flags:
  - ingestion of parsed chunks, with row ids `"0"`, `"1"`, … and a progress
    capped at 99;
  - the validation pass in batches of 500 rows;
  - single-cell edits, and bulk and copy edits, with one-pass and batched
    paths;
  - selection, filtering, sorting, reset and clear;
- two view helpers that read the store:
  - the grid's cell-error and selection lookups, its click and header-click
    handling, and its in-cell editor;
  - the validation summary's grouping by message, its distinct-row count,
    its rounded percentage and its five-entry lists.

Pure logic is modelled as functions with lemmas. The store and the grid's
local state are classes whose methods update their fields. The loops of the
source are methods with loop invariants, each proved against a
specification function:

- the validation batches;
- the edit batches, which write into an array copy of the rows;
- `selectColumn`'s push loop;
- `processInChunks`.

Modules, one file each:

- `Text`: JavaScript's `\s` class, lowercasing, `includes`, decimal digits.
- `Values`: a cell value is a string or `undefined`; a row maps field names
  to values; a selected cell is `{rowId, column}`.
- `Validator`: `validateCell`.
- `Chunks`: `processInChunks`.
- `Validation`: the validation pass.
- `Ingest`: id assignment and progress.
- `Edits`: the cell writes behind `updateCell`, `bulkUpdateSelected` and
  `copyToSelected`.
- `Selection`: `selectCell` and `selectColumn`.
- `Filtering`: `filterRows`.
- `Sorting`: `sortByColumn`.
- `Store`: the store object.
- `Table`: the grid view.
- `Summary`: the validation summary.

## Model

| member | source | states |
|---|---|---|
| Text.DigitsRoundTrip | src/store/csvStore.js:129 | reading back the decimal string `toString` gives for a row number yields that number |
| Text.NatToStringInjective | src/store/csvStore.js:127-130 | distinct row numbers get distinct id strings |
| Validator.ValidateCell | src/store/csvStore.js:35-51 | an undefined or empty value gives `Missing value` for any header; a non-empty value whose lowercased header mentions none of `email`, `date`, `number` gives no error; every outcome has severity `error` |
| Validator.ValidateCellFirstFailure | src/store/csvStore.js:53-68 | for a non-empty value the outcome is the first failing check among those the header calls for, in the order e-mail, date, number; with none failing the result is null |
| Validator.MatchesEmail | src/store/csvStore.js:54 | the e-mail test: a non-empty run without blanks or `@`, the first `@`, then a domain with a `.` that has such a run on each side; Validator.MatchesEmailIff proves it equal to the pattern |
| Validator.IsDate | src/store/csvStore.js:59 | the stand-in for `Date.parse` succeeding: a `YYYY-MM-DD` date with month 1..12 and day 1..31 (a simplification, see below) |
| Validator.ParseNumber | src/store/csvStore.js:64 | the stand-in for `Number`: the empty string reads as 0, an optional sign and decimal digits read as that integer, anything else is NaN (a simplification, see below) |
| Validator.MatchesEmailIff | src/store/csvStore.js:54 | the e-mail matcher accepts exactly what `^[^\s@]+@[^\s@]+\.[^\s@]+$` accepts, written as an existential over the `@` and `.` positions |
| Validator.InvalidEmailIff | src/store/csvStore.js:53-56 | `Invalid email format` is reported iff the value is non-empty, the header mentions `email` and the pattern rejects the value |
| Validator.NoErrorIff | src/store/csvStore.js:46-68 | a cell passes iff its value is non-empty and passes every check its header calls for |
| Validator.MessageInjective | src/store/csvStore.js:50-65 | the four error messages are distinct, so grouping by message is grouping by kind |
| Validator.ParseNumberRoundTrip | src/store/csvStore.js:64 | a property of the integer stand-in for `Number` only, not of the store: it reads every integer's decimal string back as that integer, so the numeric check is not vacuous |
| Chunks.ProcessInChunks | src/store/csvStore.js:10-32 | the processor gets at least one slice; the slices concatenate to `items`; each has at most `chunkSize` elements, all but the last exactly `chunkSize`; an empty list gives one empty slice, otherwise no slice is empty |
| Validation.ValidationPass | src/store/csvStore.js:173-221 | the pass, in 500-row batches with headers in order, collects exactly the records of one full pass over the rows |
| Validation.ValidateRow | src/store/csvStore.js:197-212 | one row's headers, visited in order, push exactly that row's records after those already collected |
| Validation.ValidateBatch | src/store/csvStore.js:195-213 | one batch turns the records of the rows before `start` into the records of the rows before `end` |
| Validation.ErrorsOf | src/store/csvStore.js:180-221 | the records of one full pass: for each row in order, each header in order, one record per failing cell; Validation.ErrorsOfIff, Validation.ErrorsOfRowMajor and Validation.BatchingIrrelevant state its properties |
| Validation.BatchingIrrelevant | src/store/csvStore.js:180-186 | collecting batch by batch, for any batch size, gives the same records as one pass |
| Validation.ErrorsOfIff | src/store/csvStore.js:196-212 | a record is in the result iff it is the record `{rowId, rowIndex, column, value, error, severity}` of some failing (row, header) cell |
| Validation.ErrorsOfRowMajor | src/store/csvStore.js:196-212 | records come in row-major order: row indices never decrease along the list and each is below the number of rows; within a row, records follow the order of the headers; when no header repeats, no two records name the same (row, column) cell |
| Validation.NoErrorsIff | src/store/csvStore.js:196-212 | the pass yields no record iff every cell of every row passes the validator |
| Ingest.AppendChunkNumbering | src/store/csvStore.js:127-138 | after appending a chunk, the uploaded rows still carry ids `"0"`, `"1"`, … in arrival order, and each appended row keeps every parsed field other than `_id` |
| Ingest.IdsFromUnique | src/store/csvStore.js:127-134 | consecutively numbered rows have pairwise distinct ids |
| Ingest.Progress | src/store/csvStore.js:139 | the progress during loading never exceeds 99 |
| Ingest.ProgressMonotone | src/store/csvStore.js:133-139 | the progress never goes down as more rows arrive |
| Ingest.WithIds | src/store/csvStore.js:127-130 | a chunk keeps its length, and each row keeps its parsed fields and gets `_id` the decimal string of the row count plus its position; Ingest.AppendChunkNumbering proves the numbering |
| Edits.IndexOfIdSpec | src/store/csvStore.js:233 | `findIndex` by `_id`: the first row with that id, or -1 iff there is none |
| Edits.SetCell | src/store/csvStore.js:230-246 | `updateCell`'s new row list has as many rows as before; Edits.SetCellFrame states which field changes |
| Edits.SetCellFrame | src/store/csvStore.js:230-246 | only `column` of the first row with the id changes, to the new value; length, order and every other field of every row are kept; with no match nothing changes |
| Edits.ApplyWrites | src/store/csvStore.js:274-337 | the rows after writing the value into every selected cell in selection order, skipping the copy source; Edits.ApplyWritesKeepsIds and Edits.ApplyWritesCells state what it changes |
| Edits.ApplyWritesKeepsIds | src/store/csvStore.js:285-293 | when no written cell is an `_id` field, every row keeps its `_id` through a bulk write |
| Edits.ApplyWritesCells | src/store/csvStore.js:285-293 | when no written cell is an `_id` field, after a bulk write a field some written cell lands on holds the value, and every other field of every row is unchanged |
| Edits.WriteCell | src/store/csvStore.js:286-292 | one write into the array copy leaves it equal to the single-cell update of the old rows |
| Edits.WriteStep | src/store/csvStore.js:285-293 | writing the next selected cell into the array copy (unless it is the skipped source cell) turns the writes of the first n cells into the writes of the first n + 1 |
| Edits.WriteCellsOnePass | src/store/csvStore.js:281-293 | the one-pass path returns the rows after writing every selected cell in selection order, skipping the skipped cell |
| Edits.WriteBatch | src/store/csvStore.js:306-320 | one batch extends the writes done so far by the batch's cells, in order |
| Edits.WriteCellsBatched | src/store/csvStore.js:301-336 | the batched path, for any batch size, returns the same rows as the one-pass path |
| Selection.IndexOfCell | src/store/csvStore.js:259-261 | `findIndex` on the selection: the first matching entry, or -1 iff the cell is not selected |
| Selection.Toggle | src/store/csvStore.js:259-269 | an additive click: the first matching entry is spliced out, or the cell is appended when absent; Selection.ToggleMembership states its effect |
| Selection.SelectCell | src/store/csvStore.js:253-271 | a plain click replaces the selection by the cell, an additive one toggles it; Table.ClickSelection states the effect on what is drawn |
| Selection.ToggleMembership | src/store/csvStore.js:253-270 | on a selection without repeats, an additive click flips the membership of that cell only and keeps the selection free of repeats |
| Selection.ToggleTwiceAbsent | src/store/csvStore.js:263-269 | two additive clicks on an unselected cell restore the very same selection list |
| Selection.ToggleTwice | src/store/csvStore.js:263-269 | on a selection without repeats, two additive clicks on any cell restore the same set of cells and keep the selection free of repeats |
| Selection.SelectColumnCells | src/store/csvStore.js:432-455 | `selectColumn`'s loop yields one entry per current row, in row order, naming that row's `_id` and the column |
| Selection.ColumnCellsSelected | src/store/csvStore.js:442-447 | with distinct row ids, a column selection lists no cell twice and contains every row's cell |
| Filtering.FilterRowsSpec | src/store/csvStore.js:346-357 | the filtered rows are an order-preserving subsequence of the snapshot, holding exactly the snapshot rows whose lowercased `row[column] \|\| ''` contains the lowercased filter; all of them for an empty filter |
| Filtering.Keep | src/store/csvStore.js:351-355 | `originalData.filter(...)`: the rows whose lowercased `row[column] \|\| ''` contains the lowercased filter, in order |
| Filtering.FilterRows | src/store/csvStore.js:346-357 | every snapshot row for an empty filter, otherwise the rows Filtering.Keep keeps; Filtering.FilterRowsSpec states its properties |
| Filtering.EmptyFilterKeepsAll | src/store/csvStore.js:346-348 | the empty filter's shortcut agrees with filtering by the empty string: every snapshot row |
| Filtering.FilterIdempotent | src/store/csvStore.js:340-359 | filtering the filtered rows again with the same filter changes nothing |
| Filtering.FilterKeepsIdsUnique | src/store/csvStore.js:352-355 | filtering a snapshot with distinct ids gives rows with distinct ids |
| Sorting.BeforeStrictOrder | src/store/csvStore.js:369-385 | the comparison used for sorting is a strict order (irreflexive and transitive) in both directions |
| Sorting.KeyOf | src/store/csvStore.js:370-379 | the key the comparator works on: `row[column] \|\| ''` as a number when it reads as one, as text otherwise |
| Sorting.SortRows | src/store/csvStore.js:366-388 | the rows sorted by their keys in the direction, stably; Sorting.SortRowsSpec states its properties |
| Sorting.SortRowsSpec | src/store/csvStore.js:366-388 | the sorted rows are a permutation of the rows, in key order for the direction, and rows sharing a key keep their input order |
| Sorting.NumericColumnOrdered | src/store/csvStore.js:374-378 | when every value in the column is numeric, the result is ordered by number, ascending for `asc` and descending for `desc` |
| Store.DataStore.constructor | src/store/csvStore.js:85-93 | the store starts empty, not loading, at progress 0, with validation display off |
| Store.DataStore.BeginUpload | src/store/csvStore.js:97-106 | starting an upload empties rows, headers, snapshot, records and selection, turns validation display off, and sets loading at progress 0 |
| Store.DataStore.ReceiveHeaders | src/store/csvStore.js:113-119 | the header row sets the headers and restarts the row count and the upload's rows |
| Store.DataStore.ReceiveChunk | src/store/csvStore.js:125-141 | a chunk's rows get the next ids and are appended to the working rows and the upload's rows; progress becomes the capped formula, at most 99; ids stay consecutive |
| Store.DataStore.CompleteUpload | src/store/csvStore.js:142-152 | completion makes the upload's rows the snapshot, ends loading, snaps progress to 100 and validates; the snapshot's ids are distinct |
| Store.DataStore.FailUpload | src/store/csvStore.js:153-160 | a parse error ends loading and resets progress to 0, and keeps the rows already appended |
| Store.DataStore.ValidateData | src/store/csvStore.js:167-224 | validation replaces the records wholesale by those of a full pass over the current rows and headers; nothing else changes |
| Store.DataStore.UpdateCell | src/store/csvStore.js:230-250 | the working rows become the single-cell update; snapshot, selection and the other fields are unchanged; the records are recomputed |
| Store.DataStore.SelectCell | src/store/csvStore.js:253-271 | a plain click makes the selection exactly that cell; an additive click toggles it; nothing else changes |
| Store.DataStore.BulkUpdateSelected | src/store/csvStore.js:274-337 | with an empty selection nothing changes; otherwise every selected cell is written with the value, on either path, and the records are recomputed |
| Store.DataStore.CopyToSelected | src/store/csvStore.js:459-523 | with no row carrying the source id nothing changes; otherwise the source cell's value goes to every selected cell except the source cell, and the records are recomputed |
| Store.DataStore.FilterRows | src/store/csvStore.js:340-359 | the working rows are re-derived from the snapshot by the filter, with distinct ids; the records are not recomputed |
| Store.DataStore.SortByColumn | src/store/csvStore.js:362-390 | the working rows are replaced by their sorted permutation; the records are not recomputed |
| Store.DataStore.ResetData | src/store/csvStore.js:393-405 | the working rows become the snapshot, with distinct ids; the selection is emptied; the records are recomputed |
| Store.DataStore.ClearData | src/store/csvStore.js:408-419 | back to an empty dataset, not loading, at progress 0, with validation display off |
| Store.DataStore.ToggleValidationMode | src/store/csvStore.js:422-424 | the validation display flag flips and nothing else changes |
| Store.DataStore.IsReadyToImport | src/store/csvStore.js:427-429 | ready iff there are no records; with the records of the current rows, that means every cell passes the validator |
| Store.DataStore.SelectColumn | src/store/csvStore.js:432-456 | the selection becomes every current row's cell in the column, in row order, with no repeats when ids are distinct |
| Store.DataStore.ClearSelection | src/store/csvStore.js:526-528 | the selection is emptied and nothing else changes |
| Table.FirstErrorAt | src/components/CSVImport/CSVTable.jsx:24-26 | `find` over the records: the first whose `rowId` and `column` both match, or -1 iff none does |
| Table.GetCellError | src/components/CSVImport/CSVTable.jsx:21-27 | nothing while validation display is off; otherwise a record iff one matches both `rowId` and `column`, and then the first such record |
| Table.CellErrorShownIff | src/components/CSVImport/CSVTable.jsx:21-27 | with validation display on, records from a full pass and distinct row ids, a cell shows a record iff the validator fails it, and the record carries the validator's message |
| Table.IsCellSelected | src/components/CSVImport/CSVTable.jsx:30-34 | true iff some selected entry matches both `rowId` and `column` |
| Table.ClickSelection | src/components/CSVImport/CSVTable.jsx:30-40 | on a selection without repeats, after a click the cell is drawn selected iff the click was plain or it was not selected before; other cells keep their state on an additive click and are cleared on a plain one |
| Table.HeaderClicks | src/components/CSVImport/CSVTable.jsx:54-62 | a header other than the sorted one sorts `asc`; clicking the same header again alternates the direction |
| Table.NextDirection | src/components/CSVImport/CSVTable.jsx:54-60 | the direction a header click sorts by: `asc` for a new header, the other direction for the sorted one; Table.HeaderClicks states its properties |
| Table.GridView.constructor | src/components/CSVImport/CSVTable.jsx:17-18 | no editor open, no sorted header, direction `asc` |
| Table.GridView.HeaderClick | src/components/CSVImport/CSVTable.jsx:54-63 | the header and the next direction are remembered, and the store's rows are sorted by them |
| Table.GridView.CellClick | src/components/CSVImport/CSVTable.jsx:37-40 | the click selects additively iff ctrl or meta is held |
| Table.GridView.CellDoubleClick | src/components/CSVImport/CSVTable.jsx:43-45 | the editor opens on the cell with its current value |
| Table.GridView.EditChange | src/components/CSVImport/CSVTable.jsx:78 | typing replaces the pending value |
| Table.GridView.EditComplete | src/components/CSVImport/CSVTable.jsx:48-51 | the pending value is written into the store's rows, the records are recomputed, and the editor closes |
| Table.GridView.EditKeyDown | src/components/CSVImport/CSVTable.jsx:80-86 | Enter commits the edit exactly as an edit completion does (the whole new store state: the single-cell update, recomputed records, everything else unchanged) and closes the editor; Escape closes the editor without writing; other keys change nothing |
| Summary.GroupErrorsPartition | src/components/CSVImport/ValidationSummary.jsx:9-16 | grouping by message partitions the records: one group per message that occurs and none for a message that does not (every group is non-empty), each holding exactly that message's records in list order; group sizes sum to the number of records |
| Summary.GroupErrors | src/components/CSVImport/ValidationSummary.jsx:9-16 | the `reduce` into groups keyed by message, groups in order of first appearance, each record pushed onto its message's group; Summary.GroupErrorsPartition states its properties |
| Summary.ErrorRowIds | src/components/CSVImport/ValidationSummary.jsx:20 | the set holds exactly the `rowId`s that occur in the records |
| Summary.RowsWithErrors | src/components/CSVImport/ValidationSummary.jsx:20 | the size of the set of `rowId`s in the records; Summary.RowsWithErrorsAtMost and Summary.RowsWithErrorsAtMostRows bound it |
| Summary.RowsWithErrorsAtMost | src/components/CSVImport/ValidationSummary.jsx:20 | the number of rows with errors never exceeds the number of records |
| Summary.RowsWithErrorsAtMostRows | src/components/CSVImport/ValidationSummary.jsx:19-20 | when every record names a current row, the number of rows with errors never exceeds the number of rows |
| Summary.ErrorPercentage | src/components/CSVImport/ValidationSummary.jsx:21 | undefined (NaN, or Infinity when some record names a row) exactly when there are no rows |
| Summary.ErrorPercentageRounds | src/components/CSVImport/ValidationSummary.jsx:21 | the percentage is the nearest integer to `100 * w / t`, halves rounding up |
| Summary.ErrorPercentageBounded | src/components/CSVImport/ValidationSummary.jsx:21 | with at most as many error rows as rows, the percentage lies in 0..100 |
| Summary.SummaryPercentageBounded | src/components/CSVImport/ValidationSummary.jsx:19-21 | when there are rows and every record names a current row, the percentage is defined and at most 100 |
| Summary.Shown | src/components/CSVImport/ValidationSummary.jsx:52 | each group lists a prefix of its records of at most 5 entries, and all of them when there are at most 5 |
| Summary.Overflow | src/components/CSVImport/ValidationSummary.jsx:57-61 | the "…and n more" line appears iff the group has more than 5 records |
| Summary.ShownAndOverflow | src/components/CSVImport/ValidationSummary.jsx:52-61 | the listed entries plus the overflow count make up the group; with an overflow line the first 5 are listed and the rest are counted |

## Left out

- CSV parsing. Papa Parse's tokenizer is a foreign library. Ingestion is
  modelled as three steps: receive the header fields, receive chunks of row
  maps, then complete or fail. `CHUNK_SIZE` is never used by the store.
- Timers. The 300 ms validation debounce, the `setTimeout` yields between
  batches, and the deferred bodies of `filterRows`, `sortByColumn` and
  `resetData` are not modelled. Each batched loop is a plain loop. The
  `isLoading` flag those operations raise is lowered within the same method.
  The no-op `setTimeout` in `selectColumn` has no effect and is dropped.
- Store.DataStore.ValidateData: runs at once wherever the source requests
  it, so a later request never cancels an earlier one. The value
  `validateData` returns (always `true`) is not modelled.
- Store.DataStore.BulkUpdateSelected: operations that interleave between
  batches are not modelled. Neither is the write-back of the snapshot taken
  at call time.
- Store.DataStore.CopyToSelected: the same as for bulk updates.
- Store.DataStore.FilterRows: the validation records are not recomputed, as
  in the source, so afterwards they can name rows that are not current. Then
  the premise of Summary.SummaryPercentageBounded fails and the displayed
  percentage can exceed 100.
- Store.DataStore.SortByColumn: as above, the records are not recomputed.
- Validator.ValidateCell: `Date.parse` is replaced by an ISO `YYYY-MM-DD`
  check with month 1..12 and day 1..31. `Number` is replaced by integer
  literals with an optional sign, where the empty string reads as 0.
  Decimals, exponents, hexadecimal, `Infinity`, surrounding whitespace and
  other engine-accepted date formats are not modelled.
- Text.Lower: lowercases ASCII letters only, not the full Unicode mapping of
  `toLowerCase`.
- Sorting.SortRowsSpec: `Array.prototype.sort` with the source's comparator
  is replaced by a stable insertion sort over one key per value. The key is
  a number when the value reads as one, and text otherwise; numbers sort
  before text. Text compares by character codes, not by `localeCompare`.
  On columns that mix numbers and text, the source's comparator is not a
  consistent order, so its result there is engine-defined and not modelled.
- Ingest.Progress: computed with exact integer division. The source's
  floating-point `Math.floor((rowCount / (rowCount + 100)) * 100)` may
  differ where rounding lands just below an integer.
- Summary.ErrorPercentage: exact rounding of `100 * w / t`, with halves
  rounding up. The source's floating-point `Math.round` may differ at
  values within rounding error of a half. Division by zero (NaN for `0/0`, Infinity otherwise) is `None`.
  The summary is only rendered when there are rows and records.
- Chunks.ProcessInChunks: requires `chunkSize > 0`. With 0 the source never
  finishes on a non-empty list, and calls the processor once with `[]` on
  an empty list; neither case is modelled. The processor callback and the
  returned promise are replaced by returning the slices in call order.
- Deep copies. `JSON.parse(JSON.stringify(...))` copies the snapshot. The
  model copies the values, which every lookup sees identically. The copy
  also drops fields whose value is `undefined`, but no lookup can tell.
- `null` cell values do not arise from parsing. A value is a string or
  `undefined`.
- Rendering, React and zustand wiring, and the toolbar components are not
  modelled. Neither are the cell editor's displayed text and the sort
  indicator.
