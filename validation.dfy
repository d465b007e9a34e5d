/// The validation pass inside `validateData`: every row of the working data,
/// then every header in order, is run through the cell validator, and each
/// failing cell yields one error record. The pass walks the rows in batches
/// of 500; the records it collects do not depend on the batch size.
module Validation {
  import opened Values
  import opened Validator

  /** Rows validated per batch. */
  const ValidationBatchSize: nat := 500

  /** `{rowId, rowIndex, column, value, error, severity}`. */
  datatype ValidationError = ValidationError(
    rowId: Value, rowIndex: nat, column: string, value: Value, error: ErrorKind, severity: Severity)

  /** The record one cell contributes: none, or one when the validator fails it. */
  function CellErrors(row: Row, rowIndex: nat, header: string): seq<ValidationError> {
    match ValidateCell(Get(row, header), header)
    case None => []
    case Some(o) => [ValidationError(IdOf(row), rowIndex, header, Get(row, header), o.error, o.severity)]
  }

  /** The records of one row, in header order. */
  function RowErrors(row: Row, rowIndex: nat, headers: seq<string>): seq<ValidationError> {
    if headers == [] then []
    else RowErrors(row, rowIndex, headers[..|headers| - 1]) + CellErrors(row, rowIndex, headers[|headers| - 1])
  }

  /** The records of rows `lo` up to (not including) `hi`, in row-major order. */
  function ErrorsBetween(rows: seq<Row>, headers: seq<string>, lo: nat, hi: nat): seq<ValidationError>
    requires lo <= hi <= |rows|
    decreases hi - lo
  {
    if lo == hi then [] else ErrorsBetween(rows, headers, lo, hi - 1) + RowErrors(rows[hi - 1], hi - 1, headers)
  }

  /** The records of a full pass over `rows`. */
  function ErrorsOf(rows: seq<Row>, headers: seq<string>): seq<ValidationError> {
    ErrorsBetween(rows, headers, 0, |rows|)
  }

  /** The records collected batch by batch, `size` rows at a time, from row `start` on. */
  function Batched(rows: seq<Row>, headers: seq<string>, size: nat, start: nat): seq<ValidationError>
    requires size > 0 && start <= |rows|
    decreases |rows| - start
  {
    if start == |rows| then []
    else
      var end := if start + size < |rows| then start + size else |rows|;
      ErrorsBetween(rows, headers, start, end) + Batched(rows, headers, size, end)
  }

  /** Adjacent ranges of rows contribute their records one after the other. */
  lemma {:induction false} ErrorsSplit(rows: seq<Row>, headers: seq<string>, lo: nat, mid: nat, hi: nat)
    requires lo <= mid <= hi <= |rows|
    ensures ErrorsBetween(rows, headers, lo, mid) + ErrorsBetween(rows, headers, mid, hi)
         == ErrorsBetween(rows, headers, lo, hi)
    decreases hi - mid
  {
    if mid < hi {
      ErrorsSplit(rows, headers, lo, mid, hi - 1);
    }
  }

  /** Batching does not change the result: any batch size gives the records of one full pass. */
  lemma {:induction false} BatchingIrrelevant(rows: seq<Row>, headers: seq<string>, size: nat, start: nat)
    requires size > 0 && start <= |rows|
    ensures Batched(rows, headers, size, start) == ErrorsBetween(rows, headers, start, |rows|)
    decreases |rows| - start
  {
    if start < |rows| {
      var end := if start + size < |rows| then start + size else |rows|;
      BatchingIrrelevant(rows, headers, size, end);
      ErrorsSplit(rows, headers, start, end, |rows|);
    }
  }

  /** Header `j` of `row` fails, and `e` is its record. */
  ghost predicate CellFails(row: Row, rowIndex: nat, headers: seq<string>, j: int, e: ValidationError) {
    0 <= j < |headers| && CellErrors(row, rowIndex, headers[j]) == [e]
  }

  /** `e` is the record of some failing cell of `row`. */
  ghost predicate RowFails(row: Row, rowIndex: nat, headers: seq<string>, e: ValidationError) {
    exists j :: CellFails(row, rowIndex, headers, j, e)
  }

  /** Cell (row `i`, header `j`) fails, and `e` is its record. */
  ghost predicate FailingCell(rows: seq<Row>, headers: seq<string>, i: int, j: int, e: ValidationError) {
    0 <= i < |rows| && CellFails(rows[i], i, headers, j, e)
  }

  /** `e` is the record of some failing cell in the first `hi` rows. */
  ghost predicate FailingBefore(rows: seq<Row>, headers: seq<string>, hi: int, e: ValidationError) {
    exists i, j :: 0 <= i < hi && FailingCell(rows, headers, i, j, e)
  }

  /** The error record of some failing cell. */
  ghost predicate IsCellError(rows: seq<Row>, headers: seq<string>, e: ValidationError) {
    exists i, j :: FailingCell(rows, headers, i, j, e)
  }

  lemma {:induction false} RowErrorsIff(row: Row, rowIndex: nat, headers: seq<string>, e: ValidationError)
    ensures e in RowErrors(row, rowIndex, headers) <==> RowFails(row, rowIndex, headers, e)
  {
    if headers != [] {
      var n := |headers| - 1;
      var init := headers[..n];
      assert RowErrors(row, rowIndex, headers) == RowErrors(row, rowIndex, init) + CellErrors(row, rowIndex, headers[n]);
      RowErrorsIff(row, rowIndex, init, e);
      if e in RowErrors(row, rowIndex, init) {
        var j :| CellFails(row, rowIndex, init, j, e);
        assert CellFails(row, rowIndex, headers, j, e);
      } else if e in CellErrors(row, rowIndex, headers[n]) {
        assert CellFails(row, rowIndex, headers, n, e);
      }
      if RowFails(row, rowIndex, headers, e) {
        var j :| CellFails(row, rowIndex, headers, j, e);
        if j < n {
          assert CellFails(row, rowIndex, init, j, e);
        }
      }
    }
  }

  /** One more row: a record of the first `n + 1` rows is one of the first `n` or one of row `n`. */
  lemma FailingBeforeStep(rows: seq<Row>, headers: seq<string>, n: nat, e: ValidationError)
    requires n < |rows|
    ensures FailingBefore(rows, headers, n + 1, e) <==>
      FailingBefore(rows, headers, n, e) || RowFails(rows[n], n, headers, e)
  {
    if FailingBefore(rows, headers, n + 1, e) {
      var i, j :| 0 <= i < n + 1 && FailingCell(rows, headers, i, j, e);
      if i < n {
        assert FailingBefore(rows, headers, n, e);
      } else {
        assert CellFails(rows[n], n, headers, j, e);
      }
    }
    if RowFails(rows[n], n, headers, e) {
      var j :| CellFails(rows[n], n, headers, j, e);
      assert FailingCell(rows, headers, n, j, e);
    }
    if FailingBefore(rows, headers, n, e) {
      var i, j :| 0 <= i < n && FailingCell(rows, headers, i, j, e);
      assert 0 <= i < n + 1;
    }
  }

  lemma {:induction false} ErrorsBetweenIff(rows: seq<Row>, headers: seq<string>, hi: nat, e: ValidationError)
    requires hi <= |rows|
    ensures e in ErrorsBetween(rows, headers, 0, hi) <==> FailingBefore(rows, headers, hi, e)
  {
    if hi > 0 {
      var n := hi - 1;
      var prev := ErrorsBetween(rows, headers, 0, n);
      var last := RowErrors(rows[n], n, headers);
      assert ErrorsBetween(rows, headers, 0, hi) == prev + last;
      ErrorsBetweenIff(rows, headers, n, e);
      RowErrorsIff(rows[n], n, headers, e);
      FailingBeforeStep(rows, headers, n, e);
    }
  }

  /**
   * A full pass yields a record exactly for the failing cells: every record
   * belongs to some failing (row, header) cell, and every failing cell's
   * record is there.
   */
  lemma ErrorsOfIff(rows: seq<Row>, headers: seq<string>, e: ValidationError)
    ensures e in ErrorsOf(rows, headers) <==> IsCellError(rows, headers, e)
  {
    ErrorsBetweenIff(rows, headers, |rows|, e);
    if IsCellError(rows, headers, e) {
      var i, j :| FailingCell(rows, headers, i, j, e);
      assert 0 <= i < |rows|;
    }
    if FailingBefore(rows, headers, |rows|, e) {
      var i, j :| 0 <= i < |rows| && FailingCell(rows, headers, i, j, e);
    }
  }

  /** A full pass yields no record exactly when every cell of every row passes the validator. */
  lemma NoErrorsIff(rows: seq<Row>, headers: seq<string>)
    ensures ErrorsOf(rows, headers) == [] <==>
      forall i, j :: 0 <= i < |rows| && 0 <= j < |headers| ==> ValidateCell(Get(rows[i], headers[j]), headers[j]).None?
  {
    var errs := ErrorsOf(rows, headers);
    if errs != [] {
      ErrorsOfIff(rows, headers, errs[0]);
      assert errs[0] in errs;
    }
    forall i, j | 0 <= i < |rows| && 0 <= j < |headers| && ValidateCell(Get(rows[i], headers[j]), headers[j]).Some?
      ensures errs != []
    {
      var e := CellErrors(rows[i], i, headers[j])[0];
      assert FailingCell(rows, headers, i, j, e);
      ErrorsOfIff(rows, headers, e);
    }
  }

  /** Row indices never decrease along `errs`. */
  ghost predicate RowOrdered(errs: seq<ValidationError>) {
    forall p, q :: 0 <= p < q < |errs| ==> errs[p].rowIndex <= errs[q].rowIndex
  }

  /** Every record of `errs` is from a row before `hi`. */
  ghost predicate RowsBefore(errs: seq<ValidationError>, hi: nat) {
    forall e :: e in errs ==> e.rowIndex < hi
  }

  lemma {:induction false} RowErrorsAt(row: Row, rowIndex: nat, headers: seq<string>)
    ensures forall e :: e in RowErrors(row, rowIndex, headers) ==> e.rowIndex == rowIndex
  {
    if headers != [] {
      RowErrorsAt(row, rowIndex, headers[..|headers| - 1]);
    }
  }

  /** Appending the records of row `n` to ordered records of earlier rows keeps them ordered. */
  lemma AppendRowOrdered(a: seq<ValidationError>, b: seq<ValidationError>, n: nat)
    requires RowOrdered(a) && RowsBefore(a, n)
    requires forall e :: e in b ==> e.rowIndex == n
    ensures RowOrdered(a + b) && RowsBefore(a + b, n + 1)
  {
    var c := a + b;
    forall p, q | 0 <= p < q < |c|
      ensures c[p].rowIndex <= c[q].rowIndex
    {
      assert c[q] in b || q < |a|;
      if q >= |a| {
        assert c[q] == b[q - |a|];
        if p < |a| {
          assert c[p] in a;
        } else {
          assert c[p] == b[p - |a|];
        }
      }
    }
  }

  lemma {:induction false} ErrorsBetweenOrdered(rows: seq<Row>, headers: seq<string>, hi: nat)
    requires hi <= |rows|
    ensures RowOrdered(ErrorsBetween(rows, headers, 0, hi)) && RowsBefore(ErrorsBetween(rows, headers, 0, hi), hi)
  {
    if hi > 0 {
      ErrorsBetweenOrdered(rows, headers, hi - 1);
      RowErrorsAt(rows[hi - 1], hi - 1, headers);
      AppendRowOrdered(ErrorsBetween(rows, headers, 0, hi - 1), RowErrors(rows[hi - 1], hi - 1, headers), hi - 1);
    }
  }

  /** Header `x` sits at an earlier position of `headers` than header `y`. */
  ghost predicate HeadersBefore(headers: seq<string>, x: string, y: string) {
    exists a, b :: 0 <= a < b < |headers| && headers[a] == x && headers[b] == y
  }

  /** Within each row, records follow the order of `headers`. */
  ghost predicate HeaderOrdered(errs: seq<ValidationError>, headers: seq<string>) {
    forall p, q :: 0 <= p < q < |errs| && errs[p].rowIndex == errs[q].rowIndex ==>
      HeadersBefore(headers, errs[p].column, errs[q].column)
  }

  /** No header appears twice. */
  predicate DistinctHeaders(headers: seq<string>) {
    forall a, b :: 0 <= a < b < |headers| ==> headers[a] != headers[b]
  }

  lemma {:induction false} RowErrorsHeaderOrder(row: Row, rowIndex: nat, headers: seq<string>)
    ensures HeaderOrdered(RowErrors(row, rowIndex, headers), headers)
    ensures forall e :: e in RowErrors(row, rowIndex, headers) ==> e.column in headers
  {
    if headers != [] {
      var n := |headers| - 1;
      var init := headers[..n];
      var r0 := RowErrors(row, rowIndex, init);
      var last := CellErrors(row, rowIndex, headers[n]);
      var r := r0 + last;
      assert RowErrors(row, rowIndex, headers) == r;
      RowErrorsHeaderOrder(row, rowIndex, init);
      forall e | e in r
        ensures e.column in headers
      {
        if e in r0 {
          var a :| 0 <= a < |init| && init[a] == e.column;
          assert headers[a] == e.column;
        }
      }
      forall p, q | 0 <= p < q < |r|
        ensures r[p].rowIndex == r[q].rowIndex ==> HeadersBefore(headers, r[p].column, r[q].column)
      {
        assert r[p] == r0[p];
        if q < |r0| {
          assert r[q] == r0[q];
          if r[p].rowIndex == r[q].rowIndex {
            var a, b :| 0 <= a < b < |init| && init[a] == r[p].column && init[b] == r[q].column;
            assert headers[a] == init[a] && headers[b] == init[b];
          }
        } else {
          assert r[q] == last[q - |r0|];
          assert r0[p] in r0;
          var a :| 0 <= a < |init| && init[a] == r[p].column;
          assert headers[a] == init[a] && headers[n] == r[q].column;
        }
      }
    }
  }

  /** Records of row `n` appended after records of earlier rows keep each row's header order. */
  lemma AppendRowHeaderOrdered(a: seq<ValidationError>, b: seq<ValidationError>, n: nat, headers: seq<string>)
    requires HeaderOrdered(a, headers) && HeaderOrdered(b, headers) && RowsBefore(a, n)
    requires forall e :: e in b ==> e.rowIndex == n
    ensures HeaderOrdered(a + b, headers)
  {
    var c := a + b;
    forall p, q | 0 <= p < q < |c|
      ensures c[p].rowIndex == c[q].rowIndex ==> HeadersBefore(headers, c[p].column, c[q].column)
    {
      if q < |a| {
        assert c[p] == a[p] && c[q] == a[q];
      } else if p >= |a| {
        assert c[p] == b[p - |a|] && c[q] == b[q - |a|];
      } else {
        assert c[p] == a[p] && a[p] in a;
        assert c[q] == b[q - |a|] && b[q - |a|] in b;
        assert c[p].rowIndex != c[q].rowIndex;
      }
    }
  }

  lemma {:induction false} ErrorsBetweenHeaderOrder(rows: seq<Row>, headers: seq<string>, hi: nat)
    requires hi <= |rows|
    ensures HeaderOrdered(ErrorsBetween(rows, headers, 0, hi), headers)
  {
    if hi > 0 {
      ErrorsBetweenHeaderOrder(rows, headers, hi - 1);
      ErrorsBetweenOrdered(rows, headers, hi - 1);
      RowErrorsAt(rows[hi - 1], hi - 1, headers);
      RowErrorsHeaderOrder(rows[hi - 1], hi - 1, headers);
      AppendRowHeaderOrdered(ErrorsBetween(rows, headers, 0, hi - 1), RowErrors(rows[hi - 1], hi - 1, headers), hi - 1, headers);
    }
  }

  /**
   * Records come in row-major order: row indices never decrease along the
   * list and all are rows of the pass; within a row, records follow the
   * order of `headers`; and when no header repeats, no two records name the
   * same cell, so each failing cell has exactly one record.
   */
  lemma ErrorsOfRowMajor(rows: seq<Row>, headers: seq<string>)
    ensures forall p, q :: 0 <= p < q < |ErrorsOf(rows, headers)| ==>
      ErrorsOf(rows, headers)[p].rowIndex <= ErrorsOf(rows, headers)[q].rowIndex
    ensures forall e :: e in ErrorsOf(rows, headers) ==> e.rowIndex < |rows|
    ensures HeaderOrdered(ErrorsOf(rows, headers), headers)
    ensures DistinctHeaders(headers) ==> forall p, q :: 0 <= p < q < |ErrorsOf(rows, headers)| ==>
      !(ErrorsOf(rows, headers)[p].rowIndex == ErrorsOf(rows, headers)[q].rowIndex
        && ErrorsOf(rows, headers)[p].column == ErrorsOf(rows, headers)[q].column)
  {
    var errs := ErrorsOf(rows, headers);
    ErrorsBetweenOrdered(rows, headers, |rows|);
    ErrorsBetweenHeaderOrder(rows, headers, |rows|);
    if DistinctHeaders(headers) {
      forall p, q | 0 <= p < q < |errs| && errs[p].rowIndex == errs[q].rowIndex
        ensures errs[p].column != errs[q].column
      {
        var a, b :| 0 <= a < b < |headers| && headers[a] == errs[p].column && headers[b] == errs[q].column;
      }
    }
  }

  lemma RowErrorsSnoc(row: Row, rowIndex: nat, headers: seq<string>, j: nat)
    requires j < |headers|
    ensures RowErrors(row, rowIndex, headers[..j + 1])
         == RowErrors(row, rowIndex, headers[..j]) + CellErrors(row, rowIndex, headers[j])
  {
    assert headers[..j + 1][..j] == headers[..j];
  }

  /** One row of a batch: each header in order, pushing a record for each failing cell. */
  method ValidateRow(errors: seq<ValidationError>, row: Row, rowIndex: nat, headers: seq<string>)
    returns (pushed: seq<ValidationError>)
    ensures pushed == errors + RowErrors(row, rowIndex, headers)
  {
    pushed := errors;
    var j := 0;
    while j < |headers|
      invariant 0 <= j <= |headers|
      invariant pushed == errors + RowErrors(row, rowIndex, headers[..j])
    {
      var header := headers[j];
      var value := Get(row, header);
      var result := ValidateCell(value, header);
      RowErrorsSnoc(row, rowIndex, headers, j);
      if result.Some? {
        pushed := pushed + [ValidationError(IdOf(row), rowIndex, header, value, result.value.error, result.value.severity)];
      }
      j := j + 1;
    }
    assert headers[..j] == headers;
  }

  /** One batch: rows `start` up to `end`, in order. */
  method ValidateBatch(errors: seq<ValidationError>, rows: seq<Row>, headers: seq<string>, start: nat, end: nat)
    returns (pushed: seq<ValidationError>)
    requires start <= end <= |rows|
    requires errors == ErrorsBetween(rows, headers, 0, start)
    ensures pushed == ErrorsBetween(rows, headers, 0, end)
  {
    pushed := errors;
    var rowIndex := start;
    while rowIndex < end
      invariant start <= rowIndex <= end
      invariant pushed == ErrorsBetween(rows, headers, 0, rowIndex)
    {
      pushed := ValidateRow(pushed, rows[rowIndex], rowIndex, headers);
      rowIndex := rowIndex + 1;
    }
  }

  /**
   * The pass as `validateData` runs it: batches of 500 rows, each row's
   * headers in order, pushing one record per failing cell.
   */
  method ValidationPass(rows: seq<Row>, headers: seq<string>) returns (errors: seq<ValidationError>)
    ensures errors == ErrorsOf(rows, headers)
  {
    errors := [];
    var currentChunk := 0;
    while currentChunk * ValidationBatchSize < |rows|
      invariant currentChunk * ValidationBatchSize <= |rows|
      invariant errors == ErrorsBetween(rows, headers, 0, currentChunk * ValidationBatchSize)
      decreases |rows| - currentChunk * ValidationBatchSize
    {
      var start := currentChunk * ValidationBatchSize;
      var end := if start + ValidationBatchSize < |rows| then start + ValidationBatchSize else |rows|;
      errors := ValidateBatch(errors, rows, headers, start, end);
      if end == |rows| {
        // the next call finds start >= csvData.length and finishes
        return;
      }
      currentChunk := currentChunk + 1;
    }
  }
}
