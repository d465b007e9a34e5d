/// `filterRows(column, filterValue)`: the working rows are re-derived from
/// the original snapshot, never from the current view. An empty filter gives
/// the whole snapshot; otherwise the rows whose cell, read as
/// `String(row[column] || '')` and lower-cased, contains the lower-cased
/// filter text, in snapshot order.
module Filtering {
  import opened Text
  import opened Values

  /** The row passes the filter on `column`. */
  predicate Matches(row: Row, column: string, filterValue: string) {
    Contains(Lower(OrEmpty(Get(row, column))), Lower(filterValue))
  }

  /** `rows.filter(row => Matches(row, column, filterValue))`. */
  function Keep(rows: seq<Row>, column: string, filterValue: string): seq<Row> {
    if rows == [] then []
    else (if Matches(rows[0], column, filterValue) then [rows[0]] else []) + Keep(rows[1..], column, filterValue)
  }

  /** The rows `filterRows` installs as the working data. */
  function FilterRows(original: seq<Row>, column: string, filterValue: string): seq<Row> {
    if filterValue == "" then original else Keep(original, column, filterValue)
  }

  /** `a` is `b` with some elements left out, order kept. */
  ghost predicate IsSubsequence(a: seq<Row>, b: seq<Row>)
    decreases |b|
  {
    if a == [] then true
    else if b == [] then false
    else (a[0] == b[0] && IsSubsequence(a[1..], b[1..])) || IsSubsequence(a, b[1..])
  }

  lemma {:induction false} KeepSubsequence(rows: seq<Row>, column: string, filterValue: string)
    ensures IsSubsequence(Keep(rows, column, filterValue), rows)
  {
    if rows != [] {
      var rest := Keep(rows[1..], column, filterValue);
      KeepSubsequence(rows[1..], column, filterValue);
      if Matches(rows[0], column, filterValue) {
        assert ([rows[0]] + rest)[1..] == rest;
      } else {
        assert Keep(rows, column, filterValue) == rest;
        SubsequenceDrop(rest, rows);
      }
    }
  }

  lemma {:induction false} SubsequenceDrop(a: seq<Row>, b: seq<Row>)
    requires b != [] && IsSubsequence(a, b[1..])
    ensures IsSubsequence(a, b)
  {
  }

  lemma {:induction false} KeepMembers(rows: seq<Row>, column: string, filterValue: string)
    ensures forall r :: r in Keep(rows, column, filterValue) <==> r in rows && Matches(r, column, filterValue)
  {
    if rows != [] {
      KeepMembers(rows[1..], column, filterValue);
      assert forall r :: r in rows <==> r == rows[0] || r in rows[1..];
    }
  }

  lemma {:induction false} KeepAll(rows: seq<Row>, column: string, filterValue: string)
    requires forall i :: 0 <= i < |rows| ==> Matches(rows[i], column, filterValue)
    ensures Keep(rows, column, filterValue) == rows
  {
    if rows != [] {
      KeepAll(rows[1..], column, filterValue);
      assert [rows[0]] + rows[1..] == rows;
    }
  }

  /**
   * Filtering yields an order-preserving subsequence of the snapshot that
   * holds exactly the snapshot rows that pass the filter (all of them when
   * the filter is empty).
   */
  lemma FilterRowsSpec(original: seq<Row>, column: string, filterValue: string)
    ensures IsSubsequence(FilterRows(original, column, filterValue), original)
    ensures forall r :: r in FilterRows(original, column, filterValue) <==>
      r in original && (filterValue == "" || Matches(r, column, filterValue))
  {
    if filterValue == "" {
      EmptyFilterKeepsAll(original, column);
    }
    KeepSubsequence(original, column, filterValue);
    KeepMembers(original, column, filterValue);
  }

  /** The empty filter passes every row, so it agrees with the explicit shortcut. */
  lemma EmptyFilterKeepsAll(original: seq<Row>, column: string)
    ensures Keep(original, column, "") == original
    ensures FilterRows(original, column, "") == original
  {
    forall i | 0 <= i < |original|
      ensures Matches(original[i], column, "")
    {
      assert OccursAt(Lower(OrEmpty(Get(original[i], column))), "", 0);
    }
    KeepAll(original, column, "");
  }

  /** Filtering the filtered rows again with the same filter changes nothing. */
  lemma FilterIdempotent(original: seq<Row>, column: string, filterValue: string)
    ensures FilterRows(FilterRows(original, column, filterValue), column, filterValue)
         == FilterRows(original, column, filterValue)
  {
    if filterValue != "" {
      var once := Keep(original, column, filterValue);
      KeepMembers(original, column, filterValue);
      assert forall i :: 0 <= i < |once| ==> once[i] in once;
      KeepAll(once, column, filterValue);
    }
  }

  lemma {:induction false} SubsequenceMembers(a: seq<Row>, b: seq<Row>)
    requires IsSubsequence(a, b)
    ensures forall x :: x in a ==> x in b
    decreases |b|
  {
    if a != [] {
      if a[0] == b[0] && IsSubsequence(a[1..], b[1..]) {
        SubsequenceMembers(a[1..], b[1..]);
        assert forall x :: x in a ==> x == a[0] || x in a[1..];
      } else {
        SubsequenceMembers(a, b[1..]);
      }
    }
  }

  lemma {:induction false} SubsequenceUnique(a: seq<Row>, b: seq<Row>)
    requires IsSubsequence(a, b) && UniqueIds(b)
    ensures UniqueIds(a)
    decreases |b|
  {
    if a != [] {
      assert UniqueIds(b[1..]) by {
        forall i, j | 0 <= i < j < |b[1..]| ensures IdOf(b[1..][i]) != IdOf(b[1..][j]) {
          assert b[1..][i] == b[i + 1] && b[1..][j] == b[j + 1];
        }
      }
      if a[0] == b[0] && IsSubsequence(a[1..], b[1..]) {
        SubsequenceUnique(a[1..], b[1..]);
        SubsequenceMembers(a[1..], b[1..]);
        forall k | 0 < k < |a|
          ensures IdOf(a[0]) != IdOf(a[k])
        {
          assert a[1..][k - 1] == a[k];
          assert a[k] in a[1..];
          var m :| 0 <= m < |b[1..]| && b[1..][m] == a[k];
          assert b[m + 1] == a[k];
        }
        forall i, j | 0 <= i < j < |a|
          ensures IdOf(a[i]) != IdOf(a[j])
        {
          if i > 0 {
            assert a[1..][i - 1] == a[i] && a[1..][j - 1] == a[j];
          }
        }
      } else {
        SubsequenceUnique(a, b[1..]);
      }
    }
  }

  /** Filtering a snapshot whose ids are distinct gives rows whose ids are distinct. */
  lemma FilterKeepsIdsUnique(original: seq<Row>, column: string, filterValue: string)
    requires UniqueIds(original)
    ensures UniqueIds(FilterRows(original, column, filterValue))
  {
    FilterRowsSpec(original, column, filterValue);
    SubsequenceUnique(FilterRows(original, column, filterValue), original);
  }
}
