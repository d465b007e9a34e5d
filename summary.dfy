/// The validation summary: the error list grouped by message (groups in the
/// order their message first appears, each group's records in list order),
/// the number of distinct rows with errors, the rounded error percentage,
/// and each group's list cut to 5 entries with an "...and n more" line.
module Summary {
  import opened Text
  import opened Values
  import opened Validator
  import opened Validation

  /** One entry of `errorsByType`: a message and the records carrying it. */
  datatype Group = Group(kind: ErrorKind, items: seq<ValidationError>)

  /** How many entries each group lists before the overflow line. */
  const ShownPerGroup: nat := 5

  /** The position of the group for `k`, or -1 when there is none yet. */
  function IndexOfKind(groups: seq<Group>, k: ErrorKind): (i: int)
    ensures -1 <= i < |groups|
    ensures i == -1 <==> forall j :: 0 <= j < |groups| ==> groups[j].kind != k
    ensures 0 <= i ==> groups[i].kind == k
  {
    if groups == [] then -1
    else if groups[|groups| - 1].kind == k then |groups| - 1
    else IndexOfKind(groups[..|groups| - 1], k)
  }

  /** One step of the `reduce`: push onto the record's group, creating it at the end if new. */
  function AddToGroup(groups: seq<Group>, e: ValidationError): seq<Group> {
    var i := IndexOfKind(groups, e.error);
    if i == -1 then groups + [Group(e.error, [e])]
    else groups[i := groups[i].(items := groups[i].items + [e])]
  }

  /** `errorsByType`, as `Object.entries` lists it. */
  function GroupErrors(errors: seq<ValidationError>): seq<Group> {
    if errors == [] then []
    else AddToGroup(GroupErrors(errors[..|errors| - 1]), errors[|errors| - 1])
  }

  /** The records of kind `k`, in list order. */
  function OfKind(errors: seq<ValidationError>, k: ErrorKind): seq<ValidationError> {
    if errors == [] then []
    else OfKind(errors[..|errors| - 1], k) + (if errors[|errors| - 1].error == k then [errors[|errors| - 1]] else [])
  }

  /** The number of records across all groups. */
  function TotalSize(groups: seq<Group>): nat {
    if groups == [] then 0 else TotalSize(groups[..|groups| - 1]) + |groups[|groups| - 1].items|
  }

  /** No kind has two groups. */
  ghost predicate DistinctKinds(groups: seq<Group>) {
    forall i, j :: 0 <= i < j < |groups| ==> groups[i].kind != groups[j].kind
  }

  /** Each group holds the records of its kind in list order, and at least one. */
  ghost predicate GroupsMatch(groups: seq<Group>, errors: seq<ValidationError>) {
    forall i :: 0 <= i < |groups| ==> groups[i].items == OfKind(errors, groups[i].kind) && groups[i].items != []
  }

  /** Every record's kind has a group. */
  ghost predicate Covers(groups: seq<Group>, errors: seq<ValidationError>) {
    forall e :: e in errors ==> IndexOfKind(groups, e.error) != -1
  }

  /** The groups describe `errors` exactly: one group per kind present, holding that kind's records in order. */
  ghost predicate Partitions(groups: seq<Group>, errors: seq<ValidationError>) {
    DistinctKinds(groups) && GroupsMatch(groups, errors) && Covers(groups, errors)
  }

  lemma {:induction false} TotalSizeUpdate(groups: seq<Group>, i: nat, e: ValidationError)
    requires i < |groups|
    ensures TotalSize(groups[i := groups[i].(items := groups[i].items + [e])]) == TotalSize(groups) + 1
  {
    var n := |groups| - 1;
    var updated := groups[i := groups[i].(items := groups[i].items + [e])];
    assert updated[..n] == if i == n then groups[..n] else groups[..n][i := groups[i].(items := groups[i].items + [e])];
    if i < n {
      TotalSizeUpdate(groups[..n], i, e);
    }
  }

  /** Each step of the `reduce` adds exactly one record to the groups. */
  lemma AddToGroupSize(groups: seq<Group>, e: ValidationError)
    ensures TotalSize(AddToGroup(groups, e)) == TotalSize(groups) + 1
  {
    var i := IndexOfKind(groups, e.error);
    if i == -1 {
      assert (groups + [Group(e.error, [e])])[..|groups|] == groups;
    } else {
      TotalSizeUpdate(groups, i, e);
    }
  }

  lemma AddToGroupDistinct(groups: seq<Group>, e: ValidationError)
    requires DistinctKinds(groups)
    ensures DistinctKinds(AddToGroup(groups, e))
  {
  }

  lemma AddToGroupMatch(groups: seq<Group>, errors: seq<ValidationError>, e: ValidationError)
    requires DistinctKinds(groups) && GroupsMatch(groups, errors) && Covers(groups, errors)
    ensures GroupsMatch(AddToGroup(groups, e), errors + [e])
  {
    var all := errors + [e];
    assert all[..|all| - 1] == errors;
    var r := AddToGroup(groups, e);
    var idx := IndexOfKind(groups, e.error);
    forall i | 0 <= i < |r|
      ensures r[i].items == OfKind(all, r[i].kind) && r[i].items != []
    {
      var k := r[i].kind;
      assert OfKind(all, k) == OfKind(errors, k) + (if e.error == k then [e] else []);
      if i < |groups| {
        assert k == groups[i].kind;
        if k == e.error {
          assert i == idx;
        }
      } else {
        assert idx == -1 && k == e.error;
        OfKindMembers(errors, k);
        OfKindAbsent(errors, k);
      }
    }
  }

  lemma AddToGroupCovers(groups: seq<Group>, errors: seq<ValidationError>, e: ValidationError)
    requires Covers(groups, errors)
    ensures Covers(AddToGroup(groups, e), errors + [e])
  {
    var r := AddToGroup(groups, e);
    var idx := IndexOfKind(groups, e.error);
    forall d | d in errors + [e]
      ensures IndexOfKind(r, d.error) != -1
    {
      if d in errors {
        var j := IndexOfKind(groups, d.error);
        assert r[j].kind == d.error;
      } else if idx == -1 {
        assert r[|groups|].kind == e.error;
      } else {
        assert r[idx].kind == e.error;
      }
    }
  }

  lemma {:induction false} GroupErrorsInvariant(errors: seq<ValidationError>)
    ensures Partitions(GroupErrors(errors), errors)
  {
    if errors != [] {
      var init := errors[..|errors| - 1];
      var e := errors[|errors| - 1];
      var g := GroupErrors(init);
      GroupErrorsInvariant(init);
      assert init + [e] == errors;
      AddToGroupDistinct(g, e);
      AddToGroupMatch(g, init, e);
      AddToGroupCovers(g, init, e);
    }
  }

  lemma {:induction false} GroupErrorsSize(errors: seq<ValidationError>)
    ensures TotalSize(GroupErrors(errors)) == |errors|
  {
    if errors != [] {
      var init := errors[..|errors| - 1];
      GroupErrorsSize(init);
      AddToGroupSize(GroupErrors(init), errors[|errors| - 1]);
    }
  }

  lemma {:induction false} OfKindAbsent(errors: seq<ValidationError>, k: ErrorKind)
    requires forall d :: d in errors ==> d.error != k
    ensures OfKind(errors, k) == []
  {
    if errors != [] {
      var init := errors[..|errors| - 1];
      assert forall d :: d in init ==> d in errors;
      OfKindAbsent(init, k);
    }
  }

  lemma {:induction false} OfKindMembers(errors: seq<ValidationError>, k: ErrorKind)
    ensures forall e :: e in OfKind(errors, k) <==> e in errors && e.error == k
  {
    if errors != [] {
      var init := errors[..|errors| - 1];
      OfKindMembers(init, k);
      assert errors == init + [errors[|errors| - 1]];
    }
  }

  /**
   * Grouping partitions the error list: no kind has two groups, each group
   * holds exactly the records of its kind in list order, every record sits
   * in its kind's group, the group sizes add up to the number of records,
   * and no group is empty: a message gets a group only once it occurs.
   */
  lemma GroupErrorsPartition(errors: seq<ValidationError>)
    ensures forall i, j :: 0 <= i < j < |GroupErrors(errors)| ==> GroupErrors(errors)[i].kind != GroupErrors(errors)[j].kind
    ensures forall i :: 0 <= i < |GroupErrors(errors)| ==> GroupErrors(errors)[i].items == OfKind(errors, GroupErrors(errors)[i].kind)
    ensures forall e :: e in errors ==> exists i :: 0 <= i < |GroupErrors(errors)| && e in GroupErrors(errors)[i].items && GroupErrors(errors)[i].kind == e.error
    ensures TotalSize(GroupErrors(errors)) == |errors|
    ensures forall i :: 0 <= i < |GroupErrors(errors)| ==> GroupErrors(errors)[i].items != []
  {
    var g := GroupErrors(errors);
    GroupErrorsInvariant(errors);
    GroupErrorsSize(errors);
    forall e | e in errors
      ensures exists i :: 0 <= i < |g| && e in g[i].items && g[i].kind == e.error
    {
      var i := IndexOfKind(g, e.error);
      OfKindMembers(errors, e.error);
      assert e in g[i].items;
    }
  }

  /** The `rowId`s that occur in the error list, as a set. */
  function ErrorRowIds(errors: seq<ValidationError>): (ids: set<Value>)
    ensures forall x :: x in ids <==> exists e :: e in errors && e.rowId == x
  {
    if errors == [] then {}
    else
      var init := errors[..|errors| - 1];
      assert errors == init + [errors[|errors| - 1]];
      ErrorRowIds(init) + {errors[|errors| - 1].rowId}
  }

  /** `new Set(validationErrors.map(err => err.rowId)).size`. */
  function RowsWithErrors(errors: seq<ValidationError>): nat {
    |ErrorRowIds(errors)|
  }

  /** Rows with errors never outnumber the records. */
  lemma {:induction false} RowsWithErrorsAtMost(errors: seq<ValidationError>)
    ensures RowsWithErrors(errors) <= |errors|
  {
    if errors != [] {
      RowsWithErrorsAtMost(errors[..|errors| - 1]);
    }
  }

  lemma {:induction false} IdSetSize(rows: seq<Row>)
    ensures |IdSet(rows)| <= |rows|
  {
    if rows != [] {
      var init := rows[..|rows| - 1];
      IdSetSize(init);
      assert IdSet(rows) == IdSet(init) + {IdOf(rows[|rows| - 1])} by {
        forall x | x in IdSet(rows) ensures x in IdSet(init) + {IdOf(rows[|rows| - 1])} {
          var i :| 0 <= i < |rows| && IdOf(rows[i]) == x;
          if i < |rows| - 1 { assert IdOf(init[i]) == x; }
        }
        forall x | x in IdSet(init) ensures x in IdSet(rows) {
          var i :| 0 <= i < |init| && IdOf(init[i]) == x;
          assert IdOf(rows[i]) == x;
        }
      }
    }
  }

  /** When every record names a current row, rows with errors never outnumber the rows. */
  lemma RowsWithErrorsAtMostRows(errors: seq<ValidationError>, rows: seq<Row>)
    requires forall e :: e in errors ==> e.rowId in IdSet(rows)
    ensures RowsWithErrors(errors) <= |rows|
  {
    assert ErrorRowIds(errors) <= IdSet(rows);
    SubsetSize(ErrorRowIds(errors), IdSet(rows));
    IdSetSize(rows);
  }

  lemma SubsetSize(a: set<Value>, b: set<Value>)
    requires a <= b
    ensures |a| <= |b|
  {
    assert b == a + (b - a);
  }

  /**
   * `Math.round(rowsWithErrors / totalRows * 100)` in integer arithmetic:
   * halves round up. With no rows the source divides by zero (NaN), which
   * is None here.
   */
  function ErrorPercentage(rowsWithErrors: nat, totalRows: nat): (p: Option<nat>)
    ensures p.None? <==> totalRows == 0
  {
    if totalRows == 0 then None else Some((200 * rowsWithErrors + totalRows) / (2 * totalRows))
  }

  lemma MulLess(x: int, y: int, d: nat)
    requires x < y && d > 0
    ensures x * d < y * d
  {
  }

  /**
   * The percentage is the nearest whole number to `100 * w / t`, halves going
   * up: `p - 1/2 <= 100 * w / t < p + 1/2`.
   */
  lemma ErrorPercentageRounds(w: nat, t: nat)
    requires t > 0
    ensures var p := ErrorPercentage(w, t).value;
      (2 * p - 1) * t <= 200 * w < (2 * p + 1) * t
  {
    var p := ErrorPercentage(w, t).value;
    DivFloor(200 * w + t, 2 * t);
    assert (p + 1) * (2 * t) == p * (2 * t) + 2 * t;
    assert p * (2 * t) == (2 * p) * t;
    assert (2 * p - 1) * t == p * (2 * t) - t;
    assert (2 * p + 1) * t == p * (2 * t) + t;
  }

  /** With at most as many error rows as rows, the percentage lies in 0..100. */
  lemma ErrorPercentageBounded(w: nat, t: nat)
    requires 0 < t && w <= t
    ensures ErrorPercentage(w, t).value <= 100
  {
    var p := ErrorPercentage(w, t).value;
    ErrorPercentageRounds(w, t);
    if p > 100 {
      MulLess(201, 2 * p - 1, t);
    }
  }

  /** The percentage shown for the current rows, when every record names a current row. */
  lemma SummaryPercentageBounded(errors: seq<ValidationError>, rows: seq<Row>)
    requires |rows| > 0
    requires forall e :: e in errors ==> e.rowId in IdSet(rows)
    ensures ErrorPercentage(RowsWithErrors(errors), |rows|).Some?
    ensures ErrorPercentage(RowsWithErrors(errors), |rows|).value <= 100
  {
    RowsWithErrorsAtMostRows(errors, rows);
    ErrorPercentageBounded(RowsWithErrors(errors), |rows|);
  }

  /** `errors.slice(0, 5)`. */
  function Shown(items: seq<ValidationError>): (r: seq<ValidationError>)
    ensures |r| <= ShownPerGroup
    ensures r <= items
    ensures |items| <= ShownPerGroup ==> r == items
  {
    if |items| <= ShownPerGroup then items else items[..ShownPerGroup]
  }

  /** The n of "...and n more", present only when the group is longer than 5. */
  function Overflow(items: seq<ValidationError>): (n: Option<nat>)
    ensures n.Some? <==> |items| > ShownPerGroup
  {
    if |items| > ShownPerGroup then Some(|items| - ShownPerGroup) else None
  }

  /** The listed entries and the overflow count account for the whole group, and no entry is listed past the fifth. */
  lemma ShownAndOverflow(items: seq<ValidationError>)
    ensures |Shown(items)| + (match Overflow(items) case None => 0 case Some(n) => n) == |items|
    ensures Overflow(items).Some? ==> |Shown(items)| == ShownPerGroup && Shown(items) + items[ShownPerGroup..] == items
  {
  }
}
