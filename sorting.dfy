/// `sortByColumn(column, direction)`: a stable sort of the working rows by
/// the value `row[column] || ''`. Each value is read once as a sort key: a
/// number when `Number(value)` parses, text otherwise. Numbers order by
/// value; text orders by character codes; numbers come before text. 'desc'
/// reverses the order of keys, and rows with equal keys keep their input
/// order in both directions.
module Sorting {
  import opened Values
  import opened Validator

  datatype Direction = Asc | Desc

  datatype SortKey = Num(n: int) | Str(s: string)

  /** The key of a row: `Number(row[column] || '')` when that is a number, the text otherwise. */
  function KeyOf(row: Row, column: string): SortKey {
    var s := OrEmpty(Get(row, column));
    match ParseNumber(s)
    case Some(n) => Num(n)
    case None => Str(s)
  }

  /** Lexicographic order on character codes. */
  predicate StrLess(a: string, b: string) {
    if a == [] then b != []
    else if b == [] then false
    else a[0] < b[0] || (a[0] == b[0] && StrLess(a[1..], b[1..]))
  }

  predicate KeyLess(a: SortKey, b: SortKey) {
    match (a, b)
    case (Num(x), Num(y)) => x < y
    case (Num(_), Str(_)) => true
    case (Str(_), Num(_)) => false
    case (Str(x), Str(y)) => StrLess(x, y)
  }

  /** Key `a` goes strictly before key `b` in the given direction. */
  predicate Before(a: SortKey, b: SortKey, dir: Direction) {
    if dir == Asc then KeyLess(a, b) else KeyLess(b, a)
  }

  lemma {:induction false} StrLessIrreflexive(a: string)
    ensures !StrLess(a, a)
  {
    if a != [] {
      StrLessIrreflexive(a[1..]);
    }
  }

  lemma {:induction false} StrLessTransitive(a: string, b: string, c: string)
    requires StrLess(a, b) && StrLess(b, c)
    ensures StrLess(a, c)
  {
    if a != [] && a[0] == b[0] && b[0] == c[0] {
      StrLessTransitive(a[1..], b[1..], c[1..]);
    }
  }

  /** `Before` is a strict order: irreflexive and transitive. */
  lemma BeforeStrictOrder(a: SortKey, b: SortKey, c: SortKey, dir: Direction)
    ensures !Before(a, a, dir)
    ensures Before(a, b, dir) && Before(b, c, dir) ==> Before(a, c, dir)
  {
    if a.Str? {
      StrLessIrreflexive(a.s);
    }
    if a.Str? && b.Str? && c.Str? {
      if StrLess(a.s, b.s) && StrLess(b.s, c.s) {
        StrLessTransitive(a.s, b.s, c.s);
      }
      if StrLess(c.s, b.s) && StrLess(b.s, a.s) {
        StrLessTransitive(c.s, b.s, a.s);
      }
    }
  }

  /** The key the comparator reads from each row for `column`. */
  function ColumnKey(column: string): Row -> SortKey {
    row => KeyOf(row, column)
  }

  /** Place `x` after every row whose key is not strictly after its own. */
  function Insert(x: Row, s: seq<Row>, key: Row -> SortKey, dir: Direction): seq<Row> {
    if s == [] then [x]
    else if Before(key(x), key(s[0]), dir) then [x] + s
    else [s[0]] + Insert(x, s[1..], key, dir)
  }

  /** A stable insertion sort by `key`. */
  function SortBy(rows: seq<Row>, key: Row -> SortKey, dir: Direction): seq<Row> {
    if rows == [] then []
    else Insert(rows[|rows| - 1], SortBy(rows[..|rows| - 1], key, dir), key, dir)
  }

  /** The rows `sortByColumn` installs. */
  function SortRows(rows: seq<Row>, column: string, dir: Direction): seq<Row> {
    SortBy(rows, ColumnKey(column), dir)
  }

  /** No row is strictly after a later row. */
  ghost predicate Sorted(s: seq<Row>, key: Row -> SortKey, dir: Direction) {
    forall i, j :: 0 <= i < j < |s| ==> !Before(key(s[j]), key(s[i]), dir)
  }

  /** `[x]` when `x` has key `k`, otherwise nothing. */
  function KeyedSingleton(x: Row, key: Row -> SortKey, k: SortKey): seq<Row> {
    if key(x) == k then [x] else []
  }

  /** The rows with sort key `k`, in order. */
  function WithKey(s: seq<Row>, key: Row -> SortKey, k: SortKey): seq<Row> {
    if s == [] then [] else KeyedSingleton(s[0], key, k) + WithKey(s[1..], key, k)
  }

  lemma {:induction false} InsertPermutes(x: Row, s: seq<Row>, key: Row -> SortKey, dir: Direction)
    ensures multiset(Insert(x, s, key, dir)) == multiset(s) + multiset{x}
  {
    if s == [] {
      assert Insert(x, s, key, dir) == [x];
    } else if Before(key(x), key(s[0]), dir) {
      assert Insert(x, s, key, dir) == [x] + s;
    } else {
      var rest := Insert(x, s[1..], key, dir);
      InsertPermutes(x, s[1..], key, dir);
      assert Insert(x, s, key, dir) == [s[0]] + rest;
      assert s == [s[0]] + s[1..];
      assert multiset([s[0]] + rest) == multiset([s[0]]) + multiset(rest);
      assert multiset(s) == multiset([s[0]]) + multiset(s[1..]);
    }
  }

  /** Every row of the result is `x` or a row of `s`. */
  lemma {:induction false} InsertMembers(x: Row, s: seq<Row>, key: Row -> SortKey, dir: Direction)
    ensures forall y :: y in Insert(x, s, key, dir) ==> y == x || y in s
  {
    if s != [] && !Before(key(x), key(s[0]), dir) {
      InsertMembers(x, s[1..], key, dir);
      assert forall y :: y in s[1..] ==> y in s;
    }
  }

  /** `x` goes at the front: it is strictly before the first row, hence before none of them is after it. */
  lemma InsertSortedFront(x: Row, s: seq<Row>, key: Row -> SortKey, dir: Direction)
    requires Sorted(s, key, dir) && s != [] && Before(key(x), key(s[0]), dir)
    ensures Sorted([x] + s, key, dir)
  {
    var r := [x] + s;
    forall i, j | 0 <= i < j < |r|
      ensures !Before(key(r[j]), key(r[i]), dir)
    {
      if i == 0 {
        assert r[j] == s[j - 1];
        BeforeStrictOrder(key(r[j]), key(x), key(s[0]), dir);
        BeforeStrictOrder(key(s[0]), key(x), key(s[0]), dir);
      } else {
        assert r[i] == s[i - 1] && r[j] == s[j - 1];
      }
    }
  }

  /** `x` goes after the first row: the first row is before none of the rest. */
  lemma InsertSortedStep(x: Row, s: seq<Row>, key: Row -> SortKey, dir: Direction, rest: seq<Row>)
    requires Sorted(s, key, dir) && s != [] && !Before(key(x), key(s[0]), dir)
    requires Sorted(rest, key, dir)
    requires forall y :: y in rest ==> y == x || y in s[1..]
    ensures Sorted([s[0]] + rest, key, dir)
  {
    var r := [s[0]] + rest;
    forall i, j | 0 <= i < j < |r|
      ensures !Before(key(r[j]), key(r[i]), dir)
    {
      assert r[j] == rest[j - 1];
      if i == 0 {
        assert r[j] in rest;
        if r[j] != x {
          var m :| 0 <= m < |s[1..]| && s[1..][m] == r[j];
          assert s[m + 1] == r[j];
        }
      } else {
        assert r[i] == rest[i - 1];
      }
    }
  }

  lemma {:induction false} InsertSorted(x: Row, s: seq<Row>, key: Row -> SortKey, dir: Direction)
    requires Sorted(s, key, dir)
    ensures Sorted(Insert(x, s, key, dir), key, dir)
  {
    if s == [] {
    } else if Before(key(x), key(s[0]), dir) {
      InsertSortedFront(x, s, key, dir);
    } else {
      var rest := Insert(x, s[1..], key, dir);
      SortedTail(s, key, dir);
      InsertSorted(x, s[1..], key, dir);
      InsertMembers(x, s[1..], key, dir);
      InsertSortedStep(x, s, key, dir, rest);
    }
  }

  lemma SortedTail(s: seq<Row>, key: Row -> SortKey, dir: Direction)
    requires Sorted(s, key, dir) && s != []
    ensures Sorted(s[1..], key, dir)
  {
    var t := s[1..];
    forall i, j | 0 <= i < j < |t|
      ensures !Before(key(t[j]), key(t[i]), dir)
    {
      assert t[i] == s[i + 1] && t[j] == s[j + 1];
    }
  }

  lemma {:induction false} InsertStable(x: Row, s: seq<Row>, key: Row -> SortKey, dir: Direction, k: SortKey)
    requires Sorted(s, key, dir)
    ensures WithKey(Insert(x, s, key, dir), key, k) == WithKey(s, key, k) + KeyedSingleton(x, key, k)
  {
    if s == [] {
      WithKeyCons(x, [], key, k);
      assert [x] + [] == [x];
    } else if Before(key(x), key(s[0]), dir) {
      InsertStableFront(x, s, key, dir, k);
    } else {
      SortedTail(s, key, dir);
      InsertStable(x, s[1..], key, dir, k);
      InsertStableStep(x, s, key, dir, k);
    }
  }

  lemma InsertStableFront(x: Row, s: seq<Row>, key: Row -> SortKey, dir: Direction, k: SortKey)
    requires Sorted(s, key, dir) && s != [] && Before(key(x), key(s[0]), dir)
    ensures WithKey(Insert(x, s, key, dir), key, k) == WithKey(s, key, k) + KeyedSingleton(x, key, k)
  {
    assert Insert(x, s, key, dir) == [x] + s;
    WithKeyCons(x, s, key, k);
    if key(x) == k {
      NoneWithKey(s, key, dir, k);
    }
  }

  lemma InsertStableStep(x: Row, s: seq<Row>, key: Row -> SortKey, dir: Direction, k: SortKey)
    requires s != [] && !Before(key(x), key(s[0]), dir)
    requires WithKey(Insert(x, s[1..], key, dir), key, k) == WithKey(s[1..], key, k) + KeyedSingleton(x, key, k)
    ensures WithKey(Insert(x, s, key, dir), key, k) == WithKey(s, key, k) + KeyedSingleton(x, key, k)
  {
    var rest := Insert(x, s[1..], key, dir);
    assert Insert(x, s, key, dir) == [s[0]] + rest;
    WithKeyCons(s[0], rest, key, k);
    WithKeyCons(s[0], s[1..], key, k);
    assert [s[0]] + s[1..] == s;
    var h, t, u := KeyedSingleton(s[0], key, k), WithKey(s[1..], key, k), KeyedSingleton(x, key, k);
    assert h + (t + u) == (h + t) + u;
  }

  lemma WithKeyCons(y: Row, t: seq<Row>, key: Row -> SortKey, k: SortKey)
    ensures WithKey([y] + t, key, k) == KeyedSingleton(y, key, k) + WithKey(t, key, k)
  {
    assert ([y] + t)[0] == y && ([y] + t)[1..] == t;
  }

  lemma {:induction false} WithKeyNone(s: seq<Row>, key: Row -> SortKey, k: SortKey)
    requires forall i :: 0 <= i < |s| ==> key(s[i]) != k
    ensures WithKey(s, key, k) == []
  {
    if s != [] {
      WithKeyNone(s[1..], key, k);
    }
  }

  /** In a sorted list no row has a key strictly before the first row's key. */
  lemma NoneWithKey(s: seq<Row>, key: Row -> SortKey, dir: Direction, k: SortKey)
    requires Sorted(s, key, dir) && s != [] && Before(k, key(s[0]), dir)
    ensures WithKey(s, key, k) == []
  {
    BeforeStrictOrder(k, k, k, dir);
    forall i | 0 <= i < |s|
      ensures key(s[i]) != k
    {
      if i > 0 {
        assert !Before(key(s[i]), key(s[0]), dir);
      }
    }
    WithKeyNone(s, key, k);
  }

  lemma {:induction false} WithKeyAppend(a: seq<Row>, b: seq<Row>, key: Row -> SortKey, k: SortKey)
    ensures WithKey(a + b, key, k) == WithKey(a, key, k) + WithKey(b, key, k)
  {
    if a == [] {
      assert a + b == b;
    } else {
      var c := a + b;
      assert c[0] == a[0] && c[1..] == a[1..] + b;
      WithKeyAppend(a[1..], b, key, k);
      calc {
        WithKey(c, key, k);
        KeyedSingleton(a[0], key, k) + WithKey(a[1..] + b, key, k);
        KeyedSingleton(a[0], key, k) + (WithKey(a[1..], key, k) + WithKey(b, key, k));
        (KeyedSingleton(a[0], key, k) + WithKey(a[1..], key, k)) + WithKey(b, key, k);
      }
    }
  }

  lemma {:induction false} SortByPermutes(rows: seq<Row>, key: Row -> SortKey, dir: Direction)
    ensures multiset(SortBy(rows, key, dir)) == multiset(rows)
  {
    if rows != [] {
      var init, x := rows[..|rows| - 1], rows[|rows| - 1];
      SortByPermutes(init, key, dir);
      InsertPermutes(x, SortBy(init, key, dir), key, dir);
      assert rows == init + [x];
    }
  }

  lemma {:induction false} SortBySorted(rows: seq<Row>, key: Row -> SortKey, dir: Direction)
    ensures Sorted(SortBy(rows, key, dir), key, dir)
  {
    if rows != [] {
      var init, x := rows[..|rows| - 1], rows[|rows| - 1];
      SortBySorted(init, key, dir);
      InsertSorted(x, SortBy(init, key, dir), key, dir);
    }
  }

  lemma {:induction false} SortByStable(rows: seq<Row>, key: Row -> SortKey, dir: Direction, k: SortKey)
    ensures WithKey(SortBy(rows, key, dir), key, k) == WithKey(rows, key, k)
  {
    if rows != [] {
      var init, x := rows[..|rows| - 1], rows[|rows| - 1];
      SortByStable(init, key, dir, k);
      SortBySorted(init, key, dir);
      InsertStable(x, SortBy(init, key, dir), key, dir, k);
      assert rows == init + [x];
      WithKeyAppend(init, [x], key, k);
      WithKeyCons(x, [], key, k);
      assert [x] + [] == [x];
    }
  }

  /**
   * Sorting returns a permutation of the rows (same rows, same ids), in
   * key order for the direction, and stable: the rows sharing any one key
   * appear in the order they had before.
   */
  lemma SortRowsSpec(rows: seq<Row>, column: string, dir: Direction)
    ensures multiset(SortRows(rows, column, dir)) == multiset(rows)
    ensures var r := SortRows(rows, column, dir);
      forall i, j :: 0 <= i < j < |r| ==> !Before(KeyOf(r[j], column), KeyOf(r[i], column), dir)
    ensures forall k :: WithKey(SortRows(rows, column, dir), ColumnKey(column), k) == WithKey(rows, ColumnKey(column), k)
  {
    var key := ColumnKey(column);
    SortByPermutes(rows, key, dir);
    SortBySorted(rows, key, dir);
    forall k
      ensures WithKey(SortBy(rows, key, dir), key, k) == WithKey(rows, key, k)
    {
      SortByStable(rows, key, dir, k);
    }
  }

  /** Every value in the column reads as a number. */
  predicate AllNumeric(rows: seq<Row>, column: string) {
    forall i :: 0 <= i < |rows| ==> KeyOf(rows[i], column).Num?
  }

  /**
   * On a column of numbers the result is ordered by number: ascending for
   * 'asc', descending for 'desc'.
   */
  lemma NumericColumnOrdered(rows: seq<Row>, column: string, dir: Direction)
    requires AllNumeric(rows, column)
    ensures var r := SortRows(rows, column, dir);
      && |r| == |rows|
      && forall i, j :: 0 <= i < j < |r| ==>
        KeyOf(r[i], column).Num? && KeyOf(r[j], column).Num? &&
        (if dir == Asc then KeyOf(r[i], column).n <= KeyOf(r[j], column).n
         else KeyOf(r[i], column).n >= KeyOf(r[j], column).n)
  {
    var r := SortRows(rows, column, dir);
    SortRowsSpec(rows, column, dir);
    assert |r| == |multiset(r)| == |multiset(rows)| == |rows|;
    forall i | 0 <= i < |r|
      ensures KeyOf(r[i], column).Num?
    {
      assert r[i] in multiset(rows);
    }
  }
}
