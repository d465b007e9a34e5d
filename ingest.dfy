/// Ingestion of parsed chunks: each row of a chunk gets `_id` equal to
/// `(rowCount + index).toString()`, so ids run "0", "1", ... in arrival order,
/// and the loading progress is `min(99, floor(rowCount / (rowCount + 100) * 100))`
/// until the upload completes, when it is set to 100.
module Ingest {
  import opened Text
  import opened Values

  /** `results.data.map((row, index) => ({...row, _id: (rowCount + index).toString()}))`. */
  function WithIds(chunk: seq<Row>, rowCount: nat): (r: seq<Row>)
    ensures |r| == |chunk|
  {
    seq(|chunk|, i requires 0 <= i < |chunk| => chunk[i][IdKey := Some(NatToString(rowCount + i))])
  }

  /** Rows carry the ids `start`, `start + 1`, ... in order. */
  ghost predicate IdsFrom(rows: seq<Row>, start: nat) {
    forall i :: 0 <= i < |rows| ==> IdOf(rows[i]) == Some(NatToString(start + i))
  }

  /**
   * Appending a chunk keeps the numbering: if the rows so far carry ids
   * "0" .. "rowCount - 1", the rows after the append carry "0" .. in order,
   * and every field other than `_id` is the parsed one.
   */
  lemma AppendChunkNumbering(all: seq<Row>, chunk: seq<Row>)
    requires IdsFrom(all, 0)
    ensures IdsFrom(all + WithIds(chunk, |all|), 0)
    ensures forall i, f :: 0 <= i < |chunk| && f != IdKey ==> Get(WithIds(chunk, |all|)[i], f) == Get(chunk[i], f)
  {
    var r := all + WithIds(chunk, |all|);
    forall i | 0 <= i < |r|
      ensures IdOf(r[i]) == Some(NatToString(i))
    {
      if i >= |all| {
        assert r[i] == WithIds(chunk, |all|)[i - |all|];
      }
    }
  }

  /** Rows numbered consecutively have pairwise distinct ids. */
  lemma IdsFromUnique(rows: seq<Row>, start: nat)
    requires IdsFrom(rows, start)
    ensures UniqueIds(rows)
  {
    forall i, j | 0 <= i < j < |rows|
      ensures IdOf(rows[i]) != IdOf(rows[j])
    {
      NatToStringInjective(start + i, start + j);
    }
  }

  /** The progress shown after `rowCount` rows have arrived. */
  function Progress(rowCount: nat): (p: nat)
    ensures p <= 99
  {
    var percent := (rowCount * 100) / (rowCount + 100);
    if percent < 99 then percent else 99
  }

  /** Progress never goes down as more rows arrive. */
  lemma ProgressMonotone(a: nat, b: nat)
    requires a <= b
    ensures Progress(a) <= Progress(b)
  {
    var q := (a * 100) / (a + 100);
    DivFloor(a * 100, a + 100);
    assert q <= 100 by {
      if q > 100 {
        MulMono(101, q, a + 100);
      }
    }
    MulMono(q, 100, b - a);
    assert q * (b + 100) == q * (a + 100) + q * (b - a);
    DivLowerBound(b * 100, b + 100, q);
  }

  lemma MulMono(x: nat, y: nat, d: nat)
    requires x <= y
    ensures x * d <= y * d
  {
  }

  lemma DivLowerBound(n: nat, d: nat, q: nat)
    requires d > 0 && q * d <= n
    ensures q <= n / d
  {
    DivFloor(n, d);
    if q > n / d {
      MulMono(n / d + 1, q, d);
    }
  }
}
