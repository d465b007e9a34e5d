/// The generic chunk runner `processInChunks(items, chunkSize, processor)`:
/// it hands the processor consecutive slices of `items`, at most `chunkSize`
/// long, and always calls it at least once (on an empty slice when `items`
/// is empty). The model returns the slices in the order the processor
/// receives them.
module Chunks {

  function Min(a: int, b: int): int {
    if a <= b then a else b
  }

  /** The concatenation of a sequence of slices. */
  function Flatten<T>(chunks: seq<seq<T>>): seq<T> {
    if chunks == [] then [] else Flatten(chunks[..|chunks| - 1]) + chunks[|chunks| - 1]
  }

  lemma FlattenSnoc<T>(chunks: seq<seq<T>>, c: seq<T>)
    ensures Flatten(chunks + [c]) == Flatten(chunks) + c
  {
    assert (chunks + [c])[..|chunks|] == chunks;
  }

  /** `processInChunks`: the slices passed to the processor, in call order. */
  method ProcessInChunks<T>(items: seq<T>, chunkSize: nat) returns (chunks: seq<seq<T>>)
    requires chunkSize > 0
    ensures |chunks| > 0
    ensures Flatten(chunks) == items
    ensures forall k :: 0 <= k < |chunks| ==> |chunks[k]| <= chunkSize
    ensures forall k :: 0 <= k < |chunks| - 1 ==> |chunks[k]| == chunkSize
    ensures items == [] ==> chunks == [[]]
    ensures items != [] ==> forall k :: 0 <= k < |chunks| ==> chunks[k] != []
  {
    var index := 0;
    // the first call happens unconditionally
    var chunk := items[index..Min(index + chunkSize, |items|)];
    index := index + chunkSize;
    chunks := [chunk];
    FlattenSnoc([], chunk);
    while index < |items|
      invariant chunkSize <= index
      invariant |chunks| > 0
      invariant Flatten(chunks) == items[..Min(index, |items|)]
      invariant forall k :: 0 <= k < |chunks| ==> |chunks[k]| <= chunkSize
      invariant forall k :: 0 <= k < |chunks| - 1 ==> |chunks[k]| == chunkSize
      invariant |chunks[|chunks| - 1]| == Min(index, |items|) - (index - chunkSize)
      invariant items != [] ==> forall k :: 0 <= k < |chunks| ==> chunks[k] != []
      decreases |items| - index
    {
      chunk := items[index..Min(index + chunkSize, |items|)];
      FlattenSnoc(chunks, chunk);
      assert items[..Min(index + chunkSize, |items|)] == items[..index] + chunk;
      index := index + chunkSize;
      chunks := chunks + [chunk];
    }
    assert items[..Min(index, |items|)] == items;
  }
}
