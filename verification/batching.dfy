/** Splitting a delete list into DeleteObjects requests. */
module Batching {

  /** S3 DeleteObjects accepts at most this many keys per request. */
  const MaxBatch: nat := 1000

  function Flatten<T>(xss: seq<seq<T>>): seq<T> {
    if xss == [] then [] else xss[0] + Flatten(xss[1..])
  }

  /** Consecutive slices of `MaxBatch` items, the last one possibly shorter. */
  function Chunks<T>(xs: seq<T>): seq<seq<T>>
    decreases |xs|
  {
    if xs == [] then []
    else if |xs| <= MaxBatch then [xs]
    else [xs[..MaxBatch]] + Chunks(xs[MaxBatch..])
  }

  /** The chunks are non-empty, hold at most `MaxBatch` items (all but the
      last exactly `MaxBatch`), concatenate back to `xs`, and there are
      `ceil(|xs| / MaxBatch)` of them. */
  lemma {:induction false} ChunksSpec<T>(xs: seq<T>)
    ensures Flatten(Chunks(xs)) == xs
    ensures forall i :: 0 <= i < |Chunks(xs)| ==> 0 < |Chunks(xs)[i]| <= MaxBatch
    ensures forall i :: 0 <= i < |Chunks(xs)| - 1 ==> |Chunks(xs)[i]| == MaxBatch
    ensures |Chunks(xs)| == (|xs| + MaxBatch - 1) / MaxBatch
    decreases |xs|
  {
    var r := Chunks(xs);
    if xs == [] {
    } else if |xs| <= MaxBatch {
      assert Flatten([xs]) == xs + Flatten([]);
    } else {
      var rest := Chunks(xs[MaxBatch..]);
      ChunksSpec(xs[MaxBatch..]);
      assert r[1..] == rest;
      assert xs[..MaxBatch] + xs[MaxBatch..] == xs;
      assert forall i :: 1 <= i < |r| ==> r[i] == rest[i - 1];
    }
  }

  /** The request starting at `i` is the next `MaxBatch` keys (or the rest). */
  lemma ChunksFrom<T>(xs: seq<T>, i: nat)
    requires i < |xs|
    ensures Chunks(xs[i..])
         == [xs[i..if i + MaxBatch < |xs| then i + MaxBatch else |xs|]]
          + Chunks(xs[if i + MaxBatch < |xs| then i + MaxBatch else |xs|..])
  {
    var end := if i + MaxBatch < |xs| then i + MaxBatch else |xs|;
    if i + MaxBatch < |xs| {
      assert xs[i..][..MaxBatch] == xs[i..end];
      assert xs[i..][MaxBatch..] == xs[end..];
    } else {
      assert xs[i..] == xs[i..end];
      assert xs[end..] == [];
    }
  }

  /** For example, 2500 stale keys go out as requests of 1000, 1000 and 500. */
  lemma {:induction false} ChunksOf2500<T>(xs: seq<T>)
    requires |xs| == 2500
    ensures |Chunks(xs)| == 3
    ensures |Chunks(xs)[0]| == 1000
    ensures |Chunks(xs)[1]| == 1000
    ensures |Chunks(xs)[2]| == 500
  {
    var r := Chunks(xs);
    assert r == [xs[..1000]] + Chunks(xs[1000..]);
    var r1 := Chunks(xs[1000..]);
    assert r1 == [xs[1000..][..1000]] + Chunks(xs[1000..][1000..]);
    var r2 := Chunks(xs[1000..][1000..]);
    assert r2 == [xs[1000..][1000..]];
  }
}
