/** The destination bucket as a map from key to object, and the three calls
    the engine makes on it: a (fully paginated) listing, `put_object`, and
    `delete_objects`. */
module Store {
  import opened Batching
  import opened Ordering

  newtype byte = x: int | 0 <= x < 256

  /** An object's byte size and the user metadata written with it. */
  datatype Object = Object(size: nat, metadata: map<string, string>)

  type Bucket = map<string, Object>

  /** One call the engine makes on the bucket, in the order it makes them. */
  datatype Action =
    | PutObject(key: string)
    | DeleteObjects(keys: seq<string>)

  predicate Distinct(xs: seq<string>) {
    forall i, j :: 0 <= i < j < |xs| ==> xs[i] != xs[j]
  }

  /** `idx` picks `ys` out of `xs` in order: `ys[i]` is `xs[idx[i]]` and
      the indices increase. */
  ghost predicate PicksInOrder(ys: seq<string>, xs: seq<string>, idx: seq<nat>) {
    && |idx| == |ys|
    && (forall i :: 0 <= i < |ys| ==> idx[i] < |xs| && xs[idx[i]] == ys[i])
    && (forall i, j :: 0 <= i < j < |ys| ==> idx[i] < idx[j])
  }

  /** `ys` is `xs` with some elements left out, the rest in their order. */
  ghost predicate Subsequence(ys: seq<string>, xs: seq<string>) {
    exists idx :: PicksInOrder(ys, xs, idx)
  }

  /** Every index one further on. */
  function Shift(idx: seq<nat>): (r: seq<nat>)
    ensures |r| == |idx| && forall i :: 0 <= i < |idx| ==> r[i] == idx[i] + 1
  {
    seq(|idx|, i requires 0 <= i < |idx| => idx[i] + 1)
  }

  /** What is picked out of the tail of `xs` is picked out of `xs` one
      index further on, and the head can go in front. */
  lemma PicksFromTail(ys: seq<string>, xs: seq<string>, idx: seq<nat>)
    requires xs != [] && PicksInOrder(ys, xs[1..], idx)
    ensures PicksInOrder(ys, xs, Shift(idx))
    ensures PicksInOrder([xs[0]] + ys, xs, [0] + Shift(idx))
  {
    var r := Shift(idx);
    forall i | 0 <= i < |ys| ensures r[i] < |xs| && xs[r[i]] == ys[i] {
      assert xs[1..][idx[i]] == ys[i];
    }
    var ys', r' := [xs[0]] + ys, [0] + r;
    forall i | 0 <= i < |ys'| ensures r'[i] < |xs| && xs[r'[i]] == ys'[i] {
      if i > 0 {
        assert r'[i] == r[i - 1] && ys'[i] == ys[i - 1];
      }
    }
    forall i, j | 0 <= i < j < |ys'| ensures r'[i] < r'[j] {
      if i > 0 {
        assert r'[i] == r[i - 1] && r'[j] == r[j - 1];
      }
    }
  }

  function Elems(xs: seq<string>): set<string> {
    set x | x in xs
  }

  /** The keys a `list_objects_v2` call with `Prefix=prefix` returns. */
  function Under(b: Bucket, prefix: string): set<string> {
    set k | k in b && prefix <= k
  }

  /** A sequence without repeats has as many elements as its set. */
  lemma {:induction false} DistinctCard(xs: seq<string>)
    requires Distinct(xs)
    ensures |Elems(xs)| == |xs|
  {
    if xs != [] {
      var init := xs[..|xs| - 1];
      assert xs == init + [xs[|xs| - 1]];
      assert Elems(xs) == Elems(init) + {xs[|xs| - 1]};
      assert xs[|xs| - 1] !in Elems(init);
      DistinctCard(init);
    }
  }

  /** One `delete_objects` action per request. */
  function DeleteActions(requests: seq<seq<string>>): (actions: seq<Action>)
    ensures |actions| == |requests|
    ensures forall i :: 0 <= i < |requests| ==> actions[i] == DeleteObjects(requests[i])
  {
    seq(|requests|, i requires 0 <= i < |requests| => DeleteObjects(requests[i]))
  }

  /** The calls from `start` on are the delete requests for `keys`: its
      `MaxBatch`-sized chunks, in order. */
  ghost predicate DeletesAfter(start: nat, trace: seq<Action>, keys: seq<string>) {
    start <= |trace| && trace[start..] == DeleteActions(Chunks(keys))
  }

  /** The deletes after `start`: each a request of 1 to `MaxBatch` keys,
      `ceil(|keys| / MaxBatch)` of them, whose keys together are `keys`. */
  lemma DeletesAfterShape(start: nat, trace: seq<Action>, keys: seq<string>)
    requires DeletesAfter(start, trace, keys)
    ensures forall i :: start <= i < |trace| ==> trace[i].DeleteObjects? && 0 < |trace[i].keys| <= MaxBatch
    ensures |trace| - start == (|keys| + MaxBatch - 1) / MaxBatch
    ensures Flatten(seq(|trace| - start, i requires 0 <= i < |trace| - start => trace[start + i].keys)) == keys
  {
    var cs := Chunks(keys);
    ChunksSpec(keys);
    forall i | start <= i < |trace|
      ensures trace[i] == DeleteObjects(cs[i - start])
    {
      assert trace[start..][i - start] == trace[i];
    }
    assert seq(|trace| - start, i requires 0 <= i < |trace| - start => trace[start + i].keys) == cs;
  }

  /** Delete requests for `keys` appended after `puts` start at `|puts|`. */
  lemma DeletesAppended(puts: seq<Action>, keys: seq<string>)
    ensures DeletesAfter(|puts|, puts + DeleteActions(Chunks(keys)), keys)
  {
    assert (puts + DeleteActions(Chunks(keys)))[|puts|..] == DeleteActions(Chunks(keys));
  }

  /** Some order over a set: Python's set iteration order and the order of a
      concatenated listing are both left open. */
  method Enumerate(s: set<string>) returns (xs: seq<string>)
    ensures Distinct(xs)
    ensures Elems(xs) == s
    ensures |xs| == |s|
  {
    xs := [];
    var rest := s;
    while rest != {}
      invariant Distinct(xs)
      invariant Elems(xs) + rest == s
      invariant Elems(xs) !! rest
      invariant |xs| + |rest| == |s|
      decreases rest
    {
      var x :| x in rest;
      xs := xs + [x];
      rest := rest - {x};
    }
  }

  /** A listing under `prefix`, all pages concatenated: every key under the
      prefix exactly once, in ascending key order. */
  method List(b: Bucket, prefix: string) returns (keys: seq<string>)
    ensures Distinct(keys)
    ensures Ascending(keys)
    ensures Elems(keys) == Under(b, prefix)
    ensures forall i :: 0 <= i < |keys| ==> keys[i] in b && prefix <= keys[i]
  {
    keys := [];
    var rest := Under(b, prefix);
    while rest != {}
      invariant Distinct(keys) && Ascending(keys)
      invariant Elems(keys) + rest == Under(b, prefix)
      invariant Elems(keys) !! rest
      invariant forall i, k :: 0 <= i < |keys| && k in rest ==> Below(keys[i], k)
      decreases rest
    {
      ghost var least := Least(rest);
      var x :| x in rest && forall y :: y in rest && y != x ==> Below(x, y);
      ListStep(keys, rest, x);
      keys := keys + [x];
      rest := rest - {x};
    }
    assert forall i :: 0 <= i < |keys| ==> keys[i] in Elems(keys);
  }

  /** Taking the least remaining key keeps the listing ascending and below
      what remains. */
  lemma ListStep(keys: seq<string>, rest: set<string>, x: string)
    requires Distinct(keys) && Ascending(keys)
    requires Elems(keys) !! rest
    requires forall i, k :: 0 <= i < |keys| && k in rest ==> Below(keys[i], k)
    requires x in rest && forall y :: y in rest && y != x ==> Below(x, y)
    ensures Distinct(keys + [x]) && Ascending(keys + [x])
    ensures Elems(keys + [x]) == Elems(keys) + {x}
    ensures Elems(keys + [x]) !! rest - {x}
    ensures forall i, k :: 0 <= i < |keys + [x]| && k in rest - {x} ==> Below((keys + [x])[i], k)
  {
    var ks := keys + [x];
    assert forall i :: 0 <= i < |keys| ==> ks[i] == keys[i] && keys[i] in Elems(keys);
    assert Elems(ks) == Elems(keys) + {x};
  }

  /** Issues `delete_objects` for each `MaxBatch`-sized chunk of `keys`, in
      order, and counts the keys sent. The requests are `Chunks(keys)` (so
      each holds between 1 and `MaxBatch` keys and together they are
      `keys`), and exactly the listed keys are gone afterwards. */
  method DeleteInBatches(b: Bucket, keys: seq<string>)
    returns (b': Bucket, requests: seq<seq<string>>, deleted: nat)
    ensures requests == Chunks(keys)
    ensures deleted == |keys|
    ensures b' == b - Elems(keys)
  {
    b' := b;
    requests := [];
    deleted := 0;
    var i := 0;
    assert keys[0..] == keys && keys[..0] == [];
    while i < |keys|
      invariant 0 <= i <= |keys|
      invariant requests + Chunks(keys[i..]) == Chunks(keys)
      invariant deleted == i
      invariant b' == b - Elems(keys[..i])
    {
      var end := if i + MaxBatch < |keys| then i + MaxBatch else |keys|;
      var chunk := keys[i..end];
      DeleteStep(b, keys, i, end, b', requests, deleted);
      b' := b' - Elems(chunk);
      requests := requests + [chunk];
      deleted := deleted + |chunk|;
      i := end;
    }
    assert keys[..i] == keys;
    assert keys[i..] == [];
  }

  /** One turn of the delete loop keeps its invariant. */
  lemma DeleteStep(b: Bucket, keys: seq<string>, i: nat, end: nat, cur: Bucket,
                   requests: seq<seq<string>>, deleted: nat)
    requires i < |keys|
    requires end == if i + MaxBatch < |keys| then i + MaxBatch else |keys|
    requires requests + Chunks(keys[i..]) == Chunks(keys)
    requires deleted == i
    requires cur == b - Elems(keys[..i])
    ensures i < end <= |keys|
    ensures (requests + [keys[i..end]]) + Chunks(keys[end..]) == Chunks(keys)
    ensures deleted + |keys[i..end]| == end
    ensures cur - Elems(keys[i..end]) == b - Elems(keys[..end])
  {
    NextRequest(keys, i, end, requests);
    ElemsOfSplit(keys, i, end);
    MinusTwice(cur, Elems(keys[..i]), Elems(keys[i..end]), b);
  }

  lemma MinusTwice(m: Bucket, a: set<string>, c: set<string>, b: Bucket)
    requires m == b - a
    ensures m - c == b - (a + c)
  {
  }

  lemma ElemsOfSplit(xs: seq<string>, i: nat, j: nat)
    requires i <= j <= |xs|
    ensures Elems(xs[..j]) == Elems(xs[..i]) + Elems(xs[i..j])
  {
    assert xs[..j] == xs[..i] + xs[i..j];
  }

  lemma NextRequest(keys: seq<string>, i: nat, end: nat, requests: seq<seq<string>>)
    requires i < |keys|
    requires end == if i + MaxBatch < |keys| then i + MaxBatch else |keys|
    requires requests + Chunks(keys[i..]) == Chunks(keys)
    ensures (requests + [keys[i..end]]) + Chunks(keys[end..]) == Chunks(keys)
  {
    ChunksFrom(keys, i);
    var c, next := keys[i..end], Chunks(keys[end..]);
    assert Chunks(keys[i..]) == [c] + next;
    SnocAssoc(requests, c, next);
  }

  lemma SnocAssoc(xs: seq<seq<string>>, c: seq<string>, ys: seq<seq<string>>)
    ensures (xs + [c]) + ys == xs + ([c] + ys)
  {
  }
}
