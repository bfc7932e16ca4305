/** The scheduled true sync (`_sync_bls_to_s3` in
    data/lambda/sync_and_fetch/handler.py): read the source files, list the
    destination sizes by last `/` segment, upload the files that are missing
    or have another size, then list the destination again and delete every
    object whose last segment is non-empty and not a source name, 1000 keys
    per request. Names are compared by last segment only. */
module LambdaSync {
  import opened Text
  import opened Outcomes
  import opened Dicts
  import opened Batching
  import opened Store
  import opened Ordering
  import opened Transfer
  import opened Reconcile
  import opened LambdaListing

  const BlsBaseUrl: string := "https://download.bls.gov/pub/time.series/pr/"
  const BlsPrefix: string := "raw/bls"

  // ---------------------------------------------------------- key mapping

  /** The prefix with its trailing slashes replaced by exactly one. */
  function ListPrefix(prefix: string): (lp: string)
    ensures |lp| >= 1 && lp[|lp| - 1] == '/'
    ensures |lp| == 1 || lp[|lp| - 2] != '/'
    ensures |lp| - 1 <= |prefix| && lp[..|lp| - 1] == prefix[..|lp| - 1]
    ensures AllIn(Only('/'), prefix[|lp| - 1..])
  {
    var n := TrailLen(prefix, Only('/'));
    var core := prefix[..|prefix| - n];
    assert (core + "/")[..|core|] == core;
    core + "/"
  }

  lemma ListPrefixOfBls()
    ensures ListPrefix(BlsPrefix) == "raw/bls/"
  {
    assert TrailLen(BlsPrefix, Only('/')) == 0;
  }

  /** `f"{prefix}/{name}"`. */
  function UploadKey(prefix: string, name: string): string {
    prefix + "/" + name
  }

  /** Whatever the prefix, an upload key lies under the listing prefix and
      a listing hands its name back as the last segment. */
  lemma UploadKeyListed(prefix: string, name: string)
    requires '/' !in name
    ensures ListPrefix(prefix) <= UploadKey(prefix, name)
    ensures LastSegment(UploadKey(prefix, name)) == name
  {
    var lp := ListPrefix(prefix);
    var key := UploadKey(prefix, name);
    var m := |lp| - 1;
    assert key[..m] == prefix[..m];
    if m < |prefix| {
      assert prefix[m..][0] == '/';
    }
    assert key[m] == '/';
    assert key[..|lp|] == lp;
    LastSegmentOfJoin(prefix, name);
  }

  /** The segment names of the keys under `lp`, including empty ones. */
  function Segments(b: Bucket, lp: string): set<string> {
    set k | k in Under(b, lp) :: LastSegment(k)
  }

  /** The non-empty segment names under `lp`: the names a sync compares. */
  function Names(b: Bucket, lp: string): set<string> {
    set k | k in Under(b, lp) && LastSegment(k) != [] :: LastSegment(k)
  }

  /** The keys under `lp` that the delete pass marks: a non-empty last
      segment that is not kept. */
  function Extras(b: Bucket, lp: string, keep: set<string>): set<string> {
    set k | k in Under(b, lp) && LastSegment(k) != [] && LastSegment(k) !in keep
  }

  // ------------------------------------------------------ size listing

  /** Each listed key's size recorded under its last segment, in listing
      order: a later key with the same last segment overwrites an earlier
      one. */
  function SizesOf(b: Bucket, keys: seq<string>): Sizes
    requires forall k :: k in keys ==> k in b
  {
    if keys == [] then map[]
    else
      var last := keys[|keys| - 1];
      SizesOf(b, keys[..|keys| - 1])[LastSegment(last) := b[last].size]
  }

  /** The names of `SizesOf` are the keys' segments, and each records the
      size of the last of the keys with that segment. */
  lemma {:induction false} SizesOfFrom(b: Bucket, keys: seq<string>, n: string) returns (i: nat)
    requires forall j :: 0 <= j < |keys| ==> keys[j] in b
    requires n in SizesOf(b, keys)
    ensures i < |keys| && LastSegment(keys[i]) == n && SizesOf(b, keys)[n] == b[keys[i]].size
    ensures forall j :: i < j < |keys| ==> LastSegment(keys[j]) != n
  {
    var init := keys[..|keys| - 1];
    if LastSegment(keys[|keys| - 1]) == n {
      i := |keys| - 1;
    } else {
      assert n in SizesOf(b, init);
      i := SizesOfFrom(b, init, n);
      assert init[i] == keys[i];
      NoLaterSegment(keys, init, n, i);
    }
  }

  /** If no key after `i` in all but the last key has segment `n`, and the
      last key does not either, then no key after `i` has it. */
  lemma NoLaterSegment(keys: seq<string>, init: seq<string>, n: string, i: nat)
    requires keys != [] && init == keys[..|keys| - 1] && i < |init|
    requires LastSegment(keys[|keys| - 1]) != n
    requires forall j :: i < j < |init| ==> LastSegment(init[j]) != n
    ensures forall j :: i < j < |keys| ==> LastSegment(keys[j]) != n
  {
    forall j | i < j < |init| ensures LastSegment(keys[j]) != n {
      assert init[j] == keys[j];
    }
  }

  lemma {:induction false} SizesOfHas(b: Bucket, keys: seq<string>, i: nat)
    requires forall j :: 0 <= j < |keys| ==> keys[j] in b
    requires i < |keys|
    ensures LastSegment(keys[i]) in SizesOf(b, keys)
  {
    if i < |keys| - 1 {
      var init := keys[..|keys| - 1];
      assert init[i] == keys[i];
      SizesOfHas(b, init, i);
    }
  }

  /** Listing order decides which size a shared segment records: of two
      keys with one last segment (`raw/bls/x` and `raw/bls/old/x`, say) the
      one listed second wins. */
  lemma ListingOrderMatters(b: Bucket, k1: string, k2: string)
    requires k1 in b && k2 in b && LastSegment(k1) == LastSegment(k2)
    ensures LastSegment(k1) in SizesOf(b, [k1, k2]) && SizesOf(b, [k1, k2])[LastSegment(k1)] == b[k2].size
    ensures LastSegment(k1) in SizesOf(b, [k2, k1]) && SizesOf(b, [k2, k1])[LastSegment(k1)] == b[k1].size
  {
    assert [k1, k2][..1] == [k1];
    assert [k2, k1][..1] == [k2];
  }

  /** `k` is the key under `lp` with last segment `n` that lists last:
      every other key there with that segment sorts before it. */
  ghost predicate ListsLast(b: Bucket, lp: string, n: string, k: string) {
    && k in Under(b, lp) && LastSegment(k) == n
    && forall k' :: k' in Under(b, lp) && LastSegment(k') == n && k' != k ==> Below(k', k)
  }

  /** `_s3_list_sizes`: the segment names under the listing prefix, each
      with the size of the object of that segment listed last, which is the
      greatest such key. */
  method ListSizes(b: Bucket, prefix: string) returns (sizes: Sizes)
    ensures sizes.Keys == Segments(b, ListPrefix(prefix))
    ensures forall n :: n in sizes ==>
              exists k :: k in Under(b, ListPrefix(prefix)) && LastSegment(k) == n && b[k].size == sizes[n]
    ensures forall n :: n in sizes ==>
              exists k :: ListsLast(b, ListPrefix(prefix), n, k) && b[k].size == sizes[n]
  {
    var lp := ListPrefix(prefix);
    var keys := List(b, lp);
    sizes := map[];
    var i := 0;
    while i < |keys|
      invariant 0 <= i <= |keys|
      invariant sizes == SizesOf(b, keys[..i])
    {
      var key := keys[i];
      assert keys[..i + 1][..i] == keys[..i];
      sizes := sizes[LastSegment(key) := b[key].size];
      i := i + 1;
    }
    assert keys[..i] == keys;
    SizesOfListing(b, lp, keys);
    SizesOfAscending(b, lp, keys);
  }

  /** Over an ascending listing each segment records the size of its
      greatest key. */
  lemma SizesOfAscending(b: Bucket, lp: string, keys: seq<string>)
    requires forall i :: 0 <= i < |keys| ==> keys[i] in b && lp <= keys[i]
    requires Elems(keys) == Under(b, lp) && Ascending(keys)
    ensures forall n :: n in SizesOf(b, keys) ==>
              exists k :: ListsLast(b, lp, n, k) && b[k].size == SizesOf(b, keys)[n]
  {
    forall n | n in SizesOf(b, keys)
      ensures exists k :: ListsLast(b, lp, n, k) && b[k].size == SizesOf(b, keys)[n]
    {
      var i := SizesOfFrom(b, keys, n);
      assert keys[i] in Elems(keys);
      GreatestListed(b, lp, keys, i);
    }
  }

  /** In an ascending listing of the keys under `lp`, a key no later key
      shares its segment with is the greatest key of that segment. */
  lemma GreatestListed(b: Bucket, lp: string, keys: seq<string>, i: nat)
    requires i < |keys| && keys[i] in Under(b, lp)
    requires forall k :: k in Under(b, lp) ==> k in Elems(keys)
    requires forall j :: 0 <= j < i ==> Below(keys[j], keys[i])
    requires forall j :: i < j < |keys| ==> LastSegment(keys[j]) != LastSegment(keys[i])
    ensures ListsLast(b, lp, LastSegment(keys[i]), keys[i])
  {
    var n, k := LastSegment(keys[i]), keys[i];
    forall k' | k' in Under(b, lp) && LastSegment(k') == n && k' != k
      ensures Below(k', k)
    {
      BelowLast(keys, i, k');
    }
  }

  /** A listed key sharing the segment of key `i`, when no later key does,
      lists before it. */
  lemma BelowLast(keys: seq<string>, i: nat, k: string)
    requires i < |keys| && k in Elems(keys) && k != keys[i]
    requires LastSegment(k) == LastSegment(keys[i])
    requires forall j :: 0 <= j < i ==> Below(keys[j], keys[i])
    requires forall j :: i < j < |keys| ==> LastSegment(keys[j]) != LastSegment(keys[i])
    ensures Below(k, keys[i])
  {
    var j :| 0 <= j < |keys| && keys[j] == k;
    assert j < i;
  }

  lemma SizesOfListing(b: Bucket, lp: string, keys: seq<string>)
    requires forall i :: 0 <= i < |keys| ==> keys[i] in b && lp <= keys[i]
    requires Elems(keys) == Under(b, lp)
    ensures SizesOf(b, keys).Keys == Segments(b, lp)
    ensures forall n :: n in SizesOf(b, keys) ==>
              exists k :: k in Under(b, lp) && LastSegment(k) == n && b[k].size == SizesOf(b, keys)[n]
  {
    var sizes := SizesOf(b, keys);
    forall n | n in sizes
      ensures n in Segments(b, lp)
      ensures exists k :: k in Under(b, lp) && LastSegment(k) == n && b[k].size == sizes[n]
    {
      var i := SizesOfFrom(b, keys, n);
      assert keys[i] in Elems(keys);
    }
    forall n | n in Segments(b, lp) ensures n in sizes {
      var k :| k in Under(b, lp) && LastSegment(k) == n;
      assert k in Elems(keys);
      var i :| 0 <= i < |keys| && keys[i] == k;
      SizesOfHas(b, keys, i);
    }
  }

  // ------------------------------------------------------------ deletes

  /** The listed keys the delete pass marks, in listing order. */
  function Marked(keys: seq<string>, keep: set<string>): (marked: seq<string>)
    ensures forall k :: k in Elems(marked) <==> k in Elems(keys) && LastSegment(k) != [] && LastSegment(k) !in keep
    ensures Distinct(keys) ==> Distinct(marked)
  {
    if keys == [] then []
    else
      var rest := Marked(keys[1..], keep);
      assert Elems(keys) == {keys[0]} + Elems(keys[1..]);
      var k := keys[0];
      assert Distinct(keys) ==> k !in Elems(keys[1..]) && Distinct(keys[1..]);
      if LastSegment(k) != [] && LastSegment(k) !in keep then [k] + rest else rest
  }

  /** Marking only drops keys, so an ascending listing stays ascending. */
  lemma {:induction false} MarkedAscending(keys: seq<string>, keep: set<string>)
    requires Ascending(keys)
    ensures Ascending(Marked(keys, keep))
    decreases |keys|
  {
    if keys != [] {
      var k, tail := keys[0], keys[1..];
      assert Ascending(tail) by {
        forall i, j | 0 <= i < j < |tail| ensures Below(tail[i], tail[j]) {
          assert tail[i] == keys[i + 1] && tail[j] == keys[j + 1];
        }
      }
      MarkedAscending(tail, keep);
      var rest := Marked(tail, keep);
      if LastSegment(k) != [] && LastSegment(k) !in keep {
        forall j | 0 <= j < |rest| ensures Below(k, rest[j]) {
          FirstBelowRest(keys, rest, j);
        }
        ConsAscending(k, rest);
      }
    }
  }

  /** A marked key of the tail sorts after the listing's first key. */
  lemma FirstBelowRest(keys: seq<string>, rest: seq<string>, j: nat)
    requires keys != [] && Ascending(keys)
    requires forall k :: k in Elems(rest) ==> k in Elems(keys[1..])
    requires j < |rest|
    ensures Below(keys[0], rest[j])
  {
    assert rest[j] in Elems(rest);
    var t :| 0 <= t < |keys[1..]| && keys[1..][t] == rest[j];
    assert keys[t + 1] == rest[j];
  }

  /** A key below every key of an ascending list extends it at the front. */
  lemma ConsAscending(k: string, rest: seq<string>)
    requires Ascending(rest)
    requires forall j :: 0 <= j < |rest| ==> Below(k, rest[j])
    ensures Ascending([k] + rest)
  {
    var xs := [k] + rest;
    forall i, j | 0 <= i < j < |xs| ensures Below(xs[i], xs[j]) {
      assert xs[j] == rest[j - 1];
      if i > 0 {
        assert xs[i] == rest[i - 1];
      }
    }
  }

  /** `_s3_delete_extras`: list under the listing prefix, mark every key
      whose last segment is non-empty and not kept, and delete the marked
      keys in requests of at most `MaxBatch`. Exactly the marked keys go;
      `deleted` is the number of keys sent, the sum of the request sizes. */
  method DeleteExtras(b: Bucket, prefix: string, keep: set<string>)
    returns (after: Bucket, requests: seq<seq<string>>, deleted: nat)
    ensures after == b - Extras(b, ListPrefix(prefix), keep)
    ensures deleted == |Extras(b, ListPrefix(prefix), keep)| == |Flatten(requests)|
    ensures Elems(Flatten(requests)) == Extras(b, ListPrefix(prefix), keep)
    ensures forall i :: 0 <= i < |requests| ==> 0 < |requests[i]| <= MaxBatch
    ensures |requests| == (deleted + MaxBatch - 1) / MaxBatch
    ensures Distinct(Flatten(requests)) && requests == Chunks(Flatten(requests))
    ensures Ascending(Flatten(requests))
  {
    var lp := ListPrefix(prefix);
    var keys := List(b, lp);
    var marked := Marked(keys, keep);
    MarkedAscending(keys, keep);
    after, requests, deleted := DeleteInBatches(b, marked);
    ChunksSpec(marked);
    assert Elems(marked) == Extras(b, lp, keep);
    DistinctCard(marked);
  }

  // ------------------------------------------------------------- uploads

  /** The size gate lets the file through: the destination has no size for
      the name, or another one. */
  predicate Changed(src: Dict<BlsFile>, dst: Sizes, n: string)
    requires n in src.entries
  {
    !(n in dst && dst[n] == src.entries[n].size)
  }

  /** The names in `names` the size gate lets through, in order. */
  function Pending(src: Dict<BlsFile>, dst: Sizes, names: seq<string>): (p: seq<string>)
    requires forall i :: 0 <= i < |names| ==> names[i] in src.entries
    ensures forall n :: n in Elems(p) <==> n in Elems(names) && Changed(src, dst, n)
    ensures forall i :: 0 <= i < |p| ==> p[i] in Elems(names)
    ensures Distinct(names) ==> Distinct(p)
  {
    if names == [] then []
    else
      var rest := Pending(src, dst, names[1..]);
      assert Elems(names) == {names[0]} + Elems(names[1..]);
      var n := names[0];
      assert Distinct(names) ==> n !in Elems(names[1..]) && Distinct(names[1..]);
      assert forall i :: 0 <= i < |rest| ==> rest[i] in Elems(rest);
      if Changed(src, dst, n) then [n] + rest else rest
  }

  /** Where each name `Pending` keeps stands in `names`: the kept names
      are picked out of `names` in their order. */
  ghost function PendingIndices(src: Dict<BlsFile>, dst: Sizes, names: seq<string>): (idx: seq<nat>)
    requires forall i :: 0 <= i < |names| ==> names[i] in src.entries
    ensures PicksInOrder(Pending(src, dst, names), names, idx)
  {
    if names == [] then []
    else
      var rest := Pending(src, dst, names[1..]);
      var r := PendingIndices(src, dst, names[1..]);
      PicksFromTail(rest, names, r);
      if Changed(src, dst, names[0]) then [0] + Shift(r) else Shift(r)
  }

  /** The source's order lists names of the source. */
  lemma OrderInEntries(src: Dict<BlsFile>)
    requires src.Valid()
    ensures forall i :: 0 <= i < |src.order| ==> src.order[i] in src.entries
    ensures Elems(src.order) == src.entries.Keys
  {
    forall i | 0 <= i < |src.order| ensures src.order[i] in src.entries {
      assert src.order[i] in src.order;
    }
  }

  /** The size gate over the whole source, in source order, lists each
      name of the size-gated plan once. */
  lemma PendingIsPlan(src: Dict<BlsFile>, dst: Sizes)
    requires src.Valid()
    requires forall i :: 0 <= i < |src.order| ==> src.order[i] in src.entries
    ensures var p := Pending(src, dst, src.order);
            && Distinct(p) && Elems(p) == Uploads(src, dst) && |p| == |Uploads(src, dst)|
            && forall i :: 0 <= i < |p| ==> p[i] in src.entries
  {
    var p := Pending(src, dst, src.order);
    OrderInEntries(src);
    assert Elems(p) == Uploads(src, dst) by {
      forall n ensures n in Elems(p) <==> n in Uploads(src, dst) {
        if n in src.entries {
          assert NeedsUpload(SizeGated, SizeMap(src.entries, (f: BlsFile) => f.size), dst, n) == Changed(src, dst, n);
        }
      }
    }
    DistinctCard(p);
  }

  /** The upload of source file `n`: no metadata, the body of
      `BLS_BASE_URL + name`. */
  function JobOf(n: string): Job {
    Job(UploadKey(BlsPrefix, n), BlsBaseUrl + n, map[])
  }

  function JobsOf(names: seq<string>): (jobs: seq<Job>)
    ensures |jobs| == |names|
    ensures forall i :: 0 <= i < |names| ==> jobs[i] == JobOf(names[i])
  {
    seq(|names|, i requires 0 <= i < |names| => JobOf(names[i]))
  }

  /** The keys the uploads of `names` write. */
  function UploadKeys(names: set<string>): set<string> {
    set n | n in names :: UploadKey(BlsPrefix, n)
  }

  lemma UploadKeyInjective(x: string, y: string)
    requires UploadKey(BlsPrefix, x) == UploadKey(BlsPrefix, y)
    ensures x == y
  {
    assert x == UploadKey(BlsPrefix, x)[|BlsPrefix| + 1..];
    assert y == UploadKey(BlsPrefix, y)[|BlsPrefix| + 1..];
  }

  lemma JobsOfConsistent(names: seq<string>)
    ensures Consistent(JobsOf(names))
  {
    var jobs := JobsOf(names);
    forall x, y | 0 <= x < |jobs| && 0 <= y < |jobs| && jobs[x].key == jobs[y].key
      ensures jobs[x] == jobs[y]
    {
      UploadKeyInjective(names[x], names[y]);
    }
  }

  /** The first `i` uploads of `names` write the upload keys of the first
      `i` names. */
  lemma JobKeysOfJobs(names: seq<string>, i: nat)
    requires i <= |names|
    ensures JobKeys(JobsOf(names)[..i]) == UploadKeys(Elems(names[..i]))
  {
    var jobs := JobsOf(names)[..i];
    var done := names[..i];
    forall k ensures k in JobKeys(jobs) <==> k in UploadKeys(Elems(done)) {
      if k in JobKeys(jobs) {
        var job :| job in jobs && job.key == k;
        var j :| 0 <= j < |jobs| && jobs[j] == job;
        assert done[j] in Elems(done);
      }
      if k in UploadKeys(Elems(done)) {
        var n :| n in Elems(done) && k == UploadKey(BlsPrefix, n);
        var j :| 0 <= j < |done| && done[j] == n;
        assert jobs[j] in jobs;
      }
    }
  }

  /** The names the size gate uploads: the size-gated plan's. */
  function Uploads(src: Dict<BlsFile>, dst: Sizes): (ups: set<string>)
    ensures forall n :: n in ups <==> n in src.entries && (n !in dst || dst[n] != src.entries[n].size)
  {
    MakePlan(SizeGated, SizeMap(src.entries, (f: BlsFile) => f.size), dst).toUpload
  }

  /** The source names in their order, filtered by the size gate: the names
      to upload, each once, in page order. */
  function Queue(src: Dict<BlsFile>, dst: Sizes): (q: seq<string>)
    requires src.Valid()
    ensures Distinct(q) && Elems(q) == Uploads(src, dst) && |q| == |Uploads(src, dst)|
    ensures forall i :: 0 <= i < |q| ==> q[i] in src.entries
    ensures Subsequence(q, src.order)
  {
    OrderInEntries(src);
    PendingIsPlan(src, dst);
    assert PicksInOrder(Pending(src, dst, src.order), src.order, PendingIndices(src, dst, src.order));
    Pending(src, dst, src.order)
  }

  /** Two queued names come in the queue in the order they stand on the
      page, and in no other. */
  lemma QueueInPageOrder(src: Dict<BlsFile>, dst: Sizes, i: nat, j: nat, a: nat, c: nat)
    requires src.Valid()
    requires i < |Queue(src, dst)| && j < |Queue(src, dst)|
    requires a < |src.order| && c < |src.order|
    requires src.order[a] == Queue(src, dst)[i] && src.order[c] == Queue(src, dst)[j]
    ensures i < j <==> a < c
  {
    var q := Queue(src, dst);
    var idx :| PicksInOrder(q, src.order, idx);
    assert src.order[idx[i]] == src.order[a] && src.order[idx[j]] == src.order[c];
    assert idx[i] == a && idx[j] == c;
    if i < j {
      assert idx[i] < idx[j];
    } else if j < i {
      assert idx[j] < idx[i];
    }
  }

  // ---------------------------------------------------------------- sync

  /** The prefix both listings of the sync use. */
  const BlsListPrefix: string := "raw/bls/"

  /** An upload key of the sync lies under its listing prefix and lists as
      its name. */
  lemma UploadKeyOfBls(n: string)
    requires '/' !in n
    ensures UploadKey(BlsPrefix, n) == BlsListPrefix + n
    ensures BlsListPrefix <= UploadKey(BlsPrefix, n)
    ensures LastSegment(UploadKey(BlsPrefix, n)) == n
  {
    LastSegmentOfJoin(BlsPrefix, n);
  }

  /** The counts `_sync_bls_to_s3` returns. */
  datatype Summary = Summary(uploaded: nat, deleted: nat, source: nat, dest: nat)

  /** `dst` is what `_s3_list_sizes` can return for `b`: the segments under
      the listing prefix, each with the size of an object of that segment. */
  ghost predicate Listed(b: Bucket, dst: Sizes) {
    && dst.Keys == Segments(b, BlsListPrefix)
    && forall n :: n in dst ==>
         exists k :: k in Under(b, BlsListPrefix) && LastSegment(k) == n && b[k].size == dst[n]
  }

  /** Each segment name records the size of its greatest key under the
      prefix: the one the ascending listing returns last. */
  ghost predicate ListedLast(b: Bucket, dst: Sizes) {
    forall n :: n in dst ==> exists k :: ListsLast(b, BlsListPrefix, n, k) && b[k].size == dst[n]
  }

  /** Keys outside the listing prefix are as before. */
  ghost predicate OutsideUnchanged(b: Bucket, after: Bucket) {
    forall k :: !(BlsListPrefix <= k) ==> (k in after <==> k in b) && (k in b ==> after[k] == b[k])
  }

  /** The bucket after the uploads of `done`: their keys are added and hold
      the fetched bodies, every other object is as before. */
  ghost predicate Uploaded(b: Bucket, done: set<string>, web: Web, after: Bucket) {
    && after.Keys == b.Keys + UploadKeys(done)
    && (forall n :: n in done ==> Holds(after, JobOf(n), web))
    && (forall k :: k in b && k !in UploadKeys(done) ==> after[k] == b[k])
  }

  /** The bucket after a whole run: the size-gated uploads, then every extra
      of the first listing removed. */
  ghost predicate Synced(src: Dict<BlsFile>, dst: Sizes, b: Bucket, web: Web, after: Bucket) {
    var ups := Uploads(src, dst);
    && after.Keys == (b.Keys + UploadKeys(ups)) - Extras(b, BlsListPrefix, src.entries.Keys)
    && (forall n :: n in ups ==> Holds(after, JobOf(n), web))
    && (forall k :: k in after && k !in UploadKeys(ups) ==> after[k] == b[k])
  }

  /** The first `|q|` calls put the names of `q`, in order. */
  ghost predicate PutsFirst(q: seq<string>, trace: seq<Action>) {
    && |q| <= |trace|
    && forall i :: 0 <= i < |q| ==> trace[i] == PutObject(UploadKey(BlsPrefix, q[i]))
  }

  /** The run stopped at upload `i` of the queue: its fetch failed, the
      uploads before it are done and nothing was deleted. */
  ghost predicate Stopped(src: Dict<BlsFile>, dst: Sizes, b: Bucket, web: Web,
                          after: Bucket, trace: seq<Action>, e: SyncError, i: nat)
    requires src.Valid()
  {
    var q := Queue(src, dst);
    && i < |q| && |trace| == i
    && e == TransferError(BlsBaseUrl + q[i]) && BlsBaseUrl + q[i] !in web
    && PutsFirst(q[..i], trace)
    && Uploaded(b, Elems(q[..i]), web, after)
  }

  /** The first `i` uploads of `q`, carried out by the upload loop. */
  lemma UploadedPrefix(b: Bucket, q: seq<string>, web: Web, i: nat)
    requires i <= |q| && Fetched(JobsOf(q), web, i)
    ensures Uploaded(b, Elems(q[..i]), web, Applied(b, JobsOf(q), web, i))
    ensures i == |q| ==> Uploaded(b, Elems(q), web, Applied(b, JobsOf(q), web, i))
  {
    assert q[..|q|] == q;
    AppliedKeys(b, q, web, i);
    AppliedAllHold(b, q, web, i);
  }

  /** The upload loop adds the upload keys of the names done and leaves
      every other object alone. */
  lemma AppliedKeys(b: Bucket, q: seq<string>, web: Web, i: nat)
    requires i <= |q| && Fetched(JobsOf(q), web, i)
    ensures var u, done := Applied(b, JobsOf(q), web, i), UploadKeys(Elems(q[..i]));
            && u.Keys == b.Keys + done
            && forall k :: k in b && k !in done ==> u[k] == b[k]
  {
    var u := Applied(b, JobsOf(q), web, i);
    JobKeysOfJobs(q, i);
    forall k ensures (k in u <==> k in b || k in UploadKeys(Elems(q[..i])))
                  && (k in b && k !in UploadKeys(Elems(q[..i])) ==> u[k] == b[k]) {
      AppliedKey(b, JobsOf(q), web, i, k);
    }
  }

  /** Every name done holds the body fetched for it. */
  lemma AppliedAllHold(b: Bucket, q: seq<string>, web: Web, i: nat)
    requires i <= |q| && Fetched(JobsOf(q), web, i)
    ensures forall n :: n in Elems(q[..i]) ==> Holds(Applied(b, JobsOf(q), web, i), JobOf(n), web)
  {
    JobsOfConsistent(q);
    forall n | n in Elems(q[..i]) ensures Holds(Applied(b, JobsOf(q), web, i), JobOf(n), web) {
      var j :| 0 <= j < i && q[..i][j] == n;
      AppliedHolds(b, JobsOf(q), web, i, j);
    }
  }

  /** The second listing finds the same extras as the first: every upload
      key lists as a kept name. */
  lemma ExtrasAfterUploads(b: Bucket, u: Bucket, ups: set<string>, keep: set<string>)
    requires u.Keys == b.Keys + UploadKeys(ups)
    requires ups <= keep
    requires forall n :: n in ups ==> '/' !in n
    ensures Extras(u, BlsListPrefix, keep) == Extras(b, BlsListPrefix, keep)
  {
    forall k | k in UploadKeys(ups) ensures LastSegment(k) in keep {
      var n :| n in ups && k == UploadKey(BlsPrefix, n);
      UploadKeyOfBls(n);
    }
  }

  /** Uploads only touch keys under the listing prefix. */
  lemma UploadedOutside(b: Bucket, done: set<string>, web: Web, after: Bucket)
    requires Uploaded(b, done, web, after)
    requires forall n :: n in done ==> '/' !in n
    ensures OutsideUnchanged(b, after)
  {
    forall k | k in UploadKeys(done) ensures BlsListPrefix <= k {
      var n :| n in done && k == UploadKey(BlsPrefix, n);
      UploadKeyOfBls(n);
    }
  }

  /** After the uploads, the delete pass removes the extras of the first
      listing and nothing the uploads wrote. */
  lemma SyncedOutcome(src: Dict<BlsFile>, dst: Sizes, b: Bucket, web: Web, u: Bucket, after: Bucket)
    requires forall n :: n in src.entries ==> '/' !in n
    requires Uploaded(b, Uploads(src, dst), web, u)
    requires after == u - Extras(u, BlsListPrefix, src.entries.Keys)
    ensures Synced(src, dst, b, web, after)
    ensures OutsideUnchanged(b, after)
    ensures Extras(u, BlsListPrefix, src.entries.Keys) == Extras(b, BlsListPrefix, src.entries.Keys)
  {
    var ups, keep := Uploads(src, dst), src.entries.Keys;
    ExtrasAfterUploads(b, u, ups, keep);
    forall n | n in ups ensures Holds(after, JobOf(n), web) {
      UploadKeyOfBls(n);
    }
    assert OutsideUnchanged(b, u) by {
      UploadedOutside(b, ups, web, u);
    }
  }

  /** Every fetch of the queue succeeded: all its uploads are done. */
  lemma UploadedAll(src: Dict<BlsFile>, dst: Sizes, b: Bucket, web: Web)
    requires src.Valid()
    requires forall n :: n in src.entries ==> '/' !in n
    requires Fetched(JobsOf(Queue(src, dst)), web, |Queue(src, dst)|)
    ensures Uploaded(b, Uploads(src, dst), web, Applied(b, JobsOf(Queue(src, dst)), web, |Queue(src, dst)|))
  {
    var q := Queue(src, dst);
    QueuePlain(src, dst, |q|);
    UploadedPrefix(b, q, web, |q|);
  }

  /** The puts of the queue come first, then the delete requests for
      `keys`. */
  lemma SyncTrace(q: seq<string>, keys: seq<string>)
    ensures PutsFirst(q, PutActions(JobsOf(q)) + DeleteActions(Chunks(keys)))
    ensures DeletesAfter(|q|, PutActions(JobsOf(q)) + DeleteActions(Chunks(keys)), keys)
  {
    var puts := PutActions(JobsOf(q));
    var trace := puts + DeleteActions(Chunks(keys));
    assert forall i :: 0 <= i < |puts| ==> trace[i] == puts[i];
    DeletesAppended(puts, keys);
  }

  /** The calls after the queued puts delete every extra of `b` (a key
      under the prefix whose non-empty last segment is not kept), each once
      and in ascending listing order, `MaxBatch` keys per request. */
  ghost predicate DeletesExtras(q: seq<string>, b: Bucket, keep: set<string>, trace: seq<Action>) {
    exists keys ::
      && Distinct(keys) && Ascending(keys)
      && Elems(keys) == Extras(b, BlsListPrefix, keep)
      && DeletesAfter(|q|, trace, keys)
  }

  /** The extras' deletes are requests of 1 to `MaxBatch` keys, one for
      every `MaxBatch` extras or part of it. */
  lemma DeletesExtrasShape(q: seq<string>, b: Bucket, keep: set<string>, trace: seq<Action>)
    requires DeletesExtras(q, b, keep, trace)
    ensures forall i :: |q| <= i < |trace| ==> trace[i].DeleteObjects? && 0 < |trace[i].keys| <= MaxBatch
    ensures |trace| - |q| == (|Extras(b, BlsListPrefix, keep)| + MaxBatch - 1) / MaxBatch
  {
    var keys :| && Distinct(keys) && Ascending(keys)
                && Elems(keys) == Extras(b, BlsListPrefix, keep)
                && DeletesAfter(|q|, trace, keys);
    DeletesAfterShape(|q|, trace, keys);
    DistinctCard(keys);
  }

  /** The queued names are source names, so none holds a `/`. */
  lemma QueuePlain(src: Dict<BlsFile>, dst: Sizes, i: nat)
    requires src.Valid()
    requires forall n :: n in src.entries ==> '/' !in n
    requires i <= |Queue(src, dst)|
    ensures forall j :: 0 <= j < |Queue(src, dst)| ==> '/' !in Queue(src, dst)[j]
    ensures forall n :: n in Elems(Queue(src, dst)[..i]) ==> '/' !in n
  {
    var q := Queue(src, dst);
    forall n | n in Elems(q[..i]) ensures '/' !in n {
      var j :| 0 <= j < i && q[..i][j] == n;
      assert q[j] in src.entries;
    }
  }

  /** The first `i` put actions name the first `i` queued names. */
  lemma PutsOfQueue(q: seq<string>, i: nat)
    requires i <= |q|
    ensures PutsFirst(q[..i], PutActions(JobsOf(q)[..i]))
  {
    var trace := PutActions(JobsOf(q)[..i]);
    forall j | 0 <= j < i ensures trace[j] == PutObject(UploadKey(BlsPrefix, q[..i][j])) {
      assert JobsOf(q)[..i][j] == JobsOf(q)[j];
    }
  }

  /** A run stopped by a failed fetch: the earlier uploads are done, the
      keys outside the prefix untouched and nothing deleted. */
  lemma StoppedOutcome(src: Dict<BlsFile>, dst: Sizes, b: Bucket, web: Web, i: nat)
    requires src.Valid()
    requires forall n :: n in src.entries ==> '/' !in n
    requires i < |Queue(src, dst)| && Fetched(JobsOf(Queue(src, dst)), web, i)
    requires BlsBaseUrl + Queue(src, dst)[i] !in web
    ensures var q := Queue(src, dst); var after := Applied(b, JobsOf(q), web, i);
            && Stopped(src, dst, b, web, after, PutActions(JobsOf(q)[..i]), TransferError(BlsBaseUrl + q[i]), i)
            && OutsideUnchanged(b, after)
  {
    var q := Queue(src, dst);
    var after := Applied(b, JobsOf(q), web, i);
    QueuePlain(src, dst, i);
    UploadedPrefix(b, q, web, i);
    UploadedOutside(b, Elems(q[..i]), web, after);
    PutsOfQueue(q, i);
  }

  /** `_sync_bls_to_s3` once the source files are collected by name: list
      the destination sizes, upload the names the size gate lets through in
      source order, stopping at the first failed fetch, then delete the
      extras of a second listing. `dst` is the first listing. */
  method SyncFiles(src: Dict<BlsFile>, b: Bucket, web: Web)
    returns (dst: Sizes, after: Bucket, trace: seq<Action>, r: Result<Summary>)
    requires src.Valid()
    requires forall n :: n in src.entries ==> n != [] && '/' !in n
    ensures Listed(b, dst) && ListedLast(b, dst)
    ensures OutsideUnchanged(b, after)
    ensures r.Ok? ==> Synced(src, dst, b, web, after)
    ensures r.Ok? ==> Names(after, BlsListPrefix) == src.entries.Keys
    ensures r.Ok? ==> r.value == Summary(|Uploads(src, dst)|, |Extras(b, BlsListPrefix, src.entries.Keys)|,
                                         |src.entries|, |dst|)
    ensures r.Ok? ==> PutsFirst(Queue(src, dst), trace) && DeletesExtras(Queue(src, dst), b, src.entries.Keys, trace)
    ensures r.Err? ==> exists i :: Stopped(src, dst, b, web, after, trace, r.error, i)
  {
    ListPrefixOfBls();
    dst := ListSizes(b, BlsPrefix);
    var q := Queue(src, dst);
    var jobs := JobsOf(q);
    var u, done, failed := PutAll(b, jobs, web);
    if failed.Some? {
      after, trace, r := u, PutActions(jobs[..done]), Err(TransferError(failed.value));
      StoppedOutcome(src, dst, b, web, done);
      return;
    }
    var requests, deleted;
    after, requests, deleted := DeleteExtras(u, BlsPrefix, src.entries.Keys);
    trace := PutActions(jobs) + DeleteActions(requests);
    r := Ok(Summary(|jobs|, deleted, |src.entries|, |dst|));
    UploadedAll(src, dst, b, web);
    SyncedOutcome(src, dst, b, web, u, after);
    SyncTrace(q, Flatten(requests));
    Converges(src, dst, b, web, after);
  }

  /** Upload keys lie under the prefix and list as the names they were
      uploaded for. */
  lemma UploadKeysListed(ups: set<string>)
    requires forall m :: m in ups ==> '/' !in m
    ensures forall k :: k in UploadKeys(ups) ==> BlsListPrefix <= k && LastSegment(k) in ups
  {
    forall k | k in UploadKeys(ups) ensures BlsListPrefix <= k && LastSegment(k) in ups {
      var n :| n in ups && k == UploadKey(BlsPrefix, n);
      UploadKeyOfBls(n);
    }
  }

  /** After a run every non-empty segment under the prefix is a source name. */
  lemma SyncedNamesKept(src: Dict<BlsFile>, dst: Sizes, b: Bucket, web: Web, after: Bucket)
    requires forall n :: n in src.entries ==> '/' !in n
    requires Synced(src, dst, b, web, after)
    ensures Names(after, BlsListPrefix) <= src.entries.Keys
  {
    var ups := Uploads(src, dst);
    forall k | k in Under(after, BlsListPrefix) && LastSegment(k) != []
      ensures LastSegment(k) in src.entries
    {
      UploadKeysListed(ups);
      if k !in UploadKeys(ups) {
        assert k in Under(b, BlsListPrefix);
      }
    }
  }

  /** A source name the size gate skipped still lists after the run, with
      an object of its listed size: the one whose size the first listing
      recorded. */
  lemma SkippedStays(src: Dict<BlsFile>, dst: Sizes, b: Bucket, web: Web, after: Bucket, n: string)
    returns (k: string)
    requires forall m :: m in src.entries ==> '/' !in m
    requires Listed(b, dst) && Synced(src, dst, b, web, after)
    requires n in src.entries && n !in Uploads(src, dst)
    ensures k in Under(after, BlsListPrefix) && LastSegment(k) == n
    ensures after[k].size == src.entries[n].size
  {
    var ups := Uploads(src, dst);
    assert !NeedsUpload(SizeGated, SizeMap(src.entries, (f: BlsFile) => f.size), dst, n);
    k :| k in Under(b, BlsListPrefix) && LastSegment(k) == n && b[k].size == dst[n];
    UploadKeysListed(ups);
    assert k !in UploadKeys(ups);
    assert k !in Extras(b, BlsListPrefix, src.entries.Keys);
    assert k in after && after[k] == b[k];
  }

  /** An uploaded source name lists after the run under its upload key. */
  lemma UploadedStays(src: Dict<BlsFile>, dst: Sizes, b: Bucket, web: Web, after: Bucket, n: string)
    requires forall m :: m in src.entries ==> '/' !in m
    requires Synced(src, dst, b, web, after)
    requires n in Uploads(src, dst)
    ensures UploadKey(BlsPrefix, n) in Under(after, BlsListPrefix)
    ensures LastSegment(UploadKey(BlsPrefix, n)) == n
  {
    UploadKeyOfBls(n);
  }

  /** Convergence: after a run the non-empty segment names under the prefix
      are exactly the source names. */
  lemma Converges(src: Dict<BlsFile>, dst: Sizes, b: Bucket, web: Web, after: Bucket)
    requires forall n :: n in src.entries ==> n != [] && '/' !in n
    requires Listed(b, dst) && Synced(src, dst, b, web, after)
    ensures Names(after, BlsListPrefix) == src.entries.Keys
  {
    SyncedNamesKept(src, dst, b, web, after);
    forall n | n in src.entries ensures n in Names(after, BlsListPrefix) {
      if n in Uploads(src, dst) {
        UploadedStays(src, dst, b, web, after, n);
      } else {
        var k := SkippedStays(src, dst, b, web, after, n);
      }
    }
  }

  /** A name the size gate skipped keeps an object of its listed size. */
  lemma SkippedKeepSize(src: Dict<BlsFile>, dst: Sizes, b: Bucket, web: Web, after: Bucket)
    requires forall n :: n in src.entries ==> '/' !in n
    requires Listed(b, dst) && Synced(src, dst, b, web, after)
    ensures forall n :: n in src.entries && n !in Uploads(src, dst) ==>
              exists k :: k in Under(after, BlsListPrefix) && LastSegment(k) == n && after[k].size == src.entries[n].size
  {
    forall n | n in src.entries && n !in Uploads(src, dst)
      ensures exists k :: k in Under(after, BlsListPrefix) && LastSegment(k) == n && after[k].size == src.entries[n].size
    {
      var k := SkippedStays(src, dst, b, web, after, n);
    }
  }

  /** The source of a run: the page's files by name. */
  function Source(html: string): (src: Dict<BlsFile>)
    ensures src.Valid()
    ensures src.entries.Keys == set f | f in ListFiles(html) :: f.name
    ensures forall n :: n in src.entries ==> n != [] && '/' !in n && src.entries[n].name == n
  {
    ByNameSpec(ListFiles(html));
    ByName(ListFiles(html))
  }

  /** `_sync_bls_to_s3`: the page's files by name, synced to the bucket.
      With no rows on the page nothing is uploaded and every object under
      the prefix with a non-empty last segment is deleted. */
  method Sync(html: string, b: Bucket, web: Web)
    returns (dst: Sizes, after: Bucket, trace: seq<Action>, r: Result<Summary>)
    ensures Listed(b, dst) && ListedLast(b, dst)
    ensures OutsideUnchanged(b, after)
    ensures r.Ok? ==> Synced(Source(html), dst, b, web, after)
    ensures r.Ok? ==> Names(after, BlsListPrefix) == set f | f in ListFiles(html) :: f.name
    ensures r.Ok? ==> r.value == Summary(|Uploads(Source(html), dst)|,
                                         |Extras(b, BlsListPrefix, Source(html).entries.Keys)|,
                                         |Source(html).entries|, |dst|)
    ensures r.Ok? ==> PutsFirst(Queue(Source(html), dst), trace)
                      && DeletesExtras(Queue(Source(html), dst), b, Source(html).entries.Keys, trace)
    ensures r.Err? ==> exists i :: Stopped(Source(html), dst, b, web, after, trace, r.error, i)
    ensures '<' !in html ==> r.Ok? && r.value.uploaded == 0 && r.value.source == 0
                             && Names(after, BlsListPrefix) == {}
  {
    var src := Source(html);
    dst, after, trace, r := SyncFiles(src, b, web);
    if '<' !in html {
      ScanNoTag(html);
      assert src.entries.Keys == {};
    }
  }

  // --------------------------------------------------------- second run

  /** The bucket agrees with the source: the non-empty segments under the
      prefix are the source names, and every object listed under a source
      name has that file's listed size. */
  ghost predicate InStep(src: Dict<BlsFile>, b: Bucket) {
    && Names(b, BlsListPrefix) == src.entries.Keys
    && forall k :: k in Under(b, BlsListPrefix) && LastSegment(k) in src.entries ==>
         b[k].size == src.entries[LastSegment(k)].size
  }

  /** Every object under the prefix sits directly under it. */
  ghost predicate Flat(b: Bucket) {
    forall k :: k in Under(b, BlsListPrefix) ==> k == BlsListPrefix + LastSegment(k)
  }

  /** Every body served for a source file has the file's listed size. */
  ghost predicate Faithful(src: Dict<BlsFile>, web: Web) {
    forall n :: n in src.entries && BlsBaseUrl + n in web ==> |web[BlsBaseUrl + n]| == src.entries[n].size
  }

  /** A run against a bucket in step with the source uploads nothing and
      deletes nothing, whatever order the listing comes in. */
  lemma InStepQuiet(src: Dict<BlsFile>, b: Bucket, dst: Sizes)
    requires InStep(src, b) && Listed(b, dst)
    ensures Uploads(src, dst) == {}
    ensures Extras(b, BlsListPrefix, src.entries.Keys) == {}
  {
    forall n | n in src.entries ensures n in dst && dst[n] == src.entries[n].size {
      assert n in Names(b, BlsListPrefix);
      var k :| k in Under(b, BlsListPrefix) && LastSegment(k) == n;
      assert n in Segments(b, BlsListPrefix);
      var k' :| k' in Under(b, BlsListPrefix) && LastSegment(k') == n && b[k'].size == dst[n];
    }
    forall k | k in Under(b, BlsListPrefix) && LastSegment(k) != []
      ensures LastSegment(k) in src.entries
    {
      assert LastSegment(k) in Names(b, BlsListPrefix);
    }
  }

  /** A run that succeeds on a flat bucket, with bodies of the listed
      sizes, leaves the bucket flat and in step with the source. */
  lemma SyncedInStep(src: Dict<BlsFile>, dst: Sizes, b: Bucket, web: Web, after: Bucket)
    requires forall n :: n in src.entries ==> n != [] && '/' !in n
    requires Flat(b) && Faithful(src, web)
    requires Listed(b, dst) && Synced(src, dst, b, web, after)
    ensures InStep(src, after) && Flat(after)
  {
    Converges(src, dst, b, web, after);
    SyncedFlat(src, dst, b, web, after);
    forall k | k in Under(after, BlsListPrefix) && LastSegment(k) in src.entries
      ensures after[k].size == src.entries[LastSegment(k)].size
    {
      SyncedSize(src, dst, b, web, after, k);
    }
  }

  /** Uploads write directly under the prefix, so a flat bucket stays flat. */
  lemma SyncedFlat(src: Dict<BlsFile>, dst: Sizes, b: Bucket, web: Web, after: Bucket)
    requires forall n :: n in src.entries ==> '/' !in n
    requires Flat(b) && Synced(src, dst, b, web, after)
    ensures Flat(after)
  {
    var ups := Uploads(src, dst);
    UploadKeysListed(ups);
    forall k | k in Under(after, BlsListPrefix) ensures k == BlsListPrefix + LastSegment(k) {
      if k in UploadKeys(ups) {
        UploadKeyOfBls(LastSegment(k));
        var n :| n in ups && k == UploadKey(BlsPrefix, n);
      } else {
        assert k in Under(b, BlsListPrefix);
      }
    }
  }

  /** On a flat bucket with bodies of the listed sizes, each object a run
      leaves under a source name has that file's size: either it was just
      uploaded, or it is the very object the first listing measured. */
  lemma SyncedSize(src: Dict<BlsFile>, dst: Sizes, b: Bucket, web: Web, after: Bucket, k: string)
    requires forall n :: n in src.entries ==> '/' !in n
    requires Flat(b) && Faithful(src, web)
    requires Listed(b, dst) && Synced(src, dst, b, web, after)
    requires k in Under(after, BlsListPrefix) && LastSegment(k) in src.entries
    ensures after[k].size == src.entries[LastSegment(k)].size
  {
    var ups := Uploads(src, dst);
    if k in UploadKeys(ups) {
      var m :| m in ups && k == UploadKey(BlsPrefix, m);
      UploadKeyOfBls(m);
      UploadedSize(src, web, after, m);
    } else {
      var n := LastSegment(k);
      assert k in Under(b, BlsListPrefix) && after[k] == b[k];
      UploadKeyOfBls(n);
      assert n !in ups by {
        assert k == UploadKey(BlsPrefix, n);
      }
      KeptSize(src, dst, b, k);
    }
  }

  /** An uploaded object has the listed size when the body does. */
  lemma UploadedSize(src: Dict<BlsFile>, web: Web, after: Bucket, n: string)
    requires n in src.entries && Faithful(src, web)
    requires Holds(after, JobOf(n), web)
    ensures after[UploadKey(BlsPrefix, n)].size == src.entries[n].size
  {
  }

  /** On a flat bucket the size the first listing recorded for a name is
      the size of that name's only object, so a skipped name's object has
      the listed size. */
  lemma KeptSize(src: Dict<BlsFile>, dst: Sizes, b: Bucket, k: string)
    requires Flat(b) && Listed(b, dst)
    requires k in Under(b, BlsListPrefix) && LastSegment(k) in src.entries
    requires LastSegment(k) !in Uploads(src, dst)
    ensures b[k].size == src.entries[LastSegment(k)].size
  {
    var n := LastSegment(k);
    var k' :| k' in Under(b, BlsListPrefix) && LastSegment(k') == n && b[k'].size == dst[n];
  }

  /** Idempotence: after a successful run on a flat bucket with bodies of
      the listed sizes, the next run with the same page uploads nothing and
      deletes nothing. */
  lemma SecondRunQuiet(src: Dict<BlsFile>, dst: Sizes, b: Bucket, web: Web, after: Bucket, dst2: Sizes)
    requires forall n :: n in src.entries ==> n != [] && '/' !in n
    requires Flat(b) && Faithful(src, web)
    requires Listed(b, dst) && Synced(src, dst, b, web, after)
    requires Listed(after, dst2)
    ensures Uploads(src, dst2) == {}
    ensures Extras(after, BlsListPrefix, src.entries.Keys) == {}
  {
    SyncedInStep(src, dst, b, web, after);
    InStepQuiet(src, after, dst2);
  }

  /** A nested object can stand in for a missing one: an object
      `raw/bls/old/x` of the listed size makes the gate skip `x`, so
      `raw/bls/x` is never written. */
  lemma NestedKeyMasks(dst: Sizes)
    requires Listed(map["raw/bls/old/x" := Object(3, map[])], dst)
    ensures "x" !in Uploads(Dict(["x"], map["x" := BlsFile("x", 3)]), dst)
    ensures UploadKey(BlsPrefix, "x") !in map["raw/bls/old/x" := Object(3, map[])]
  {
    NestedListing(dst);
    assert |UploadKey(BlsPrefix, "x")| == 9;
  }

  /** The one nested object lists under the name `x` with its size. */
  lemma NestedListing(dst: Sizes)
    requires Listed(map["raw/bls/old/x" := Object(3, map[])], dst)
    ensures "x" in dst && dst["x"] == 3
  {
    var b := map["raw/bls/old/x" := Object(3, map[])];
    var k := "raw/bls/old/x";
    assert Under(b, BlsListPrefix) == {k} by {
      assert BlsListPrefix <= k;
    }
    assert LastSegment(k) == "x" by {
      LastSegmentOfJoin("raw/bls/old", "x");
      assert "raw/bls/old" + "/" + "x" == k;
    }
    assert "x" in Segments(b, BlsListPrefix);
  }
}
