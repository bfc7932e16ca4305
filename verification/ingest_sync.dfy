/** The command-line true sync (`sync_bls_to_s3` in data/ingestion/ingest.py):
    normalise the key prefix, read the manifest, list the destination under
    the prefix, upload every manifest file, then delete the destination names
    the manifest does not have, in requests of at most 1000 keys. */
module IngestSync {
  import opened Text
  import opened Outcomes
  import opened Dicts
  import opened Batching
  import opened Store
  import opened Transfer
  import opened Reconcile
  import opened IngestListing

  // ------------------------------------------------------------ key prefix

  /** The prefix with surrounding whitespace and then surrounding slashes
      removed, followed by one `/` when anything is left, and empty
      otherwise. */
  function KeyPrefix(prefix: string): (kp: string)
    ensures kp == [] || (2 <= |kp| && kp[|kp| - 1] == '/' && kp[0] != '/' && kp[|kp| - 2] != '/')
  {
    var p := Strip(Strip(prefix, Space), Only('/'));
    if p == [] then [] else p + "/"
  }

  /** Slashes around a core that has none at its ends are dropped and one
      trailing slash is added, provided no whitespace sits at the very ends. */
  lemma KeyPrefixOfCore(lead: string, core: string, trail: string)
    requires core != [] && core[0] != '/' && core[|core| - 1] != '/'
    requires AllIn(Only('/'), lead) && AllIn(Only('/'), trail)
    requires var s := lead + core + trail; !IsSpace(s[0]) && !IsSpace(s[|s| - 1])
    ensures KeyPrefix(lead + core + trail) == core + "/"
  {
    StripClean(lead + core + trail, Space);
    StripAround(lead, core, trail, Only('/'));
  }

  /** `"raw/bls/"` and `"/raw/bls"` name the same destination. */
  lemma KeyPrefixTrailingSlash()
    ensures KeyPrefix("raw/bls/") == "raw/bls/"
  {
    KeyPrefixOfCore("", "raw/bls", "/");
    assert "" + "raw/bls" + "/" == "raw/bls/";
  }

  lemma KeyPrefixLeadingSlash()
    ensures KeyPrefix("/raw/bls") == "raw/bls/"
  {
    KeyPrefixOfCore("/", "raw/bls", "");
    assert "/" + "raw/bls" + "" == "/raw/bls";
  }

  /** A blank prefix, or slashes only with whitespace around them, puts
      keys at the bucket root. */
  lemma KeyPrefixBlank(w1: string, slashes: string, w2: string)
    requires AllIn(Space, w1) && AllIn(Only('/'), slashes) && AllIn(Space, w2)
    ensures KeyPrefix(w1 + slashes + w2) == []
  {
    if slashes == [] {
      assert w1 + slashes + w2 == w1 + w2;
      assert AllIn(Space, w1 + w2);
      StripAll(w1 + w2, Space);
      StripAll([], Only('/'));
    } else {
      StripAround(w1, slashes, w2, Space);
      StripAll(slashes, Only('/'));
    }
  }

  /** Whitespace is stripped before the slashes, so whitespace just inside
      a slash survives and a second normalisation changes the prefix again. */
  lemma KeyPrefixInnerSpace()
    ensures KeyPrefix("/ raw /") == " raw /"
    ensures KeyPrefix(" raw /") == "raw /"
  {
    KeyPrefixFirstPass();
    KeyPrefixSecondPass();
  }

  lemma KeyPrefixFirstPass()
    ensures KeyPrefix("/ raw /") == " raw /"
  {
    KeyPrefixOfCore("/", " raw ", "/");
    assert "/" + " raw " + "/" == "/ raw /";
    assert " raw " + "/" == " raw /";
  }

  lemma KeyPrefixSecondPass()
    ensures KeyPrefix(" raw /") == "raw /"
  {
    SpaceBeforeRaw();
    SlashAfterRaw();
    assert "raw " + "/" == "raw /";
  }

  lemma SpaceBeforeRaw()
    ensures Strip(" raw /", Space) == "raw /"
  {
    StripAround(" ", "raw /", "", Space);
    assert " " + "raw /" + "" == " raw /";
  }

  lemma SlashAfterRaw()
    ensures Strip("raw /", Only('/')) == "raw "
  {
    StripAround("", "raw ", "/", Only('/'));
    assert "" + "raw " + "/" == "raw /";
  }

  // ------------------------------------------------------ destination names

  /** The part of a listed key after the prefix, when the key lies under the
      prefix and that part is non-empty. */
  function DestName(kp: string, key: string): (r: Option<string>)
    ensures r.Some? <==> kp <= key && |kp| < |key|
    ensures r.Some? ==> r.value != [] && kp + r.value == key
  {
    if kp <= key && |kp| < |key| then
      assert kp + key[|kp|..] == key;
      Some(key[|kp|..])
    else None
  }

  /** Joining and splitting the prefix are inverse. */
  lemma DestNameOfJoin(kp: string, name: string)
    requires name != []
    ensures DestName(kp, kp + name) == Some(name)
  {
    assert (kp + name)[|kp|..] == name;
  }

  /** The set of non-empty names under `kp` among `keys`. */
  function DestNames(kp: string, keys: set<string>): (r: set<string>)
    ensures forall n :: n in r <==> n != [] && kp + n in keys
  {
    var r := set k | k in keys && DestName(kp, k).Some? :: DestName(kp, k).value;
    assert forall n :: n != [] && kp + n in keys ==> n in r by {
      forall n | n != [] && kp + n in keys ensures n in r {
        DestNameOfJoin(kp, n);
      }
    }
    r
  }

  /** A key that is `kp` plus a non-empty name. */
  predicate Inside(kp: string, key: string) {
    DestName(kp, key).Some?
  }

  /** A listing under the prefix sees the same names as the whole bucket. */
  lemma DestNamesOfUnder(b: Bucket, kp: string)
    ensures DestNames(kp, Under(b, kp)) == DestNames(kp, b.Keys)
  {
  }

  // ---------------------------------------------------------------- URLs

  /** The base without its trailing slashes and the name without its
      leading ones, joined by exactly one slash. */
  function JoinUrl(base: string, name: string): (url: string)
    ensures |url| <= |base| + 1 + |name|
    ensures exists i, j :: 0 <= i <= |base| && 0 <= j <= |name|
                        && url == base[..i] + "/" + name[j..]
                        && AllIn(Only('/'), base[i..]) && AllIn(Only('/'), name[..j])
                        && (i == 0 || base[i - 1] != '/')
                        && (j == |name| || name[j] != '/')
  {
    var i, j := |base| - TrailLen(base, Only('/')), SpanLen(name, Only('/'));
    assert AllIn(Only('/'), base[i..]) && AllIn(Only('/'), name[..j]);
    RStrip(base, Only('/')) + "/" + LStrip(name, Only('/'))
  }

  /** A base without a trailing slash and a name without a leading one are
      joined as they are, and extra slashes on either side change nothing. */
  lemma JoinUrlClean(base: string, name: string, s1: string, s2: string)
    requires base == [] || base[|base| - 1] != '/'
    requires name == [] || name[0] != '/'
    requires AllIn(Only('/'), s1) && AllIn(Only('/'), s2)
    ensures JoinUrl(base + s1, s2 + name) == base + "/" + name
  {
    TrailLenOfRun(base, s1, Only('/'));
    assert (base + s1)[..|base|] == base;
    SpanLenOfRun(s2, name, Only('/'));
    assert (s2 + name)[|s2|..] == name;
  }

  // ------------------------------------------------------------ metadata

  /** The user metadata written with each object. */
  function Metadata(m: SourceMeta): (md: map<string, string>)
    ensures md.Keys == {"bls_timestamp", "bls_size"}
  {
    map["bls_timestamp" := m.stamp, "bls_size" := Decimal(m.size)]
  }

  /** The metadata gives the listing's stamp and size back. */
  lemma MetadataRoundTrip(m: SourceMeta)
    ensures Metadata(m)["bls_timestamp"] == m.stamp
    ensures AllIn(Digit, Metadata(m)["bls_size"]) && Value(Metadata(m)["bls_size"]) == m.size
  {
    DecimalRoundTrip(m.size);
  }

  // ------------------------------------------------------------------ sync

  /** The counts the run reports: the manifest's and the destination's name
      counts in the checkpoint line, then the uploads and deletes in the
      summary. */
  datatype Report = Report(sources: nat, destinations: nat, uploaded: nat, deleted: nat)

  /** The upload of manifest file `n`: fetched from `base_url` joined with
      `n`, written to `kp + n` with the listing's timestamp and size. */
  function JobFor(m: Dict<SourceMeta>, baseUrl: string, kp: string, n: string): Job
    requires n in m.entries
  {
    Job(kp + n, JoinUrl(baseUrl, n), Metadata(m.entries[n]))
  }

  /** The uploads in manifest order. */
  function Jobs(m: Dict<SourceMeta>, baseUrl: string, kp: string): (jobs: seq<Job>)
    requires forall j :: 0 <= j < |m.order| ==> m.order[j] in m.entries
    ensures |jobs| == |m.order|
    ensures forall j :: 0 <= j < |m.order| ==> jobs[j] == JobFor(m, baseUrl, kp, m.order[j])
  {
    seq(|m.order|, j requires 0 <= j < |m.order| => JobFor(m, baseUrl, kp, m.order[j]))
  }

  /** Two uploads to one key are uploads of one name. */
  lemma JobsConsistent(m: Dict<SourceMeta>, baseUrl: string, kp: string)
    requires forall j :: 0 <= j < |m.order| ==> m.order[j] in m.entries
    ensures Consistent(Jobs(m, baseUrl, kp))
  {
    var jobs := Jobs(m, baseUrl, kp);
    forall x, y | 0 <= x < |jobs| && 0 <= y < |jobs| && jobs[x].key == jobs[y].key
      ensures jobs[x] == jobs[y]
    {
      PrefixInjective(kp, m.order[x], m.order[y]);
    }
  }

  /** The keys of the first `i` uploads. */
  lemma JobKeysOfJobs(m: Dict<SourceMeta>, baseUrl: string, kp: string, i: nat)
    requires forall j :: 0 <= j < |m.order| ==> m.order[j] in m.entries
    requires i <= |m.order|
    ensures JobKeys(Jobs(m, baseUrl, kp)[..i]) == PutKeys(kp, m.order[..i])
  {
    var jobs := Jobs(m, baseUrl, kp);
    assert forall j :: 0 <= j < |jobs| ==> jobs[j].key == kp + m.order[j];
    KeysMatch(jobs, kp, m.order, i);
  }

  /** Jobs keyed `kp + names[j]` have the keys `PutKeys(kp, names)`. */
  lemma KeysMatch(jobs: seq<Job>, kp: string, names: seq<string>, i: nat)
    requires |jobs| == |names| && i <= |jobs|
    requires forall j :: 0 <= j < |jobs| ==> jobs[j].key == kp + names[j]
    ensures JobKeys(jobs[..i]) == PutKeys(kp, names[..i])
  {
    forall k ensures k in JobKeys(jobs[..i]) <==> k in PutKeys(kp, names[..i]) {
      if k in JobKeys(jobs[..i]) {
        var job :| job in jobs[..i] && job.key == k;
        var j :| 0 <= j < i && jobs[..i][j] == job;
        assert names[..i][j] == names[j];
      }
      if k in PutKeys(kp, names[..i]) {
        var n :| n in names[..i] && k == kp + n;
        var j :| 0 <= j < i && names[..i][j] == n;
        assert jobs[..i][j] == jobs[j];
      }
    }
  }

  /** The keys `kp + n` for the names `n` in `names`. */
  function PutKeys(kp: string, names: seq<string>): set<string> {
    set n | n in names :: kp + n
  }

  /** Each name with the key prefix in front, in order. */
  function PrefixAll(kp: string, names: seq<string>): (keys: seq<string>)
    ensures |keys| == |names|
    ensures forall i :: 0 <= i < |names| ==> keys[i] == kp + names[i]
  {
    seq(|names|, i requires 0 <= i < |names| => kp + names[i])
  }

  /** The destination's names under `kp` with their object sizes. */
  function DestSizes(kp: string, b: Bucket): (sizes: Sizes)
    ensures sizes.Keys == DestNames(kp, b.Keys)
  {
    map n | n in DestNames(kp, b.Keys) :: b[kp + n].size
  }

  lemma PrefixInjective(kp: string, x: string, y: string)
    requires kp + x == kp + y
    ensures x == y
  {
    assert x == (kp + x)[|kp|..];
    assert y == (kp + y)[|kp|..];
  }

  lemma DestNamesSnoc(kp: string, xs: seq<string>, key: string)
    ensures DestNames(kp, Elems(xs + [key]))
         == DestNames(kp, Elems(xs)) + (if DestName(kp, key).Some? then {DestName(kp, key).value} else {})
  {
    assert Elems(xs + [key]) == Elems(xs) + {key};
    if DestName(kp, key).Some? {
      DestNameOfJoin(kp, DestName(kp, key).value);
    }
    forall n | n != [] && kp + n == key ensures DestName(kp, key) == Some(n) {
      DestNameOfJoin(kp, n);
    }
  }

  /** The destination listing loop: the non-empty names of the keys under
      the prefix, whatever order the pages come in. */
  method ListNames(b: Bucket, kp: string) returns (names: set<string>)
    ensures names == DestNames(kp, b.Keys)
  {
    var listed := List(b, kp);
    names := {};
    var i := 0;
    while i < |listed|
      invariant 0 <= i <= |listed|
      invariant names == DestNames(kp, Elems(listed[..i]))
    {
      var key := listed[i];
      DestNamesSnoc(kp, listed[..i], key);
      assert listed[..i + 1] == listed[..i] + [key];
      if kp <= key {
        var name := key[|kp|..];
        if name != [] {
          names := names + {name};
        }
      }
      i := i + 1;
    }
    assert listed[..i] == listed;
    DestNamesOfUnder(b, kp);
  }

  /** Step 2 of the sync: upload the manifest files in order. `done`
      files went up before the first failed fetch, if any. */
  method UploadAll(m: Dict<SourceMeta>, baseUrl: string, kp: string, b: Bucket, web: Web)
    returns (after: Bucket, puts: seq<Action>, failed: Option<string>)
    requires forall j :: 0 <= j < |m.order| ==> m.order[j] in m.entries
    ensures |puts| <= |m.order| && Fetched(Jobs(m, baseUrl, kp), web, |puts|)
    ensures puts == PutActions(Jobs(m, baseUrl, kp)[..|puts|])
    ensures after == Applied(b, Jobs(m, baseUrl, kp), web, |puts|)
    ensures failed.None? <==> |puts| == |m.order|
    ensures failed.Some? ==> failed.value == JoinUrl(baseUrl, m.order[|puts|]) && failed.value !in web
  {
    var jobs := Jobs(m, baseUrl, kp);
    var done;
    after, done, failed := PutAll(b, jobs, web);
    puts := PutActions(jobs[..done]);
  }

  /** The keys the upload loop adds and the delete step removes are all of
      the form `kp + name` with a non-empty name, so keys outside the prefix
      are never touched. */
  lemma OutsideUntouched(kp: string, order: seq<string>, stale: seq<string>, k: string)
    requires forall i :: 0 <= i < |order| ==> order[i] != []
    requires forall i :: 0 <= i < |stale| ==> stale[i] != []
    requires !Inside(kp, k)
    ensures k !in PutKeys(kp, order)
    ensures k !in Elems(PrefixAll(kp, stale))
  {
    if k in PutKeys(kp, order) {
      var n :| n in order && k == kp + n;
      DestNameOfJoin(kp, n);
      assert false;
    }
    if k in Elems(PrefixAll(kp, stale)) {
      var i :| 0 <= i < |stale| && PrefixAll(kp, stale)[i] == k;
      DestNameOfJoin(kp, stale[i]);
      assert false;
    }
  }

  /** Upload everything, then delete the stale names: the names left under
      the prefix are exactly the source names. */
  lemma ConvergeNames(kp: string, before: set<string>, order: seq<string>, stale: seq<string>)
    requires forall i :: 0 <= i < |order| ==> order[i] != []
    requires Elems(stale) == DestNames(kp, before) - Elems(order)
    ensures DestNames(kp, (before + PutKeys(kp, order)) - Elems(PrefixAll(kp, stale))) == Elems(order)
  {
    var keys := PrefixAll(kp, stale);
    var final := (before + PutKeys(kp, order)) - Elems(keys);
    forall n ensures n in DestNames(kp, final) <==> n in Elems(order) {
      if n == [] {
        assert n !in order;
      } else {
        PutKeysHas(kp, order, n);
        PrefixAllHas(kp, stale, n);
      }
    }
  }

  lemma PutKeysHas(kp: string, names: seq<string>, n: string)
    ensures kp + n in PutKeys(kp, names) <==> n in names
  {
    if kp + n in PutKeys(kp, names) {
      var x :| x in names && kp + n == kp + x;
      PrefixInjective(kp, n, x);
    }
  }

  lemma PrefixAllHas(kp: string, names: seq<string>, n: string)
    ensures kp + n in Elems(PrefixAll(kp, names)) <==> n in Elems(names)
  {
    var keys := PrefixAll(kp, names);
    if kp + n in Elems(keys) {
      var i :| 0 <= i < |keys| && keys[i] == kp + n;
      PrefixInjective(kp, n, names[i]);
    }
    if n in Elems(names) {
      var i :| 0 <= i < |names| && names[i] == n;
      assert keys[i] in Elems(keys);
    }
  }

  /** Keys outside the prefix, and the bare prefix itself, are as before. */
  ghost predicate OutsideUnchanged(kp: string, b: Bucket, after: Bucket) {
    forall k :: !Inside(kp, k) ==> (k in after <==> k in b) && (k in b ==> after[k] == b[k])
  }

  /** The names under the prefix are exactly the manifest's, and each holds
      the body fetched for it and the listing's metadata. */
  ghost predicate Mirrors(m: Dict<SourceMeta>, kp: string, baseUrl: string, web: Web, after: Bucket) {
    && DestNames(kp, after.Keys) == m.entries.Keys
    && forall n :: n in m.entries ==> Holds(after, JobFor(m, baseUrl, kp, n), web)
  }

  /** The first `count` calls put the first `count` manifest files, in order. */
  ghost predicate PutsInOrder(order: seq<string>, kp: string, trace: seq<Action>, count: nat) {
    && count <= |order| && count <= |trace|
    && forall i :: 0 <= i < count ==> trace[i] == PutObject(kp + order[i])
  }

  /** The calls after the puts delete `kp + name` for every stale name
      (listed under `kp` in `b`, missing from the manifest), each once and in
      some order, `MaxBatch` keys per request. */
  ghost predicate DeletesStale(m: Dict<SourceMeta>, kp: string, b: Bucket, trace: seq<Action>) {
    exists stale ::
      && Distinct(stale)
      && Elems(stale) == DestNames(kp, b.Keys) - m.entries.Keys
      && DeletesAfter(|m.order|, trace, PrefixAll(kp, stale))
  }

  /** The run stopped at file `i` of the manifest: its fetch failed, the
      files before it are uploaded, every other object is as it was, and
      nothing was deleted. */
  ghost predicate StoppedAt(m: Dict<SourceMeta>, kp: string, baseUrl: string, web: Web,
                            b: Bucket, after: Bucket, trace: seq<Action>, e: SyncError, i: nat) {
    && i < |m.order| && |trace| == i
    && e == TransferError(JoinUrl(baseUrl, m.order[i]))
    && JoinUrl(baseUrl, m.order[i]) !in web
    && PutsInOrder(m.order, kp, trace, i)
    && after.Keys == b.Keys + PutKeys(kp, m.order[..i])
    && (forall k :: k in b && k !in PutKeys(kp, m.order[..i]) ==> after[k] == b[k])
    && forall j :: 0 <= j < i ==> m.order[j] in m.entries && Holds(after, JobFor(m, baseUrl, kp, m.order[j]), web)
  }

  /** The body of the sync once the manifest is read: list the destination
      names, upload every manifest file in order, then delete the listed
      names the manifest lacks, `MaxBatch` keys per request. */
  method SyncManifest(m: Dict<SourceMeta>, baseUrl: string, kp: string, b: Bucket,
                      web: Web)
    returns (after: Bucket, trace: seq<Action>, r: Result<Report>)
    requires m.Valid()
    requires forall n :: n in m.entries ==> n != []
    ensures OutsideUnchanged(kp, b, after)
    ensures r.Ok? ==> Mirrors(m, kp, baseUrl, web, after)
    ensures r.Ok? ==> PutsInOrder(m.order, kp, trace, |m.order|) && DeletesStale(m, kp, b, trace)
    ensures r.Ok? ==> r.value == Report(|m.entries|, |DestNames(kp, b.Keys)|, |m.entries|,
                                        |DestNames(kp, b.Keys) - m.entries.Keys|)
    ensures r.Err? ==> exists i :: StoppedAt(m, kp, baseUrl, web, b, after, trace, r.error, i)
  {
    var s3Names := ListNames(b, kp);
    var uploaded, puts, failed := UploadAll(m, baseUrl, kp, b, web);
    if failed.Some? {
      after, trace, r := uploaded, puts, Err(TransferError(failed.value));
      StoppedOutcome(m, baseUrl, kp, b, web, puts, failed.value);
      return;
    }
    var deletes, deleted, stale;
    after, deletes, deleted, stale := DeleteStale(uploaded, kp, s3Names - m.entries.Keys);
    trace := puts + deletes;
    r := Ok(Report(|m.entries|, |s3Names|, |puts|, deleted));
    SyncedOutcome(m, baseUrl, kp, b, web, puts, deletes, deleted, stale, after);
  }

  /** Step 3 of the sync: `delete_objects` on `kp + name` for every name in
      `names` (in some order), `MaxBatch` keys per request. */
  method DeleteStale(b: Bucket, kp: string, names: set<string>)
    returns (after: Bucket, actions: seq<Action>, deleted: nat, stale: seq<string>)
    ensures Distinct(stale) && Elems(stale) == names
    ensures after == b - Elems(PrefixAll(kp, stale))
    ensures deleted == |stale| == |names|
    ensures forall i :: 0 <= i < |actions| ==> actions[i].DeleteObjects? && 0 < |actions[i].keys| <= MaxBatch
    ensures |actions| == (deleted + MaxBatch - 1) / MaxBatch
    ensures actions == DeleteActions(Chunks(PrefixAll(kp, stale)))
  {
    stale := Enumerate(names);
    var requests;
    after, requests, deleted := DeleteInBatches(b, PrefixAll(kp, stale));
    actions := DeleteActions(requests);
    ChunksSpec(PrefixAll(kp, stale));
  }

  /** The put actions for the first `count` jobs name the first `count`
      manifest files, in order. */
  lemma PutsOfJobs(m: Dict<SourceMeta>, baseUrl: string, kp: string, puts: seq<Action>)
    requires forall j :: 0 <= j < |m.order| ==> m.order[j] in m.entries
    requires |puts| <= |m.order|
    requires puts == PutActions(Jobs(m, baseUrl, kp)[..|puts|])
    ensures PutsInOrder(m.order, kp, puts, |puts|)
  {
    var jobs := Jobs(m, baseUrl, kp);
    forall i | 0 <= i < |puts| ensures puts[i] == PutObject(kp + m.order[i]) {
      assert jobs[..|puts|][i] == jobs[i];
    }
  }

  /** A run stopped by a failed fetch: the earlier files are uploaded and
      nothing is deleted. */
  lemma StoppedOutcome(m: Dict<SourceMeta>, baseUrl: string, kp: string, b: Bucket,
                       web: Web, puts: seq<Action>, url: string)
    requires forall n :: n in m.entries ==> n != []
    requires forall j :: 0 <= j < |m.order| ==> m.order[j] in m.entries
    requires |puts| < |m.order|
    requires puts == PutActions(Jobs(m, baseUrl, kp)[..|puts|])
    requires Fetched(Jobs(m, baseUrl, kp), web, |puts|)
    requires url == JoinUrl(baseUrl, m.order[|puts|]) && url !in web
    ensures OutsideUnchanged(kp, b, Applied(b, Jobs(m, baseUrl, kp), web, |puts|))
    ensures StoppedAt(m, kp, baseUrl, web, b, Applied(b, Jobs(m, baseUrl, kp), web, |puts|), puts, TransferError(url), |puts|)
  {
    var i := |puts|;
    var jobs := Jobs(m, baseUrl, kp);
    var uploaded := Applied(b, jobs, web, i);
    var done := m.order[..i];
    forall j | 0 <= j < |done| ensures done[j] != [] {
      assert done[j] in m.entries;
    }
    PrefixUploadedKeys(m, baseUrl, kp, b, web, i);
    forall k | !Inside(kp, k) ensures (k in uploaded <==> k in b) && (k in b ==> uploaded[k] == b[k]) {
      OutsideUntouched(kp, done, [], k);
    }
    JobsConsistent(m, baseUrl, kp);
    forall j | 0 <= j < i ensures Holds(uploaded, JobFor(m, baseUrl, kp, m.order[j]), web) {
      AppliedHolds(b, jobs, web, i, j);
    }
    PutsOfJobs(m, baseUrl, kp, puts);
  }

  /** A run with every fetch successful: the trace, the final bucket and the
      report all agree with the always-refresh plan: every manifest file
      uploaded, every stale name deleted. */
  lemma SyncedOutcome(m: Dict<SourceMeta>, baseUrl: string, kp: string, b: Bucket, web: Web,
                      puts: seq<Action>, deletes: seq<Action>, deleted: nat, stale: seq<string>, after: Bucket)
    requires m.Valid()
    requires forall n :: n in m.entries ==> n != []
    requires |puts| == |m.order|
    requires puts == PutActions(Jobs(m, baseUrl, kp)[..|puts|])
    requires Fetched(Jobs(m, baseUrl, kp), web, |puts|)
    requires Distinct(stale) && Elems(stale) == DestNames(kp, b.Keys) - m.entries.Keys
    requires after == Applied(b, Jobs(m, baseUrl, kp), web, |puts|) - Elems(PrefixAll(kp, stale))
    requires deleted == |stale|
    requires deletes == DeleteActions(Chunks(PrefixAll(kp, stale)))
    ensures OutsideUnchanged(kp, b, after)
    ensures Mirrors(m, kp, baseUrl, web, after)
    ensures PutsInOrder(m.order, kp, puts + deletes, |m.order|) && DeletesStale(m, kp, b, puts + deletes)
    ensures |puts| == |m.entries| && deleted == |DestNames(kp, b.Keys) - m.entries.Keys|
  {
    OrderFacts(m);
    assert PutsInOrder(m.order, kp, puts + deletes, |m.order|) && DeletesStale(m, kp, b, puts + deletes) by {
      PutsOfJobs(m, baseUrl, kp, puts);
      TraceShape(m.order, kp, puts, PrefixAll(kp, stale));
    }
    assert OutsideUnchanged(kp, b, after) && Mirrors(m, kp, baseUrl, web, after) by {
      SyncOutcome(m, baseUrl, kp, b, web, stale, after);
    }
    assert deleted == |DestNames(kp, b.Keys) - m.entries.Keys| by {
      DistinctCard(stale);
    }
  }

  /** The manifest's order lists each of its (non-empty) names once. */
  lemma OrderFacts(m: Dict<SourceMeta>)
    requires m.Valid()
    requires forall n :: n in m.entries ==> n != []
    ensures Elems(m.order) == m.entries.Keys
    ensures forall i :: 0 <= i < |m.order| ==> m.order[i] in m.entries && m.order[i] != []
    ensures |m.order| == |m.entries|
  {
    forall i | 0 <= i < |m.order| ensures m.order[i] in m.entries && m.order[i] != [] {
      assert m.order[i] in m.order;
    }
    assert Elems(m.order) == m.entries.Keys;
    DistinctCard(m.order);
  }

  /** The puts come first, then the delete requests for `keys`. */
  lemma TraceShape(order: seq<string>, kp: string, puts: seq<Action>, keys: seq<string>)
    requires |puts| == |order| && PutsInOrder(order, kp, puts, |puts|)
    ensures PutsInOrder(order, kp, puts + DeleteActions(Chunks(keys)), |order|)
    ensures DeletesAfter(|order|, puts + DeleteActions(Chunks(keys)), keys)
  {
    var trace := puts + DeleteActions(Chunks(keys));
    assert forall i :: 0 <= i < |puts| ==> trace[i] == puts[i];
    DeletesAppended(puts, keys);
  }

  /** The stale deletes are requests of 1 to `MaxBatch` keys, one for every
      `MaxBatch` stale names or part of it. */
  lemma DeletesStaleShape(m: Dict<SourceMeta>, kp: string, b: Bucket, trace: seq<Action>)
    requires DeletesStale(m, kp, b, trace)
    ensures forall i :: |m.order| <= i < |trace| ==> trace[i].DeleteObjects? && 0 < |trace[i].keys| <= MaxBatch
    ensures |trace| - |m.order| == (|DestNames(kp, b.Keys) - m.entries.Keys| + MaxBatch - 1) / MaxBatch
  {
    var stale :| && Distinct(stale)
                 && Elems(stale) == DestNames(kp, b.Keys) - m.entries.Keys
                 && DeletesAfter(|m.order|, trace, PrefixAll(kp, stale));
    DeletesAfterShape(|m.order|, trace, PrefixAll(kp, stale));
    DistinctCard(stale);
  }

  /** What the upload and delete steps leave behind. */
  lemma SyncOutcome(m: Dict<SourceMeta>, baseUrl: string, kp: string, b: Bucket,
                    web: Web, stale: seq<string>, after: Bucket)
    requires Elems(m.order) == m.entries.Keys
    requires forall i :: 0 <= i < |m.order| ==> m.order[i] in m.entries && m.order[i] != []
    requires Fetched(Jobs(m, baseUrl, kp), web, |m.order|)
    requires Distinct(stale) && Elems(stale) == DestNames(kp, b.Keys) - m.entries.Keys
    requires after == Applied(b, Jobs(m, baseUrl, kp), web, |m.order|) - Elems(PrefixAll(kp, stale))
    ensures OutsideUnchanged(kp, b, after)
    ensures Mirrors(m, kp, baseUrl, web, after)
  {
    var uploaded := Applied(b, Jobs(m, baseUrl, kp), web, |m.order|);
    assert forall i :: 0 <= i < |stale| ==> stale[i] != [] by {
      assert forall i :: 0 <= i < |stale| ==> stale[i] in Elems(stale);
    }
    UploadedAll(m, baseUrl, kp, b, web);
    assert OutsideUnchanged(kp, b, after) by {
      OutsideAfterSync(kp, b, m.order, stale, uploaded, after);
    }
    assert DestNames(kp, after.Keys) == m.entries.Keys by {
      ConvergeNames(kp, b.Keys, m.order, stale);
    }
    forall n | n in m.entries ensures Holds(after, JobFor(m, baseUrl, kp, n), web) {
      assert n !in Elems(stale);
      PrefixAllHas(kp, stale, n);
    }
  }

  /** The bucket after the whole manifest is uploaded: the manifest's keys
      added, every other object as it was, each file holding its upload. */
  lemma UploadedAll(m: Dict<SourceMeta>, baseUrl: string, kp: string, b: Bucket, web: Web)
    requires Elems(m.order) == m.entries.Keys
    requires forall i :: 0 <= i < |m.order| ==> m.order[i] in m.entries
    requires Fetched(Jobs(m, baseUrl, kp), web, |m.order|)
    ensures var uploaded := Applied(b, Jobs(m, baseUrl, kp), web, |m.order|);
            && uploaded.Keys == b.Keys + PutKeys(kp, m.order)
            && (forall k :: k in b && k !in PutKeys(kp, m.order) ==> uploaded[k] == b[k])
            && (forall n :: n in m.entries ==> Holds(uploaded, JobFor(m, baseUrl, kp, n), web))
  {
    UploadedKeys(m, baseUrl, kp, b, web);
    UploadedHolds(m, baseUrl, kp, b, web);
  }

  lemma UploadedKeys(m: Dict<SourceMeta>, baseUrl: string, kp: string, b: Bucket, web: Web)
    requires forall i :: 0 <= i < |m.order| ==> m.order[i] in m.entries
    requires Fetched(Jobs(m, baseUrl, kp), web, |m.order|)
    ensures var uploaded := Applied(b, Jobs(m, baseUrl, kp), web, |m.order|);
            && uploaded.Keys == b.Keys + PutKeys(kp, m.order)
            && (forall k :: k in b && k !in PutKeys(kp, m.order) ==> uploaded[k] == b[k])
  {
    assert m.order[..|m.order|] == m.order;
    PrefixUploadedKeys(m, baseUrl, kp, b, web, |m.order|);
  }

  /** The first `i` uploads add the keys of the first `i` manifest names
      and leave every other object as it was. */
  lemma PrefixUploadedKeys(m: Dict<SourceMeta>, baseUrl: string, kp: string, b: Bucket, web: Web, i: nat)
    requires forall j :: 0 <= j < |m.order| ==> m.order[j] in m.entries
    requires i <= |m.order| && Fetched(Jobs(m, baseUrl, kp), web, i)
    ensures var uploaded := Applied(b, Jobs(m, baseUrl, kp), web, i);
            && uploaded.Keys == b.Keys + PutKeys(kp, m.order[..i])
            && (forall k :: k in b && k !in PutKeys(kp, m.order[..i]) ==> uploaded[k] == b[k])
  {
    var jobs := Jobs(m, baseUrl, kp);
    var uploaded := Applied(b, jobs, web, i);
    JobKeysOfJobs(m, baseUrl, kp, i);
    forall k ensures (k in uploaded <==> k in b || k in JobKeys(jobs[..i]))
                     && (k in b && k !in JobKeys(jobs[..i]) ==> uploaded[k] == b[k]) {
      AppliedKey(b, jobs, web, i, k);
    }
  }

  lemma UploadedHolds(m: Dict<SourceMeta>, baseUrl: string, kp: string, b: Bucket, web: Web)
    requires Elems(m.order) == m.entries.Keys
    requires forall i :: 0 <= i < |m.order| ==> m.order[i] in m.entries
    requires Fetched(Jobs(m, baseUrl, kp), web, |m.order|)
    ensures forall n :: n in m.entries ==> Holds(Applied(b, Jobs(m, baseUrl, kp), web, |m.order|), JobFor(m, baseUrl, kp, n), web)
  {
    var jobs := Jobs(m, baseUrl, kp);
    JobsConsistent(m, baseUrl, kp);
    forall name | name in m.entries ensures Holds(Applied(b, jobs, web, |m.order|), JobFor(m, baseUrl, kp, name), web) {
      assert name in Elems(m.order);
      var j :| 0 <= j < |m.order| && m.order[j] == name;
      AppliedHolds(b, jobs, web, |m.order|, j);
    }
  }

  /** Puts under the prefix and deletes of `kp + name` leave every key
      outside the prefix as it was. */
  lemma OutsideAfterSync(kp: string, b: Bucket, order: seq<string>, stale: seq<string>,
                         uploaded: Bucket, after: Bucket)
    requires forall i :: 0 <= i < |order| ==> order[i] != []
    requires forall i :: 0 <= i < |stale| ==> stale[i] != []
    requires uploaded.Keys == b.Keys + PutKeys(kp, order)
    requires forall k :: k in b && k !in PutKeys(kp, order) ==> uploaded[k] == b[k]
    requires after == uploaded - Elems(PrefixAll(kp, stale))
    ensures OutsideUnchanged(kp, b, after)
  {
    forall k | !Inside(kp, k) ensures (k in after <==> k in b) && (k in b ==> after[k] == b[k]) {
      OutsideUntouched(kp, order, stale, k);
    }
  }

  /** The command-line sync carries out the always-refresh plan over the
      manifest's and the destination's sizes: the plan uploads every
      manifest name and deletes the destination names the manifest lacks,
      the report counts exactly those, and a mirrored destination holds the
      names the plan leaves. */
  lemma SyncFollowsPlan(m: Dict<SourceMeta>, kp: string, baseUrl: string, web: Web,
                        b: Bucket, after: Bucket, rep: Report)
    requires Mirrors(m, kp, baseUrl, web, after)
    requires rep == Report(|m.entries|, |DestNames(kp, b.Keys)|, |m.entries|,
                           |DestNames(kp, b.Keys) - m.entries.Keys|)
    ensures var src, dst := SizeMap(m.entries, (e: SourceMeta) => e.size), DestSizes(kp, b);
            var p := MakePlan(AlwaysRefresh, src, dst);
            && p == Plan(m.entries.Keys, DestNames(kp, b.Keys) - m.entries.Keys)
            && rep.sources == |src| && rep.destinations == |dst|
            && rep.uploaded == |p.toUpload| && rep.deleted == |p.toDelete|
            && DestNames(kp, after.Keys) == Apply(dst, src, p).Keys
  {
    var src, dst := SizeMap(m.entries, (e: SourceMeta) => e.size), DestSizes(kp, b);
    AlwaysRefreshPlan(src, dst);
    var p := MakePlan(AlwaysRefresh, src, dst);
    assert Apply(dst, src, p).Keys == src.Keys by {
      Convergence(AlwaysRefresh, src, dst);
    }
  }

  /** `sync_bls_to_s3`: read the manifest from the listing page `html`, then
      run the sync under the normalised prefix. `trace` records the bucket
      calls in the order they are made. */
  method Sync(html: string, baseUrl: string, prefix: string, b: Bucket,
              web: Web)
    returns (after: Bucket, trace: seq<Action>, r: Result<Report>)
    ensures ParseManifest(html).Err? ==> r == Err(ManifestParseError) && after == b && trace == []
    ensures OutsideUnchanged(KeyPrefix(prefix), b, after)
    ensures r.Ok? ==> ParseManifest(html).Ok?
    ensures r.Ok? ==> var m, kp := ParseManifest(html).value, KeyPrefix(prefix);
              && Mirrors(m, kp, baseUrl, web, after)
              && PutsInOrder(m.order, kp, trace, |m.order|)
              && DeletesStale(m, kp, b, trace)
    ensures r.Ok? ==> var m, kp := ParseManifest(html).value, KeyPrefix(prefix);
              r.value == Report(|m.entries|, |DestNames(kp, b.Keys)|, |m.entries|, |DestNames(kp, b.Keys) - m.entries.Keys|)
    ensures r.Err? && ParseManifest(html).Ok? ==>
              exists i :: StoppedAt(ParseManifest(html).value, KeyPrefix(prefix), baseUrl, web, b, after, trace, r.error, i)
  {
    var kp := KeyPrefix(prefix);
    var parsed := ParseManifest(html);
    if parsed.Err? {
      return b, [], Err(parsed.error);
    }
    var m := parsed.value;
    forall n | n in m.entries ensures n != [] {
      assert IsSafeName(n);
    }
    after, trace, r := SyncManifest(m, baseUrl, kp, b, web);
  }
}
