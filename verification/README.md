# BLS → S3 true sync, modelled in Dafny

The repository mirrors the BLS productivity directory
(`https://download.bls.gov/pub/time.series/pr/`) into an S3 bucket. It does this in two
places, and both are modelled here.

- **The command-line sync** (`data/ingestion/ingest.py`) works like this:
  - It reads the directory page and normalises its line breaks.
  - It parses each row into `filename -> (timestamp, size)`. A page with no parsable row is
    an error.
  - It normalises the key prefix and lists the destination names under it.
  - It fetches and `put_object`s every listed file, in page order, with its timestamp and
    size as metadata.
  - It then deletes the destination names the page lacks, 1000 keys per request.
- **The scheduled sync** (`data/lambda/sync_and_fetch/handler.py`) works like this:
  - It scans the page for anchor rows and keeps each href's last path segment with its size.
  - It records the size of every object under `raw/bls/`, keyed by last segment.
  - It uploads only the files that are missing there or whose size differs.
  - It then deletes every object under the prefix whose last segment the page lacks.

Modules:
- `Text`: character classes, strip, line splitting, replace, decimals and last path segment.
- `Grammar`: a token-list recogniser. It stands in for the two row regular expressions. Both
  expressions are deterministic, so taking maximal spans gives Python's match.
- `Dicts`: an insertion-ordered dictionary with Python's `dict` semantics.
- `Batching`: the 1000-key chunking.
- `Ordering`: S3's ascending key order.
- `Store`: the bucket, as a map from key to object, plus the trace of API calls.
- `Transfer`: the fetch-and-put loop.
- `Reconcile`: the name-level planner for both change policies.
- `IngestListing`, `IngestSync`: `ingest.py`.
- `LambdaListing`, `LambdaSync`: `handler.py`.

Modelling choices:
- An HTTP fetch is a lookup in `Web`, a map from URL to bytes. A URL missing from it is a
  failed fetch, which stops the run before any delete.
- The bucket is a `map` from key to `Object(size, metadata)`.
- A run returns the bucket after the run, the trace of `PutObject`/`DeleteObjects` calls, and
  its report or error.

## Model

| member | source | states |
|---|---|---|
| IngestListing.NormalizeRemovesBreaks | data/ingestion/ingest.py:47 | after normalisation no `<br>`, `<br/>` or `<br />` is left, so every row is on a line of its own |
| IngestListing.ParseLine | data/ingestion/ingest.py:50-66 | a line parses only if a prefix of it splits into pieces fitting the row pattern (date, time, AM/PM, size, anchor); the entry is then built from those pieces and its stripped name is in the safe alphabet `A-Za-z0-9._-` |
| IngestListing.ParseLineComplete | data/ingestion/ingest.py:50-66 | completeness: any line that starts with a row fitting the pattern, every run of it followed by a character outside its class or by the end of the line, parses to that row's entry, or to nothing exactly when the stripped name is unsafe |
| IngestListing.StampShape | data/ingestion/ingest.py:65 | the stored timestamp is `M/D/YYYY H:MM` followed by the upper-cased marker, which is always `AM` or `PM` |
| IngestListing.ParseManifest | data/ingestion/ingest.py:35-70 | the manifest is an error (the parse error) exactly when no line parses; otherwise it is non-empty, every name is safe, and the names come in the order of their first row |
| IngestListing.EmptyListingFails | data/ingestion/ingest.py:68-69 | the manifest fails if and only if every normalised line fails to parse |
| IngestListing.ManifestKeepsLastRow | data/ingestion/ingest.py:56-66 | a name listed on several rows keeps the timestamp and size of its last row |
| IngestListing.SampleRowParses | data/ingestion/ingest.py:50-66 | a concrete row `3/14/2025 8:30 am 12345 <A HREF="…">name</A>` parses to `(name, ("3/14/2025 8:30 AM", 12345))` |
| IngestListing.UnsafeRowSkipped | data/ingestion/ingest.py:61-63 | a well-formed row whose stripped name has a character outside the safe alphabet is skipped |
| IngestListing.TraversalSkipped | data/ingestion/ingest.py:61-63 | a row naming `../secret` is skipped |
| IngestSync.KeyPrefix | data/ingestion/ingest.py:99-100 | the key prefix is empty, or at least two characters long, with no leading slash, exactly one trailing slash and no slash before that |
| IngestSync.KeyPrefixOfCore | data/ingestion/ingest.py:99-100 | whitespace outside and slashes inside around a clean core give `core + "/"` |
| IngestSync.KeyPrefixBlank | data/ingestion/ingest.py:99-100 | a prefix that is only whitespace and slashes gives the empty key prefix |
| IngestSync.KeyPrefixLeadingSlash | data/ingestion/ingest.py:99-100 | `/raw/bls` gives `raw/bls/` |
| IngestSync.KeyPrefixTrailingSlash | data/ingestion/ingest.py:99-100 | `raw/bls/` is kept as it is |
| IngestSync.KeyPrefixInnerSpace | data/ingestion/ingest.py:99-100 | whitespace is stripped only once, before the slashes: `/ raw /` gives ` raw /` and ` raw /` gives `raw /` |
| IngestSync.DestName | data/ingestion/ingest.py:113-118 | a key yields a destination name exactly when it extends the key prefix by at least one character, and prefix + name is the key |
| IngestSync.DestNameOfJoin | data/ingestion/ingest.py:113-118 | round trip: the name of `kp + name` is `name` |
| IngestSync.DestNames | data/ingestion/ingest.py:109-118 | `n` is a destination name if and only if it is non-empty and `kp + n` is a key |
| IngestSync.ListNames | data/ingestion/ingest.py:109-118 | walking the ascending listing under the prefix collects exactly the destination names of the whole bucket |
| IngestSync.JoinUrl | data/ingestion/ingest.py:77 | the URL is the base without its trailing slashes, exactly one slash, then the name without its leading slashes, and so no longer than the three together |
| IngestSync.JoinUrlClean | data/ingestion/ingest.py:77 | extra slashes on either side of the join collapse to one |
| IngestSync.Metadata | data/ingestion/ingest.py:128-131 | the metadata has exactly the keys `bls_timestamp` and `bls_size` |
| IngestSync.MetadataRoundTrip | data/ingestion/ingest.py:128-131 | `bls_timestamp` is the listing's timestamp, and `bls_size` is a digit string whose value is the size |
| IngestSync.Jobs | data/ingestion/ingest.py:124-133 | one upload per manifest name, in manifest order, to `kp + name` from the joined URL |
| IngestSync.UploadAll | data/ingestion/ingest.py:124-134 | the uploads are done in order up to the first failed fetch; the error carries that file's URL, and the bucket holds exactly the bodies put so far |
| IngestSync.DeleteStale | data/ingestion/ingest.py:137-144 | every stale name is deleted as `kp + name`, each once; the requests are the 1000-key chunks of that list and the count is the number of stale names |
| IngestSync.DeletesStaleShape | data/ingestion/ingest.py:139-143 | the delete calls carry 1 to 1000 keys each, one call per 1000 stale names or part of 1000 |
| IngestSync.SyncManifest | data/ingestion/ingest.py:106-146 | on success the names under the prefix are exactly the manifest's, each holding its fetched body and metadata; puts come in manifest order and are followed by the stale deletes; the report counts sources, destinations, uploads and deletes; keys outside the prefix are untouched; on failure the run stopped at a failed fetch with no deletes, and the bucket is exactly the original plus the files uploaded before it |
| IngestSync.SyncFollowsPlan | data/ingestion/ingest.py:106-144 | a successful run carries out the always-refresh plan: it uploads every source name, deletes the destination names the source lacks, and reports the plan's sizes |
| IngestSync.ConvergeNames | data/ingestion/ingest.py:124-144 | after the puts and the stale deletes, the names under the prefix are exactly the manifest's |
| IngestSync.Sync | data/ingestion/ingest.py:87-146 | an unparsable page fails with the parse error and touches nothing; otherwise as SyncManifest, for the normalised prefix |
| Batching.ChunksSpec | data/ingestion/ingest.py:140-143 | the chunks concatenate back to the list, each holds 1 to 1000 items, every chunk but the last holds exactly 1000, and there are ceil(n/1000) of them |
| Batching.ChunksOf2500 | data/ingestion/ingest.py:141-143 | 2500 keys go out as requests of 1000, 1000 and 500 |
| Store.List | data/lambda/sync_and_fetch/handler.py:75-77 | the paginated listing yields every key under the prefix once, in ascending order |
| Store.DeleteInBatches | data/lambda/sync_and_fetch/handler.py:96-103 | the requests are the 1000-key chunks of the list, the count is the list's length, and the bucket loses exactly those keys |
| Text.StripIsTrim | data/ingestion/ingest.py:99 | stripping removes a run of the class from each end and nothing else |
| Text.StripIdempotent | data/ingestion/ingest.py:99 | stripping twice is stripping once |
| Text.LastSegment | data/lambda/sync_and_fetch/handler.py:62 | the last segment is the longest slash-free suffix: it has no slash, and it is the whole string or follows a slash |
| Text.LastSegmentOfJoin | data/lambda/sync_and_fetch/handler.py:62 | the last segment of `dir + "/" + name` is `name` when `name` has no slash |
| Text.DecimalRoundTrip | data/ingestion/ingest.py:130 | the decimal rendering of a size is a digit string with no leading zero, and it reads back as the size |
| Text.SplitJoinLines | data/ingestion/ingest.py:56 | splitting the joined lines at line breaks gives the lines back |
| Dicts.Collect | data/ingestion/ingest.py:66 | the dictionary has exactly the pairs' keys, and a key's value comes from its last pair |
| Dicts.CollectOrder | data/ingestion/ingest.py:124 | iteration order is the order of each key's first pair |
| Grammar.MatchComplete | data/ingestion/ingest.py:50-57 | a string starting with pieces that fit the pattern, where what follows each run (later pieces, empty ones included, then the rest) starts outside its class or is empty, matches with exactly those pieces |
| Grammar.MatchExact | data/lambda/sync_and_fetch/handler.py:31-35 | the match returns a split into pieces and rest if and only if the pieces fit the pattern, rebuild the text with the rest, and no run could have been longer |
| Transfer.PutAll | data/ingestion/ingest.py:124-134 | the jobs run in order up to the first missing URL, which is reported; the bucket holds every body put before it |
| Reconcile.MakePlan | data/lambda/sync_and_fetch/handler.py:116-123 | uploads come from the source and deletes from the destination, and a source name is never deleted |
| Reconcile.AlwaysRefreshPlan | data/ingestion/ingest.py:124-137 | the command-line policy uploads every source name and deletes the destination names the source lacks |
| Reconcile.Convergence | data/lambda/sync_and_fetch/handler.py:116-123 | under either policy, applying the plan makes the destination equal to the source, names and sizes |
| Reconcile.SecondRun | data/lambda/sync_and_fetch/handler.py:116-123 | after a run, the size-gated plan is empty and the always-refresh plan only re-uploads |
| Reconcile.SizeGateSkips | data/lambda/sync_and_fetch/handler.py:117-118 | a source file is skipped if and only if the destination holds its name with its size |
| Reconcile.SizeGatedIsMinimal | data/lambda/sync_and_fetch/handler.py:116-123 | any plan that converges uploads and deletes at least what the size-gated plan does |
| Reconcile.Scenario | data/lambda/sync_and_fetch/handler.py:116-123 | worked example: source {a:10, b:20}, destination {b:99, c:5}: upload a and b, delete c, and end equal to the source |
| LambdaListing.Scan | data/lambda/sync_and_fetch/handler.py:31-36 | every match found fits the row pattern (anchor, link text, `DD-Mon-YYYY HH:MM` stamp, size) |
| LambdaListing.ScanRow | data/lambda/sync_and_fetch/handler.py:60 | a row at the head of the text, no run of which could have been longer, is reported first with exactly its pieces, and the scan resumes right after it; this covers rows with no blank after the size and rows at the very end of the page |
| LambdaListing.ScanNoTag | data/lambda/sync_and_fetch/handler.py:60 | text with no `<` holds no row |
| LambdaListing.FileOf | data/lambda/sync_and_fetch/handler.py:61-65 | a row is dropped exactly when its href ends in a slash; otherwise the name is the href's non-empty, slash-free last segment, and the size is the value of the size digits |
| LambdaListing.PlainHrefKept | data/lambda/sync_and_fetch/handler.py:62 | an href with no slash is its own name |
| LambdaListing.Files | data/lambda/sync_and_fetch/handler.py:60-65 | a file is in the list if and only if some match yields it |
| LambdaListing.ListFiles | data/lambda/sync_and_fetch/handler.py:56-67 | every listed name is non-empty and has no slash |
| LambdaListing.ListFilesRow | data/lambda/sync_and_fetch/handler.py:60-65 | a row at the head of the page, no run of which could have been longer, contributes its file (none when its href ends in a slash) ahead of the files of the rest of the page, so rows are reported in page order |
| LambdaListing.ByNameSpec | data/lambda/sync_and_fetch/handler.py:109 | the keys are the files' names, each entry's name is its key, and a name keeps its last file |
| LambdaListing.ByNameOrder | data/lambda/sync_and_fetch/handler.py:109 | names iterate in the order of their first file |
| LambdaSync.ListPrefix | data/lambda/sync_and_fetch/handler.py:75 | the listing prefix is the prefix with its trailing slashes replaced by exactly one |
| LambdaSync.ListPrefixOfBls | data/lambda/sync_and_fetch/handler.py:13 | the scheduled sync lists under `raw/bls/` |
| LambdaSync.UploadKeyListed | data/lambda/sync_and_fetch/handler.py:120 | an uploaded key lies under the listing prefix, and its last segment is the file name |
| LambdaSync.ListSizes | data/lambda/sync_and_fetch/handler.py:70-81 | the names are exactly the last segments of the keys under the prefix, the empty one included; each records the size of the greatest key with that segment, which the ascending listing returns last |
| LambdaSync.SizesOfFrom | data/lambda/sync_and_fetch/handler.py:76-79 | a recorded size comes from the last listed key with that segment |
| LambdaSync.ListingOrderMatters | data/lambda/sync_and_fetch/handler.py:78-79 | of two keys sharing a last segment, the one listed second wins |
| LambdaSync.Marked | data/lambda/sync_and_fetch/handler.py:89-94 | a listed key is marked if and only if its last segment is non-empty and not kept |
| LambdaSync.DeleteExtras | data/lambda/sync_and_fetch/handler.py:84-104 | the bucket loses exactly the extras (keys under the prefix whose non-empty last segment is not kept), each deleted once, in requests of 1 to 1000 that are the chunks of the marked list, so in ascending listing order; the count is the number of extras |
| LambdaSync.Uploads | data/lambda/sync_and_fetch/handler.py:116-118 | a file is uploaded if and only if the listing lacks its name or records another size |
| LambdaSync.Queue | data/lambda/sync_and_fetch/handler.py:116-118 | the upload queue lists each file to upload once, and is the page's name order with the unchanged files left out |
| LambdaSync.QueueInPageOrder | data/lambda/sync_and_fetch/handler.py:116-121 | of two queued files, the one earlier on the page is earlier in the queue, and only that one, so the uploads done before a failed fetch are exactly the queued files ahead of it on the page |
| LambdaSync.PendingIsPlan | data/lambda/sync_and_fetch/handler.py:116-118 | the queue holds exactly the files the size-gated plan uploads |
| LambdaSync.Source | data/lambda/sync_and_fetch/handler.py:108-109 | the source names are the names of the page's files, each non-empty and slash-free |
| LambdaSync.SyncFiles | data/lambda/sync_and_fetch/handler.py:111-125 | the sizes are the last-listed sizes; keys outside the prefix are untouched; on success the changed files are uploaded and then the extras deleted, with the queued puts first and the extras' chunked deletes after them, each extra deleted once and in ascending listing order; the summary counts uploads, deletes, sources and listed names; on failure the run stopped at a failed fetch with no deletes |
| LambdaSync.Sync | data/lambda/sync_and_fetch/handler.py:107-125 | as SyncFiles for the scanned page, deletes included in ascending listing order; on success the segment names under the prefix are exactly the page's file names, and a page with no `<` uploads nothing and leaves no name |
| LambdaSync.DeletesExtrasShape | data/lambda/sync_and_fetch/handler.py:97-102 | the delete calls carry 1 to 1000 keys each, one per 1000 extras or part of 1000 |
| LambdaSync.Converges | data/lambda/sync_and_fetch/handler.py:116-123 | after a successful run, the segment names under the prefix are exactly the source names |
| LambdaSync.SkippedKeepSize | data/lambda/sync_and_fetch/handler.py:117-118 | a file the gate skipped still has an object under the prefix with its size |
| LambdaSync.InStepQuiet | data/lambda/sync_and_fetch/handler.py:116-123 | a bucket in step with the source gets no upload and no delete, whatever the listing order |
| LambdaSync.SecondRunQuiet | data/lambda/sync_and_fetch/handler.py:107-125 | idempotence: on a flat bucket with bodies of the listed sizes, the next run with the same page uploads nothing and deletes nothing |
| LambdaSync.NestedKeyMasks | data/lambda/sync_and_fetch/handler.py:78-79 | a nested object `raw/bls/old/x` of the right size makes the gate skip `x`, so `raw/bls/x` is never written |

## Left out

- Object bodies: an object is reduced to its size and metadata (`Store.Object`). A put stores the fetched bytes' length as the size.
- Failures of `put_object`, `list_objects_v2` and `delete_objects` are not modelled. Every store call succeeds. The per-key `Errors` that `delete_objects` can return, which `Quiet` hides, are not modelled either.
- Pagination: the paginated listing is one ascending enumeration of the keys under the prefix (`Store.List`). Page boundaries are not modelled.
- HTTP: a fetch is a lookup in `Transfer.Web`, a map from URL to bytes. A missing URL is the only failure, and the run stops there. Request headers, user agents and timeouts are left out.
- Decoding: `decode("utf-8", errors="replace")` is not modelled. The page is taken as a string of code points.
- Output: the progress prints, the environment lookup, `main` and argument parsing are left out.
- The population fetch (`_fetch_datausa_to_s3`) and the handler entry point are left out. They are not part of the sync.
- IngestListing.ParseLine: digits (`\d` in the row pattern, and `int()` on the size) are ASCII `0-9` only. Python also accepts other Unicode decimal digits (for example U+0663), so a row written with them parses in the source and is skipped here.
- IngestListing.ParseManifest: it inherits the ASCII-only digits of ParseLine, so a page whose only rows use non-ASCII decimal digits is an error here but parses in the source.
- LambdaListing.ListFiles: digits in the stamp and the size are ASCII `0-9` only. Python's `\d` and `int()` also accept other Unicode decimal digits, so a row written with them is listed by the source and dropped here.
- IngestSync.KeyPrefix: the ensures does not say the key prefix is free of surrounding whitespace, because the source does not guarantee it. Whitespace is stripped before the slashes, so `" raw /"` gives `"raw /"` (KeyPrefixInnerSpace).
- IngestSync.DeleteStale: the order of the stale names is left open. The source takes them from a Python `set`, whose iteration order is not specified. The contract holds for every order.
- Unreachable branches: three source checks can never fire, and the model leaves them out. They are `name.endswith("/")` in `_list_bls_files`, because a last segment has no slash. They are `if not chunk` in `_s3_delete_extras`, because a slice within the range is never empty. And they are `if not source_manifest` in `sync_bls_to_s3`, because an empty manifest is already an error.
- LambdaSync.Converges: convergence is stated on last segments. Nested keys under `raw/bls/` are not rewritten to flat ones, and NestedKeyMasks shows that a nested object can stand in for a missing file. SecondRunQuiet therefore assumes a flat bucket.
