/** The upload loop both syncs share: fetch each file over HTTP and
    `put_object` it, in order, stopping at the first fetch that fails. */
module Transfer {
  import opened Outcomes
  import opened Store

  /** The remote files by URL; a GET of a URL that is missing fails. */
  type Web = map<string, seq<byte>>

  /** One upload: the body fetched from `url` goes to `key` with `metadata`. */
  datatype Job = Job(key: string, url: string, metadata: map<string, string>)

  /** The object a job writes. */
  function Written(job: Job, web: Web): Object
    requires job.url in web
  {
    Object(|web[job.url]|, job.metadata)
  }

  /** The bucket holds what `job` writes. */
  predicate Holds(b: Bucket, job: Job, web: Web) {
    job.url in web && job.key in b && b[job.key] == Written(job, web)
  }

  /** The first `i` fetches succeed. */
  predicate Fetched(jobs: seq<Job>, web: Web, i: nat)
    requires i <= |jobs|
  {
    forall j :: 0 <= j < i ==> jobs[j].url in web
  }

  /** The bucket after the first `i` jobs, in order. */
  function Applied(b: Bucket, jobs: seq<Job>, web: Web, i: nat): Bucket
    requires i <= |jobs| && Fetched(jobs, web, i)
  {
    if i == 0 then b
    else Applied(b, jobs, web, i - 1)[jobs[i - 1].key := Written(jobs[i - 1], web)]
  }

  function JobKeys(jobs: seq<Job>): set<string> {
    set job | job in jobs :: job.key
  }

  /** Two jobs on the same key are the same job. */
  predicate Consistent(jobs: seq<Job>) {
    forall x, y :: 0 <= x < |jobs| && 0 <= y < |jobs| && jobs[x].key == jobs[y].key ==> jobs[x] == jobs[y]
  }

  lemma JobKeysSnoc(jobs: seq<Job>, i: nat)
    requires i < |jobs|
    ensures JobKeys(jobs[..i + 1]) == JobKeys(jobs[..i]) + {jobs[i].key}
  {
    assert jobs[..i + 1] == jobs[..i] + [jobs[i]];
  }

  /** The first `i` jobs add exactly their keys and leave every other object
      as it was. */
  lemma {:induction false} AppliedKey(b: Bucket, jobs: seq<Job>, web: Web, i: nat, k: string)
    requires i <= |jobs| && Fetched(jobs, web, i)
    ensures k in Applied(b, jobs, web, i) <==> k in b || k in JobKeys(jobs[..i])
    ensures k in b && k !in JobKeys(jobs[..i]) ==> Applied(b, jobs, web, i)[k] == b[k]
  {
    if i == 0 {
      assert jobs[..0] == [];
    } else {
      AppliedKey(b, jobs, web, i - 1, k);
      JobKeysSnoc(jobs, i - 1);
    }
  }

  /** After the first `i` jobs each of them holds what it wrote: a later job
      on the same key writes the same thing. */
  lemma {:induction false} AppliedHolds(b: Bucket, jobs: seq<Job>, web: Web, i: nat, j: nat)
    requires j < i <= |jobs| && Fetched(jobs, web, i)
    requires Consistent(jobs)
    ensures Holds(Applied(b, jobs, web, i), jobs[j], web)
  {
    if j < i - 1 {
      AppliedHolds(b, jobs, web, i - 1, j);
    }
  }

  /** The upload loop: fetch and put each job in order; the first failed
      fetch ends the loop and is reported by its URL. `done` jobs ran. */
  method PutAll(b: Bucket, jobs: seq<Job>, web: Web) returns (after: Bucket, done: nat, failed: Option<string>)
    ensures done <= |jobs| && Fetched(jobs, web, done)
    ensures after == Applied(b, jobs, web, done)
    ensures failed.None? <==> done == |jobs|
    ensures failed.Some? ==> failed.value == jobs[done].url && jobs[done].url !in web
  {
    after := b;
    done := 0;
    failed := None;
    while done < |jobs|
      invariant done <= |jobs| && Fetched(jobs, web, done)
      invariant after == Applied(b, jobs, web, done)
    {
      var job := jobs[done];
      if job.url !in web {
        failed := Some(job.url);
        return;
      }
      after := after[job.key := Object(|web[job.url]|, job.metadata)];
      done := done + 1;
    }
  }

  /** One `put_object` action per job. */
  function PutActions(jobs: seq<Job>): (actions: seq<Action>)
    ensures |actions| == |jobs|
    ensures forall i :: 0 <= i < |jobs| ==> actions[i] == PutObject(jobs[i].key)
  {
    seq(|jobs|, i requires 0 <= i < |jobs| => PutObject(jobs[i].key))
  }
}
