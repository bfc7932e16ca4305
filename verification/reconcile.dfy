/** The reconciliation planner at the level of names: a source and a
    destination, each a map from file name to byte size, give the names to
    upload and the names to delete. Both change-detection policies of the
    engine are here: the command-line sync refreshes every source file, the
    scheduled one only uploads missing or resized files. */
module Reconcile {

  type Sizes = map<string, nat>

  /** The sizes of a name-keyed collection, read off each entry by `size`. */
  function SizeMap<V>(entries: map<string, V>, size: V -> nat): (sizes: Sizes)
    ensures sizes.Keys == entries.Keys
  {
    map n | n in entries :: size(entries[n])
  }

  datatype Policy = AlwaysRefresh | SizeGated

  datatype Plan = Plan(toUpload: set<string>, toDelete: set<string>)

  /** Whether a source file is uploaded: always, or (size-gated) when the
      destination lacks it or records another size. */
  predicate NeedsUpload(policy: Policy, src: Sizes, dst: Sizes, name: string)
    requires name in src
  {
    policy.AlwaysRefresh? || name !in dst || dst[name] != src[name]
  }

  /** The plan: upload what the policy asks for, delete by name membership
      only (never by size). The delete set never touches a source name. */
  function MakePlan(policy: Policy, src: Sizes, dst: Sizes): (p: Plan)
    ensures p.toUpload <= src.Keys
    ensures p.toDelete <= dst.Keys
    ensures p.toDelete !! src.Keys
  {
    var uploads := set n | n in src && NeedsUpload(policy, src, dst, n);
    Plan(uploads, dst.Keys - src.Keys)
  }

  /** The always-refresh plan uploads every source file and deletes the
      destination names the source lacks. */
  lemma AlwaysRefreshPlan(src: Sizes, dst: Sizes)
    ensures MakePlan(AlwaysRefresh, src, dst) == Plan(src.Keys, dst.Keys - src.Keys)
  {
  }

  /** The destination after a plan is carried out: deleted names are gone,
      uploaded names hold the source size, everything else is untouched. */
  function Apply(dst: Sizes, src: Sizes, p: Plan): Sizes
    requires p.toUpload <= src.Keys
  {
    map n | n in (dst.Keys - p.toDelete) + p.toUpload :: if n in p.toUpload then src[n] else dst[n]
  }

  /** Convergence: under either policy, carrying out the plan leaves the
      destination equal to the source, names and sizes. */
  lemma Convergence(policy: Policy, src: Sizes, dst: Sizes)
    ensures Apply(dst, src, MakePlan(policy, src, dst)) == src
  {
    var p := MakePlan(policy, src, dst);
    var after := Apply(dst, src, p);
    assert after.Keys == src.Keys;
    forall n | n in src ensures after[n] == src[n] {
      if n !in p.toUpload {
        assert n in dst && dst[n] == src[n];
      }
    }
  }

  /** Idempotence: on a second run against the converged destination the
      size-gated plan is empty, and the always-refresh plan re-uploads the
      source and deletes nothing. */
  lemma SecondRun(src: Sizes, dst: Sizes, policy: Policy)
    ensures var after := Apply(dst, src, MakePlan(policy, src, dst));
            && MakePlan(SizeGated, src, after) == Plan({}, {})
            && MakePlan(AlwaysRefresh, src, after) == Plan(src.Keys, {})
  {
    Convergence(policy, src, dst);
  }

  /** The size gate skips a file exactly when the destination already holds
      its name with its size; in particular a destination that agrees with
      the source on every source name gets no upload. */
  lemma {:induction false} SizeGateSkips(src: Sizes, dst: Sizes)
    ensures forall n :: n in src ==>
      (n !in MakePlan(SizeGated, src, dst).toUpload <==> n in dst && dst[n] == src[n])
    ensures (forall n :: n in src ==> n in dst && dst[n] == src[n]) ==>
      MakePlan(SizeGated, src, dst).toUpload == {}
  {
  }

  /** The size-gated plan is the least one that converges: any plan whose
      uploads come from the source and whose result equals the source
      uploads and deletes at least as much. */
  lemma SizeGatedIsMinimal(src: Sizes, dst: Sizes, p: Plan)
    requires p.toUpload <= src.Keys
    requires Apply(dst, src, p) == src
    ensures MakePlan(SizeGated, src, dst).toUpload <= p.toUpload
    ensures MakePlan(SizeGated, src, dst).toDelete <= p.toDelete
  {
    var q := MakePlan(SizeGated, src, dst);
    var after := Apply(dst, src, p);
    forall n | n in q.toUpload ensures n in p.toUpload {
      assert n in after && after[n] == src[n];
    }
    forall n | n in q.toDelete ensures n in p.toDelete {
      assert n !in after;
    }
  }

  /** The worked example: source {a.txt: 10, b.txt: 20}, destination
      {b.txt: 99, c.txt: 5}. */
  lemma Scenario()
    ensures var src := map["a.txt" := 10, "b.txt" := 20];
            var dst := map["b.txt" := 99, "c.txt" := 5];
            && MakePlan(SizeGated, src, dst) == Plan({"a.txt", "b.txt"}, {"c.txt"})
            && Apply(dst, src, MakePlan(SizeGated, src, dst)) == src
  {
    var src := map["a.txt" := 10, "b.txt" := 20];
    var dst := map["b.txt" := 99, "c.txt" := 5];
    var p := MakePlan(SizeGated, src, dst);
    assert "a.txt" != "b.txt" && "b.txt" != "c.txt" && "a.txt" != "c.txt";
    assert p.toUpload == {"a.txt", "b.txt"};
    assert p.toDelete == {"c.txt"};
    Convergence(SizeGated, src, dst);
  }
}
