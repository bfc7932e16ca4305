/** Optional values, the engine's error taxonomy, and results that carry one. */
module Outcomes {

  datatype Option<+T> = None | Some(value: T)

  /** The two ways a sync run stops early. */
  datatype SyncError =
    | ManifestParseError          // the listing yielded no usable row
    | TransferError(url: string)  // fetching one file failed

  datatype Result<+T> = Ok(value: T) | Err(error: SyncError)

  /** The `Some` results of `f` over `xs`, in order: a loop that skips the
      items `f` rejects. */
  function FilterMap<A, B(!new)>(xs: seq<A>, f: A -> Option<B>): (ys: seq<B>)
    ensures |ys| <= |xs|
    ensures forall y :: y in ys <==> exists i :: 0 <= i < |xs| && f(xs[i]) == Some(y)
  {
    if xs == [] then []
    else
      var init := xs[..|xs| - 1];
      var rest := FilterMap(init, f);
      assert forall i :: 0 <= i < |init| ==> init[i] == xs[i];
      match f(xs[|xs| - 1])
      case None => rest
      case Some(y) => rest + [y]
  }

  /** The values of the `Some`s of `os`, in order. */
  function Somes<T(!new)>(os: seq<Option<T>>): (ys: seq<T>)
    ensures |ys| <= |os|
    ensures forall y :: y in ys <==> exists i :: 0 <= i < |os| && os[i] == Some(y)
  {
    if os == [] then []
    else
      var rest := Somes(os[1..]);
      assert forall i :: 1 <= i < |os| ==> os[1..][i - 1] == os[i];
      (if os[0].Some? then [os[0].value] else []) + rest
  }

  lemma SomesCons<T(!new)>(o: Option<T>, os: seq<Option<T>>)
    ensures Somes([o] + os) == (if o.Some? then [o.value] else []) + Somes(os)
  {
    assert ([o] + os)[1..] == os;
  }

  /** `f` applied to each item of `xs`, in order. */
  function MapAll<A, B>(xs: seq<A>, f: A --> B): (ys: seq<B>)
    requires forall i :: 0 <= i < |xs| ==> f.requires(xs[i])
    ensures |ys| == |xs|
    ensures forall i :: 0 <= i < |xs| ==> ys[i] == f(xs[i])
  {
    if xs == [] then []
    else
      assert forall i :: 1 <= i < |xs| ==> xs[1..][i - 1] == xs[i];
      [f(xs[0])] + MapAll(xs[1..], f)
  }
}
