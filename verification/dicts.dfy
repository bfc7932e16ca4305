/** Python's insertion-ordered `dict` with string keys: assigning to a new key
    appends it to the iteration order, assigning to an existing key replaces
    the value and keeps the key's position. */
module Dicts {
  import opened Outcomes

  datatype Dict<V> = Dict(order: seq<string>, entries: map<string, V>) {

    /** The iteration order lists every key exactly once. */
    ghost predicate Valid() {
      && (forall i, j :: 0 <= i < j < |order| ==> order[i] != order[j])
      && (forall k :: k in entries <==> k in order)
    }
  }

  function Empty<V>(): (d: Dict<V>)
    ensures d.Valid() && d.entries == map[]
  {
    Dict([], map[])
  }

  /** `d[k] = v`. */
  function Put<V>(d: Dict<V>, k: string, v: V): (r: Dict<V>)
    requires d.Valid()
    ensures r.Valid()
    ensures r.entries == d.entries[k := v]
    ensures d.order <= r.order
  {
    if k in d.entries then Dict(d.order, d.entries[k := v])
    else Dict(d.order + [k], d.entries[k := v])
  }

  /** The keys of a sequence of pairs. */
  function KeysOf<V>(ps: seq<(string, V)>): set<string> {
    set i | 0 <= i < |ps| :: ps[i].0
  }

  /** No later pair in `ps` has the key of pair `i`. */
  ghost predicate LastOf<V>(ps: seq<(string, V)>, i: int)
    requires 0 <= i < |ps|
  {
    forall j :: i < j < |ps| ==> ps[j].0 != ps[i].0
  }

  /** A dictionary built from the pairs in order (by a comprehension or a
      loop of assignments): the keys are exactly the pairs' keys and each key holds the value of its
      LAST pair. */
  function Collect<V>(ps: seq<(string, V)>): (d: Dict<V>)
    ensures d.Valid()
    ensures d.entries.Keys == KeysOf(ps)
    ensures forall i :: 0 <= i < |ps| && LastOf(ps, i) ==> d.entries[ps[i].0] == ps[i].1
  {
    if ps == [] then Empty()
    else
      var init := ps[..|ps| - 1];
      var last := ps[|ps| - 1];
      assert ps == init + [last];
      var prev := Collect(init);
      KeysOfSnoc(init, last);
      LastOfInit(init, last);
      Put(prev, last.0, last.1)
  }

  /** The position of the first pair with key `k`. */
  function FirstIndex<V>(ps: seq<(string, V)>, k: string): (i: nat)
    requires k in KeysOf(ps)
    ensures i < |ps| && ps[i].0 == k
    ensures forall j :: 0 <= j < i ==> ps[j].0 != k
    decreases |ps|
  {
    if ps[0].0 == k then 0
    else
      assert k in KeysOf(ps[1..]) by {
        var j :| 0 <= j < |ps| && ps[j].0 == k;
        assert ps[1..][j - 1] == ps[j];
      }
      assert forall j :: 0 <= j < |ps| - 1 ==> ps[1..][j] == ps[j + 1];
      1 + FirstIndex(ps[1..], k)
  }

  /** `order` lists keys of `ps` by the position of their first pair. */
  ghost predicate FirstOrdered<V>(ps: seq<(string, V)>, order: seq<string>) {
    && (forall x :: 0 <= x < |order| ==> order[x] in KeysOf(ps))
    && (forall x, y :: 0 <= x < y < |order| ==> FirstIndex(ps, order[x]) < FirstIndex(ps, order[y]))
  }

  /** `Collect(ps)` orders its keys by their first pair: a key comes into
      the dict where it is first assigned and keeps that place. */
  lemma {:induction false} CollectOrder<V>(ps: seq<(string, V)>)
    ensures FirstOrdered(ps, Collect(ps).order)
  {
    if ps != [] {
      var init := ps[..|ps| - 1];
      var last := ps[|ps| - 1];
      assert ps == init + [last];
      CollectOrder(init);
      CollectOrderStep(init, last);
    }
  }

  lemma CollectOrderStep<V>(init: seq<(string, V)>, last: (string, V))
    requires FirstOrdered(init, Collect(init).order)
    ensures FirstOrdered(init + [last], Collect(init + [last]).order)
  {
    var ps := init + [last];
    var prev := Collect(init);
    assert ps[..|ps| - 1] == init;
    assert Collect(ps) == Put(prev, last.0, last.1);
    if last.0 in prev.entries {
      OrderKept(init, last, prev.order);
    } else {
      OrderExtended(init, last, prev.order);
    }
  }

  /** Adding a pair keeps the first positions of the keys already there. */
  lemma OrderKept<V>(init: seq<(string, V)>, last: (string, V), order: seq<string>)
    requires FirstOrdered(init, order)
    ensures FirstOrdered(init + [last], order)
  {
    forall x | 0 <= x < |order|
      ensures order[x] in KeysOf(init + [last])
      ensures FirstIndex(init + [last], order[x]) == FirstIndex(init, order[x])
    {
      FirstIndexSnoc(init, last, order[x]);
    }
  }

  /** A new key goes after every key already there. */
  lemma OrderExtended<V>(init: seq<(string, V)>, last: (string, V), order: seq<string>)
    requires FirstOrdered(init, order)
    requires last.0 !in KeysOf(init)
    ensures FirstOrdered(init + [last], order + [last.0])
  {
    var ps := init + [last];
    var next := order + [last.0];
    OrderKept(init, last, order);
    FirstIndexNew(init, last);
    assert forall x :: 0 <= x < |order| ==> next[x] == order[x];
    forall x | 0 <= x < |order| ensures FirstIndex(ps, order[x]) < |init| {
      FirstIndexSnoc(init, last, order[x]);
    }
  }

  /** A key already present keeps its first position when a pair is added. */
  lemma FirstIndexSnoc<V>(init: seq<(string, V)>, last: (string, V), k: string)
    requires k in KeysOf(init)
    ensures k in KeysOf(init + [last])
    ensures FirstIndex(init + [last], k) == FirstIndex(init, k)
  {
    KeysOfSnoc(init, last);
    var i := FirstIndex(init, k);
    var ps := init + [last];
    assert ps[i] == init[i];
    assert forall j :: 0 <= j < i ==> ps[j] == init[j];
  }

  /** A new key is first found at the pair that adds it. */
  lemma FirstIndexNew<V>(init: seq<(string, V)>, last: (string, V))
    requires last.0 !in KeysOf(init)
    ensures last.0 in KeysOf(init + [last])
    ensures FirstIndex(init + [last], last.0) == |init|
  {
    KeysOfSnoc(init, last);
    var ps := init + [last];
    forall j | 0 <= j < |init| ensures ps[j].0 != last.0 {
      assert ps[j] == init[j];
      assert init[j].0 in KeysOf(init);
    }
  }

  /** Every key of `Collect(ps)` comes from a last pair, whose value it
      holds. */
  lemma CollectHasLast<V>(ps: seq<(string, V)>, k: string) returns (i: nat)
    requires k in Collect(ps).entries
    ensures i < |ps| && ps[i].0 == k && LastOf(ps, i)
    ensures Collect(ps).entries[k] == ps[i].1
  {
    assert k in KeysOf(ps);
    var j :| 0 <= j < |ps| && ps[j].0 == k;
    i := LastIndex(ps, j);
  }

  /** The last pair with the key of pair `j`. */
  lemma {:induction false} LastIndex<V>(ps: seq<(string, V)>, j: nat) returns (i: nat)
    requires j < |ps|
    ensures j <= i < |ps| && ps[i].0 == ps[j].0 && LastOf(ps, i)
    decreases |ps| - j
  {
    if LastOf(ps, j) {
      i := j;
    } else {
      var next :| j < next < |ps| && ps[next].0 == ps[j].0;
      i := LastIndex(ps, next);
    }
  }

  lemma KeysOfSnoc<V>(init: seq<(string, V)>, last: (string, V))
    ensures KeysOf(init + [last]) == KeysOf(init) + {last.0}
  {
    var ps := init + [last];
    assert ps[|init|].0 == last.0;
    forall k | k in KeysOf(ps) ensures k in KeysOf(init) + {last.0} {
      var i :| 0 <= i < |ps| && ps[i].0 == k;
      if i < |init| { assert init[i] == ps[i]; }
    }
    forall k | k in KeysOf(init) ensures k in KeysOf(ps) {
      var i :| 0 <= i < |init| && init[i].0 == k;
      assert ps[i] == init[i];
    }
  }

  lemma LastOfInit<V>(init: seq<(string, V)>, last: (string, V))
    ensures forall i :: 0 <= i < |init| && LastOf(init + [last], i) ==> LastOf(init, i) && init[i].0 != last.0
  {
    var ps := init + [last];
    forall i | 0 <= i < |init| && LastOf(ps, i) ensures LastOf(init, i) && init[i].0 != last.0 {
      assert ps[|init|] == last;
      forall j | i < j < |init| ensures init[j].0 != init[i].0 {
        assert ps[j] == init[j];
      }
    }
  }

  /** Item `i` yields a key that no later item yields. */
  ghost predicate LastKeyAt<A, V>(xs: seq<A>, f: A -> Option<(string, V)>, i: int)
    requires 0 <= i < |xs| && f(xs[i]).Some?
  {
    forall j :: i < j < |xs| && f(xs[j]).Some? ==> f(xs[j]).value.0 != f(xs[i]).value.0
  }

  /** `d` is what a loop assigning `d[k] = v` for each item `f` maps to
      `Some((k, v))` (skipping the rest) leaves: a key is present iff some
      item yields it, and it holds the value of the last such item. */
  ghost predicate KeepsLast<A, V>(xs: seq<A>, f: A -> Option<(string, V)>, d: Dict<V>) {
    && (forall i :: 0 <= i < |xs| && f(xs[i]).Some? ==>
          && f(xs[i]).value.0 in d.entries
          && (LastKeyAt(xs, f, i) ==> d.entries[f(xs[i]).value.0] == f(xs[i]).value.1))
    && (forall k :: k in d.entries ==> exists i :: 0 <= i < |xs| && f(xs[i]).Some? && f(xs[i]).value.0 == k)
  }

  lemma CollectFilterMap<A, V(!new)>(xs: seq<A>, f: A -> Option<(string, V)>)
    ensures KeepsLast(xs, f, Collect(FilterMap(xs, f)))
  {
    CollectFilterMapLast(xs, f);
    var d := Collect(FilterMap(xs, f));
    var ps := FilterMap(xs, f);
    forall i | 0 <= i < |xs| && f(xs[i]).Some? ensures f(xs[i]).value.0 in d.entries {
      var e := f(xs[i]).value;
      assert e in ps;
      var j :| 0 <= j < |ps| && ps[j] == e;
      assert e.0 in KeysOf(ps);
    }
    forall k | k in d.entries
      ensures exists i :: 0 <= i < |xs| && f(xs[i]).Some? && f(xs[i]).value.0 == k
    {
      var j :| 0 <= j < |ps| && ps[j].0 == k;
      assert ps[j] in ps;
    }
  }

  lemma {:induction false} CollectFilterMapLast<A, V(!new)>(xs: seq<A>, f: A -> Option<(string, V)>)
    ensures forall i :: 0 <= i < |xs| && f(xs[i]).Some? && LastKeyAt(xs, f, i) ==>
              && f(xs[i]).value.0 in Collect(FilterMap(xs, f)).entries
              && Collect(FilterMap(xs, f)).entries[f(xs[i]).value.0] == f(xs[i]).value.1
  {
    if xs != [] {
      var init := xs[..|xs| - 1];
      CollectFilterMapLast(init, f);
      var d := Collect(FilterMap(xs, f));
      forall i | 0 <= i < |xs| && f(xs[i]).Some? && LastKeyAt(xs, f, i)
        ensures f(xs[i]).value.0 in d.entries && d.entries[f(xs[i]).value.0] == f(xs[i]).value.1
      {
        FilterMapSnoc(xs, f);
        if i == |xs| - 1 {
          CollectSnoc(FilterMap(init, f), f(xs[i]).value);
        } else {
          LastKeyAtInit(xs, f, i);
          assert init[i] == xs[i];
          KeepsEarlier(FilterMap(init, f), f(xs[|xs| - 1]), f(xs[i]).value);
        }
      }
    }
  }

  /** An assignment to another key keeps a key's value. */
  lemma KeepsEarlier<V>(ps: seq<(string, V)>, next: Option<(string, V)>, e: (string, V))
    requires e.0 in Collect(ps).entries && Collect(ps).entries[e.0] == e.1
    requires next.Some? ==> next.value.0 != e.0
    ensures var qs := ps + (if next.Some? then [next.value] else []);
            e.0 in Collect(qs).entries && Collect(qs).entries[e.0] == e.1
  {
    if next.Some? {
      CollectSnoc(ps, next.value);
    } else {
      assert ps + [] == ps;
    }
  }

  lemma FilterMapSnoc<A, B(!new)>(xs: seq<A>, f: A -> Option<B>)
    requires xs != []
    ensures FilterMap(xs, f) == FilterMap(xs[..|xs| - 1], f)
              + (if f(xs[|xs| - 1]).Some? then [f(xs[|xs| - 1]).value] else [])
  {
  }

  /** Collecting one more pair is one more assignment. */
  lemma CollectSnoc<V>(ps: seq<(string, V)>, e: (string, V))
    ensures Collect(ps + [e]).entries == Collect(ps).entries[e.0 := e.1]
  {
    assert (ps + [e])[..|ps|] == ps;
  }

  lemma LastKeyAtInit<A, V>(xs: seq<A>, f: A -> Option<(string, V)>, i: int)
    requires 0 <= i < |xs| - 1 && f(xs[i]).Some? && LastKeyAt(xs, f, i)
    ensures f(xs[..|xs| - 1][i]).Some? && LastKeyAt(xs[..|xs| - 1], f, i)
    ensures i < |xs| - 1 && f(xs[|xs| - 1]).Some? ==> f(xs[|xs| - 1]).value.0 != f(xs[i]).value.0
  {
    var init := xs[..|xs| - 1];
    forall j | i < j < |init| ensures init[j] == xs[j] { }
  }
}
