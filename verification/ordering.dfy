/** The order in which the object store lists keys. S3 returns keys in
    ascending order of their UTF-8 bytes; UTF-8 preserves code-point order,
    so on keys as strings of code points that is plain lexicographic order. */
module Ordering {

  /** `a` sorts strictly before `b`: a proper prefix of `b`, or smaller at
      the first position where they differ. */
  predicate Below(a: string, b: string) {
    b != [] && (a == [] || a[0] < b[0] || (a[0] == b[0] && Below(a[1..], b[1..])))
  }

  /** Strictly ascending: every key sorts before every later one. */
  predicate Ascending(xs: seq<string>) {
    forall i, j :: 0 <= i < j < |xs| ==> Below(xs[i], xs[j])
  }

  lemma {:induction false} BelowIrreflexive(a: string)
    ensures !Below(a, a)
  {
    if a != [] {
      BelowIrreflexive(a[1..]);
    }
  }

  lemma {:induction false} BelowTransitive(a: string, b: string, c: string)
    requires Below(a, b) && Below(b, c)
    ensures Below(a, c)
  {
    if a != [] && a[0] == b[0] && b[0] == c[0] {
      BelowTransitive(a[1..], b[1..], c[1..]);
    }
  }

  /** Any two distinct keys are ordered one way or the other. */
  lemma {:induction false} BelowTotal(a: string, b: string)
    requires a != b
    ensures Below(a, b) || Below(b, a)
  {
    if a != [] && b != [] && a[0] == b[0] {
      assert a == [a[0]] + a[1..] && b == [b[0]] + b[1..];
      BelowTotal(a[1..], b[1..]);
    }
  }

  /** Every non-empty set of keys has a least key. */
  lemma {:induction false} Least(s: set<string>) returns (x: string)
    requires s != {}
    ensures x in s
    ensures forall y :: y in s && y != x ==> Below(x, y)
    decreases |s|
  {
    var z :| z in s;
    var rest := s - {z};
    if rest == {} {
      x := z;
      assert s == {z};
    } else {
      var m := Least(rest);
      if Below(z, m) {
        x := z;
        forall y | y in s && y != x ensures Below(x, y) {
          if y != m {
            BelowTransitive(z, m, y);
          }
        }
      } else {
        x := m;
        BelowTotal(z, m);
        assert forall y :: y in s && y != x ==> y == z || y in rest;
      }
    }
  }
}
