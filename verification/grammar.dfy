/** A line grammar: a fixed sequence of tokens, each either a run of one
    character class with a length range, or a literal compared with
    `re.IGNORECASE` folding. The recogniser takes every run as long as it can
    and never backtracks. For the two listing patterns of the sync engine this
    is exactly what Python's `re` does, because every run is followed by a
    character outside its class or by the end of the text, so the regex has
    one way to match. */
module Grammar {
  import opened Text
  import opened Outcomes

  datatype Limit = Unbounded | AtMost(n: nat)

  datatype Token =
    | Run(k: CharClass, lo: nat, hi: Limit)
    | Lit(word: string)

  /** `piece` is a text the token accepts. */
  predicate Fits(t: Token, piece: string) {
    match t
    case Run(k, lo, hi) => AllIn(k, piece) && lo <= |piece| && (hi.AtMost? ==> |piece| <= hi.n)
    case Lit(w) => FoldEq(piece, w)
  }

  predicate FitsAll(pat: seq<Token>, pieces: seq<string>) {
    |pieces| == |pat| && forall i :: 0 <= i < |pat| ==> Fits(pat[i], pieces[i])
  }

  /** No further character of class `k` follows. */
  predicate Stops(k: CharClass, rest: string) {
    rest == [] || !In(k, rest[0])
  }

  function Concat(pieces: seq<string>): string {
    if pieces == [] then [] else pieces[0] + Concat(pieces[1..])
  }

  /** No run of the match could have been longer: what follows each run
      (the later pieces and the unmatched rest) starts outside its class. */
  ghost predicate Maximal(pat: seq<Token>, pieces: seq<string>, rest: string)
    requires |pieces| == |pat|
  {
    forall i :: 0 <= i < |pat| && pat[i].Run? ==> Stops(pat[i].k, Concat(pieces[i + 1..]) + rest)
  }

  /** One token at the start of `s`: the accepted piece and what follows. */
  function Step(t: Token, s: string): (r: Option<(string, string)>)
    ensures r.Some? ==> r.value.0 + r.value.1 == s && Fits(t, r.value.0)
    ensures r.Some? && t.Run? ==> Stops(t.k, r.value.1)
  {
    match t
    case Run(k, lo, hi) =>
      var n := SpanLen(s, k);
      assert s[..n] + s[n..] == s;
      if n < lo || (hi.AtMost? && n > hi.n) then None else Some((s[..n], s[n..]))
    case Lit(w) =>
      if |w| <= |s| && FoldEq(s[..|w|], w) then
        assert s[..|w|] + s[|w|..] == s;
        Some((s[..|w|], s[|w|..]))
      else None
  }

  /** Anchored match of `pat` at the start of `s`: one piece per token and the
      unmatched rest. */
  function Match(pat: seq<Token>, s: string): (r: Option<(seq<string>, string)>)
    ensures r.Some? ==> FitsAll(pat, r.value.0) && Concat(r.value.0) + r.value.1 == s
    ensures r.Some? ==> Maximal(pat, r.value.0, r.value.1)
  {
    if pat == [] then Some(([], s))
    else
      match Step(pat[0], s)
      case None => None
      case Some((p, rest)) =>
        match Match(pat[1..], rest)
        case None => None
        case Some((ps, tail)) =>
          MatchCons(pat, s, p, rest, ps, tail);
          Some(([p] + ps, tail))
  }

  /** A first piece and a match of the remaining tokens make a match. */
  lemma MatchCons(pat: seq<Token>, s: string, p: string, rest: string, ps: seq<string>, tail: string)
    requires pat != []
    requires p + rest == s && Fits(pat[0], p) && (pat[0].Run? ==> Stops(pat[0].k, rest))
    requires FitsAll(pat[1..], ps) && Concat(ps) + tail == rest
    requires Maximal(pat[1..], ps, tail)
    ensures FitsAll(pat, [p] + ps) && Concat([p] + ps) + tail == s
    ensures Maximal(pat, [p] + ps, tail)
  {
    var pieces := [p] + ps;
    assert pieces[1..] == ps;
    assert Concat(pieces) + tail == p + (Concat(ps) + tail);
    forall i | 1 <= i < |pat| ensures pat[i] == pat[1..][i - 1] && pieces[i] == ps[i - 1] && pieces[i + 1..] == ps[i..] {
    }
  }

  /** The pieces are separated the way a maximal match needs: each run is
      followed by a non-empty piece (or the rest) starting outside its class. */
  predicate Separated(pat: seq<Token>, pieces: seq<string>, rest: string)
    requires |pieces| == |pat|
  {
    forall i :: 0 <= i < |pat| && pat[i].Run? ==>
      if i + 1 < |pat| then pieces[i + 1] != [] && !In(pat[i].k, pieces[i + 1][0])
      else Stops(pat[i].k, rest)
  }

  lemma StepComplete(t: Token, p: string, rest: string)
    requires Fits(t, p)
    requires t.Run? ==> Stops(t.k, rest)
    ensures Step(t, p + rest) == Some((p, rest))
  {
    var s := p + rest;
    assert s[..|p|] == p && s[|p|..] == rest;
    if t.Run? {
      SpanLenOfRun(p, rest, t.k);
    }
  }

  /** Separated pieces are maximal: the non-empty piece after each run
      starts what follows the run. */
  lemma SeparatedMaximal(pat: seq<Token>, pieces: seq<string>, rest: string)
    requires |pieces| == |pat|
    requires Separated(pat, pieces, rest)
    ensures Maximal(pat, pieces, rest)
  {
    forall i | 0 <= i < |pat| && pat[i].Run?
      ensures Stops(pat[i].k, Concat(pieces[i + 1..]) + rest)
    {
      if i + 1 < |pat| {
        assert pieces[i + 1..][0] == pieces[i + 1];
        assert Concat(pieces[i + 1..]) == pieces[i + 1] + Concat(pieces[i + 2..]) by {
          assert pieces[i + 1..][1..] == pieces[i + 2..];
        }
      } else {
        assert pieces[i + 1..] == [];
      }
    }
  }

  /** A text built from pieces the tokens accept, each run followed by a
      character outside its class or by nothing, is matched into exactly
      those pieces. With `Match`'s own ensures this makes `Match` exact: it
      returns `(pieces, rest)` if and only if those conditions hold. */
  lemma {:induction false} MatchComplete(pat: seq<Token>, pieces: seq<string>, rest: string)
    requires FitsAll(pat, pieces)
    requires Maximal(pat, pieces, rest)
    ensures Match(pat, Concat(pieces) + rest) == Some((pieces, rest))
  {
    if pat != [] {
      var tail := Concat(pieces[1..]) + rest;
      StepFirst(pat, pieces, rest);
      TailMaximal(pat, pieces, rest);
      MatchComplete(pat[1..], pieces[1..], rest);
      assert Match(pat, Concat(pieces) + rest) == Some(([pieces[0]] + pieces[1..], rest)) by {
        assert Step(pat[0], Concat(pieces) + rest) == Some((pieces[0], tail));
        assert Match(pat[1..], tail) == Some((pieces[1..], rest));
      }
      assert [pieces[0]] + pieces[1..] == pieces;
    } else {
      assert Concat(pieces) + rest == rest;
    }
  }

  /** `Match` returns `(pieces, rest)` exactly for the accepted, maximal
      splits of the text. */
  lemma MatchExact(pat: seq<Token>, s: string, pieces: seq<string>, rest: string)
    ensures Match(pat, s) == Some((pieces, rest))
        <==> FitsAll(pat, pieces) && Concat(pieces) + rest == s && Maximal(pat, pieces, rest)
  {
    if FitsAll(pat, pieces) && Concat(pieces) + rest == s && Maximal(pat, pieces, rest) {
      MatchComplete(pat, pieces, rest);
    }
  }

  /** The first token takes exactly the first piece. */
  lemma StepFirst(pat: seq<Token>, pieces: seq<string>, rest: string)
    requires pat != []
    requires FitsAll(pat, pieces)
    requires Maximal(pat, pieces, rest)
    ensures Concat(pieces) + rest == pieces[0] + (Concat(pieces[1..]) + rest)
    ensures Step(pat[0], Concat(pieces) + rest) == Some((pieces[0], Concat(pieces[1..]) + rest))
  {
    var tail := Concat(pieces[1..]) + rest;
    assert Concat(pieces) + rest == pieces[0] + tail;
    if pat[0].Run? {
      assert pieces[0 + 1..] == pieces[1..];
    }
    StepComplete(pat[0], pieces[0], tail);
  }

  lemma TailMaximal(pat: seq<Token>, pieces: seq<string>, rest: string)
    requires pat != []
    requires FitsAll(pat, pieces)
    requires Maximal(pat, pieces, rest)
    ensures FitsAll(pat[1..], pieces[1..])
    ensures Maximal(pat[1..], pieces[1..], rest)
  {
    forall i | 0 <= i < |pat| - 1
      ensures pat[1..][i] == pat[i + 1] && pieces[1..][i] == pieces[i + 1]
      ensures pieces[1..][i + 1..] == pieces[i + 2..]
    {
    }
  }
}
