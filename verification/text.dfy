/** Character classes and the handful of Python `str` operations the sync
    engine relies on: strip/lstrip/rstrip, splitlines, replace, int() of a
    digit run, str() of a natural number, and rsplit("/", 1)[-1].
 */
module Text {

  /** Python's `str.isspace()`, which is also what the regex class `\s`
      matches on a `str` pattern. */
  predicate IsSpace(c: char) {
    || c == ' ' || c == '\t' || c == '\n' || c == '\r' || c == '\U{0B}' || c == '\U{0C}'
    || ('\U{1C}' <= c <= '\U{1F}') || c == '\U{85}' || c == '\U{A0}' || c == '\U{1680}'
    || ('\U{2000}' <= c <= '\U{200A}') || c == '\U{2028}' || c == '\U{2029}'
    || c == '\U{202F}' || c == '\U{205F}' || c == '\U{3000}'
  }

  /** The line boundaries recognised by Python's `str.splitlines()`. */
  predicate IsLineBreak(c: char) {
    || c == '\n' || c == '\r' || c == '\U{0B}' || c == '\U{0C}' || c == '\U{1C}'
    || c == '\U{1D}' || c == '\U{1E}' || c == '\U{85}' || c == '\U{2028}' || c == '\U{2029}'
  }

  predicate IsDigit(c: char) {
    '0' <= c <= '9'
  }

  predicate IsAsciiLetter(c: char) {
    ('a' <= c <= 'z') || ('A' <= c <= 'Z')
  }

  /** The character classes used by the listing grammars and the strip calls. */
  datatype CharClass =
    | Space                 // \s
    | Digit                 // \d (ASCII)
    | Letter                // [A-Za-z] under re.IGNORECASE
    | Meridiem              // first letter of (AM|PM) under re.IGNORECASE
    | Inline                // anything that is not a line boundary
    | Except(c: char)       // [^c]
    | Only(c: char)         // the single character c

  predicate In(k: CharClass, c: char) {
    match k
    case Space => IsSpace(c)
    case Digit => IsDigit(c)
    // With re.IGNORECASE a Unicode pattern's [A-Za-z] also matches these four.
    case Letter => IsAsciiLetter(c) || c == '\U{130}' || c == '\U{131}' || c == '\U{17F}' || c == '\U{212A}'
    case Meridiem => c == 'A' || c == 'a' || c == 'P' || c == 'p'
    case Inline => !IsLineBreak(c)
    case Except(x) => c != x
    case Only(x) => c == x
  }

  predicate AllIn(k: CharClass, s: string) {
    forall i :: 0 <= i < |s| ==> In(k, s[i])
  }

  /** Length of the longest prefix of `s` made of `k` characters. */
  function SpanLen(s: string, k: CharClass): (n: nat)
    ensures n <= |s|
    ensures AllIn(k, s[..n])
    ensures n == |s| || !In(k, s[n])
  {
    if s == [] || !In(k, s[0]) then 0 else 1 + SpanLen(s[1..], k)
  }

  /** Length of the longest suffix of `s` made of `k` characters. */
  function TrailLen(s: string, k: CharClass): (n: nat)
    ensures n <= |s|
    ensures AllIn(k, s[|s| - n..])
    ensures n == |s| || !In(k, s[|s| - n - 1])
  {
    if s == [] || !In(k, s[|s| - 1]) then 0 else 1 + TrailLen(s[..|s| - 1], k)
  }

  /** A run of `k` characters followed by something outside `k` is exactly
      what SpanLen measures. */
  lemma {:induction false} SpanLenOfRun(a: string, b: string, k: CharClass)
    requires AllIn(k, a)
    requires b == [] || !In(k, b[0])
    ensures SpanLen(a + b, k) == |a|
    decreases |a|
  {
    if a != [] {
      assert (a + b)[1..] == a[1..] + b;
      SpanLenOfRun(a[1..], b, k);
    }
  }

  /** Python's `s.lstrip(chars)` / `s.lstrip()` for the class `k`. */
  function LStrip(s: string, k: CharClass): string {
    s[SpanLen(s, k)..]
  }

  /** Python's `s.rstrip(chars)` / `s.rstrip()` for the class `k`. */
  function RStrip(s: string, k: CharClass): string {
    s[..|s| - TrailLen(s, k)]
  }

  /** Python's `s.strip(chars)` / `s.strip()` for the class `k`. */
  function Strip(s: string, k: CharClass): (r: string)
    ensures r == [] || (!In(k, r[0]) && !In(k, r[|r| - 1]))
  {
    RStrip(LStrip(s, k), k)
  }

  /** `Strip(s, k)` is `s` with a run of `k` characters cut from each side. */
  lemma StripIsTrim(s: string, k: CharClass)
    ensures exists i, j :: 0 <= i <= j <= |s| && Strip(s, k) == s[i..j]
                           && AllIn(k, s[..i]) && AllIn(k, s[j..])
  {
    var i, j := StripCuts(s, k);
  }

  /** Where `Strip` cuts: after the leading run and before the trailing one. */
  lemma StripCuts(s: string, k: CharClass) returns (i: nat, j: nat)
    ensures i <= j <= |s| && Strip(s, k) == s[i..j]
    ensures AllIn(k, s[..i]) && AllIn(k, s[j..])
  {
    i := SpanLen(s, k);
    j := |s| - TrailLen(s[i..], k);
    assert Strip(s, k) == RStrip(s[i..], k);
    RStripSuffix(s, k, i, j);
  }

  /** Right-stripping a suffix of `s` cuts a trailing run of `s` itself. */
  lemma RStripSuffix(s: string, k: CharClass, i: nat, j: nat)
    requires i <= |s| && j == |s| - TrailLen(s[i..], k)
    ensures i <= j && RStrip(s[i..], k) == s[i..j] && AllIn(k, s[j..])
  {
    SuffixSlices(s, i, j - i);
  }

  /** Cutting a suffix of `s` is cutting `s`. */
  lemma SuffixSlices(s: string, i: nat, m: nat)
    requires i <= |s| && m <= |s| - i
    ensures s[i..][..m] == s[i..i + m]
    ensures s[i..][m..] == s[i + m..]
  {
  }

  /** A text that neither starts nor ends with a `k` character is its own
      strip; in particular stripping twice is stripping once. */
  lemma StripClean(s: string, k: CharClass)
    requires s == [] || (!In(k, s[0]) && !In(k, s[|s| - 1]))
    ensures Strip(s, k) == s
  {
    assert SpanLen(s, k) == 0;
    assert s[0..] == s;
    assert TrailLen(s, k) == 0;
  }

  /** Strip removes exactly the `k` runs around a core that does not start
      or end with a `k` character. */
  lemma StripAround(lead: string, core: string, trail: string, k: CharClass)
    requires AllIn(k, lead) && AllIn(k, trail)
    requires core != [] && !In(k, core[0]) && !In(k, core[|core| - 1])
    ensures Strip(lead + core + trail, k) == core
  {
    var s := lead + core + trail;
    var t := core + trail;
    assert s == lead + t;
    SpanLenOfRun(lead, t, k);
    assert LStrip(s, k) == t;
    TrailLenOfRun(core, trail, k);
    assert t[..|core|] == core;
  }

  lemma StripAll(s: string, k: CharClass)
    requires AllIn(k, s)
    ensures Strip(s, k) == []
  {
    SpanLenOfRun(s, [], k);
    assert s + [] == s;
  }

  lemma StripIdempotent(s: string, k: CharClass)
    ensures Strip(Strip(s, k), k) == Strip(s, k)
  {
    StripClean(Strip(s, k), k);
  }

  /** Python's `str.upper()` restricted to ASCII letters. */
  function Upper(c: char): (u: char)
    ensures 'a' <= c <= 'z' ==> 'A' <= u <= 'Z'
    ensures !('a' <= c <= 'z') ==> u == c
  {
    if 'a' <= c <= 'z' then (c as int - 32) as char else c
  }

  function UpperString(s: string): (u: string)
    ensures |u| == |s|
    ensures forall i :: 0 <= i < |s| ==> u[i] == Upper(s[i])
  {
    if s == [] then [] else [Upper(s[0])] + UpperString(s[1..])
  }

  /** Case-insensitive equality of a regex literal under re.IGNORECASE (no
      literal of the listing grammars contains a letter with a non-ASCII
      case partner, so ASCII folding is exact). */
  predicate FoldEq(a: string, b: string) {
    |a| == |b| && forall i :: 0 <= i < |a| ==> Upper(a[i]) == Upper(b[i])
  }

  function DigitValue(c: char): nat
    requires IsDigit(c)
  {
    c as int - '0' as int
  }

  /** Python's `int(s)` on a run of ASCII digits. */
  function Value(s: string): nat
    requires AllIn(Digit, s)
  {
    if s == [] then 0 else Value(s[..|s| - 1]) * 10 + DigitValue(s[|s| - 1])
  }

  /** Python's `str(n)`: the decimal digits of `n`, most significant first. */
  function Decimal(n: nat): string {
    var d := [(n % 10 + '0' as int) as char];
    if n < 10 then d else Decimal(n / 10) + d
  }

  /** `str(n)` is a run of digits without leading zeros that `int` reads
      back as `n`. */
  lemma {:induction false} DecimalRoundTrip(n: nat)
    ensures 1 <= |Decimal(n)| && AllIn(Digit, Decimal(n))
    ensures Value(Decimal(n)) == n
    ensures |Decimal(n)| > 1 ==> Decimal(n)[0] != '0'
  {
    var d := [(n % 10 + '0' as int) as char];
    if n >= 10 {
      var h := Decimal(n / 10);
      DecimalRoundTrip(n / 10);
      assert (h + d)[..|h + d| - 1] == h;
    }
  }

  /** Python's `s.rsplit("/", 1)[-1]`: the text after the last `/`, or all of
      `s` when it has none. */
  function LastSegment(s: string): (r: string)
    ensures '/' !in r
    ensures |r| <= |s| && s[|s| - |r|..] == r
    ensures |r| < |s| ==> s[|s| - |r| - 1] == '/'
  {
    var n := TrailLen(s, Except('/'));
    s[|s| - n..]
  }

  lemma {:induction false} TrailLenOfRun(a: string, b: string, k: CharClass)
    requires AllIn(k, b)
    requires a == [] || !In(k, a[|a| - 1])
    ensures TrailLen(a + b, k) == |b|
    decreases |b|
  {
    if b != [] {
      assert (a + b)[..|a + b| - 1] == a + b[..|b| - 1];
      TrailLenOfRun(a, b[..|b| - 1], k);
    }
  }

  /** The key a listing returns for `dir + "/" + name` hands `name` back. */
  lemma LastSegmentOfJoin(dir: string, name: string)
    requires '/' !in name
    ensures LastSegment(dir + "/" + name) == name
  {
    assert AllIn(Except('/'), name);
    TrailLenOfRun(dir + "/", name, Except('/'));
    assert (dir + "/" + name)[|dir| + 1..] == name;
  }

  /** The last segment of a non-empty text is empty exactly when the text
      ends with `/`. */
  lemma LastSegmentEmpty(s: string)
    requires s != []
    ensures LastSegment(s) == [] <==> s[|s| - 1] == '/'
  {
    if s[|s| - 1] != '/' {
      assert In(Except('/'), s[|s| - 1]);
      assert TrailLen(s, Except('/')) > 0;
    }
  }

  lemma LastSegmentOfPlain(name: string)
    requires '/' !in name
    ensures LastSegment(name) == name
  {
    assert AllIn(Except('/'), name);
    TrailLenOfRun([], name, Except('/'));
    assert [] + name == name;
  }

  // ---------------------------------------------------------------- replace

  /** `q` occurs somewhere in `s`. */
  predicate Contains(s: string, q: string)
    requires q != []
  {
    if |s| < |q| then false else s[..|q|] == q || Contains(s[1..], q)
  }

  /** Python's `s.replace(p, r)`: every non-overlapping occurrence of `p`,
      scanning left to right, becomes `r`. */
  function Replace(s: string, p: string, r: string): string
    requires p != []
    decreases |s|
  {
    if |s| < |p| then s
    else if s[..|p|] == p then r + Replace(s[|p|..], p, r)
    else [s[0]] + Replace(s[1..], p, r)
  }

  /** Either a replacement shows up in the first `m` characters of the
      output, or those characters are the input's own. */
  lemma {:induction false} ReplacePlainPrefix(s: string, p: string, r: string, m: nat)
    requires p != [] && r != []
    requires m <= |Replace(s, p, r)|
    ensures || (exists i :: 0 <= i < m && Replace(s, p, r)[i] in r)
            || (m <= |s| && Replace(s, p, r)[..m] == s[..m])
    decreases |s|
  {
    var out := Replace(s, p, r);
    if |s| < |p| {
    } else if s[..|p|] == p {
      if m > 0 {
        assert out[0] == r[0];
      }
    } else if m > 0 {
      ReplacePlainPrefix(s[1..], p, r, m - 1);
      var tail := Replace(s[1..], p, r);
      assert out == [s[0]] + tail;
      if exists i :: 0 <= i < m - 1 && tail[i] in r {
        var i :| 0 <= i < m - 1 && tail[i] in r;
        assert out[i + 1] == tail[i];
      } else {
        assert out[..m] == [s[0]] + tail[..m - 1];
      }
    }
  }

  lemma {:induction false} ContainsSkipForeign(a: string, y: string, q: string)
    requires q != []
    requires forall i :: 0 <= i < |a| ==> a[i] != q[0]
    ensures Contains(a + y, q) == Contains(y, q)
    decreases |a|
  {
    if a != [] {
      assert (a + y)[1..] == a[1..] + y;
      ContainsSkipForeign(a[1..], y, q);
      if |a + y| >= |q| {
        assert (a + y)[..|q|][0] == a[0];
        assert Contains(a + y, q) == Contains(a[1..] + y, q);
      } else {
        assert |y| < |q|;
      }
    } else {
      assert a + y == y;
    }
  }

  lemma {:induction false} ContainsOfSuffix(s: string, k: nat, q: string)
    requires q != [] && k <= |s|
    requires Contains(s[k..], q)
    ensures Contains(s, q)
    decreases k
  {
    if k > 0 {
      assert s[1..][k - 1..] == s[k..];
      ContainsOfSuffix(s[1..], k - 1, q);
    }
  }

  /** After `Replace(s, p, r)` no `p` is left, provided `r` shares no
      character with `p`. */
  lemma {:induction false} ReplaceRemoves(s: string, p: string, r: string)
    requires p != [] && r != []
    requires forall i :: 0 <= i < |r| ==> r[i] !in p
    ensures !Contains(Replace(s, p, r), p)
    decreases |s|
  {
    if |s| < |p| {
    } else if s[..|p|] == p {
      ReplaceRemoves(s[|p|..], p, r);
      ContainsSkipForeign(r, Replace(s[|p|..], p, r), p);
    } else {
      ReplaceRemoves(s[1..], p, r);
      var tail := Replace(s[1..], p, r);
      var out := [s[0]] + tail;
      assert out[1..] == tail;
      if |out| >= |p| {
        ReplacePlainPrefix(s[1..], p, r, |p| - 1);
        if exists i :: 0 <= i < |p| - 1 && tail[i] in r {
          var i :| 0 <= i < |p| - 1 && tail[i] in r;
          assert out[i + 1] == tail[i];
          assert out[i + 1] !in p;
          assert out[..|p|] != p;
        } else {
          assert out[..|p|] == s[..|p|];
        }
      }
    }
  }

  /** `Replace(s, p, r)` creates no new occurrence of a `q` that shares no
      character with `r`. */
  lemma {:induction false} ReplaceKeepsAbsent(s: string, p: string, r: string, q: string)
    requires p != [] && r != [] && q != []
    requires forall i :: 0 <= i < |r| ==> r[i] !in q
    requires !Contains(s, q)
    ensures !Contains(Replace(s, p, r), q)
    decreases |s|
  {
    if |s| < |p| {
    } else if s[..|p|] == p {
      ContainsOfSuffixContra(s, |p|, q);
      ReplaceKeepsAbsent(s[|p|..], p, r, q);
      ContainsSkipForeign(r, Replace(s[|p|..], p, r), q);
    } else {
      ContainsOfSuffixContra(s, 1, q);
      ReplaceKeepsAbsent(s[1..], p, r, q);
      KeptHeadAbsent(s, p, r, q);
    }
  }

  /** A kept first character starts no occurrence of `q`, given that the
      rest of the output has none. */
  lemma KeptHeadAbsent(s: string, p: string, r: string, q: string)
    requires p != [] && r != [] && q != []
    requires forall i :: 0 <= i < |r| ==> r[i] !in q
    requires !Contains(s, q) && |s| >= |p| && s[..|p|] != p
    requires !Contains(Replace(s[1..], p, r), q)
    ensures !Contains(Replace(s, p, r), q)
  {
    var tail := Replace(s[1..], p, r);
    var out := [s[0]] + tail;
    assert Replace(s, p, r) == out;
    assert out[1..] == tail;
    if |out| >= |q| {
      ReplacePlainPrefix(s[1..], p, r, |q| - 1);
      if exists i :: 0 <= i < |q| - 1 && tail[i] in r {
        var i :| 0 <= i < |q| - 1 && tail[i] in r;
        assert out[i + 1] == tail[i];
        assert out[i + 1] !in q;
        assert out[..|q|] != q;
      } else {
        assert out[..|q|] == s[..|q|];
      }
    }
  }

  lemma ContainsOfSuffixContra(s: string, k: nat, q: string)
    requires q != [] && k <= |s|
    requires !Contains(s, q)
    ensures !Contains(s[k..], q)
  {
    if Contains(s[k..], q) {
      ContainsOfSuffix(s, k, q);
    }
  }

  // ------------------------------------------------------------- splitlines

  /** Python's `str.splitlines()`: a `\r\n` pair is one boundary, and a
      trailing boundary does not start an empty last line. */
  function SplitLines(s: string): (lines: seq<string>)
    ensures forall i :: 0 <= i < |lines| ==> AllIn(Inline, lines[i])
    decreases |s|
  {
    if s == [] then []
    else
      var n := SpanLen(s, Inline);
      if n == |s| then [s]
      else
        var width := if s[n] == '\r' && n + 1 < |s| && s[n + 1] == '\n' then 2 else 1;
        [s[..n]] + SplitLines(s[n + width..])
  }

  /** Lines each followed by a newline. */
  function JoinLines(lines: seq<string>): string {
    if lines == [] then [] else lines[0] + "\n" + JoinLines(lines[1..])
  }

  /** Splitting text written as newline-terminated lines gives the lines back. */
  lemma {:induction false} SplitJoinLines(lines: seq<string>)
    requires forall i :: 0 <= i < |lines| ==> AllIn(Inline, lines[i])
    ensures SplitLines(JoinLines(lines)) == lines
  {
    if lines != [] {
      var rest := JoinLines(lines[1..]);
      var s := lines[0] + "\n" + rest;
      assert s == lines[0] + ("\n" + rest);
      SpanLenOfRun(lines[0], "\n" + rest, Inline);
      assert s[..|lines[0]|] == lines[0];
      assert s[|lines[0]| + 1..] == rest;
      SplitJoinLines(lines[1..]);
    }
  }
}
