/** The listing parser of the scheduled sync (`_list_bls_files` in
    data/lambda/sync_and_fetch/handler.py): every non-overlapping match of
    the Apache-style row `<a href="...">text</a> DD-Mon-YYYY HH:MM size`,
    searched anywhere in the page, becomes a file named by the last `/`
    segment of its href; rows whose href names a directory are skipped.
    There is no charset check and no guard against an empty result. */
module LambdaListing {
  import opened Text
  import opened Outcomes
  import opened Grammar
  import opened Dicts

  /** One source file: its name and listed byte size. */
  datatype BlsFile = BlsFile(name: string, size: nat)

  /** One listing row, searched anywhere and ignoring case: an anchor tag
      whose quoted href (captured, no `"`) is followed by any other
      attributes; non-empty link text without `<`; the closing tag; blanks;
      a timestamp of two-digit day, three-letter month and four-digit year
      joined by dashes, blanks and a two-digit hour and minute; blanks; the
      size digits (captured); trailing blanks. */
  const RowPattern: seq<Token> := [
    Lit("<a"),                       //  0
    Run(Space, 1, Unbounded),        //  1
    Lit("href=\""),                  //  2
    Run(Except('"'), 1, Unbounded),  //  3 href
    Lit("\""),                       //  4
    Run(Except('>'), 0, Unbounded),  //  5 other attributes
    Lit(">"),                        //  6
    Run(Except('<'), 1, Unbounded),  //  7 link text
    Lit("</a>"),                     //  8
    Run(Space, 1, Unbounded),        //  9
    Run(Digit, 2, AtMost(2)),        // 10 day
    Lit("-"),                        // 11
    Run(Letter, 3, AtMost(3)),       // 12 month
    Lit("-"),                        // 13
    Run(Digit, 4, AtMost(4)),        // 14 year
    Run(Space, 1, Unbounded),        // 15
    Run(Digit, 2, AtMost(2)),        // 16 hour
    Lit(":"),                        // 17
    Run(Digit, 2, AtMost(2)),        // 18 minute
    Run(Space, 1, Unbounded),        // 19
    Run(Digit, 1, Unbounded),        // 20 size
    Run(Space, 0, Unbounded)         // 21
  ]

  const Href := 3
  const SizeDigits := 20

  /** A match is never empty: it starts with the two characters `<a`. */
  lemma MatchLength(ps: seq<string>)
    requires FitsAll(RowPattern, ps)
    ensures |Concat(ps)| >= 2
  {
    assert Fits(RowPattern[0], ps[0]);
    assert Concat(ps) == ps[0] + Concat(ps[1..]);
  }

  /** `finditer`: try the row at each position in turn; after a match carry
      on where it ended, otherwise one character further. */
  function Scan(s: string): (ms: seq<seq<string>>)
    ensures forall i :: 0 <= i < |ms| ==> FitsAll(RowPattern, ms[i])
    decreases |s|
  {
    if s == [] then []
    else
      match Match(RowPattern, s)
      case Some((ps, rest)) =>
        MatchLength(ps);
        [ps] + Scan(rest)
      case None => Scan(s[1..])
  }

  /** A row at the head of the text is found, pieces and all, and the
      search goes on right after it. */
  lemma ScanRow(ps: seq<string>, rest: string)
    requires FitsAll(RowPattern, ps)
    requires Maximal(RowPattern, ps, rest)
    ensures Scan(Concat(ps) + rest) == [ps] + Scan(rest)
  {
    MatchComplete(RowPattern, ps, rest);
    MatchLength(ps);
  }

  /** A row can only match where a `<` stands. */
  lemma RowStartsWithTag(s: string)
    ensures Match(RowPattern, s).Some? ==> s != [] && s[0] == '<'
  {
    if Match(RowPattern, s).Some? {
      var ps := Match(RowPattern, s).value.0;
      assert Fits(RowPattern[0], ps[0]);
      assert Concat(ps) == ps[0] + Concat(ps[1..]);
      assert s[0] == ps[0][0];
    }
  }

  /** Text without a `<` holds no row. */
  lemma {:induction false} ScanNoTag(s: string)
    requires '<' !in s
    ensures Scan(s) == []
    decreases |s|
  {
    if s != [] {
      RowStartsWithTag(s);
      assert s[0] in s;
      assert forall c :: c in s[1..] ==> c in s;
      ScanNoTag(s[1..]);
    }
  }

  /** The file of one row: the href's last `/` segment and the integer value
      of the size digits; a directory link (an href ending in `/`) gives
      none. */
  function FileOf(ps: seq<string>): (f: Option<BlsFile>)
    requires FitsAll(RowPattern, ps)
    ensures f.None? <==> ps[Href][|ps[Href]| - 1] == '/'
    ensures f.Some? ==> var href, name := ps[Href], f.value.name;
              && name != [] && '/' !in name && |name| <= |href|
              && href[|href| - |name|..] == name
              && (|name| == |href| || href[|href| - |name| - 1] == '/')
    ensures f.Some? ==> AllIn(Digit, ps[SizeDigits]) && f.value.size == Value(ps[SizeDigits])
  {
    RowFields(ps);
    var name := LastSegment(ps[Href]);
    LastSegmentEmpty(ps[Href]);
    if name == [] || name[|name| - 1] == '/' then None
    else Some(BlsFile(name, Value(ps[SizeDigits])))
  }

  /** A matched row has a non-empty href and a size of digits only. */
  lemma RowFields(ps: seq<string>)
    requires FitsAll(RowPattern, ps)
    ensures |ps| == |RowPattern| && ps[Href] != [] && AllIn(Digit, ps[SizeDigits])
  {
    assert Fits(RowPattern[Href], ps[Href]);
    assert Fits(RowPattern[SizeDigits], ps[SizeDigits]);
  }

  /** Any href without a `/` is taken as it is, whatever its characters:
      `..`, a space or a leading dot all pass. */
  lemma PlainHrefKept(ps: seq<string>)
    requires FitsAll(RowPattern, ps)
    requires '/' !in ps[Href]
    ensures FileOf(ps).Some? && FileOf(ps).value.name == ps[Href]
  {
    var href := ps[Href];
    assert href != [] by {
      assert Fits(RowPattern[Href], href);
    }
    LastSegmentOfPlain(href);
    assert href[|href| - 1] != '/' by {
      assert href[|href| - 1] in href;
    }
  }

  /** What each matched row yields: its file, or nothing. */
  function Yields(ms: seq<seq<string>>): (os: seq<Option<BlsFile>>)
    requires forall i :: 0 <= i < |ms| ==> FitsAll(RowPattern, ms[i])
    ensures |os| == |ms|
    ensures forall i :: 0 <= i < |ms| ==> os[i] == FileOf(ms[i])
  {
    MapAll(ms, (ps: seq<string>) requires FitsAll(RowPattern, ps) => FileOf(ps))
  }

  /** The files of a sequence of matched rows, in order. */
  function Files(ms: seq<seq<string>>): (files: seq<BlsFile>)
    requires forall i :: 0 <= i < |ms| ==> FitsAll(RowPattern, ms[i])
    ensures |files| <= |ms|
    ensures forall f :: f in files <==> exists i :: 0 <= i < |ms| && FileOf(ms[i]) == Some(f)
  {
    Somes(Yields(ms))
  }

  /** `_list_bls_files` after the page is fetched and decoded. */
  function ListFiles(html: string): (files: seq<BlsFile>)
    ensures forall f :: f in files ==> f.name != [] && '/' !in f.name
  {
    Files(Scan(html))
  }

  /** Each row of the page contributes its file, in page order. */
  lemma ListFilesRow(ps: seq<string>, rest: string)
    requires FitsAll(RowPattern, ps)
    requires Maximal(RowPattern, ps, rest)
    ensures ListFiles(Concat(ps) + rest)
         == (if FileOf(ps).Some? then [FileOf(ps).value] else []) + ListFiles(rest)
  {
    ScanRow(ps, rest);
    FilesCons(ps, Scan(rest));
  }

  lemma FilesCons(m: seq<string>, ms: seq<seq<string>>)
    requires FitsAll(RowPattern, m)
    requires forall i :: 0 <= i < |ms| ==> FitsAll(RowPattern, ms[i])
    ensures Files([m] + ms) == (if FileOf(m).Some? then [FileOf(m).value] else []) + Files(ms)
  {
    assert ([m] + ms)[1..] == ms;
    assert Yields([m] + ms) == [FileOf(m)] + Yields(ms);
    SomesCons(FileOf(m), Yields(ms));
  }

  /** `(name, file)` for each file. */
  function Pairs(files: seq<BlsFile>): (ps: seq<(string, BlsFile)>)
    ensures |ps| == |files|
    ensures forall i :: 0 <= i < |files| ==> ps[i] == (files[i].name, files[i])
  {
    seq(|files|, i requires 0 <= i < |files| => (files[i].name, files[i]))
  }

  /** The files keyed by name: one entry per distinct name, ordered by
      first occurrence, holding the LAST file of that name. */
  function ByName(files: seq<BlsFile>): (d: Dict<BlsFile>)
    ensures d.Valid()
  {
    Collect(Pairs(files))
  }

  /** The names of `ByName(files)` come in the order of their first file. */
  lemma ByNameOrder(files: seq<BlsFile>)
    ensures FirstOrdered(Pairs(files), ByName(files).order)
  {
    CollectOrder(Pairs(files));
  }

  /** The names of `ByName(files)` are the files' names. */
  lemma ByNameKeys(files: seq<BlsFile>)
    ensures ByName(files).entries.Keys == set f | f in files :: f.name
  {
    var ps := Pairs(files);
    forall n ensures n in KeysOf(ps) <==> n in (set f | f in files :: f.name) {
      if n in KeysOf(ps) {
        var i :| 0 <= i < |ps| && ps[i].0 == n;
        assert files[i] in files;
      }
      if n in (set f | f in files :: f.name) {
        var f :| f in files && f.name == n;
        var i :| 0 <= i < |files| && files[i] == f;
        assert ps[i].0 == n;
      }
    }
  }

  /** The names of `ByName(files)` are the files' names; each holds a file
      of its own name, the last one listed. */
  lemma ByNameSpec(files: seq<BlsFile>)
    ensures ByName(files).entries.Keys == set f | f in files :: f.name
    ensures forall n :: n in ByName(files).entries ==> ByName(files).entries[n].name == n
    ensures forall i :: 0 <= i < |files| && (forall j :: i < j < |files| ==> files[j].name != files[i].name)
              ==> ByName(files).entries[files[i].name] == files[i]
  {
    var ps := Pairs(files);
    var d := ByName(files);
    ByNameKeys(files);
    forall n | n in d.entries ensures d.entries[n].name == n {
      var i := CollectHasLast(ps, n);
    }
    forall i | 0 <= i < |files| && (forall j :: i < j < |files| ==> files[j].name != files[i].name)
      ensures d.entries[files[i].name] == files[i]
    {
      assert LastOf(ps, i);
    }
  }
}
