/** The listing parser of the command-line sync (`list_bls_manifest` in
    data/ingestion/ingest.py): break markup is normalised to newlines, each
    line is matched against the IIS-style row
    `M/D/YYYY H:MM AM|PM size <A HREF="...">name</A>`, names outside
    `[A-Za-z0-9._-]+` are skipped, and an empty result is an error. */
module IngestListing {
  import opened Text
  import opened Outcomes
  import opened Grammar
  import opened Dicts

  /** The metadata recorded per file: the listing's timestamp text and the
      listed byte size. */
  datatype SourceMeta = SourceMeta(stamp: string, size: nat)

  /** Joins `<` split from its tag by a newline, then turns `<br>`, `<br/>`
      and `<br />` into newlines (case-sensitive, one pass each). */
  function Normalize(html: string): string {
    var joined := Replace(html, "<\n", "<");
    Replace(Replace(Replace(joined, "<br>", "\n"), "<br/>", "\n"), "<br />", "\n")
  }

  /** No break tag survives normalisation, so every row sits on its own line. */
  lemma NormalizeRemovesBreaks(html: string)
    ensures !Contains(Normalize(html), "<br>")
    ensures !Contains(Normalize(html), "<br/>")
    ensures !Contains(Normalize(html), "<br />")
  {
    var h1 := Replace(html, "<\n", "<");
    var h2 := Replace(h1, "<br>", "\n");
    var h3 := Replace(h2, "<br/>", "\n");
    ReplaceRemoves(h1, "<br>", "\n");
    ReplaceRemoves(h2, "<br/>", "\n");
    ReplaceKeepsAbsent(h2, "<br/>", "\n", "<br>");
    ReplaceRemoves(h3, "<br />", "\n");
    ReplaceKeepsAbsent(h3, "<br />", "\n", "<br>");
    ReplaceKeepsAbsent(h3, "<br />", "\n", "<br/>");
  }

  /** One listing row, matched from the start of the line and ignoring case:
      optional blanks; a date of one- or two-digit month and day and a
      four-digit year, separated by slashes; blanks; a time of a one- or
      two-digit hour and two-digit minutes; blanks; the meridiem marker;
      blanks; the size digits; blanks; an anchor tag whose quoted href is
      non-empty; the link text (captured as the name, no `<`); the closing
      tag. The meridiem alternative is one of `AaPp` followed by `M`. */
  const RowPattern: seq<Token> := [
    Run(Space, 0, Unbounded),        //  0
    Run(Digit, 1, AtMost(2)),        //  1 month
    Lit("/"),                        //  2
    Run(Digit, 1, AtMost(2)),        //  3 day
    Lit("/"),                        //  4
    Run(Digit, 4, AtMost(4)),        //  5 year
    Run(Space, 1, Unbounded),        //  6
    Run(Digit, 1, AtMost(2)),        //  7 hour
    Lit(":"),                        //  8
    Run(Digit, 2, AtMost(2)),        //  9 minute
    Run(Space, 1, Unbounded),        // 10
    Run(Meridiem, 1, AtMost(1)),     // 11 A or P
    Lit("M"),                        // 12
    Run(Space, 1, Unbounded),        // 13
    Run(Digit, 1, Unbounded),        // 14 size
    Run(Space, 1, Unbounded),        // 15
    Lit("<A"),                       // 16
    Run(Space, 1, Unbounded),        // 17
    Lit("HREF=\""),                  // 18
    Run(Except('"'), 1, Unbounded),  // 19 href
    Lit("\">"),                      // 20
    Run(Except('<'), 1, Unbounded),  // 21 link text
    Lit("</A>")                      // 22
  ]

  predicate IsSafeChar(c: char) {
    IsAsciiLetter(c) || IsDigit(c) || c == '.' || c == '_' || c == '-'
  }

  /** The whole name is one or more ASCII letters, digits, dots,
      underscores or dashes. */
  predicate IsSafeName(s: string) {
    |s| > 0 && forall i :: 0 <= i < |s| ==> IsSafeChar(s[i])
  }

  /** The manifest entry of a matched row: the stripped link text, and
      date, time and upper-cased meridiem joined by single spaces, and the
      decimal value of the size digits. */
  function EntryOf(ps: seq<string>): (string, SourceMeta)
    requires FitsAll(RowPattern, ps)
  {
    var date := ps[1] + ps[2] + ps[3] + ps[4] + ps[5];
    var time := ps[7] + ps[8] + ps[9];
    (Strip(ps[21], Space), SourceMeta(date + " " + time + " " + UpperString(ps[11] + ps[12]), Value(ps[14])))
  }

  /** The timestamp keeps the listing's digits and separators and spells the
      marker in capitals. */
  lemma StampShape(ps: seq<string>)
    requires FitsAll(RowPattern, ps)
    ensures var m := UpperString(ps[11] + ps[12]);
            var date, time := ps[1] + "/" + ps[3] + "/" + ps[5], ps[7] + ":" + ps[9];
            && (m == "AM" || m == "PM")
            && EntryOf(ps).1.stamp == date + " " + time + " " + m
  {
    assert ps[2] == "/" && ps[4] == "/" && ps[8] == ":" by {
      assert Fits(RowPattern[2], ps[2]) && Fits(RowPattern[4], ps[4]) && Fits(RowPattern[8], ps[8]);
    }
    MarkerShape(ps[11], ps[12]);
  }

  /** `(AM|PM)` matched case-insensitively reads `AM` or `PM` in capitals. */
  lemma MarkerShape(first: string, second: string)
    requires Fits(Run(Meridiem, 1, AtMost(1)), first) && Fits(Lit("M"), second)
    ensures UpperString(first + second) == "AM" || UpperString(first + second) == "PM"
  {
    var m := UpperString(first + second);
    assert m[1] == 'M';
  }

  /** One line: `None` when the row pattern does not match at its start or
      the name fails the charset check. */
  function ParseLine(line: string): (r: Option<(string, SourceMeta)>)
    ensures r.Some? ==> IsSafeName(r.value.0)
    ensures r.Some? ==> exists ps, rest :: FitsAll(RowPattern, ps) && line == Concat(ps) + rest && r.value == EntryOf(ps)
  {
    match Match(RowPattern, line)
    case None => None
    case Some((ps, rest)) =>
      var e := EntryOf(ps);
      if IsSafeName(e.0) then Some(e) else None
  }

  /** Every well-formed row is read back: a line made of pieces the row
      pattern accepts yields that row's entry, unless its name fails the
      charset check, in which case the line is skipped. */
  lemma ParseLineComplete(ps: seq<string>, rest: string)
    requires FitsAll(RowPattern, ps)
    requires Maximal(RowPattern, ps, rest)
    ensures ParseLine(Concat(ps) + rest) == if IsSafeName(EntryOf(ps).0) then Some(EntryOf(ps)) else None
  {
    MatchComplete(RowPattern, ps, rest);
  }

  /** The entries of a page's lines, in line order. */
  function Parsed(lines: seq<string>): seq<(string, SourceMeta)> {
    FilterMap(lines, ParseLine)
  }

  /** The manifest of a listing page, or `ManifestParseError` when no line
      yields an entry. A manifest is never empty, every name in it passes
      the charset check, and its names come in the order of their first
      row. */
  function ParseManifest(html: string): (r: Result<Dict<SourceMeta>>)
    ensures r.Err? ==> r.error == ManifestParseError
    ensures r.Err? <==> Parsed(SplitLines(Normalize(html))) == []
    ensures r.Ok? ==> r.value.Valid() && r.value.entries != map[]
    ensures r.Ok? ==> forall n :: n in r.value.entries ==> IsSafeName(n)
    ensures r.Ok? ==> FirstOrdered(Parsed(SplitLines(Normalize(html))), r.value.order)
  {
    var es := Parsed(SplitLines(Normalize(html)));
    ParsedKeys(es);
    CollectOrder(es);
    var d := Collect(es);
    if d.entries == map[] then Err(ManifestParseError) else Ok(d)
  }

  /** The entries read from a page have safe names, and there is a key
      exactly when there is an entry. */
  lemma ParsedKeys(es: seq<(string, SourceMeta)>)
    requires forall e :: e in es ==> IsSafeName(e.0)
    ensures forall n :: n in KeysOf(es) ==> IsSafeName(n)
    ensures KeysOf(es) == {} <==> es == []
  {
    if es != [] {
      assert es[0].0 in KeysOf(es);
    }
    forall n | n in KeysOf(es) ensures IsSafeName(n) {
      var i :| 0 <= i < |es| && es[i].0 == n;
      assert es[i] in es;
    }
  }

  /** Fail-closed: the manifest is an error exactly when no line of the
      normalised page is a row with a valid name. */
  lemma EmptyListingFails(html: string)
    ensures ParseManifest(html).Err? <==> forall l :: l in SplitLines(Normalize(html)) ==> ParseLine(l).None?
  {
    var lines := SplitLines(Normalize(html));
    if ParseManifest(html).Ok? {
      var e := Parsed(lines)[0];
      assert e in Parsed(lines);
      var i :| 0 <= i < |lines| && ParseLine(lines[i]) == Some(e);
      assert lines[i] in lines;
    } else {
      forall l | l in lines ensures ParseLine(l).None? {
        var i :| 0 <= i < |lines| && lines[i] == l;
      }
    }
  }

  /** A name is in the manifest iff some line yields it, and it holds the
      metadata of the last line that yields it (later duplicates win). */
  lemma ManifestKeepsLastRow(html: string)
    requires ParseManifest(html).Ok?
    ensures KeepsLast(SplitLines(Normalize(html)), ParseLine, ParseManifest(html).value)
  {
    CollectFilterMap(SplitLines(Normalize(html)), ParseLine);
  }

  // ------------------------------------------------------------- a sample row

  /** The pieces of one listing row for `name`, dated 3/14/2025 8:30 am and
      12345 bytes long, with the marker in lower case. */
  function SampleRow(name: string): seq<string> {
    ["", "3", "/", "14", "/", "2025", " ", "8", ":", "30", " ", "a", "m", " ", "12345", " ",
     "<A", " ", "HREF=\"", "/pub/time.series/pr/" + name, "\">", name, "</A>"]
  }

  /** Any link text without `<` or `"` that does not start with a space
      fills a sample row the row pattern accepts piece by piece. */
  lemma SampleRowFits(name: string)
    requires name != [] && '<' !in name && '"' !in name && !IsSpace(name[0])
    ensures FitsAll(RowPattern, SampleRow(name))
  {
    SampleRowFitsFrom0(name);
    SampleRowFitsFrom6(name);
    SampleRowFitsFrom12(name);
    SampleRowFitsFrom18(name);
  }

  lemma SampleRowFitsFrom0(name: string)
    requires name != [] && '<' !in name && '"' !in name && !IsSpace(name[0])
    ensures forall i :: 0 <= i < 6 ==> Fits(RowPattern[i], SampleRow(name)[i])
  {
    var ps := SampleRow(name);
    assert Fits(RowPattern[0], ps[0]);
    assert Fits(RowPattern[1], ps[1]);
    assert Fits(RowPattern[2], ps[2]);
    assert Fits(RowPattern[3], ps[3]);
    assert Fits(RowPattern[4], ps[4]);
    assert Fits(RowPattern[5], ps[5]);
  }

  lemma SampleRowFitsFrom6(name: string)
    requires name != [] && '<' !in name && '"' !in name && !IsSpace(name[0])
    ensures forall i :: 6 <= i < 12 ==> Fits(RowPattern[i], SampleRow(name)[i])
  {
    var ps := SampleRow(name);
    assert Fits(RowPattern[6], ps[6]);
    assert Fits(RowPattern[7], ps[7]);
    assert Fits(RowPattern[8], ps[8]);
    assert Fits(RowPattern[9], ps[9]);
    assert Fits(RowPattern[10], ps[10]);
    assert Fits(RowPattern[11], ps[11]);
  }

  lemma SampleRowFitsFrom12(name: string)
    requires name != [] && '<' !in name && '"' !in name && !IsSpace(name[0])
    ensures forall i :: 12 <= i < 18 ==> Fits(RowPattern[i], SampleRow(name)[i])
  {
    var ps := SampleRow(name);
    assert Fits(RowPattern[12], ps[12]);
    assert Fits(RowPattern[13], ps[13]);
    assert Fits(RowPattern[14], ps[14]);
    assert Fits(RowPattern[15], ps[15]);
    assert Fits(RowPattern[16], ps[16]);
    assert Fits(RowPattern[17], ps[17]);
  }

  lemma SampleRowFitsFrom18(name: string)
    requires name != [] && '<' !in name && '"' !in name && !IsSpace(name[0])
    ensures forall i :: 18 <= i < 23 ==> Fits(RowPattern[i], SampleRow(name)[i])
  {
    var ps := SampleRow(name);
    assert Fits(RowPattern[18], ps[18]);
    assert Fits(RowPattern[19], ps[19]);
    assert Fits(RowPattern[20], ps[20]);
    assert Fits(RowPattern[21], ps[21]);
    assert Fits(RowPattern[22], ps[22]);
  }

  /** A sample row is a maximal split of its own text. */
  lemma SampleRowMaximal(name: string)
    requires name != [] && '<' !in name && '"' !in name && !IsSpace(name[0])
    ensures |SampleRow(name)| == |RowPattern| && Maximal(RowPattern, SampleRow(name), "")
  {
    SampleRowSeparated(name);
    SeparatedMaximal(RowPattern, SampleRow(name), "");
  }

  /** In a sample row every run is followed by a character outside its
      class, so the maximal match splits it back into the same pieces. */
  lemma SampleRowSeparated(name: string)
    requires name != [] && '<' !in name && '"' !in name && !IsSpace(name[0])
    ensures Separated(RowPattern, SampleRow(name), "")
  {
    SampleRowSeparatedFrom0(name);
    SampleRowSeparatedFrom7(name);
    SampleRowSeparatedFrom14(name);
    assert forall i :: 0 <= i < |RowPattern| && RowPattern[i].Run? ==> i in {0, 1, 3, 5, 6, 7, 9, 10, 11, 13, 14, 15, 17, 19, 21};
  }

  lemma SampleRowSeparatedFrom0(name: string)
    requires name != [] && '<' !in name && '"' !in name && !IsSpace(name[0])
    ensures forall i :: (i == 0 || i == 1 || i == 3 || i == 5 || i == 6) ==>
              SampleRow(name)[i + 1] != [] && !In(RowPattern[i].k, SampleRow(name)[i + 1][0])
  {
    var ps := SampleRow(name);
    PrintableNotSpace('3');
    PrintableNotSpace('8');
    assert ps[1] != [] && !In(RowPattern[0].k, ps[1][0]);
    assert ps[2] != [] && !In(RowPattern[1].k, ps[2][0]);
    assert ps[4] != [] && !In(RowPattern[3].k, ps[4][0]);
    assert ps[6] != [] && !In(RowPattern[5].k, ps[6][0]);
    assert ps[7] != [] && !In(RowPattern[6].k, ps[7][0]);
  }

  lemma SampleRowSeparatedFrom7(name: string)
    requires name != [] && '<' !in name && '"' !in name && !IsSpace(name[0])
    ensures forall i :: (i == 7 || i == 9 || i == 10 || i == 11 || i == 13) ==>
              SampleRow(name)[i + 1] != [] && !In(RowPattern[i].k, SampleRow(name)[i + 1][0])
  {
    var ps := SampleRow(name);
    PrintableNotSpace('a');
    PrintableNotSpace('1');
    assert ps[8] != [] && !In(RowPattern[7].k, ps[8][0]);
    assert ps[10] != [] && !In(RowPattern[9].k, ps[10][0]);
    assert ps[11] != [] && !In(RowPattern[10].k, ps[11][0]);
    assert ps[12] != [] && !In(RowPattern[11].k, ps[12][0]);
    assert ps[14] != [] && !In(RowPattern[13].k, ps[14][0]);
  }

  lemma SampleRowSeparatedFrom14(name: string)
    requires name != [] && '<' !in name && '"' !in name && !IsSpace(name[0])
    ensures forall i :: (i == 14 || i == 15 || i == 17 || i == 19 || i == 21) ==>
              SampleRow(name)[i + 1] != [] && !In(RowPattern[i].k, SampleRow(name)[i + 1][0])
  {
    var ps := SampleRow(name);
    PrintableNotSpace('<');
    PrintableNotSpace('H');
    assert ps[15] != [] && !In(RowPattern[14].k, ps[15][0]);
    assert ps[16] != [] && !In(RowPattern[15].k, ps[16][0]);
    assert ps[18] != [] && !In(RowPattern[17].k, ps[18][0]);
    assert ps[20] != [] && !In(RowPattern[19].k, ps[20][0]);
    assert ps[22] != [] && !In(RowPattern[21].k, ps[22][0]);
  }

  /** No printable ASCII character is whitespace. */
  lemma PrintableNotSpace(c: char)
    requires '!' <= c <= '~'
    ensures !In(Space, c)
  {
  }

  lemma SampleRowEntry(name: string)
    requires name != [] && '<' !in name && '"' !in name && !IsSpace(name[0])
    ensures FitsAll(RowPattern, SampleRow(name))
    ensures EntryOf(SampleRow(name)) == (Strip(name, Space), SourceMeta("3/14/2025 8:30 AM", 12345))
  {
    SampleRowFits(name);
    var ps := SampleRow(name);
    assert UpperString(ps[11] + ps[12]) == "AM";
    assert ps[14] == "12345";
    SampleSize();
    assert ps[1] + ps[2] + ps[3] + ps[4] + ps[5] == "3/14/2025";
    assert ps[7] + ps[8] + ps[9] == "8:30";
    assert "3/14/2025" + " " + "8:30" + " " + "AM" == "3/14/2025 8:30 AM";
    assert EntryOf(ps).1.size == 12345;
    assert EntryOf(ps).1.stamp == "3/14/2025 8:30 AM";
    assert EntryOf(ps).0 == Strip(name, Space);
  }

  lemma SampleSize()
    ensures Value("12345") == 12345
  {
    assert Value("1") == 1 by { assert "1"[..0] == ""; }
    assert Value("12") == 12 by { assert "12"[..1] == "1"; }
    assert Value("123") == 123 by { assert "123"[..2] == "12"; }
    assert Value("1234") == 1234 by { assert "1234"[..3] == "123"; }
    assert Value("12345") == 12345 by { assert "12345"[..4] == "1234"; }
  }

  /** A row with a safe name is read as that name, the upper-cased stamp and
      the integer size. */
  lemma SampleRowParses(name: string)
    requires IsSafeName(name)
    ensures ParseLine(Concat(SampleRow(name))) == Some((name, SourceMeta("3/14/2025 8:30 AM", 12345)))
  {
    assert '<' !in name && '"' !in name && !IsSpace(name[0]) && Strip(name, Space) == name by {
      assert forall i :: 0 <= i < |name| ==> IsSafeChar(name[i]);
      StripClean(name, Space);
    }
    var ps := SampleRow(name);
    SampleRowMaximal(name);
    SampleRowEntry(name);
    ParseLineComplete(ps, "");
    assert Concat(ps) + "" == Concat(ps);
  }

  /** A well-formed row whose stripped name fails the charset check is
      skipped, e.g. a path traversal such as `../secret`. */
  lemma UnsafeRowSkipped(name: string)
    requires name != [] && '<' !in name && '"' !in name && !IsSpace(name[0])
    requires !IsSafeName(Strip(name, Space))
    ensures ParseLine(Concat(SampleRow(name))) == None
  {
    var ps := SampleRow(name);
    assert Concat(ps) + "" == Concat(ps);
    assert !IsSafeName(EntryOf(ps).0) && FitsAll(RowPattern, ps) && Maximal(RowPattern, ps, "") by {
      SampleRowMaximal(name);
      SampleRowEntry(name);
    }
    RowSkipped(ps, "");
  }

  /** A matched row whose name fails the charset check yields nothing. */
  lemma RowSkipped(ps: seq<string>, rest: string)
    requires FitsAll(RowPattern, ps) && Maximal(RowPattern, ps, rest)
    requires !IsSafeName(EntryOf(ps).0)
    ensures ParseLine(Concat(ps) + rest) == None
  {
    ParseLineComplete(ps, rest);
  }

  lemma TraversalSkipped()
    ensures ParseLine(Concat(SampleRow("../secret"))) == None
  {
    var name := "../secret";
    assert name[0] == '.' && name[2] == '/' && name[|name| - 1] == 't';
    assert '<' !in name && '"' !in name by {
      assert forall i :: 0 <= i < |name| ==> name[i] != '<' && name[i] != '"';
    }
    assert !IsSpace(name[0]) by {
      PrintableNotSpace(name[0]);
    }
    assert !IsSafeName(Strip(name, Space)) by {
      PrintableNotSpace(name[0]);
      PrintableNotSpace(name[|name| - 1]);
      StripClean(name, Space);
      assert !IsSafeChar(name[2]);
    }
    UnsafeRowSkipped(name);
  }
}
