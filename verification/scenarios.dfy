/** The scenarios of the current converter's tests (pkg/gobib/api_test.go), worked
    through the model. */
module Scenarios {
  import opened Wrappers
  import opened Text
  import opened Decimal
  import opened Tex
  import opened Divider
  import opened Format
  import opened Entries
  import opened Parser
  import opened LegacyDivider

  /** A pattern starting with a backslash can occur only where the text has one. */
  lemma OnlyBackslashAt(s: string, k: int, pat: string)
    requires |pat| >= 1 && pat[0] == '\\'
    requires forall i | 0 <= i < |s| && i != k :: s[i] != '\\'
    requires !OccursAt(s, pat, k)
    ensures !Contains(s, pat)
  {
    forall i | 0 <= i <= |s| - |pat| && i != k ensures !OccursAt(s, pat, i) {
      assert s[i..i + |pat|][0] == s[i];
    }
  }

  // ---------------------------------------------------------------- extractors

  /** `TestKeyFromLine`. */
  lemma KeyFromLine()
    ensures ExtractKey("\\bibitem{item}") == Success("item")
  {
    assert "\\bibitem{item}" == "" + BibItem + "item" + "}" + "";
    ExtractKeyOfMarker("", "item", "");
  }

  lemma ExampleLine()
    ensures "hello, \\url{example.com/golang}, hey"
      == "hello, " + UrlToken + "example.com/golang" + "}" + ", hey"
  {
  }

  /** `TestExtractURL`. */
  lemma ExtractURLExample()
    ensures ExtractURL("hello, \\url{example.com/golang}, hey") == "example.com/golang"
  {
    ExampleLine();
    NoUrlWithoutBackslash("example.com/golang" + "}" + ", hey");
    ExtractURLOf("hello, ", "example.com/golang", ", hey");
  }

  /** `TestExtractEmptyURL`. */
  lemma ExtractEmptyURL()
    ensures ExtractURL("\\bibitem{item}\n hello world") == ""
  {
    var s := "\\bibitem{item}\n hello world";
    assert s[1] != UrlToken[1];
    OnlyBackslashAt(s, 0, UrlToken);
  }

  lemma Decimal2018()
    ensures IntToDecimal(2018) == "2018"
  {
    var s := "2018";
    assert s[..3] == "201" && "201"[..2] == "20" && "20"[..1] == "2";
    assert DecimalValue(s) == 2018;
    DecimalRoundTripBack(s);
  }

  /** `TestNewAdvancedWithKey`: a missing key is synthesised as title, year and first
      author. */
  lemma NewWithoutKey()
    ensures NewBasicEntry("", ["foo"], "bar", 2018, "").key == "bar-2018-foo"
  {
    Decimal2018();
  }

  // ---------------------------------------------------------------- legacy divider

  /** A line without a backslash is never a marker. */
  lemma NoBackslashNoMarker(s: string)
    requires '\\' !in s
    ensures !IsMarker(s)
  {
    ContainsHead(s, BibItem);
  }

  /** Two markers, each followed by plain lines, after a leading blank line: the legacy
      divider gives the two bodies and no error. */
  lemma LegacyTwoItems(m: string, l1: string, l2: string)
    requires IsMarker(m) && !IsMarker(l1) && !IsMarker(l2) && !IsMarker("")
    ensures LegacyDivide(Input(["", m, l1, "", m, l2], Eof))
      == LegacyDivision([BodyOf([l1, ""]), BodyOf([l2])], None)
  {
    var items := [Item(m, [l1, ""]), Item(m, [l2])];
    assert items[1..] == [Item(m, [l2])];
    assert items[1..][1..] == [];
    assert Layout(items[1..]) == [m, l2];
    assert Layout(items) == [m, l1, ""] + [m, l2];
    assert [""] + Layout(items) == ["", m, l1, "", m, l2];
    assert NoMarker([""]);
    assert AllLegacyItems(items) by {
      assert LegacyItem(items[0]) && LegacyItem(items[1]);
    }
    LegacyDivideLayout([""], items, Eof);
    assert Bodies(items[1..]) == [BodyOf([l2])];
  }

  /** `TestDivider1` of the legacy converter: its two-item bibliography divides into two
      entries. */
  lemma LegacyDivider1()
    ensures |LegacyDivide(Input(["", "\t\\bibitem{}", "\tRoss Anderson, Why Cryptosystems Fail", "",
      "\t\\bibitem{}", "\tRoss Anderson, Why Cryptosystems Don't Fail"], Eof)).entries| == 2
  {
    var m := "\t\\bibitem{}";
    assert m[1..10] == BibItem;
    ContainsAt(m, BibItem, 1);
    NoBackslashNoMarker("\tRoss Anderson, Why Cryptosystems Fail");
    NoBackslashNoMarker("\tRoss Anderson, Why Cryptosystems Don't Fail");
    NoBackslashNoMarker("");
    LegacyTwoItems(m, "\tRoss Anderson, Why Cryptosystems Fail",
      "\tRoss Anderson, Why Cryptosystems Don't Fail");
  }

  // ---------------------------------------------------------------- current divider and parser

  /** A line without a backslash neither opens an item nor ends the list. */
  lemma NoBackslashPlain(s: string)
    requires '\\' !in s
    ensures Plain(s)
  {
    ContainsHead(s, BibItem);
    ContainsHead(s, EndBibliography);
  }

  /** Trimming a tab-indented trimmed line drops the tab. */
  lemma TrimTab(s: string)
    requires IsTrimmed(s)
    ensures Trim("\t" + s) == s
  {
    var line := "\t" + s;
    assert line[1..1 + |s|] == s;
    assert line[..1] == "\t";
    assert line[1 + |s|..] == "";
    TrimUnique(line, s, 1);
  }

  /** A marker line as the tests indent it. */
  function TabMarkerLine(k: string): string {
    "\t" + BibItem + k + "}"
  }

  /** A tab-indented `\bibitem{k}` opens an item with key `k`. */
  lemma TabMarker(k: string)
    ensures var m := TabMarkerLine(k);
      IsMarker(m) && !KeyPanics(m) && KeyOf(m) == k
  {
    var m := TabMarkerLine(k);
    assert m == "\t" + BibItem + k + "}" + "";
    ExtractKeyOfMarker("\t", k, "");
    assert m[|m| - 1] == '}';
  }

  /** A tab-indented trimmed line followed by a blank line is a body of its own text. */
  lemma TabBodyBlank(s: string)
    requires IsTrimmed(s)
    ensures BodyOf(["\t" + s, ""]) == s
  {
    TrimTab(s);
    BlankAfter("\t" + s, s);
  }

  /** A blank line adds nothing to a body. */
  lemma BlankAfter(line: string, s: string)
    requires Trim(line) == s
    ensures BodyOf([line, ""]) == s
  {
    var e: string := "";
    BodyOfPair(line, e);
    TrimOfTrimmed(e);
    assert s + e == s;
  }

  lemma BodyOfPair(a: string, b: string)
    ensures BodyOf([a, b]) == Trim(a) + Trim(b)
  {
    BodyOfSingle(a);
    BodyOfSingle(b);
    BodyOfAppend([a], [b]);
    assert [a] + [b] == [a, b];
  }

  lemma BodyOfSingle(a: string)
    ensures BodyOf([a]) == Trim(a)
  {
    assert [a][1..] == [];
    assert Trim(a) + "" == Trim(a);
  }

  /** The same line alone. */
  lemma TabBodyLast(s: string)
    requires IsTrimmed(s)
    ensures BodyOf(["\t" + s]) == s
  {
    TrimTab(s);
    BodyOfSingle("\t" + s);
  }

  /** A tab-indented `\bibitem{k}`, then the tab-indented trimmed line `s` and a blank
      line: a well-formed item whose record is `k` with body `s`. */
  lemma TabItemBlank(k: string, s: string)
    requires IsTrimmed(s) && Plain("\t" + s)
    ensures WellFormed(Item(TabMarkerLine(k), ["\t" + s, ""]))
    ensures KeyOf(TabMarkerLine(k)) == k && BodyOf(["\t" + s, ""]) == s
  {
    TabMarker(k);
    TabBodyBlank(s);
    NoBackslashPlain("");
    PlainPair("\t" + s, "");
  }

  lemma PlainPair(a: string, b: string)
    requires Plain(a) && Plain(b)
    ensures AllPlain([a, b])
  {
    forall i | 0 <= i < 2 ensures Plain([a, b][i]) {
      if i == 1 {
        assert [a, b][i] == b;
      }
    }
  }

  /** The same item without the blank line. */
  lemma TabItemLast(k: string, s: string)
    requires IsTrimmed(s) && Plain("\t" + s)
    ensures WellFormed(Item(TabMarkerLine(k), ["\t" + s]))
    ensures KeyOf(TabMarkerLine(k)) == k && BodyOf(["\t" + s]) == s
  {
    TabMarker(k);
    TabBodyLast(s);
    SinglePlain("\t" + s);
  }

  lemma SinglePlain(a: string)
    requires Plain(a)
    ensures AllPlain([a])
  {
    assert [a][0] == a;
  }

  /** The opening line of a bibliography is not a marker. */
  lemma BeginNoMarker()
    ensures NoMarker(["", Begin])
  {
    var b := Begin;
    assert b[2] != BibItem[2];
    OnlyBackslashAt(b, 0, BibItem);
    NoBackslashPlain("");
  }

  /** The closing line of a bibliography ends the list. */
  lemma EndCloses()
    ensures Closing([End])
  {
    var e := End;
    assert e[..|EndBibliography|] == EndBibliography;
    ContainsAt(e, EndBibliography, 0);
    assert e[1] != BibItem[1];
    OnlyBackslashAt(e, 0, BibItem);
  }

  const Wcf: string := "Ross Anderson, Why Cryptosystems Fail"
  const Wcdf: string := "Ross Anderson, Why Cryptosystems Don't Fail"
  const Begin: string := "\\begin{thebibliography}"
  const End: string := "\\end{thebibliography}"

  /** The lines `correctBibliography` reads as: a blank line, the opening line, two
      tab-indented items separated by a blank line, and the closing line. */
  const CorrectBibliography: seq<string> :=
    ["", Begin, TabMarkerLine("wcf"), "\t" + Wcf, "", TabMarkerLine("wcdf"), "\t" + Wcdf, End]

  /** The two body lines of the tests are trimmed once their tab goes, and plain. */
  lemma TestLines()
    ensures IsTrimmed(Wcf) && Plain("\t" + Wcf) && IsTrimmed(Wcdf) && Plain("\t" + Wcdf)
  {
    NoBackslashPlain("\t" + Wcf);
    NoBackslashPlain("\t" + Wcdf);
  }

  /** `TestDividerOk`: the two items of `correctBibliography` come out as two records
      with their keys and bodies, and the list is closed. */
  lemma DividerOk(lines: seq<string>)
    requires lines == CorrectBibliography
    ensures SeekSafe(lines)
    ensures Divide(Input(lines, Eof)) == Division([RawRecord("wcf", Wcf), RawRecord("wcdf", Wcdf)], Closed)
  {
    TestLines();
    BeginNoMarker();
    EndCloses();
    TabBibliography("wcf", Wcf, "wcdf", Wcdf, [End], Eof);
    Snoc7("", Begin, TabMarkerLine("wcf"), "\t" + Wcf, "", TabMarkerLine("wcdf"), "\t" + Wcdf, End);
  }

  lemma Snoc7<T>(a: T, b: T, c: T, d: T, e: T, f: T, g: T, h: T)
    ensures [a, b, c, d, e, f, g] + [h] == [a, b, c, d, e, f, g, h]
  {
  }

  /** The lines `wrongBibliography` reads as: the items have empty keys and no line
      closes the list. */
  const WrongBibliography: seq<string> :=
    ["", Begin, TabMarkerLine(""), "\t" + Wcf, "", TabMarkerLine(""), "\t" + Wcdf]

  /** `TestDividerNoEnd`: without a closing line the division holds both records and
      fails with `ErrBibUnclosed` (Go sends the error before the last record). */
  lemma DividerNoEnd(lines: seq<string>)
    requires lines == WrongBibliography
    ensures SeekSafe(lines)
    ensures Divide(Input(lines, Eof)) == Division([RawRecord("", Wcf), RawRecord("", Wcdf)], Failed(BibUnclosed))
  {
    TestLines();
    BeginNoMarker();
    TabBibliography("", Wcf, "", Wcdf, [], Eof);
    assert lines + [] == lines;
  }

  /** A bibliography of two tab-indented items, the first followed by a blank line,
      after an opening line. */
  lemma TabBibliography(k1: string, s1: string, k2: string, s2: string, tail: seq<string>,
                        t: Terminal)
    requires IsTrimmed(s1) && Plain("\t" + s1) && IsTrimmed(s2) && Plain("\t" + s2)
    requires NoMarker(["", Begin]) && Closing(tail)
    ensures var lines := ["", Begin, TabMarkerLine(k1), "\t" + s1, "", TabMarkerLine(k2), "\t" + s2] + tail;
      && SeekSafe(lines)
      && Divide(Input(lines, t)) == Division([RawRecord(k1, s1), RawRecord(k2, s2)], Finish(tail, t))
  {
    var i1, i2 := Item(TabMarkerLine(k1), ["\t" + s1, ""]), Item(TabMarkerLine(k2), ["\t" + s2]);
    TabItemBlank(k1, s1);
    TabItemLast(k2, s2);
    TwoItems(["", Begin], i1, i2, tail, t);
    Regroup7("", Begin, TabMarkerLine(k1), "\t" + s1, "", TabMarkerLine(k2), "\t" + s2, tail);
  }

  lemma Regroup7<T>(a: T, b: T, c: T, d: T, e: T, f: T, g: T, tail: seq<T>)
    ensures [a, b, c, d, e, f, g] + tail == [a, b] + ([c] + [d, e] + [f] + [g]) + tail
  {
  }

  /** Two items between skipped lines and a tail. */
  lemma TwoItems(pre: seq<string>, i1: Item, i2: Item, tail: seq<string>, t: Terminal)
    requires NoMarker(pre) && WellFormed(i1) && WellFormed(i2) && Closing(tail)
    ensures SeekSafe(pre + ([i1.marker] + i1.lines + [i2.marker] + i2.lines) + tail)
    ensures Divide(Input(pre + ([i1.marker] + i1.lines + [i2.marker] + i2.lines) + tail, t))
      == Division([RawRecord(KeyOf(i1.marker), BodyOf(i1.lines)),
                   RawRecord(KeyOf(i2.marker), BodyOf(i2.lines))], Finish(tail, t))
  {
    var items := [i1, i2];
    assert items[1..] == [i2] && items[1..][1..] == [];
    assert Layout(items[1..]) == [i2.marker] + i2.lines + [];
    assert Layout(items) == [i1.marker] + i1.lines + [i2.marker] + i2.lines;
    DivideLayout(pre, items, tail, t);
  }

  /** A field of more than six characters with no comma, no backslash and no margin
      reads back as itself: it is too long to be a year. */
  lemma LongField(s: string)
    requires ',' !in s && '\\' !in s && IsTrimmed(s) && |s| > 6
    ensures PlainField(s)
  {
    assert |" " + s| > 6;
  }

  lemma FieldRoss()
    ensures PlainField("Ross Anderson")
  {
    LongField("Ross Anderson");
  }

  lemma FieldFail()
    ensures PlainField("Why Cryptosystems Fail")
  {
    LongField("Why Cryptosystems Fail");
  }

  lemma FieldDontFail()
    ensures PlainField("Why Cryptosystems Don't Fail")
  {
    LongField("Why Cryptosystems Don't Fail");
  }

  lemma FieldAsking()
    ensures PlainField("Asking Alexandria")
  {
    LongField("Asking Alexandria");
  }

  lemma FieldSomeone()
    ensures PlainField("Someone Somewhere")
  {
    LongField("Someone Somewhere");
  }

  lemma UrlWcf()
    ensures var u := "example.com/ra/wcf.pdf"; ',' !in u && '}' !in u && '\\' !in u
  {
  }

  /** A record of one author, a title, and possibly a year and a URL, under a key. */
  lemma ParseSingleAuthor(key: string, author: string, title: string, year: int, url: string,
                          cfg: Config)
    requires key != "" && PlainField(author) && PlainField(title) && -999 <= year <= 9999
    requires ',' !in url && '}' !in url && '\\' !in url
    ensures Parse(RawRecord(key, TexBody([author], title, year, url)), cfg).basic
      == BasicEntry(key, [author], title, if year == 0 then cfg.defaultYear else year, url)
  {
    ParseRoundTrip(key, [author], title, year, url, cfg);
  }

  /** `TestParser`: the three records of `bib` parse to the authors, titles, years and
      URLs of `bibResult`; the record without a year takes the configured default. The
      fields are passed in, equal to the test's text. */
  lemma ParserWcf(author: string, title: string, url: string, cfg: Config)
    requires author == "Ross Anderson" && title == "Why Cryptosystems Fail"
    requires url == "example.com/ra/wcf.pdf"
    ensures Parse(RawRecord("wcf", TexBody([author], title, 1909, url)), cfg).basic
      == BasicEntry("wcf", [author], title, 1909, url)
  {
    FieldRoss();
    FieldFail();
    UrlWcf();
    ParseSingleAuthor("wcf", author, title, 1909, url, cfg);
  }

  lemma ParserWcdf(author: string, title: string, cfg: Config)
    requires author == "Ross Anderson" && title == "Why Cryptosystems Don't Fail"
    requires cfg.defaultYear == 1900
    ensures Parse(RawRecord("wcdf", TexBody([author], title, 0, "")), cfg).basic
      == BasicEntry("wcdf", [author], title, 1900, "")
  {
    FieldRoss();
    FieldDontFail();
    ParseSingleAuthor("wcdf", author, title, 0, "", cfg);
  }

  lemma ParserAass(author: string, title: string, cfg: Config)
    requires author == "Asking Alexandria" && title == "Someone Somewhere"
    ensures Parse(RawRecord("aass", TexBody([author], title, 2011, "")), cfg).basic
      == BasicEntry("aass", [author], title, 2011, "")
  {
    FieldAsking();
    FieldSomeone();
    ParseSingleAuthor("aass", author, title, 2011, "", cfg);
  }
}
