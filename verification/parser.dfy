/** The second stage of the converter (`parser` in pkg/gobib/api.go): a raw record's body
    is split on commas, the tokens are assigned to authors, title and year by their count
    and by whether a URL and a year were found, then defaults, trimming and key synthesis
    turn the record into an entry. */
module Parser {
  import opened Wrappers
  import opened Text
  import opened Decimal
  import opened Tex
  import opened Divider
  import opened Format
  import opened Entries

  /** The parts of Go's `Config` the parser reads. */
  datatype Config = Config(defaultYear: int, defaultVisited: Option<Date>)

  /** What the positional rules read from the tokens, before trimming and defaults; a year
      of 0 means none was found. */
  datatype Assignment = Assignment(authors: seq<string>, title: string, year: int)

  /** The year the tokens end with: the last token's, or else the one before it. */
  function TrailingYear(tokens: seq<string>): int
    requires |tokens| >= 2
  {
    var last := ExtractYear(tokens[|tokens| - 1]);
    if last != 0 then last else ExtractYear(tokens[|tokens| - 2])
  }

  /** The `switch tokenLen` of the parser. With four tokens or more the title is the last
      token that is not a URL or a year, and every token before it is an author. */
  function Disambiguate(tokens: seq<string>, hasUrl: bool): (a: Assignment)
    requires |tokens| >= 1
    ensures |tokens| == 1 ==> a == Assignment([], tokens[0], 0)
    ensures |tokens| == 2 ==> a == Assignment([tokens[0]], if hasUrl then "" else tokens[1], 0)
    ensures |tokens| == 3 && !hasUrl && ExtractYear(tokens[2]) == 0 ==>
      a == Assignment(tokens[..2], tokens[2], 0)
    ensures |tokens| == 3 && (hasUrl || ExtractYear(tokens[2]) != 0) ==>
      a == Assignment([tokens[0]], tokens[1], ExtractYear(tokens[2]))
    ensures |tokens| >= 4 ==>
      && a.year == TrailingYear(tokens)
      && 1 <= |a.authors| < |tokens|
      && a.authors == tokens[..|a.authors|]
      && a.title == tokens[|a.authors|]
      && |tokens| - |a.authors| - 1 == (if hasUrl then 1 else 0) + (if a.year != 0 then 1 else 0)
  {
    var n := |tokens|;
    if n == 1 then Assignment([], tokens[0], 0)
    else if n == 2 then Assignment(tokens[0..1], if hasUrl then "" else tokens[1], 0)
    else if n == 3 then
      var year := ExtractYear(tokens[n - 1]);
      if !hasUrl && year == 0 then Assignment(tokens[0..1] + [tokens[1]], tokens[2], 0)
      else Assignment(tokens[0..1], tokens[1], year)
    else
      var lastAuthor := n - 2 - (if hasUrl then 1 else 0);
      var year := TrailingYear(tokens);
      var lastAuthor' := if year != 0 then lastAuthor - 1 else lastAuthor;
      Assignment(tokens[..lastAuthor' + 1], tokens[lastAuthor' + 1], year)
  }

  function TrimAll(xs: seq<string>): (r: seq<string>)
    ensures |r| == |xs|
    ensures forall i | 0 <= i < |xs| :: r[i] == Trim(xs[i])
  {
    seq(|xs|, i requires 0 <= i < |xs| => Trim(xs[i]))
  }

  /** A record the parser can turn into an entry: Go's `GenKey` indexes the first author,
      so a record without a key needs a comma in its body to have one. */
  predicate Parseable(rec: RawRecord) {
    rec.key != "" || ',' in rec.body
  }

  /** The parser's work on one record. */
  function Parse(rec: RawRecord, cfg: Config): (e: AdvancedEntry)
    requires Parseable(rec)
    ensures var a := Disambiguate(Split(rec.body, ','), ExtractURL(rec.body) != "");
      && e.basic.authors == TrimAll(a.authors)
      && e.basic.title == Trim(a.title)
      && e.basic.year == (if a.year == 0 then cfg.defaultYear else a.year)
    ensures e.basic.url == ExtractURL(rec.body)
    ensures e.visited == cfg.defaultVisited
    ensures rec.key != "" ==> e.basic.key == rec.key
    ensures rec.key == "" ==> |e.basic.authors| >= 1 && e.basic.key == GenKey(e.basic)
    ensures IsTrimmed(e.basic.title)
    ensures forall i | 0 <= i < |e.basic.authors| :: IsTrimmed(e.basic.authors[i])
  {
    var tokens := Split(rec.body, ',');
    var url := ExtractURL(rec.body);
    var a := Disambiguate(tokens, url != "");
    var year := if a.year == 0 then cfg.defaultYear else a.year;
    SplitSeveral(rec.body, ',');
    var basic := BasicEntry("", TrimAll(a.authors), Trim(a.title), year, url);
    var key := if rec.key != "" then rec.key else GenKey(basic);
    AdvancedEntry(basic.(key := key), cfg.defaultVisited)
  }

  // ---------------------------------------------------------------- round trip

  /** A field that reads back as itself, at the start of a body or after a comma and a
      space: no comma (which would split it), no backslash (which could start a `\url{`),
      no surrounding white space, and not read as a year either way. */
  predicate PlainField(s: string) {
    && ',' !in s && '\\' !in s && IsTrimmed(s)
    && ExtractYear(s) == 0 && ExtractYear(" " + s) == 0
  }

  function YearTokens(year: int): seq<string> {
    if year != 0 then [IntToDecimal(year)] else []
  }

  function UrlTokens(url: string): seq<string> {
    if url != "" then [UrlToken + url + "}"] else []
  }

  /** The fields of a body written the usual way: authors, title, then the year and the
      `\url{...}` when there are ones. */
  function TexFields(authors: seq<string>, title: string, year: int, url: string): seq<string> {
    authors + [title] + YearTokens(year) + UrlTokens(url)
  }

  /** The fields separated by a comma and a space, as a bibliography is written. */
  function TexBody(authors: seq<string>, title: string, year: int, url: string): string {
    Join(TexFields(authors, title, year, url), ", ")
  }

  /** Each text with a space in front. */
  function Padded(xs: seq<string>): (r: seq<string>)
    ensures |r| == |xs| && forall i | 0 <= i < |xs| :: r[i] == " " + xs[i]
  {
    seq(|xs|, i requires 0 <= i < |xs| => " " + xs[i])
  }

  /** What splitting on commas leaves of fields joined by a comma and a space. */
  function Tokens(fields: seq<string>): seq<string>
    requires |fields| >= 1
  {
    [fields[0]] + Padded(fields[1..])
  }

  lemma Regroup(a: string, j: string)
    ensures a + "," + (" " + j) == a + ", " + j
  {
    assert ", " == "," + " ";
  }

  lemma {:induction false} JoinPaddedAll(q: seq<string>)
    requires |q| >= 1
    ensures Join(Padded(q), ",") == " " + Join(q, ", ")
    decreases |q|
  {
    if |q| > 1 {
      var j := Join(q[1..], ", ");
      JoinPaddedAll(q[1..]);
      assert Padded(q)[1..] == Padded(q[1..]);
      assert Join(Padded(q), ",") == " " + q[0] + "," + (" " + j);
      Regroup(" " + q[0], j);
      ConcatAssoc(" ", q[0], ", " + j);
      assert " " + q[0] + ", " + j == " " + (q[0] + ", " + j);
    }
  }

  /** Joining with ", " is joining the padded fields with ",". */
  lemma JoinPadded(fields: seq<string>)
    requires |fields| >= 1
    ensures Join(fields, ", ") == Join(Tokens(fields), ",")
  {
    if |fields| > 1 {
      var j := Join(fields[1..], ", ");
      JoinPaddedAll(fields[1..]);
      assert Tokens(fields)[1..] == Padded(fields[1..]);
      assert Join(Tokens(fields), ",") == fields[0] + "," + (" " + j);
      Regroup(fields[0], j);
    }
  }

  /** Tokens made of authors, a title and a trailing year and URL are assigned back to
      those authors, that title and that year. */
  lemma DisambiguateLayout(authors: seq<string>, title: string, year: int, yt: seq<string>,
                           ut: seq<string>)
    requires |authors| >= 1
    requires ExtractYear(authors[|authors| - 1]) == 0 && ExtractYear(title) == 0
    requires |yt| <= 1 && (|yt| == 0 <==> year == 0)
    requires |yt| == 1 ==> ExtractYear(yt[0]) == year
    requires |ut| <= 1 && (|ut| == 1 ==> ExtractYear(ut[0]) == 0)
    ensures Disambiguate(authors + [title] + yt + ut, |ut| == 1) == Assignment(authors, title, year)
  {
    if |authors| + 1 + |yt| + |ut| >= 4 {
      DisambiguateMany(authors, title, year, yt, ut);
    } else {
      DisambiguateFew(authors, title, year, yt, ut);
    }
  }

  lemma DisambiguateMany(authors: seq<string>, title: string, year: int, yt: seq<string>,
                         ut: seq<string>)
    requires |authors| >= 1 && |authors| + 1 + |yt| + |ut| >= 4
    requires ExtractYear(authors[|authors| - 1]) == 0 && ExtractYear(title) == 0
    requires |yt| <= 1 && (|yt| == 0 <==> year == 0)
    requires |yt| == 1 ==> ExtractYear(yt[0]) == year
    requires |ut| <= 1 && (|ut| == 1 ==> ExtractYear(ut[0]) == 0)
    ensures Disambiguate(authors + [title] + yt + ut, |ut| == 1) == Assignment(authors, title, year)
  {
    var tokens := authors + [title] + yt + ut;
    var k := |authors|;
    TrailingYearLayout(authors, title, year, yt, ut);
    var a := Disambiguate(tokens, |ut| == 1);
    assert |a.authors| == k;
    assert tokens[..k] == authors;
    assert tokens[k] == title;
  }

  lemma DisambiguateFew(authors: seq<string>, title: string, year: int, yt: seq<string>,
                        ut: seq<string>)
    requires |authors| >= 1 && |authors| + 1 + |yt| + |ut| <= 3
    requires ExtractYear(authors[|authors| - 1]) == 0 && ExtractYear(title) == 0
    requires |yt| <= 1 && (|yt| == 0 <==> year == 0)
    requires |yt| == 1 ==> ExtractYear(yt[0]) == year
    requires |ut| <= 1 && (|ut| == 1 ==> ExtractYear(ut[0]) == 0)
    ensures Disambiguate(authors + [title] + yt + ut, |ut| == 1) == Assignment(authors, title, year)
  {
    var tokens := authors + [title] + yt + ut;
    var k := |authors|;
    assert tokens[k] == title;
    if |yt| == 1 {
      assert tokens[k + 1] == yt[0];
    }
    if |ut| == 1 {
      assert tokens[|tokens| - 1] == ut[0];
    }
    if k == 2 {
      assert tokens[..2] == authors;
    } else {
      assert tokens[0..1] == authors;
    }
  }

  /** The year at the end of such tokens is the one written there. */
  lemma TrailingYearLayout(authors: seq<string>, title: string, year: int, yt: seq<string>,
                           ut: seq<string>)
    requires |authors| >= 1
    requires ExtractYear(authors[|authors| - 1]) == 0 && ExtractYear(title) == 0
    requires |yt| <= 1 && (|yt| == 0 <==> year == 0)
    requires |yt| == 1 ==> ExtractYear(yt[0]) == year
    requires |ut| <= 1 && (|ut| == 1 ==> ExtractYear(ut[0]) == 0)
    ensures TrailingYear(authors + [title] + yt + ut) == year
  {
    LastTokens(authors, title, yt, ut);
  }

  /** The last two of the tokens: URL, year, title or last author, whichever are there. */
  lemma LastTokens(authors: seq<string>, title: string, yt: seq<string>, ut: seq<string>)
    requires |authors| >= 1 && |yt| <= 1 && |ut| <= 1
    ensures var tokens := authors + [title] + yt + ut;
      var n := |tokens|;
      && tokens[n - 1] == (if |ut| == 1 then ut[0] else if |yt| == 1 then yt[0] else title)
      && tokens[n - 2] == (if |ut| == 1 then (if |yt| == 1 then yt[0] else title)
                           else if |yt| == 1 then title else authors[|authors| - 1])
  {
  }

  lemma DecimalFacts(year: int)
    requires -999 <= year <= 9999
    ensures ',' !in IntToDecimal(year) && '\\' !in IntToDecimal(year)
    ensures year != 0 ==> ExtractYear(" " + IntToDecimal(year)) == year
  {
    var d := IntToDecimal(year);
    var n: nat := if year < 0 then -year else year;
    assert Pow10(3) == 1000 && Pow10(4) == 10000;
    DecimalWidth(n, if year < 0 then 3 else 4);
    forall i | 0 <= i < |d| ensures d[i] != ',' && d[i] != '\\' && d[i] as int < 0x80 {
      if i > 0 || year >= 0 {
        assert d[i] in NatToDecimal(n);
      }
    }
    Utf8LenAscii(Spaces(1) + d);
    if year != 0 {
      assert Spaces(1) + d + "" == " " + d;
      ExtractYearOfDecimal(1, year, "");
    }
  }

  lemma UrlTokenFacts(url: string)
    requires ',' !in url
    ensures ',' !in UrlToken + url + "}"
    ensures ExtractYear(" " + UrlToken + url + "}") == 0
  {
    var u := " " + UrlToken + url + "}";
    assert u[1] == '\\';
    assert LeadingBlanks(u[1..]) == 0;
    assert LeadingBlanks(u) == 1;
  }

  lemma Regroup4(a: string, b: string, c: string, d: string)
    ensures a + (b + c + d) == a + b + c + d + ""
  {
  }

  /** The URL of a body written the usual way is the one it was written with. */
  lemma ExtractURLOfBody(authors: seq<string>, title: string, year: int, url: string)
    requires forall i | 0 <= i < |authors| :: '\\' !in authors[i]
    requires '\\' !in title && '}' !in url && '\\' !in url
    requires -999 <= year <= 9999
    ensures ExtractURL(TexBody(authors, title, year, url)) == url
  {
    var front := authors + [title] + YearTokens(year);
    DecimalFacts(year);
    assert forall i | 0 <= i < |front| :: '\\' !in front[i];
    if url == "" {
      assert TexFields(authors, title, year, url) == front;
      JoinAvoids(front, ", ", '\\');
      NoUrlWithoutBackslash(TexBody(authors, title, year, url));
    } else {
      var last := UrlToken + url + "}";
      assert TexFields(authors, title, year, url) == front + [last];
      JoinAppend(front, [last], ", ");
      var prefix := Join(front, ", ") + ", ";
      Regroup4(prefix, UrlToken, url, "}");
      NoUrlWithoutBackslash(url + "}" + "");
      ExtractURLOf(prefix, url, "");
    }
  }

  /** A character that is in none of the given fields, in neither the year nor the URL
      markup, is in none of the fields of the body. */
  lemma TexFieldsAvoid(authors: seq<string>, title: string, year: int, url: string, c: char)
    requires forall i | 0 <= i < |authors| :: c !in authors[i]
    requires c !in title && c !in url && c !in IntToDecimal(year) && c !in UrlToken && c != '}'
    ensures var f := TexFields(authors, title, year, url);
      forall i | 0 <= i < |f| :: c !in f[i]
  {
    var f := TexFields(authors, title, year, url);
    var y, u := YearTokens(year), UrlTokens(url);
    forall i | 0 <= i < |f| ensures c !in f[i] {
      if i < |authors| {
        assert f[i] == authors[i];
      } else if i == |authors| {
        assert f[i] == title;
      } else if i < |authors| + 1 + |y| {
        assert f[i] == IntToDecimal(year);
      } else {
        assert f[i] == u[0];
      }
    }
  }

  /** A body written the usual way splits on commas into its fields, each after the first
      with the space that followed the comma. */
  lemma TexBodyTokens(authors: seq<string>, title: string, year: int, url: string)
    requires |authors| >= 1
    requires forall i | 0 <= i < |authors| :: ',' !in authors[i]
    requires ',' !in title && ',' !in url
    requires -999 <= year <= 9999
    ensures Split(TexBody(authors, title, year, url), ',') == Tokens(TexFields(authors, title, year, url))
  {
    DecimalFacts(year);
    TexFieldsAvoid(authors, title, year, url, ',');
    SplitTokens(TexFields(authors, title, year, url));
  }

  /** Fields without commas, joined by a comma and a space, split on commas into the
      fields with a space in front of all but the first. */
  lemma SplitTokens(fields: seq<string>)
    requires |fields| >= 1
    requires forall i | 0 <= i < |fields| :: ',' !in fields[i]
    ensures Split(Join(fields, ", "), ',') == Tokens(fields)
  {
    var rest := Padded(fields[1..]);
    var tokens := [fields[0]] + rest;
    forall i | 0 <= i < |tokens| ensures ',' !in tokens[i] {
      if i > 0 {
        assert tokens[i] == rest[i - 1] == " " + fields[1..][i - 1];
      }
    }
    JoinPadded(fields);
    SplitJoin(tokens, ',');
  }

  /** The tokens of a body written the usual way, in the shape the positional rules see. */
  lemma TokensLayout(authors: seq<string>, title: string, year: int, url: string)
    requires |authors| >= 1
    ensures Tokens(TexFields(authors, title, year, url))
      == Tokens(authors) + [" " + title] + Padded(YearTokens(year)) + Padded(UrlTokens(url))
  {
    var f := TexFields(authors, title, year, url);
    var rhs := Tokens(authors) + [" " + title] + Padded(YearTokens(year)) + Padded(UrlTokens(url));
    assert |Tokens(f)| == |rhs|;
    forall i | 0 <= i < |rhs| ensures Tokens(f)[i] == rhs[i] {
      if i == 0 {
      } else if i < |authors| {
        assert f[i] == authors[i];
      } else if i == |authors| {
        assert f[i] == title;
      } else if i < |authors| + 1 + |YearTokens(year)| {
        assert f[i] == YearTokens(year)[i - |authors| - 1];
      } else {
        assert f[i] == UrlTokens(url)[i - |authors| - 1 - |YearTokens(year)|];
      }
    }
  }

  /** The padded year and URL tokens, as the positional rules read them. */
  lemma Trailers(year: int, url: string)
    requires -999 <= year <= 9999 && ',' !in url
    ensures var yt, ut := Padded(YearTokens(year)), Padded(UrlTokens(url));
      && |yt| <= 1 && (|yt| == 0 <==> year == 0)
      && (|yt| == 1 ==> ExtractYear(yt[0]) == year)
      && |ut| <= 1 && (|ut| == 1 <==> url != "")
      && (|ut| == 1 ==> ExtractYear(ut[0]) == 0)
  {
    DecimalFacts(year);
    if url != "" {
      UrlTokenFacts(url);
    }
  }

  /** The positional rules assign a body written the usual way back to its authors,
      title and year, each still carrying the space that followed its comma. */
  lemma AssignTexBody(authors: seq<string>, title: string, year: int, url: string)
    requires |authors| >= 1 && forall i | 0 <= i < |authors| :: PlainField(authors[i])
    requires PlainField(title)
    requires -999 <= year <= 9999
    requires ',' !in url && '}' !in url && '\\' !in url
    ensures ',' in TexBody(authors, title, year, url)
    ensures var body := TexBody(authors, title, year, url);
      Disambiguate(Split(body, ','), ExtractURL(body) != "")
        == Assignment(Tokens(authors), " " + title, year)
  {
    var body := TexBody(authors, title, year, url);
    var yt, ut := Padded(YearTokens(year)), Padded(UrlTokens(url));
    TexBodyTokens(authors, title, year, url);
    TokensLayout(authors, title, year, url);
    SplitSeveral(body, ',');
    ExtractURLOfBody(authors, title, year, url);
    Trailers(year, url);
    var a := Tokens(authors);
    assert ExtractYear(a[|a| - 1]) == 0 by {
      if |a| > 1 {
        assert a[|a| - 1] == " " + authors[|authors| - 1];
      }
    }
    DisambiguateLayout(a, " " + title, year, yt, ut);
  }

  lemma TrimPadded(s: string)
    requires IsTrimmed(s)
    ensures Trim(" " + s) == s
  {
    assert (" " + s)[1..1 + |s|] == s;
    assert (" " + s)[..1] == " ";
    TrimUnique(" " + s, s, 1);
  }

  /** Trimming the tokens of plain fields gives the fields back. */
  lemma TrimTokens(authors: seq<string>, title: string)
    requires |authors| >= 1 && forall i | 0 <= i < |authors| :: IsTrimmed(authors[i])
    requires IsTrimmed(title)
    ensures TrimAll(Tokens(authors)) == authors
    ensures Trim(" " + title) == title
  {
    TrimPadded(title);
    TrimOfTrimmed(authors[0]);
    var t := Tokens(authors);
    forall i | 0 <= i < |authors| ensures TrimAll(t)[i] == authors[i] {
      if i > 0 {
        assert t[i] == " " + authors[i];
        TrimPadded(authors[i]);
      }
    }
  }

  /** Post-processing of an assignment whose fields trim to given ones. */
  lemma ParseOfAssignment(rec: RawRecord, cfg: Config, a: Assignment, authors: seq<string>,
                          title: string)
    requires Parseable(rec)
    requires Disambiguate(Split(rec.body, ','), ExtractURL(rec.body) != "") == a
    requires TrimAll(a.authors) == authors && Trim(a.title) == title && |authors| >= 1
    ensures var e := Parse(rec, cfg);
      && e.basic.authors == authors
      && e.basic.title == title
      && e.basic.year == (if a.year == 0 then cfg.defaultYear else a.year)
      && e.basic.key == (if rec.key != "" then rec.key else DashKey(title, e.basic.year, authors[0]))
  {
  }

  /** Parsing a body written the usual way gives back its authors, title, year and URL;
      a missing year becomes the default one, and a missing key is synthesised from the
      parsed fields. */
  lemma ParseRoundTrip(key: string, authors: seq<string>, title: string, year: int, url: string,
                       cfg: Config)
    requires |authors| >= 1 && forall i | 0 <= i < |authors| :: PlainField(authors[i])
    requires PlainField(title)
    requires -999 <= year <= 9999
    requires ',' !in url && '}' !in url && '\\' !in url
    ensures Parseable(RawRecord(key, TexBody(authors, title, year, url)))
    ensures var e := Parse(RawRecord(key, TexBody(authors, title, year, url)), cfg);
      && e.basic.authors == authors
      && e.basic.title == title
      && e.basic.year == (if year == 0 then cfg.defaultYear else year)
      && e.basic.url == url
      && e.visited == cfg.defaultVisited
      && e.basic.key == (if key != "" then key else DashKey(title, e.basic.year, authors[0]))
  {
    var rec := RawRecord(key, TexBody(authors, title, year, url));
    AssignTexBody(authors, title, year, url);
    ExtractURLOfBody(authors, title, year, url);
    TrimTokens(authors, title);
    ParseOfAssignment(rec, cfg, Assignment(Tokens(authors), " " + title, year), authors, title);
  }
}
