/** The entries of the legacy converter (`BasicBibtexEntry`, `URLBibtexEntry` and
    `OnlineEntry` in api.go) and their BibTeX text. Unlike the current converter's
    entries, these print an `@article`, label the authors as the title and the title as
    the authors, quote the URL without a field name and put the visit date after the
    closing brace; the model keeps all of that as written. */
module LegacyEntries {
  import opened Wrappers
  import opened Text
  import opened Decimal
  import opened Format
  import Entries

  datatype LegacyBasic = LegacyBasic(authors: seq<string>, title: string, year: int)

  datatype LegacyUrl = LegacyUrl(basic: LegacyBasic, url: string)

  /** `Visited` is a pointer in Go; `None` is the nil pointer. */
  datatype LegacyOnline = LegacyOnline(entry: LegacyUrl, visited: Option<Date>)

  /** `Key`: title, year and first author joined by dashes, the same key as the current
      converter's `Entries.GenKey`, here on the legacy entry type (`KeyAgrees`). Go
      indexes the first author without a check, so an entry without authors has no key. */
  function Key(b: LegacyBasic): (key: string)
    requires |b.authors| >= 1
    ensures |key| == |b.title| + |IntToDecimal(b.year)| + |b.authors[0]| + 2
    ensures key[..|b.title|] == b.title && key[|b.title|] == '-'
    ensures key[|b.title| + 1..|key| - |b.authors[0]| - 1] == IntToDecimal(b.year)
    ensures key[|key| - |b.authors[0]| - 1] == '-' && key[|key| - |b.authors[0]|..] == b.authors[0]
  {
    DashKey(b.title, b.year, b.authors[0])
  }

  /** The lines of a basic entry before its closing brace. The `title` line carries the
      joined authors and the `authors` line the title; the title line ends in a blank
      after its comma and the year line has no comma. */
  function LegacyLines(b: LegacyBasic): (lines: seq<string>)
    requires |b.authors| >= 1
    ensures |lines| == 4
  {
    ["@article{" + Key(b),
     QuotedLine("\ttitle = ", Entries.AuthorsToString(b.authors), ", "),
     QuotedLine("\tauthors = ", b.title, ","),
     QuotedLine("\tyear = ", IntToDecimal(b.year), "")]
  }

  /** A line with a value in double quotes between a head and a tail. */
  function QuotedLine(head: string, value: string, tail: string): string {
    head + "\"" + value + "\"" + tail
  }

  /** `BasicBibtexEntry.unclosedToString`: its lines, each ended by a newline. */
  function BasicUnclosed(b: LegacyBasic): string
    requires |b.authors| >= 1
  {
    Terminated(LegacyLines(b))
  }

  /** `BasicBibtexEntry.String`. */
  function BasicString(b: LegacyBasic): string
    requires |b.authors| >= 1
  {
    BasicUnclosed(b) + "}"
  }

  /** `URLBibtexEntry.unclosedToString`: the basic text, then the quoted URL on a line of
      its own and the closing brace, so that, despite the name, it is already closed. */
  function UrlUnclosed(u: LegacyUrl): string
    requires |u.basic.authors| >= 1
  {
    BasicUnclosed(u.basic) + "\"" + u.url + "\"\n}"
  }

  /** `URLBibtexEntry.String`: the same text as its unclosed form. */
  function UrlString(u: LegacyUrl): string
    requires |u.basic.authors| >= 1
  {
    UrlUnclosed(u)
  }

  /** `OnlineEntry.String`: the URL entry's text with the visit date right after its
      closing brace. Go dereferences `Visited` without a check. */
  function OnlineString(o: LegacyOnline): string
    requires |o.entry.basic.authors| >= 1 && o.visited.Some?
  {
    UrlUnclosed(o.entry) + FormatDate(o.visited.value)
  }

  // ---------------------------------------------------------------- layout

  /** No newline in any of the values a legacy entry prints. */
  predicate SingleLine(b: LegacyBasic) {
    && '\n' !in b.title
    && forall i | 0 <= i < |b.authors| :: '\n' !in b.authors[i]
  }

  lemma LegacyLinesSingle(b: LegacyBasic)
    requires |b.authors| >= 1 && SingleLine(b)
    ensures forall i | 0 <= i < |LegacyLines(b)| :: '\n' !in LegacyLines(b)[i]
  {
    JoinAvoids(b.authors, " and ", '\n');
    Entries.NoNewlineInDecimal(b.year);
    assert '\n' !in "@article{" + Key(b);
    QuotedLineAvoids("\ttitle = ", Entries.AuthorsToString(b.authors), ", ", '\n');
    QuotedLineAvoids("\tauthors = ", b.title, ",", '\n');
    QuotedLineAvoids("\tyear = ", IntToDecimal(b.year), "", '\n');
  }

  lemma QuotedLineAvoids(head: string, value: string, tail: string, c: char)
    requires c !in head && c !in value && c !in tail && c != '"'
    ensures c !in QuotedLine(head, value, tail)
  {
  }

  /** Read line by line, a basic entry is its header, title, authors and year lines, then
      the closing brace. */
  lemma BasicStringSplit(b: LegacyBasic)
    requires |b.authors| >= 1 && SingleLine(b)
    ensures Split(BasicString(b), '\n') == LegacyLines(b) + ["}"]
  {
    LegacyLinesSingle(b);
    SplitTerminated(LegacyLines(b), "}");
  }

  lemma UrlRegroup(t: string, url: string, last: string)
    ensures t + "\"" + url + "\"\n}" + last == t + ("\"" + url + "\"" + "\n" + "") + ("}" + last)
  {
  }

  /** Newline-terminated lines, a quoted URL line and a closing brace with a last piece
      glued to it split back into those lines. */
  lemma LinesThenUrl(lines: seq<string>, url: string, last: string)
    requires forall i | 0 <= i < |lines| :: '\n' !in lines[i]
    requires '\n' !in url && '\n' !in last
    ensures Split(Terminated(lines) + "\"" + url + "\"\n}" + last, '\n')
      == lines + ["\"" + url + "\"", "}" + last]
  {
    var q := "\"" + url + "\"";
    Entries.TerminatedAppend(lines, [q]);
    assert Terminated([q]) == q + "\n" + "";
    UrlRegroup(Terminated(lines), url, last);
    AvoidsConcat(lines, [q], '\n');
    SplitTerminated(lines + [q], "}" + last);
    assert lines + [q] + ["}" + last] == lines + [q, "}" + last];
  }

  /** The URL entry's text followed by a last, newline-free piece: the basic entry's four
      lines, the quoted URL, and the closing brace with that piece glued to it. */
  lemma UrlUnclosedSplit(u: LegacyUrl, last: string)
    requires |u.basic.authors| >= 1 && SingleLine(u.basic) && '\n' !in u.url && '\n' !in last
    ensures Split(UrlUnclosed(u) + last, '\n') == LegacyLines(u.basic) + ["\"" + u.url + "\"", "}" + last]
  {
    LegacyLinesSingle(u.basic);
    LinesThenUrl(LegacyLines(u.basic), u.url, last);
  }

  /** Read line by line, a URL entry is the basic entry's four lines, the quoted URL and
      the closing brace. */
  lemma UrlStringSplit(u: LegacyUrl)
    requires |u.basic.authors| >= 1 && SingleLine(u.basic) && '\n' !in u.url
    ensures Split(UrlString(u), '\n') == LegacyLines(u.basic) + ["\"" + u.url + "\"", "}"]
  {
    UrlUnclosedSplit(u, "");
    assert UrlUnclosed(u) + "" == UrlString(u);
    assert "}" + "" == "}";
  }

  /** Read line by line, an online entry is its URL entry's lines with the visit date
      glued to the closing brace on the last line. */
  lemma OnlineStringSplit(o: LegacyOnline)
    requires |o.entry.basic.authors| >= 1 && o.visited.Some?
    requires SingleLine(o.entry.basic) && '\n' !in o.entry.url
    ensures Split(OnlineString(o), '\n')
      == LegacyLines(o.entry.basic) + ["\"" + o.entry.url + "\"", "}" + FormatDate(o.visited.value)]
  {
    Entries.NoNewlineInDate(o.visited.value);
    UrlUnclosedSplit(o.entry, FormatDate(o.visited.value));
  }

  /** Each richer entry starts with the text of the one it extends, unchanged. */
  lemma LegacyExtends(o: LegacyOnline)
    requires |o.entry.basic.authors| >= 1 && o.visited.Some?
    ensures StartsWith(UrlString(o.entry), BasicUnclosed(o.entry.basic))
    ensures StartsWith(OnlineString(o), UrlString(o.entry))
    ensures |OnlineString(o)| > |UrlString(o.entry)|
  {
  }

  // ---------------------------------------------------------------- swapped labels

  /** The text between the first two double quotes of a line, when it has two. */
  function Quoted(line: string): string {
    var parts := Split(line, '"');
    if |parts| >= 3 then parts[1] else ""
  }

  /** A field line `<head>"<value>"<tail>` splits on the double quote into its three
      parts when none of them holds one. */
  lemma QuotedOf(head: string, value: string, tail: string)
    requires '"' !in head && '"' !in value && '"' !in tail
    ensures Split(head + "\"" + value + "\"" + tail, '"') == [head, value, tail]
    ensures Quoted(head + "\"" + value + "\"" + tail) == value
  {
    JoinThree(head, value, tail, '"');
    SplitJoin([head, value, tail], '"');
  }

  /** No author and the title holds a double quote. */
  predicate Unquoted(b: LegacyBasic) {
    && '"' !in b.title
    && forall i | 0 <= i < |b.authors| :: '"' !in b.authors[i]
  }

  /** The legacy `title` line quotes the joined authors and its `authors` line the
      title. */
  lemma LegacyQuoted(b: LegacyBasic)
    requires |b.authors| >= 1 && Unquoted(b)
    ensures Quoted(LegacyLines(b)[1]) == Entries.AuthorsToString(b.authors)
    ensures Quoted(LegacyLines(b)[2]) == b.title
  {
    var a := Entries.AuthorsToString(b.authors);
    JoinAvoids(b.authors, " and ", '"');
    assert LegacyLines(b)[1] == "\ttitle = " + "\"" + a + "\"" + ", ";
    QuotedOf("\ttitle = ", a, ", ");
    assert LegacyLines(b)[2] == "\tauthors = " + "\"" + b.title + "\"" + ",";
    QuotedOf("\tauthors = ", b.title, ",");
  }

  /** A field line of the current converter quotes its value. */
  lemma FieldQuoted(name: string, value: string)
    requires '"' !in name && '"' !in value
    ensures Quoted(Entries.Field(name, value)) == value
  {
    assert Entries.Field(name, value) == "\t" + name + " = " + "\"" + value + "\"" + ",";
    QuotedOf("\t" + name + " = ", value, ",");
  }

  /** The current converter's `author` line quotes the joined authors and its `title`
      line the title. */
  lemma CurrentQuoted(e: Entries.BasicEntry)
    requires '"' !in e.title && forall i | 0 <= i < |e.authors| :: '"' !in e.authors[i]
    ensures Quoted(Entries.BasicLines(e)[1]) == Entries.AuthorsToString(e.authors)
    ensures Quoted(Entries.BasicLines(e)[2]) == e.title
  {
    JoinAvoids(e.authors, " and ", '"');
    FieldQuoted("author", Entries.AuthorsToString(e.authors));
    FieldQuoted("title", e.title);
  }

  /** The legacy `title` line quotes what the current converter's `author` line quotes
      (the joined authors), and the legacy `authors` line quotes what its `title` line
      quotes (the title): the two labels are swapped. */
  lemma SwappedLabels(b: LegacyBasic, e: Entries.BasicEntry)
    requires |b.authors| >= 1 && Unquoted(b)
    requires e.authors == b.authors && e.title == b.title && e.year == b.year
    ensures Quoted(LegacyLines(b)[1]) == Quoted(Entries.BasicLines(e)[1]) == Entries.AuthorsToString(b.authors)
    ensures Quoted(LegacyLines(b)[2]) == Quoted(Entries.BasicLines(e)[2]) == b.title
  {
    LegacyQuoted(b);
    CurrentQuoted(e);
  }

  /** The legacy key is the current converter's synthesised key of the same data. */
  lemma KeyAgrees(b: LegacyBasic, e: Entries.BasicEntry)
    requires |b.authors| >= 1
    requires e.authors == b.authors && e.title == b.title && e.year == b.year
    ensures Key(b) == Entries.GenKey(e)
  {
  }

  /** A legacy key splits back on '-' into title, year and first author when neither of
      those holds a dash and the year is not negative. */
  lemma KeySplit(b: LegacyBasic)
    requires |b.authors| >= 1 && b.year >= 0
    requires '-' !in b.title && '-' !in b.authors[0]
    ensures Split(Key(b), '-') == [b.title, NatToDecimal(b.year), b.authors[0]]
  {
    DashKeySplit(b.title, b.year, b.authors[0]);
  }
}
