/** The entries the current converter produces (`BasicOnlineBibtexEntry` and
    `AdvancedOnlineBibtexEntry` in pkg/gobib/api.go), their synthesised keys and their
    BibTeX `@online` text. */
module Entries {
  import opened Wrappers
  import opened Text
  import opened Decimal
  import opened Format

  datatype BasicEntry = BasicEntry(key: string, authors: seq<string>, title: string, year: int,
                                   url: string)

  /** A basic entry with the date the URL was visited, when there is one. */
  datatype AdvancedEntry = AdvancedEntry(basic: BasicEntry, visited: Option<Date>)

  /** `GenKey`: title, year and first author joined by dashes. Go indexes the first author
      without a check, so an entry without authors has no key. */
  function GenKey(e: BasicEntry): (key: string)
    requires |e.authors| >= 1
    ensures |key| == |e.title| + |IntToDecimal(e.year)| + |e.authors[0]| + 2
    ensures key[..|e.title|] == e.title && key[|e.title|] == '-'
    ensures key[|e.title| + 1..|key| - |e.authors[0]| - 1] == IntToDecimal(e.year)
    ensures key[|key| - |e.authors[0]| - 1] == '-' && key[|key| - |e.authors[0]|..] == e.authors[0]
  {
    DashKey(e.title, e.year, e.authors[0])
  }

  /** `NewBasicEntry`: the given key, or a synthesised one when it is empty. */
  function NewBasicEntry(key: string, authors: seq<string>, title: string, year: int,
                         url: string): (e: BasicEntry)
    requires key != "" || |authors| >= 1
    ensures e.authors == authors && e.title == title && e.year == year && e.url == url
    ensures key != "" ==> e.key == key
    ensures key == "" ==> e.key == GenKey(e)
  {
    var e := BasicEntry(key, authors, title, year, url);
    if key == "" then e.(key := GenKey(e)) else e
  }

  /** The authors joined with the BibTeX `and`. */
  function AuthorsToString(authors: seq<string>): (r: string)
    ensures |authors| == 0 ==> r == ""
    ensures |authors| == 1 ==> r == authors[0]
  {
    Join(authors, " and ")
  }

  /** Adding an author adds ` and ` and that author at the end. */
  lemma AuthorsToStringAppend(authors: seq<string>, a: string)
    requires |authors| >= 1
    ensures AuthorsToString(authors + [a]) == AuthorsToString(authors) + " and " + a
  {
    JoinAppend(authors, [a], " and ");
  }

  /** One `name = "value",` line of an entry, without its newline. */
  function Field(name: string, value: string): string {
    "\t" + name + " = \"" + value + "\","
  }

  /** `unclosedToString` of a basic entry: its lines, each ended by a newline. */
  function BasicUnclosed(e: BasicEntry): string {
    Terminated(BasicLines(e))
  }

  function BasicString(e: BasicEntry): string {
    BasicUnclosed(e) + "}"
  }

  /** `unclosedToString` of an advanced entry: the basic text and, when there is a visit
      date, a `urldate` line. */
  function AdvancedUnclosed(e: AdvancedEntry): string {
    BasicUnclosed(e.basic) + Terminated(VisitLines(e.visited))
  }

  function AdvancedString(e: AdvancedEntry): string {
    AdvancedUnclosed(e) + "}"
  }

  /** What the writer emits for an entry: its text and a blank line. */
  function Written(e: AdvancedEntry): string {
    AdvancedString(e) + "\n\n"
  }

  // ---------------------------------------------------------------- layout

  /** The lines of a basic entry before the closing brace: the header, then author, title
      and year, then the URL only when there is one. */
  function BasicLines(e: BasicEntry): (lines: seq<string>)
    ensures |lines| == if e.url != "" then 5 else 4
  {
    ["@online{" + e.key + ",",
     Field("author", AuthorsToString(e.authors)),
     Field("title", e.title),
     Field("year", IntToDecimal(e.year))]
    + (if e.url != "" then [Field("url", e.url)] else [])
  }

  /** The `urldate` line, present only when there is a visit date. */
  function VisitLines(visited: Option<Date>): (lines: seq<string>)
    ensures |lines| == if visited.Some? then 1 else 0
  {
    if visited.Some? then [Field("urldate", FormatDate(visited.value))] else []
  }

  function AdvancedLines(e: AdvancedEntry): seq<string> {
    BasicLines(e.basic) + VisitLines(e.visited)
  }

  /** No newline in any of the values an entry prints. */
  predicate SingleLine(e: BasicEntry) {
    && '\n' !in e.key && '\n' !in e.title && '\n' !in e.url
    && forall i | 0 <= i < |e.authors| :: '\n' !in e.authors[i]
  }

  lemma FieldLine(name: string, value: string)
    requires '\n' !in name && '\n' !in value
    ensures '\n' !in Field(name, value)
  {
  }

  lemma TerminatedCons(line: string, rest: seq<string>)
    ensures Terminated([line] + rest) == line + "\n" + Terminated(rest)
  {
    assert ([line] + rest)[1..] == rest;
  }

  lemma AdvancedUnclosedLines(e: AdvancedEntry)
    ensures AdvancedUnclosed(e) == Terminated(AdvancedLines(e))
  {
    TerminatedAppend(BasicLines(e.basic), VisitLines(e.visited));
  }

  lemma {:induction false} TerminatedAppend(a: seq<string>, b: seq<string>)
    ensures Terminated(a + b) == Terminated(a) + Terminated(b)
    decreases |a|
  {
    if |a| == 0 {
      assert a + b == b;
    } else {
      assert (a + b)[1..] == a[1..] + b;
      TerminatedAppend(a[1..], b);
    }
  }

  lemma NoNewlineInDecimal(i: int)
    ensures '\n' !in IntToDecimal(i)
  {
    var s := IntToDecimal(i);
    forall k | 0 <= k < |s| ensures s[k] != '\n' {
      if k > 0 || i >= 0 {
        assert s[k] in NatToDecimal(if i < 0 then -i else i);
      }
    }
  }

  lemma NoNewlineInDate(d: Date)
    ensures '\n' !in FormatDate(d)
  {
    NoNewlineInDecimal(d.year);
    NoNewlineInDecimal(d.month);
    NoNewlineInDecimal(d.day);
  }

  lemma BasicLinesSingle(e: BasicEntry)
    requires SingleLine(e)
    ensures forall i | 0 <= i < |BasicLines(e)| :: '\n' !in BasicLines(e)[i]
  {
    JoinAvoids(e.authors, " and ", '\n');
    NoNewlineInDecimal(e.year);
    FieldLine("author", AuthorsToString(e.authors));
    FieldLine("title", e.title);
    FieldLine("year", IntToDecimal(e.year));
    FieldLine("url", e.url);
  }

  /** Read line by line, a basic entry is its header, author, title, year and (only when
      there is a URL) url lines, then the closing brace. */
  lemma BasicStringSplit(e: BasicEntry)
    requires SingleLine(e)
    ensures Split(BasicString(e), '\n') == BasicLines(e) + ["}"]
  {
    BasicLinesSingle(e);
    SplitTerminated(BasicLines(e), "}");
  }

  lemma VisitLinesSingle(visited: Option<Date>)
    ensures forall i | 0 <= i < |VisitLines(visited)| :: '\n' !in VisitLines(visited)[i]
  {
    if visited.Some? {
      NoNewlineInDate(visited.value);
      FieldLine("urldate", FormatDate(visited.value));
    }
  }

  lemma AdvancedLinesSingle(e: AdvancedEntry)
    requires SingleLine(e.basic)
    ensures forall i | 0 <= i < |AdvancedLines(e)| :: '\n' !in AdvancedLines(e)[i]
  {
    BasicLinesSingle(e.basic);
    VisitLinesSingle(e.visited);
    AvoidsConcat(BasicLines(e.basic), VisitLines(e.visited), '\n');
  }

  /** Read line by line, an advanced entry is the basic entry's lines, then a `urldate`
      line exactly when there is a visit date, then the closing brace. */
  lemma AdvancedStringSplit(e: AdvancedEntry)
    requires SingleLine(e.basic)
    ensures Split(AdvancedString(e), '\n') == AdvancedLines(e) + ["}"]
  {
    AdvancedUnclosedLines(e);
    AdvancedLinesSingle(e);
    SplitTerminated(AdvancedLines(e), "}");
  }

  /** Without a visit date an advanced entry prints exactly as its basic entry; with one,
      the basic text comes first, unchanged. */
  lemma AdvancedExtendsBasic(e: AdvancedEntry)
    ensures e.visited.None? ==> AdvancedString(e) == BasicString(e.basic)
    ensures StartsWith(AdvancedUnclosed(e), BasicUnclosed(e.basic))
  {
    if e.visited.None? {
      assert AdvancedUnclosed(e) == BasicUnclosed(e.basic);
    }
  }

  /** The lines the writer emits for an entry: the entry's own lines, the closing brace
      and an empty line. */
  function EntryLines(e: AdvancedEntry): (lines: seq<string>)
    ensures |lines| == |AdvancedLines(e)| + 2
  {
    AdvancedLines(e) + ["}", ""]
  }

  /** What the writer emits is the entry's lines, each followed by a newline. */
  lemma WrittenTerminated(e: AdvancedEntry)
    ensures Written(e) == Terminated(EntryLines(e))
  {
    var body := AdvancedLines(e);
    AdvancedUnclosedLines(e);
    TerminatedAppend(body, ["}", ""]);
    TerminatedCons("}", [""]);
    TerminatedCons("", []);
    assert Terminated(["}", ""]) == "}\n\n";
    ConcatAssoc(Terminated(body), "}", "\n\n");
  }

  /** No line the writer emits for an entry with single-line values holds a newline. */
  lemma EntryLinesSingle(e: AdvancedEntry)
    requires SingleLine(e.basic)
    ensures forall i | 0 <= i < |EntryLines(e)| :: '\n' !in EntryLines(e)[i]
  {
    AdvancedLinesSingle(e);
  }

  /** What the writer emits ends with the closing brace and a blank line. */
  lemma WrittenSplit(e: AdvancedEntry)
    requires SingleLine(e.basic)
    ensures Split(Written(e), '\n') == AdvancedLines(e) + ["}", "", ""]
  {
    var lines := EntryLines(e);
    WrittenTerminated(e);
    EntryLinesSingle(e);
    assert Written(e) == Terminated(lines) + "";
    SplitTerminated(lines, "");
    assert lines + [""] == AdvancedLines(e) + ["}", "", ""];
  }

  /** A synthesised key reads back, split on '-', as title, year and first author when
      none of those holds a dash. */
  lemma GenKeySplit(e: BasicEntry)
    requires |e.authors| >= 1 && e.year >= 0
    requires '-' !in e.title && '-' !in e.authors[0]
    ensures Split(GenKey(e), '-') == [e.title, NatToDecimal(e.year), e.authors[0]]
  {
    DashKeySplit(e.title, e.year, e.authors[0]);
  }
}
