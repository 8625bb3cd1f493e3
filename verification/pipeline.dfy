/** The whole current converter with its goroutines taken out (`Convert`, `parser` and
    `writer` in pkg/gobib/api.go): the divider's records are parsed one by one, in order,
    and the writer emits each entry followed by a blank line. */
module Pipeline {
  import opened Wrappers
  import opened Text
  import opened Tex
  import opened Divider
  import opened Entries
  import opened Parser

  /** What the writer emits for a list of entries, one after another. */
  function Render(es: seq<AdvancedEntry>): string {
    if |es| == 0 then "" else Written(es[0]) + Render(es[1..])
  }

  /** The lines of a list of entries as the writer emits them. */
  function AllLines(es: seq<AdvancedEntry>): seq<string> {
    if |es| == 0 then [] else EntryLines(es[0]) + AllLines(es[1..])
  }

  /** The parser applied to each record, in order. */
  function ParseAll(records: seq<RawRecord>, cfg: Config): (es: seq<AdvancedEntry>)
    requires forall i | 0 <= i < |records| :: Parseable(records[i])
    ensures |es| == |records|
    ensures forall i | 0 <= i < |records| :: es[i] == Parse(records[i], cfg)
  {
    seq(|records|, i requires 0 <= i < |records| => Parse(records[i], cfg))
  }

  /** An input the converter can run on without a Go panic: every marker it reads has a
      well-placed closing brace, and every record it produces has a key or an author. */
  predicate Convertible(input: Input) {
    && SeekSafe(input.lines)
    && var records := Divide(input).records;
      forall i | 0 <= i < |records| :: Parseable(records[i])
  }

  /** The entries in the order they were written, the text written, and how the divider
      ended. */
  datatype Conversion = Conversion(entries: seq<AdvancedEntry>, output: string, outcome: Outcome)

  /** `Convert` with its stages run one after another; what it gives on a laid-out
      bibliography is stated by `ConvertLayout`. */
  function Convert(input: Input, cfg: Config): (c: Conversion)
    requires Convertible(input)
    ensures |c.entries| == |Divide(input).records|
    ensures forall i | 0 <= i < |c.entries| :: c.entries[i] == Parse(Divide(input).records[i], cfg)
    ensures c.output == Render(c.entries)
    ensures c.outcome == Divide(input).outcome
  {
    var d := Divide(input);
    var es := ParseAll(d.records, cfg);
    Conversion(es, Render(es), d.outcome)
  }

  // ---------------------------------------------------------------- output layout

  lemma {:induction false} RenderTerminated(es: seq<AdvancedEntry>)
    ensures Render(es) == Terminated(AllLines(es))
    decreases |es|
  {
    if |es| > 0 {
      RenderTerminated(es[1..]);
      WrittenTerminated(es[0]);
      TerminatedAppend(EntryLines(es[0]), AllLines(es[1..]));
    }
  }

  lemma {:induction false} AllLinesSingle(es: seq<AdvancedEntry>)
    requires forall i | 0 <= i < |es| :: SingleLine(es[i].basic)
    ensures forall i | 0 <= i < |AllLines(es)| :: '\n' !in AllLines(es)[i]
    decreases |es|
  {
    if |es| > 0 {
      var a, b := EntryLines(es[0]), AllLines(es[1..]);
      EntryLinesSingle(es[0]);
      AllLinesSingle(es[1..]);
      AvoidsConcat(a, b, '\n');
    }
  }

  /** Read line by line, the output is each entry's lines, closing brace and blank line,
      in order, and nothing after the last newline. */
  lemma RenderSplit(es: seq<AdvancedEntry>)
    requires forall i | 0 <= i < |es| :: SingleLine(es[i].basic)
    ensures Split(Render(es), '\n') == AllLines(es) + [""]
  {
    RenderTerminated(es);
    AllLinesSingle(es);
    assert Render(es) == Terminated(AllLines(es)) + "";
    SplitTerminated(AllLines(es), "");
  }

  /** Writing more entries appends their text. */
  lemma {:induction false} RenderAppend(a: seq<AdvancedEntry>, b: seq<AdvancedEntry>)
    ensures Render(a + b) == Render(a) + Render(b)
    decreases |a|
  {
    if |a| == 0 {
      assert a + b == b;
    } else {
      assert (a + b)[1..] == a[1..] + b;
      RenderAppend(a[1..], b);
    }
  }

  // ---------------------------------------------------------------- end to end

  /** A bibliography laid out as markers and plain lines converts to one entry per
      marker, in order, each parsed from that marker's key and body; it ends cleanly
      exactly when an end line follows the items. */
  lemma ConvertLayout(pre: seq<string>, items: seq<Item>, tail: seq<string>, t: Terminal,
                      cfg: Config)
    requires NoMarker(pre) && |items| >= 1 && AllWellFormed(items) && Closing(tail)
    requires forall i | 0 <= i < |items| :: Parseable(Expected(items)[i])
    ensures Convertible(Input(pre + Layout(items) + tail, t))
    ensures var c := Convert(Input(pre + Layout(items) + tail, t), cfg);
      && |c.entries| == |items|
      && (forall i | 0 <= i < |items| :: c.entries[i] == Parse(Expected(items)[i], cfg))
      && c.output == Render(c.entries)
      && (c.outcome == Closed <==> |tail| > 0)
  {
    DivideLayout(pre, items, tail, t);
  }
}
