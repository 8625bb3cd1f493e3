/** The first stage of the converter (`divider` in pkg/gobib/api.go): it reads the
    bibliography line by line, skips everything up to the first `\bibitem{`, and from
    there cuts the text into raw records, one per `\bibitem{`, until
    `\end{thebibliography}`. The reader is modelled as the lines it delivers followed by
    the way reading stops: end of file or an I/O error. */
module Divider {
  import opened Wrappers
  import opened Text
  import opened Tex

  /** How reading stops once the lines run out. */
  datatype Terminal = Eof | ReadError(err: string)

  datatype Input = Input(lines: seq<string>, terminal: Terminal)

  /** Go's `dividerResult`: the key of a `\bibitem` and its body, not yet parsed. */
  datatype RawRecord = RawRecord(key: string, body: string)

  /** `ErrBibEmpty`, `ErrBibUnclosed`, or the reader's own error. */
  datatype DivideError = BibEmpty | BibUnclosed | Io(err: string)

  datatype Outcome = Closed | Failed(error: DivideError)

  /** Everything the divider sends on its output channel, and how it ends. */
  datatype Division = Division(records: seq<RawRecord>, outcome: Outcome)

  /** The error reported when reading stops before any `\bibitem{`. */
  function EmptyError(t: Terminal): DivideError {
    match t
    case Eof => BibEmpty
    case ReadError(e) => Io(e)
  }

  /** The error reported when reading stops inside the item list. */
  function UnclosedError(t: Terminal): DivideError {
    match t
    case Eof => BibUnclosed
    case ReadError(e) => Io(e)
  }

  predicate NoMarker(lines: seq<string>) {
    forall i | 0 <= i < |lines| :: !IsMarker(lines[i])
  }

  /** No marker line the divider actually reads makes `extractKey` panic. Lines after the
      end of the bibliography are never read and may be anything. */
  predicate SeekSafe(lines: seq<string>)
    decreases |lines|
  {
    |lines| > 0 ==>
      if IsMarker(lines[0]) then !KeyPanics(lines[0]) && CollectSafe(lines[1..])
      else SeekSafe(lines[1..])
  }

  predicate CollectSafe(lines: seq<string>)
    decreases |lines|
  {
    |lines| > 0 ==>
      if IsMarker(lines[0]) then !KeyPanics(lines[0]) && CollectSafe(lines[1..])
      else IsEnd(lines[0]) || CollectSafe(lines[1..])
  }

  /** The first loop: lines before the first `\bibitem{` are skipped. */
  function Seek(lines: seq<string>, t: Terminal): (d: Division)
    requires SeekSafe(lines)
    ensures d.records == [] <==> NoMarker(lines)
    ensures NoMarker(lines) ==> d.outcome == Failed(EmptyError(t))
    ensures !NoMarker(lines) ==> d.outcome == Closed || d.outcome == Failed(UnclosedError(t))
    decreases |lines|
  {
    if |lines| == 0 then Division([], Failed(EmptyError(t)))
    else if IsMarker(lines[0]) then Collect(KeyOf(lines[0]), "", lines[1..], t)
    else Seek(lines[1..], t)
  }

  /** The second loop, inside the item list: `key` and `body` are the item being read. A
      marker line closes it and opens the next one; an end line closes it and the list;
      any other line is trimmed and added to the body. When reading stops, the item read
      so far is still sent. */
  function Collect(key: string, body: string, lines: seq<string>, t: Terminal): (d: Division)
    requires CollectSafe(lines)
    ensures |d.records| >= 1 && d.records[0].key == key
    ensures d.outcome == Closed || d.outcome == Failed(UnclosedError(t))
    decreases |lines|
  {
    if |lines| == 0 then Division([RawRecord(key, body)], Failed(UnclosedError(t)))
    else if IsMarker(lines[0]) then
      var rest := Collect(KeyOf(lines[0]), "", lines[1..], t);
      Division([RawRecord(key, body)] + rest.records, rest.outcome)
    else if IsEnd(lines[0]) then Division([RawRecord(key, body)], Closed)
    else Collect(key, AppendLine(body, lines[0]), lines[1..], t)
  }

  function Divide(input: Input): Division
    requires SeekSafe(input.lines)
  {
    Seek(input.lines, input.terminal)
  }

  /** The divider as Go writes it: a first loop looking for the first `\bibitem{`, then a
      second one pushing each finished record, both driven by flags over a reader index. */
  method RunDivider(input: Input) returns (records: seq<RawRecord>, outcome: Outcome)
    requires SeekSafe(input.lines)
    ensures Division(records, outcome) == Divide(input)
  {
    var i, found, key := FindFirstItem(input.lines, input.terminal);
    if found {
      records, outcome := CollectItemsFrom(input.lines, i, key, input.terminal);
    } else {
      records, outcome := [], Failed(EmptyError(input.terminal));
    }
  }

  /** The first loop: `i` is just past the first marker line, whose key is `key`. */
  method FindFirstItem(lines: seq<string>, t: Terminal) returns (i: nat, found: bool, key: string)
    requires SeekSafe(lines)
    ensures i <= |lines|
    ensures found ==> CollectSafe(lines[i..]) && Collect(key, "", lines[i..], t) == Seek(lines, t)
    ensures !found ==> Seek(lines, t) == Division([], Failed(EmptyError(t)))
  {
    i := 0;
    key := "";
    assert lines[0..] == lines;
    while i < |lines| && !IsMarker(lines[i])
      invariant i <= |lines|
      invariant SeekSafe(lines[i..]) && Seek(lines[i..], t) == Seek(lines, t)
    {
      SeekStep(lines, i, t);
      i := i + 1;
    }
    found := i < |lines|;
    if found {
      SeekStep(lines, i, t);
      key := KeyOf(lines[i]);
      i := i + 1;
    } else {
      assert lines[i..] == [];
    }
  }

  /** The second loop, from line `i0` inside the item `key0`. */
  method CollectItemsFrom(lines: seq<string>, i0: nat, key0: string, t: Terminal)
    returns (records: seq<RawRecord>, outcome: Outcome)
    requires i0 <= |lines| && CollectSafe(lines[i0..])
    ensures Division(records, outcome) == Collect(key0, "", lines[i0..], t)
  {
    var i := i0;
    var key := key0;
    var body := "";
    var inner := true;
    records := [];
    outcome := Closed;
    assert Resume([], key, body, lines[i..], t) == Collect(key0, "", lines[i0..], t);
    while inner
      invariant i0 <= i <= |lines|
      invariant inner ==> CollectSafe(lines[i..])
      invariant inner ==> Resume(records, key, body, lines[i..], t) == Collect(key0, "", lines[i0..], t)
      invariant !inner ==> Division(records, outcome) == Collect(key0, "", lines[i0..], t)
      decreases |lines| - i, inner
    {
      if i == |lines| {
        assert lines[i..] == [];
        records := records + [RawRecord(key, body)];
        outcome := Failed(UnclosedError(t));
        inner := false;
      } else {
        var done;
        records, key, body, done, outcome := ReadItemLine(records, key, body, lines, i, t);
        inner := !done;
        i := i + 1;
      }
    }
  }

  /** One pass of the second loop over line `i`: a marker pushes the record and starts the
      next one, an end line pushes it and stops, any other line grows the body. */
  method ReadItemLine(records: seq<RawRecord>, key: string, body: string, lines: seq<string>,
                      i: nat, t: Terminal)
    returns (records': seq<RawRecord>, key': string, body': string, done: bool, outcome: Outcome)
    requires i < |lines| && CollectSafe(lines[i..])
    ensures !done ==> CollectSafe(lines[i + 1..])
    ensures !done ==>
      Resume(records', key', body', lines[i + 1..], t) == Resume(records, key, body, lines[i..], t)
    ensures done ==> Division(records', outcome) == Resume(records, key, body, lines[i..], t)
  {
    var line := lines[i];
    CollectStep(records, key, body, lines, i, t);
    records', key', body', done, outcome := records, key, body, false, Closed;
    if IsMarker(line) {
      records' := records + [RawRecord(key, body)];
      body' := "";
      key' := KeyOf(line);
    } else if IsEnd(line) {
      records' := records + [RawRecord(key, body)];
      done := true;
    } else {
      var trimmed := Trim(line);
      if |trimmed| > 0 {
        body' := body + trimmed;
      }
    }
  }

  /** The division still to come, after `done` has been sent, while inside `key`/`body`. */
  function Resume(done: seq<RawRecord>, key: string, body: string, lines: seq<string>,
                  t: Terminal): Division
    requires CollectSafe(lines)
  {
    var d := Collect(key, body, lines, t);
    Division(done + d.records, d.outcome)
  }

  lemma SeekStep(lines: seq<string>, i: nat, t: Terminal)
    requires i < |lines| && SeekSafe(lines[i..])
    ensures IsMarker(lines[i]) ==>
      && !KeyPanics(lines[i]) && CollectSafe(lines[i + 1..])
      && Seek(lines[i..], t) == Collect(KeyOf(lines[i]), "", lines[i + 1..], t)
    ensures !IsMarker(lines[i]) ==>
      SeekSafe(lines[i + 1..]) && Seek(lines[i..], t) == Seek(lines[i + 1..], t)
  {
    assert lines[i..][0] == lines[i];
    assert lines[i..][1..] == lines[i + 1..];
  }

  lemma CollectStep(done: seq<RawRecord>, key: string, body: string, lines: seq<string>,
                    i: nat, t: Terminal)
    requires i < |lines| && CollectSafe(lines[i..])
    ensures IsMarker(lines[i]) ==>
      && !KeyPanics(lines[i]) && CollectSafe(lines[i + 1..])
      && Resume(done, key, body, lines[i..], t)
         == Resume(done + [RawRecord(key, body)], KeyOf(lines[i]), "", lines[i + 1..], t)
    ensures !IsMarker(lines[i]) && IsEnd(lines[i]) ==>
      Resume(done, key, body, lines[i..], t) == Division(done + [RawRecord(key, body)], Closed)
    ensures !IsMarker(lines[i]) && !IsEnd(lines[i]) ==>
      && CollectSafe(lines[i + 1..])
      && Resume(done, key, body, lines[i..], t)
         == Resume(done, key, AppendLine(body, lines[i]), lines[i + 1..], t)
  {
    assert lines[i..][0] == lines[i];
    assert lines[i..][1..] == lines[i + 1..];
    if IsMarker(lines[i]) {
      var d := Collect(KeyOf(lines[i]), "", lines[i + 1..], t);
      ConcatAssoc(done, [RawRecord(key, body)], d.records);
    }
  }

  // ---------------------------------------------------------------- layout

  /** A line that neither opens an item nor ends the list. */
  predicate Plain(line: string) {
    !IsMarker(line) && !IsEnd(line)
  }

  predicate AllPlain(lines: seq<string>) {
    forall i | 0 <= i < |lines| :: Plain(lines[i])
  }

  /** One `\bibitem{` line and the lines of its body. */
  datatype Item = Item(marker: string, lines: seq<string>)

  predicate WellFormed(it: Item) {
    IsMarker(it.marker) && !KeyPanics(it.marker) && AllPlain(it.lines)
  }

  predicate AllWellFormed(items: seq<Item>) {
    forall i | 0 <= i < |items| :: WellFormed(items[i])
  }

  /** The lines a list of items is written as. */
  function Layout(items: seq<Item>): seq<string> {
    if |items| == 0 then [] else [items[0].marker] + items[0].lines + Layout(items[1..])
  }

  /** What a list of items should come out as: each marker's key with its lines' body. */
  function Expected(items: seq<Item>): (r: seq<RawRecord>)
    requires AllWellFormed(items)
    ensures |r| == |items|
  {
    if |items| == 0 then []
    else [RawRecord(KeyOf(items[0].marker), BodyOf(items[0].lines))] + Expected(items[1..])
  }

  /** Lines skipped before the first marker change nothing. */
  lemma {:induction false} SeekSkips(pre: seq<string>, rest: seq<string>, t: Terminal)
    requires NoMarker(pre)
    ensures SeekSafe(pre + rest) == SeekSafe(rest)
    ensures SeekSafe(rest) ==> Seek(pre + rest, t) == Seek(rest, t)
    decreases |pre|
  {
    if |pre| > 0 {
      assert (pre + rest)[0] == pre[0];
      assert (pre + rest)[1..] == pre[1..] + rest;
      SeekSkips(pre[1..], rest, t);
    } else {
      assert pre + rest == rest;
    }
  }

  /** Plain lines inside an item are folded into its body. */
  lemma {:induction false} CollectSafePlain(lines: seq<string>, rest: seq<string>)
    requires AllPlain(lines)
    ensures CollectSafe(lines + rest) == CollectSafe(rest)
    decreases |lines|
  {
    if |lines| > 0 {
      assert (lines + rest)[0] == lines[0];
      assert (lines + rest)[1..] == lines[1..] + rest;
      CollectSafePlain(lines[1..], rest);
    } else {
      assert lines + rest == rest;
    }
  }

  lemma {:induction false} CollectPlain(key: string, body: string, lines: seq<string>,
                                        rest: seq<string>, t: Terminal)
    requires AllPlain(lines) && CollectSafe(rest)
    ensures CollectSafe(lines + rest)
    ensures Collect(key, body, lines + rest, t) == Collect(key, body + BodyOf(lines), rest, t)
    decreases |lines|
  {
    CollectSafePlain(lines, rest);
    if |lines| > 0 {
      var l := lines[0];
      assert (lines + rest)[0] == l;
      assert (lines + rest)[1..] == lines[1..] + rest;
      CollectPlain(key, AppendLine(body, l), lines[1..], rest, t);
      ConcatAssoc(body, Trim(l), BodyOf(lines[1..]));
    } else {
      assert lines + rest == rest;
      assert body + BodyOf(lines) == body;
    }
  }

  /** How a bibliography laid out as items ends: nothing more is read (the reader stops),
      or a line ends the list. */
  predicate Closing(tail: seq<string>) {
    |tail| == 0 || (IsEnd(tail[0]) && !IsMarker(tail[0]))
  }

  function Finish(tail: seq<string>, t: Terminal): Outcome {
    if |tail| == 0 then Failed(UnclosedError(t)) else Closed
  }

  lemma {:induction false} LayoutSafe(items: seq<Item>, tail: seq<string>)
    requires AllWellFormed(items) && Closing(tail)
    ensures CollectSafe(Layout(items) + tail)
    decreases |items|
  {
    if |items| == 0 {
      assert Layout(items) + tail == tail;
    } else {
      var it := items[0];
      assert WellFormed(it);
      var after := Layout(items[1..]) + tail;
      LayoutSafe(items[1..], tail);
      CollectSafePlain(it.lines, after);
      ConcatAssoc([it.marker] + it.lines, Layout(items[1..]), tail);
      ConcatAssoc([it.marker], it.lines, after);
      assert (Layout(items) + tail)[1..] == it.lines + after;
    }
  }

  /** Reading a list of items while inside the item `key`/`body` sends that item and then
      exactly the items' records. */
  lemma {:induction false} CollectLayout(key: string, body: string, items: seq<Item>,
                                         tail: seq<string>, t: Terminal)
    requires AllWellFormed(items) && Closing(tail)
    ensures CollectSafe(Layout(items) + tail)
    ensures Collect(key, body, Layout(items) + tail, t)
         == Division([RawRecord(key, body)] + Expected(items), Finish(tail, t))
    decreases |items|
  {
    LayoutSafe(items, tail);
    if |items| == 0 {
      assert Layout(items) + tail == tail;
    } else {
      var it := items[0];
      assert WellFormed(it);
      var after := Layout(items[1..]) + tail;
      LayoutSafe(items[1..], tail);
      ConcatAssoc([it.marker] + it.lines, Layout(items[1..]), tail);
      ConcatAssoc([it.marker], it.lines, after);
      assert (Layout(items) + tail)[0] == it.marker;
      assert (Layout(items) + tail)[1..] == it.lines + after;
      CollectPlain(KeyOf(it.marker), "", it.lines, after, t);
      assert "" + BodyOf(it.lines) == BodyOf(it.lines);
      CollectLayout(KeyOf(it.marker), BodyOf(it.lines), items[1..], tail, t);
    }
  }

  /** A bibliography laid out as skipped lines then items divides into exactly the items'
      records; it is closed when an end line follows the items (what comes after it is
      never read), and fails with `ErrBibUnclosed` or the reader's error when nothing does. */
  lemma DivideLayout(pre: seq<string>, items: seq<Item>, tail: seq<string>, t: Terminal)
    requires NoMarker(pre) && |items| >= 1 && AllWellFormed(items) && Closing(tail)
    ensures SeekSafe(pre + Layout(items) + tail)
    ensures Divide(Input(pre + Layout(items) + tail, t)) == Division(Expected(items), Finish(tail, t))
  {
    var it := items[0];
    assert WellFormed(it);
    var after := Layout(items[1..]) + tail;
    LayoutSafe(items[1..], tail);
    ConcatAssoc([it.marker] + it.lines, Layout(items[1..]), tail);
    ConcatAssoc([it.marker], it.lines, after);
    var lines := Layout(items) + tail;
    assert lines[0] == it.marker;
    assert lines[1..] == it.lines + after;
    CollectPlain(KeyOf(it.marker), "", it.lines, after, t);
    assert "" + BodyOf(it.lines) == BodyOf(it.lines);
    CollectLayout(KeyOf(it.marker), BodyOf(it.lines), items[1..], tail, t);
    ConcatAssoc(pre, Layout(items), tail);
    SeekSkips(pre, lines, t);
  }
}
