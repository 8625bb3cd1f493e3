/** The divider of the legacy converter (`divider` in api.go): it skips everything up to
    and including the first `\bibitem{` line, then cuts the rest into bodies, one per
    `\bibitem{`, until the reader stops. It extracts no keys and knows no end marker:
    end of file is how a bibliography ends. */
module LegacyDivider {
  import opened Wrappers
  import opened Text
  import opened Tex
  import opened Divider

  /** `errors.New("empty")`, or the reader's own error. */
  datatype LegacyError = Empty | ReadFailed(err: string)

  /** The list the divider returns (a Go `nil` list is the empty one here) and its error. */
  datatype LegacyDivision = LegacyDivision(entries: seq<string>, error: Option<LegacyError>)

  /** The number of marker lines. */
  function Markers(lines: seq<string>): (n: nat)
    ensures n <= |lines|
    ensures n == 0 <==> NoMarker(lines)
  {
    if |lines| == 0 then 0
    else
      assert forall i | 1 <= i < |lines| :: lines[1..][i - 1] == lines[i];
      (if IsMarker(lines[0]) then 1 else 0) + Markers(lines[1..])
  }

  /** The first loop: lines up to and including the first marker are dropped. Running out
      of lines here is an empty bibliography, or the reader's error with an empty list. */
  function LegacySeek(lines: seq<string>, t: Terminal): (d: LegacyDivision)
    ensures NoMarker(lines) ==>
      d == LegacyDivision([], Some(if t.Eof? then Empty else ReadFailed(t.err)))
    ensures d.error.None? <==> !NoMarker(lines) && t.Eof?
    decreases |lines|
  {
    if |lines| == 0 then LegacyDivision([], Some(if t.Eof? then Empty else ReadFailed(t.err)))
    else if IsMarker(lines[0]) then
      LegacyCollectCount("", lines[1..], t);
      LegacyCollect("", lines[1..], t)
    else
      assert forall i | 1 <= i < |lines| :: lines[1..][i - 1] == lines[i];
      LegacySeek(lines[1..], t)
  }

  /** The second loop: each marker line sends the body read so far and starts a new one;
      every other line, an end line included, is trimmed and added. End of file sends the
      last body; any other read error drops it. */
  function LegacyCollect(body: string, lines: seq<string>, t: Terminal): LegacyDivision
    decreases |lines|
  {
    if |lines| == 0 then
      if t.Eof? then LegacyDivision([body], None) else LegacyDivision([], Some(ReadFailed(t.err)))
    else if IsMarker(lines[0]) then
      var rest := LegacyCollect("", lines[1..], t);
      LegacyDivision([body] + rest.entries, rest.error)
    else LegacyCollect(AppendLine(body, lines[0]), lines[1..], t)
  }

  /** The second loop sends one body per marker and, at end of file, the last one too; any
      other read error is passed on. */
  lemma {:induction false} LegacyCollectCount(body: string, lines: seq<string>, t: Terminal)
    ensures var d := LegacyCollect(body, lines, t);
      && (t.Eof? ==> d.error.None? && |d.entries| == Markers(lines) + 1)
      && (t.ReadError? ==> d.error == Some(ReadFailed(t.err)) && |d.entries| == Markers(lines))
    decreases |lines|
  {
    if |lines| > 0 {
      LegacyCollectCount(if IsMarker(lines[0]) then "" else AppendLine(body, lines[0]), lines[1..], t);
    }
  }

  function LegacyDivide(input: Input): LegacyDivision {
    LegacySeek(input.lines, input.terminal)
  }

  /** The legacy divider as Go writes it: a loop up to the first marker, then a loop that
      pushes a body on every marker and the last one at end of file. */
  method RunLegacyDivider(input: Input) returns (entries: seq<string>, error: Option<LegacyError>)
    ensures LegacyDivision(entries, error) == LegacyDivide(input)
  {
    var i, found := SkipToFirstItem(input.lines, input.terminal);
    if found {
      entries, error := CollectBodies(input.lines, i, input.terminal);
    } else {
      entries, error := [], Some(if input.terminal.Eof? then Empty else ReadFailed(input.terminal.err));
    }
  }

  /** The first loop: `i` is just past the first marker line. */
  method SkipToFirstItem(lines: seq<string>, t: Terminal) returns (i: nat, found: bool)
    ensures i <= |lines|
    ensures found ==> LegacySeek(lines, t) == LegacyCollect("", lines[i..], t)
    ensures !found ==> NoMarker(lines)
  {
    i := 0;
    assert lines[0..] == lines;
    while i < |lines| && !IsMarker(lines[i])
      invariant i <= |lines|
      invariant LegacySeek(lines[i..], t) == LegacySeek(lines, t)
      invariant forall j | 0 <= j < i :: !IsMarker(lines[j])
    {
      assert lines[i..][1..] == lines[i + 1..];
      i := i + 1;
    }
    found := i < |lines|;
    if found {
      assert lines[i..][1..] == lines[i + 1..];
      i := i + 1;
    }
  }

  /** The second loop, from line `i0` with an empty body. */
  method CollectBodies(lines: seq<string>, i0: nat, t: Terminal)
    returns (entries: seq<string>, error: Option<LegacyError>)
    requires i0 <= |lines|
    ensures LegacyDivision(entries, error) == LegacyCollect("", lines[i0..], t)
  {
    var i := i0;
    entries := [];
    var body := "";
    ghost var goal := LegacyCollect("", lines[i0..], t);
    ResumeFresh(lines[i0..], t);
    while i < |lines|
      invariant i0 <= i <= |lines|
      invariant LegacyResume(entries, body, lines[i..], t) == goal
    {
      entries, body := ReadBodyLine(entries, body, lines, i, t);
      i := i + 1;
    }
    ResumeEnd(entries, body, lines[i..], t);
    if t.Eof? {
      entries, error := entries + [body], None;
    } else {
      error := Some(ReadFailed(t.err));
    }
  }

  /** The second loop's body on line `i`: a marker line pushes the body read so far and
      starts an empty one; any other line is trimmed and, when not blank, added. */
  method ReadBodyLine(done: seq<string>, body: string, lines: seq<string>, i: nat, t: Terminal)
    returns (done': seq<string>, body': string)
    requires i < |lines|
    ensures LegacyResume(done', body', lines[i + 1..], t) == LegacyResume(done, body, lines[i..], t)
  {
    var line := lines[i];
    if IsMarker(line) {
      done', body' := done + [body], "";
    } else {
      var trimmed := Trim(line);
      done', body' := done, body;
      if |trimmed| > 0 {
        body' := body + trimmed;
      }
    }
    LegacyCollectStep(done, body, lines, i, t, done', body');
  }

  /** One line read: a marker pushes the body and starts an empty one; any other line is
      added to the body. */
  lemma LegacyCollectStep(done: seq<string>, body: string, lines: seq<string>, i: nat, t: Terminal,
                          done': seq<string>, body': string)
    requires i < |lines|
    requires IsMarker(lines[i]) ==> done' == done + [body] && body' == ""
    requires !IsMarker(lines[i]) ==> done' == done && body' == AppendLine(body, lines[i])
    ensures LegacyResume(done', body', lines[i + 1..], t) == LegacyResume(done, body, lines[i..], t)
  {
    assert lines[i..][0] == lines[i];
    assert lines[i..][1..] == lines[i + 1..];
    if IsMarker(lines[i]) {
      ConcatAssoc(done, [body], LegacyCollect("", lines[i + 1..], t).entries);
    }
  }

  /** Out of lines: the body is pushed at end of file and dropped on a read error. */
  lemma ResumeEnd(done: seq<string>, body: string, rest: seq<string>, t: Terminal)
    requires |rest| == 0
    ensures t.Eof? ==> LegacyResume(done, body, rest, t) == LegacyDivision(done + [body], None)
    ensures t.ReadError? ==> LegacyResume(done, body, rest, t) == LegacyDivision(done, Some(ReadFailed(t.err)))
  {
    if t.ReadError? {
      assert done + [] == done;
    }
  }

  lemma ResumeFresh(lines: seq<string>, t: Terminal)
    ensures LegacyResume([], "", lines, t) == LegacyCollect("", lines, t)
  {
    PrependNothing(LegacyCollect("", lines, t));
  }

  lemma PrependNothing(d: LegacyDivision)
    ensures Prepend([], d) == d
  {
    assert [] + d.entries == d.entries;
  }

  /** A division with `done` pushed before its entries. */
  function Prepend(done: seq<string>, d: LegacyDivision): LegacyDivision {
    LegacyDivision(done + d.entries, d.error)
  }

  /** The division still to come once `done` has been pushed, while reading `body`. */
  function LegacyResume(done: seq<string>, body: string, lines: seq<string>, t: Terminal)
    : LegacyDivision
  {
    Prepend(done, LegacyCollect(body, lines, t))
  }

  // ---------------------------------------------------------------- layout

  /** An item as the legacy divider reads it: a marker line and lines without markers. */
  predicate LegacyItem(it: Item) {
    IsMarker(it.marker) && NoMarker(it.lines)
  }

  predicate AllLegacyItems(items: seq<Item>) {
    forall i | 0 <= i < |items| :: LegacyItem(items[i])
  }

  /** The bodies a list of items should come out as. */
  function Bodies(items: seq<Item>): (r: seq<string>)
    ensures |r| == |items|
  {
    if |items| == 0 then [] else [BodyOf(items[0].lines)] + Bodies(items[1..])
  }

  /** Lines without markers are folded into the current body. */
  lemma {:induction false} LegacyCollectPlain(body: string, lines: seq<string>,
                                              rest: seq<string>, t: Terminal)
    requires NoMarker(lines)
    ensures LegacyCollect(body, lines + rest, t) == LegacyCollect(body + BodyOf(lines), rest, t)
    decreases |lines|
  {
    if |lines| > 0 {
      var l := lines[0];
      assert (lines + rest)[0] == l;
      assert (lines + rest)[1..] == lines[1..] + rest;
      assert !IsMarker(lines[0]);
      LegacyCollectPlain(AppendLine(body, l), lines[1..], rest, t);
      ConcatAssoc(body, Trim(l), BodyOf(lines[1..]));
    } else {
      assert lines + rest == rest;
      assert body + BodyOf(lines) == body;
    }
  }

  /** A marker line and its lines, read inside `body`: `body` is sent, and reading goes
      on inside the item's body. */
  lemma LegacyCollectItem(body: string, items: seq<Item>, t: Terminal)
    requires |items| >= 1 && AllLegacyItems(items)
    ensures var r := LegacyCollect(BodyOf(items[0].lines), Layout(items[1..]), t);
      LegacyCollect(body, Layout(items), t) == LegacyDivision([body] + r.entries, r.error)
  {
    var it := items[0];
    assert LegacyItem(it);
    var after := Layout(items[1..]);
    ConcatAssoc([it.marker], it.lines, after);
    assert Layout(items)[0] == it.marker;
    assert Layout(items)[1..] == it.lines + after;
    LegacyCollectPlain("", it.lines, after, t);
    assert "" + BodyOf(it.lines) == BodyOf(it.lines);
  }

  /** At end of file, reading a list of items while inside `body` sends that body and
      then the items' bodies. */
  lemma {:induction false} LegacyCollectLayoutEof(body: string, items: seq<Item>)
    requires AllLegacyItems(items)
    ensures LegacyCollect(body, Layout(items), Eof) == LegacyDivision([body] + Bodies(items), None)
    decreases |items|
  {
    if |items| > 0 {
      var b := BodyOf(items[0].lines);
      var rest := Bodies(items[1..]);
      LegacyCollectItem(body, items, Eof);
      LegacyCollectLayoutEof(b, items[1..]);
      assert Bodies(items) == [b] + rest;
      ConcatAssoc([body], [b], rest);
    }
  }

  /** On a read error the body being read is dropped, whichever it is. */
  lemma {:induction false} LegacyCollectLayoutError(body: string, items: seq<Item>, e: string)
    requires AllLegacyItems(items)
    ensures LegacyCollect(body, Layout(items), ReadError(e))
      == LegacyDivision(([body] + Bodies(items))[..|items|], Some(ReadFailed(e)))
    decreases |items|
  {
    if |items| > 0 {
      var b := BodyOf(items[0].lines);
      var r := LegacyCollect(b, Layout(items[1..]), ReadError(e));
      LegacyCollectItem(body, items, ReadError(e));
      LegacyCollectLayoutError(b, items[1..], e);
      BodiesCons(items);
      PushBeforeDropped(body, Bodies(items), r, e);
    }
  }

  /** Pushing a body before a division that dropped the last of `bodies`. */
  lemma PushBeforeDropped(body: string, bodies: seq<string>, r: LegacyDivision, e: string)
    requires |bodies| >= 1 && r == LegacyDivision(bodies[..|bodies| - 1], Some(ReadFailed(e)))
    ensures LegacyDivision([body] + r.entries, r.error)
      == LegacyDivision(([body] + bodies)[..|bodies|], Some(ReadFailed(e)))
  {
    assert [body] + bodies[..|bodies| - 1] == ([body] + bodies)[..|bodies|];
  }

  /** Up to the end of the first item's lines, the legacy divider only skips and folds. */
  lemma LegacyFirstItem(pre: seq<string>, items: seq<Item>, t: Terminal)
    requires NoMarker(pre) && |items| >= 1 && AllLegacyItems(items)
    ensures LegacyDivide(Input(pre + Layout(items), t))
      == LegacyCollect(BodyOf(items[0].lines), Layout(items[1..]), t)
  {
    var it := items[0];
    assert LegacyItem(it);
    var after := Layout(items[1..]);
    var lines := Layout(items);
    ConcatAssoc([it.marker], it.lines, after);
    assert lines == [it.marker] + (it.lines + after);
    LegacySkips(pre, lines, t);
    SeekMarkerFirst(it.marker, it.lines + after, t);
    LegacyCollectPlain("", it.lines, after, t);
    assert "" + BodyOf(it.lines) == BodyOf(it.lines);
  }

  /** A marker line starts the first body. */
  lemma SeekMarkerFirst(marker: string, rest: seq<string>, t: Terminal)
    requires IsMarker(marker)
    ensures LegacySeek([marker] + rest, t) == LegacyCollect("", rest, t)
  {
    assert ([marker] + rest)[1..] == rest;
  }

  /** A bibliography laid out as skipped lines then items divides into the items' bodies,
      in order: all of them at end of file, all but the last on a read error. */
  lemma LegacyDivideLayout(pre: seq<string>, items: seq<Item>, t: Terminal)
    requires NoMarker(pre) && |items| >= 1 && AllLegacyItems(items)
    ensures t.Eof? ==> LegacyDivide(Input(pre + Layout(items), t)) == LegacyDivision(Bodies(items), None)
    ensures t.ReadError? ==>
      LegacyDivide(Input(pre + Layout(items), t))
        == LegacyDivision(Bodies(items)[..|items| - 1], Some(ReadFailed(t.err)))
  {
    LegacyFirstItem(pre, items, t);
    if t.Eof? {
      LegacyCollectLayoutEof(BodyOf(items[0].lines), items[1..]);
      BodiesCons(items);
    } else {
      LegacyCollectLayoutError(BodyOf(items[0].lines), items[1..], t.err);
      BodiesCons(items);
    }
  }

  lemma BodiesCons(items: seq<Item>)
    requires |items| >= 1
    ensures Bodies(items) == [BodyOf(items[0].lines)] + Bodies(items[1..])
  {
  }

  /** Lines skipped before the first marker change nothing. */
  lemma {:induction false} LegacySkips(pre: seq<string>, rest: seq<string>, t: Terminal)
    requires NoMarker(pre)
    ensures LegacySeek(pre + rest, t) == LegacySeek(rest, t)
    decreases |pre|
  {
    if |pre| > 0 {
      assert (pre + rest)[0] == pre[0];
      assert (pre + rest)[1..] == pre[1..] + rest;
      LegacySkips(pre[1..], rest, t);
    } else {
      assert pre + rest == rest;
    }
  }

  lemma SingleItemLines(pre: seq<string>, marker: string, lines: seq<string>, end: string)
    ensures pre + [marker] + lines + [end] == pre + Layout([Item(marker, lines + [end])])
    ensures pre + [marker] + lines + [end] == pre + Layout([Item(marker, lines)]) + [end]
  {
    assert Layout([Item(marker, lines + [end])]) == [marker] + (lines + [end]) + [];
    assert Layout([Item(marker, lines)]) == [marker] + lines + [];
  }

  lemma NoMarkerAppend(a: seq<string>, b: seq<string>)
    requires NoMarker(a) && NoMarker(b)
    ensures NoMarker(a + b)
  {
    forall i | 0 <= i < |a + b| ensures !IsMarker((a + b)[i]) {
      if i < |a| {
        assert (a + b)[i] == a[i];
      } else {
        assert (a + b)[i] == b[i - |a|];
      }
    }
  }

  /** The legacy divider reads an end line into the body of the last item. */
  lemma LegacyKeepsEndLine(pre: seq<string>, marker: string, lines: seq<string>, end: string)
    requires NoMarker(pre) && IsMarker(marker) && NoMarker(lines) && !IsMarker(end)
    ensures LegacyDivide(Input(pre + [marker] + lines + [end], Eof))
      == LegacyDivision([BodyOf(lines) + Trim(end)], None)
  {
    var all := lines + [end];
    var it := Item(marker, all);
    SingleItemLines(pre, marker, lines, end);
    NoMarkerAppend(lines, [end]);
    assert AllLegacyItems([it]) by {
      assert LegacyItem(it);
    }
    LegacyDivideLayout(pre, [it], Eof);
    assert Bodies([it]) == [BodyOf(all)] + Bodies([]);
    BodyOfAppend(lines, [end]);
    assert [end][1..] == [];
    assert BodyOf([end]) == Trim(end);
  }

  /** The two dividers on the same single item closed by an end line: the current one
      stops at the end line, the legacy one reads it into the body. */
  lemma EndLineKept(pre: seq<string>, marker: string, lines: seq<string>, end: string)
    requires NoMarker(pre) && IsMarker(marker) && !KeyPanics(marker) && AllPlain(lines)
    requires IsEnd(end) && !IsMarker(end)
    ensures LegacyDivide(Input(pre + [marker] + lines + [end], Eof))
      == LegacyDivision([BodyOf(lines) + Trim(end)], None)
    ensures SeekSafe(pre + [marker] + lines + [end])
    ensures Divide(Input(pre + [marker] + lines + [end], Eof))
      == Division([RawRecord(KeyOf(marker), BodyOf(lines))], Closed)
  {
    LegacyKeepsEndLine(pre, marker, lines, end);
    StopsAtEndLine(pre, marker, lines, end);
  }

  /** The current divider closes the single item at its end line. */
  lemma StopsAtEndLine(pre: seq<string>, marker: string, lines: seq<string>, end: string)
    requires NoMarker(pre) && IsMarker(marker) && !KeyPanics(marker) && AllPlain(lines)
    requires IsEnd(end) && !IsMarker(end)
    ensures SeekSafe(pre + [marker] + lines + [end])
    ensures Divide(Input(pre + [marker] + lines + [end], Eof))
      == Division([RawRecord(KeyOf(marker), BodyOf(lines))], Closed)
  {
    SingleItemLines(pre, marker, lines, end);
    var it := Item(marker, lines);
    assert AllWellFormed([it]) by {
      assert WellFormed(it);
    }
    DivideLayout(pre, [it], [end], Eof);
    assert Expected([it]) == [RawRecord(KeyOf(marker), BodyOf(lines))] + Expected([]);
  }
}
