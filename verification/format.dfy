/** The two small `Sprintf` layouts both converters share: the `%s-%d-%s` key built from
    title, year and first author, and the `%d-%d-%d` date of a visit. */
module Format {
  import opened Text
  import opened Decimal

  /** What Go's `time.Time.Date()` gives: year, month and day as integers. */
  datatype Date = Date(year: int, month: int, day: int)

  /** `fmt.Sprintf("%s-%d-%s", title, year, author)`. */
  function DashKey(title: string, year: int, author: string): string
  {
    title + "-" + IntToDecimal(year) + "-" + author
  }

  /** `fmt.Sprintf("%d-%d-%d", year, month, day)`. */
  function FormatDate(d: Date): (s: string)
    ensures '-' in s
  {
    var r := IntToDecimal(d.year) + "-" + IntToDecimal(d.month) + "-" + IntToDecimal(d.day);
    assert r[|IntToDecimal(d.year)|] == '-';
    r
  }

  lemma JoinThree(a: string, b: string, c: string, sep: char)
    ensures Join([a, b, c], [sep]) == a + [sep] + b + [sep] + c
  {
    assert [a, b, c][1..] == [b, c];
    assert [b, c][1..] == [c];
    assert Join([b, c], [sep]) == b + [sep] + c;
    assert a + [sep] + (b + [sep] + c) == a + [sep] + b + [sep] + c;
  }

  lemma NoDash(n: nat)
    ensures '-' !in NatToDecimal(n)
  {
    var s := NatToDecimal(n);
    forall i | 0 <= i < |s| ensures s[i] != '-' {
      assert IsDigit(s[i]);
    }
  }

  /** A key built from a dash-free title and author and a non-negative year splits back
      on '-' into exactly those three parts, and the middle one reads back as the year. */
  lemma DashKeySplit(title: string, year: nat, author: string)
    requires '-' !in title && '-' !in author
    ensures Split(DashKey(title, year, author), '-') == [title, NatToDecimal(year), author]
    ensures DecimalValue(Split(DashKey(title, year, author), '-')[1]) == year
  {
    var d := NatToDecimal(year);
    NoDash(year);
    JoinThree(title, d, author, '-');
    SplitJoin([title, d, author], '-');
    DecimalRoundTrip(year);
  }

  /** A date with non-negative fields splits back on '-' into its three numbers. */
  lemma FormatDateSplit(d: Date)
    requires d.year >= 0 && d.month >= 0 && d.day >= 0
    ensures var parts := Split(FormatDate(d), '-');
      && |parts| == 3
      && AllDigits(parts[0]) && DecimalValue(parts[0]) == d.year
      && AllDigits(parts[1]) && DecimalValue(parts[1]) == d.month
      && AllDigits(parts[2]) && DecimalValue(parts[2]) == d.day
  {
    var y, m, dd := NatToDecimal(d.year), NatToDecimal(d.month), NatToDecimal(d.day);
    NoDash(d.year);
    NoDash(d.month);
    NoDash(d.day);
    JoinThree(y, m, dd, '-');
    SplitJoin([y, m, dd], '-');
    DecimalRoundTrip(d.year);
    DecimalRoundTrip(d.month);
    DecimalRoundTrip(d.day);
  }
}
