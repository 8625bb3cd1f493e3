/** The TeX-side vocabulary of the converter: the markers it looks for, the three field
    extractors (`extractKey`, `extractURL`, `extractYear`) and the way a divider folds
    source lines into an entry body. */
module Tex {
  import opened Wrappers
  import opened Text
  import opened Decimal

  const BibItem: string := "\\bibitem{"
  const EndBibliography: string := "\\end{thebibliography}"
  const UrlToken: string := "\\url{"

  /** Go's `ErrSyntax`. */
  datatype SyntaxError = ErrSyntax

  predicate IsMarker(line: string) {
    Contains(line, BibItem)
  }

  predicate IsEnd(line: string) {
    Contains(line, EndBibliography)
  }

  // ---------------------------------------------------------------- extractKey

  /** Slicing from after the first '{' to the last '}' panics in Go when that '}'
      comes before the '{'. */
  predicate KeyPanics(line: string) {
    IsMarker(line) && '}' in line && LastIndexOfChar(line, '}') < IndexOfChar(line, '{')
  }

  /** `key` sits in `line` right after the first '{' (at `i`) and right before the last '}'. */
  predicate KeyAt(line: string, key: string, i: int) {
    && 0 <= i
    && i + |key| + 1 < |line|
    && line[i] == '{' && '{' !in line[..i]
    && line[i + |key| + 1] == '}' && '}' !in line[i + |key| + 2..]
    && line[i + 1..i + |key| + 1] == key
  }

  function ExtractKey(line: string): (r: Result<string, SyntaxError>)
    requires !KeyPanics(line)
    ensures r.Failure? <==> !IsMarker(line) || '}' !in line
    ensures r.Success? ==> KeyAt(line, r.value, IndexOfChar(line, '{'))
    ensures r.Success? ==> IndexOfChar(line, '{') + |r.value| + 1 == LastIndexOfChar(line, '}')
  {
    if !IsMarker(line) then Failure(ErrSyntax)
    else
      var e := LastIndexOfChar(line, '}');
      if e == -1 then Failure(ErrSyntax)
      else
        MarkerHasBrace(line);
        Success(line[IndexOfChar(line, '{') + 1..e])
  }

  lemma MarkerHasBrace(line: string)
    requires IsMarker(line)
    ensures '{' in line
  {
    var m :| 0 <= m <= |line| - |BibItem| && OccursAt(line, BibItem, m);
    assert line[m..m + 9] == BibItem;
    assert line[m + 8] == '{';
  }

  /** When the first '{' is at `i` and the last '}' at `e`, the key is what lies between. */
  lemma ExtractKeyAt(line: string, i: int, e: int)
    requires IsMarker(line)
    requires 0 <= i < e < |line|
    requires line[i] == '{' && '{' !in line[..i]
    requires line[e] == '}' && '}' !in line[e + 1..]
    ensures !KeyPanics(line)
    ensures ExtractKey(line) == Success(line[i + 1..e])
  {
    IndexOfCharAt(line, '{', i);
    LastIndexOfCharAt(line, '}', e);
  }

  /** The key a divider records for a marker line: Go discards extractKey's error and
      keeps the empty string it returns alongside it. */
  function KeyOf(line: string): (key: string)
    requires !KeyPanics(line)
    ensures '}' !in line ==> key == ""
    ensures IsMarker(line) && '}' in line ==> ExtractKey(line) == Success(key)
  {
    match ExtractKey(line)
    case Success(k) => k
    case Failure(_) => ""
  }

  /** A marker line `\bibitem{k}` gives back `k`, whatever surrounds it, as long as no '{'
      comes before the marker and no '}' after the closing brace. */
  lemma ExtractKeyOfMarker(prefix: string, k: string, suffix: string)
    requires '{' !in prefix && '}' !in suffix
    ensures !KeyPanics(prefix + BibItem + k + "}" + suffix)
    ensures ExtractKey(prefix + BibItem + k + "}" + suffix) == Success(k)
  {
    var line := prefix + BibItem + k + "}" + suffix;
    var p := |prefix|;
    var e := p + |BibItem| + |k|;
    assert line[p + 9..e] == k;
    assert line[e + 1..] == suffix;
    assert line[..p + 8] == prefix + "\\bibitem";
    assert line[p..p + |BibItem|] == BibItem;
    ContainsAt(line, BibItem, p);
    ExtractKeyAt(line, p + 8, e);
  }

  // ---------------------------------------------------------------- extractURL

  /** The longest prefix of `s` that holds no `c`. */
  function TakeUntil(s: string, c: char): (r: string)
    ensures c !in r
    ensures StartsWith(s, r)
    ensures |r| == |s| || s[|r|] == c
    decreases |s|
  {
    if |s| == 0 || s[0] == c then "" else [s[0]] + TakeUntil(s[1..], c)
  }

  /** The corrected `extractURL`: the text after the last `\url{` up to the next '}' or the
      end of the line, characters copied unchanged; the empty string when there is no
      `\url{`. Go's loop re-encodes each byte from 0x80 up; module `UrlBytes` models that. */
  function ExtractURL(line: string): (url: string)
    ensures !Contains(line, UrlToken) ==> url == ""
    ensures Contains(line, UrlToken) ==>
      var start := LastIndexOf(line, UrlToken) + |UrlToken|;
      && 0 <= start <= |line|
      && StartsWith(line[start..], url)
      && (start + |url| == |line| || line[start + |url|] == '}')
    ensures '}' !in url
  {
    LastIndexOfNone(line, UrlToken);
    var i := LastIndexOf(line, UrlToken);
    if i == -1 then "" else TakeUntil(line[i + |UrlToken|..], '}')
  }

  lemma {:induction false} TakeUntilOf(u: string, c: char, rest: string)
    requires c !in u
    ensures TakeUntil(u + [c] + rest, c) == u
    decreases |u|
  {
    if |u| > 0 {
      assert (u + [c] + rest)[1..] == u[1..] + [c] + rest;
      TakeUntilOf(u[1..], c, rest);
    }
  }

  /** When the last `\url{` starts at `i`, the URL is what follows it up to the next '}'. */
  lemma ExtractURLAt(line: string, i: int)
    requires OccursAt(line, UrlToken, i)
    requires forall j | i < j :: !OccursAt(line, UrlToken, j)
    ensures ExtractURL(line) == TakeUntil(line[i + |UrlToken|..], '}')
  {
    ContainsAt(line, UrlToken, i);
    var r := LastIndexOf(line, UrlToken);
    assert i <= r;
    assert r == i;
    assert ExtractURL(line) == TakeUntil(line[r + |UrlToken|..], '}');
  }

  /** `\url{u}` is read back as `u` when nothing after it opens another `\url{`. */
  lemma ExtractURLOf(prefix: string, u: string, suffix: string)
    requires '}' !in u
    requires !Contains(u + "}" + suffix, UrlToken)
    ensures ExtractURL(prefix + UrlToken + u + "}" + suffix) == u
  {
    var line := prefix + UrlToken + u + "}" + suffix;
    var p := |prefix|;
    var rest := u + "}" + suffix;
    assert line[p..p + 5] == UrlToken;
    assert line[p + 5..] == rest;
    forall j | p < j ensures !OccursAt(line, UrlToken, j) {
      NoUrlAfter(line, p, rest, j);
    }
    ExtractURLAt(line, p);
    TakeUntilOf(u, '}', suffix);
  }

  /** Past a `\url{` at `p` whose remainder holds no other, none starts at `j`. */
  lemma NoUrlAfter(line: string, p: nat, rest: string, j: int)
    requires OccursAt(line, UrlToken, p) && line[p + 5..] == rest
    requires !Contains(rest, UrlToken)
    requires p < j
    ensures !OccursAt(line, UrlToken, j)
  {
    if j + 5 > |line| {
    } else if j < p + 5 {
      assert line[p..p + 5][j - p] == line[j];
      assert line[j..j + 5][0] == line[j];
      assert line[j] == UrlToken[j - p] != '\\';
    } else {
      assert rest[j - p - 5..j - p] == line[j..j + 5];
      assert !OccursAt(rest, UrlToken, j - p - 5);
    }
  }

  /** Text without a backslash holds no `\url{`. */
  lemma NoUrlWithoutBackslash(s: string)
    requires '\\' !in s
    ensures !Contains(s, UrlToken)
  {
    ContainsHead(s, UrlToken);
  }

  /** The extracted URL never holds another `\url{`: extracting twice gives nothing. */
  lemma ExtractURLTwice(line: string)
    ensures !Contains(ExtractURL(line), UrlToken)
    ensures ExtractURL(ExtractURL(line)) == ""
  {
    var url := ExtractURL(line);
    if Contains(line, UrlToken) {
      var i := LastIndexOf(line, UrlToken);
      assert line[i + 5..][..|url|] == url;
      assert line[i + 5..i + 5 + |url|] == url;
      forall j | 0 <= j <= |url| - 5 ensures !OccursAt(url, UrlToken, j) {
        assert forall k | j <= k < j + 5 :: url[k] == line[i + 5 + k];
        assert url[j..j + 5] == line[i + 5 + j..i + 5 + j + 5];
        assert !OccursAt(line, UrlToken, i + 5 + j);
      }
    }
  }

  // ---------------------------------------------------------------- extractYear

  /** A character `fmt`'s scanner skips before a number (a newline is an error in Sscanf). */
  predicate IsBlank(c: char) {
    IsSpace(c) && c != '\n'
  }

  /** The number of blanks the scanner skips at the start of `s`. */
  function LeadingBlanks(s: string): (k: nat)
    ensures k <= |s|
    ensures forall i | 0 <= i < k :: IsBlank(s[i])
    ensures k == |s| || !IsBlank(s[k])
    decreases |s|
  {
    if |s| > 0 && IsBlank(s[0]) then 1 + LeadingBlanks(s[1..]) else 0
  }

  /** The longest prefix of `s` made of decimal digits. */
  function DigitRun(s: string): (r: string)
    ensures AllDigits(r)
    ensures StartsWith(s, r)
    ensures |r| == |s| || !IsDigit(s[|r|])
    decreases |s|
  {
    if |s| > 0 && IsDigit(s[0]) then [s[0]] + DigitRun(s[1..]) else ""
  }

  predicate IsSign(c: char) {
    c == '+' || c == '-'
  }

  /** `s` begins with a number the scanner can read: a digit, or a sign and a digit. */
  predicate StartsNumeric(s: string) {
    |s| >= 1 && (IsDigit(s[0]) || (IsSign(s[0]) && |s| >= 2 && IsDigit(s[1])))
  }

  /** What `%4d` reads once the blanks are skipped: an optional sign and digits, at most
      four characters in all; `None` when no digit can be read. */
  function ScanNumber(rest: string): (r: Option<int>)
    ensures r.Some? <==> StartsNumeric(rest)
    ensures r.Some? ==> -999 <= r.value <= 9999
  {
    if |rest| == 0 then None
    else
      var window := rest[..if |rest| < 4 then |rest| else 4];
      var unsigned := if IsSign(window[0]) then window[1..] else window;
      var digits := DigitRun(unsigned);
      if |digits| == 0 then None
      else
        var v: int := DecimalValue(digits);
        assert IsSign(window[0]) ==> |digits| <= 3;
        Some(if window[0] == '-' then -v else v)
  }

  /** `fmt.Sscanf(field, "%4d", &v)`: blanks are skipped before the width of four applies. */
  function ScanInt4(field: string): (r: Option<int>)
    ensures r.Some? <==> StartsNumeric(field[LeadingBlanks(field)..])
    ensures r.Some? ==> -999 <= r.value <= 9999
  {
    ScanNumber(field[LeadingBlanks(field)..])
  }

  /** Go's `extractYear`: the scanned number, unless it is zero or the field is longer
      than six bytes, in which case 0 (no year). */
  function ExtractYear(field: string): (year: int)
    ensures Utf8Len(field) > 6 ==> year == 0
    ensures -999 <= year <= 9999
    ensures !StartsNumeric(field[LeadingBlanks(field)..]) ==> year == 0
    ensures year != 0 ==> ScanInt4(field) == Some(year)
    ensures ScanInt4(field).Some? && ScanInt4(field).value != 0 && Utf8Len(field) <= 6 ==>
      year == ScanInt4(field).value
  {
    match ScanInt4(field)
    case Some(v) => if v != 0 && Utf8Len(field) <= 6 then v else 0
    case None => 0
  }

  /** A string of `k` ASCII spaces. */
  function Spaces(k: nat): (s: string)
    ensures |s| == k && IsAscii(s)
    ensures forall i | 0 <= i < k :: s[i] == ' '
  {
    seq(k, _ => ' ')
  }

  /** The decimal text of a value in range is scanned back to that value. */
  lemma ScanNumberUnsigned(digits: string, rest: string)
    requires AllDigits(digits) && 1 <= |digits| <= 4
    requires |rest| == 0 || !IsDigit(rest[0])
    ensures ScanNumber(digits + rest).Some?
    ensures ScanNumber(digits + rest).value == DecimalValue(digits) as int
  {
    var r := digits + rest;
    var window := r[..if |r| < 4 then |r| else 4];
    UnsignedWindow(digits, rest, r, window);
    ScanWindow(r, window, window, digits);
  }

  /** The scanner's window on digits: no sign, and the digits first. */
  lemma UnsignedWindow(digits: string, rest: string, r: string, window: string)
    requires AllDigits(digits) && 1 <= |digits| <= 4
    requires |rest| == 0 || !IsDigit(rest[0])
    requires r == digits + rest && window == r[..if |r| < 4 then |r| else 4]
    ensures |window| >= 1 && !IsSign(window[0]) && DigitRun(window) == digits
  {
    DigitRunOf(digits, rest, |window|);
    assert window[0] == digits[0];
  }

  lemma ScanNumberNegative(digits: string, rest: string)
    requires AllDigits(digits) && 1 <= |digits| <= 3
    requires |rest| == 0 || !IsDigit(rest[0])
    ensures ScanNumber(['-'] + (digits + rest)).Some?
    ensures ScanNumber(['-'] + (digits + rest)).value == -(DecimalValue(digits) as int)
  {
    var r := ['-'] + (digits + rest);
    var window := r[..if |r| < 4 then |r| else 4];
    NegativeWindow(digits, rest, r, window);
    ScanWindow(r, window, window[1..], digits);
  }

  /** The scanner's window on a minus sign and digits: the sign, then the digits. */
  lemma NegativeWindow(digits: string, rest: string, r: string, window: string)
    requires AllDigits(digits) && 1 <= |digits| <= 3
    requires |rest| == 0 || !IsDigit(rest[0])
    requires r == ['-'] + (digits + rest) && window == r[..if |r| < 4 then |r| else 4]
    ensures |window| >= 2 && window[0] == '-' && DigitRun(window[1..]) == digits
  {
    var w := |window|;
    assert window[1..] == (digits + rest)[..w - 1];
    DigitRunOf(digits, rest, w - 1);
  }

  /** What the scanner reads once the window, the unsigned part and its digits are known. */
  lemma ScanWindow(r: string, window: string, unsigned: string, digits: string)
    requires |r| > 0 && window == r[..if |r| < 4 then |r| else 4]
    requires unsigned == if IsSign(window[0]) then window[1..] else window
    requires DigitRun(unsigned) == digits && |digits| > 0
    ensures ScanNumber(r) == Some(if window[0] == '-' then -(DecimalValue(digits) as int)
                                  else DecimalValue(digits) as int)
  {
  }

  /** The decimal text of a value in range is scanned back to that value. */
  lemma ScanNumberOfDecimal(y: int, rest: string)
    requires -999 <= y <= 9999
    requires |rest| == 0 || !IsDigit(rest[0])
    ensures ScanNumber(IntToDecimal(y) + rest).Some?
    ensures ScanNumber(IntToDecimal(y) + rest).value == y
  {
    var d := IntToDecimal(y);
    if y < 0 {
      var n: nat := -y;
      ScanNegativeDecimal(n, rest);
      assert d == "-" + NatToDecimal(n);
    } else {
      assert d == NatToDecimal(y);
      ScanNaturalDecimal(y, rest);
    }
  }

  lemma ScanNaturalDecimal(n: nat, rest: string)
    requires n <= 9999
    requires |rest| == 0 || !IsDigit(rest[0])
    ensures ScanNumber(NatToDecimal(n) + rest).Some?
    ensures ScanNumber(NatToDecimal(n) + rest).value == n
  {
    assert Pow10(4) == 10000;
    DecimalWidth(n, 4);
    DecimalRoundTrip(n);
    ScanNumberUnsigned(NatToDecimal(n), rest);
  }

  lemma ScanNegativeDecimal(n: nat, rest: string)
    requires 1 <= n <= 999
    requires |rest| == 0 || !IsDigit(rest[0])
    ensures ScanNumber("-" + NatToDecimal(n) + rest).Some?
    ensures ScanNumber("-" + NatToDecimal(n) + rest).value == -(n as int)
  {
    var digits := NatToDecimal(n);
    assert Pow10(3) == 1000;
    DecimalWidth(n, 3);
    DecimalRoundTrip(n);
    assert "-" + digits + rest == ['-'] + (digits + rest);
    ScanNumberNegative(digits, rest);
  }

  /** A year written in decimal (possibly after spaces, possibly followed by text that does
      not continue the number) is read back, as long as the field stays within six bytes. */
  lemma ExtractYearOfDecimal(k: nat, y: int, rest: string)
    requires -999 <= y <= 9999 && y != 0
    requires |rest| == 0 || !IsDigit(rest[0])
    requires Utf8Len(Spaces(k) + IntToDecimal(y) + rest) <= 6
    ensures ExtractYear(Spaces(k) + IntToDecimal(y) + rest) == y
  {
    var d := IntToDecimal(y);
    var field := Spaces(k) + d + rest;
    ConcatAssoc(Spaces(k), d, rest);
    LeadingBlanksOf(k, d + rest);
    assert field[k..] == d + rest;
    ScanNumberOfDecimal(y, rest);
    assert ScanInt4(field) == Some(y);
  }

  /** The width of four cuts a longer run of digits: a field of five or six digits gives
      the number its first four digits make, when that is not zero. */
  lemma ExtractYearWidth(digits: string)
    requires AllDigits(digits) && 4 <= |digits| <= 6
    requires DecimalValue(digits[..4]) != 0
    ensures ExtractYear(digits) == DecimalValue(digits[..4])
  {
    var window := digits[..4];
    assert !IsBlank(digits[0]);
    assert LeadingBlanks(digits) == 0;
    assert digits[LeadingBlanks(digits)..] == digits;
    assert window + "" == window;
    DigitRunOf(window, "", 4);
    assert window[0] == digits[0];
    ScanWindow(digits, window, window, window);
    assert IsAscii(digits) by {
      forall i | 0 <= i < |digits| ensures digits[i] as int < 0x80 {
        assert IsDigit(digits[i]);
      }
    }
    Utf8LenAscii(digits);
  }

  lemma {:induction false} LeadingBlanksOf(k: nat, s: string)
    requires |s| == 0 || !IsBlank(s[0])
    ensures LeadingBlanks(Spaces(k) + s) == k
    decreases k
  {
    if k > 0 {
      assert (Spaces(k) + s)[1..] == Spaces(k - 1) + s;
      LeadingBlanksOf(k - 1, s);
    }
  }

  /** Reading digits from a window that starts with a whole number stops at the number's end. */
  lemma {:induction false} DigitRunOf(digits: string, rest: string, w: nat)
    requires AllDigits(digits) && |digits| <= w <= |digits| + |rest|
    requires |rest| == 0 || !IsDigit(rest[0])
    ensures DigitRun((digits + rest)[..w]) == digits
    decreases |digits|
  {
    if |digits| > 0 {
      assert (digits + rest)[..w][1..] == (digits[1..] + rest)[..w - 1];
      DigitRunOf(digits[1..], rest, w - 1);
    } else {
      assert (digits + rest)[..w] == rest[..w];
    }
  }

  // ---------------------------------------------------------------- entry bodies

  /** One step of a divider inside an entry: the trimmed line is appended to the body,
      with no separator, when it is not blank. */
  function AppendLine(body: string, line: string): (r: string)
    ensures r == body + Trim(line)
  {
    var t := Trim(line);
    if |t| > 0 then body + t else body
  }

  /** The body an entry's lines make: the trimmed lines, concatenated. */
  function BodyOf(lines: seq<string>): string
  {
    if |lines| == 0 then "" else Trim(lines[0]) + BodyOf(lines[1..])
  }

  lemma {:induction false} BodyOfAppend(lines: seq<string>, rest: seq<string>)
    ensures BodyOf(lines + rest) == BodyOf(lines) + BodyOf(rest)
    decreases |lines|
  {
    if |lines| == 0 {
      assert lines + rest == rest;
    } else {
      assert (lines + rest)[1..] == lines[1..] + rest;
      BodyOfAppend(lines[1..], rest);
      ConcatAssoc(Trim(lines[0]), BodyOf(lines[1..]), BodyOf(rest));
    }
  }
}
