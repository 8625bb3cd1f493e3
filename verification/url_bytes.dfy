/** `extractURL` of the current converter (pkg/gobib/api.go) at the level Go runs it: a Go
    string is a sequence of bytes, and the loop appends `string(line[i])` for each byte
    of the URL. Converting a byte to a string makes the byte a rune and encodes that rune
    in UTF-8, so every byte from 0x80 up comes out as two bytes. Bytes are written here
    as characters below 0x100, which lets the character-level `Tex.ExtractURL` read a
    byte string unchanged: on bytes it is the corrected extractor, which copies the URL's
    bytes as they are. */
module UrlBytes {
  import opened Text
  import opened Tex

  /** A Go string seen byte by byte: every element is below 0x100. */
  predicate IsByteString(s: string) {
    forall i | 0 <= i < |s| :: s[i] as int < 0x100
  }

  /** The UTF-8 encoding of one Unicode scalar value, as bytes. */
  function RuneBytes(c: char): (r: string)
    ensures |r| == Utf8Width(c)
    ensures IsByteString(r)
    ensures c as int < 0x80 ==> r == [c]
    ensures c as int >= 0x80 ==> forall i | 0 <= i < |r| :: r[i] as int >= 0x80
  {
    var n := c as int;
    if n < 0x80 then [c]
    else if n < 0x800 then
      [(0xC0 + n / 0x40) as char, (0x80 + n % 0x40) as char]
    else if n < 0x10000 then
      [(0xE0 + n / 0x1000) as char, (0x80 + n / 0x40 % 0x40) as char, (0x80 + n % 0x40) as char]
    else
      [(0xF0 + n / 0x40000) as char, (0x80 + n / 0x1000 % 0x40) as char,
       (0x80 + n / 0x40 % 0x40) as char, (0x80 + n % 0x40) as char]
  }

  /** Go's conversion of a string of runes to its UTF-8 bytes. */
  function Encode(s: string): (r: string)
    ensures IsByteString(r)
    decreases |s|
  {
    if |s| == 0 then ""
    else
      var head, tail := RuneBytes(s[0]), Encode(s[1..]);
      assert forall i | |head| <= i < |head + tail| :: (head + tail)[i] == tail[i - |head|];
      head + tail
  }

  /** The loop of `extractURL` as written: after the last `\url{`, each byte up to the
      next '}' is appended as `string(line[i])`, that is, re-encoded as a rune. The
      result is the corrected URL encoded once more. */
  method ExtractURLAsWritten(line: string) returns (url: string)
    requires IsByteString(line)
    ensures !Contains(line, UrlToken) ==> url == ""
    ensures url == Encode(ExtractURL(line))
    ensures IsAscii(ExtractURL(line)) ==> url == ExtractURL(line)
  {
    url := "";
    var start := LastIndexOf(line, UrlToken);
    LastIndexOfNone(line, UrlToken);
    if start == -1 {
      return;
    }
    var rest := line[start + 5..];
    ghost var u := TakeUntil(rest, '}');
    ghost var taken := 0;
    var i := start + 5;
    while i < |line|
      invariant start + 5 <= i <= |line|
      invariant 0 <= taken <= |u| && url == Encode(u[..taken])
      invariant i < |line| ==> taken == i - (start + 5)
      invariant i == |line| ==> taken == |u|
      decreases |line| - i
    {
      assert rest[taken] == line[i];
      TakeStep(rest, taken);
      if line[i] != '}' {
        url := url + RuneBytes(line[i]);
        i := i + 1;
        taken := taken + 1;
      } else {
        i := |line|;
      }
    }
    assert u[..taken] == u;
    EncodeAscii(ExtractURL(line));
  }

  /** One more byte of the URL, or the '}' that ends it. */
  lemma TakeStep(rest: string, taken: nat)
    requires taken < |rest| && taken <= |TakeUntil(rest, '}')|
    ensures var u := TakeUntil(rest, '}');
      && (rest[taken] != '}' ==>
            taken < |u| && Encode(u[..taken + 1]) == Encode(u[..taken]) + RuneBytes(rest[taken]))
      && (rest[taken] == '}' ==> taken == |u|)
  {
    var u := TakeUntil(rest, '}');
    PrefixStep(rest, u, taken);
    if rest[taken] != '}' {
      EncodeSnoc(u[..taken], rest[taken]);
    }
  }

  /** The same step for any '}'-free prefix that stops at a '}' or the end. */
  lemma PrefixStep(rest: string, u: string, taken: nat)
    requires StartsWith(rest, u) && '}' !in u && (|u| == |rest| || rest[|u|] == '}')
    requires taken < |rest| && taken <= |u|
    ensures rest[taken] != '}' ==> taken < |u| && u[..taken + 1] == u[..taken] + [rest[taken]]
    ensures rest[taken] == '}' ==> taken == |u|
  {
    if taken < |u| {
      assert u[taken] == rest[..|u|][taken] == rest[taken];
    }
  }

  // ---------------------------------------------------------------- encoding facts

  lemma {:induction false} EncodeAppend(a: string, b: string)
    ensures Encode(a + b) == Encode(a) + Encode(b)
    decreases |a|
  {
    if |a| > 0 {
      assert (a + b)[0] == a[0];
      assert (a + b)[1..] == a[1..] + b;
      EncodeAppend(a[1..], b);
    } else {
      assert a + b == b;
    }
  }

  lemma EncodeSnoc(a: string, c: char)
    ensures Encode(a + [c]) == Encode(a) + RuneBytes(c)
  {
    EncodeAppend(a, [c]);
    assert [c][1..] == "";
  }

  /** The encoding takes exactly the UTF-8 length of the text. */
  lemma {:induction false} EncodeLength(s: string)
    ensures |Encode(s)| == Utf8Len(s)
    decreases |s|
  {
    if |s| > 0 {
      EncodeLength(s[1..]);
    }
  }

  /** ASCII text is its own encoding. */
  lemma {:induction false} EncodeAscii(s: string)
    ensures IsAscii(s) ==> Encode(s) == s
    decreases |s|
  {
    if |s| > 0 && IsAscii(s) {
      assert IsAscii(s[1..]);
      EncodeAscii(s[1..]);
      assert s == [s[0]] + s[1..];
    }
  }

  /** Text with a character from 0x80 up takes more bytes than characters. */
  lemma {:induction false} Utf8LenGrows(s: string)
    ensures !IsAscii(s) ==> Utf8Len(s) > |s|
    decreases |s|
  {
    if |s| > 0 && !IsAscii(s) {
      if s[0] as int < 0x80 {
        assert !IsAscii(s[1..]) by {
          var k :| 0 <= k < |s| && s[k] as int >= 0x80;
          assert s[1..][k - 1] == s[k];
        }
      }
      Utf8LenGrows(s[1..]);
      if IsAscii(s[1..]) {
        Utf8LenAscii(s[1..]);
      }
    }
  }

  /** Encoding leaves a text unchanged exactly when it is ASCII. */
  lemma EncodeFixed(s: string)
    ensures Encode(s) == s <==> IsAscii(s)
  {
    EncodeAscii(s);
    EncodeLength(s);
    Utf8LenGrows(s);
  }

  /** The encoding of a text with a character from 0x80 up has a byte from 0x80 up. */
  lemma EncodeKeepsNonAscii(u: string)
    ensures !IsAscii(u) ==> !IsAscii(Encode(u))
  {
    if !IsAscii(u) {
      var k :| 0 <= k < |u| && u[k] as int >= 0x80;
      var a, b := u[..k], u[k..];
      assert a + b == u;
      EncodeAppend(a, b);
      assert b == [u[k]] + b[1..];
      var r := RuneBytes(u[k]);
      assert Encode(b) == r + Encode(b[1..]);
      assert Encode(u)[|Encode(a)|] == r[0];
    }
  }

  /** An ASCII character other than the ones in the text never appears in its
      encoding. */
  lemma {:induction false} EncodeAvoids(s: string, c: char)
    requires c as int < 0x80 && c !in s
    ensures c !in Encode(s)
    decreases |s|
  {
    if |s| > 0 {
      EncodeAvoids(s[1..], c);
    }
  }

  // ---------------------------------------------------------------- the finding

  /** The line `prefix\url{u}suffix` in UTF-8 bytes. */
  function UrlLine(prefix: string, u: string, suffix: string): string {
    Encode(prefix) + UrlToken + Encode(u) + "}" + Encode(suffix)
  }

  lemma UrlLineBytes(prefix: string, u: string, suffix: string)
    ensures IsByteString(UrlLine(prefix, u, suffix))
  {
    var line := UrlLine(prefix, u, suffix);
    var a, b, c, d := |Encode(prefix)|, |UrlToken|, |Encode(u)|, |Encode(suffix)|;
    forall i | 0 <= i < |line| ensures line[i] as int < 0x100 {
      if i < a {
        assert line[i] == Encode(prefix)[i];
      } else if i < a + b {
        assert line[i] == UrlToken[i - a];
      } else if i < a + b + c {
        assert line[i] == Encode(u)[i - a - b];
      } else if i > a + b + c {
        assert line[i] == Encode(suffix)[i - a - b - c - 1];
      }
    }
  }

  /** Read from the line's bytes, the corrected extractor gives the URL's own bytes. */
  lemma CorrectedKeepsBytes(prefix: string, u: string, suffix: string)
    requires '}' !in u && '\\' !in u && '\\' !in suffix
    ensures ExtractURL(UrlLine(prefix, u, suffix)) == Encode(u)
  {
    var eu, es := Encode(u), Encode(suffix);
    EncodeAvoids(u, '}');
    EncodeAvoids(u, '\\');
    EncodeAvoids(suffix, '\\');
    assert '\\' !in eu + "}" + es;
    NoUrlWithoutBackslash(eu + "}" + es);
    ExtractURLOf(Encode(prefix), eu, es);
  }

  /** Read from the same bytes, `extractURL` as written encodes the URL twice, which
      changes it exactly when it holds a character from 0x80 up. */
  method AsWrittenEncodesTwice(prefix: string, u: string, suffix: string) returns (url: string)
    requires '}' !in u && '\\' !in u && '\\' !in suffix
    ensures url == Encode(Encode(u))
    ensures url == Encode(u) <==> IsAscii(u)
  {
    var line := UrlLine(prefix, u, suffix);
    UrlLineBytes(prefix, u, suffix);
    url := ExtractURLAsWritten(line);
    CorrectedKeepsBytes(prefix, u, suffix);
    EncodeFixed(Encode(u));
    EncodeAscii(u);
    EncodeKeepsNonAscii(u);
  }

  /** `\url{\U{E9}}`, an e with an acute accent: its two bytes C3 A9 come out as the four
      bytes C3 83 C2 A9. */
  method AsWrittenExample() returns (url: string)
    ensures url == "\U{C3}\U{83}\U{C2}\U{A9}"
    ensures url != Encode("\U{E9}")
  {
    url := AsWrittenEncodesTwice("", "\U{E9}", "");
    assert RuneBytes('\U{E9}') == "\U{C3}\U{A9}";
    assert Encode("\U{E9}") == "\U{C3}\U{A9}";
    assert RuneBytes('\U{C3}') == "\U{C3}\U{83}";
    assert RuneBytes('\U{A9}') == "\U{C2}\U{A9}";
    EncodeAppend("\U{C3}", "\U{A9}");
    assert "\U{C3}\U{A9}" == "\U{C3}" + "\U{A9}";
  }
}
