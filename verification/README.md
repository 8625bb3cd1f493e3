# gobib in Dafny

gobib turns the `thebibliography` environment of a LaTeX document into BibTeX
`@online` entries. This project models both of its converters:

- **The current converter** (`pkg/gobib/api.go`). It is a pipeline of three stages:
  - the *divider* skips to the first `\bibitem{` and cuts the text into raw records,
    one per `\bibitem{`, until `\end{thebibliography}`;
  - the *parser* splits each record's body on commas and assigns the tokens to
    authors, title, year and URL, by their count and by what `extractURL` and
    `extractYear` find. It then applies the configured defaults, trims the
    title and every author (the URL and the key are kept as read), and synthesises
    a key when the record has none;
  - the *writer* emits each entry followed by a blank line.
- **The legacy converter** (`api.go`). It has a simpler divider that gives bodies
  without keys, and three entry types (`BasicBibtexEntry`, `URLBibtexEntry`,
  `OnlineEntry`) with their own BibTeX text.

Modelling choices:

- **Text** is a `string`, a sequence of Unicode scalar values. Go's `len` is
  modelled as the UTF-8 byte length `Text.Utf8Len`. Module `UrlBytes` works on
  bytes, to show how `extractURL` treats them (see Findings).
- **The reader** is an `Input`: the lines `bufio.Reader.ReadLine` delivers, then how
  reading stops (`Eof`, or `ReadError` with the reader's message).
- **Go panics are preconditions:**
  - `GenKey` and the legacy `Key` need at least one author;
  - `extractKey` must not find the last '}' before the first '{' (`Tex.KeyPanics`,
    required of every marker the divider reads, by `Divider.SeekSafe`);
  - the legacy `OnlineEntry.String` needs a visit date.
- **`fmt.Sscanf(line, "%4d", &year)`** is `Tex.ScanInt4`. Leading blanks are skipped
  (a newline stops the scan), then an optional sign and digits are read, at most four
  characters in all, and at least one digit is required.
- **`time.Time`** is a `Format.Date` triple.
- **The goroutines are taken out.** `Pipeline.Convert` feeds the divider's records
  through the parser in order, renders them, and reports how the divider ended.

Modules, in dependency order:

| module | contents |
|---|---|
| `Wrappers` | `Option` and `Result` |
| `Text` | Go's `strings` functions the converters use |
| `Decimal` | `%d` |
| `Format` | the `%s-%d-%s` key and the `%d-%d-%d` date |
| `Tex` | the markers, `extractKey`, `extractURL` and `extractYear`, and how a divider folds lines into a body |
| `Divider`, `Parser`, `Entries`, `Pipeline` | the current converter |
| `LegacyDivider`, `LegacyEntries` | the legacy converter |
| `UrlBytes` | `extractURL` at byte level |
| `Scenarios` | the repository's tests, worked through the model |

## Model

| member | source | states |
|---|---|---|
| Text.TrimUnique | pkg/gobib/api.go:354-357 | `strings.TrimSpace` is characterised independently of how it is computed: any slice without white space at its ends, surrounded only by white space, is the trim |
| Text.TrimIdempotent | pkg/gobib/api.go:448-451 | trimming a trimmed field again changes nothing |
| Text.SplitJoin | pkg/gobib/api.go:377 | `strings.Split` undoes `strings.Join`: comma-free parts joined with ',' split back into exactly those parts |
| Tex.BodyOfAppend | pkg/gobib/api.go:351-358 | the body of consecutive line groups is the concatenation of their bodies |
| Decimal.DecimalRoundTrip | pkg/gobib/api.go:109 | `%d` of a natural number reads back as that number |
| Decimal.DecimalRoundTripBack | pkg/gobib/api.go:109 | digits without a leading zero, read and printed again, are the same text |
| Format.DashKeySplit | pkg/gobib/api.go:109 | the `%s-%d-%s` key of a dash-free title and author and a non-negative year splits on '-' back into title, year digits and author, and the year digits read back as the year |
| Format.FormatDateSplit | pkg/gobib/api.go:144-145 | the `%d-%d-%d` visit date splits on '-' back into its three numbers |
| Tex.ExtractKey | pkg/gobib/api.go:215-231 | `ErrSyntax` exactly when the line has no `\bibitem{` or no '}'; otherwise the key lies right after the first '{' and right before the last '}' |
| Tex.ExtractKeyOfMarker | pkg/gobib/api.go:215-231 | `\bibitem{k}` gives back `k`, whatever comes before it without a '{' and after it without a '}' |
| Tex.ExtractURL | pkg/gobib/api.go:236-255 | "" when there is no `\url{`; otherwise the text after the last `\url{` up to the next '}' or the end of the line, with no '}' in it |
| Tex.ExtractURLOf | pkg/gobib/api.go:236-255 | `\url{u}` reads back as `u` when no later `\url{` follows |
| Tex.ExtractURLTwice | pkg/gobib/api.go:236-255 | an extracted URL never holds `\url{`, so extracting again gives "" |
| Tex.ExtractYear | pkg/gobib/api.go:257-264 | the number `%4d` scans when it is not zero and the field is at most six bytes long, and 0 otherwise: when the field is longer, or does not start, after blanks, with a number; years lie in -999..9999 |
| Tex.ScanNumberOfDecimal | pkg/gobib/api.go:259 | `%4d` reads the decimal text of any value in -999..9999 back as that value, whatever non-digit text follows |
| Tex.ExtractYearWidth | pkg/gobib/api.go:259-263 | the width of four cuts a run of five or six digits: the field gives the number its first four digits make, when that is not zero |
| Tex.ExtractYearOfDecimal | pkg/gobib/api.go:257-264 | a non-zero year written in decimal, after spaces and before non-digit text, is extracted as itself when the field stays within six bytes |
| Divider.Seek | pkg/gobib/api.go:290-312 | the first loop gives no record exactly when no line is a marker, and then fails with `ErrBibEmpty` (or the reader's error) |
| Divider.Collect | pkg/gobib/api.go:314-359 | inside an item, the current item is always sent first, and the division is closed or fails with `ErrBibUnclosed` or the reader's error |
| Divider.FindFirstItem | pkg/gobib/api.go:290-312 | the Go loop stops just past the first marker with its key, and from there it agrees with `Seek` |
| Divider.CollectItemsFrom | pkg/gobib/api.go:314-359 | the flag-driven Go loop sends the same records and ends the same way as `Collect` |
| Divider.ReadItemLine | pkg/gobib/api.go:334-358 | one pass of the second loop: a marker pushes the record and starts the next, an end line pushes it and stops, any other line grows the body; the rest of the division is unchanged |
| Divider.RunDivider | pkg/gobib/api.go:273-360 | the divider as written agrees with the functional `Divide` on every input |
| Divider.SeekSkips | pkg/gobib/api.go:290-312 | lines before the first marker affect neither the result nor the absence of panics |
| Divider.DivideLayout | pkg/gobib/api.go:273-360 | a bibliography laid out as skipped lines, items and a closing line divides into exactly each item's key and trimmed body, in order; it is closed when an end line follows the items and fails with `ErrBibUnclosed` or the reader's error otherwise |
| Parser.Disambiguate | pkg/gobib/api.go:384-431 | the `switch tokenLen` case by case: 1 token is a title; 2 are an author and a title, empty when there is a URL; 3 depend on the URL and the year; 4 or more give the authors as a prefix, then the title, then exactly one token for a year and one for a URL when there are ones |
| Parser.DisambiguateLayout | pkg/gobib/api.go:384-431 | the tokens of authors, title, optional year and optional URL are assigned back to exactly those authors, title and year, for every count of tokens |
| Parser.AssignTexBody | pkg/gobib/api.go:377-431 | a body written as `authors, title, year, \url{...}` holds a comma, and its comma-split tokens are assigned back to the authors and the title (each with the space after its comma) and to the year |
| Parser.Parse | pkg/gobib/api.go:433-460 | the entry takes the trimmed assigned authors and title, the extracted URL, the default visit date, the year or else the default year, and the record's key or else the synthesised one; the title and every author are trimmed, while the URL and the key are kept as read |
| Parser.ParseRoundTrip | pkg/gobib/api.go:364-463 | parsing a body written the usual way gives back its authors, title, year (or the default) and URL, with the record's key or the synthesised one |
| Entries.GenKey | pkg/gobib/api.go:108-112 | the key is the title, a dash, the year in decimal, a dash and the first author, at the stated positions |
| Entries.GenKeySplit | pkg/gobib/api.go:108-112 | a synthesised key splits on '-' back into title, year and first author when they hold no dash |
| Entries.NewBasicEntry | pkg/gobib/api.go:92-105 | the given fields are kept; a non-empty key is kept and an empty one is replaced by the synthesised key |
| Entries.AuthorsToStringAppend | pkg/gobib/api.go:116-118 | adding an author appends ` and ` and that author |
| Entries.BasicStringSplit | pkg/gobib/api.go:121-139 | read line by line, the entry is its `@online{key,` header, the author, title and year lines, the url line only when there is a URL, and the closing brace |
| Entries.AdvancedStringSplit | pkg/gobib/api.go:141-152 | the advanced entry is the basic entry's lines, then a `urldate` line exactly when there is a visit date, then the closing brace |
| Entries.AdvancedExtendsBasic | pkg/gobib/api.go:141-148 | without a visit date the advanced entry prints as its basic entry; with one, the basic text comes first, unchanged |
| Entries.WrittenSplit | pkg/gobib/api.go:481-487 | what the writer emits for one entry is its lines, the closing brace and a blank line |
| Pipeline.RenderSplit | pkg/gobib/api.go:481-490 | read line by line, the output is each entry's lines with its closing brace and blank line, in order, and nothing after the last newline |
| Pipeline.RenderAppend | pkg/gobib/api.go:481-490 | writing more entries appends their text to what was written |
| Pipeline.ConvertLayout | pkg/gobib/api.go:364-490 | a bibliography laid out as items converts to one entry per item, parsed from its key and body, and ends cleanly exactly when an end line follows the items |
| LegacyDivider.LegacySeek | api.go:177-194 | no marker: an "empty" error at end of file, or the reader's error with no entry; the division has no error exactly when there is a marker and reading ends at end of file |
| LegacyDivider.LegacyCollectCount | api.go:196-230 | the second loop sends one body per marker and, at end of file, one more; a read error is passed on without the last body |
| LegacyDivider.SkipToFirstItem | api.go:177-194 | the Go loop stops just past the first marker and from there agrees with `LegacySeek` |
| LegacyDivider.CollectBodies | api.go:196-230 | the Go loop sends the same bodies and error as `LegacyCollect` |
| LegacyDivider.ReadBodyLine | api.go:215-228 | one pass of the second loop leaves the rest of the division unchanged |
| LegacyDivider.RunLegacyDivider | api.go:159-231 | the legacy divider as written agrees with the functional `LegacyDivide` |
| LegacyDivider.LegacySkips | api.go:177-194 | lines before the first marker do not change the division |
| LegacyDivider.LegacyDivideLayout | api.go:159-231 | skipped lines then items divide into every item's body, in order, at end of file, and into all but the last on a read error |
| LegacyDivider.LegacyKeepsEndLine | api.go:221-228 | the legacy divider has no end-of-list test: an end line is read into the last item's body |
| LegacyDivider.EndLineKept | pkg/gobib/api.go:345-350 | on one item closed by an end line, the current divider stops at the end line and the legacy one reads it into the body |
| LegacyEntries.Key | api.go:81-83 | the legacy key is title, dash, year, dash, first author, at the stated positions |
| LegacyEntries.KeySplit | api.go:81-83 | a legacy key splits on '-' back into title, year and first author when they hold no dash |
| LegacyEntries.BasicStringSplit | api.go:92-106 | read line by line, a basic entry is its `@article{key` header, the title, authors and year lines, and the closing brace |
| LegacyEntries.UrlStringSplit | api.go:108-116 | a URL entry is the basic entry's four lines, the quoted URL and the closing brace, with no extra brace from `String` |
| LegacyEntries.OnlineStringSplit | api.go:118-123 | an online entry is the URL entry's lines with the visit date appended after its closing brace |
| LegacyEntries.LegacyExtends | api.go:108-123 | each richer legacy entry starts with the text of the one it extends, unchanged, and the online entry adds a date |
| LegacyEntries.SwappedLabels | api.go:96-106 | the legacy `title` line quotes the joined authors and its `authors` line the title, the reverse of the current converter's lines for the same data |
| UrlBytes.ExtractURLAsWritten | pkg/gobib/api.go:236-255 | the byte loop as written returns the corrected URL encoded once more in UTF-8, which equals it only for ASCII |
| UrlBytes.EncodeFixed | pkg/gobib/api.go:248 | re-encoding bytes as runes leaves a text unchanged exactly when it is ASCII |
| UrlBytes.CorrectedKeepsBytes | pkg/gobib/api.go:236-255 | read from a line's bytes, the corrected extractor gives the URL's own bytes |
| UrlBytes.AsWrittenEncodesTwice | pkg/gobib/api.go:246-252 | on the same bytes the loop as written encodes the URL twice, which changes it exactly when it holds a character from 0x80 up |
| UrlBytes.AsWrittenExample | pkg/gobib/api.go:246-252 | `\url{é}` comes out as the four bytes C3 83 C2 A9 instead of C3 A9 |
| Scenarios.KeyFromLine | pkg/gobib/api_test.go:265-275 | `\bibitem{item}` gives the key `item` |
| Scenarios.ExtractURLExample | pkg/gobib/api_test.go:277-283 | `hello, \url{example.com/golang}, hey` gives `example.com/golang` |
| Scenarios.ExtractEmptyURL | pkg/gobib/api_test.go:285-290 | a line without `\url{` gives "" |
| Scenarios.NewWithoutKey | pkg/gobib/api_test.go:373-380 | a missing key becomes `bar-2018-foo` |
| Scenarios.DividerOk | pkg/gobib/api_test.go:194-229 | `correctBibliography` divides into the records `wcf` and `wcdf` with their bodies, and the list is closed |
| Scenarios.DividerNoEnd | pkg/gobib/api_test.go:231-246 | `wrongBibliography` divides into its two records and fails with `ErrBibUnclosed` |
| Scenarios.ParserWcf | pkg/gobib/api_test.go:36-56 | the first record of `bib` parses to `Ross Anderson`, `Why Cryptosystems Fail`, 1909 and `example.com/ra/wcf.pdf` |
| Scenarios.ParserWcdf | pkg/gobib/api_test.go:292-323 | the second record of `bib` parses to its author and title, with the default year 1900 of `TestParser` |
| Scenarios.ParserAass | pkg/gobib/api_test.go:63-68 | the third record of `bib` parses to `Asking Alexandria`, `Someone Somewhere` and 2011 |
| Scenarios.LegacyDivider1 | api_test.go:66-85 | the legacy test bibliography divides into two entries |
| Scenarios.LegacyTwoItems | api_test.go:27-33 | two markers with their lines after a blank line give their two bodies and no error |

## Left out

- Goroutines, channels and the race between the error channel and the ok channel
  (pkg/gobib/api.go:472-490) are left out. `Pipeline.Convert` returns every entry,
  the text written and the divider's outcome together. A `Divider.Division` likewise holds the records
  and the outcome apart, without their order on the channels: when the list is not
  closed, Go sends the error before the last record (pkg/gobib/api.go:323-330).
- `bufio.Reader.ReadLine` is modelled as the list of lines it returns. Its `isPrefix`
  results for very long lines and its handling of a carriage return are left out.
- `log.Printf` in the legacy divider (api.go:204) has no effect on the result.
- `cmd/gobib` (flags, files, the command line) is left out.
- The rendered-output fixtures in pkg/gobib/api_test.go expect a `{{...}}` layout and
  use an `Entry` type and a `NewEntry` function that pkg/gobib/api.go does not
  define, so they are not modelled. `Scenarios.NewWithoutKey` uses `NewBasicEntry`
  instead.
- Go distinguishes a nil list from an empty one in the legacy divider; the model
  does not.
- `fmt` is modelled only for the verbs the converters use: `%s`, `%d` and `%4d`.
- Text is Unicode scalars everywhere except in `UrlBytes`. A string that is not
  valid UTF-8 cannot be stated outside that module.
- `TestEmptyDivider` is covered by the ensures of `Divider.Seek`: no marker gives
  `ErrBibEmpty` at end of file. It has no scenario lemma of its own.
- The entry values of `bibResult` in pkg/gobib/api_test.go leave the year of the
  second entry at 0. `ExtendedBibtexEntryEqual` compares years only when both are
  non-zero, so that 0 is never compared.
  `Scenarios.ParserWcdf` states the default year 1900 that the parser sets.
- The parser scenarios start from record bodies written with `Parser.TexBody`, the
  comma-and-space layout of `bib`'s lines, rather than from the literal lines. The
  divider scenarios start from the literal lines.
- Parser.Parse: a record with neither a key nor a comma in its body makes Go's
  `GenKey` panic, so `Parser.Parseable` excludes it.
- Parser.Parse: the entry's URL is the corrected extractor's (`Tex.ExtractURL`). Go's
  differs for a URL holding a byte from 0x80 up, which it re-encodes (see Findings);
  `Pipeline.Convert` inherits this.
- LegacyEntries.OnlineString: requires a visit date, because Go dereferences the nil
  `Visited` pointer.

## Findings

| source | as written | input that shows it | evidently intended | confidence | as-written member | corrected member |
|---|---|---|---|---|---|---|
| pkg/gobib/api.go:246-252 | `url += string(line[i])` converts each byte of the URL to a rune and encodes that rune in UTF-8, so every byte from 0x80 up becomes two bytes | `\url{é}`, whose bytes C3 A9 come out as C3 83 C2 A9 | the URL's bytes, copied unchanged | not executed | UrlBytes.ExtractURLAsWritten, UrlBytes.AsWrittenEncodesTwice, UrlBytes.AsWrittenExample | UrlBytes.CorrectedKeepsBytes, with `Tex.ExtractURL` as the extractor the rest of the model uses |
