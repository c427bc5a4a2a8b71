# JWST weekly observing schedule, modelled in Dafny

`jwst_wos.py` is a single script. It shows the James Webb Space Telescope's
weekly observing schedules as a table, and works in three steps:

1. It scans the anchors of the STScI schedules page. It keeps each link
   whose `href` mentions `_report_` and whose file name starts with the
   current year and ends in `.txt`. It prefixes each kept link with
   `https://www.stsci.edu` and takes the first five.
2. It reads each of those reports, a fixed-width text file:
   - line 3 is a ruler whose whitespace-separated runs give the column
     widths (run length plus two, with the last column widened to 300);
   - line 2 holds the column titles;
   - every later line becomes one row, a dictionary from title to stripped
     text.
3. It cleans up the rows in one pass over the list, in place:
   - an empty `VISIT_ID` takes the previous row's id;
   - a `SCHEDULED_START_TIME` of `^ATTACHED TO PRIME^` or `""` takes the
     previous row's start text;
   - the start text is then parsed with `strptime(..., "%Y-%m-%dT%H:%M:%SZ")`;
   - a non-empty `DURATION` keeps its second `/`-separated part.

The Dafny modules follow these steps:

- `Wrappers`: `Option`, `Result` and `Outcome`.
- `PyStr`: the Python string operations the script relies on, each proved
  against an inverse or a characterisation. These are `strip`, `split()`,
  `split(sep)`, `splitlines`, slicing with clamped bounds,
  `replace(" ", "_")`, `in`, `startswith`, `endswith` and `str(int)`.
- `Timestamps`: which strings `strptime` accepts for the script's format, and
  the `datetime` it builds. It includes calendar validity, with a round trip
  through the canonical rendering.
- `Records`: a row is a `map<string, Value>`, built by `dict(zip(...))`.
- `Locator`: the link filter loop and the `LOOKBACK` cut.
- `FixedWidth`: widths, offsets, titles, values and records, and the loop
  over the reports.
- `Normalizer`: the clean-up pass. It is a method over an `array<Record>`
  that updates rows in place, carrying `prev_vid` and `prev_sst`. It is
  proved equal to a left fold, and the fold is proved against reference
  definitions of "the nearest earlier id" and "the nearest earlier start
  time".
- `Schedule`: the three steps chained together, as the script runs them.

## Model

| member | source | states |
|---|---|---|
| PyStr.IsSpace | jwst_wos.py:40 | the characters `str.isspace()` accepts, which `strip()` drops and `split()` splits at (lines 40, 45 and 48) (no contract; a predicate that `LeadingSpace`, `TrailingStart` and `Tokens` are stated over) |
| PyStr.LeadingSpace | jwst_wos.py:45-48 | the count of leading characters `strip` drops: all whitespace, and the next character is not |
| PyStr.TrailingStart | jwst_wos.py:45-48 | where the trailing whitespace that `strip` drops begins: all whitespace after it, and the character before it is not |
| PyStr.Strip | jwst_wos.py:45-48 | `str.strip()` yields text with no leading or trailing whitespace |
| PyStr.LStrip | jwst_wos.py:45-48 | `lstrip()`: the text after the leading whitespace (no contract; `LeadingSpace` pins the cut) |
| PyStr.RStrip | jwst_wos.py:45-48 | `rstrip()`: the text before the trailing whitespace (no contract; `TrailingStart` pins the cut) |
| PyStr.TrailingStartOfSuffix | jwst_wos.py:45-48 | dropping leading blanks shifts the start of the trailing blanks by the number dropped |
| PyStr.StripIsRStripOfLStrip | jwst_wos.py:45-48 | `strip` equals `rstrip` after `lstrip` |
| PyStr.StripBetween | jwst_wos.py:45-48 | `strip` is the slice between the leading and the trailing whitespace, or empty when the text is all whitespace |
| PyStr.WordLength | jwst_wos.py:40 | the length of the first word: no whitespace before it, whitespace (or the end) right after |
| PyStr.WellFormedCons | jwst_wos.py:40 | helper for the proofs: a non-empty word without whitespace can lead a list of well-formed tokens |
| PyStr.Tokens | jwst_wos.py:40 | `str.split()` yields non-empty tokens without whitespace, and none exactly when the text is all whitespace |
| PyStr.TokensSkipsLeadingSpace | jwst_wos.py:40 | a leading whitespace character of any kind does not change `split()` |
| PyStr.TokensCons | jwst_wos.py:40 | a word followed by whitespace or the end is the first token |
| PyStr.TokensOfJoinWords | jwst_wos.py:40 | `split()` of well-formed tokens joined by blanks gives back the tokens |
| PyStr.JoinWordsCons | jwst_wos.py:40 | helper for the proofs: joining words puts a single blank after the first |
| PyStr.TokensOfWord | jwst_wos.py:40 | a single word splits into itself |
| PyStr.Slice | jwst_wos.py:45-48 | Python's `s[i:j]` for non-negative bounds: at most `j - i` characters, the plain slice within bounds, `s[i:]` when only `j` is past the end (the 300-wide last column), and empty from the end of the text on |
| PyStr.SliceAdjacent | jwst_wos.py:45-48 | two adjacent slices concatenate to the slice over both spans |
| PyStr.ReplaceChar | jwst_wos.py:45 | `replace(" ", "_")` keeps the length and every other character, turns each blank into `_`, and leaves no blank |
| PyStr.FindChar | jwst_wos.py:30-31 | the first position of a character, or the length when the character is absent |
| PyStr.SplitOn | jwst_wos.py:69 | `split(sep)` gives at least one piece |
| PyStr.SplitOnCount | jwst_wos.py:69 | `split(sep)` gives a single piece exactly when `sep` does not occur |
| PyStr.SplitOnPieces | jwst_wos.py:69 | no piece of `split(sep)` contains `sep` |
| PyStr.SplitOnJoinsBack | jwst_wos.py:69 | joining the pieces of `split(sep)` with `sep` gives back the text |
| PyStr.SplitOnJoin | jwst_wos.py:69 | splitting pieces joined by `sep` gives back the pieces, when none contains `sep` |
| PyStr.LastPiece | jwst_wos.py:30-31 | `s.split(sep)[-1]`, the last piece of the split (no contract; `SplitOnLast` characterises it) |
| PyStr.SplitOnLast | jwst_wos.py:30-31 | `split("/")[-1]` is what follows the last `/` |
| PyStr.IsLineBreak | jwst_wos.py:39 | the line boundaries of `splitlines()` (no contract; a predicate that `BreakIndex` and `SplitLines` are stated over) |
| PyStr.BreakIndex | jwst_wos.py:39 | the position of the first line break, with none before it |
| PyStr.SplitLines | jwst_wos.py:39 | no line of `splitlines()` contains a line break |
| PyStr.JoinLines | jwst_wos.py:39 | text whose lines each end with the same line ending; it is empty exactly when there are no lines, and starts with the first line's first character or the ending |
| PyStr.BreakIndexOf | jwst_wos.py:39 | helper for the proofs: the first boundary of a line followed by a boundary is right after the line |
| PyStr.SplitLinesCons | jwst_wos.py:39 | a line and its ending come off the front of `splitlines()` as its first line, unless a lone `\r` ending would pair with a following `\n` |
| PyStr.SplitLinesOfJoin | jwst_wos.py:39 | `splitlines()` gives back the lines of a text whose lines end with `\r\n` or with any one boundary character (`\n`, `\r`, `\v`, `\f`, `\x1c`-`\x1e`, `\x85`, `\u2028`, `\u2029`) |
| PyStr.Contains | jwst_wos.py:29 | `p in s`: `p` starts `s` or is in its tail (no contract; `ContainsAt` and `ContainsOccurs` characterise it) |
| PyStr.StartsWith | jwst_wos.py:30 | `s.startswith(p)`: the first `len(p)` characters are `p` (no contract; see `StartsWithPrefix`) |
| PyStr.EndsWith | jwst_wos.py:31 | `s.endswith(p)`: the last `len(p)` characters are `p` (no contract; see `EndsWithSuffix`) |
| PyStr.ContainsAt | jwst_wos.py:29 | text that occurs at some position is `in` the string |
| PyStr.ContainsOccurs | jwst_wos.py:29 | conversely, text that is `in` the string occurs at some position, which the lemma returns |
| PyStr.StartsWithPrefix | jwst_wos.py:30 | `(a + b).startswith(a)`, and a string that starts with `a` is `a` followed by the rest |
| PyStr.EndsWithSuffix | jwst_wos.py:31 | `(a + b).endswith(b)`, and a string that ends with `b` is the rest followed by `b` |
| PyStr.DigitChar | jwst_wos.py:30 | a digit value is written as a decimal digit |
| PyStr.DigitValue | jwst_wos.py:30 | a decimal digit denotes a value below ten |
| PyStr.DigitsValue | jwst_wos.py:65 | the number a string of decimal digits denotes, as `int()` reads it (no contract; `Timestamps.Digits2Value`, `Timestamps.Digits4Value`, `Timestamps.DigitsValueAppend2` and `DecimalString` characterise it) |
| PyStr.DecimalString | jwst_wos.py:30 | `str(year)` is a non-empty string of digits without a leading zero that denotes the year |
| Timestamps.IsLeapYear | jwst_wos.py:65 | the Gregorian leap-year rule `datetime` uses (no contract; a predicate that `Valid` uses) |
| Timestamps.DaysInMonth | jwst_wos.py:65 | the days of each month, 29 in February of a leap year (no contract; `Valid` bounds the day by it) |
| Timestamps.Valid | jwst_wos.py:65 | the ranges the `datetime` constructor accepts: year 1-9999, month 1-12, day within the month (leap years included), hour, minute and second in range (no contract; a predicate) |
| Timestamps.FieldsMatch | jwst_wos.py:65 | each field matches the pattern `strptime` uses for its directive (no contract; a predicate) |
| Timestamps.Cut | jwst_wos.py:65 | cutting at the first separator: the text is the part before, the separator and the rest, and the part before has no separator; no cut only when there is no separator at all |
| Timestamps.CutAll | jwst_wos.py:65 | cutting at a list of separators yields one more piece than there are separators |
| Timestamps.SplitFields | jwst_wos.py:65 | the year is the first four characters followed by `-`, and the other fields are cut at the format's literals with nothing left over (no contract; `ParseAccepted` and `ParseOfFormatText` characterise it) |
| Timestamps.MatchedFieldsAreDigits | jwst_wos.py:65 | fields that match their directives are digits (after the blank `%d` allows) |
| Timestamps.FieldsValue | jwst_wos.py:65 | the integer conversion of each matched field, a leading blank of the day dropped (no contract; `ParseAccepted`, `ParseOfFormatText` and `RenderParses` characterise it) |
| Timestamps.ParseTimestamp | jwst_wos.py:65 | every `datetime` that `strptime` returns for the format is a valid calendar date and time; `ParseAccepted` and `ParseOfFormatText` give exactly which texts it accepts |
| Timestamps.Digits2 | jwst_wos.py:65 | a number below 100 is written as two digits |
| Timestamps.Digits4 | jwst_wos.py:65 | a year is written as four digits |
| Timestamps.Render | jwst_wos.py:65 | the canonical `YYYY-MM-DDTHH:MM:SSZ` text of a timestamp: 20 characters, four year digits, and the format's literals `-`, `-`, `T`, `:`, `:`, `Z` at their positions (`RenderParses` carries the round trip) |
| Timestamps.CutAt | jwst_wos.py:65 | cutting `a + [c] + b` at a separator set containing `c` and absent from `a` gives `(a, b)` |
| Timestamps.DigitsValue2 | jwst_wos.py:65 | two digits denote ten times the first plus the second |
| Timestamps.Digits2Value | jwst_wos.py:65 | two written digits denote the number written, with no blank to drop |
| Timestamps.DigitsValueAppend2 | jwst_wos.py:65 | appending two digits multiplies the value by 100 and adds theirs |
| Timestamps.Digits4Value | jwst_wos.py:65 | four written digits denote the year written |
| Timestamps.RenderedFieldsMatch | jwst_wos.py:65 | each written field of a valid timestamp matches its directive's pattern |
| Timestamps.DigitsAreNotSeparators | jwst_wos.py:65 | helper for the proofs: digits are none of the format's literal characters |
| Timestamps.CutAllAt | jwst_wos.py:65 | cutting `a + [c] + b` at `[sep] + seps` gives `a` followed by the pieces of `b` |
| Timestamps.CutClockFields | jwst_wos.py:65 | the time part `h:m:sZ` cuts into hour, minute, second and nothing left over |
| Timestamps.CutDigitFields | jwst_wos.py:65 | the text after the year cuts into month, day, hour, minute, second and nothing left over |
| Timestamps.RenderSplits | jwst_wos.py:65 | the canonical text splits into exactly the six written fields |
| Timestamps.RenderParses | jwst_wos.py:65 | `strptime` of the canonical text of any valid timestamp gives back that timestamp |
| Timestamps.Interleave | jwst_wos.py:65 | helper for the proofs: pieces with one literal character between each two (no contract) |
| Timestamps.CutAllOfInterleave | jwst_wos.py:65 | cutting at the separator sets in turn gives back pieces that were interleaved with one separator each and avoid their own set |
| Timestamps.CutAllInterleaves | jwst_wos.py:65 | conversely, whatever the cuts succeed on is the interleaving of the pieces with the separators found, each piece avoiding its set |
| Timestamps.FieldPieces | jwst_wos.py:65 | helper for the proofs: the five fields after the year and the empty rest |
| Timestamps.FormatText | jwst_wos.py:65 | the text of the format for given field texts and literal characters (no contract) |
| Timestamps.MatchedFieldsSeparate | jwst_wos.py:65 | helper for the proofs: matched fields contain none of the format's literals |
| Timestamps.ParseAccepted | jwst_wos.py:65 | every text `strptime` accepts is a year, `-`, and five fields each followed by its literal (`-`, `T`/`t`, `:`, `:`, `Z`/`z`), every field matching its pattern, and the result is the date-time the fields denote |
| Timestamps.ParseOfFormatText | jwst_wos.py:65 | conversely, every such text is accepted with that date-time when the fields form a valid date-time, and rejected otherwise |
| Records.Zip | jwst_wos.py:49 | `dict(zip(keys, vals))` (no contract; `ZipPrefix`, `ZipPrefixLast` and `ZipLast` characterise it) |
| Records.ZipPrefix | jwst_wos.py:49 | `dict(zip(...))` over the first `n` pairs has exactly the first `n` titles as keys and only values from the first `n` texts |
| Records.ZipPrefixLast | jwst_wos.py:49 | a key maps to the text paired with its last occurrence |
| Records.ZipLast | jwst_wos.py:49 | in `dict(zip(keys, vals))` a key not repeated later maps to its own value |
| Locator.FileName | jwst_wos.py:30-31 | `href.split("/")[-1]`, the file name of the link (no contract; `FileNameOfPath` and `SplitOnLast` characterise it) |
| Locator.IsReportHref | jwst_wos.py:29-31 | the link test: the link contains `_report_` and its file name starts with the year and ends with `.txt` (no contract; see `ReportHrefOfPath` and `KeptHrefShape`) |
| Locator.FileNameOfPath | jwst_wos.py:30-31 | the file name of `dir/name` is `name` |
| Locator.ReportHrefOfPath | jwst_wos.py:29-31 | a link `dir/name` passes the filter exactly when it contains `_report_` and `name` starts with the year and ends with `.txt` |
| Locator.KeptHrefShape | jwst_wos.py:29-31 | a kept link holds `_report_` at a position the lemma returns, and its file name is the year followed by the rest, and the rest followed by `.txt` |
| Locator.SelectPrefix | jwst_wos.py:27-33 | the scan of the first `n` anchors, stopping at the first without `href` (no contract; `SelectPrefixFails` and `SelectPrefixFinds` characterise it) |
| Locator.SelectLinks | jwst_wos.py:27-33 | the scan of all anchors (no contract; `SelectLinksSpec` characterises it) |
| Locator.MatchIndices | jwst_wos.py:27-32 | the positions of the matching anchors, increasing, and containing exactly the matching anchors |
| Locator.SelectPrefixFails | jwst_wos.py:27-33 | the scan of a prefix fails exactly when an anchor in it has no `href`, naming the first such anchor |
| Locator.SelectPrefixFinds | jwst_wos.py:27-33 | a successful scan yields `STSCI_URL + href` for exactly the matching anchors, in page order |
| Locator.SelectLinksSpec | jwst_wos.py:27-33 | the scan fails exactly when an anchor lacks an `href`, naming the first. Otherwise every link is the prefixed `href` of a matching anchor, in page order, and every matching anchor is represented |
| Locator.FailureIsFinal | jwst_wos.py:27-33 | once the scan has failed, scanning further anchors keeps the same error |
| Locator.SelectReportLinks | jwst_wos.py:25-33 | the loop over the anchors computes exactly the selected links or the `KeyError` |
| Locator.Lookback | jwst_wos.py:38 | `[:LOOKBACK]` keeps at most five links, exactly `min(5, n)` of them, and they are the first ones in order |
| FixedWidth.ColumnWidths | jwst_wos.py:40-42 | one width per ruler run: run length plus two, except the last, which is 300 |
| FixedWidth.Offsets | jwst_wos.py:43 | `accumulate(initial=0)`: one more offset than widths, starting at 0, each the previous plus the width |
| FixedWidth.OffsetIsSum | jwst_wos.py:43 | offset `k` is the sum of the first `k` widths |
| FixedWidth.OffsetsIncrease | jwst_wos.py:43 | offsets never decrease, and strictly increase when every width is positive |
| FixedWidth.SpanExists | jwst_wos.py:43-48 | every position before the total width lies in some column span |
| FixedWidth.SpanUnique | jwst_wos.py:43-48 | no position lies in two column spans |
| FixedWidth.SpansPartition | jwst_wos.py:43-48 | the spans partition the positions up to the total width |
| FixedWidth.SpansCover | jwst_wos.py:43-48 | the slices over consecutive spans concatenate to the line's prefix up to the last offset |
| FixedWidth.Titles | jwst_wos.py:44-46 | one title per column, each stripped and without blanks |
| FixedWidth.TitleOf | jwst_wos.py:45 | a title has no blank, is stripped, and has the length of the stripped header slice |
| FixedWidth.Values | jwst_wos.py:48 | one stripped value per column, empty for a column that starts past the end of the line |
| FixedWidth.ValueOf | jwst_wos.py:48 | a value is stripped, and empty when its span starts past the line's end |
| FixedWidth.LayoutOf | jwst_wos.py:39-43 | the layout exists exactly when the ruler line exists and has runs; otherwise the error says which. The offsets start at 0 and have at least two entries |
| FixedWidth.ReportRecords | jwst_wos.py:47-49 | one record per line from line 4 on |
| FixedWidth.RowRecord | jwst_wos.py:48-49 | the record of one data line, `dict(zip(col_titles, wtl))` (no contract; `RowRecordShape`, `RowRecordValue` and `ReportRecordAt` characterise it) |
| FixedWidth.RowRecordShape | jwst_wos.py:47-49 | a row's keys are the report's titles and every value is stripped text |
| FixedWidth.RowRecordValue | jwst_wos.py:47-49 | a title not repeated later maps to the stripped text of its column |
| FixedWidth.ValuesAt | jwst_wos.py:48 | value `k` is the stripped slice of span `k` |
| FixedWidth.ReportRecordAt | jwst_wos.py:47-49 | the record for line `l` zips the titles with that line's values |
| FixedWidth.ReportRecordsShape | jwst_wos.py:47-49 | every record of a report has the report's titles as keys and stripped values |
| FixedWidth.ParseReport | jwst_wos.py:39-49 | one report: its layout, then one record per data line (no contract; `ParseReportSpec` characterises it) |
| FixedWidth.ParseReportSpec | jwst_wos.py:39-49 | a report parses exactly when it has at least four lines and a non-blank ruler, otherwise it gives the matching error. On success it yields `len(lines) - 4` records with the titles as keys and stripped values |
| FixedWidth.CollectPrefix | jwst_wos.py:37-49 | `wos_data` after the first `n` reports: their records in order, or the error of the first report that failed (no contract; `CollectFails`, `CollectRecords`, `CollectRecordAt`, `CollectSucceeds` and `CollectStops` characterise it) |
| FixedWidth.Collect | jwst_wos.py:37-49 | `wos_data` after all reports (no contract; the `Collect` lemmas above characterise it) |
| FixedWidth.ParseAll | jwst_wos.py:37-49 | every report parsed and the records collected in order, or the first report error (no contract; the `Collect` lemmas characterise it) |
| FixedWidth.CollectFails | jwst_wos.py:37-49 | reading reports fails exactly when one fails, and then names the first failing report and its reason |
| FixedWidth.RecordCountBound | jwst_wos.py:37-49 | the record count of earlier reports never exceeds that of later ones |
| FixedWidth.CollectRecords | jwst_wos.py:37-49 | `wos_data` is each report's records in turn: report `j`'s record `k` sits after all records of earlier reports |
| FixedWidth.CollectSucceeds | jwst_wos.py:37-49 | when every report parses, the collected records number the sum of the reports' counts |
| FixedWidth.CollectRecordAt | jwst_wos.py:37-49 | record `k` of report `j` is found at position `RecordCount(j) + k` of `wos_data` |
| FixedWidth.CollectStops | jwst_wos.py:37-49 | after a failing report, later reports do not change the outcome |
| FixedWidth.Fetched | jwst_wos.py:39 | one list of lines per link |
| FixedWidth.ReadRecords | jwst_wos.py:47-49 | the loop over the data lines computes exactly the report's records |
| FixedWidth.ReadReport | jwst_wos.py:39-49 | reading one report computes exactly its parse, including its errors |
| FixedWidth.ParseReports | jwst_wos.py:37-49 | the loop over `report_links[:LOOKBACK]` computes the collected records of the first five fetched reports, or the first report error |
| Normalizer.FillVisit | jwst_wos.py:56-58 | an empty id takes the previous one (no contract; see `RecordFields` and `NearestStep`) |
| Normalizer.ResolveStart | jwst_wos.py:60-64 | the marker, then the empty string, take the previous start text (no contract; see `RecordCarries` and `NearestStep`) |
| Normalizer.DurationPart | jwst_wos.py:69 | `split("/")[1]`, or nothing where that raises (no contract; see `DurationPartFails` and `DurationOfPair`) |
| Normalizer.NormaliseRecord | jwst_wos.py:55-69 | one turn of the loop as a function: the new row and carried values, or the row's error (no contract; `RecordFails`, `RecordKeeps`, `RecordCarries` and `RecordFields` characterise it) |
| Normalizer.Fold | jwst_wos.py:53-69 | the loop over the first `n` rows from `prev_sst = prev_vid = ""`: carried values and new rows, or the first error (no contract; `FoldPrefix`, `FoldAt`, `FoldLast`, `FoldFinal`, `FoldExtend` and `FoldFails` characterise it) |
| Normalizer.RowStep | jwst_wos.py:55-69 | the loop body with a given parser, as a step of the fold (no contract; `RowStepCarries` characterises it) |
| Normalizer.NormaliseWith | jwst_wos.py:53-69 | the pass over all rows as a left fold of the turn, with a given parser (no contract; see `NormaliseSpec` and `NormaliseFails`) |
| Normalizer.Normalise | jwst_wos.py:53-69 | the pass with `strptime` as the parser (no contract; see `NormaliseSpec` and `NormalisedStartsValid`) |
| Normalizer.FoldPrefix | jwst_wos.py:55-69 | a pass that succeeds on `n` rows yields `n` rows and succeeds on every prefix with a prefix of the rows |
| Normalizer.FoldAt | jwst_wos.py:55-69 | row `i` of a successful pass is what one turn makes of input row `i` with the values carried to it |
| Normalizer.FoldLast | jwst_wos.py:55-69 | the values carried after `n` rows are those of the turn on the last row |
| Normalizer.FoldFinal | jwst_wos.py:55-69 | once the pass has failed, later rows do not change the error |
| Normalizer.FoldExtend | jwst_wos.py:55-69 | one more turn appends its row and carried values, or its error ends the whole pass |
| Normalizer.FoldFails | jwst_wos.py:55-69 | a failed pass names the first row whose turn fails |
| Normalizer.NearestVisit | jwst_wos.py:53-58 | reference definition of `prev_vid`: the id of the last row so far whose id is not empty, or `""` (no contract; `NearestVisitSpec` and `CarryIsNearest` characterise it) |
| Normalizer.NearestStart | jwst_wos.py:53-66 | reference definition of `prev_sst`: the start text of the last row so far that gives its own, or `""` (no contract; `NearestStartSpec` and `CarryIsNearest` characterise it) |
| Normalizer.NearestVisitSpec | jwst_wos.py:53-58 | the nearest earlier id is `""` with every id so far empty, or the non-empty id of some row followed only by empty ids |
| Normalizer.NearestStartSpec | jwst_wos.py:53-66 | the nearest earlier start text is `""` when no row so far gives its own start, or else the start of some row that gives one with no later row giving one |
| Normalizer.NearestStep | jwst_wos.py:53-66 | one more row moves the nearest id and start text on exactly as the fill and the two substitutions do |
| Normalizer.KeysDistinct | jwst_wos.py:56-69 | helper for the proofs: the three columns the pass touches are distinct |
| Normalizer.RecordFails | jwst_wos.py:55-69 | a row fails exactly when a column is missing, a field is not text, the resolved start does not parse, or a non-empty duration has no `/` |
| Normalizer.RecordKeeps | jwst_wos.py:55-69 | a row that passes keeps its set of columns and every column other than the three |
| Normalizer.RecordCarries | jwst_wos.py:56-66 | after a row, `prev_vid` is its filled id and `prev_sst` its resolved start text |
| Normalizer.RecordFields | jwst_wos.py:56-69 | a row's id is filled, its start is the parsed resolved text, and a non-empty duration is cut to its second part while an empty one stays empty |
| Normalizer.DurationPartFails | jwst_wos.py:69 | `split("/")[1]` fails exactly when there is no `/` |
| Normalizer.DurationOfPair | jwst_wos.py:69 | of two `/`-free parts around one `/`, the second is kept |
| Normalizer.DurationExample | jwst_wos.py:69 | `"01:00/00:45"` becomes `"00:45"` |
| Normalizer.RowStepCarries | jwst_wos.py:56-66 | every turn of the loop carries on the filled id and the resolved start text, whatever parses the start |
| Normalizer.CarryIsNearest | jwst_wos.py:53-66 | after `n` rows, `prev_vid` is the nearest earlier non-empty id and `prev_sst` the nearest earlier start given outright (`""` when none) |
| Normalizer.NormalisedRowAt | jwst_wos.py:53-69 | row `i` of a successful pass satisfies the full row description given below for `NormaliseSpec` |
| Normalizer.NormaliseSpec | jwst_wos.py:53-69 | a successful pass keeps the row count and each row's columns. See the note after the table |
| Normalizer.RecordIndex | jwst_wos.py:55-69 | helper for the proofs: a row's error names that row |
| Normalizer.NormaliseFails | jwst_wos.py:55-69 | a failed pass names the first row it could not handle; every row before it passed, and that row fails with that error |
| Normalizer.EmptyIsNotTimestamp | jwst_wos.py:63-65 | `strptime("")` raises |
| Normalizer.FirstRowAttached | jwst_wos.py:53-65 | a first row whose start is the marker or empty stops the pass at row 0 with the empty start text |
| Normalizer.LiteralStartKept | jwst_wos.py:60-65 | a start given outright in canonical form comes out as exactly that timestamp |
| Normalizer.StrptimeParsesValid | jwst_wos.py:65 | helper for the proofs: `strptime` never yields an invalid date-time |
| Normalizer.NormalisedStartsValid | jwst_wos.py:60-66 | after a successful pass every row's start time is a valid date-time, for any parser that yields only valid ones |
| Normalizer.NormaliseRow | jwst_wos.py:56-69 | one turn of the loop, updating the row as the script does, computes exactly the row function, errors included |
| Normalizer.NormaliseRecords | jwst_wos.py:53-69 | the in-place loop over `wos_data` passes exactly when the pass succeeds, and then leaves the array equal to the normalised rows; otherwise it reports the pass's error |
| Schedule.Pipeline | jwst_wos.py:25-69 | the three stages chained, each stopping the script at its first error (no contract; `PipelineSucceeds` and `PipelineFails` characterise it) |
| Schedule.Run | jwst_wos.py:25-69 | the script from anchors to cleaned rows computes exactly the chained pipeline, with each stage's error |
| Schedule.PipelineSucceeds | jwst_wos.py:25-69 | when rows are shown, no anchor lacks an `href`, the rows are the cleaned rows of the first five reports one for one, and each start is a valid date-time |
| Schedule.PipelineFails | jwst_wos.py:25-69 | the error is the first failing stage's own: the first anchor without `href`, a report among the first five whose layout is bad, or a row of the parsed reports |

Note on `Normalizer.NormaliseSpec`: each output row of a successful pass
satisfies the following.

- The id is kept when non-empty. Otherwise it is the nearest earlier
  non-empty id, or `""` when there is none.
- The start is the parsed nearest start given outright, up to and including
  the row.
- A non-empty duration is cut to its second `/`-part; an empty one stays
  empty.
- Every other column is unchanged.

## Left out

- HTTP requests (`requests.get`, lines 21 and 39): each report's body is
  given by a function parameter `fetch`. The schedules page itself is not
  fetched: the model starts from its anchors.
- HTML parsing (`BeautifulSoup(...).find_all("a")`, lines 22 and 27): the
  anchors are given as a sequence of optional `href` values, in page order.
- `datetime.now()` (line 30): the current year is a parameter.
- The Streamlit page, session state, `pd.json_normalize` and the
  `AwesomeTable` columns (lines 71-96): display only.
- Normalizer.NormaliseRecords: when the pass stops on an error, the model
  says nothing about the rows left in the array. The script had already
  updated the failing row partly before raising, and then aborts.
- Normalizer.NormaliseRecords and Normalizer.NormaliseRow take the
  start-time parser as a parameter. `Schedule.Run` passes
  `Timestamps.ParseTimestamp`, which is the script's `strptime` call.
- Timestamps.ParseTimestamp:
  - digits are ASCII `0`-`9`, whereas Python's `\d` in `strptime` also
    accepts other Unicode decimal digits;
  - the locale is not modelled;
  - time zones are not modelled (`Z` is a literal).
- Records.Zip: a `map` has no order, so the column order of a Python `dict`
  is not modelled; the table's column order is set by the display code,
  which is not part of this model.
- A report with fewer than four lines or a ruler without runs stops the run
  (`ParseError`). The script raises an uncaught `IndexError` there, and
  the model follows the script.
- An anchor without `href` stops the link scan with `MissingHref`. The
  script raises `KeyError` on `l["href"]`, so malformed anchors are not
  skipped.
- `DURATION` keeps `split("/")[1]`, the part between the first and the second
  `/`, not everything after the first `/`.
- A relative "time until" column is not part of this model, because the
  script computes none.
- The filled `VISIT_ID` is not guaranteed to be non-empty: leading rows with
  an empty id get `""`, as the script does.
