/**
  * Reading the weekly observing schedule reports. A report is fixed-width
  * text: line 2 holds the column titles, line 3 a ruler whose
  * whitespace-separated runs stand under the columns, and every line from 4
  * on is one scheduled visit. A column's span is the length of its ruler
  * run plus two; the
  * last column is widened to 300 characters so that long keyword lists are
  * not cut.
  */
module FixedWidth {
  import opened Wrappers
  import opened PyStr
  import opened Records
  import opened Locator

  const HEADER_LINE: nat := 2
  const RULER_LINE: nat := 3
  const FIRST_DATA_LINE: nat := 4

  /** The width forced on the last column. */
  const LAST_COLUMN_WIDTH: nat := 300

  /**
    * Why a report's layout cannot be read: `wos_txt[3]` on a report of
    * fewer than four lines, or `col_widths[-1]` on a ruler without any run,
    * raises `IndexError`.
    */
  datatype LayoutError = TooFewLines(count: nat) | EmptyRuler

  /** The layout error of the report at position `report` among those read. */
  datatype ParseError = ReportError(report: nat, reason: LayoutError)

  // ---------------------------------------------------------------------
  // Column spans
  // ---------------------------------------------------------------------

  /**
    * The column widths read off the runs of a ruler line: each run's length
    * plus two, except that the last is 300.
    */
  function ColumnWidths(runs: seq<string>): (ws: seq<nat>)
    ensures |ws| == |runs|
    ensures forall k :: 0 <= k < |ws| - 1 ==> ws[k] == |runs[k]| + 2
    ensures ws != [] ==> ws[|ws| - 1] == LAST_COLUMN_WIDTH
  {
    var ws := seq(|runs|, k requires 0 <= k < |runs| => |runs[k]| + 2);
    if ws == [] then [] else ws[|ws| - 1 := LAST_COLUMN_WIDTH]
  }

  /**
    * `list(accumulate(ws, initial=0))`: the column boundaries, one more
    * than there are widths; column `k` spans `idx[k]` up to `idx[k + 1]`.
    */
  function Offsets(ws: seq<nat>): (idx: seq<nat>)
    ensures |idx| == |ws| + 1 && idx[0] == 0
    ensures forall k :: 0 <= k < |ws| ==> idx[k + 1] == idx[k] + ws[k]
    decreases |ws|
  {
    if ws == [] then [0]
    else
      var p := Offsets(ws[..|ws| - 1]);
      p + [p[|ws| - 1] + ws[|ws| - 1]]
  }

  /** The total of a sequence of widths. */
  function Sum(ws: seq<nat>): nat
  {
    if ws == [] then 0 else Sum(ws[..|ws| - 1]) + ws[|ws| - 1]
  }

  /** Each boundary is the total width of the columns before it. */
  lemma {:induction false} OffsetIsSum(ws: seq<nat>, k: nat)
    requires k <= |ws|
    ensures Offsets(ws)[k] == Sum(ws[..k])
    decreases k
  {
    if k > 0 {
      OffsetIsSum(ws, k - 1);
      assert ws[..k][..k - 1] == ws[..k - 1];
    }
  }

  /** The boundaries never decrease, and strictly increase between columns of positive width. */
  lemma {:induction false} OffsetsIncrease(ws: seq<nat>, i: nat, j: nat)
    requires i <= j <= |ws|
    ensures Offsets(ws)[i] <= Offsets(ws)[j]
    ensures i < j && (forall k :: 0 <= k < |ws| ==> ws[k] > 0) ==> Offsets(ws)[i] < Offsets(ws)[j]
    decreases j - i
  {
    if i < j {
      OffsetsIncrease(ws, i, j - 1);
    }
  }

  /** Position `p` lies in the span of column `k`. */
  predicate InSpan(idx: seq<nat>, p: nat, k: nat)
  {
    k + 1 < |idx| && idx[k] <= p < idx[k + 1]
  }

  lemma {:induction false} SpanExists(ws: seq<nat>, p: nat) returns (k: nat)
    requires p < Offsets(ws)[|ws|]
    ensures InSpan(Offsets(ws), p, k)
    decreases |ws|
  {
    var n := |ws| - 1;
    var idx, p0 := Offsets(ws), Offsets(ws[..n]);
    assert forall j :: 0 <= j <= n ==> idx[j] == p0[j];
    if p < idx[n] {
      k := SpanExists(ws[..n], p);
    } else {
      k := n;
    }
  }

  lemma SpanUnique(ws: seq<nat>, p: nat, k1: nat, k2: nat)
    requires InSpan(Offsets(ws), p, k1) && InSpan(Offsets(ws), p, k2)
    ensures k1 == k2
  {
    if k1 < k2 {
      OffsetsIncrease(ws, k1 + 1, k2);
    } else if k2 < k1 {
      OffsetsIncrease(ws, k2 + 1, k1);
    }
  }

  /**
    * The spans tile the line: every position before the last boundary lies
    * in the span of exactly one column.
    */
  lemma SpansPartition(ws: seq<nat>, p: nat)
    requires p < Offsets(ws)[|ws|]
    ensures exists k :: InSpan(Offsets(ws), p, k)
    ensures forall k1, k2 :: InSpan(Offsets(ws), p, k1) && InSpan(Offsets(ws), p, k2) ==> k1 == k2
  {
    var k := SpanExists(ws, p);
    forall k1, k2 | InSpan(Offsets(ws), p, k1) && InSpan(Offsets(ws), p, k2)
      ensures k1 == k2
    {
      SpanUnique(ws, p, k1, k2);
    }
  }

  /** The pieces of a line cut at the first `n + 1` boundaries, in order, joined. */
  function Joined(line: string, idx: seq<nat>, n: nat): string
    requires n < |idx|
  {
    if n == 0 then [] else Joined(line, idx, n - 1) + Slice(line, idx[n - 1], idx[n])
  }

  /**
    * Cutting a line at the boundaries loses nothing and repeats nothing: the
    * pieces, joined, are the line up to the last boundary.
    */
  lemma {:induction false} SpansCover(line: string, ws: seq<nat>, n: nat)
    requires n <= |ws|
    ensures Joined(line, Offsets(ws), n) == Slice(line, 0, Offsets(ws)[n])
  {
    if n > 0 {
      var idx := Offsets(ws);
      SpansCover(line, ws, n - 1);
      OffsetsIncrease(ws, 0, n - 1);
      SliceAdjacent(line, 0, idx[n - 1], idx[n]);
    }
  }

  // ---------------------------------------------------------------------
  // Titles and values
  // ---------------------------------------------------------------------

  /**
    * The column titles: the header cut at the boundaries, each piece
    * stripped and its blanks replaced by underscores.
    */
  function Titles(header: string, idx: seq<nat>): (titles: seq<string>)
    requires |idx| >= 1
    ensures |titles| == |idx| - 1
    ensures forall k :: 0 <= k < |titles| ==> Lacks(titles[k], ' ') && IsTrimmed(titles[k])
  {
    seq(|idx| - 1, k requires 0 <= k < |idx| - 1 => TitleOf(Slice(header, idx[k], idx[k + 1])))
  }

  /** One title: the stripped header piece, with `_` for each blank. */
  function TitleOf(piece: string): (title: string)
    ensures Lacks(title, ' ') && IsTrimmed(title)
    ensures |title| == |Strip(piece)|
  {
    var t := Strip(piece);
    var title := ReplaceChar(t, ' ', '_');
    assert title != [] ==> title[0] == t[0] && title[|title| - 1] == t[|t| - 1];
    title
  }

  /**
    * The values of a data line: the line cut at the boundaries, each piece
    * stripped; a column that starts past the end of the line is empty.
    */
  function Values(line: string, idx: seq<nat>): (vals: seq<string>)
    requires |idx| >= 1
    ensures |vals| == |idx| - 1
    ensures forall k :: 0 <= k < |vals| ==> IsTrimmed(vals[k])
    ensures forall k :: 0 <= k < |vals| && idx[k] >= |line| ==> vals[k] == []
  {
    seq(|idx| - 1, k requires 0 <= k < |idx| - 1 => ValueOf(line, idx[k], idx[k + 1]))
  }

  /** One value: the stripped piece of the line between two boundaries. */
  function ValueOf(line: string, i: nat, j: nat): (v: string)
    ensures IsTrimmed(v)
    ensures i >= |line| ==> v == []
  {
    Strip(Slice(line, i, j))
  }

  // ---------------------------------------------------------------------
  // Reports
  // ---------------------------------------------------------------------

  /** Whether the layout of a report can be read. */
  predicate HasLayout(lines: seq<string>)
  {
    |lines| > RULER_LINE && !AllSpace(lines[RULER_LINE])
  }

  /** The column boundaries of a report, from its ruler line, or why there are none. */
  function LayoutOf(lines: seq<string>): (r: Result<seq<nat>, LayoutError>)
    ensures r.Success? <==> HasLayout(lines)
    ensures r.Failure? ==> r.error == if |lines| <= RULER_LINE then TooFewLines(|lines|) else EmptyRuler
    ensures r.Success? ==> |r.value| >= 2 && r.value[0] == 0
  {
    if |lines| <= RULER_LINE then Failure(TooFewLines(|lines|))
    else
      var runs := Tokens(lines[RULER_LINE]);
      if runs == [] then Failure(EmptyRuler) else Success(Offsets(ColumnWidths(runs)))
  }

  /** The record of one data line: its values keyed by the column titles. */
  function RowRecord(header: string, idx: seq<nat>, line: string): Record
    requires |idx| >= 1
  {
    Zip(Titles(header, idx), Values(line, idx))
  }

  /** The records of the data lines of a report, one per line, in line order. */
  function ReportRecords(lines: seq<string>, idx: seq<nat>): (recs: seq<Record>)
    requires |lines| > RULER_LINE && |idx| >= 1
    ensures |recs| == |lines| - FIRST_DATA_LINE
  {
    seq(|lines| - FIRST_DATA_LINE, k requires 0 <= k < |lines| - FIRST_DATA_LINE => RowRecord(lines[HEADER_LINE], idx, lines[k + FIRST_DATA_LINE]))
  }

  /** The records of one report, or why its layout cannot be read. */
  function ParseReport(lines: seq<string>): Result<seq<Record>, LayoutError>
  {
    match LayoutOf(lines)
    case Failure(e) => Failure(e)
    case Success(idx) => Success(ReportRecords(lines, idx))
  }

  /** The set of column titles. */
  function TitleSet(header: string, idx: seq<nat>): set<string>
    requires |idx| >= 1
  {
    var titles := Titles(header, idx);
    set k | 0 <= k < |titles| :: titles[k]
  }

  /** Every value of a record is text without leading or trailing whitespace. */
  predicate ValuesTrimmed(r: Record)
  {
    forall key :: key in r ==> r[key].Text? && IsTrimmed(r[key].s)
  }

  /** A data line's record has every title as a key, and only text values without surrounding whitespace. */
  lemma RowRecordShape(header: string, idx: seq<nat>, line: string)
    requires |idx| >= 1
    ensures RowRecord(header, idx, line).Keys == TitleSet(header, idx)
    ensures ValuesTrimmed(RowRecord(header, idx, line))
  {
    var titles, vals := Titles(header, idx), Values(line, idx);
    var r := ZipPrefix(titles, vals, |titles|);
    assert RowRecord(header, idx, line) == r;
    forall key | key in r
      ensures r[key].Text? && IsTrimmed(r[key].s)
    {
      var k :| 0 <= k < |titles| && vals[k] == r[key].s;
    }
  }

  /**
    * When no later column has the same title, a data line's record maps
    * the title of column `k` to the stripped text in that column's span.
    */
  lemma RowRecordValue(header: string, idx: seq<nat>, line: string, k: nat)
    requires |idx| >= 1
    requires var titles := Titles(header, idx);
      k < |titles| && forall j :: k < j < |titles| ==> titles[j] != titles[k]
    ensures var title := Titles(header, idx)[k];
      title in RowRecord(header, idx, line) && RowRecord(header, idx, line)[title] == Text(ValueOf(line, idx[k], idx[k + 1]))
  {
    ZipLast(Titles(header, idx), Values(line, idx), k);
    ValuesAt(line, idx, k);
  }

  lemma ValuesAt(line: string, idx: seq<nat>, k: nat)
    requires k + 1 < |idx|
    ensures Values(line, idx)[k] == ValueOf(line, idx[k], idx[k + 1])
  {
  }

  /** The record of data line `l` of a report. */
  lemma ReportRecordAt(lines: seq<string>, idx: seq<nat>, l: nat)
    requires FIRST_DATA_LINE <= l < |lines| && |idx| >= 1
    ensures ReportRecords(lines, idx)[l - FIRST_DATA_LINE] == Zip(Titles(lines[HEADER_LINE], idx), Values(lines[l], idx))
  {
    var k := l - FIRST_DATA_LINE;
    assert k + FIRST_DATA_LINE == l;
    assert ReportRecords(lines, idx)[k] == RowRecord(lines[HEADER_LINE], idx, lines[l]);
  }

  /** Every record of a report has the report's titles as its keys, and only trimmed text values. */
  lemma ReportRecordsShape(lines: seq<string>, idx: seq<nat>)
    requires |lines| > RULER_LINE && |idx| >= 1
    ensures forall k :: 0 <= k < |ReportRecords(lines, idx)| ==>
      ReportRecords(lines, idx)[k].Keys == TitleSet(lines[HEADER_LINE], idx) && ValuesTrimmed(ReportRecords(lines, idx)[k])
  {
    var recs := ReportRecords(lines, idx);
    forall k | 0 <= k < |recs|
      ensures recs[k].Keys == TitleSet(lines[HEADER_LINE], idx) && ValuesTrimmed(recs[k])
    {
      assert recs[k] == RowRecord(lines[HEADER_LINE], idx, lines[k + FIRST_DATA_LINE]);
      RowRecordShape(lines[HEADER_LINE], idx, lines[k + FIRST_DATA_LINE]);
    }
  }

  /**
    * A report parses exactly when it has a ruler line with at least one run;
    * it then gives one record per line after the ruler, every record has the
    * report's titles as its keys, and every value is text without leading
    * or trailing whitespace.
    */
  lemma ParseReportSpec(lines: seq<string>)
    ensures ParseReport(lines).Success? <==> HasLayout(lines)
    ensures !HasLayout(lines) ==> ParseReport(lines) == Failure(if |lines| <= RULER_LINE then TooFewLines(|lines|) else EmptyRuler)
    ensures HasLayout(lines) ==>
      var idx, recs := LayoutOf(lines).value, ParseReport(lines).value;
      |recs| == |lines| - FIRST_DATA_LINE
      && forall k :: 0 <= k < |recs| ==> recs[k].Keys == TitleSet(lines[HEADER_LINE], idx) && ValuesTrimmed(recs[k])
  {
    if HasLayout(lines) {
      ReportRecordsShape(lines, LayoutOf(lines).value);
    }
  }

  /**
    * The records of the first `n` reports, in the order the reports are
    * read and, within a report, in line order; the first report that failed
    * stops everything, and the error names it.
    */
  function CollectPrefix(results: seq<Result<seq<Record>, LayoutError>>, n: nat): Result<seq<Record>, ParseError>
    requires n <= |results|
  {
    if n == 0 then Success([])
    else
      match CollectPrefix(results, n - 1)
      case Failure(e) => Failure(e)
      case Success(recs) =>
        match results[n - 1]
        case Failure(e) => Failure(ReportError(n - 1, e))
        case Success(more) => Success(recs + more)
  }

  /** The records of all reports, or the error of the first report that failed. */
  function Collect(results: seq<Result<seq<Record>, LayoutError>>): Result<seq<Record>, ParseError>
  {
    CollectPrefix(results, |results|)
  }

  /** Parsing every report and collecting the records. */
  function ParseAll(reports: seq<seq<string>>): Result<seq<Record>, ParseError>
  {
    Collect(seq(|reports|, j requires 0 <= j < |reports| => ParseReport(reports[j])))
  }

  /**
    * Collecting the first `n` reports fails exactly when one of them
    * failed, and then names the first such report and its reason.
    */
  lemma {:induction false} CollectFails(results: seq<Result<seq<Record>, LayoutError>>, n: nat)
    requires n <= |results|
    ensures CollectPrefix(results, n).Failure? <==> exists j :: 0 <= j < n && results[j].Failure?
    ensures CollectPrefix(results, n).Failure? ==>
      var j := CollectPrefix(results, n).error.report;
      j < n && results[j] == Failure(CollectPrefix(results, n).error.reason) && (forall i :: 0 <= i < j ==> results[i].Success?)
  {
    if n > 0 {
      CollectFails(results, n - 1);
    }
  }

  /** The number of records of the first `n` successful reports. */
  function RecordCount(results: seq<Result<seq<Record>, LayoutError>>, n: nat): nat
    requires n <= |results| && forall j :: 0 <= j < |results| ==> results[j].Success?
  {
    if n == 0 then 0 else RecordCount(results, n - 1) + |results[n - 1].value|
  }

  lemma {:induction false} RecordCountBound(results: seq<Result<seq<Record>, LayoutError>>, i: nat, j: nat)
    requires i <= j <= |results| && forall k :: 0 <= k < |results| ==> results[k].Success?
    ensures RecordCount(results, i) <= RecordCount(results, j)
    decreases j - i
  {
    if i < j {
      RecordCountBound(results, i, j - 1);
    }
  }

  /**
    * When the first `n` reports succeeded, the collected records are theirs
    * one after another: record `k` of report `j` comes after the records of
    * all earlier reports.
    */
  lemma {:induction false} CollectRecords(results: seq<Result<seq<Record>, LayoutError>>, n: nat)
    requires n <= |results| && forall j :: 0 <= j < |results| ==> results[j].Success?
    ensures CollectPrefix(results, n).Success?
    ensures |CollectPrefix(results, n).value| == RecordCount(results, n)
    ensures forall j :: 0 <= j < n ==> RecordCount(results, j) + |results[j].value| <= |CollectPrefix(results, n).value|
    ensures forall j, k :: 0 <= j < n && 0 <= k < |results[j].value| ==>
      CollectPrefix(results, n).value[RecordCount(results, j) + k] == results[j].value[k]
  {
    CollectSucceeds(results, n);
    forall j | 0 <= j < n
      ensures RecordCount(results, j) + |results[j].value| <= |CollectPrefix(results, n).value|
    {
      RecordCountBound(results, j + 1, n);
    }
    forall j, k | 0 <= j < n && 0 <= k < |results[j].value|
      ensures CollectPrefix(results, n).value[RecordCount(results, j) + k] == results[j].value[k]
    {
      CollectRecordAt(results, n, j, k);
    }
  }

  /** When the first `n` reports succeeded, so does collecting them, with all their records. */
  lemma {:induction false} CollectSucceeds(results: seq<Result<seq<Record>, LayoutError>>, n: nat)
    requires n <= |results| && forall j :: 0 <= j < |results| ==> results[j].Success?
    ensures CollectPrefix(results, n).Success? && |CollectPrefix(results, n).value| == RecordCount(results, n)
  {
    if n > 0 {
      CollectSucceeds(results, n - 1);
    }
  }

  /** Record `k` of report `j` sits after the records of the reports before it. */
  lemma {:induction false} CollectRecordAt(results: seq<Result<seq<Record>, LayoutError>>, n: nat, j: nat, k: nat)
    requires n <= |results| && forall i :: 0 <= i < |results| ==> results[i].Success?
    requires j < n && k < |results[j].value|
    ensures CollectPrefix(results, n).Success?
    ensures RecordCount(results, j) + k < |CollectPrefix(results, n).value|
    ensures CollectPrefix(results, n).value[RecordCount(results, j) + k] == results[j].value[k]
  {
    CollectSucceeds(results, n - 1);
    var recs := CollectPrefix(results, n - 1).value;
    assert CollectPrefix(results, n).value == recs + results[n - 1].value;
    if j < n - 1 {
      CollectRecordAt(results, n - 1, j, k);
    }
  }

  /** Once the reports read so far have failed, reading more does not change the error. */
  lemma {:induction false} CollectStops(results: seq<Result<seq<Record>, LayoutError>>, n: nat, m: nat)
    requires n <= m <= |results| && CollectPrefix(results, n).Failure?
    ensures CollectPrefix(results, m) == CollectPrefix(results, n)
    decreases m
  {
    if n < m {
      CollectStops(results, n, m - 1);
    }
  }

  // ---------------------------------------------------------------------
  // The parsing loop
  // ---------------------------------------------------------------------

  /** The lines of each report, as fetched from its link. */
  function Fetched(links: seq<string>, fetch: string -> string): (reports: seq<seq<string>>)
    ensures |reports| == |links|
  {
    seq(|links|, k requires 0 <= k < |links| => SplitLines(fetch(links[k])))
  }

  /**
    * The loop over the data lines of one report: each line's values,
    * keyed by the column titles, become one record.
    */
  method ReadRecords(lines: seq<string>, idx: seq<nat>) returns (recs: seq<Record>)
    requires |lines| > RULER_LINE && |idx| >= 1
    ensures recs == ReportRecords(lines, idx)
  {
    var titles := Titles(lines[HEADER_LINE], idx);
    recs := [];
    for l := FIRST_DATA_LINE to |lines|
      invariant recs == ReportRecords(lines, idx)[..l - FIRST_DATA_LINE]
    {
      var values := Values(lines[l], idx);
      ReportRecordAt(lines, idx, l);
      recs := recs + [Zip(titles, values)];
    }
  }

  /** One report: its layout from the ruler line, then one record per data line. */
  method ReadReport(lines: seq<string>) returns (r: Result<seq<Record>, LayoutError>)
    ensures r == ParseReport(lines)
  {
    if |lines| <= RULER_LINE {
      return Failure(TooFewLines(|lines|));
    }
    var runs := Tokens(lines[RULER_LINE]);
    if runs == [] {
      return Failure(EmptyRuler);
    }
    var idx := Offsets(ColumnWidths(runs));
    var recs := ReadRecords(lines, idx);
    return Success(recs);
  }

  /**
    * The loop over `report_links[:LOOKBACK]`: fetch each report, read its
    * layout, and append one record per data line. `fetch` gives the body of
    * the response to a request for a link.
    */
  method ParseReports(links: seq<string>, fetch: string -> string) returns (r: Result<seq<Record>, ParseError>)
    ensures r == ParseAll(Fetched(Lookback(links), fetch))
  {
    var reportLinks := Lookback(links);
    ghost var reports := Fetched(reportLinks, fetch);
    ghost var results := seq(|reports|, j requires 0 <= j < |reports| => ParseReport(reports[j]));
    var data: seq<Record> := [];
    for j := 0 to |reportLinks|
      invariant CollectPrefix(results, j) == Success(data)
    {
      var lines := SplitLines(fetch(reportLinks[j]));
      var report := ReadReport(lines);
      assert results[j] == report;
      match report
      case Failure(e) =>
        CollectStops(results, j + 1, |results|);
        return Failure(ReportError(j, e));
      case Success(recs) =>
        data := data + recs;
    }
    return Success(data);
  }
}
