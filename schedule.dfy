/**
  * The whole script up to the table it shows: find the current year's
  * report links on the schedules page, read the first five reports into
  * rows, and clean the rows up. Each stage stops the script at its first
  * error.
  */
module Schedule {
  import opened Wrappers
  import opened Timestamps
  import opened Records
  import opened Locator
  import opened FixedWidth
  import opened Normalizer

  /** The stage that stopped the script, and its error. */
  datatype ScheduleError =
    | LinkFailed(link: LinkError)
    | ParseFailed(parse: ParseError)
    | NormaliseFailed(norm: NormError)

  /**
    * The rows the script hands to the table, for the anchors of the page,
    * the current year and the body `fetch` gives for each link.
    */
  function Pipeline(anchors: seq<Anchor>, year: nat, fetch: string -> string): Result<seq<Record>, ScheduleError>
  {
    match SelectLinks(anchors, year)
    case Failure(e) => Failure(LinkFailed(e))
    case Success(links) =>
      match ParseAll(Fetched(Lookback(links), fetch))
      case Failure(e) => Failure(ParseFailed(e))
      case Success(recs) =>
        match Normalise(recs)
        case Failure(e) => Failure(NormaliseFailed(e))
        case Success(out) => Success(out)
  }

  /**
    * The script from the page's anchors to the cleaned rows: the link loop,
    * the parsing loop over the first five links, and the in-place clean-up
    * of `wos_data`.
    */
  method Run(anchors: seq<Anchor>, year: nat, fetch: string -> string) returns (r: Result<seq<Record>, ScheduleError>)
    ensures r == Pipeline(anchors, year, fetch)
  {
    var links := SelectReportLinks(anchors, year);
    if links.Failure? {
      return Failure(LinkFailed(links.error));
    }
    var data := ParseReports(links.value, fetch);
    if data.Failure? {
      return Failure(ParseFailed(data.error));
    }
    var rows := data.value;
    var wos := new Record[|rows|](k requires 0 <= k < |rows| => rows[k]);
    assert wos[..] == rows;
    var outcome := NormaliseRecords(ParseTimestamp, wos);
    if outcome.Fail? {
      return Failure(NormaliseFailed(outcome.error));
    }
    return Success(wos[..]);
  }

  /**
    * When the script shows rows, no anchor of the page lacks an `href`,
    * and the rows shown are the cleaned rows of the first five reports, one
    * per data line and in order, each with a calendar-valid start time.
    */
  lemma PipelineSucceeds(anchors: seq<Anchor>, year: nat, fetch: string -> string)
    requires Pipeline(anchors, year, fetch).Success?
    ensures forall k :: 0 <= k < |anchors| ==> anchors[k].Some?
    ensures SelectLinks(anchors, year).Success?
    ensures ParseAll(Fetched(Lookback(SelectLinks(anchors, year).value), fetch)).Success?
    ensures
      var recs := ParseAll(Fetched(Lookback(SelectLinks(anchors, year).value), fetch)).value;
      var out := Pipeline(anchors, year, fetch).value;
      |out| == |recs|
      && forall i :: 0 <= i < |recs| ==>
           NormalisedRow(ParseTimestamp, recs, out, i)
           && out[i][SCHEDULED_START_TIME].Time? && Valid(out[i][SCHEDULED_START_TIME].t)
  {
    SelectLinksSpec(anchors, year);
    var links := SelectLinks(anchors, year).value;
    var recs := ParseAll(Fetched(Lookback(links), fetch)).value;
    assert Pipeline(anchors, year, fetch).value == Normalise(recs).value;
    NormaliseSpec(ParseTimestamp, recs);
    StrptimeParsesValid();
    NormalisedStartsValid(ParseTimestamp, recs);
  }

  /**
    * The error the script stops with is the first failing stage's own
    * error: a missing `href` names the first anchor without one, a report
    * error names one of the first five reports, whose lines do not have
    * the report layout, and a clean-up error names a row of the parsed
    * reports.
    */
  lemma PipelineFails(anchors: seq<Anchor>, year: nat, fetch: string -> string)
    requires Pipeline(anchors, year, fetch).Failure?
    ensures var e := Pipeline(anchors, year, fetch).error;
      (e.LinkFailed? <==> SelectLinks(anchors, year).Failure?)
      && (e.LinkFailed? ==> FirstMissing(anchors, e.link.anchor))
      && (e.ParseFailed? ==>
            var reports := Fetched(Lookback(SelectLinks(anchors, year).value), fetch);
            e.parse.report < |reports| && e.parse.report < LOOKBACK
            && ParseReport(reports[e.parse.report]) == Failure(e.parse.reason))
      && (e.NormaliseFailed? ==>
            e.norm.index < |ParseAll(Fetched(Lookback(SelectLinks(anchors, year).value), fetch)).value|)
  {
    SelectLinksSpec(anchors, year);
    var e := Pipeline(anchors, year, fetch).error;
    if e.ParseFailed? {
      var reports := Fetched(Lookback(SelectLinks(anchors, year).value), fetch);
      var results := seq(|reports|, j requires 0 <= j < |reports| => ParseReport(reports[j]));
      CollectFails(results, |results|);
    } else if e.NormaliseFailed? {
      NormaliseFails(ParseTimestamp, ParseAll(Fetched(Lookback(SelectLinks(anchors, year).value), fetch)).value);
    }
  }
}
