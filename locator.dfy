/**
  * Finding the weekly observing schedule reports on the schedules page: the
  * anchors whose link names a report text file of the current year, turned
  * into absolute URLs on the STScI site, and the newest few of them.
  */
module Locator {
  import opened Wrappers
  import opened PyStr

  /** The site the page's links are relative to. */
  const STSCI_URL: string := "https://www.stsci.edu"

  /** How many reports are read. */
  const LOOKBACK: nat := 5

  const REPORT_MARKER: string := "_report_"
  const REPORT_SUFFIX: string := ".txt"

  /**
    * The anchors of the page, in document order: the value of the `href`
    * attribute, or None for an anchor without one.
    */
  type Anchor = Option<string>

  /** Looking up `href` on an anchor that has none raises `KeyError`. */
  datatype LinkError = MissingHref(anchor: nat)

  /** `href.split("/")[-1]`: the file name at the end of a link. */
  function FileName(href: string): string
  {
    LastPiece(href, '/')
  }

  /**
    * The filter on a link: it mentions `_report_`, and its file name starts
    * with the year written in decimal and ends with `.txt`.
    */
  predicate IsReportHref(href: string, year: nat)
  {
    var name := FileName(href);
    Contains(href, REPORT_MARKER) && StartsWith(name, DecimalString(year)) && EndsWith(name, REPORT_SUFFIX)
  }

  /** The file name of a link is what follows its last `/`. */
  lemma FileNameOfPath(dir: string, name: string)
    requires Lacks(name, '/')
    ensures FileName(dir + "/" + name) == name
  {
    var s := dir + "/" + name;
    assert s[|dir|] == '/';
    assert s[|dir| + 1..] == name;
    SplitOnLast(s, '/', |dir|);
  }

  /** The filter, for a link written as a directory and a file name. */
  lemma ReportHrefOfPath(dir: string, name: string, year: nat)
    requires Lacks(name, '/')
    ensures IsReportHref(dir + "/" + name, year)
        <==> Contains(dir + "/" + name, REPORT_MARKER) && StartsWith(name, DecimalString(year)) && EndsWith(name, REPORT_SUFFIX)
  {
    FileNameOfPath(dir, name);
  }

  /**
    * A kept link holds `_report_` at some position, and its file name is the
    * year followed by the rest and the rest followed by `.txt`.
    */
  lemma KeptHrefShape(href: string, year: nat) returns (i: nat)
    requires IsReportHref(href, year)
    ensures i + |REPORT_MARKER| <= |href| && href[i..i + |REPORT_MARKER|] == REPORT_MARKER
    ensures var name, y := FileName(href), DecimalString(year);
      |y| <= |name| && |REPORT_SUFFIX| <= |name|
      && name == y + name[|y|..] && name == name[..|name| - |REPORT_SUFFIX|] + REPORT_SUFFIX
  {
    i := ContainsOccurs(href, REPORT_MARKER);
    StartsWithPrefix(DecimalString(year), FileName(href));
    EndsWithSuffix(FileName(href), REPORT_SUFFIX);
  }

  /** The filter for the given year, as a test on a link alone. */
  function ReportFilter(year: nat): string -> bool
  {
    href => IsReportHref(href, year)
  }

  /**
    * The links among the first `n` anchors that pass `keep`, in page order
    * and prefixed with the site URL, as the loop over the anchors builds
    * them: the first anchor without an `href` stops the whole scan.
    */
  function SelectPrefix(anchors: seq<Anchor>, keep: string -> bool, n: nat): Result<seq<string>, LinkError>
    requires n <= |anchors|
  {
    if n == 0 then Success([])
    else
      match SelectPrefix(anchors, keep, n - 1)
      case Failure(e) => Failure(e)
      case Success(links) =>
        match anchors[n - 1]
        case None => Failure(MissingHref(n - 1))
        case Some(href) => Success(if keep(href) then links + [STSCI_URL + href] else links)
  }

  /** The report links of the whole page, for the current year. */
  function SelectLinks(anchors: seq<Anchor>, year: nat): Result<seq<string>, LinkError>
  {
    SelectPrefix(anchors, ReportFilter(year), |anchors|)
  }

  /** Whether anchor `k` has an `href` that passes `keep`. */
  predicate IsMatch(anchors: seq<Anchor>, keep: string -> bool, k: nat)
    requires k < |anchors|
  {
    anchors[k].Some? && keep(anchors[k].value)
  }

  /**
    * The positions among the first `n` anchors whose link passes `keep`:
    * each such position once, in increasing order, and no other.
    */
  function MatchIndices(anchors: seq<Anchor>, keep: string -> bool, n: nat): (ix: seq<nat>)
    requires n <= |anchors|
    ensures forall i :: 0 <= i < |ix| ==> ix[i] < n && IsMatch(anchors, keep, ix[i])
    ensures forall i, j :: 0 <= i < j < |ix| ==> ix[i] < ix[j]
    ensures forall k :: 0 <= k < n ==> (k in ix <==> IsMatch(anchors, keep, k))
  {
    if n == 0 then []
    else
      var init := MatchIndices(anchors, keep, n - 1);
      if IsMatch(anchors, keep, n - 1) then init + [n - 1] else init
  }

  /** The first anchor without an `href`, if there is one. */
  predicate FirstMissing(anchors: seq<Anchor>, k: nat)
  {
    k < |anchors| && anchors[k].None? && forall j :: 0 <= j < k ==> anchors[j].Some?
  }

  /**
    * The scan of the first `n` anchors fails exactly when one of them has
    * no `href`, and then names the first such anchor.
    */
  lemma {:induction false} SelectPrefixFails(anchors: seq<Anchor>, keep: string -> bool, n: nat)
    requires n <= |anchors|
    ensures SelectPrefix(anchors, keep, n).Failure? <==> exists k :: 0 <= k < n && anchors[k].None?
    ensures SelectPrefix(anchors, keep, n).Failure? ==> FirstMissing(anchors, SelectPrefix(anchors, keep, n).error.anchor)
  {
    if n > 0 {
      SelectPrefixFails(anchors, keep, n - 1);
    }
  }

  /**
    * A successful scan of the first `n` anchors yields, in page order, one
    * link per matching anchor: the site URL followed by that anchor's `href`.
    */
  lemma {:induction false} SelectPrefixFinds(anchors: seq<Anchor>, keep: string -> bool, n: nat)
    requires n <= |anchors| && SelectPrefix(anchors, keep, n).Success?
    ensures var links, ix := SelectPrefix(anchors, keep, n).value, MatchIndices(anchors, keep, n);
      |links| == |ix| && forall i :: 0 <= i < |ix| ==> links[i] == STSCI_URL + anchors[ix[i]].value
  {
    if n > 0 {
      SelectPrefixFinds(anchors, keep, n - 1);
      var links0, ix0 := SelectPrefix(anchors, keep, n - 1).value, MatchIndices(anchors, keep, n - 1);
      var links, ix := SelectPrefix(anchors, keep, n).value, MatchIndices(anchors, keep, n);
      var hit := IsMatch(anchors, keep, n - 1);
      assert hit ==> links == links0 + [STSCI_URL + anchors[n - 1].value] && ix == ix0 + [n - 1];
      assert !hit ==> links == links0 && ix == ix0;
      forall i | 0 <= i < |ix|
        ensures links[i] == STSCI_URL + anchors[ix[i]].value
      {
        if i < |ix0| {
          assert links[i] == links0[i] && ix[i] == ix0[i];
        }
      }
    }
  }

  /**
    * The page's report links: the scan fails exactly when an anchor has no
    * `href`, naming the first; otherwise it yields one link per anchor whose
    * `href` passes the report filter, in page order.
    */
  lemma SelectLinksSpec(anchors: seq<Anchor>, year: nat)
    ensures SelectLinks(anchors, year).Failure? <==> exists k :: 0 <= k < |anchors| && anchors[k].None?
    ensures SelectLinks(anchors, year).Failure? ==> FirstMissing(anchors, SelectLinks(anchors, year).error.anchor)
    ensures SelectLinks(anchors, year).Success? ==>
      var links, ix := SelectLinks(anchors, year).value, MatchIndices(anchors, ReportFilter(year), |anchors|);
      |links| == |ix|
      && (forall i :: 0 <= i < |ix| ==> links[i] == STSCI_URL + anchors[ix[i]].value && IsReportHref(anchors[ix[i]].value, year))
      && (forall k :: 0 <= k < |anchors| && IsReportHref(anchors[k].value, year) ==> k in ix)
  {
    var keep := ReportFilter(year);
    SelectPrefixFails(anchors, keep, |anchors|);
    if SelectLinks(anchors, year).Success? {
      SelectPrefixFinds(anchors, keep, |anchors|);
      var ix := MatchIndices(anchors, keep, |anchors|);
      assert forall i :: 0 <= i < |ix| ==> IsMatch(anchors, keep, ix[i]);
      forall k | 0 <= k < |anchors| && IsReportHref(anchors[k].value, year)
        ensures k in ix
      {
        assert IsMatch(anchors, keep, k);
      }
    }
  }

  /** Once the scan of a prefix fails, the scan of any longer prefix fails with the same error. */
  lemma {:induction false} FailureIsFinal(anchors: seq<Anchor>, keep: string -> bool, n: nat, m: nat)
    requires n <= m <= |anchors| && SelectPrefix(anchors, keep, n).Failure?
    ensures SelectPrefix(anchors, keep, m) == SelectPrefix(anchors, keep, n)
    decreases m
  {
    if n < m {
      FailureIsFinal(anchors, keep, n, m - 1);
    }
  }

  /**
    * The loop over `data.find_all("a")`: it appends the absolute URL of each
    * report link and stops at the first anchor without an `href`.
    */
  method SelectReportLinks(anchors: seq<Anchor>, year: nat) returns (r: Result<seq<string>, LinkError>)
    ensures r == SelectLinks(anchors, year)
  {
    var links: seq<string> := [];
    for k := 0 to |anchors|
      invariant SelectPrefix(anchors, ReportFilter(year), k) == Success(links)
    {
      match anchors[k]
      case None =>
        FailureIsFinal(anchors, ReportFilter(year), k + 1, |anchors|);
        return Failure(MissingHref(k));
      case Some(href) =>
        if IsReportHref(href, year) {
          links := links + [STSCI_URL + href];
        }
    }
    return Success(links);
  }

  /** `report_links[:LOOKBACK]`: the first links found, at most five of them. */
  function Lookback(links: seq<string>): (r: seq<string>)
    ensures |r| <= LOOKBACK && |r| <= |links|
    ensures |r| == LOOKBACK || |r| == |links|
    ensures r == links[..|r|]
  {
    links[..Min(LOOKBACK, |links|)]
  }
}
