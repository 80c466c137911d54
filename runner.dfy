/** The top level of web_scrapping.py: skip the run on the days the market
    is closed; otherwise search, scrape every page, end the browser
    session, clean the table and write it to a file named after the date. */
module Runner {
  import opened Seqs
  import opened Extractor
  import opened Browser
  import opened Paginator
  import opened Cleaner
  import Numbers

  /** The days on which the market is closed and nothing is scraped. */
  const ClosedDays: seq<string> := ["friday", "saturday", "sunday"]

  /** `day` is the lower-case English name of the weekday. */
  predicate IsClosedDay(day: string) {
    day in ClosedDays
  }

  /** The date with every '/' replaced by '-': nothing else changes. */
  function FileName(date: string): (r: string)
    ensures |r| == |date|
    ensures '/' !in r
    ensures forall i :: 0 <= i < |date| ==> r[i] == (if date[i] == '/' then '-' else date[i])
  {
    if date == [] then []
    else [if date[0] == '/' then '-' else date[0]] + FileName(date[1..])
  }

  /** Where the cleaned table of `date` is written. */
  function OutputPath(date: string): (path: string)
    ensures |path| == |date| + 9
    ensures path[..5] == "data/" && path[|path| - 4..] == ".csv"
    ensures path[5..|path| - 4] == FileName(date)
  {
    "data/" + FileName(date) + ".csv"
  }

  /** A date as the run formats it: two-digit month, two-digit day and
      four-digit year, separated by '/'. */
  predicate IsDateText(s: string) {
    |s| == 10 && s[2] == '/' && s[5] == '/' &&
    forall i :: 0 <= i < 10 && i != 2 && i != 5 ==> Numbers.IsDigit(s[i])
  }

  /** The file name of a formatted date is mm-dd-yyyy. */
  lemma FileNameOfDate(date: string)
    requires IsDateText(date)
    ensures var f := FileName(date);
      |f| == 10 && f[2] == '-' && f[5] == '-' &&
      forall i :: 0 <= i < 10 && i != 2 && i != 5 ==> f[i] == date[i]
  {
  }

  /** Different dates are written to different files. */
  lemma FileNameInjective(a: string, b: string)
    requires IsDateText(a) && IsDateText(b) && FileName(a) == FileName(b)
    ensures a == b
  {
    forall i | 0 <= i < 10
      ensures a[i] == b[i]
    {
      assert FileName(a)[i] == FileName(b)[i];
    }
  }

  /** How a run ends. A cleaning error is raised after the browser session
      has ended and before anything is written. */
  datatype Outcome =
    | MarketClosed
    | NoData
    | CleaningFailed(error: CleanError)
    | Saved(path: string, table: Table)

  lemma SearchTwice(date: string, visits: seq<Action>, scraped: seq<Action>)
    requires scraped == [Search(date)] + visits
    ensures [Search(date)] + scraped + [Quit] == [Search(date), Search(date)] + visits + [Quit]
  {
  }

  /** Cleaning the accumulated table and writing it out, after the browser
      session has ended: a cleaning error stops the run before the write. */
  method CleanAndSave(date: string, df: Grid) returns (outcome: Outcome, writes: seq<Action>)
    requires IsRectangular(df)
    ensures Clean(df).Success? ==> outcome == Saved(OutputPath(date), Clean(df).value) && writes == [WriteCsv(OutputPath(date))]
    ensures Clean(df).Failure? ==> outcome == CleaningFailed(Clean(df).error) && writes == []
  {
    var cleaned := CleanDf(df);
    if cleaned.Failure? {
      return CleaningFailed(cleaned.error), [];
    }
    var path := OutputPath(date);
    writes := [WriteCsv(path)];
    outcome := Saved(path, cleaned.value);
  }

  /** One run on weekday `day` for the formatted `date` against `site`.
      The search is issued twice: once here and once more at the start of
      the scrape. `width` is the number of cells in every row of the site's
      tables. */
  method Run(day: string, date: string, site: Site, ghost width: nat) returns (outcome: Outcome, trace: seq<Action>)
    requires site.noData || |site.pages| > 0
    requires forall k :: 0 <= k < |site.pages| ==> HasWidth(site.pages[k], width)
    ensures IsClosedDay(day) <==> outcome == MarketClosed
    ensures IsClosedDay(day) ==> trace == []
    ensures !IsClosedDay(day) && site.noData ==> outcome == NoData && trace == [Search(date)]
    ensures !IsClosedDay(day) && !site.noData ==>
      var df := Concat(ExtractPages(site.pages));
      IsRectangular(df) &&
      outcome == (if Clean(df).Success? then Saved(OutputPath(date), Clean(df).value) else CleaningFailed(Clean(df).error)) &&
      trace == [Search(date), Search(date)] + Visit(|site.pages|) + [Quit] +
        (if Clean(df).Success? then [WriteCsv(OutputPath(date))] else [])
  {
    trace := [];
    if IsClosedDay(day) {
      outcome := MarketClosed;
      return;
    }
    trace := [Search(date)];
    if site.noData {
      outcome := NoData;
      return;
    }
    var found, df, scraped := ScrapeAll(site, date);
    ghost var visits := Visit(|site.pages|);
    assert scraped == [Search(date)] + visits;
    trace := trace + scraped + [Quit];
    SearchTwice(date, visits, scraped);
    ghost var tables := ExtractPages(site.pages);
    assert df == Concat(tables);
    forall k | 0 <= k < |tables|
      ensures HasWidth(tables[k], width)
    {
      ExtractKeepsWidth(site.pages[k], width);
    }
    ConcatWidth(tables, width);
    assert IsRectangular(df);
    var writes;
    outcome, writes := CleanAndSave(date, df);
    trace := trace + writes;
  }
}
