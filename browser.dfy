/** What the scraper sees of the remote site and what it does to it. The
    browser session is not modelled; a site is the outcome of searching the
    floorsheet for one date. */
module Browser {
  import opened Extractor

  /** `noData` holds when the site answers the search with its "Could not
      find floorsheet matching the search criteria" message; otherwise
      `pages` are the raw grids of the result pages, in the order the "Next"
      link visits them. */
  datatype Site = Site(noData: bool, pages: seq<Grid>)

  /** The observable steps of a run: a search for a date, reading the table
      of the current result page, activating the "Next" link, ending the
      browser session, writing the output file. */
  datatype Action = Search(date: string) | ReadPage(page: nat) | ClickNext | Quit | WriteCsv(path: string)

  /** The "Next" link is present on result page `i` exactly when a later page exists. */
  predicate HasNext(site: Site, i: nat) {
    i + 1 < |site.pages|
  }

  /** Reading each of the first `n` pages and then following "Next". */
  function ReadAndAdvance(n: nat): (t: seq<Action>)
    ensures |t| == 2 * n
    ensures forall k :: 0 <= k < n ==> t[2 * k] == ReadPage(k) && t[2 * k + 1] == ClickNext
  {
    if n == 0 then [] else ReadAndAdvance(n - 1) + [ReadPage(n - 1), ClickNext]
  }

  /** Visiting `n` result pages: every page is read, in order, and "Next" is
      followed after every page but the last. */
  function Visit(n: nat): seq<Action>
    requires n > 0
  {
    ReadAndAdvance(n - 1) + [ReadPage(n - 1)]
  }
}
