/** The paginator: search once, then read every result page's table and
    append its rows to one accumulated grid until no "Next" link is left
    (`scrape_data` in web_scrapping.py). */
module Paginator {
  import opened Seqs
  import opened Extractor
  import opened Browser

  /** The rows of all pages, page after page. */
  function Concat(pages: seq<Grid>): Grid {
    if pages == [] then [] else pages[0] + Concat(pages[1..])
  }

  /** The number of rows over all pages. */
  function TotalRows(pages: seq<Grid>): nat {
    if pages == [] then 0 else |pages[0]| + TotalRows(pages[1..])
  }

  /** The extracted table of every raw page. */
  function ExtractPages(raw: seq<Grid>): seq<Grid> {
    seq(|raw|, k requires 0 <= k < |raw| => ExtractTable(raw[k]))
  }

  /** Appending one more page appends its rows behind the ones gathered so far. */
  lemma {:induction false} ConcatAppend(pages: seq<Grid>, g: Grid)
    ensures Concat(pages + [g]) == Concat(pages) + g
  {
    if pages == [] {
      assert [] + [g] == [g];
      assert Concat([g]) == g + Concat([]);
    } else {
      assert (pages + [g])[0] == pages[0];
      assert (pages + [g])[1..] == pages[1..] + [g];
      ConcatAppend(pages[1..], g);
    }
  }

  /** The accumulated grid has as many rows as all pages together. */
  lemma {:induction false} ConcatLength(pages: seq<Grid>)
    ensures |Concat(pages)| == TotalRows(pages)
  {
    if pages != [] {
      ConcatLength(pages[1..]);
    }
  }

  /** Row `i` of page `k` sits in the accumulated grid right after the rows
      of the pages before it. */
  lemma {:induction false} ConcatRowAt(pages: seq<Grid>, k: nat, i: nat)
    requires k < |pages| && i < |pages[k]|
    ensures TotalRows(pages[..k]) + i < |Concat(pages)|
    ensures Concat(pages)[TotalRows(pages[..k]) + i] == pages[k][i]
  {
    ConcatLength(pages[1..]);
    if k == 0 {
      assert pages[..0] == [];
    } else {
      ConcatRowAt(pages[1..], k - 1, i);
      assert pages[..k][1..] == pages[1..][..k - 1];
    }
  }

  /** Pages whose rows all have `w` cells accumulate into such a grid. */
  lemma {:induction false} ConcatWidth(pages: seq<Grid>, w: nat)
    requires forall k :: 0 <= k < |pages| ==> HasWidth(pages[k], w)
    ensures HasWidth(Concat(pages), w)
  {
    if pages != [] {
      ConcatWidth(pages[1..], w);
      assert HasWidth(pages[0], w);
    }
  }

  /** Extraction keeps the number of rows of every page. */
  lemma {:induction false} ExtractedRows(raw: seq<Grid>)
    ensures TotalRows(ExtractPages(raw)) == TotalRows(raw)
  {
    if raw != [] {
      assert ExtractPages(raw)[1..] == ExtractPages(raw[1..]);
      ExtractedRows(raw[1..]);
    }
  }

  /** Searches for `date`; on a site that has results, reads the current
      page, appends its rows, and follows "Next" while the link exists.
      `found` is false when the search met the no-data message, which ends
      the run at once. */
  method ScrapeAll(site: Site, date: string) returns (found: bool, df: Grid, trace: seq<Action>)
    requires site.noData || |site.pages| > 0
    ensures found == !site.noData
    ensures !found ==> df == [] && trace == [Search(date)]
    ensures found ==> df == Concat(ExtractPages(site.pages))
    ensures found ==> |df| == TotalRows(site.pages)
    ensures found ==> trace == [Search(date)] + Visit(|site.pages|)
  {
    trace := [Search(date)];
    df := [];
    found := !site.noData;
    if !found {
      return;
    }
    ghost var tables := ExtractPages(site.pages);
    var i := 0;
    while true
      invariant 0 <= i < |site.pages|
      invariant df == Concat(tables[..i])
      invariant trace == [Search(date)] + ReadAndAdvance(i)
      decreases |site.pages| - i
    {
      var page := ExtractTable(site.pages[i]);
      assert tables[..i + 1] == tables[..i] + [page];
      ConcatAppend(tables[..i], page);
      df := df + page;
      trace := trace + [ReadPage(i)];
      if !HasNext(site, i) {
        break;
      }
      trace := trace + [ClickNext];
      i := i + 1;
    }
    assert tables[..i + 1] == tables;
    ConcatLength(tables);
    ExtractedRows(site.pages);
  }
}
