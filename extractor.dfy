/** The table extractor: one page's table as a grid of cell texts, with
    carriage returns and line feeds taken out of every cell
    (`get_page_table` in web_scrapping.py). */
module Extractor {
  import opened Seqs

  type Row = seq<string>
  type Grid = seq<Row>

  /** The cell text with every '\r' and then every '\n' removed. */
  function StripLineBreaks(text: string): (r: string)
    ensures '\r' !in r && '\n' !in r
    ensures |r| <= |text|
    ensures '\r' !in text && '\n' !in text ==> r == text
  {
    RemoveAll(RemoveAll(text, '\r'), '\n')
  }

  /** Every character other than a line break is kept, as often as it occurs. */
  lemma StripLineBreaksKeepsOthers(text: string, c: char)
    requires c != '\r' && c != '\n'
    ensures multiset(StripLineBreaks(text))[c] == multiset(text)[c]
  {
    RemoveAllKeepsOthers(text, '\r', c);
    RemoveAllKeepsOthers(RemoveAll(text, '\r'), '\n', c);
  }

  /** Stripping works character by character, so the kept characters stay
      in their original order. */
  lemma StripLineBreaksAppend(a: string, b: string)
    ensures StripLineBreaks(a + b) == StripLineBreaks(a) + StripLineBreaks(b)
  {
    RemoveAllAppend(a, b, '\r');
    RemoveAllAppend(RemoveAll(a, '\r'), RemoveAll(b, '\r'), '\n');
  }

  /** The extracted table: same rows, same cells per row, each cell stripped. */
  function ExtractTable(raw: Grid): (g: Grid)
    ensures |g| == |raw|
    ensures forall i :: 0 <= i < |raw| ==> |g[i]| == |raw[i]|
    ensures forall i, j :: 0 <= i < |raw| && 0 <= j < |raw[i]| ==>
      '\r' !in g[i][j] && '\n' !in g[i][j] && g[i][j] == StripLineBreaks(raw[i][j])
  {
    seq(|raw|, i requires 0 <= i < |raw| =>
      seq(|raw[i]|, j requires 0 <= j < |raw[i]| => StripLineBreaks(raw[i][j])))
  }

  /** Extraction never changes the shape of a row, so a page whose rows have
      `w` cells still has rows of `w` cells. */
  lemma ExtractKeepsWidth(raw: Grid, w: nat)
    requires HasWidth(raw, w)
    ensures HasWidth(ExtractTable(raw), w)
  {
    var g := ExtractTable(raw);
    forall row | row in g
      ensures |row| == w
    {
      var i :| 0 <= i < |g| && g[i] == row;
      assert raw[i] in raw;
    }
  }
}
