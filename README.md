# Floorsheet scraper: a verified model of the table pipeline

`web_scrapping.py` downloads the daily floorsheet (the table of every share
trade executed that day) from the stock-market site merolagani.com. It
searches for today's date, reads the result table page by page, following
the "Next" link, and cleans the accumulated table. It then writes the table
to `data/mm-dd-yyyy.csv`. On the days the market is closed (Friday, Saturday
and Sunday) it stops before it searches.

This project models the part of that program that has logic of its own,
and proves what it does:

- **Extractor**: every cell's text loses its carriage returns and line
  feeds. A page is a grid of cell texts.
- **Browser**, **Paginator**: the scraping loop appends each page's grid,
  in page order, until no "Next" link is left. The remote site is a value
  (`Site`): either the "no data" answer to the search, or the raw grids of
  the result pages. The loop also returns the sequence of browser actions
  it performs (`Action`).
- **Dedup**: dropping exact duplicate rows keeps the first occurrence of
  each row and the order of the survivors.
- **Cleaner**: the cleaning step, in the program's order:
  - drop duplicates;
  - promote the first row to be the header;
  - drop the `#` column;
  - strip commas from `Rate` and `Amount` and require those cells to be
    numbers.

  Each pandas exception the program would raise is a `CleanError`:
  - an empty frame has no first row;
  - a missing column raises `KeyError`;
  - a cell that does not convert raises `ValueError`.
- **Numbers**: a decimal subset of the text that Python's `float()`
  accepts: an optional sign, digits with at most one decimal point, and an
  optional exponent.
- **Runner**: the top level:
  - closed-day gating;
  - the output file name;
  - the whole run, as an `Outcome` and the trace of actions it performs.

Modules `Seqs` (removal of an element, positions that survive it, and
projection) and `Wrappers` (`Result`) are shared helpers.

The imperative parts of the program are methods:
- the `while True` loop of `scrape_data` is `Paginator.ScrapeAll`;
- the stepwise rebinding in `clean_df` is `Cleaner.CleanDf`;
- the top-level script is `Runner.Run` and `Runner.CleanAndSave`.

Each method is proved against a function and its lemmas.

## Model

| member | source | states |
|---|---|---|
| Extractor.StripLineBreaks | web_scrapping.py:52 | the cleaned cell text contains no '\r' and no '\n', is no longer than the raw text, and is the raw text itself when that has no line break |
| Extractor.StripLineBreaksKeepsOthers | web_scrapping.py:52 | every character other than '\r' and '\n' occurs as often in the cleaned text as in the raw text |
| Extractor.StripLineBreaksAppend | web_scrapping.py:52 | stripping a concatenation is the concatenation of the stripped parts, so the kept characters stay in their order |
| Extractor.ExtractTable | web_scrapping.py:52-53 | the page grid has the same rows and the same number of cells per row as the page's table; each cell is the stripped cell text and has no line break |
| Extractor.ExtractKeepsWidth | web_scrapping.py:52-53 | extraction keeps the shape of a page: rows of w cells stay rows of w cells |
| Browser.ReadAndAdvance | web_scrapping.py:63-69 | reading and advancing n times is 2n actions: page k is read at step 2k and "Next" is followed right after |
| Paginator.Concat | web_scrapping.py:62-65 | the accumulator after every page: the rows of all pages, one page after the other (its properties are the Concat lemmas below) |
| Browser.HasNext | web_scrapping.py:67-71 | the "Next" link is found on result page i exactly when a later page exists; its absence ends the loop |
| Paginator.ConcatAppend | web_scrapping.py:65 | appending one more page to the accumulator adds exactly that page's rows at the end |
| Paginator.ConcatLength | web_scrapping.py:62-65 | the accumulated grid has as many rows as all pages together |
| Paginator.ConcatRowAt | web_scrapping.py:62-65 | row i of page k is the row at position (rows of pages before k) + i of the accumulated grid, so pages and rows keep their order |
| Paginator.ConcatWidth | web_scrapping.py:65 | pages whose rows all have w cells accumulate to a grid whose rows have w cells |
| Paginator.ExtractedRows | web_scrapping.py:52-53 | extracting every page keeps the total number of rows |
| Paginator.ScrapeAll | web_scrapping.py:59-73 | on a "no data" answer the search is the only action and `found` is false, with an empty grid standing in for the `sys.exit()` that ends the program inside `search`; otherwise the result is the in-order concatenation of every extracted page, its length is the sum of the page lengths, and the actions are the search, then every page read in order with "Next" followed after all but the last |
| Dedup.DropDuplicates | web_scrapping.py:78 | the result has no two equal rows, holds exactly the rows of the input, is no longer, and starts with the input's first row |
| Dedup.FirstOccurrencesSpec | web_scrapping.py:78 | the positions of first occurrences are increasing, each is a first occurrence, and every first occurrence is among them |
| Dedup.DropDuplicatesKeepsFirst | web_scrapping.py:78 | the result is the subsequence of the input made of the first occurrence of each row, in input order |
| Dedup.DropDuplicatesOfDistinct | web_scrapping.py:78 | an input without duplicates is unchanged |
| Dedup.DropDuplicatesIdempotent | web_scrapping.py:78 | dropping duplicates twice is dropping them once |
| Dedup.DropDuplicatesHeadOnce | web_scrapping.py:78-80 | no later copy of the first row survives |
| Dedup.DropDuplicatesRectangular | web_scrapping.py:78 | dropping rows keeps a rectangular grid rectangular |
| Cleaner.PromoteHeader | web_scrapping.py:79-81 | promotion fails on an empty frame; otherwise the header followed by the body is the frame, the body has one row fewer, and on a rectangular frame every body row has one cell per column |
| Cleaner.CleanHeader | web_scrapping.py:78-81 | for a non-empty grid the header is the first scraped row and the body the deduplicated rows after it; cleaning is the remaining steps on that table |
| Cleaner.RepeatedHeaderDropped | web_scrapping.py:78-81 | a row equal to the first scraped row, such as the header row repeated on every page, never appears in the body |
| Cleaner.DropColumn | web_scrapping.py:82 | dropping a column fails exactly when no column has that name; otherwise no column of that name is left, the column count drops by the number of columns of that name, the other columns remain in order, and the body keeps its rows, each with one cell per remaining column |
| Cleaner.DropColumnCells | web_scrapping.py:82 | every surviving column and every one of its cells is the one at its surviving position in the input |
| Cleaner.DropColumnKeepsColumn | web_scrapping.py:82 | two other columns both survive, in the same relative order, with all their cells |
| Cleaner.StripCommasCells | web_scrapping.py:84-85 | in the named columns every cell loses all its commas and nothing else; every other cell is unchanged |
| Cleaner.StripCommas | web_scrapping.py:84-85 | the `replace` of every ',' by nothing in one column: the table keeps its columns and its number of rows, and every row one cell per column (cell contents in StripCommasCells) |
| Cleaner.ToNumeric | web_scrapping.py:84-85 | conversion succeeds exactly when the column exists and each of its cells is a number once its commas are gone; a missing column and a cell that does not convert are distinct errors; on success the table is the comma-stripped table and the column holds numbers only |
| Cleaner.CleanTable | web_scrapping.py:82-85 | the steps after header promotion, in order: drop "#", convert Rate, convert Amount, stopping at the first that raises (its properties are the CleanTable lemmas below) |
| Cleaner.Clean | web_scrapping.py:77-86 | `clean_df` on a rectangular grid: drop duplicates, promote the header, then the remaining steps (its properties are the Clean lemmas below) |
| Cleaner.DropColumnConvertsIff | web_scrapping.py:82-85 | dropping "#" does not change whether the Rate or Amount cells convert |
| Cleaner.StripOtherConvertsIff | web_scrapping.py:84-85 | stripping Rate first does not change whether the Amount cells convert |
| Cleaner.CleanTableSucceedsIff | web_scrapping.py:82-85 | after promotion, the steps succeed exactly when "#", Rate and Amount are columns and every Rate and Amount cell converts |
| Cleaner.CleanTableErrors | web_scrapping.py:82-85 | a missing "#" is reported first, then a missing Rate; no other error can occur than the five the steps raise |
| Cleaner.CleanTableShape | web_scrapping.py:82-85 | a successful result has the columns without "#", with Rate and Amount among them, one fewer column per "#" header, and the same rows |
| Cleaner.CleanTableCells | web_scrapping.py:82-85 | each resulting cell is the input cell of its column in the same row, without commas in Rate and Amount and untouched elsewhere |
| Cleaner.CleanTableNumbers | web_scrapping.py:84-85 | every resulting Rate and Amount cell is a number and has no comma |
| Cleaner.CleanSucceedsIff | web_scrapping.py:77-86 | cleaning succeeds exactly when the grid is non-empty, its first row names "#", Rate and Amount, and every Rate and Amount cell of the distinct later rows converts |
| Cleaner.CleanErrors | web_scrapping.py:77-86 | an empty grid fails first; then a missing "#", then a missing Rate; the error is one of the six cleaning can raise |
| Cleaner.CleanShape | web_scrapping.py:77-86 | a successful cleaning has the first scraped row without "#" as its columns, one fewer column per "#", and one data row per distinct row after the first |
| Cleaner.CleanNumbers | web_scrapping.py:84-86 | every Rate and Amount cell of a successful cleaning is a number without commas |
| Cleaner.CleanDf | web_scrapping.py:77-86 | the stepwise cleaning, which stops at the first step that raises, returns the same result as the cleaning function |
| Numbers.IsNumeric | web_scrapping.py:84-85 | the text `astype(float)` is modelled to accept: an optional sign, digits with at most one point and at least one digit, and an optional exponent (NumericHasDigit, AllDigitsNumeric and DecimalNumeric below) |
| Numbers.LeadingDigits | web_scrapping.py:84-85 | the counted prefix is all digits and is followed by a non-digit or the end of the text |
| Numbers.NumericHasDigit | web_scrapping.py:84-85 | text that converts has at least one digit |
| Numbers.DigitlessNeverNumeric | web_scrapping.py:84-85 | a cell without digits does not convert, even after its commas are stripped |
| Numbers.AllDigitsNumeric | web_scrapping.py:84-85 | a non-empty run of digits converts |
| Numbers.DigitsAndCommasAreNumeric | web_scrapping.py:84-85 | a cell of digits and commas, with a digit among them, converts once the commas are stripped ("1,234" as 1234) |
| Numbers.StripSeparator | web_scrapping.py:84-85 | stripping the comma between two comma-free groups joins the groups |
| Numbers.DecimalNumeric | web_scrapping.py:84-85 | digits, a decimal point and digits make a number |
| Numbers.GroupedDecimal | web_scrapping.py:84-85 | a grouped amount such as "1,234.50" becomes "1234.50" and converts |
| Seqs.RemoveAll | web_scrapping.py:52 | the removed element no longer occurs, the result is no longer than the input, holds only input elements, and is the input when the element was absent |
| Seqs.RemoveAllLength | web_scrapping.py:82 | removal shortens the input by exactly the number of occurrences of the element |
| Seqs.RemoveAllKeepsOthers | web_scrapping.py:52 | every other element occurs as often as before |
| Seqs.RemoveAllAppend | web_scrapping.py:52 | removal distributes over concatenation, so the kept elements stay in order |
| Seqs.KeptPositionsSpec | web_scrapping.py:82 | the surviving positions are increasing, select exactly the removal's result, and include every position not holding the element |
| Runner.IsClosedDay | web_scrapping.py:104-106 | the weekday is one of friday, saturday and sunday, on which Run skips everything |
| Runner.OutputPath | web_scrapping.py:123-124 | the output path is "data/", then the file name of the date, then ".csv", and is 9 characters longer than the date |
| Runner.FileName | web_scrapping.py:123 | the file name has the length of the date, has no '/', and at every position holds '-' where the date holds '/' and the date's character elsewhere |
| Runner.FileNameOfDate | web_scrapping.py:123 | a date formatted mm/dd/yyyy becomes mm-dd-yyyy |
| Runner.FileNameInjective | web_scrapping.py:123 | two different formatted dates never write the same file |
| Runner.CleanAndSave | web_scrapping.py:117-124 | on successful cleaning, the cleaned table is saved to data/<file name>.csv and that write is the only action; on a cleaning error nothing is written |
| Runner.Run | web_scrapping.py:104-124 | a run on friday, saturday or sunday performs no search, reads no page and writes nothing; a "no data" answer stops the run after the first search; otherwise the actions are two searches, every page read in order with "Next" between, the end of the session, and the write exactly when cleaning succeeds; the outcome is the cleaned table of the accumulated, extracted pages saved under the date's file name, or the cleaning error |

## Left out

- Selenium driving is not modelled: the browser, the fixed XPath and link lookups, and page loading (web_scrapping.py:14-46, 67-69, 90-98). A `Site` gives, for the searched date, either the "no data" answer or the raw grids of the result pages in the order "Next" visits them. The date that is searched does not select the pages.
- The exceptions `search` catches and prints (element not found, timeout, anything else) are not modelled. Such a failure leaves the browser on whatever page it was on; the model's site always answers the search.
- HTML parsing with BeautifulSoup is not modelled. A page arrives as a grid of the raw cell texts of its `tr`/`th`/`td` elements. A page without the result table makes the source fail with an `AttributeError`; the model has no such page.
- pandas pads ragged rows with missing values and keeps a row index. `Cleaner.Clean`, `Cleaner.CleanDf` and `Runner.Run` instead require rows of equal length: `Run` takes the common row width of the site's pages as a ghost parameter.
- Column selection in pandas returns more than one column when several columns share a name. The model strips and checks every column called `Rate` (or `Amount`), which is what the source does when each name occurs once.
- Numbers.IsNumeric: a stricter acceptance than Python's `float()`. It does not accept surrounding whitespace, `inf`, `nan`, `infinity` or digit-grouping underscores. The floating-point value itself, and therefore its rounding, is not modelled.
- Cleaner.ToNumeric: keeps the comma-free text of each Rate and Amount cell, not the `float` it converts to.
- ScrapeAll: a site whose "Next" link never disappears cannot be represented. A `Site` has a finite list of result pages and `HasNext` is defined by that list, so every modelled loop ends; the source's `while True` loop (web_scrapping.py:63-71) has no page limit and would keep reading pages without end on such a site.
- The clock is a parameter of `Runner.Run`: the weekday name and the formatted date are inputs (web_scrapping.py:60, 72, 101-102). Timing and messages are not modelled.
- A "no data" answer, or a closed day, ends the program through `sys.exit()`/`exit()` (web_scrapping.py:36, 113). The model returns instead: `Paginator.ScrapeAll` with `found` false and an empty grid, `Runner.Run` with `NoData` or `MarketClosed`, each with the actions performed up to that point.
- The browser session is started before the weekday is checked (web_scrapping.py:98) and is not ended on a closed day or a "no data" answer. The model does not represent starting the session, so `Runner.Run`'s empty trace on a closed day means no search, no page read and no write, not that nothing was started.
- The model does not create the `data` directory (web_scrapping.py:121-122). The CSV contents and `index=False` are not modelled either: the write is the `WriteCsv` action carrying the output path, and the saved table is the outcome.
- The top-level `search` at web_scrapping.py:108 is followed by a second search at the start of `scrape_data` (web_scrapping.py:61). The model keeps both in the trace. Both searches are for the same date, so pages and output are the same.
