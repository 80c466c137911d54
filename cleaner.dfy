/** The cleaner (`clean_df` in web_scrapping.py): drop duplicate rows, make
    the first surviving row the header, drop the "#" column, and strip the
    thousands separators from the "Rate" and "Amount" columns, which must
    then hold numbers. */
module Cleaner {
  import opened Wrappers
  import opened Seqs
  import opened Extractor
  import opened Dedup
  import opened Numbers

  datatype CleanError =
    | EmptyFrame               // no row to promote to the header
    | MissingColumn(name: string)
    | NotNumeric(column: string)

  /** A data frame: column names and data rows. */
  datatype Table = Table(columns: Row, body: Grid) {
    /** Every data row has one cell per column. */
    predicate Valid() {
      HasWidth(body, |columns|)
    }
  }

  const IndexColumn: string := "#"
  const RateColumn: string := "Rate"
  const AmountColumn: string := "Amount"

  /** Whether a column is one of the two converted to numbers. */
  predicate IsNumericColumn(name: string) {
    name == RateColumn || name == AmountColumn
  }

  /** The first row becomes the column names and the others the data. */
  function PromoteHeader(d: Grid): (r: Result<Table, CleanError>)
    ensures r.Success? <==> d != []
    ensures r.Failure? ==> r.error == EmptyFrame
    ensures r.Success? ==> [r.value.columns] + r.value.body == d
    ensures r.Success? ==> |r.value.body| == |d| - 1
    ensures r.Success? && IsRectangular(d) ==> r.value.Valid()
  {
    if d == [] then Failure(EmptyFrame)
    else
      assert d == [d[0]] + d[1..];
      assert forall row :: row in d[1..] ==> row in d;
      Success(Table(d[0], d[1..]))
  }

  /** Drops every column called `name`, with its cells; fails when there is none. */
  function DropColumn(t: Table, name: string): (r: Result<Table, CleanError>)
    requires t.Valid()
    ensures r.Success? <==> name in t.columns
    ensures r.Failure? ==> r.error == MissingColumn(name)
    ensures r.Success? ==> r.value.Valid() && |r.value.body| == |t.body|
    ensures r.Success? ==> name !in r.value.columns
    ensures r.Success? ==> |r.value.columns| == |t.columns| - multiset(t.columns)[name]
    ensures r.Success? ==> r.value.columns == RemoveAll(t.columns, name)
  {
    if name !in t.columns then Failure(MissingColumn(name))
    else
      var keep := KeptPositions(t.columns, name);
      ProjectKept(t.columns, name);
      RemoveAllLength(t.columns, name);
      var body := seq(|t.body|, i requires 0 <= i < |t.body| =>
        assert t.body[i] in t.body; Project(t.body[i], keep));
      var r := Table(Project(t.columns, keep), body);
      assert r.Valid() by {
        forall row | row in r.body
          ensures |row| == |r.columns|
        {
          var i :| 0 <= i < |body| && body[i] == row;
        }
      }
      Success(r)
  }

  /** Every surviving cell is the cell of its column in the same row. */
  lemma DropColumnCells(t: Table, name: string)
    requires t.Valid() && name in t.columns
    ensures |KeptPositions(t.columns, name)| == |DropColumn(t, name).value.columns|
    ensures forall k :: 0 <= k < |KeptPositions(t.columns, name)| ==>
      DropColumn(t, name).value.columns[k] == t.columns[KeptPositions(t.columns, name)[k]]
    ensures forall i, k :: 0 <= i < |t.body| && 0 <= k < |KeptPositions(t.columns, name)| ==>
      DropColumn(t, name).value.body[i][k] == t.body[i][KeptPositions(t.columns, name)[k]]
  {
  }

  /** A column other than `name` survives DropColumn with all its cells. */
  lemma DropColumnKeepsCells(t: Table, name: string, j: nat) returns (k: nat)
    requires t.Valid() && name in t.columns
    requires j < |t.columns| && t.columns[j] != name
    ensures var r := DropColumn(t, name).value;
      k < |r.columns| && KeptPositions(t.columns, name)[k] == j && r.columns[k] == t.columns[j] &&
      forall i :: 0 <= i < |t.body| ==> r.body[i][k] == t.body[i][j]
  {
    var keep := KeptPositions(t.columns, name);
    KeptPositionsComplete(t.columns, name);
    DropColumnCells(t, name);
    k :| 0 <= k < |keep| && keep[k] == j;
  }

  /** Two columns other than `name` keep their relative order and their
      cells through DropColumn. */
  lemma DropColumnKeepsColumn(t: Table, name: string, j: nat, j': nat) returns (k: nat, k': nat)
    requires t.Valid() && name in t.columns
    requires j < j' < |t.columns| && t.columns[j] != name && t.columns[j'] != name
    ensures var r := DropColumn(t, name).value;
      k < k' < |r.columns| && r.columns[k] == t.columns[j] && r.columns[k'] == t.columns[j'] &&
      forall i :: 0 <= i < |t.body| ==> r.body[i][k] == t.body[i][j] && r.body[i][k'] == t.body[i][j']
  {
    k := DropColumnKeepsCells(t, name, j);
    k' := DropColumnKeepsCells(t, name, j');
    KeptPositionsIncreasing(t.columns, name);
  }

  /** The comma-free text of a cell of column `name`: only the numeric
      columns are touched. */
  function Convert(name: string, cell: string): string {
    if IsNumericColumn(name) then RemoveAll(cell, ',') else cell
  }

  /** Removes every ',' from the cells of the columns called `name`. */
  function StripCommas(t: Table, name: string): (s: Table)
    requires t.Valid()
    ensures s.Valid() && s.columns == t.columns && |s.body| == |t.body|
  {
    var body := seq(|t.body|, i requires 0 <= i < |t.body| =>
      assert t.body[i] in t.body;
      seq(|t.columns|, j requires 0 <= j < |t.columns| =>
        if t.columns[j] == name then RemoveAll(t.body[i][j], ',') else t.body[i][j]));
    var s := Table(t.columns, body);
    assert s.Valid() by {
      forall row | row in s.body
        ensures |row| == |s.columns|
      {
        var i :| 0 <= i < |body| && body[i] == row;
      }
    }
    s
  }

  /** The cells of the columns called `name` lose every ',' and nothing
      else; all other cells are left alone. */
  lemma StripCommasCells(t: Table, name: string)
    requires t.Valid()
    ensures forall i, j :: 0 <= i < |t.body| && 0 <= j < |t.columns| && t.columns[j] == name ==>
      StripCommas(t, name).body[i][j] == RemoveAll(t.body[i][j], ',') && ',' !in StripCommas(t, name).body[i][j]
    ensures forall i, j :: 0 <= i < |t.body| && 0 <= j < |t.columns| && t.columns[j] != name ==>
      StripCommas(t, name).body[i][j] == t.body[i][j]
  {
  }

  /** Every cell of the columns called `name` is a number. */
  predicate ColumnIsNumeric(t: Table, name: string) {
    forall i, j :: 0 <= i < |t.body| && 0 <= j < |t.columns| && j < |t.body[i]| && t.columns[j] == name ==>
      IsNumeric(t.body[i][j])
  }

  /** Every cell of the columns called `name` is a number once its commas are gone. */
  predicate ColumnConverts(t: Table, name: string) {
    forall i, j :: 0 <= i < |t.body| && 0 <= j < |t.columns| && j < |t.body[i]| && t.columns[j] == name ==>
      IsNumeric(RemoveAll(t.body[i][j], ','))
  }

  /** The comma-stripped table when column `name` exists and every one of
      its cells converts; otherwise the error the conversion raises. */
  function ToNumeric(t: Table, name: string): (r: Result<Table, CleanError>)
    requires t.Valid()
    ensures r.Success? <==> name in t.columns && ColumnConverts(t, name)
    ensures r.Failure? && name !in t.columns ==> r.error == MissingColumn(name)
    ensures r.Failure? && name in t.columns ==> r.error == NotNumeric(name)
    ensures r.Success? ==> r.value == StripCommas(t, name) && r.value.Valid()
    ensures r.Success? ==> ColumnIsNumeric(r.value, name)
  {
    if name !in t.columns then Failure(MissingColumn(name))
    else
      var s := StripCommas(t, name);
      StripCommasCells(t, name);
      assert ColumnIsNumeric(s, name) <==> ColumnConverts(t, name);
      if ColumnIsNumeric(s, name) then Success(s) else Failure(NotNumeric(name))
  }

  /** The cleaning steps that follow header promotion. */
  function CleanTable(t: Table): Result<Table, CleanError>
    requires t.Valid()
  {
    var indexless :- DropColumn(t, IndexColumn);
    var rated :- ToNumeric(indexless, RateColumn);
    ToNumeric(rated, AmountColumn)
  }

  /** The whole cleaning of an accumulated grid. */
  function Clean(df: Grid): Result<Table, CleanError>
    requires IsRectangular(df)
  {
    DropDuplicatesRectangular(df);
    var headed :- PromoteHeader(DropDuplicates(df));
    CleanTable(headed)
  }

  /** Dropping "#" keeps what converts in every other column. */
  lemma DropColumnConvertsIff(t: Table, name: string)
    requires t.Valid() && IndexColumn in t.columns && name != IndexColumn
    ensures ColumnConverts(DropColumn(t, IndexColumn).value, name) <==> ColumnConverts(t, name)
  {
    if ColumnConverts(DropColumn(t, IndexColumn).value, name) {
      DropColumnConvertsBack(t, name);
    }
    if ColumnConverts(t, name) {
      DropColumnConvertsOn(t, name);
    }
  }

  lemma DropColumnConvertsOn(t: Table, name: string)
    requires t.Valid() && IndexColumn in t.columns && ColumnConverts(t, name)
    ensures ColumnConverts(DropColumn(t, IndexColumn).value, name)
  {
    var s := DropColumn(t, IndexColumn).value;
    var keep := KeptPositions(t.columns, IndexColumn);
    DropColumnCells(t, IndexColumn);
    forall i, k | 0 <= i < |s.body| && 0 <= k < |s.columns| && k < |s.body[i]| && s.columns[k] == name
      ensures IsNumeric(RemoveAll(s.body[i][k], ','))
    {
      assert t.body[i] in t.body;
      assert s.body[i][k] == t.body[i][keep[k]];
    }
  }

  lemma DropColumnConvertsBack(t: Table, name: string)
    requires t.Valid() && IndexColumn in t.columns && name != IndexColumn
    requires ColumnConverts(DropColumn(t, IndexColumn).value, name)
    ensures ColumnConverts(t, name)
  {
    var s := DropColumn(t, IndexColumn).value;
    var keep := KeptPositions(t.columns, IndexColumn);
    KeptPositionsComplete(t.columns, IndexColumn);
    DropColumnCells(t, IndexColumn);
    forall i, j | 0 <= i < |t.body| && 0 <= j < |t.columns| && j < |t.body[i]| && t.columns[j] == name
      ensures IsNumeric(RemoveAll(t.body[i][j], ','))
    {
      var k :| 0 <= k < |keep| && keep[k] == j;
      assert s.body[i] in s.body;
      assert s.body[i][k] == t.body[i][j];
    }
  }

  /** Stripping another column first does not change what converts in `b`. */
  lemma StripOtherConvertsIff(t: Table, a: string, b: string)
    requires t.Valid() && a != b
    ensures ColumnConverts(StripCommas(t, a), b) <==> ColumnConverts(t, b)
  {
    StripCommasCells(t, a);
  }

  /** Every Rate and Amount cell of the table is a number once its commas are gone. */
  predicate NumericCellsConvert(t: Table) {
    ColumnConverts(t, RateColumn) && ColumnConverts(t, AmountColumn)
  }

  /** After promotion, the steps succeed exactly when the "#", "Rate" and
      "Amount" columns exist and every Rate and Amount cell converts. */
  lemma CleanTableSucceedsIff(t: Table)
    requires t.Valid()
    ensures CleanTable(t).Success? <==>
      IndexColumn in t.columns && RateColumn in t.columns && AmountColumn in t.columns && NumericCellsConvert(t)
  {
    if IndexColumn in t.columns {
      var s := DropColumn(t, IndexColumn).value;
      RemoveAllKeepsOthers(t.columns, IndexColumn, RateColumn);
      RemoveAllKeepsOthers(t.columns, IndexColumn, AmountColumn);
      DropColumnConvertsIff(t, RateColumn);
      DropColumnConvertsIff(t, AmountColumn);
      StripOtherConvertsIff(s, RateColumn, AmountColumn);
    }
  }

  /** Which error the steps stop with, in the order they run. */
  lemma CleanTableErrors(t: Table)
    requires t.Valid()
    ensures IndexColumn !in t.columns ==> CleanTable(t) == Failure(MissingColumn(IndexColumn))
    ensures IndexColumn in t.columns && RateColumn !in t.columns ==> CleanTable(t) == Failure(MissingColumn(RateColumn))
    ensures CleanTable(t).Failure? ==>
      CleanTable(t).error in {MissingColumn(IndexColumn), MissingColumn(RateColumn),
        MissingColumn(AmountColumn), NotNumeric(RateColumn), NotNumeric(AmountColumn)}
  {
    if IndexColumn in t.columns {
      var s := DropColumn(t, IndexColumn).value;
      RemoveAllKeepsOthers(t.columns, IndexColumn, RateColumn);
      assert RateColumn in s.columns <==> RateColumn in t.columns;
      var rate := ToNumeric(s, RateColumn);
      if rate.Success? {
        var amount := ToNumeric(rate.value, AmountColumn);
        assert CleanTable(t) == amount;
      } else {
        assert CleanTable(t) == Failure(rate.error);
      }
    }
  }

  /** The table the steps produce: the columns without "#" (Rate and
      Amount among them) and the same number of rows. */
  lemma CleanTableShape(t: Table)
    requires t.Valid() && CleanTable(t).Success?
    ensures var r := CleanTable(t).value;
      && r.Valid()
      && r.columns == RemoveAll(t.columns, IndexColumn)
      && IndexColumn !in r.columns && RateColumn in r.columns && AmountColumn in r.columns
      && |r.columns| == |t.columns| - multiset(t.columns)[IndexColumn]
      && |r.body| == |t.body|
  {
    RemoveAllKeepsOthers(t.columns, IndexColumn, RateColumn);
    RemoveAllKeepsOthers(t.columns, IndexColumn, AmountColumn);
  }

  /** Each produced cell is the cell of its column in the same row, with
      the commas removed in Rate and Amount and untouched elsewhere. */
  lemma CleanTableCells(t: Table)
    requires t.Valid() && CleanTable(t).Success?
    ensures |KeptPositions(t.columns, IndexColumn)| == |CleanTable(t).value.columns|
    ensures var r := CleanTable(t).value; var keep := KeptPositions(t.columns, IndexColumn);
      forall i, k :: 0 <= i < |r.body| && 0 <= k < |keep| ==>
        assert t.body[i] in t.body; r.body[i][k] == Convert(t.columns[keep[k]], t.body[i][keep[k]])
  {
    var s := DropColumn(t, IndexColumn).value;
    var rated := StripCommas(s, RateColumn);
    var r := StripCommas(rated, AmountColumn);
    assert CleanTable(t).value == r;
    CellsThroughSteps(t, s, rated, r);
  }

  /** Every produced Rate and Amount cell is a number without commas. */
  lemma CleanTableNumbers(t: Table)
    requires t.Valid() && CleanTable(t).Success?
    ensures var r := CleanTable(t).value;
      forall i, k :: 0 <= i < |r.body| && 0 <= k < |r.columns| && k < |r.body[i]| && IsNumericColumn(r.columns[k]) ==>
        IsNumeric(r.body[i][k]) && ',' !in r.body[i][k]
  {
    var s := DropColumn(t, IndexColumn).value;
    var rated := StripCommas(s, RateColumn);
    var r := StripCommas(rated, AmountColumn);
    assert CleanTable(t).value == r;
    NumbersThroughSteps(s, rated, r);
  }

  lemma CellsThroughSteps(t: Table, s: Table, rated: Table, r: Table)
    requires t.Valid() && IndexColumn in t.columns && s == DropColumn(t, IndexColumn).value
    requires rated == StripCommas(s, RateColumn) && r == StripCommas(rated, AmountColumn)
    ensures |KeptPositions(t.columns, IndexColumn)| == |r.columns|
    ensures var keep := KeptPositions(t.columns, IndexColumn);
      forall i, k :: 0 <= i < |r.body| && 0 <= k < |keep| ==>
        assert t.body[i] in t.body; r.body[i][k] == Convert(t.columns[keep[k]], t.body[i][keep[k]])
  {
    var keep := KeptPositions(t.columns, IndexColumn);
    DropColumnCells(t, IndexColumn);
    StripCommasCells(s, RateColumn);
    StripCommasCells(rated, AmountColumn);
    forall i, k | 0 <= i < |r.body| && 0 <= k < |keep|
      ensures assert t.body[i] in t.body; r.body[i][k] == Convert(t.columns[keep[k]], t.body[i][keep[k]])
    {
      assert t.body[i] in t.body;
      var name := s.columns[k];
      assert name == t.columns[keep[k]];
      assert s.body[i][k] == t.body[i][keep[k]];
      if name == RateColumn {
        assert rated.body[i][k] == RemoveAll(s.body[i][k], ',');
        assert r.body[i][k] == rated.body[i][k];
      } else if name == AmountColumn {
        assert rated.body[i][k] == s.body[i][k];
        assert r.body[i][k] == RemoveAll(rated.body[i][k], ',');
      } else {
        assert rated.body[i][k] == s.body[i][k];
        assert r.body[i][k] == rated.body[i][k];
      }
    }
  }

  lemma NumbersThroughSteps(s: Table, rated: Table, r: Table)
    requires s.Valid() && rated == StripCommas(s, RateColumn) && r == StripCommas(rated, AmountColumn)
    requires ColumnIsNumeric(rated, RateColumn) && ColumnIsNumeric(r, AmountColumn)
    ensures forall i, k :: 0 <= i < |r.body| && 0 <= k < |r.columns| && IsNumericColumn(r.columns[k]) ==>
      IsNumeric(r.body[i][k]) && ',' !in r.body[i][k]
  {
    StripCommasCells(s, RateColumn);
    StripCommasCells(rated, AmountColumn);
    forall i, k | 0 <= i < |r.body| && 0 <= k < |r.columns| && IsNumericColumn(r.columns[k])
      ensures IsNumeric(r.body[i][k]) && ',' !in r.body[i][k]
    {
      assert rated.body[i] in rated.body;
      if r.columns[k] == RateColumn {
        assert r.body[i][k] == rated.body[i][k];
      }
    }
  }

  /** The first scraped row is the header, and the distinct later rows the data. */
  lemma CleanHeader(df: Grid)
    requires IsRectangular(df) && df != []
    ensures PromoteHeader(DropDuplicates(df)).Success?
    ensures PromoteHeader(DropDuplicates(df)).value == Table(df[0], DropDuplicates(df)[1..])
    ensures PromoteHeader(DropDuplicates(df)).value.Valid()
    ensures Clean(df) == CleanTable(Table(df[0], DropDuplicates(df)[1..]))
  {
    DropDuplicatesRectangular(df);
  }

  /** Every page repeats the header row; none of those copies reaches the
      body of the promoted table. */
  lemma RepeatedHeaderDropped(df: Grid, i: nat)
    requires IsRectangular(df) && i < |df| && df[i] == df[0]
    ensures PromoteHeader(DropDuplicates(df)).Success?
    ensures df[i] !in PromoteHeader(DropDuplicates(df)).value.body
  {
    CleanHeader(df);
    DropDuplicatesHeadOnce(df);
  }

  /** Cleaning succeeds exactly when there is a row, the first row names the
      "#", "Rate" and "Amount" columns, and every Rate and Amount cell of the
      distinct later rows is a number once its commas are gone. */
  lemma CleanSucceedsIff(df: Grid)
    requires IsRectangular(df)
    ensures Clean(df).Success? <==>
      df != [] && IndexColumn in df[0] && RateColumn in df[0] && AmountColumn in df[0] &&
      NumericCellsConvert(Table(df[0], DropDuplicates(df)[1..]))
  {
    if df != [] {
      CleanHeader(df);
      CleanTableSucceedsIff(Table(df[0], DropDuplicates(df)[1..]));
    }
  }

  /** Which error cleaning stops with: an empty grid cannot have a header; a
      missing column is reported by name, in the order the steps run. */
  lemma CleanErrors(df: Grid)
    requires IsRectangular(df)
    ensures df == [] ==> Clean(df) == Failure(EmptyFrame)
    ensures df != [] && IndexColumn !in df[0] ==> Clean(df) == Failure(MissingColumn(IndexColumn))
    ensures df != [] && IndexColumn in df[0] && RateColumn !in df[0] ==> Clean(df) == Failure(MissingColumn(RateColumn))
    ensures Clean(df).Failure? ==>
      Clean(df).error in {EmptyFrame, MissingColumn(IndexColumn), MissingColumn(RateColumn),
        MissingColumn(AmountColumn), NotNumeric(RateColumn), NotNumeric(AmountColumn)}
  {
    if df != [] {
      CleanHeader(df);
      CleanTableErrors(Table(df[0], DropDuplicates(df)[1..]));
    }
  }

  /** A successful cleaning has the first scraped row without "#" as its
      columns (Rate and Amount among them) and one data row per distinct
      later row. */
  lemma CleanShape(df: Grid)
    requires IsRectangular(df) && Clean(df).Success?
    ensures df != []
    ensures var t := Clean(df).value;
      && t.Valid()
      && t.columns == RemoveAll(df[0], IndexColumn)
      && IndexColumn !in t.columns && RateColumn in t.columns && AmountColumn in t.columns
      && |t.columns| == |df[0]| - multiset(df[0])[IndexColumn]
      && |t.body| == |DropDuplicates(df)| - 1
  {
    CleanHeader(df);
    CleanTableShape(Table(df[0], DropDuplicates(df)[1..]));
  }

  /** Every Rate and Amount cell of a successful cleaning is a number without commas. */
  lemma CleanNumbers(df: Grid)
    requires IsRectangular(df) && Clean(df).Success?
    ensures var t := Clean(df).value;
      forall i, k :: 0 <= i < |t.body| && 0 <= k < |t.columns| && k < |t.body[i]| && IsNumericColumn(t.columns[k]) ==>
        IsNumeric(t.body[i][k]) && ',' !in t.body[i][k]
  {
    CleanHeader(df);
    CleanTableNumbers(Table(df[0], DropDuplicates(df)[1..]));
  }

  /** `clean_df` step by step: each stage rebinds the frame, and any stage
      that raises ends the cleaning with its error. */
  method CleanDf(df: Grid) returns (r: Result<Table, CleanError>)
    requires IsRectangular(df)
    ensures r == Clean(df)
  {
    var newDf := DropDuplicates(df);
    DropDuplicatesRectangular(df);
    var promoted := PromoteHeader(newDf);
    if promoted.Failure? {
      return Failure(promoted.error);
    }
    var frame := promoted.value;
    var dropped := DropColumn(frame, IndexColumn);
    if dropped.Failure? {
      return Failure(dropped.error);
    }
    frame := dropped.value;
    var rate := ToNumeric(frame, RateColumn);
    if rate.Failure? {
      return Failure(rate.error);
    }
    frame := rate.value;
    r := ToNumeric(frame, AmountColumn);
  }
}
