/**
 * `clean_dataset`: the five steps of the car-price cleaner in their fixed
 * order. Dropping duplicates, dropping incomplete rows and filling are
 * whole-table steps that yield a new table; the two coercions then
 * overwrite columns of the DataFrame in place, one column at a time.
 */
module Cleaner {
  import opened Seqs
  import opened Frames
  import opened Duplicates
  import opened DropMissing
  import opened Fill
  import opened Coerce

  /** A row missing any of these columns is dropped. */
  const ImportantCols: seq<ColumnName> := ["sellingprice", "odometer", "make", "model", "year"]

  /** These columns, where the table has them, are coerced to numbers. */
  const NumericCols: seq<ColumnName> := ["sellingprice", "odometer", "year", "mmr", "condition"]

  /** This column, if the table has it, is coerced to date-times. */
  const SaleDate: ColumnName := "saledate"

  /**
   * The three column lists: neither repeats a name, `saledate` is in
   * neither, and `make` and `model` are the only important columns that
   * are not coerced to numbers.
   */
  lemma ColumnLists()
    ensures Distinct(ImportantCols) && Distinct(NumericCols)
    ensures SaleDate !in ImportantCols && SaleDate !in NumericCols
    ensures (set n | n in ImportantCols && n !in NumericCols) == {"make", "model"}
  {
    assert "make" in ImportantCols && "model" in ImportantCols;
  }

  /** The table has every column of `important_cols`, so `dropna` does not raise. */
  predicate HasImportantColumns(t: Table) {
    forall n :: n in ImportantCols ==> n in t.columns
  }

  /**
   * The numeric step: each column of `numeric_cols` that the table has is
   * coerced cell by cell; the other columns, the column list and the row
   * count are kept.
   */
  function NumericStep(t: Table, parseNum: Value -> Option<real>): (r: Table)
    requires WellFormed(t)
    ensures WellFormed(r) && r.columns == t.columns && |r.rows| == |t.rows|
    ensures forall i, c :: 0 <= i < |t.rows| && 0 <= c < |t.columns| ==>
      r.rows[i][c] == if t.columns[c] in NumericCols then ToNumeric(t.rows[i][c], parseNum) else t.rows[i][c]
  {
    MapColumns(t, NumericCols, AsNumber(parseNum))
  }

  /**
   * The date step: the `saledate` column, if the table has it, is coerced
   * cell by cell; every other cell, the column list and the row count are
   * kept.
   */
  function DateStep(t: Table, parseDate: Value -> Option<Timestamp>): (r: Table)
    requires WellFormed(t)
    ensures WellFormed(r) && r.columns == t.columns && |r.rows| == |t.rows|
    ensures forall i, c :: 0 <= i < |t.rows| && 0 <= c < |t.columns| ==>
      r.rows[i][c] == if t.columns[c] == SaleDate then ToDatetime(t.rows[i][c], parseDate) else t.rows[i][c]
    ensures SaleDate !in t.columns ==> r == t
  {
    if SaleDate in t.columns then MapColumns(t, [SaleDate], AsDatetime(parseDate))
    else
      MapColumnsAbsent(t, [SaleDate], AsDatetime(parseDate));
      MapColumns(t, [SaleDate], AsDatetime(parseDate))
  }

  /**
   * What `clean_dataset` returns: it fails when an important column is
   * absent; otherwise the table keeps its columns and has at most as many
   * rows as before.
   */
  function Clean(raw: Table, parseNum: Value -> Option<real>, parseDate: Value -> Option<Timestamp>)
    : (r: Result<Table, CleanError>)
    requires WellFormed(raw)
    ensures r.Err? <==> exists n :: n in ImportantCols && n !in raw.columns
    ensures r.Ok? <==> HasImportantColumns(raw)
    ensures r.Err? ==> r.error == MissingColumns(AbsentColumns(ImportantCols, raw.columns))
    ensures r.Ok? ==> WellFormed(r.value) && r.value.columns == raw.columns && |r.value.rows| <= |raw.rows|
  {
    var deduped := DropDuplicates(raw);
    match DropNa(deduped, ImportantCols)
    case Err(e) => Err(e)
    case Ok(kept) =>
      DropNaKeepsCompleteRows(deduped, ImportantCols);
      Ok(DateStep(NumericStep(FillNa(kept), parseNum), parseDate))
  }

  /**
   * The loop over `numeric_cols`: every listed name that is a column of the
   * frame has its column replaced by its numeric coercion.
   */
  method CoerceNumericColumns(df: DataFrame, parseNum: Value -> Option<real>)
    requires df.Valid()
    modifies df
    ensures df.Valid() && df.Snapshot() == NumericStep(old(df.Snapshot()), parseNum)
  {
    ghost var start := df.Snapshot();
    var f := AsNumber(parseNum);
    for k := 0 to |NumericCols|
      invariant df.Valid() && df.columns == start.columns && |df.rows| == |start.rows|
      invariant forall i, c :: 0 <= i < |df.rows| && 0 <= c < |df.columns| ==>
        df.rows[i][c] == if df.columns[c] in NumericCols[..k] then f(start.rows[i][c]) else start.rows[i][c]
    {
      var name := NumericCols[k];
      assert NumericCols[..k + 1] == NumericCols[..k] + [name];
      assert name !in NumericCols[..k];
      if name in df.columns {
        var c := IndexOf(df.columns, name);
        var rows := df.rows;
        var coerced := seq(|rows|, i requires 0 <= i < |rows| => f(rows[i][c]));
        df.AssignColumn(c, coerced);
      }
    }
    assert NumericCols[..|NumericCols|] == NumericCols;
    MapColumnsCellwise(start, NumericCols, f, df.Snapshot());
  }

  /** `if "saledate" in df.columns`: that column is replaced by its date-time coercion. */
  method CoerceSaleDate(df: DataFrame, parseDate: Value -> Option<Timestamp>)
    requires df.Valid()
    modifies df
    ensures df.Valid() && df.Snapshot() == DateStep(old(df.Snapshot()), parseDate)
  {
    ghost var start := df.Snapshot();
    var f := AsDatetime(parseDate);
    if SaleDate in df.columns {
      var c := IndexOf(df.columns, SaleDate);
      var rows := df.rows;
      var coerced := seq(|rows|, i requires 0 <= i < |rows| => f(rows[i][c]));
      df.AssignColumn(c, coerced);
      MapColumnsCellwise(start, [SaleDate], f, df.Snapshot());
    } else {
      MapColumnsAbsent(start, [SaleDate], f);
    }
  }

  /** `clean_dataset(df)`: the five steps in order, as `Clean` specifies them. */
  method CleanDataset(raw: Table, parseNum: Value -> Option<real>, parseDate: Value -> Option<Timestamp>)
    returns (result: Result<Table, CleanError>)
    requires WellFormed(raw)
    ensures result == Clean(raw, parseNum, parseDate)
    ensures result.Err? <==> exists n :: n in ImportantCols && n !in raw.columns
    ensures result.Ok? ==> result.value.columns == raw.columns && |result.value.rows| <= |raw.rows|
  {
    var deduped := DropDuplicates(raw);
    var kept := DropNa(deduped, ImportantCols);
    if kept.Err? {
      return Err(kept.error);
    }
    var filled := FillNa(kept.value);
    var df := new DataFrame(filled);
    CoerceNumericColumns(df, parseNum);
    CoerceSaleDate(df, parseDate);
    result := Ok(df.Snapshot());
  }

  /** The table `dropna` leaves, which the fill and coercion steps then transform. */
  function Kept(raw: Table): Table
    requires WellFormed(raw) && HasImportantColumns(raw)
  {
    DropNa(DropDuplicates(raw), ImportantCols).value
  }

  /**
   * Cell by cell, the cleaner's output is the filled `dropna` table with
   * the numeric columns and `saledate` coerced.
   */
  lemma CleanCells(raw: Table, parseNum: Value -> Option<real>, parseDate: Value -> Option<Timestamp>)
    requires WellFormed(raw) && HasImportantColumns(raw)
    ensures Clean(raw, parseNum, parseDate).Ok?
    ensures WellFormed(Kept(raw)) && Kept(raw).columns == raw.columns
    ensures |Clean(raw, parseNum, parseDate).value.rows| == |Kept(raw).rows|
    ensures forall i, c :: 0 <= i < |Kept(raw).rows| && 0 <= c < |raw.columns| ==>
      var filled := FillColumn(Column(Kept(raw), c))[i];
      var numeric := if raw.columns[c] in NumericCols then ToNumeric(filled, parseNum) else filled;
      Clean(raw, parseNum, parseDate).value.rows[i][c] ==
        if raw.columns[c] == SaleDate then ToDatetime(numeric, parseDate) else numeric
  {
  }

  /**
   * `make` and `model`, the important columns that are not coerced, are
   * never missing in the output.
   */
  lemma CleanKeepsMakeAndModel(raw: Table, parseNum: Value -> Option<real>, parseDate: Value -> Option<Timestamp>)
    requires WellFormed(raw) && HasImportantColumns(raw)
    ensures forall i, n ::
      (0 <= i < |Clean(raw, parseNum, parseDate).value.rows| && n in ImportantCols && n !in NumericCols) ==>
      Get(Clean(raw, parseNum, parseDate).value, i, n).Present?
  {
    var out := Clean(raw, parseNum, parseDate).value;
    assert |out.rows| == |Kept(raw).rows| by {
      CleanCells(raw, parseNum, parseDate);
    }
    forall i, n | 0 <= i < |out.rows| && n in ImportantCols && n !in NumericCols
      ensures Get(out, i, n).Present?
    {
      var cell := KeptCellAt(raw, parseNum, parseDate, i, IndexOf(raw.columns, n));
    }
  }

  /** Some input row holds at `n` a non-number that the numeric parser rejects. */
  predicate RejectedSomewhere(raw: Table, n: ColumnName, parseNum: Value -> Option<real>)
    requires WellFormed(raw) && n in raw.columns
  {
    exists j :: 0 <= j < |raw.rows| && RejectedAt(raw, j, n, parseNum)
  }

  predicate RejectedAt(raw: Table, j: nat, n: ColumnName, parseNum: Value -> Option<real>)
    requires WellFormed(raw) && j < |raw.rows| && n in raw.columns
  {
    var cell := Get(raw, j, n);
    cell.Present? && !cell.v.Number? && parseNum(cell.v).None?
  }

  /**
   * An important column can only be missing in the output because numeric
   * coercion rejected the value an input row held there.
   */
  lemma CleanKeyColumnMissingOnlyByCoercion(raw: Table, parseNum: Value -> Option<real>,
                                            parseDate: Value -> Option<Timestamp>)
    requires WellFormed(raw) && HasImportantColumns(raw)
    ensures forall i, n ::
      (0 <= i < |Clean(raw, parseNum, parseDate).value.rows| && n in ImportantCols &&
       Get(Clean(raw, parseNum, parseDate).value, i, n) == Missing) ==>
      n in NumericCols && RejectedSomewhere(raw, n, parseNum)
  {
    var out := Clean(raw, parseNum, parseDate).value;
    forall i, n | 0 <= i < |out.rows| && n in ImportantCols && Get(out, i, n) == Missing
      ensures n in NumericCols && RejectedSomewhere(raw, n, parseNum)
    {
      KeyColumnMissingAt(raw, parseNum, parseDate, i, n);
    }
  }

  lemma KeyColumnMissingAt(raw: Table, parseNum: Value -> Option<real>,
                           parseDate: Value -> Option<Timestamp>, i: nat, n: ColumnName)
    requires WellFormed(raw) && HasImportantColumns(raw)
    requires i < |Clean(raw, parseNum, parseDate).value.rows| && n in ImportantCols
    requires Get(Clean(raw, parseNum, parseDate).value, i, n) == Missing
    ensures n in NumericCols && RejectedSomewhere(raw, n, parseNum)
  {
    var c := IndexOf(raw.columns, n);
    var cell := KeptCellAt(raw, parseNum, parseDate, i, c);
    var kept := Kept(raw);
    assert kept.rows[i] in raw.rows;
    var j :| 0 <= j < |raw.rows| && raw.rows[j] == kept.rows[i];
    assert Get(raw, j, n) == cell;
    assert RejectedAt(raw, j, n, parseNum);
  }

  /** The output cell of an important column is the `dropna` table's cell, coerced if numeric. */
  lemma KeptCellAt(raw: Table, parseNum: Value -> Option<real>,
                   parseDate: Value -> Option<Timestamp>, i: nat, c: nat)
    returns (cell: Cell)
    requires WellFormed(raw) && HasImportantColumns(raw)
    requires i < |Kept(raw).rows| && c < |raw.columns|
    requires raw.columns[c] in ImportantCols
    ensures Clean(raw, parseNum, parseDate).Ok? && i < |Clean(raw, parseNum, parseDate).value.rows|
    ensures cell == Kept(raw).rows[i][c] && cell.Present?
    ensures Clean(raw, parseNum, parseDate).value.rows[i][c] ==
      if raw.columns[c] in NumericCols then ToNumeric(cell, parseNum) else cell
  {
    KeptCellFilled(raw, i, c);
    cell := Kept(raw).rows[i][c];
    var filled := FillNa(Kept(raw));
    assert DateStep(NumericStep(filled, parseNum), parseDate).rows[i][c] ==
      if raw.columns[c] in NumericCols then ToNumeric(cell, parseNum) else cell
    by {
      ColumnLists();
      CoercionsCellAt(filled, parseNum, parseDate, i, c);
    }
    CleanIsSteps(raw, parseNum, parseDate);
  }

  /** A cell of an important column after `dropna` has a value, which the fill step keeps. */
  lemma KeptCellFilled(raw: Table, i: nat, c: nat)
    requires WellFormed(raw) && HasImportantColumns(raw)
    requires i < |Kept(raw).rows| && c < |raw.columns|
    requires raw.columns[c] in ImportantCols
    ensures WellFormed(Kept(raw)) && Kept(raw).columns == raw.columns
    ensures Kept(raw).rows[i][c].Present?
    ensures FillNa(Kept(raw)).rows[i][c] == Kept(raw).rows[i][c]
  {
    var kept := Kept(raw);
    assert kept.rows[i] in kept.rows;
    assert HasValuesIn(kept.columns, kept.rows[i], ImportantCols);
    FillKeepsPresent(Column(kept, c), i);
  }

  /** With every important column present, the output is the `dropna` table filled, then coerced. */
  lemma CleanIsSteps(raw: Table, parseNum: Value -> Option<real>, parseDate: Value -> Option<Timestamp>)
    requires WellFormed(raw) && HasImportantColumns(raw)
    ensures WellFormed(Kept(raw)) && Kept(raw).columns == raw.columns
    ensures Clean(raw, parseNum, parseDate) == Ok(DateStep(NumericStep(FillNa(Kept(raw)), parseNum), parseDate))
  {
  }

  /**
   * The output has one row per distinct input row that has every important
   * column: duplicates and incomplete rows are dropped, nothing else is.
   */
  lemma CleanRowCount(raw: Table, parseNum: Value -> Option<real>, parseDate: Value -> Option<Timestamp>)
    requires WellFormed(raw) && HasImportantColumns(raw)
    ensures |Clean(raw, parseNum, parseDate).value.rows| ==
      |set x | x in raw.rows && HasValuesIn(raw.columns, x, ImportantCols)|
  {
    var kept := Kept(raw);
    assert |Clean(raw, parseNum, parseDate).value.rows| == |kept.rows| by {
      CleanCells(raw, parseNum, parseDate);
    }
    assert Distinct(kept.rows) by {
      KeepCompleteDistinct(raw.columns, DropDuplicates(raw).rows, ImportantCols);
    }
    DistinctCardinality(kept.rows);
    assert (set x | x in kept.rows) == (set x | x in raw.rows && HasValuesIn(raw.columns, x, ImportantCols)) by {
      DropNaKeepsCompleteRows(DropDuplicates(raw), ImportantCols);
    }
  }

  /** The fill step leaves the important columns as `dropna` left them: they have no gap to fill. */
  lemma FillKeepsImportantColumns(raw: Table)
    requires WellFormed(raw) && HasImportantColumns(raw)
    ensures forall c :: 0 <= c < |raw.columns| && raw.columns[c] in ImportantCols ==>
      Column(FillNa(Kept(raw)), c) == Column(Kept(raw), c)
  {
    var kept := Kept(raw);
    DropNaKeyColumnsPresent(DropDuplicates(raw), ImportantCols);
    forall c | 0 <= c < |raw.columns| && raw.columns[c] in ImportantCols
      ensures Column(FillNa(kept), c) == Column(kept, c)
    {
      forall i | 0 <= i < |kept.rows|
        ensures FillNa(kept).rows[i][c] == kept.rows[i][c]
      {
        ColumnIndex(kept, c);
        assert Get(kept, i, raw.columns[c]).Present?;
        FillKeepsPresent(Column(kept, c), i);
      }
    }
  }

  /** In the output, every numeric column the table has holds numbers or missing cells. */
  lemma CleanNumericColumns(raw: Table, parseNum: Value -> Option<real>, parseDate: Value -> Option<Timestamp>)
    requires WellFormed(raw) && HasImportantColumns(raw)
    ensures forall i, n :: 0 <= i < |Clean(raw, parseNum, parseDate).value.rows| && n in NumericCols && n in raw.columns ==>
      Get(Clean(raw, parseNum, parseDate).value, i, n) == Missing ||
      Get(Clean(raw, parseNum, parseDate).value, i, n).v.Number?
  {
    var out := Clean(raw, parseNum, parseDate).value;
    forall i, n | 0 <= i < |out.rows| && n in NumericCols && n in raw.columns
      ensures Get(out, i, n) == Missing || Get(out, i, n).v.Number?
    {
      CoercedCellAt(raw, parseNum, parseDate, i, IndexOf(raw.columns, n));
    }
  }

  /** In the output, `saledate`, if the table has it, holds date-times or missing cells. */
  lemma CleanSaleDateColumn(raw: Table, parseNum: Value -> Option<real>, parseDate: Value -> Option<Timestamp>)
    requires WellFormed(raw) && HasImportantColumns(raw) && SaleDate in raw.columns
    ensures forall i :: 0 <= i < |Clean(raw, parseNum, parseDate).value.rows| ==>
      Get(Clean(raw, parseNum, parseDate).value, i, SaleDate) == Missing ||
      Get(Clean(raw, parseNum, parseDate).value, i, SaleDate).v.Time?
  {
    var out := Clean(raw, parseNum, parseDate).value;
    forall i | 0 <= i < |out.rows|
      ensures Get(out, i, SaleDate) == Missing || Get(out, i, SaleDate).v.Time?
    {
      CoercedCellAt(raw, parseNum, parseDate, i, IndexOf(raw.columns, SaleDate));
    }
  }

  lemma CoercedCellAt(raw: Table, parseNum: Value -> Option<real>, parseDate: Value -> Option<Timestamp>, i: nat, c: nat)
    requires WellFormed(raw) && HasImportantColumns(raw)
    requires i < |Kept(raw).rows| && c < |raw.columns|
    ensures Clean(raw, parseNum, parseDate).Ok? && i < |Clean(raw, parseNum, parseDate).value.rows|
    ensures raw.columns[c] in NumericCols ==>
      Clean(raw, parseNum, parseDate).value.rows[i][c] == Missing ||
      Clean(raw, parseNum, parseDate).value.rows[i][c].v.Number?
    ensures raw.columns[c] == SaleDate ==>
      Clean(raw, parseNum, parseDate).value.rows[i][c] == Missing ||
      Clean(raw, parseNum, parseDate).value.rows[i][c].v.Time?
  {
    CleanIsSteps(raw, parseNum, parseDate);
    CoercionsCellAt(FillNa(Kept(raw)), parseNum, parseDate, i, c);
  }

  /**
   * The two coercions on one cell: numeric columns are coerced to numbers,
   * `saledate` to date-times, every other cell is kept; so numeric columns
   * end up holding numbers or missing, `saledate` date-times or missing.
   */
  lemma CoercionsCellAt(t: Table, parseNum: Value -> Option<real>, parseDate: Value -> Option<Timestamp>, i: nat, c: nat)
    requires WellFormed(t) && i < |t.rows| && c < |t.columns|
    ensures DateStep(NumericStep(t, parseNum), parseDate).rows[i][c] ==
      if t.columns[c] == SaleDate then ToDatetime(t.rows[i][c], parseDate)
      else if t.columns[c] in NumericCols then ToNumeric(t.rows[i][c], parseNum)
      else t.rows[i][c]
    ensures t.columns[c] in NumericCols ==>
      DateStep(NumericStep(t, parseNum), parseDate).rows[i][c] == Missing ||
      DateStep(NumericStep(t, parseNum), parseDate).rows[i][c].v.Number?
    ensures t.columns[c] == SaleDate ==>
      DateStep(NumericStep(t, parseNum), parseDate).rows[i][c] == Missing ||
      DateStep(NumericStep(t, parseNum), parseDate).rows[i][c].v.Time?
  {
    assert SaleDate !in NumericCols;
  }
}
