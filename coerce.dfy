/**
 * Steps 4 and 5 of the cleaner at the level of cells and columns:
 * `pd.to_numeric(..., errors="coerce")` and `pd.to_datetime(..., errors="coerce")`.
 * The text-to-number and text-to-date parsers of pandas are parameters:
 * partial functions that say which values they accept.
 */
module Coerce {
  import opened Seqs
  import opened Frames

  /**
   * `to_numeric` with `errors="coerce"` on one cell: a number stays, any
   * other value becomes the number the parser reads from it, or missing
   * when the parser rejects it. It never fails.
   */
  function ToNumeric(c: Cell, parseNum: Value -> Option<real>): (r: Cell)
    ensures r == Missing || r.v.Number?
    ensures c == Missing ==> r == Missing
    ensures c.Present? && c.v.Number? ==> r == c
    ensures c.Present? && !c.v.Number? ==>
      r == (if parseNum(c.v).Some? then Present(Number(parseNum(c.v).value)) else Missing)
  {
    match c
    case Missing => Missing
    case Present(Number(_)) => c
    case Present(v) =>
      match parseNum(v)
      case Some(x) => Present(Number(x))
      case None => Missing
  }

  /**
   * `to_datetime` with `errors="coerce"` on one cell: a date-time stays, any
   * other value becomes the date-time the parser reads from it, or missing
   * (NaT) when the parser rejects it. It never fails.
   */
  function ToDatetime(c: Cell, parseDate: Value -> Option<Timestamp>): (r: Cell)
    ensures r == Missing || r.v.Time?
    ensures c == Missing ==> r == Missing
    ensures c.Present? && c.v.Time? ==> r == c
    ensures c.Present? && !c.v.Time? ==>
      r == (if parseDate(c.v).Some? then Present(Time(parseDate(c.v).value)) else Missing)
  {
    match c
    case Missing => Missing
    case Present(Time(_)) => c
    case Present(v) =>
      match parseDate(v)
      case Some(at) => Present(Time(at))
      case None => Missing
  }

  /** Coercing a cell a second time changes nothing. */
  lemma ToNumericIdempotent(c: Cell, parseNum: Value -> Option<real>)
    ensures ToNumeric(ToNumeric(c, parseNum), parseNum) == ToNumeric(c, parseNum)
  {
  }

  lemma ToDatetimeIdempotent(c: Cell, parseDate: Value -> Option<Timestamp>)
    ensures ToDatetime(ToDatetime(c, parseDate), parseDate) == ToDatetime(c, parseDate)
  {
  }

  /** The numeric coercion as a cell transformer. */
  function AsNumber(parseNum: Value -> Option<real>): Cell -> Cell {
    c => ToNumeric(c, parseNum)
  }

  /** The date-time coercion as a cell transformer. */
  function AsDatetime(parseDate: Value -> Option<Timestamp>): Cell -> Cell {
    c => ToDatetime(c, parseDate)
  }

  /**
   * `df[name] = f(df[name])` for every `name` of `names` that is a column of
   * `t`: those columns are transformed cell by cell; names that are not
   * columns are skipped; every other cell, the columns and the row count are
   * unchanged.
   */
  function MapColumns(t: Table, names: seq<ColumnName>, f: Cell -> Cell): (r: Table)
    requires WellFormed(t)
    ensures WellFormed(r) && r.columns == t.columns && |r.rows| == |t.rows|
    ensures forall i, c :: 0 <= i < |t.rows| && 0 <= c < |t.columns| ==>
      r.rows[i][c] == if t.columns[c] in names then f(t.rows[i][c]) else t.rows[i][c]
  {
    Table(t.columns,
      seq(|t.rows|, i requires 0 <= i < |t.rows| =>
        seq(|t.columns|, c requires 0 <= c < |t.columns| =>
          if t.columns[c] in names then f(t.rows[i][c]) else t.rows[i][c])))
  }

  /** A table that agrees with `MapColumns` cell by cell is that table. */
  lemma MapColumnsCellwise(t: Table, names: seq<ColumnName>, f: Cell -> Cell, r: Table)
    requires WellFormed(t) && WellFormed(r)
    requires r.columns == t.columns && |r.rows| == |t.rows|
    requires forall i, c :: 0 <= i < |t.rows| && 0 <= c < |t.columns| ==>
      r.rows[i][c] == if t.columns[c] in names then f(t.rows[i][c]) else t.rows[i][c]
    ensures r == MapColumns(t, names, f)
  {
    var m := MapColumns(t, names, f);
    forall i | 0 <= i < |t.rows|
      ensures r.rows[i] == m.rows[i]
    {
    }
  }

  /** When no name is a column, the step leaves the table as it is. */
  lemma MapColumnsAbsent(t: Table, names: seq<ColumnName>, f: Cell -> Cell)
    requires WellFormed(t)
    requires forall n :: n in names ==> n !in t.columns
    ensures MapColumns(t, names, f) == t
  {
    var m := MapColumns(t, names, f);
    forall i | 0 <= i < |t.rows|
      ensures m.rows[i] == t.rows[i]
    {
      forall c | 0 <= c < |t.columns|
        ensures m.rows[i][c] == t.rows[i][c]
      {
        assert t.columns[c] in t.columns;
      }
    }
  }

  /**
   * After numeric coercion of `names`, each of those columns the table has
   * holds only numbers and missing cells, and every other column is as it
   * was.
   */
  lemma NumericColumnsHoldNumbers(t: Table, names: seq<ColumnName>, parseNum: Value -> Option<real>)
    requires WellFormed(t)
    ensures forall i, n :: 0 <= i < |t.rows| && n in names && n in t.columns ==>
      var cell := Get(MapColumns(t, names, AsNumber(parseNum)), i, n);
      cell == Missing || cell.v.Number?
    ensures forall i, n :: 0 <= i < |t.rows| && n !in names && n in t.columns ==>
      Get(MapColumns(t, names, AsNumber(parseNum)), i, n) == Get(t, i, n)
  {
  }

  /** After date-time coercion of `names`, those columns hold only date-times and missing cells. */
  lemma DatetimeColumnsHoldTimes(t: Table, names: seq<ColumnName>, parseDate: Value -> Option<Timestamp>)
    requires WellFormed(t)
    ensures forall i, n :: 0 <= i < |t.rows| && n in names && n in t.columns ==>
      var cell := Get(MapColumns(t, names, AsDatetime(parseDate)), i, n);
      cell == Missing || cell.v.Time?
    ensures forall i, n :: 0 <= i < |t.rows| && n !in names && n in t.columns ==>
      Get(MapColumns(t, names, AsDatetime(parseDate)), i, n) == Get(t, i, n)
  {
  }

  /** Coercing the same columns to numbers twice is the same as once. */
  lemma NumericCoercionIdempotent(t: Table, names: seq<ColumnName>, parseNum: Value -> Option<real>)
    requires WellFormed(t)
    ensures MapColumns(MapColumns(t, names, AsNumber(parseNum)), names, AsNumber(parseNum)) ==
      MapColumns(t, names, AsNumber(parseNum))
  {
    var once := MapColumns(t, names, AsNumber(parseNum));
    var twice := MapColumns(once, names, AsNumber(parseNum));
    forall i | 0 <= i < |t.rows|
      ensures twice.rows[i] == once.rows[i]
    {
      forall c | 0 <= c < |t.columns|
        ensures twice.rows[i][c] == once.rows[i][c]
      {
        ToNumericIdempotent(t.rows[i][c], parseNum);
      }
    }
  }
}
