/**
 * The data model of the cleaner: a table of car-sale records with named
 * columns, each cell either missing or holding a text, a number or a
 * date-time, and the pandas DataFrame object whose columns the cleaner
 * overwrites in place.
 */
module Frames {
  import opened Seqs

  datatype Option<+T> = None | Some(value: T)

  datatype Result<+T, +E> = Ok(value: T) | Err(error: E)

  /** A pandas `datetime64[ns]` value: nanoseconds since the Unix epoch. */
  datatype Timestamp = Timestamp(nanos: int)

  /** What a non-missing cell holds: text as read from the file, a number, or a date-time. */
  datatype Value = Str(text: string) | Number(x: real) | Time(at: Timestamp)

  /** A cell is missing (NaN, None or NaT in pandas) or holds a value. */
  datatype Cell = Missing | Present(v: Value)

  type ColumnName = string

  type Row = seq<Cell>

  /** A table: column names in order, and one cell per column in every row. */
  datatype Table = Table(columns: seq<ColumnName>, rows: seq<Row>)

  /** `dropna(subset=...)` raises a KeyError naming the subset columns the table lacks. */
  datatype CleanError = MissingColumns(names: seq<ColumnName>)

  /** Column names are unique and every row has one cell per column. */
  predicate WellFormed(t: Table) {
    Distinct(t.columns) && forall i :: 0 <= i < |t.rows| ==> |t.rows[i]| == |t.columns|
  }

  /** The cells of column `c`, top to bottom. */
  function Column(t: Table, c: nat): (col: seq<Cell>)
    requires WellFormed(t) && c < |t.columns|
    ensures |col| == |t.rows|
    ensures forall i :: 0 <= i < |col| ==> col[i] == t.rows[i][c]
  {
    seq(|t.rows|, i requires 0 <= i < |t.rows| => t.rows[i][c])
  }

  /** The cell of row `i` in the column called `name` (`df[name].iloc[i]`). */
  function Get(t: Table, i: nat, name: ColumnName): Cell
    requires WellFormed(t) && i < |t.rows| && name in t.columns
  {
    t.rows[i][IndexOf(t.columns, name)]
  }

  /** With unique names, the position of a name is the one index that holds it. */
  lemma ColumnIndex(t: Table, c: nat)
    requires WellFormed(t) && c < |t.columns|
    ensures IndexOf(t.columns, t.columns[c]) == c
  {
    var k := IndexOf(t.columns, t.columns[c]);
    assert t.columns[k] == t.columns[c];
  }

  /**
   * The pandas DataFrame the cleaner works on after its whole-table steps:
   * `df[name] = ...` replaces one column of it in place.
   */
  class DataFrame {
    var columns: seq<ColumnName>
    var rows: seq<Row>

    ghost predicate Valid()
      reads this
    {
      WellFormed(Table(columns, rows))
    }

    /** The table the frame currently holds. */
    function Snapshot(): Table
      reads this
    {
      Table(columns, rows)
    }

    constructor (t: Table)
      requires WellFormed(t)
      ensures Valid() && Snapshot() == t
    {
      columns := t.columns;
      rows := t.rows;
    }

    /** `df[columns[c]] = values`: column `c` now holds `values`; every other cell is kept. */
    method AssignColumn(c: nat, values: seq<Cell>)
      requires Valid() && c < |columns| && |values| == |rows|
      modifies this
      ensures Valid() && columns == old(columns) && |rows| == old(|rows|)
      ensures forall i, k :: 0 <= i < |rows| && 0 <= k < |columns| ==>
        rows[i][k] == if k == c then values[i] else old(rows)[i][k]
    {
      var current := rows;
      rows := seq(|current|, i requires 0 <= i < |current| => current[i][c := values[i]]);
    }
  }
}
