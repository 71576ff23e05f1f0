/**
 * Step 2 of the cleaner, `df.dropna(subset=important_cols)`: a row is kept
 * exactly when none of the subset's columns is missing in it. A subset
 * column that the table lacks is an error (pandas raises KeyError).
 */
module DropMissing {
  import opened Seqs
  import opened Frames

  /** No column of `subset` is missing in `row` (pandas' default `how="any"`). */
  predicate HasValuesIn(columns: seq<ColumnName>, row: Row, subset: seq<ColumnName>) {
    forall c :: 0 <= c < |columns| && c < |row| && columns[c] in subset ==> row[c].Present?
  }

  /**
   * The row test by column name: every name of `subset` that is a column
   * has a value in `row`.
   */
  lemma HasValuesInByName(columns: seq<ColumnName>, row: Row, subset: seq<ColumnName>)
    requires Distinct(columns) && |row| == |columns|
    ensures HasValuesIn(columns, row, subset) <==>
      forall n :: n in subset && n in columns ==> row[IndexOf(columns, n)].Present?
  {
    if forall n :: n in subset && n in columns ==> row[IndexOf(columns, n)].Present? {
      forall c | 0 <= c < |columns| && c < |row| && columns[c] in subset
        ensures row[c].Present?
      {
        var k := IndexOf(columns, columns[c]);
        assert k == c;
      }
    }
  }

  /**
   * The rows with a value in every subset column, in their original order;
   * each such row occurs as often as in `rows`, every other row not at all.
   */
  function KeepComplete(columns: seq<ColumnName>, rows: seq<Row>, subset: seq<ColumnName>): (r: seq<Row>)
    ensures Subseq(r, rows)
    ensures forall x :: multiset(r)[x] == if HasValuesIn(columns, x, subset) then multiset(rows)[x] else 0
    ensures forall x :: x in r <==> x in rows && HasValuesIn(columns, x, subset)
  {
    if rows == [] then []
    else
      var init, last := rows[..|rows| - 1], rows[|rows| - 1];
      assert rows == init + [last];
      var kept := KeepComplete(columns, init, subset);
      if HasValuesIn(columns, last, subset) then
        assert (kept + [last])[..|kept|] == kept;
        kept + [last]
      else
        kept
  }

  /** Filtering a sequence without repetitions leaves one without repetitions. */
  lemma {:induction false} KeepCompleteDistinct(columns: seq<ColumnName>, rows: seq<Row>, subset: seq<ColumnName>)
    requires Distinct(rows)
    ensures Distinct(KeepComplete(columns, rows, subset))
  {
    if rows != [] {
      var init, last := rows[..|rows| - 1], rows[|rows| - 1];
      assert Distinct(init);
      KeepCompleteDistinct(columns, init, subset);
      assert last !in init;
    }
  }

  /**
   * The names of `subset` that are not columns, in the order of `subset`,
   * each listed as often as `subset` lists it.
   */
  function AbsentColumns(subset: seq<ColumnName>, columns: seq<ColumnName>): (r: seq<ColumnName>)
    ensures forall n :: n in r <==> n in subset && n !in columns
    ensures Subseq(r, subset)
    ensures forall n :: multiset(r)[n] == if n in columns then 0 else multiset(subset)[n]
  {
    if subset == [] then []
    else
      var init, last := subset[..|subset| - 1], subset[|subset| - 1];
      assert subset == init + [last];
      var absent := AbsentColumns(init, columns);
      if last in columns then absent
      else
        assert (absent + [last])[..|absent|] == absent;
        absent + [last]
  }

  /**
   * `df.dropna(subset=subset)`. It fails exactly when some subset column is
   * absent, naming all absent ones; otherwise it keeps the columns and the
   * rows with a value in every subset column.
   */
  function DropNa(t: Table, subset: seq<ColumnName>): (r: Result<Table, CleanError>)
    requires WellFormed(t)
    ensures r.Err? <==> exists n :: n in subset && n !in t.columns
    ensures r.Err? ==> r.error == MissingColumns(AbsentColumns(subset, t.columns))
    ensures r.Ok? ==> WellFormed(r.value) && r.value.columns == t.columns
    ensures r.Ok? ==> r.value.rows == KeepComplete(t.columns, t.rows, subset)
  {
    var absent := AbsentColumns(subset, t.columns);
    if absent != [] then
      assert absent[0] in absent;
      Err(MissingColumns(absent))
    else
      var kept := KeepComplete(t.columns, t.rows, subset);
      assert forall i :: 0 <= i < |kept| ==> kept[i] in t.rows;
      Ok(Table(t.columns, kept))
  }

  /** When every subset name is a column, `dropna` succeeds with the complete rows. */
  lemma DropNaAllPresent(t: Table, subset: seq<ColumnName>)
    requires WellFormed(t) && forall n :: n in subset ==> n in t.columns
    ensures DropNa(t, subset) == Ok(Table(t.columns, KeepComplete(t.columns, t.rows, subset)))
  {
  }

  /** After a successful `dropna`, no subset column is missing in any row. */
  lemma DropNaKeyColumnsPresent(t: Table, subset: seq<ColumnName>)
    requires WellFormed(t) && DropNa(t, subset).Ok?
    ensures forall i, n :: 0 <= i < |DropNa(t, subset).value.rows| && n in subset ==>
      Get(DropNa(t, subset).value, i, n).Present?
  {
    var r := DropNa(t, subset).value;
    forall i, n | 0 <= i < |r.rows| && n in subset
      ensures Get(r, i, n).Present?
    {
      assert r.rows[i] in r.rows;
      assert HasValuesIn(r.columns, r.rows[i], subset);
      var c := IndexOf(r.columns, n);
    }
  }

  /** `dropna` keeps a row exactly when it has every subset column, and never adds rows. */
  lemma DropNaKeepsCompleteRows(t: Table, subset: seq<ColumnName>)
    requires WellFormed(t) && DropNa(t, subset).Ok?
    ensures |DropNa(t, subset).value.rows| <= |t.rows|
    ensures forall x :: x in DropNa(t, subset).value.rows <==> x in t.rows && HasValuesIn(t.columns, x, subset)
  {
    SubseqBounds(DropNa(t, subset).value.rows, t.rows);
  }
}
