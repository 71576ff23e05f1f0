/**
 * Step 3 of the cleaner, `df.fillna(method="ffill").fillna(method="bfill")`:
 * in every column, a missing cell takes the nearest value above it; a
 * missing cell with no value above takes the nearest value below it.
 */
module Fill {
  import opened Frames

  /** Index of the nearest present cell at or above row `i`, if there is one. */
  function LastPresent(col: seq<Cell>, i: nat): (r: Option<nat>)
    requires i < |col|
    ensures r.Some? ==>
      r.value <= i && col[r.value].Present? && forall k :: r.value < k <= i ==> col[k] == Missing
    ensures r.None? ==> forall k :: 0 <= k <= i ==> col[k] == Missing
  {
    if col[i].Present? then Some(i)
    else if i == 0 then None
    else LastPresent(col, i - 1)
  }

  /** Index of the nearest present cell at or below row `i`, if there is one. */
  function NextPresent(col: seq<Cell>, i: nat): (r: Option<nat>)
    requires i < |col|
    ensures r.Some? ==>
      i <= r.value < |col| && col[r.value].Present? && forall k :: i <= k < r.value ==> col[k] == Missing
    ensures r.None? ==> forall k :: i <= k < |col| ==> col[k] == Missing
    decreases |col| - i
  {
    if col[i].Present? then Some(i)
    else if i == |col| - 1 then None
    else NextPresent(col, i + 1)
  }

  /** The cell at the index `at`, or missing when there is no index. */
  function CellAt(col: seq<Cell>, at: Option<nat>): Cell {
    if at.Some? && at.value < |col| then col[at.value] else Missing
  }

  /** `ffill` on one column: a scan from the top that carries the last value seen downwards. */
  function ForwardFill(col: seq<Cell>): (r: seq<Cell>)
    ensures |r| == |col|
    ensures forall i :: 0 <= i < |col| ==> r[i] == CellAt(col, LastPresent(col, i))
  {
    if col == [] then []
    else
      var init, last := col[..|col| - 1], col[|col| - 1];
      var above := ForwardFill(init);
      LastPresentOfPrefix(col, |col| - 1);
      above + [if last.Present? then last else if above == [] then Missing else above[|above| - 1]]
  }

  /** Cutting rows off the bottom does not change where the nearest value above a kept row is. */
  lemma LastPresentOfPrefix(col: seq<Cell>, n: nat)
    requires n <= |col|
    ensures forall i :: 0 <= i < n ==> LastPresent(col[..n], i) == LastPresent(col, i)
  {
    forall i | 0 <= i < n
      ensures LastPresent(col[..n], i) == LastPresent(col, i)
    {
      LastPresentOfPrefixAt(col, n, i);
    }
  }

  lemma {:induction false} LastPresentOfPrefixAt(col: seq<Cell>, n: nat, i: nat)
    requires i < n <= |col|
    ensures LastPresent(col[..n], i) == LastPresent(col, i)
  {
    if col[i] == Missing && i > 0 {
      LastPresentOfPrefixAt(col, n, i - 1);
    }
  }

  /** `bfill` on one column: a scan from the bottom that carries the next value seen upwards. */
  function BackFill(col: seq<Cell>): (r: seq<Cell>)
    ensures |r| == |col|
    ensures forall i :: 0 <= i < |col| ==> r[i] == CellAt(col, NextPresent(col, i))
  {
    if col == [] then []
    else
      var below := BackFill(col[1..]);
      NextPresentOfSuffix(col);
      [if col[0].Present? then col[0] else if below == [] then Missing else below[0]] + below
  }

  /** Dropping the top row does not change which value is nearest below a kept row. */
  lemma NextPresentOfSuffix(col: seq<Cell>)
    requires col != []
    ensures forall i :: 1 <= i < |col| ==>
      CellAt(col[1..], NextPresent(col[1..], i - 1)) == CellAt(col, NextPresent(col, i))
  {
    forall i | 1 <= i < |col|
      ensures CellAt(col[1..], NextPresent(col[1..], i - 1)) == CellAt(col, NextPresent(col, i))
    {
      NextPresentOfSuffixAt(col, i);
    }
  }

  lemma {:induction false} NextPresentOfSuffixAt(col: seq<Cell>, i: nat)
    requires 1 <= i < |col|
    ensures CellAt(col[1..], NextPresent(col[1..], i - 1)) == CellAt(col, NextPresent(col, i))
    decreases |col| - i
  {
    if col[i] == Missing && i < |col| - 1 {
      NextPresentOfSuffixAt(col, i + 1);
    }
  }

  /**
   * Forward fill, then back fill. A cell takes the value of the nearest
   * present cell at or above it; when there is none, that of the nearest
   * present cell below it; when there is none either, it stays missing.
   */
  function FillColumn(col: seq<Cell>): (r: seq<Cell>)
    ensures |r| == |col|
    ensures forall i :: 0 <= i < |col| ==>
      r[i] == if LastPresent(col, i).Some? then CellAt(col, LastPresent(col, i))
              else CellAt(col, NextPresent(col, i))
  {
    var down := ForwardFill(col);
    var r := BackFill(down);
    forall i | 0 <= i < |col|
      ensures r[i] == if LastPresent(col, i).Some? then CellAt(col, LastPresent(col, i))
                      else CellAt(col, NextPresent(col, i))
    {
      FillColumnAt(col, down, i);
    }
    r
  }

  /** Where forward fill left a gap, back fill picks the nearest original value below. */
  lemma FillColumnAt(col: seq<Cell>, down: seq<Cell>, i: nat)
    requires down == ForwardFill(col) && i < |col|
    ensures CellAt(down, NextPresent(down, i)) ==
      if LastPresent(col, i).Some? then CellAt(col, LastPresent(col, i)) else CellAt(col, NextPresent(col, i))
  {
    if LastPresent(col, i).None? {
      match NextPresent(col, i)
      case None => GapToBottom(col, down, i);
      case Some(j) => GapUntil(col, down, i, j);
    }
  }

  /** No value at or above row i and none below: forward fill leaves rows i and below missing. */
  lemma GapToBottom(col: seq<Cell>, down: seq<Cell>, i: nat)
    requires down == ForwardFill(col) && i < |col|
    requires LastPresent(col, i).None? && NextPresent(col, i).None?
    ensures NextPresent(down, i).None?
  {
    forall k | i <= k < |col|
      ensures down[k] == Missing
    {
      assert LastPresent(col, k).None?;
    }
  }

  /** No value at or above row i: forward fill leaves rows i to j - 1 missing and row j as it was. */
  lemma GapUntil(col: seq<Cell>, down: seq<Cell>, i: nat, j: nat)
    requires down == ForwardFill(col) && i < |col|
    requires LastPresent(col, i).None? && NextPresent(col, i) == Some(j)
    ensures NextPresent(down, i) == Some(j) && down[j] == col[j]
  {
    forall k | i <= k < j
      ensures down[k] == Missing
    {
      assert LastPresent(col, k).None?;
    }
    assert LastPresent(col, j) == Some(j);
    NextPresentIs(down, i, j);
  }

  /** The nearest present cell at or below row i is the first present one from i on. */
  lemma {:induction false} NextPresentIs(col: seq<Cell>, i: nat, j: nat)
    requires i <= j < |col| && col[j].Present?
    requires forall k :: i <= k < j ==> col[k] == Missing
    ensures NextPresent(col, i) == Some(j)
    decreases j - i
  {
    if i < j {
      NextPresentIs(col, i + 1, j);
    }
  }

  /** A present cell keeps its value. */
  lemma FillKeepsPresent(col: seq<Cell>, i: nat)
    requires i < |col| && col[i].Present?
    ensures FillColumn(col)[i] == col[i]
  {
    assert LastPresent(col, i) == Some(i);
  }

  /** After filling, a column has no missing cell unless it had no value at all. */
  lemma FillLeavesNoGap(col: seq<Cell>, j: nat)
    requires j < |col| && col[j].Present?
    ensures forall i :: 0 <= i < |col| ==> FillColumn(col)[i].Present?
  {
    forall i | 0 <= i < |col|
      ensures FillColumn(col)[i].Present?
    {
      if LastPresent(col, i).None? {
        assert j > i;
        assert NextPresent(col, i).Some?;
      }
    }
  }

  /** A column without any value stays entirely missing. */
  lemma FillAllMissing(col: seq<Cell>)
    requires forall k :: 0 <= k < |col| ==> col[k] == Missing
    ensures forall i :: 0 <= i < |col| ==> FillColumn(col)[i] == Missing
  {
  }

  /**
   * `fillna(method="ffill").fillna(method="bfill")` on a whole table:
   * every column is filled on its own; columns and row count are unchanged.
   */
  function FillNa(t: Table): (r: Table)
    requires WellFormed(t)
    ensures WellFormed(r) && r.columns == t.columns && |r.rows| == |t.rows|
    ensures forall i, c :: 0 <= i < |t.rows| && 0 <= c < |t.columns| ==>
      r.rows[i][c] == FillColumn(Column(t, c))[i]
  {
    var filled := seq(|t.columns|, c requires 0 <= c < |t.columns| => FillColumn(Column(t, c)));
    Table(t.columns,
      seq(|t.rows|, i requires 0 <= i < |t.rows| =>
        seq(|t.columns|, c requires 0 <= c < |t.columns| => filled[c][i])))
  }

  /** Filling keeps every cell that already had a value. */
  lemma FillNaKeepsPresent(t: Table)
    requires WellFormed(t)
    ensures forall i, c :: 0 <= i < |t.rows| && 0 <= c < |t.columns| && t.rows[i][c].Present? ==>
      FillNa(t).rows[i][c] == t.rows[i][c]
  {
    forall i, c | 0 <= i < |t.rows| && 0 <= c < |t.columns| && t.rows[i][c].Present?
      ensures FillNa(t).rows[i][c] == t.rows[i][c]
    {
      FillKeepsPresent(Column(t, c), i);
    }
  }

  /** After filling, a column with at least one value has no missing cell. */
  lemma FillNaNoGaps(t: Table, c: nat, j: nat)
    requires WellFormed(t) && c < |t.columns| && j < |t.rows| && t.rows[j][c].Present?
    ensures forall i :: 0 <= i < |t.rows| ==> FillNa(t).rows[i][c].Present?
  {
    FillLeavesNoGap(Column(t, c), j);
  }
}
