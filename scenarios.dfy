/**
 * Concrete runs of the cleaner that show the effect of the order of its
 * steps, for any number and date parser.
 */
module Scenarios {
  import opened Seqs
  import opened Frames
  import opened Duplicates
  import opened DropMissing
  import opened Fill
  import opened Coerce
  import opened Cleaner

  const Columns: seq<ColumnName> := ["sellingprice", "odometer", "make", "model", "year"]

  const First: Row := [Present(Number(100.0)), Present(Number(1.0)), Present(Str("A")), Present(Str("X")), Present(Number(2000.0))]
  const Third: Row := [Present(Number(200.0)), Present(Number(2.0)), Present(Str("B")), Present(Str("Y")), Missing]

  lemma ColumnsWellFormed()
    ensures Distinct(Columns)
    ensures forall n :: n in ImportantCols ==> n in Columns
    ensures SaleDate !in Columns
  {
  }

  lemma DedupScenario()
    ensures Dedup([First, First, Third]) == [First, Third]
  {
    assert [First, First][..1] == [First];
    assert [First, First, Third][..2] == [First, First];
    assert Third != First by { assert Third[4] != First[4]; }
  }

  lemma KeepScenario()
    ensures KeepComplete(Columns, [First, Third], ImportantCols) == [First]
  {
    assert HasValuesIn(Columns, First, ImportantCols);
    assert !HasValuesIn(Columns, Third, ImportantCols) by { assert Columns[4] in ImportantCols; }
    assert [First, Third][..1] == [First];
  }

  lemma DropNaScenario()
    ensures WellFormed(Table(Columns, [First, Third]))
    ensures DropNa(Table(Columns, [First, Third]), ImportantCols) == Ok(Table(Columns, [First]))
  {
    var t := Table(Columns, [First, Third]);
    assert WellFormed(t) by {
      ColumnsWellFormed();
    }
    assert DropNa(t, ImportantCols).Ok? by {
      ColumnsWellFormed();
    }
    KeepScenario();
  }

  /** Filling a table without missing cells changes nothing. */
  lemma FillNaComplete(t: Table)
    requires WellFormed(t)
    requires forall i, c :: 0 <= i < |t.rows| && 0 <= c < |t.columns| ==> t.rows[i][c].Present?
    ensures FillNa(t) == t
  {
    var filled := FillNa(t);
    forall i | 0 <= i < |t.rows| ensures filled.rows[i] == t.rows[i] {
      forall c | 0 <= c < |t.columns| ensures filled.rows[i][c] == t.rows[i][c] {
        FillKeepsPresent(Column(t, c), i);
      }
    }
  }

  /** Without `saledate`, and with numbers already in the numeric columns, both coercions change nothing. */
  lemma CoercionsUnchanged(t: Table, parseNum: Value -> Option<real>, parseDate: Value -> Option<Timestamp>)
    requires WellFormed(t) && SaleDate !in t.columns
    requires forall i, c :: 0 <= i < |t.rows| && 0 <= c < |t.columns| && t.columns[c] in NumericCols ==>
      t.rows[i][c].Present? && t.rows[i][c].v.Number?
    ensures DateStep(NumericStep(t, parseNum), parseDate) == t
  {
    var numeric := NumericStep(t, parseNum);
    forall i | 0 <= i < |t.rows| ensures numeric.rows[i] == t.rows[i] {
    }
    assert numeric == t;
    assert forall n :: n in [SaleDate] ==> n !in t.columns;
    MapColumnsAbsent(t, [SaleDate], AsDatetime(parseDate));
  }

  /** Once `dropna` is known to yield `kept`, the output is `kept` filled and coerced. */
  lemma CleanAfterDropNa(raw: Table, kept: Table, parseNum: Value -> Option<real>, parseDate: Value -> Option<Timestamp>)
    requires WellFormed(raw) && DropNa(DropDuplicates(raw), ImportantCols) == Ok(kept)
    ensures Clean(raw, parseNum, parseDate) == Ok(DateStep(NumericStep(FillNa(kept), parseNum), parseDate))
  {
  }

  /**
   * Two identical complete rows and a row without `year`: the cleaner
   * returns the first row alone.
   */
  lemma DuplicateAndIncompleteRowsDropped(parseNum: Value -> Option<real>, parseDate: Value -> Option<Timestamp>)
    ensures WellFormed(Table(Columns, [First, First, Third]))
    ensures Clean(Table(Columns, [First, First, Third]), parseNum, parseDate) == Ok(Table(Columns, [First]))
  {
    var raw := Table(Columns, [First, First, Third]);
    var kept := Table(Columns, [First]);
    FirstKept();
    assert Clean(raw, parseNum, parseDate) == Ok(DateStep(NumericStep(FillNa(kept), parseNum), parseDate)) by {
      CleanAfterDropNa(raw, kept, parseNum, parseDate);
    }
    FirstUnchanged(parseNum, parseDate);
  }

  lemma FirstKept()
    ensures WellFormed(Table(Columns, [First, First, Third]))
    ensures DropNa(DropDuplicates(Table(Columns, [First, First, Third])), ImportantCols) == Ok(Table(Columns, [First]))
  {
    ColumnsWellFormed();
    var raw := Table(Columns, [First, First, Third]);
    assert WellFormed(raw);
    assert DropDuplicates(raw) == Table(Columns, [First, Third]) by {
      DedupScenario();
    }
    DropNaScenario();
  }

  lemma FirstUnchanged(parseNum: Value -> Option<real>, parseDate: Value -> Option<Timestamp>)
    ensures WellFormed(Table(Columns, [First]))
    ensures DateStep(NumericStep(FillNa(Table(Columns, [First])), parseNum), parseDate) == Table(Columns, [First])
  {
    ColumnsWellFormed();
    var kept := Table(Columns, [First]);
    assert WellFormed(kept);
    assert FillNa(kept) == kept by {
      FillNaComplete(kept);
    }
    FirstNumbers();
    CoercionsUnchanged(kept, parseNum, parseDate);
  }

  const Unpriced: Row := [Present(Str("call dealer")), Present(Number(1.0)), Present(Str("A")), Present(Str("X")), Present(Number(2000.0))]
  const Priceless: Row := [Missing, Present(Number(1.0)), Present(Str("A")), Present(Str("X")), Present(Number(2000.0))]

  /**
   * `sellingprice` is present when `dropna` runs, so the row is kept; the
   * numeric coercion that runs later turns it into a missing value.
   */
  lemma KeyColumnMissingAfterCoercion(parseNum: Value -> Option<real>, parseDate: Value -> Option<Timestamp>)
    requires parseNum(Str("call dealer")).None?
    ensures WellFormed(Table(Columns, [Unpriced]))
    ensures Clean(Table(Columns, [Unpriced]), parseNum, parseDate) == Ok(Table(Columns, [Priceless]))
    ensures Get(Clean(Table(Columns, [Unpriced]), parseNum, parseDate).value, 0, "sellingprice") == Missing
  {
    var raw := Table(Columns, [Unpriced]);
    UnpricedKept();
    assert Clean(raw, parseNum, parseDate) == Ok(DateStep(NumericStep(FillNa(raw), parseNum), parseDate)) by {
      CleanAfterDropNa(raw, raw, parseNum, parseDate);
    }
    UnpricedCoerced(parseNum, parseDate);
    assert Get(Table(Columns, [Priceless]), 0, "sellingprice") == Priceless[0] by {
      ColumnIndex(raw, 0);
    }
  }

  /** The row is complete, so neither `drop_duplicates` nor `dropna` removes it. */
  lemma UnpricedKept()
    ensures WellFormed(Table(Columns, [Unpriced]))
    ensures DropNa(DropDuplicates(Table(Columns, [Unpriced])), ImportantCols) == Ok(Table(Columns, [Unpriced]))
  {
    var raw := Table(Columns, [Unpriced]);
    assert WellFormed(raw) by {
      ColumnsWellFormed();
    }
    assert DropDuplicates(raw) == raw by {
      assert Dedup([Unpriced]) == [Unpriced];
    }
    assert DropNa(raw, ImportantCols) == Ok(raw) by {
      ColumnsWellFormed();
      DropNaAllPresent(raw, ImportantCols);
      UnpricedComplete();
    }
  }

  lemma UnpricedComplete()
    ensures KeepComplete(Columns, [Unpriced], ImportantCols) == [Unpriced]
  {
    assert HasValuesIn(Columns, Unpriced, ImportantCols) by {
      assert forall c :: 0 <= c < |Unpriced| ==> Unpriced[c].Present?;
    }
    assert [Unpriced][..0] == [];
  }

  /** Filling changes nothing; the numeric coercion turns the rejected price into a missing cell. */
  lemma UnpricedCoerced(parseNum: Value -> Option<real>, parseDate: Value -> Option<Timestamp>)
    requires parseNum(Str("call dealer")).None?
    ensures WellFormed(Table(Columns, [Unpriced]))
    ensures DateStep(NumericStep(FillNa(Table(Columns, [Unpriced])), parseNum), parseDate) == Table(Columns, [Priceless])
  {
    var raw := Table(Columns, [Unpriced]);
    ColumnsWellFormed();
    assert WellFormed(raw);
    assert FillNa(raw) == raw by {
      FillNaComplete(raw);
    }
    var numeric := NumericStep(raw, parseNum);
    assert numeric.rows[0] == Priceless by {
      TextColumnsNotNumeric();
      assert forall c :: 0 <= c < 5 ==> numeric.rows[0][c] == Priceless[c];
    }
    assert numeric == Table(Columns, [Priceless]);
  }

  const Colored: seq<ColumnName> := ["sellingprice", "odometer", "make", "model", "year", "color"]
  const Red: Row := [Present(Number(100.0)), Present(Number(1.0)), Present(Str("A")), Present(Str("X")), Present(Number(2000.0)), Present(Str("red"))]
  const Unknown: Row := [Present(Number(100.0)), Present(Number(1.0)), Present(Str("A")), Present(Str("X")), Present(Number(2000.0)), Missing]

  lemma ColoredColumns()
    ensures Distinct(Colored)
    ensures forall n :: n in ImportantCols ==> n in Colored
    ensures SaleDate !in Colored
  {
  }

  lemma TextColumnsNotNumeric()
    ensures "make" !in NumericCols && "model" !in NumericCols && "color" !in NumericCols
  {
  }

  lemma FirstNumbers()
    ensures forall i, c :: 0 <= i < 1 && 0 <= c < |Columns| && Columns[c] in NumericCols ==>
      [First][i][c].Present? && [First][i][c].v.Number?
  {
    TextColumnsNotNumeric();
  }

  lemma RedNumbers()
    ensures forall i, c :: 0 <= i < 2 && 0 <= c < |Colored| && Colored[c] in NumericCols ==>
      [Red, Red][i][c].Present? && [Red, Red][i][c].v.Number?
  {
    TextColumnsNotNumeric();
  }

  lemma ColoredDedup()
    ensures Dedup([Red, Unknown]) == [Red, Unknown]
  {
    assert Red != Unknown by { assert Red[5] != Unknown[5]; }
    assert [Red, Unknown][..1] == [Red];
  }

  lemma ColoredComplete()
    ensures KeepComplete(Colored, [Red, Unknown], ImportantCols) == [Red, Unknown]
  {
    assert HasValuesIn(Colored, Red, ImportantCols) by {
      assert forall c :: 0 <= c < |Red| ==> Red[c].Present?;
    }
    assert HasValuesIn(Colored, Unknown, ImportantCols) by {
      assert Colored[5] !in ImportantCols;
      assert forall c :: 0 <= c < 5 ==> Unknown[c].Present?;
    }
    assert [Red, Unknown][..1] == [Red];
  }

  lemma ColoredKept()
    ensures WellFormed(Table(Colored, [Red, Unknown]))
    ensures forall n :: n in ImportantCols ==> n in Colored
    ensures DropNa(DropDuplicates(Table(Colored, [Red, Unknown])), ImportantCols) == Ok(Table(Colored, [Red, Unknown]))
  {
    ColoredColumns();
    ColoredDedup();
    ColoredComplete();
    var raw := Table(Colored, [Red, Unknown]);
    assert WellFormed(raw);
    assert DropDuplicates(raw) == raw;
    assert DropNa(raw, ImportantCols).Ok?;
  }

  lemma ColoredFilled()
    requires WellFormed(Table(Colored, [Red, Unknown]))
    ensures FillNa(Table(Colored, [Red, Unknown])) == Table(Colored, [Red, Red])
  {
    var raw := Table(Colored, [Red, Unknown]);
    var filled := FillNa(raw);
    forall i, c | 0 <= i < 2 && 0 <= c < 6 ensures filled.rows[i][c] == Red[c] {
      if c < 5 || i == 0 {
        FillKeepsPresent(Column(raw, c), i);
      } else {
        assert LastPresent(Column(raw, 5), 1) == Some(0);
      }
    }
    assert filled.rows[0] == Red;
    assert filled.rows[1] == Red;
  }

  /**
   * Two rows that differ only in a missing `color` both survive the
   * duplicate removal; filling then makes them equal, so the output holds a
   * duplicate.
   */
  lemma DuplicateReappearsAfterFill(parseNum: Value -> Option<real>, parseDate: Value -> Option<Timestamp>)
    ensures WellFormed(Table(Colored, [Red, Unknown]))
    ensures Clean(Table(Colored, [Red, Unknown]), parseNum, parseDate) == Ok(Table(Colored, [Red, Red]))
  {
    var raw := Table(Colored, [Red, Unknown]);
    var full := Table(Colored, [Red, Red]);
    ColoredKept();
    assert Clean(raw, parseNum, parseDate) == Ok(DateStep(NumericStep(FillNa(raw), parseNum), parseDate)) by {
      CleanAfterDropNa(raw, raw, parseNum, parseDate);
    }
    assert FillNa(raw) == full by {
      ColoredFilled();
    }
    ColoredCoerced(parseNum, parseDate);
  }

  lemma ColoredCoerced(parseNum: Value -> Option<real>, parseDate: Value -> Option<Timestamp>)
    ensures WellFormed(Table(Colored, [Red, Red]))
    ensures DateStep(NumericStep(Table(Colored, [Red, Red]), parseNum), parseDate) == Table(Colored, [Red, Red])
  {
    ColoredColumns();
    RedNumbers();
    CoercionsUnchanged(Table(Colored, [Red, Red]), parseNum, parseDate);
  }
}
