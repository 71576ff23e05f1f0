# Car-price dataset cleaner, modelled in Dafny

This project models `clean_dataset` of the car-price preprocessing script
(`preprocessing/automate_Pradipta-Rafa-Taisir.py`). The function takes a
pandas DataFrame of car-sale records and cleans it in five fixed steps:

1. `drop_duplicates()` removes every row equal in all columns to an earlier
   row.
2. `dropna(subset=important_cols)` drops every row that is missing one of
   `sellingprice, odometer, make, model, year`.
3. `fillna(method="ffill").fillna(method="bfill")` fills each remaining
   missing cell. It takes the nearest value above in the same column. If
   there is none, it takes the nearest value below.
4. Each of `sellingprice, odometer, year, mmr, condition` that is a column
   is overwritten with `to_numeric(..., errors="coerce")`.
5. If the table has `saledate`, that column is overwritten with
   `to_datetime(..., errors="coerce")`.

The files:

- `frames.dfy` (module `Frames`) holds the data model. A cell is `Missing`
  or `Present` with a text, a number or a date-time. A `Table` has ordered
  column names and rows of cells. The class `DataFrame` stands for the
  pandas object whose columns steps 4 and 5 overwrite in place.
- `seqs.dfy` (module `Seqs`) holds generic facts about sequences:
  distinctness, first index and subsequences.
- `dedup.dfy`, `dropna.dfy` and `fill.dfy` model steps 1 to 3. Each step is
  a pure function from a table to a new table, as the source rebinds `df`
  to a new frame. The fill step has reference definitions: the nearest
  present cell above (`LastPresent`) and below (`NextPresent`). Both scans
  are proved against them.
- `coerce.dfy` models the cell-level coercions and the column map of steps
  4 and 5.
- `cleaner.dfy` composes the steps. `Clean` is the specification function.
  `CleanDataset` is the method: it runs the loop over the numeric columns
  and the `saledate` assignment on a `DataFrame`, and is proved to return
  `Clean`. The file also proves the end-to-end properties.
- `scenarios.dfy` holds concrete inputs whose whole output table is proved
  exactly. Two of them hold for every number and date parser.
  `KeyColumnMissingAfterCoercion` holds for every parser that rejects the
  text `"call dealer"`.

Text-to-number and text-to-date parsing are parameters
(`parseNum: Value -> Option<real>`, `parseDate: Value -> Option<Timestamp>`).
`None` means pandas cannot read the value, so the cell becomes missing.

What the proofs show about the order of the steps:

- The key columns are not guaranteed to be present in the output.
  `sellingprice`, `odometer` and `year` are coerced after `dropna`, so a text
  value the parser rejects becomes missing again
  (`CleanKeyColumnMissingOnlyByCoercion`, `KeyColumnMissingAfterCoercion`).
  Only `make` and `model` are always present (`CleanKeepsMakeAndModel`).
- Duplicates can reappear. Two rows that differ only in a missing cell
  survive step 1, and step 3 can make them equal
  (`DuplicateReappearsAfterFill`).
- The blanket fill never changes an important column, since `dropna` has
  already left them complete (`FillKeepsImportantColumns`). It only affects
  the other columns.
- A table without one of the important columns is an error. pandas'
  `dropna(subset=...)` raises a `KeyError` for subset names that are not
  columns. The model returns `Err(MissingColumns(names))`, listing them in
  the order of `important_cols`. The code does not skip these steps
  gracefully; only the numeric and `saledate` steps are guarded by
  `in df.columns`.

## Model

| member | source | states |
|---|---|---|
| Duplicates.Dedup | preprocessing/automate_Pradipta-Rafa-Taisir.py:14 | keeps the first occurrence of every row: no repetitions, the same set of rows, a subsequence of the input (relative order kept), kept rows ordered by first occurrence, never longer |
| Duplicates.DedupOfDistinct | preprocessing/automate_Pradipta-Rafa-Taisir.py:14 | a sequence without repetitions is left unchanged |
| Duplicates.DedupIdempotent | preprocessing/automate_Pradipta-Rafa-Taisir.py:14 | deduplicating twice equals deduplicating once |
| Duplicates.DropDuplicates | preprocessing/automate_Pradipta-Rafa-Taisir.py:14 | same columns, no more rows, no two equal rows, exactly the rows of the input, a subsequence of the input rows, kept rows ordered by first occurrence |
| Duplicates.DropDuplicatesIdempotent | preprocessing/automate_Pradipta-Rafa-Taisir.py:14 | `drop_duplicates` applied twice equals applied once |
| DropMissing.KeepComplete | preprocessing/automate_Pradipta-Rafa-Taisir.py:18 | the subsequence of rows with a value in every subset column: each such row kept as often as it occurs, every other row removed |
| DropMissing.KeepCompleteDistinct | preprocessing/automate_Pradipta-Rafa-Taisir.py:14-18 | filtering deduplicated rows leaves them without repetitions |
| DropMissing.AbsentColumns | preprocessing/automate_Pradipta-Rafa-Taisir.py:16-18 | exactly the subset names that are not columns, in subset order, each as often as the subset lists it |
| DropMissing.HasValuesInByName | preprocessing/automate_Pradipta-Rafa-Taisir.py:18 | the row test of `dropna` with `how="any"`: a row passes if and only if every subset name that is a column has a value in it |
| DropMissing.DropNa | preprocessing/automate_Pradipta-Rafa-Taisir.py:16-18 | fails if and only if a subset name is not a column, naming those names; otherwise keeps the columns and exactly the complete rows |
| DropMissing.DropNaAllPresent | preprocessing/automate_Pradipta-Rafa-Taisir.py:18 | when every subset name is a column, `dropna` succeeds with the complete rows under the same columns |
| DropMissing.DropNaKeyColumnsPresent | preprocessing/automate_Pradipta-Rafa-Taisir.py:16-18 | after a successful `dropna` no subset column is missing in any row |
| DropMissing.DropNaKeepsCompleteRows | preprocessing/automate_Pradipta-Rafa-Taisir.py:18 | no more rows than before; a row is kept if and only if it was there and is complete |
| Fill.LastPresent | preprocessing/automate_Pradipta-Rafa-Taisir.py:21 | the nearest present cell at or above a row, or none when all cells above are missing |
| Fill.NextPresent | preprocessing/automate_Pradipta-Rafa-Taisir.py:21 | the nearest present cell at or below a row, or none when all cells below are missing |
| Fill.ForwardFill | preprocessing/automate_Pradipta-Rafa-Taisir.py:21 | `ffill` on a column: each cell becomes the nearest present cell at or above it |
| Fill.BackFill | preprocessing/automate_Pradipta-Rafa-Taisir.py:21 | `bfill` on a column: each cell becomes the nearest present cell at or below it |
| Fill.FillColumn | preprocessing/automate_Pradipta-Rafa-Taisir.py:21 | `ffill` then `bfill`: the nearest value above, else the nearest value below, else missing |
| Fill.FillKeepsPresent | preprocessing/automate_Pradipta-Rafa-Taisir.py:21 | a cell that has a value keeps it |
| Fill.FillLeavesNoGap | preprocessing/automate_Pradipta-Rafa-Taisir.py:21 | a column with at least one value has no missing cell afterwards |
| Fill.FillAllMissing | preprocessing/automate_Pradipta-Rafa-Taisir.py:21 | a column without any value stays missing |
| Fill.FillNa | preprocessing/automate_Pradipta-Rafa-Taisir.py:21 | same columns and row count; every column is filled on its own |
| Fill.FillNaKeepsPresent | preprocessing/automate_Pradipta-Rafa-Taisir.py:21 | filling the table keeps every present cell |
| Fill.FillNaNoGaps | preprocessing/automate_Pradipta-Rafa-Taisir.py:21 | a table column with a value has no missing cell after filling |
| Coerce.ToNumeric | preprocessing/automate_Pradipta-Rafa-Taisir.py:27 | a cell becomes a number or missing: numbers stay, missing stays, other values become the parsed number or missing when rejected |
| Coerce.ToDatetime | preprocessing/automate_Pradipta-Rafa-Taisir.py:31 | a cell becomes a date-time or missing: date-times stay, missing stays, other values become the parsed date-time or missing when rejected |
| Coerce.ToNumericIdempotent | preprocessing/automate_Pradipta-Rafa-Taisir.py:27 | coercing a coerced cell again changes nothing |
| Coerce.ToDatetimeIdempotent | preprocessing/automate_Pradipta-Rafa-Taisir.py:31 | coercing a coerced cell again changes nothing |
| Coerce.MapColumns | preprocessing/automate_Pradipta-Rafa-Taisir.py:25-27 | only the listed names that are columns are transformed cell by cell; names that are not columns are skipped; other cells, columns and row count unchanged |
| Coerce.MapColumnsAbsent | preprocessing/automate_Pradipta-Rafa-Taisir.py:30-31 | when no listed name is a column the table is unchanged |
| Coerce.NumericColumnsHoldNumbers | preprocessing/automate_Pradipta-Rafa-Taisir.py:24-27 | after numeric coercion the coerced columns hold numbers or missing; every other column is unchanged |
| Coerce.DatetimeColumnsHoldTimes | preprocessing/automate_Pradipta-Rafa-Taisir.py:30-31 | after date coercion the coerced column holds date-times or missing; every other column is unchanged |
| Coerce.NumericCoercionIdempotent | preprocessing/automate_Pradipta-Rafa-Taisir.py:24-27 | running the numeric step twice equals running it once |
| Frames.DataFrame.AssignColumn | preprocessing/automate_Pradipta-Rafa-Taisir.py:27 | `df[col] = values` replaces one column in place and keeps every other cell, the columns and the row count |
| Cleaner.ColumnLists | preprocessing/automate_Pradipta-Rafa-Taisir.py:16-31 | the constants `ImportantCols`, `NumericCols` and `SaleDate` hold the source's three column lists: no list repeats a name, `saledate` is in neither list, and `make` and `model` are the only important columns not coerced to numbers |
| Cleaner.NumericStep | preprocessing/automate_Pradipta-Rafa-Taisir.py:24-27 | each column of `numeric_cols` the table has is coerced to numbers cell by cell; the other cells, the columns and the row count are kept |
| Cleaner.DateStep | preprocessing/automate_Pradipta-Rafa-Taisir.py:30-31 | `saledate`, if it is a column, is coerced to date-times cell by cell; every other cell is kept; without `saledate` the table is unchanged |
| Cleaner.Clean | preprocessing/automate_Pradipta-Rafa-Taisir.py:12-33 | fails if and only if an important column is absent, with the `KeyError` naming the absent important columns; otherwise same columns and no more rows than the input |
| Cleaner.CleanIsSteps | preprocessing/automate_Pradipta-Rafa-Taisir.py:14-33 | with every important column present, the output is the `dropna` table filled, then coerced to numbers, then to date-times |
| Cleaner.CoerceNumericColumns | preprocessing/automate_Pradipta-Rafa-Taisir.py:24-27 | the loop over `numeric_cols` leaves the frame equal to the numeric step applied to its old contents |
| Cleaner.CoerceSaleDate | preprocessing/automate_Pradipta-Rafa-Taisir.py:30-31 | the guarded assignment leaves the frame equal to the date step applied to its old contents, or unchanged without `saledate` |
| Cleaner.CleanDataset | preprocessing/automate_Pradipta-Rafa-Taisir.py:12-33 | the five steps run in order return exactly `Clean`: an error if and only if an important column is absent, otherwise the same columns and no more rows |
| Cleaner.CleanCells | preprocessing/automate_Pradipta-Rafa-Taisir.py:14-33 | each output cell is the filled `dropna` cell, coerced to a number in numeric columns and to a date-time in `saledate` |
| Cleaner.CleanRowCount | preprocessing/automate_Pradipta-Rafa-Taisir.py:14-18 | the output has one row per distinct input row that has every important column |
| Cleaner.CleanKeepsMakeAndModel | preprocessing/automate_Pradipta-Rafa-Taisir.py:16-33 | `make` and `model` are never missing in the output |
| Cleaner.CleanKeyColumnMissingOnlyByCoercion | preprocessing/automate_Pradipta-Rafa-Taisir.py:18-27 | an important column is missing in the output only if it is numeric and an input row held there a non-number the parser rejects |
| Cleaner.KeptCellAt | preprocessing/automate_Pradipta-Rafa-Taisir.py:18-27 | an output cell of an important column is the present `dropna` cell, coerced when the column is numeric |
| Cleaner.FillKeepsImportantColumns | preprocessing/automate_Pradipta-Rafa-Taisir.py:18-21 | the fill step leaves the important columns exactly as `dropna` left them |
| Cleaner.CleanNumericColumns | preprocessing/automate_Pradipta-Rafa-Taisir.py:24-27 | every numeric column of the output holds numbers or missing |
| Cleaner.CleanSaleDateColumn | preprocessing/automate_Pradipta-Rafa-Taisir.py:30-31 | `saledate`, when present, holds date-times or missing in the output |
| Cleaner.CoercionsCellAt | preprocessing/automate_Pradipta-Rafa-Taisir.py:24-31 | both coercions on one cell: `saledate` to a date-time, numeric columns to a number, any other cell kept |
| Scenarios.DuplicateAndIncompleteRowsDropped | preprocessing/automate_Pradipta-Rafa-Taisir.py:14-33 | two equal complete rows and a row without `year` give the first row alone |
| Scenarios.KeyColumnMissingAfterCoercion | preprocessing/automate_Pradipta-Rafa-Taisir.py:18-27 | for a parser that rejects the text `"call dealer"`, a complete row with that text as `sellingprice` survives `dropna`; the output is exactly that row with `sellingprice` missing |
| Scenarios.DuplicateReappearsAfterFill | preprocessing/automate_Pradipta-Rafa-Taisir.py:14-21 | two rows that differ only in a missing `color` both survive and come out as two equal rows |

## Left out

- `load_dataset`, `save_dataset` and `main` are left out. They do file I/O: the existence check, CSV reading with bad lines skipped, CSV writing and console output.
- pandas' text-to-number and text-to-date parsing are not modelled. They are the parameters `parseNum` and `parseDate`, with float formats and date-format inference behind them.
- Coerce.ToNumeric: a date-time value is handed to `parseNum`. pandas would convert it to its nanosecond count. These columns come from the CSV reader as numbers or text, never as date-times, so the case does not arise in the cleaner.
- Coerce.ToDatetime: a number is handed to `parseDate`. pandas would read it as a count since the epoch; the cleaner only meets text in `saledate`.
- Numbers are exact reals. Float rounding, NaN as a float and dtype inference are not modelled; missingness is the `Missing` cell.
- The row index labels that pandas carries through `drop_duplicates` and `dropna` are not modelled; rows are a plain sequence.
- Column names are required to be distinct, as pandas' CSV reader renames duplicate headers.
- The model follows `fillna(method=...)` as pandas before 3.0 defines it; later versions removed that argument.
- The message text of pandas' `KeyError` is not modelled; only the list of absent column names is.
- `CleanDataset` takes the input as a value, not as a shared DataFrame object. Aliasing between frames and pandas' copy-on-write warnings are not modelled.
