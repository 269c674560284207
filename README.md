# stock_analytics in Dafny

A model of the two course projects of the stock_analytics repository:

- project 1 (`zid_project1.py`): an ASCII tickers file and fixed-width ".dat" price lines become one CSV file. The model covers
  - `get_tics`, which normalises the tickers;
  - `line_to_dict`, which cuts a line into six fields by the widths of `COLWIDTHS`;
  - the row assembly of `main`: header, one row per line, ticker upper-cased, fields joined by commas.
- project 2 (`zid_project2.py`): date-indexed price tables become return tables, and three summaries are computed from them. The model covers
  - `mk_prc_df`, one outer join per ticker;
  - `mk_ret_df`, returns computed in place from a snapshot, then an inner join with the market column;
  - `mk_aret_df`, the market return subtracted in place;
  - `get_avg`, the calendar-year mean of a column;
  - `get_ew_rets`, the row-wise equal-weighted mean;
  - `get_ann_ret`, the compounded growth over a date range.

Data frames are modelled in two ways.

- `Frames.Frame` is the value a pandas data frame holds: a date index, column labels, and one row of cells per date.
- A cell is `Option<real>`, where `None` is `NaN`. Numbers are exact reals.
- `Frames.Matrix` is a class whose `array2` the stages overwrite in place, as the `iloc` assignments of the source do.
- Each loop of the source is a method with loop invariants. It is proved against a specification function (`PrcDf`, `ReturnGrid`, `MarketJoin`, `Abnormal`, `EwRets`, `Tickers`, `Rows`, `CsvLines`), and lemmas state what the source promises about those functions.

Modules:

| module | file | contents |
|---|---|---|
| `Basics` | `basics.dfy` | `Option`, `Result`, `Distinct`, `Position` |
| `Text` | `text.dfy` | ASCII `lower`/`upper`, `rstrip`, Python slicing, `split`/`join`, digit strings |
| `Dates` | `dates.dfy` | calendar dates, their order, `datetime` validity, ISO parsing/formatting |
| `FixedWidth` | `fixed_width.dfy` | project 1 |
| `Frames` | `frames.dfy` | frames, series, label lookup, the `Matrix` class |
| `Prices` | `prices.dfy` | `mk_prc_df` and the outer join |
| `Returns` | `returns.dfy` | `mk_ret_df`, the inner join, `mk_aret_df` |
| `Aggregates` | `aggregates.dfy` | `get_avg`, `get_ew_rets`, `get_ann_ret` |

Calls the model cannot see become parameters:

- `os.path.exists(csvloc)` becomes the flag `outputExists`.
- The lines of the tickers file become `ticLines`.
- `read_dat` becomes the map `dat`, whose missing key stands for a missing file.
- `read_prc_csv(t)[prc_col]` becomes the map `loader` from ticker to `(date, price)` quotes.
- The "mkt" column of the market file becomes a map from date to return.

## Model

| member | source | states |
|---|---|---|
| `FixedWidth.Offsets` | project1/zid_project1.py:9-19 | fields start at the running sum of the widths in `COLUMNS` order: "Date" at 14, "Adj Close" at 25, "Close" at 44, "Open" at 54, "High" at 60; the widths total 80 |
| `FixedWidth.LineToDict` | project1/zid_project1.py:107-113 | the dictionary has exactly the six `COLUMNS` keys, and each key maps to the slice `line[sum:sum+width]` of its field |
| `FixedWidth.Dict` | project1/zid_project1.py:107-111 | storing values under names one after another: every name is a key, and the last name holds the last value, so a later store wins |
| `FixedWidth.DictLookup` | project1/zid_project1.py:107-111 | with distinct names, the keys are exactly the names and each name holds its own value |
| `FixedWidth.LineDict` | project1/zid_project1.py:107-113 | storing each field under its name, in order, gives a map whose keys are exactly `COLUMNS` and whose values are the fields |
| `Text.Slice` | project1/zid_project1.py:110 | Python's slice `s[lo:hi]`, clamped to the string: its length, and the plain subsequence when `lo` is in range |
| `FixedWidth.Fields` | project1/zid_project1.py:108-111 | one field per name of `COLUMNS`, in order |
| `FixedWidth.FieldLength` | project1/zid_project1.py:110 | each field is at most its width long, and exactly its width when the line has at least 80 characters |
| `FixedWidth.ConcatFieldsPrefix` | project1/zid_project1.py:108-111 | the first `k` fields, concatenated, are the line's slice up to the offset of field `k` |
| `FixedWidth.FieldsRoundTrip` | project1/zid_project1.py:108-111 | the six fields, concatenated, give back `line[0:min(len(line), 80)]` |
| `FixedWidth.FieldsIgnoreTail` | project1/zid_project1.py:110 | characters past position 80 do not change any field |
| `Text.RStrip` | project1/zid_project1.py:47 | `rstrip()` gives a prefix of the string that does not end in whitespace, and only whitespace was removed |
| `Text.Lower` | project1/zid_project1.py:48 | `lower()` keeps the length, leaves no upper-case letter, and keeps whitespace where it was |
| `FixedWidth.Normalize` | project1/zid_project1.py:47-48 | a ticker line after `rstrip().lower()` is empty, or ends in a non-whitespace character and holds no upper-case letter |
| `FixedWidth.Tickers` | project1/zid_project1.py:46-51 | the tickers of the file's lines: at most one per line, none of them empty |
| `FixedWidth.GetTics` | project1/zid_project1.py:44-53 | the loop returns `Tickers(lines)`: each line right-stripped and lower-cased, blank lines skipped, order kept |
| `FixedWidth.TickersWellFormed` | project1/zid_project1.py:46-51 | every ticker returned is non-empty, has no upper-case letter and does not end in whitespace |
| `FixedWidth.TickersSnoc` | project1/zid_project1.py:47-51 | a blank line adds nothing; any other line adds its normalised form at the end |
| `FixedWidth.TickersAppend` | project1/zid_project1.py:46-51 | the tickers of two files read one after the other are the tickers of each, in order |
| `Text.RStripLower` | project1/zid_project1.py:47-51 | the second `rstrip` at line 51 changes nothing after `rstrip` then `lower` |
| `Text.RStripBlank` | project1/zid_project1.py:47-50 | a line right-strips to "" exactly when it is all whitespace |
| `FixedWidth.FirstMissing` | project1/zid_project1.py:150-151 | the first ticker without a ".dat" file is none exactly when every ticker has one, and is a ticker without a file otherwise |
| `FixedWidth.FirstMissingExtends` | project1/zid_project1.py:150-151 | the first ticker without a file among the first `n` is the first in the whole list |
| `Text.Upper` | project1/zid_project1.py:154 | `upper()` keeps the length and leaves no lower-case letter |
| `FixedWidth.DataRow` | project1/zid_project1.py:153-155 | the row of one ".dat" line has one cell per header column |
| `FixedWidth.HeaderLookup` | project1/zid_project1.py:142-155 | once the upper-cased ticker is stored under "Ticker", every header column is a key of the line's dictionary, and reading it gives that position of the data row |
| `FixedWidth.DataLine` | project1/zid_project1.py:153-155 | the row built for a line is the upper-cased ticker followed by the line's fields in `COLUMNS` order |
| `FixedWidth.TickerRows` | project1/zid_project1.py:152-156 | one data row per ".dat" line of the ticker |
| `FixedWidth.TickerRowShape` | project1/zid_project1.py:153-155 | the row of a line is the upper-cased ticker followed by the line's fields |
| `FixedWidth.TickerLines` | project1/zid_project1.py:151-156 | a ticker contributes one data row per ".dat" line, in line order |
| `FixedWidth.Rows` | project1/zid_project1.py:149-156 | `dst_lines`: never empty, and the header comes first |
| `FixedWidth.RowCount` | project1/zid_project1.py:142-156 | the first row is `['Ticker'] + COLUMNS`, and there are 1 plus the total number of ".dat" lines rows |
| `FixedWidth.RowsPrefix` | project1/zid_project1.py:149-156 | the rows for the first `n` tickers are a prefix of all rows: rows are only appended |
| `FixedWidth.RowLayout` | project1/zid_project1.py:149-156 | line `k` of ticker `i` is row 1 + (lines of the tickers before `i`) + `k`, and that row is its data row |
| `FixedWidth.CsvLine` | project1/zid_project1.py:160-161 | an output line is never empty and ends in a newline |
| `FixedWidth.CsvLineRoundTrip` | project1/zid_project1.py:158-161 | an output line ends in a newline, and splitting the rest at commas gives the row back when no field holds a comma |
| `Text.Join` | project1/zid_project1.py:160 | `','.join(row)`; it carries no contract of its own, and `Text.SplitJoin` states its meaning: splitting the joined pieces at the separator gives them back |
| `Text.SplitJoin` | project1/zid_project1.py:160 | splitting a `sep`-join of pieces without `sep` gives the pieces back |
| `FixedWidth.CsvLines` | project1/zid_project1.py:159-161 | one output line per row, each non-empty and ending in a newline |
| `FixedWidth.ToCsvLines` | project1/zid_project1.py:158-161 | the loop produces one line per row, each the row joined by ',' and followed by a newline |
| `FixedWidth.MakeCsv` | project1/zid_project1.py:137-161 | an existing output without `replace` is an error; otherwise a ticker without a ".dat" file is an error (the first such ticker); otherwise the output lines are the CSV lines of the header and the data rows |
| `Prices.SeriesFrame` | project2/zid_project2.py:96-101 | a ticker's quotes as a one-column frame: well-formed, on an ascending index, with the ticker as its only label |
| `Prices.PriceOnAt` | project2/zid_project2.py:96-99 | a ticker's series holds at its date the price quoted on it |
| `Prices.PriceOnAbsent` | project2/zid_project2.py:96-99 | a date a ticker is not quoted on reads as missing |
| `Prices.SeriesFrameCell` | project2/zid_project2.py:99-101 | the one-column frame of a ticker holds, at every date, that ticker's quote of the date, missing when it has none |
| `Prices.IsEmpty` | project2/zid_project2.py:98 | `result.empty`: a frame without rows or without columns; a frame that is not empty has a first row with a first cell |
| `Prices.OuterJoin` | project2/zid_project2.py:102 | a successful outer join of rectangular frames on ascending indexes is rectangular, on an ascending index |
| `Prices.Merge` | project2/zid_project2.py:102 | the index of an outer join is ascending and holds exactly the dates of either side |
| `Prices.Shared` | project2/zid_project2.py:102 | finds a label both frames have exactly when they have one; such a label makes the join raise |
| `Prices.OuterJoinCells` | project2/zid_project2.py:102 | a successful outer join has the left labels then the right ones, the union of the dates, and at every date the left row then the right row, missing where a side lacks the date |
| `Prices.PrcDf` | project2/zid_project2.py:92-104 | the frame `mk_prc_df` is meant to build, one join per ticker: when it exists it is rectangular, on an ascending index |
| `Prices.PrcDfOk` | project2/zid_project2.py:92-104 | the corrected always-join loop `PrcDf` succeeds exactly when every lower-cased ticker has prices and no two tickers have the same lower-cased label |
| `Prices.PrcDfFacts` | project2/zid_project2.py:94-102 | one column per ticker, lower-cased, in input order; the index is ascending and equals the union of the tickers' dates; a ticker not quoted on a date has a missing cell there |
| `Prices.MkPrcDf` | project2/zid_project2.py:92-104 | the loop raises the error `PrcDf` gives, or returns a new `Matrix` holding `PrcDf`'s frame |
| `Prices.PrcDfErrorStays` | project2/zid_project2.py:94-102 | once a prefix of the tickers raises, the whole list raises the same error |
| `Prices.AsWrittenPrcDf` | project2/zid_project2.py:94-102 | the loop as written, where an empty `result` is replaced instead of joined, gives an ascending rectangular frame when it succeeds |
| `Prices.JoinNoFrame` | project2/zid_project2.py:98-102 | outer-joining a frame onto the empty frame gives that frame |
| `Prices.AsWrittenAgrees` | project2/zid_project2.py:94-102 | the loop as written and the always-join loop agree when the first ticker has at least one quote |
| `Prices.LeadingEmptyTickerDropped` | project2/zid_project2.py:98-99 | with "aapl" unquoted and "tsla" quoted once, the loop as written keeps only "tsla"; the always-join loop keeps both |
| `Frames.Matrix.constructor` | project2/zid_project2.py:151 | `copy()`: a new object with its own array, holding the given frame |
| `Frames.RowAt` | project2/zid_project2.py:102 | the row a join aligns at a date, by label, with one cell per column |
| `Frames.RowAtMissing` | project2/zid_project2.py:102 | a date not in the index reads as a row of missing cells, which is what the outer join fills in |
| `Frames.RowAtIndex` | project2/zid_project2.py:151-165 | reading a date of the index by label gives the row at its position |
| `Returns.ReturnCell` | project2/zid_project2.py:152-163 | a return is present exactly when it is not in row 0 and both the price and the previous price are present |
| `Returns.ReturnGrid` | project2/zid_project2.py:151-163 | the returns have the shape of the prices: one row per date, one cell per ticker |
| `Returns.ReturnRules` | project2/zid_project2.py:152-163 | row 0 is missing; a later cell is present exactly when its price and the previous price are both present, and then `p[i-1] * (1 + r) == p[i]` |
| `Returns.ReturnRow` | project2/zid_project2.py:157-163 | one pass of the inner loop gives row `i` its returns, read from the snapshot, and leaves every other row alone |
| `Returns.MkRetDf` | project2/zid_project2.py:151-165 | the price frame's own cells become `ReturnGrid` of the snapshot; a price column called "mkt" makes the join raise, otherwise the result is a new `Matrix` holding the inner join |
| `Returns.Kept` | project2/zid_project2.py:165 | the row positions kept by the inner join are in order, point at dates with market data, and include every such date |
| `Returns.MarketJoin` | project2/zid_project2.py:165 | the inner join with the market column is rectangular |
| `Returns.MarketJoinFacts` | project2/zid_project2.py:165 | the join never has more rows than the price frame; its dates are exactly the price dates with market data, without repetition; its columns are the price columns plus "mkt"; read by date, each row is the price row plus the market return |
| `Returns.MarketJoinDates` | project2/zid_project2.py:165 | the joined dates are exactly the price dates that the market data has |
| `Returns.MarketJoinDistinct` | project2/zid_project2.py:165 | the join repeats no date |
| `Returns.MarketJoinRows` | project2/zid_project2.py:165 | read by date, a joined row is the price row plus that date's market return |
| `Returns.Remove` | project2/zid_project2.py:201 | dropping the column at one position leaves one fewer |
| `Returns.Without` | project2/zid_project2.py:201 | the labels `drop(['mkt'])` leaves: exactly the labels other than "mkt" |
| `Returns.DropMarket` | project2/zid_project2.py:201 | on a frame with one "mkt" column, dropping it keeps the dates, removes exactly one column and leaves no "mkt" label |
| `Returns.RemoveMembers` | project2/zid_project2.py:201 | after the drop, the labels are the others, still without repetition |
| `Returns.RemoveAt` | project2/zid_project2.py:201 | a column before the dropped one keeps its position, and one after it moves left by one |
| `Returns.AbnormalCell` | project2/zid_project2.py:206-210 | an abnormal return is present exactly when the return and the market return are, and then it plus the market return is the return |
| `Returns.Abnormal` | project2/zid_project2.py:200-210 | the frame `mk_aret_df` returns for one "mkt" column is rectangular |
| `Returns.AbnormalRow` | project2/zid_project2.py:206-210 | one pass of the inner loop subtracts the row's market return from each present cell of row `i`, keeps missing cells missing, and changes nothing else |
| `Returns.AbnormalFacts` | project2/zid_project2.py:200-210 | same dates; the columns are exactly the non-"mkt" ones; each cell of a ticker is its return less the market return of the row, missing when either is missing |
| `Returns.AbnormalAfterJoin` | project2/zid_project2.py:165-210 | after `mk_ret_df`'s join, every present return becomes exactly the return less that date's market return |
| `Returns.MkAretDf` | project2/zid_project2.py:200-212 | a frame without "mkt" makes the drop raise; with several "mkt" columns the loop fails on the first row, and with no row the result is the copy without any "mkt" column; with one, the result is a new `Matrix` holding `Abnormal` of the input |
| `Frames.ColumnSeries` | project2/zid_project2.py:246 | `df[col]` for a label that names one column: a series on the frame's index with one cell per row |
| `Dates.IsValid` | project2/zid_project2.py:248-249 | the dates the `datetime` constructor accepts; it carries no contract of its own, and `Dates.ValidYearEnds`, `Dates.ValidLeapDay` and `Dates.InYear` state what it accepts |
| `Dates.ValidYearEnds` | project2/zid_project2.py:248-249 | `datetime(year, 1, 1)` and `datetime(year, 12, 31)` are valid exactly for the years 1 to 9999 |
| `Dates.ValidLeapDay` | project2/zid_project2.py:342-343 | `datetime` accepts February 29 exactly in leap years |
| `Dates.InYear` | project2/zid_project2.py:248-251 | a valid date lies in `year`-01-01 .. `year`-12-31 exactly when its year is `year` |
| `Aggregates.Select` | project2/zid_project2.py:251 | `ser.loc[start:end]` never has more cells than the series |
| `Aggregates.SelectYear` | project2/zid_project2.py:248-251 | on valid dates, the calendar-year range selects exactly the cells dated in that year |
| `Aggregates.Present` | project2/zid_project2.py:254-259 | the values the loop adds up never outnumber the cells |
| `Aggregates.SumPresent` | project2/zid_project2.py:252-259 | the loop skips missing cells, and its `sum` and `z` are the sum and the number of the present values |
| `Aggregates.Mean` | project2/zid_project2.py:260 | `sum / z`: the mean times the number of values is their sum |
| `Aggregates.MeanBounds` | project2/zid_project2.py:260 | a mean lies within any bounds of the values averaged |
| `Aggregates.GetAvg` | project2/zid_project2.py:246-261 | a missing column raises; a year `datetime` rejects raises; a label that names several columns fails at `sum += x`; otherwise the result is the mean of the present values dated in the year, with a division by zero when there is none |
| `Aggregates.GetAvgExample` | project2/zid_project2.py:506-521 | the source's example: 1.0 and 2.0 in 2019 and 4.0 twice in 2020 give a 2019 average of 1.5 |
| `Aggregates.FirstAbsent` | project2/zid_project2.py:287-289 | the first ticker that is not a column is none exactly when all are columns |
| `Aggregates.FirstAbsentExtends` | project2/zid_project2.py:287-289 | the first absent ticker among the first `n` is the first in the whole list |
| `Aggregates.CheckTickers` | project2/zid_project2.py:287-289 | the loop stops at the first ticker that is not a column, whose `drop` raises |
| `Aggregates.WithAverage` | project2/zid_project2.py:291 | the copy gains an "average" column on the same index |
| `Aggregates.RowMean` | project2/zid_project2.py:294-304 | a row's mean is missing exactly when every cell of the row is missing |
| `Aggregates.EwValue` | project2/zid_project2.py:294-305 | a row's value is present only when the row has a present cell |
| `Aggregates.EwRets` | project2/zid_project2.py:291-307 | the series the loop leaves in "average": on the frame's index, one value per row |
| `Aggregates.EwRow` | project2/zid_project2.py:294-305 | the last cell of row `i` becomes the mean of the present cells before it, missing when none is present, and nothing else changes |
| `Aggregates.EwGrid` | project2/zid_project2.py:292-305 | the grid after the row loop has the same rows and width as before |
| `Aggregates.EwGridRow` | project2/zid_project2.py:292-305 | after the row loop a row keeps its cells before the last column, and its last cell is missing exactly when all of those are |
| `Aggregates.EwRows` | project2/zid_project2.py:293-305 | after the row loop, each row keeps its cells before the last column, and its last column holds their mean |
| `Aggregates.EwRetsFromGrid` | project2/zid_project2.py:285-307 | the "average" column after the loop is `EwRets` of the input frame |
| `Aggregates.GetEwRets` | project2/zid_project2.py:285-307 | a ticker that is not a column raises; otherwise the result is `EwRets` of the frame, on the frame's own index |
| `Aggregates.PresentMembers` | project2/zid_project2.py:296-300 | the present values are exactly the values of present cells; there are none exactly when every cell is missing |
| `Aggregates.PresentBounds` | project2/zid_project2.py:296-300 | bounds on the present cells hold for the values summed |
| `Aggregates.EwValueMeaning` | project2/zid_project2.py:294-305 | without an "average" column, a row's value is missing exactly when all its cells are missing, and otherwise lies within any bounds of its present cells |
| `Aggregates.EwRetsIgnoresTickers` | project2/zid_project2.py:286-289 | with columns "aapl" 1.0 and "tsla" 3.0 and tickers ["aapl"], the loop gives 2.0 and the intended portfolio 1.0 |
| `Aggregates.Restrict` | project2/zid_project2.py:286-289 | `df[tickers]`: the columns named by the tickers, in ticker order, on the same index |
| `Aggregates.IntendedEwRets` | project2/zid_project2.py:264-281 | the portfolio the documentation describes, on the frame's index |
| `Aggregates.IntendedEwRetsMeaning` | project2/zid_project2.py:264-307 | the portfolio the documentation describes averages, per row, the present cells of the tickers' columns only |
| `Aggregates.IntendedEwRetsLocal` | project2/zid_project2.py:264-307 | the intended portfolio reads only the tickers' columns: frames that agree on them give the same values |
| `Dates.ParseIso` | project2/zid_project2.py:339-343 | a string that takes apart gives a valid date |
| `Text.ParseNat` | project2/zid_project2.py:342-343 | the model's `int` succeeds exactly on a non-empty string of ASCII digits |
| `Text.ParsePadDigits` | project2/zid_project2.py:342-343 | `int` reads back a zero-padded digit string as its number |
| `Dates.ParseFormatIso` | project2/zid_project2.py:339-343 | a valid date written as YYYY-MM-DD parses back to itself |
| `Dates.ParseFormatIsoTail` | project2/zid_project2.py:339-342 | pieces after the third are not looked at |
| `Text.Split` | project2/zid_project2.py:339-340 | `split('-')` gives at least one piece, no piece holds the separator, and joining the pieces with it gives the string back |
| `Text.SplitAfterPiece` | project2/zid_project2.py:339-340 | splitting at `sep` after a piece without `sep` gives that piece first |
| `Aggregates.SelectAppend` | project2/zid_project2.py:345 | the range selection of two stretches is the selection of each, in order |
| `Aggregates.SelectIgnoresOutside` | project2/zid_project2.py:345 | observations dated before `start` or after `end` do not affect the selection, which keeps those in between in order |
| `Aggregates.PresentAppend` | project2/zid_project2.py:346 | `dropna` of two stretches is the `dropna` of each, in order |
| `Aggregates.PresentAll` | project2/zid_project2.py:346 | `dropna` of cells that are all present keeps all their values |
| `Aggregates.Compound` | project2/zid_project2.py:348-350 | the growth factor: positive when every return is above -1 |
| `Aggregates.CompoundAppend` | project2/zid_project2.py:348-350 | compounding two stretches multiplies their factors |
| `Aggregates.GetAnnRet` | project2/zid_project2.py:339-352 | a start or end date that does not take apart raises, start first; otherwise an empty selection divides by zero, and the result is the product of `1 + r` over the present values dated `start` .. `end` and their number |
| `Aggregates.CompoundConstant` | project2/zid_project2.py:625-642 | `n` observations of the same yield `y` compound to `(1 + y)^n` |
| `Aggregates.AnnRetRangeExample` | project2/zid_project2.py:631-654 | the source's range test: `n` days of yield `y` between observations before the start and after the end compound to `(1 + y)^n` over `n` observations |

## Left out

- File I/O is not modelled: `read_prc_csv`, `read_dat`, the file reads in `get_tics` and `mk_ret_df`, and the writing of the CSV file in `main`. Their results are parameters.
- The `config` and `toolkit_config` modules are not part of this model: `standardise_colnames`, `DATADIR`, `PRJDIR` and the paths built from them.
- The `prc_col` lookup in `mk_prc_df` is left out: `loader` already holds the chosen price column.
- The fractional power `total_return**(252/ser.size) - 1` is left out. It is real-exponent floating-point arithmetic.
- Aggregates.GetAnnRet: returns the compounded factor and the observation count, not the annualised return.
- Floating point is not modelled. Prices and returns are exact reals, so rounding is not modelled.
- The test functions, printing, `__main__` code and answer constants are left out.
- The scratch file `project2/notes.py` and `project2/quiz9.py` are not part of this model.
- Prices.MkPrcDf: requires each ticker's quotes to be in ascending date order, with each date at most once. `read_prc_csv` keeps the order of the file, so the price files are assumed to list each date once, in ascending order. A join of frames with unsorted or repeated dates is not modelled.
- Returns.MkRetDf: requires a non-zero previous price wherever a return is computed. A zero price gives an infinity or a NaN in numpy, and exact reals have neither.
- Prices.MkPrcDf: a missing (NaN) price inside a price file is not modelled. A quote is a (date, real) pair, so `loader` cannot hold one; only a date a ticker has no quote for becomes a missing cell.
- Returns.MkRetDf: the market column is a map from date to return, so a missing market return inside the market file is not modelled.
- Aggregates.GetEwRets: requires that "average" labels at most one column. Other labels may repeat. With several "average" columns, `copy['average'] = numpy.NAN` sets all of them and `copy['average']` returns a data frame rather than a series; that case is not modelled.
- Aggregates.GetAvg, Aggregates.GetAnnRet: `ser.loc[start:end]` is modelled as keeping, in index order, the cells dated from `start` to `end`. That is what pandas does on a sorted index, and the model holds for a sorted index only. On an unsorted index pandas slices by position between the two bounds when both are in the index, and raises `KeyError` when one is missing; neither is modelled.
- Dates.ParseIso, Text.ParseNat: `int` accepts only a non-empty string of ASCII digits here. Python's `int` also accepts surrounding whitespace, a sign, underscores between digits and non-ASCII digits, and those are not modelled.
- Dates.ParseIso: the `IndexError` of too few pieces and the `ValueError` of a bad number or an impossible date are one error, `DateFormat`.
- Text.Lower, Text.Upper, Text.RStrip: only ASCII letters change case, and only ASCII whitespace is stripped. Python's Unicode case mapping and whitespace are not modelled.
- The `get_tics` documentation says tickers have no spaces. The code only strips trailing whitespace, and the model follows the code: leading and inner whitespace is kept.
- `mk_aret_df` reads `len(ret_df.columns) - 1` columns of the dropped copy. With one "mkt" column that is every column of the copy, so the model loops over the copy's columns. With several, `drop` removes them all. With at least one row the loop then fails, which the model returns as `RepeatedLabel`; with no row the loop does not run and the dropped copy is returned.
- Returns.MkAretDf, Aggregates.GetAvg: the failure a repeated label causes is one error, `RepeatedLabel`. Which exception Python raises is not told apart: a `TypeError` in `get_avg`, and a `ValueError` or an `IndexError` in `mk_aret_df`, depending on the cells.

## Findings

| source | as written | input that shows it | evidently intended | confidence | as-written member | corrected member |
|---|---|---|---|---|---|---|
| project2/zid_project2.py:98-99 | while `result.empty` holds, the next ticker's frame replaces `result` instead of being joined to it. A leading ticker whose price file has no rows loses its column | tickers ["aapl", "tsla"], with no quotes for "aapl" and one quote for "tsla": the result has only the "tsla" column | one column per ticker, as the documentation of `mk_prc_df` requires, so "aapl" is an all-missing column | not executed | `Prices.AsWrittenPrcDf`, `Prices.LeadingEmptyTickerDropped` | `Prices.PrcDf`, `Prices.MkPrcDf`, `Prices.PrcDfFacts`, `Prices.PrcDfOk` |
| project2/zid_project2.py:286-289 | `copy.drop(column, axis=1)` runs only for tickers that are not columns, so it raises, and its result is discarded. The row loop then averages every column of the frame | columns "aapl" = 1.0 and "tsla" = 3.0 on one date, tickers ["aapl"]: the result is 2.0 | the portfolio of the tickers' columns only, as the documentation says: 1.0 | not executed | `Aggregates.EwRets`, `Aggregates.GetEwRets`, `Aggregates.EwRetsIgnoresTickers` | `Aggregates.IntendedEwRets`, `Aggregates.IntendedEwRetsMeaning`, `Aggregates.IntendedEwRetsLocal` |
