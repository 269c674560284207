/** Project 2, the auxiliary functions: the calendar-year mean of a column
    (`get_avg`), the equally weighted mean of each row (`get_ew_rets`) and
    the compounded growth over a date range (`get_ann_ret`). */
module Aggregates {
  import opened Basics
  import opened Dates
  import opened Frames
  import opened Returns

  /** `dropna`: the present values, in order. */
  function Present(cs: seq<Cell>): (vs: seq<real>)
    ensures |vs| <= |cs|
  {
    if |cs| == 0 then []
    else
      var n := |cs| - 1;
      Present(cs[..n]) + (if cs[n].Some? then [cs[n].value] else [])
  }

  lemma {:induction false} PresentAppend(a: seq<Cell>, b: seq<Cell>)
    ensures Present(a + b) == Present(a) + Present(b)
  {
    if |b| > 0 {
      var n := |b| - 1;
      assert (a + b)[..|a + b| - 1] == a + b[..n];
      PresentAppend(a, b[..n]);
    } else {
      assert a + b == a;
    }
  }

  lemma PresentSnoc(cs: seq<Cell>, c: Cell)
    ensures Present(cs + [c]) == Present(cs) + (if c.Some? then [c.value] else [])
  {
    assert (cs + [c])[..|cs|] == cs;
  }

  /** Cells that are all present give back all their values. */
  lemma {:induction false} PresentAll(cs: seq<Cell>)
    requires forall k :: 0 <= k < |cs| ==> cs[k].Some?
    ensures |Present(cs)| == |cs|
    ensures forall k :: 0 <= k < |cs| ==> Present(cs)[k] == cs[k].value
  {
    if |cs| > 0 {
      PresentAll(cs[..|cs| - 1]);
    }
  }

  function Sum(vs: seq<real>): real
  {
    if |vs| == 0 then 0.0 else Sum(vs[..|vs| - 1]) + vs[|vs| - 1]
  }

  lemma SumSnoc(vs: seq<real>, x: real)
    ensures Sum(vs + [x]) == Sum(vs) + x
  {
    assert (vs + [x])[..|vs|] == vs;
  }

  /** `sum / z` for the `z` values added up. */
  function Mean(vs: seq<real>): (r: real)
    requires |vs| > 0
    ensures r * |vs| as real == Sum(vs)
  {
    Sum(vs) / |vs| as real
  }

  lemma {:induction false} SumBounds(vs: seq<real>, lo: real, hi: real)
    requires forall k :: 0 <= k < |vs| ==> lo <= vs[k] <= hi
    ensures |vs| as real * lo <= Sum(vs) <= |vs| as real * hi
  {
    if |vs| > 0 {
      SumBounds(vs[..|vs| - 1], lo, hi);
    }
  }

  /** A mean lies between any bounds of the values averaged; in particular
      the mean of equal values is that value. */
  lemma MeanBounds(vs: seq<real>, lo: real, hi: real)
    requires |vs| > 0 && forall k :: 0 <= k < |vs| ==> lo <= vs[k] <= hi
    ensures lo <= Mean(vs) <= hi
  {
    SumBounds(vs, lo, hi);
    var n := |vs| as real;
    assert n * lo <= Sum(vs) <= n * hi;
    assert Mean(vs) == Sum(vs) / n;
  }

  /** The mean of the present cells, missing when none is present. */
  function RowMean(cs: seq<Cell>): (r: Cell)
    ensures r.None? <==> forall j :: 0 <= j < |cs| ==> cs[j].None?
  {
    PresentMembers(cs);
    var vs := Present(cs);
    if |vs| == 0 then None else Some(Mean(vs))
  }

  /** `ser.loc[lo:hi]`: the cells whose date lies in the inclusive range `lo` .. `hi`, in order. */
  function Select(s: Series, lo: Date, hi: Date): (cs: seq<Cell>)
    requires |s.index| == |s.values|
    ensures |cs| <= |s.values|
    decreases |s.index|
  {
    if |s.index| == 0 then []
    else
      var n := |s.index| - 1;
      Select(Series(s.index[..n], s.values[..n]), lo, hi)
      + (if InRange(s.index[n], lo, hi) then [s.values[n]] else [])
  }

  lemma {:induction false} SelectAppend(a: Series, b: Series, lo: Date, hi: Date)
    requires |a.index| == |a.values| && |b.index| == |b.values|
    ensures Select(Series(a.index + b.index, a.values + b.values), lo, hi)
      == Select(a, lo, hi) + Select(b, lo, hi)
    decreases |b.index|
  {
    var ab := Series(a.index + b.index, a.values + b.values);
    if |b.index| > 0 {
      var n := |b.index| - 1;
      var b' := Series(b.index[..n], b.values[..n]);
      assert ab.index[..|ab.index| - 1] == a.index + b'.index;
      assert ab.values[..|ab.values| - 1] == a.values + b'.values;
      SelectAppend(a, b', lo, hi);
    } else {
      assert ab == a;
    }
  }

  /** A stretch whose every date is out of range contributes nothing. */
  lemma {:induction false} SelectNone(s: Series, lo: Date, hi: Date)
    requires |s.index| == |s.values| && forall k :: 0 <= k < |s.index| ==> !InRange(s.index[k], lo, hi)
    ensures Select(s, lo, hi) == []
    decreases |s.index|
  {
    if |s.index| > 0 {
      var n := |s.index| - 1;
      SelectNone(Series(s.index[..n], s.values[..n]), lo, hi);
    }
  }

  /** A stretch whose every date is in range contributes all its cells. */
  lemma {:induction false} SelectAll(s: Series, lo: Date, hi: Date)
    requires |s.index| == |s.values| && forall k :: 0 <= k < |s.index| ==> InRange(s.index[k], lo, hi)
    ensures Select(s, lo, hi) == s.values
    decreases |s.index|
  {
    if |s.index| > 0 {
      var n := |s.index| - 1;
      SelectAll(Series(s.index[..n], s.values[..n]), lo, hi);
      assert s.values == s.values[..n] + [s.values[n]];
    }
  }

  /** Observations before `lo` or after `hi` do not affect the selection. */
  lemma SelectIgnoresOutside(before: Series, inside: Series, after: Series, lo: Date, hi: Date)
    requires |before.index| == |before.values| && |inside.index| == |inside.values|
    requires |after.index| == |after.values|
    requires forall k :: 0 <= k < |before.index| ==> Before(before.index[k], lo)
    requires forall k :: 0 <= k < |inside.index| ==> InRange(inside.index[k], lo, hi)
    requires forall k :: 0 <= k < |after.index| ==> Before(hi, after.index[k])
    ensures Select(Series(before.index + inside.index + after.index,
                          before.values + inside.values + after.values), lo, hi)
      == inside.values
  {
    var bi := Series(before.index + inside.index, before.values + inside.values);
    SelectAppend(before, inside, lo, hi);
    SelectAppend(bi, after, lo, hi);
    SelectNone(before, lo, hi);
    SelectAll(inside, lo, hi);
    SelectNone(after, lo, hi);
  }

  /** The cells whose date falls in calendar year `year`. */
  function InYearCells(s: Series, year: int): (cs: seq<Cell>)
    requires |s.index| == |s.values|
    decreases |s.index|
  {
    if |s.index| == 0 then []
    else
      var n := |s.index| - 1;
      InYearCells(Series(s.index[..n], s.values[..n]), year)
      + (if s.index[n].year == year then [s.values[n]] else [])
  }

  /** On valid dates, the range `year`-01-01 .. `year`-12-31 selects exactly the cells of that year. */
  lemma {:induction false} SelectYear(s: Series, year: int)
    requires |s.index| == |s.values| && forall k :: 0 <= k < |s.index| ==> IsValid(s.index[k])
    ensures Select(s, Date(year, 1, 1), Date(year, 12, 31)) == InYearCells(s, year)
    decreases |s.index|
  {
    if |s.index| > 0 {
      var n := |s.index| - 1;
      SelectYear(Series(s.index[..n], s.values[..n]), year);
      InYear(s.index[n], year);
    }
  }

  /** The loop both averages share: skip the missing cells, add up the
      others and count them. */
  method SumPresent(cs: seq<Cell>) returns (sum: real, z: nat)
    ensures sum == Sum(Present(cs)) && z == |Present(cs)|
  {
    sum, z := 0.0, 0;
    for k := 0 to |cs|
      invariant sum == Sum(Present(cs[..k])) && z == |Present(cs[..k])|
    {
      assert cs[..k + 1] == cs[..k] + [cs[k]];
      PresentSnoc(cs[..k], cs[k]);
      if cs[k].None? {
        assert Present(cs[..k + 1]) == Present(cs[..k]);
        continue;
      }
      SumSnoc(Present(cs[..k]), cs[k].value);
      sum := sum + cs[k].value;
      z := z + 1;
    }
    assert cs[..|cs|] == cs;
  }

  /** `get_avg(df, col, year)`: the column must exist and `datetime` must
      accept the year; the mean of the present values dated in the year,
      with no such value a division by zero. */
  method GetAvg(df: Matrix, col: string, year: int) returns (r: Result<real, Error>)
    requires df.Valid()
    ensures col !in df.columns ==> r == Err(NoSuchColumn(col))
    ensures col in df.columns && !(1 <= year <= 9999) ==> r == Err(BadYear(year))
    ensures col in df.columns && 1 <= year <= 9999 && !Once(df.columns, col) ==> r == Err(RepeatedLabel(col))
    ensures Once(df.columns, col) && 1 <= year <= 9999 ==>
      var vs := Present(Select(ColumnSeries(df.Value(), col), Date(year, 1, 1), Date(year, 12, 31)));
      r == if |vs| == 0 then Err(EmptySelection) else Ok(Mean(vs))
  {
    if col !in df.columns {
      return Err(NoSuchColumn(col));
    }
    if !(1 <= year <= 9999) {
      return Err(BadYear(year));
    }
    if !Once(df.columns, col) {
      // `df[col]` is a frame: the loop runs over its labels, and `sum += x` adds a string
      return Err(RepeatedLabel(col));
    }
    var ser := ColumnSeries(df.Value(), col);
    var annualData := Select(ser, Date(year, 1, 1), Date(year, 12, 31));
    var sum, z := SumPresent(annualData);
    if z == 0 {
      return Err(EmptySelection);
    }
    return Ok(sum / z as real);
  }

  /** The example of the source's own test: 1.0 and 2.0 in 2019, 4.0 twice in
      2020; the 2019 average is 1.5. */
  lemma GetAvgExample()
    ensures var s := Series([Date(2019, 1, 1), Date(2019, 1, 2), Date(2020, 10, 2), Date(2020, 11, 12)],
                            [Some(1.0), Some(2.0), Some(4.0), Some(4.0)]);
      Present(Select(s, Date(2019, 1, 1), Date(2019, 12, 31))) == [1.0, 2.0]
      && Mean([1.0, 2.0]) == 1.5
  {
    var s := Series([Date(2019, 1, 1), Date(2019, 1, 2), Date(2020, 10, 2), Date(2020, 11, 12)],
                    [Some(1.0), Some(2.0), Some(4.0), Some(4.0)]);
    var lo, hi := Date(2019, 1, 1), Date(2019, 12, 31);
    var before := Series([], []);
    var inside := Series(s.index[..2], s.values[..2]);
    var after := Series(s.index[2..], s.values[2..]);
    assert s.index == before.index + inside.index + after.index;
    assert s.values == before.values + inside.values + after.values;
    SelectIgnoresOutside(before, inside, after, lo, hi);
    assert inside.values == [Some(1.0), Some(2.0)];
    PresentSnoc([], Some(1.0));
    PresentSnoc([Some(1.0)], Some(2.0));
    assert [Some(1.0)] + [Some(2.0)] == [Some(1.0), Some(2.0)];
    SumSnoc([], 1.0);
    SumSnoc([1.0], 2.0);
    assert [1.0] + [2.0] == [1.0, 2.0];
    assert Sum([1.0, 2.0]) == 3.0;
  }

  const AVG := "average"

  /** `copy['average'] = numpy.NAN`: an existing "average" column is
      overwritten with missing cells, otherwise one is added last. */
  function WithAverage(f: Frame): (g: Frame)
    requires Shaped(f)
    ensures Shaped(g) && g.index == f.index && AVG in g.columns
    ensures (AVG in f.columns ==> Once(f.columns, AVG)) ==> Once(g.columns, AVG)
  {
    if AVG in f.columns then
      var p := Position(f.columns, AVG);
      Frame(f.index, f.columns, seq(|f.rows|, i requires 0 <= i < |f.rows| => f.rows[i][p := None]))
    else
      Frame(f.index, f.columns + [AVG], seq(|f.rows|, i requires 0 <= i < |f.rows| => f.rows[i] + [None]))
  }

  /** The value `get_ew_rets` gives for row `i`: the mean of the present
      cells of the row, but an existing "average" column is left out when it
      is the last column, and when it is not the last column the loop writes
      its means to that last column instead and every value is missing. */
  function EwValue(f: Frame, i: nat): (r: Cell)
    requires Shaped(f) && i < |f.rows|
    ensures r.Some? ==> exists j :: 0 <= j < |f.rows[i]| && f.rows[i][j].Some?
  {
    var n := |f.columns|;
    if AVG !in f.columns then RowMean(f.rows[i])
    else if f.columns[n - 1] == AVG then RowMean(f.rows[i][..n - 1])
    else None
  }

  function EwRets(f: Frame): (s: Series)
    requires Shaped(f)
    ensures s.index == f.index && |s.values| == |f.rows|
  {
    Series(f.index, seq(|f.rows|, i requires 0 <= i < |f.rows| => EwValue(f, i)))
  }

  /** The first ticker that is not a column: the `copy.drop` it reaches raises. */
  function FirstAbsent(tickers: seq<string>, columns: seq<string>): (r: Option<string>)
    ensures r.None? <==> forall k :: 0 <= k < |tickers| ==> tickers[k] in columns
    ensures r.Some? ==> r.value in tickers && r.value !in columns
  {
    if |tickers| == 0 then None
    else if tickers[0] !in columns then Some(tickers[0])
    else FirstAbsent(tickers[1..], columns)
  }

  /** The cells of row `i` before the last column. */
  function Leading(cells: array2<Cell>, i: nat): (cs: seq<Cell>)
    requires i < cells.Length0 && cells.Length1 > 0
    reads cells
    ensures |cs| == cells.Length1 - 1
  {
    seq(cells.Length1 - 1, j requires 0 <= j < cells.Length1 - 1 reads cells => cells[i, j])
  }

  /** The inner loop of `get_ew_rets` for row `i`: the mean of the present
      cells before the last column is written to the last column. */
  method EwRow(cells: array2<Cell>, i: nat)
    requires i < cells.Length0 && cells.Length1 > 0
    modifies cells
    ensures cells[i, cells.Length1 - 1] == RowMean(old(Leading(cells, i)))
    ensures forall a, b :: 0 <= a < cells.Length0 && 0 <= b < cells.Length1 && (a, b) != (i, cells.Length1 - 1) ==>
      cells[a, b] == old(cells[a, b])
  {
    var n := cells.Length1 - 1;
    var row := Leading(cells, i);
    var sum, z := SumPresent(row);
    if z == 0 {
      cells[i, n] := None;
    } else {
      cells[i, n] := Some(sum / z as real);
    }
  }

  /** A grid after the loop of `get_ew_rets`: each row keeps its cells
      before the last column, and the last column holds their mean. */
  function EwGrid(g: seq<seq<Cell>>, n: nat): (r: seq<seq<Cell>>)
    requires Rect(g, n) && n > 0
    ensures |r| == |g| && Rect(r, n)
  {
    seq(|g|, a requires 0 <= a < |g| => g[a][..n - 1] + [RowMean(g[a][..n - 1])])
  }

  /** Row `a` after the loop keeps its cells before the last column, and its
      last cell is missing exactly when all of those are. */
  lemma EwGridRow(g: seq<seq<Cell>>, n: nat, a: nat)
    requires Rect(g, n) && n > 0 && a < |g|
    ensures EwGrid(g, n)[a][..n - 1] == g[a][..n - 1]
    ensures EwGrid(g, n)[a][n - 1].None? <==> forall j :: 0 <= j < n - 1 ==> g[a][j].None?
  {
    var cs := g[a][..n - 1];
    assert EwGrid(g, n)[a] == cs + [RowMean(cs)];
    assert forall j :: 0 <= j < n - 1 ==> cs[j] == g[a][j];
  }

  /** The outer loop of `get_ew_rets` over the rows of `m`, which holds `g`. */
  method EwRows(m: Matrix, ghost g: seq<seq<Cell>>)
    requires m.Valid() && |m.columns| > 0 && m.Rows() == g
    modifies m.cells
    ensures m.Rows() == EwGrid(g, |m.columns|)
  {
    var cells := m.cells;
    var n := cells.Length1 - 1;
    for i := 0 to cells.Length0
      invariant forall a :: 0 <= a < i ==> cells[a, n] == RowMean(g[a][..n])
      invariant forall a, b :: 0 <= a < cells.Length0 && 0 <= b < n ==> cells[a, b] == g[a][b]
      invariant forall a :: i <= a < cells.Length0 ==> cells[a, n] == g[a][n]
    {
      assert Leading(cells, i) == g[i][..n];
      EwRow(cells, i);
    }
    forall a | 0 <= a < |g| ensures m.Rows()[a] == EwGrid(g, n + 1)[a] {
      assert forall b :: 0 <= b <= n ==> m.Rows()[a][b] == EwGrid(g, n + 1)[a][b];
    }
  }

  /** The loop over `tickers` at the start of `get_ew_rets`: the first
      ticker that is not a column, whose `drop` raises. */
  method CheckTickers(tickers: seq<string>, columns: seq<string>) returns (missing: Option<string>)
    ensures missing == FirstAbsent(tickers, columns)
  {
    for k := 0 to |tickers|
      invariant FirstAbsent(tickers[..k], columns).None?
    {
      FirstAbsentSnoc(tickers, columns, k);
      if tickers[k] !in columns {
        FirstAbsentExtends(tickers, columns, k + 1);
        return Some(tickers[k]);
      }
    }
    assert tickers[..|tickers|] == tickers;
    return None;
  }

  /** `get_ew_rets(df, tickers)`: a ticker that is not a column raises at
      its `drop`; otherwise the "average" column is set up, each row's mean
      is written to the last column, and the "average" column is returned. */
  method GetEwRets(df: Matrix, tickers: seq<string>) returns (r: Result<Series, Error>)
    requires df.Valid() && (AVG in df.columns ==> Once(df.columns, AVG))
    ensures FirstAbsent(tickers, df.columns).Some? ==> r == Err(NoSuchColumn(FirstAbsent(tickers, df.columns).value))
    ensures FirstAbsent(tickers, df.columns).None? ==> r == Ok(EwRets(df.Value()))
  {
    var f := df.Value();
    var missing := CheckTickers(tickers, f.columns);
    if missing.Some? {
      return Err(NoSuchColumn(missing.value));
    }
    var g := WithAverage(f);
    var copy := new Matrix(g);
    EwRows(copy, g.rows);
    EwRetsFromGrid(f, copy.Value());
    return Ok(ColumnSeries(copy.Value(), AVG));
  }

  lemma FirstAbsentSnoc(tickers: seq<string>, columns: seq<string>, k: nat)
    requires k < |tickers| && FirstAbsent(tickers[..k], columns).None?
    ensures FirstAbsent(tickers[..k + 1], columns).None? <==> tickers[k] in columns
  {
    assert forall q :: 0 <= q < k ==> tickers[..k + 1][q] == tickers[..k][q];
  }

  lemma {:induction false} FirstAbsentExtends(tickers: seq<string>, columns: seq<string>, n: nat)
    requires n <= |tickers| && FirstAbsent(tickers[..n], columns).Some?
    ensures FirstAbsent(tickers, columns) == FirstAbsent(tickers[..n], columns)
  {
    if n > 0 {
      if tickers[0] in columns {
        assert tickers[1..][..n - 1] == tickers[..n][1..];
        FirstAbsentExtends(tickers[1..], columns, n - 1);
      }
    }
  }

  /** After the loop, the "average" column of the grid holds `EwRets`. */
  lemma EwRetsFromGrid(f: Frame, h: Frame)
    requires Shaped(f) && (AVG in f.columns ==> Once(f.columns, AVG)) && Shaped(h)
    requires h.index == WithAverage(f).index && h.columns == WithAverage(f).columns
    requires h.rows == EwGrid(WithAverage(f).rows, |WithAverage(f).columns|)
    ensures Once(h.columns, AVG) && ColumnSeries(h, AVG) == EwRets(f)
  {
    var p := Position(h.columns, AVG);
    forall a | 0 <= a < |f.rows| ensures h.rows[a][p] == EwValue(f, a) {
      EwCell(f, a);
    }
    assert ColumnSeries(h, AVG).values == EwRets(f).values;
  }

  /** Row `a` of the grid after the loop holds `EwValue` in the "average" column. */
  lemma EwCell(f: Frame, a: nat)
    requires Shaped(f) && (AVG in f.columns ==> Once(f.columns, AVG)) && a < |f.rows|
    ensures EwGrid(WithAverage(f).rows, |WithAverage(f).columns|)[a][Position(WithAverage(f).columns, AVG)] == EwValue(f, a)
  {
    var g := WithAverage(f);
    var n := |g.columns|;
    var p := Position(g.columns, AVG);
    var row := EwGrid(g.rows, n)[a];
    assert row == g.rows[a][..n - 1] + [RowMean(g.rows[a][..n - 1])];
    if AVG !in f.columns {
      assert p == n - 1;
      assert g.rows[a][..n - 1] == f.rows[a];
    } else if f.columns[n - 1] == AVG {
      assert p == n - 1;
      assert g.rows[a][..n - 1] == f.rows[a][..n - 1];
    } else {
      assert p != n - 1;
      assert row[p] == g.rows[a][p];
    }
  }

  /** Without an "average" column, row `i` holds the mean of its present
      cells, missing exactly when none is present, and between any bounds of
      those cells. */
  lemma EwValueMeaning(f: Frame, i: nat, lo: real, hi: real)
    requires Shaped(f) && AVG !in f.columns && i < |f.rows|
    requires forall j :: 0 <= j < |f.columns| && f.rows[i][j].Some? ==> lo <= f.rows[i][j].value <= hi
    ensures EwRets(f).values[i].None? <==> forall j :: 0 <= j < |f.columns| ==> f.rows[i][j].None?
    ensures EwRets(f).values[i].Some? ==> lo <= EwRets(f).values[i].value <= hi
  {
    PresentMembers(f.rows[i]);
    PresentBounds(f.rows[i], lo, hi);
    if |Present(f.rows[i])| > 0 {
      MeanBounds(Present(f.rows[i]), lo, hi);
    }
  }

  /** Bounds on the present cells hold of the present values. */
  lemma {:induction false} PresentBounds(cs: seq<Cell>, lo: real, hi: real)
    requires forall j :: 0 <= j < |cs| && cs[j].Some? ==> lo <= cs[j].value <= hi
    ensures forall k :: 0 <= k < |Present(cs)| ==> lo <= Present(cs)[k] <= hi
  {
    if |cs| > 0 {
      PresentBounds(cs[..|cs| - 1], lo, hi);
    }
  }

  /** The present values are exactly the values of the present cells. */
  lemma {:induction false} PresentMembers(cs: seq<Cell>)
    ensures forall x :: x in Present(cs) <==> Some(x) in cs
    ensures |Present(cs)| == 0 <==> forall j :: 0 <= j < |cs| ==> cs[j].None?
  {
    if |cs| > 0 {
      var n := |cs| - 1;
      PresentMembers(cs[..n]);
      assert cs == cs[..n] + [cs[n]];
    }
  }

  /** `df[tickers]`: the columns named by `tickers`, in that order. */
  function Restrict(f: Frame, tickers: seq<string>): (g: Frame)
    requires Shaped(f) && forall k :: 0 <= k < |tickers| ==> tickers[k] in f.columns
    ensures Shaped(g) && g.index == f.index && g.columns == tickers
  {
    Frame(f.index, tickers,
          seq(|f.rows|, i requires 0 <= i < |f.rows| =>
            seq(|tickers|, k requires 0 <= k < |tickers| => f.rows[i][Position(f.columns, tickers[k])])))
  }

  /** The portfolio the documentation describes: the loop of `get_ew_rets`
      run on `df[tickers]`, so only the tickers' columns are averaged. */
  function IntendedEwRets(f: Frame, tickers: seq<string>): (s: Series)
    requires Shaped(f) && forall k :: 0 <= k < |tickers| ==> tickers[k] in f.columns
    ensures s.index == f.index
  {
    EwRets(Restrict(f, tickers))
  }

  /** With tickers that do not include "average", each value of the intended
      portfolio is the mean of the present cells of the tickers' columns. */
  lemma IntendedEwRetsMeaning(f: Frame, tickers: seq<string>, i: nat)
    requires Shaped(f) && forall k :: 0 <= k < |tickers| ==> tickers[k] in f.columns
    requires AVG !in tickers && i < |f.rows|
    ensures IntendedEwRets(f, tickers).values[i]
      == RowMean(seq(|tickers|, k requires 0 <= k < |tickers| => f.rows[i][Position(f.columns, tickers[k])]))
  {
  }

  /** The intended portfolio reads only the tickers' columns: two frames
      that agree on them give the same values, whatever their other columns hold. */
  lemma IntendedEwRetsLocal(f: Frame, g: Frame, tickers: seq<string>)
    requires Shaped(f) && forall k :: 0 <= k < |tickers| ==> tickers[k] in f.columns
    requires Shaped(g) && forall k :: 0 <= k < |tickers| ==> tickers[k] in g.columns
    requires |f.rows| == |g.rows|
    requires forall i, k :: 0 <= i < |f.rows| && 0 <= k < |tickers| ==>
      f.rows[i][Position(f.columns, tickers[k])] == g.rows[i][Position(g.columns, tickers[k])]
    ensures IntendedEwRets(f, tickers).values == IntendedEwRets(g, tickers).values
  {
    var rf, rg := Restrict(f, tickers), Restrict(g, tickers);
    forall i | 0 <= i < |f.rows| ensures rf.rows[i] == rg.rows[i] {
    }
    assert rf.rows == rg.rows;
  }

  /** The input that shows the difference: columns "aapl" and "tsla" with
      returns 1.0 and 3.0 on one date, and the portfolio of "aapl" alone. As
      written the value is 2.0, the mean of both columns; the intended value
      is 1.0. */
  lemma EwRetsIgnoresTickers()
    ensures var f := Frame([Date(2020, 1, 2)], ["aapl", "tsla"], [[Some(1.0), Some(3.0)]]);
      Shaped(f) && FirstAbsent(["aapl"], f.columns).None?
      && EwRets(f).values == [Some(2.0)]
      && IntendedEwRets(f, ["aapl"]).values == [Some(1.0)]
  {
    var f := Frame([Date(2020, 1, 2)], ["aapl", "tsla"], [[Some(1.0), Some(3.0)]]);
    NotAverage();
    MeanOfTwo(1.0, 3.0);
    MeanOfOne(1.0);
    var g := Restrict(f, ["aapl"]);
    assert g.rows[0] == [Some(1.0)];
  }

  lemma NotAverage()
    ensures AVG !in ["aapl", "tsla"] && AVG !in ["aapl"]
  {
  }

  lemma MeanOfOne(x: real)
    ensures RowMean([Some(x)]) == Some(x)
  {
    PresentSnoc([], Some(x));
    assert [] + [Some(x)] == [Some(x)];
    SumSnoc([], x);
    assert [] + [x] == [x];
  }

  lemma MeanOfTwo(x: real, y: real)
    ensures RowMean([Some(x), Some(y)]) == Some((x + y) / 2.0)
  {
    PresentSnoc([Some(x)], Some(y));
    MeanOfOne(x);
    assert [Some(x)] + [Some(y)] == [Some(x), Some(y)];
    SumSnoc([x], y);
    assert [x] + [y] == [x, y];
    assert Sum([x]) == x by {
      SumSnoc([], x);
      assert [] + [x] == [x];
    }
  }

  /** The factor `get_ann_ret` compounds: the product of `1 + r`. */
  function Compound(vs: seq<real>): (r: real)
    ensures (forall k :: 0 <= k < |vs| ==> -1.0 < vs[k]) ==> 0.0 < r
  {
    if |vs| == 0 then 1.0
    else
      var n := |vs| - 1;
      var p, x := Compound(vs[..n]), 1.0 + vs[n];
      PositiveProduct(p, x);
      p * x
  }

  lemma PositiveProduct(p: real, x: real)
    ensures 0.0 < p && 0.0 < x ==> 0.0 < p * x
  {
  }

  lemma {:induction false} CompoundAppend(a: seq<real>, b: seq<real>)
    ensures Compound(a + b) == Compound(a) * Compound(b)
  {
    if |b| > 0 {
      var n := |b| - 1;
      assert (a + b)[..|a + b| - 1] == a + b[..n];
      CompoundAppend(a, b[..n]);
    } else {
      assert a + b == a;
    }
  }

  lemma CompoundSnoc(vs: seq<real>, x: real)
    ensures Compound(vs + [x]) == Compound(vs) * (1.0 + x)
  {
    assert (vs + [x])[..|vs|] == vs;
  }

  function Pow(x: real, n: nat): real
  {
    if n == 0 then 1.0 else Pow(x, n - 1) * x
  }

  /** `n` days of the same yield `y` compound to `(1 + y)^n`. */
  lemma {:induction false} CompoundConstant(y: real, n: nat)
    ensures Compound(seq(n, k => y)) == Pow(1.0 + y, n)
  {
    if n > 0 {
      assert seq(n, k => y)[..n - 1] == seq(n - 1, k => y);
      CompoundConstant(y, n - 1);
    }
  }

  /** What `get_ann_ret` computes before the power: the compounded factor
      and the number of observations it compounds. The annualised return is
      `factor^(252/size) - 1`. */
  datatype Growth = Growth(factor: real, size: nat)

  /** `get_ann_ret(ser, start, end)`: both dates must take apart as
      YYYY-MM-DD; the present values dated `start` .. `end` are compounded;
      with none, `252/ser.size` divides by zero. */
  method GetAnnRet(ser: Series, start: string, end: string) returns (r: Result<Growth, Error>)
    requires |ser.index| == |ser.values|
    ensures ParseIso(start).None? ==> r == Err(DateFormat(start))
    ensures ParseIso(start).Some? && ParseIso(end).None? ==> r == Err(DateFormat(end))
    ensures ParseIso(start).Some? && ParseIso(end).Some? ==>
      var vs := Present(Select(ser, ParseIso(start).value, ParseIso(end).value));
      r == if |vs| == 0 then Err(EmptySelection) else Ok(Growth(Compound(vs), |vs|))
  {
    var startDate := ParseIso(start);
    if startDate.None? {
      return Err(DateFormat(start));
    }
    var endDate := ParseIso(end);
    if endDate.None? {
      return Err(DateFormat(end));
    }
    var values := Present(Select(ser, startDate.value, endDate.value));
    var totalReturn := 1.0;
    for k := 0 to |values|
      invariant totalReturn == Compound(values[..k])
    {
      assert values[..k + 1] == values[..k] + [values[k]];
      CompoundSnoc(values[..k], values[k]);
      totalReturn := totalReturn * (1.0 + values[k]);
    }
    assert values[..|values|] == values;
    if |values| == 0 {
      return Err(EmptySelection);
    }
    return Ok(Growth(totalReturn, |values|));
  }

  /** The range test of the source: `n` days of yield `y` from `start`, with
      observations before and after the range around them, compound to
      `(1 + y)^n` over `n` observations. */
  lemma AnnRetRangeExample(before: Series, inside: Series, after: Series, lo: Date, hi: Date, y: real)
    requires |before.index| == |before.values| && |inside.index| == |inside.values|
    requires |after.index| == |after.values|
    requires forall k :: 0 <= k < |before.index| ==> Before(before.index[k], lo)
    requires forall k :: 0 <= k < |inside.index| ==> InRange(inside.index[k], lo, hi)
    requires forall k :: 0 <= k < |after.index| ==> Before(hi, after.index[k])
    requires forall k :: 0 <= k < |inside.values| ==> inside.values[k] == Some(y)
    ensures var s := Series(before.index + inside.index + after.index,
                            before.values + inside.values + after.values);
      Present(Select(s, lo, hi)) == seq(|inside.values|, k => y)
      && Compound(Present(Select(s, lo, hi))) == Pow(1.0 + y, |inside.values|)
  {
    SelectIgnoresOutside(before, inside, after, lo, hi);
    PresentAll(inside.values);
    assert Present(inside.values) == seq(|inside.values|, k => y);
    CompoundConstant(y, |inside.values|);
  }
}
