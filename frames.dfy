/** Date-indexed tables of possibly missing numbers: the value a pandas data
    frame holds, and a class over a two-dimensional array for the stages of
    project 2 that overwrite cells in place. */
module Frames {
  import opened Basics
  import opened Dates

  /** A cell: a number, or missing (`NaN`). Prices and returns are exact reals. */
  type Cell = Option<real>

  /** What a data frame holds: its date index, its column labels and one row
      of cells per date. */
  datatype Frame = Frame(index: seq<Date>, columns: seq<string>, rows: seq<seq<Cell>>)

  /** One row per date, one cell per column. */
  predicate Shaped(f: Frame)
  {
    |f.rows| == |f.index| && forall i :: 0 <= i < |f.rows| ==> |f.rows[i]| == |f.columns|
  }

  /** The frames of the pipeline: rectangular, no date twice, no label twice. */
  predicate WellFormed(f: Frame)
  {
    Shaped(f) && Distinct(f.index) && Distinct(f.columns)
  }

  /** A series: a date index and one cell per date. */
  datatype Series = Series(index: seq<Date>, values: seq<Cell>)

  /** The exceptions the operations raise. */
  datatype Error =
    | NotFound(ticker: string)      // no price file for the ticker
    | ColumnOverlap(name: string)  // a join of two frames that share a column label
    | NoSuchColumn(name: string)   // a `KeyError` for a column label
    | BadYear(year: int)            // `datetime` rejects the year
    | DateFormat(text: string)      // a date string that does not take apart as YYYY-MM-DD
    | EmptySelection                // a division by a count of zero
    | RepeatedLabel(name: string)   // `f[c]` selects several columns, and the arithmetic on them fails

  /** A row of missing cells. */
  function Nones(n: nat): (r: seq<Cell>)
    ensures |r| == n && forall j :: 0 <= j < n ==> r[j] == None
  {
    seq(n, j => None)
  }

  /** The row of date `d`, by label (`f.loc[d]`); a date not in the index
      reads as a row of missing cells. */
  function RowAt(f: Frame, d: Date): (r: seq<Cell>)
    requires Shaped(f)
    ensures |r| == |f.columns|
  {
    if d in f.index then f.rows[Position(f.index, d)] else Nones(|f.columns|)
  }

  /** A date outside the index reads as a row of missing cells. */
  lemma RowAtMissing(f: Frame, d: Date)
    requires Shaped(f) && d !in f.index
    ensures forall j :: 0 <= j < |f.columns| ==> RowAt(f, d)[j].None?
  {
  }

  /** The cell of date `d` in column `j`. */
  function CellAt(f: Frame, d: Date, j: nat): Cell
    requires Shaped(f) && j < |f.columns|
  {
    RowAt(f, d)[j]
  }

  /** Reading a date of the index by label gives the row at its position. */
  lemma RowAtIndex(f: Frame, i: nat)
    requires WellFormed(f) && i < |f.index|
    ensures RowAt(f, f.index[i]) == f.rows[i]
  {
    PositionOf(f.index, i);
  }

  /** `c` labels exactly one column of `s`, so `f[c]` is a series and not a frame. */
  predicate Once(s: seq<string>, c: string)
  {
    c in s && forall k :: 0 <= k < |s| && s[k] == c ==> k == Position(s, c)
  }

  /** The column labelled `c`, as a series over the same index (`f[c]`). */
  function ColumnSeries(f: Frame, c: string): (s: Series)
    requires Shaped(f) && Once(f.columns, c)
    ensures s.index == f.index && |s.values| == |f.rows|
  {
    var j := Position(f.columns, c);
    Series(f.index, seq(|f.rows|, i requires 0 <= i < |f.rows| => f.rows[i][j]))
  }

  /** A data frame whose cells the source overwrites with `iloc` assignments. */
  class Matrix {
    var index: seq<Date>
    var columns: seq<string>
    var cells: array2<Cell>

    ghost predicate Valid()
      reads this
    {
      cells.Length0 == |index| && cells.Length1 == |columns|
    }

    /** The cells, row by row. */
    function Rows(): (g: seq<seq<Cell>>)
      reads this, cells
      ensures |g| == cells.Length0
      ensures forall i :: 0 <= i < |g| ==> |g[i]| == cells.Length1
    {
      var a := cells;
      seq(a.Length0, i requires 0 <= i < a.Length0 reads a =>
        seq(a.Length1, j requires 0 <= j < a.Length1 reads a => a[i, j]))
    }

    /** The frame this object holds. */
    function Value(): (f: Frame)
      reads this, cells
      ensures Valid() ==> Shaped(f)
    {
      Frame(index, columns, Rows())
    }

    /** `f.copy()`: a new object holding `f`, with its own array. */
    constructor (f: Frame)
      requires Shaped(f)
      ensures Valid() && Value() == f && fresh(cells)
    {
      index := f.index;
      columns := f.columns;
      cells := new Cell[|f.index|, |f.columns|]((i, j) requires 0 <= i < |f.index| && 0 <= j < |f.columns| =>
        f.rows[i][j]);
      new;
      assert Rows() == f.rows by {
        forall i | 0 <= i < |f.rows| ensures Rows()[i] == f.rows[i] {
        }
      }
    }
  }
}
