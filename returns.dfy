/** Project 2, `mk_ret_df` and `mk_aret_df`: prices become simple returns in
    place, the market column is joined on, and the market return is
    subtracted from every stock's return. */
module Returns {
  import opened Basics
  import opened Dates
  import opened Frames

  /** Cells row by row, every row `n` wide. */
  predicate Rect(g: seq<seq<Cell>>, n: nat)
  {
    forall i :: 0 <= i < |g| ==> |g[i]| == n
  }

  /** Numpy turns a division by a zero price into an infinity or a NaN, which
      exact reals do not have: the model asks for a non-zero previous price
      wherever a return is computed. */
  predicate NoZeroBefore(g: seq<seq<Cell>>, n: nat)
    requires Rect(g, n)
  {
    forall i :: 0 < i < |g| ==> NonZeroPrevious(g[i - 1], g[i], n)
  }

  predicate NonZeroPrevious(prev: seq<Cell>, cur: seq<Cell>, n: nat)
    requires |prev| == n && |cur| == n
  {
    forall j :: 0 <= j < n && cur[j].Some? && prev[j].Some? ==> prev[j].value != 0.0
  }

  /** The value the loop of `mk_ret_df` leaves in row `i`, column `j`, reading
      prices from the snapshot `g`: missing in the first row; left as it is
      (missing) when the price is missing; missing when the previous price
      is; otherwise the simple return. */
  function ReturnCell(g: seq<seq<Cell>>, n: nat, i: nat, j: nat): (r: Cell)
    requires Rect(g, n) && NoZeroBefore(g, n) && i < |g| && j < n
    ensures r.Some? <==> 0 < i && g[i][j].Some? && g[i - 1][j].Some?
  {
    if i == 0 then None
    else if g[i][j].None? then g[i][j]
    else if g[i - 1][j].None? then None
    else
      assert NonZeroPrevious(g[i - 1], g[i], n);
      Some((g[i][j].value - g[i - 1][j].value) / g[i - 1][j].value)
  }

  function ReturnGrid(g: seq<seq<Cell>>, n: nat): (r: seq<seq<Cell>>)
    requires Rect(g, n) && NoZeroBefore(g, n)
    ensures |r| == |g| && Rect(r, n)
  {
    seq(|g|, i requires 0 <= i < |g| =>
      seq(n, j requires 0 <= j < n => ReturnCell(g, n, i, j)))
  }

  /** A return is present exactly when the date is not the first and both the
      price and the previous price are present; then compounding it onto the
      previous price gives the price back. */
  lemma ReturnRules(g: seq<seq<Cell>>, n: nat, i: nat, j: nat)
    requires Rect(g, n) && NoZeroBefore(g, n) && i < |g| && j < n
    ensures i == 0 ==> ReturnGrid(g, n)[i][j] == None
    ensures ReturnGrid(g, n)[i][j].Some? <==> i > 0 && g[i][j].Some? && g[i - 1][j].Some?
    ensures ReturnGrid(g, n)[i][j].Some? ==>
      g[i - 1][j].value * (1.0 + ReturnGrid(g, n)[i][j].value) == g[i][j].value
  {
    if ReturnGrid(g, n)[i][j].Some? {
      var p, c := g[i - 1][j].value, g[i][j].value;
      assert ReturnGrid(g, n)[i][j].value == (c - p) / p;
      assert p * (1.0 + (c - p) / p) == p + (c - p);
    }
  }

  /** The row positions whose date the market data has, in order: the rows an
      inner join keeps. */
  function Kept(index: seq<Date>, mkt: map<Date, real>): (ks: seq<nat>)
    ensures |ks| <= |index|
    ensures forall p :: 0 <= p < |ks| ==> ks[p] < |index| && index[ks[p]] in mkt
    ensures forall p, q :: 0 <= p < q < |ks| ==> ks[p] < ks[q]
    ensures forall i :: 0 <= i < |index| && index[i] in mkt ==> i in ks
  {
    if |index| == 0 then []
    else
      var n := |index| - 1;
      Kept(index[..n], mkt) + (if index[n] in mkt then [n] else [])
  }

  const MKT := "mkt"

  /** `df.join(daily, how='inner')` where `daily` holds only the market column:
      the rows whose date is in the market data, in their original order,
      each extended by that date's market return. */
  function MarketJoin(f: Frame, mkt: map<Date, real>): (res: Frame)
    requires Shaped(f)
    ensures Shaped(res)
  {
    var ks := Kept(f.index, mkt);
    Frame(seq(|ks|, p requires 0 <= p < |ks| => f.index[ks[p]]),
          f.columns + [MKT],
          seq(|ks|, p requires 0 <= p < |ks| => f.rows[ks[p]] + [Some(mkt[f.index[ks[p]]])]))
  }

  /** The joined frame never has more rows than the frame joined; its dates are
      exactly those of both; its columns are the frame's plus "mkt"; and read
      by date, each row is the frame's row of that date plus the market's
      return of it. */
  lemma MarketJoinFacts(f: Frame, mkt: map<Date, real>)
    requires WellFormed(f)
    ensures |MarketJoin(f, mkt).index| <= |f.index|
    ensures forall d :: d in MarketJoin(f, mkt).index <==> d in f.index && d in mkt
    ensures MarketJoin(f, mkt).columns == f.columns + [MKT]
    ensures Distinct(MarketJoin(f, mkt).index)
    ensures forall d :: d in MarketJoin(f, mkt).index ==>
      RowAt(MarketJoin(f, mkt), d) == RowAt(f, d) + [Some(mkt[d])]
  {
    MarketJoinDates(f, mkt);
    MarketJoinDistinct(f, mkt);
    MarketJoinRows(f, mkt);
  }

  lemma MarketJoinDates(f: Frame, mkt: map<Date, real>)
    requires Shaped(f)
    ensures forall d :: d in MarketJoin(f, mkt).index <==> d in f.index && d in mkt
  {
    var j := MarketJoin(f, mkt);
    var ks := Kept(f.index, mkt);
    forall d | d in f.index && d in mkt ensures d in j.index {
      var i := Position(f.index, d);
      var p :| 0 <= p < |ks| && ks[p] == i;
      assert j.index[p] == d;
    }
  }

  lemma MarketJoinDistinct(f: Frame, mkt: map<Date, real>)
    requires WellFormed(f)
    ensures Distinct(MarketJoin(f, mkt).index)
  {
    var j := MarketJoin(f, mkt);
    var ks := Kept(f.index, mkt);
    forall p, q | 0 <= p < q < |j.index| ensures j.index[p] != j.index[q] {
      assert ks[p] < ks[q];
    }
  }

  lemma MarketJoinRows(f: Frame, mkt: map<Date, real>)
    requires WellFormed(f) && Distinct(MarketJoin(f, mkt).index)
    ensures forall d :: d in MarketJoin(f, mkt).index ==>
      RowAt(MarketJoin(f, mkt), d) == RowAt(f, d) + [Some(mkt[d])]
  {
    var j := MarketJoin(f, mkt);
    var ks := Kept(f.index, mkt);
    forall d | d in j.index ensures RowAt(j, d) == RowAt(f, d) + [Some(mkt[d])] {
      var p := Position(j.index, d);
      RowAtIndex(f, ks[p]);
    }
  }

  /** `mk_ret_df(prc_df)` with `mkt` standing for the "mkt" column of the
      market file: the price frame's own cells are overwritten with returns,
      computed from a snapshot taken first, and then the inner join with the
      market column is returned; a price column already called "mkt" makes
      the join raise. */
  method MkRetDf(prc: Matrix, mkt: map<Date, real>) returns (r: Result<Matrix, Error>)
    requires prc.Valid() && NoZeroBefore(prc.Rows(), |prc.columns|)
    modifies prc.cells
    ensures prc.Rows() == ReturnGrid(old(prc.Rows()), |prc.columns|)
    ensures MKT in prc.columns ==> r == Err(ColumnOverlap(MKT))
    ensures MKT !in prc.columns ==>
      r.Ok? && fresh(r.value) && r.value.Valid() && r.value.Value() == MarketJoin(prc.Value(), mkt)
  {
    var copy := prc.Rows();
    var m, n := prc.cells.Length0, prc.cells.Length1;
    for i := 0 to m
      invariant forall a, b :: 0 <= a < i && 0 <= b < n ==> prc.cells[a, b] == ReturnCell(copy, n, a, b)
      invariant forall a, b :: i <= a < m && 0 <= b < n ==> prc.cells[a, b] == copy[a][b]
    {
      ReturnRow(prc.cells, copy, n, i);
    }
    assert prc.Rows() == ReturnGrid(copy, n) by {
      forall a | 0 <= a < m ensures prc.Rows()[a] == ReturnGrid(copy, n)[a] {
      }
    }
    if MKT in prc.columns {
      return Err(ColumnOverlap(MKT));
    }
    var joined := new Matrix(MarketJoin(prc.Value(), mkt));
    return Ok(joined);
  }

  /** One pass of the inner loop of `mk_ret_df`: row `i` of `cells`, which
      still holds the snapshot's prices, receives its returns. */
  method ReturnRow(cells: array2<Cell>, copy: seq<seq<Cell>>, n: nat, i: nat)
    requires cells.Length1 == n && |copy| == cells.Length0 && i < |copy|
    requires Rect(copy, n) && NoZeroBefore(copy, n)
    requires forall b :: 0 <= b < n ==> cells[i, b] == copy[i][b]
    modifies cells
    ensures forall b :: 0 <= b < n ==> cells[i, b] == ReturnCell(copy, n, i, b)
    ensures forall a, b :: 0 <= a < |copy| && a != i && 0 <= b < n ==> cells[a, b] == old(cells[a, b])
  {
    for j := 0 to n
      invariant forall b :: 0 <= b < j ==> cells[i, b] == ReturnCell(copy, n, i, b)
      invariant forall b :: j <= b < n ==> cells[i, b] == copy[i][b]
      invariant forall a, b :: 0 <= a < |copy| && a != i && 0 <= b < n ==> cells[a, b] == old(cells[a, b])
    {
      if i == 0 {
        cells[i, j] := None;
      } else if copy[i][j].None? {
        continue;
      } else if copy[i - 1][j].None? {
        cells[i, j] := None;
      } else {
        assert NonZeroPrevious(copy[i - 1], copy[i], n);
        cells[i, j] := Some((copy[i][j].value - copy[i - 1][j].value) / copy[i - 1][j].value);
      }
    }
  }

  /** One pass of the inner loop of `mk_aret_df`: the market return `market`
      is subtracted from every present cell of row `i`. */
  method AbnormalRow(cells: array2<Cell>, i: nat, market: Cell)
    requires i < cells.Length0
    modifies cells
    ensures forall b :: 0 <= b < cells.Length1 ==> cells[i, b] == AbnormalCell(old(cells[i, b]), market)
    ensures forall a, b :: 0 <= a < cells.Length0 && a != i && 0 <= b < cells.Length1 ==>
      cells[a, b] == old(cells[a, b])
  {
    for j := 0 to cells.Length1
      invariant forall b :: 0 <= b < j ==> cells[i, b] == AbnormalCell(old(cells[i, b]), market)
      invariant forall b :: j <= b < cells.Length1 ==> cells[i, b] == old(cells[i, b])
      invariant forall a, b :: 0 <= a < cells.Length0 && a != i && 0 <= b < cells.Length1 ==>
        cells[a, b] == old(cells[a, b])
    {
      if cells[i, j].None? {
        continue;
      } else {
        cells[i, j] := if market.None? then None else Some(cells[i, j].value - market.value);
      }
    }
  }

  /** `s` without its element at `c`. */
  function Remove<T>(s: seq<T>, c: nat): (r: seq<T>)
    requires c < |s|
    ensures |r| == |s| - 1
  {
    s[..c] + s[c + 1..]
  }

  /** `x - m` when `x` is present, with a missing market return giving a missing result. */
  function AbnormalCell(x: Cell, m: Cell): (r: Cell)
    ensures r.Some? <==> x.Some? && m.Some?
    ensures r.Some? ==> r.value + m.value == x.value
  {
    if x.None? then None
    else if m.None? then None
    else Some(x.value - m.value)
  }

  /** `s` without any occurrence of `x`. */
  function Without(s: seq<string>, x: string): (r: seq<string>)
    ensures forall y :: y in r <==> y in s && y != x
  {
    if |s| == 0 then [] else (if s[0] == x then [] else [s[0]]) + Without(s[1..], x)
  }

  /** `f.drop(['mkt'], axis=1)` on a frame with one "mkt" column. */
  function DropMarket(f: Frame): (res: Frame)
    requires Shaped(f) && Once(f.columns, MKT)
    ensures Shaped(res) && res.index == f.index && |res.columns| == |f.columns| - 1
    ensures MKT !in res.columns
  {
    var c := Position(f.columns, MKT);
    Frame(f.index, Remove(f.columns, c), seq(|f.rows|, i requires 0 <= i < |f.rows| => Remove(f.rows[i], c)))
  }

  /** The frame `mk_aret_df` returns: "mkt" dropped and, in every row, the
      market return of that row subtracted from each remaining cell. */
  function Abnormal(f: Frame): (res: Frame)
    requires Shaped(f) && Once(f.columns, MKT)
    ensures Shaped(res)
  {
    var c := Position(f.columns, MKT);
    var d := DropMarket(f);
    Frame(d.index, d.columns,
          seq(|d.rows|, i requires 0 <= i < |d.rows| =>
            seq(|d.columns|, j requires 0 <= j < |d.columns| => AbnormalCell(d.rows[i][j], f.rows[i][c]))))
  }

  /** Removing position `c` shifts what comes after it down by one. */
  lemma RemoveAt<T>(s: seq<T>, c: nat, k: nat)
    requires c < |s| && k < |s| && k != c
    ensures Remove(s, c)[if k < c then k else k - 1] == s[k]
  {
  }

  /** Without repetitions, removing position `c` removes exactly the element there. */
  lemma RemoveMembers<T>(s: seq<T>, c: nat)
    requires Distinct(s) && c < |s|
    ensures forall x :: x in Remove(s, c) <==> x in s && x != s[c]
    ensures Distinct(Remove(s, c))
  {
    var r := Remove(s, c);
    forall x ensures x in r <==> x in s && x != s[c] {
      if x in s && x != s[c] {
        var k :| 0 <= k < |s| && s[k] == x;
        RemoveAt(s, c, k);
      }
      if x in r {
        var k :| 0 <= k < |r| && r[k] == x;
        if k < c { assert s[k] == x; } else { assert s[k + 1] == x; }
      }
    }
    forall a, b | 0 <= a < b < |r| ensures r[a] != r[b] {
      var a', b' := if a < c then a else a + 1, if b < c then b else b + 1;
      assert r[a] == s[a'] && r[b] == s[b'];
    }
  }

  /** The abnormal-return frame has the same dates, the columns other than
      "mkt" in their order, and for a column `t` other than "mkt" and any row,
      the cell is the cell of `t` less the market return of the row: missing
      when either is missing. */
  lemma AbnormalFacts(f: Frame, i: nat, t: string)
    requires Shaped(f) && Distinct(f.columns) && MKT in f.columns && i < |f.index|
    requires t in f.columns && t != MKT
    ensures Abnormal(f).index == f.index
    ensures forall x :: x in Abnormal(f).columns <==> x in f.columns && x != MKT
    ensures t in Abnormal(f).columns
    ensures Abnormal(f).rows[i][Position(Abnormal(f).columns, t)]
      == AbnormalCell(f.rows[i][Position(f.columns, t)], f.rows[i][Position(f.columns, MKT)])
  {
    var c := Position(f.columns, MKT);
    var rs := Remove(f.columns, c);
    RemoveMembers(f.columns, c);
    var k := Position(f.columns, t);
    var q := if k < c then k else k - 1;
    RemoveAt(f.columns, c, k);
    PositionOf(rs, q);
    RemoveAt(f.rows[i], c, k);
  }

  /** With the market column an inner join adds, which is never missing, every
      present return becomes exactly the return less the market return. */
  lemma AbnormalAfterJoin(f: Frame, mkt: map<Date, real>, i: nat, t: string)
    requires WellFormed(f) && MKT !in f.columns && t in f.columns
    requires i < |MarketJoin(f, mkt).index|
    requires MarketJoin(f, mkt).rows[i][Position(f.columns, t)].Some?
    ensures MKT in MarketJoin(f, mkt).columns
    ensures AbnormalCell(MarketJoin(f, mkt).rows[i][Position(f.columns, t)],
                         MarketJoin(f, mkt).rows[i][Position(MarketJoin(f, mkt).columns, MKT)])
      == Some(MarketJoin(f, mkt).rows[i][Position(f.columns, t)].value - mkt[MarketJoin(f, mkt).index[i]])
  {
    var j := MarketJoin(f, mkt);
    assert j.columns == f.columns + [MKT];
    PositionOf(j.columns, |f.columns|) by {
      assert Distinct(j.columns) by {
        forall a, b | 0 <= a < b < |j.columns| ensures j.columns[a] != j.columns[b] {
          if b == |f.columns| { assert j.columns[a] in f.columns; }
        }
      }
    }
  }

  /** `mk_aret_df(ret_df)`: a frame without a "mkt" column makes the drop
      raise. With several "mkt" columns the drop removes them all, and the
      row loop then fails on its first row (it subtracts a row of market
      returns from a cell, or reads past the last column); with no row it
      returns the dropped copy. Otherwise the copy without "mkt" has the
      market return of each row subtracted from every present cell, in place. */
  method MkAretDf(ret: Matrix) returns (r: Result<Matrix, Error>)
    requires ret.Valid()
    ensures MKT !in ret.columns ==> r == Err(NoSuchColumn(MKT))
    ensures MKT in ret.columns && !Once(ret.columns, MKT) && |ret.index| > 0 ==> r == Err(RepeatedLabel(MKT))
    ensures MKT in ret.columns && !Once(ret.columns, MKT) && |ret.index| == 0 ==>
      r.Ok? && fresh(r.value) && r.value.Valid() && r.value.Value() == Frame([], Without(ret.columns, MKT), [])
    ensures Once(ret.columns, MKT) ==>
      r.Ok? && fresh(r.value) && r.value.Valid() && r.value.Value() == Abnormal(ret.Value())
  {
    var f := ret.Value();
    if MKT !in f.columns {
      return Err(NoSuchColumn(MKT));
    }
    if !Once(f.columns, MKT) {
      if |f.index| > 0 {
        return Err(RepeatedLabel(MKT));
      }
      var empty := new Matrix(Frame([], Without(f.columns, MKT), []));
      return Ok(empty);
    }
    var dropped := DropMarket(f);
    var result := new Matrix(dropped);
    var marketData := ColumnSeries(f, MKT).values;
    var c := Position(f.columns, MKT);
    var m, n := |f.index|, |f.columns| - 1;
    for i := 0 to m
      invariant fresh(result.cells) && result.Valid() && result.index == f.index && result.columns == dropped.columns
      invariant forall a, b :: 0 <= a < i && 0 <= b < n ==>
        result.cells[a, b] == AbnormalCell(dropped.rows[a][b], f.rows[a][c])
      invariant forall a, b :: i <= a < m && 0 <= b < n ==> result.cells[a, b] == dropped.rows[a][b]
    {
      AbnormalRow(result.cells, i, marketData[i]);
    }
    assert result.Rows() == Abnormal(f).rows by {
      forall a | 0 <= a < m ensures result.Rows()[a] == Abnormal(f).rows[a] {
      }
    }
    return Ok(result);
  }
}
