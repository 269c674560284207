/** Project 2, `mk_prc_df`: one price column per ticker, the tickers' date
    indexes combined by outer joins. */
module Prices {
  import opened Basics
  import opened Text
  import opened Dates
  import opened Frames

  /** What `read_prc_csv(t)[prc_col]` yields for one ticker: its quotes, in file order. */
  type Quotes = seq<(Date, real)>

  function QuoteDates(q: Quotes): (ds: seq<Date>)
    ensures |ds| == |q| && forall i :: 0 <= i < |q| ==> ds[i] == q[i].0
  {
    seq(|q|, i requires 0 <= i < |q| => q[i].0)
  }

  /** The price quoted on `d`, missing when the series has no quote that day. */
  function PriceOn(q: Quotes, d: Date): Cell
  {
    if |q| == 0 then None
    else if q[0].0 == d then Some(q[0].1)
    else PriceOn(q[1..], d)
  }

  lemma {:induction false} PriceOnAt(q: Quotes, p: nat)
    requires p < |q| && forall k :: 0 <= k < p ==> q[k].0 != q[p].0
    ensures PriceOn(q, q[p].0) == Some(q[p].1)
  {
    if p > 0 {
      assert forall k :: 0 <= k < p - 1 ==> q[1..][k] == q[k + 1];
      PriceOnAt(q[1..], p - 1);
    }
  }

  lemma {:induction false} PriceOnAbsent(q: Quotes, d: Date)
    requires d !in QuoteDates(q)
    ensures PriceOn(q, d) == None
  {
    if |q| > 0 {
      assert q[0].0 == QuoteDates(q)[0];
      assert QuoteDates(q[1..]) == QuoteDates(q)[1..];
      PriceOnAbsent(q[1..], d);
    }
  }

  /** The price files as read: each ticker's quotes in strictly increasing date order. */
  predicate Sorted(loader: map<string, Quotes>)
  {
    forall t :: t in loader ==> Ascending(QuoteDates(loader[t]))
  }

  /** `pd.DataFrame(index=df.index, data={ticker: df.values})`. */
  function SeriesFrame(ticker: string, q: Quotes): (f: Frame)
    requires Ascending(QuoteDates(q))
    ensures WellFormed(f) && Ascending(f.index) && f.columns == [ticker]
  {
    Frame(QuoteDates(q), [ticker], seq(|q|, i requires 0 <= i < |q| => [Some(q[i].1)]))
  }

  /** Read by date, the single column of a series frame holds the quote of that date. */
  lemma SeriesFrameCell(ticker: string, q: Quotes, d: Date)
    requires Ascending(QuoteDates(q))
    ensures CellAt(SeriesFrame(ticker, q), d, 0) == PriceOn(q, d)
  {
    var f := SeriesFrame(ticker, q);
    if d in f.index {
      var p := Position(f.index, d);
      PriceOnAt(q, p);
    } else {
      PriceOnAbsent(q, d);
    }
  }

  /** The union of two ascending date indexes, ascending: the index of an outer join. */
  function Merge(a: seq<Date>, b: seq<Date>): (m: seq<Date>)
    requires Ascending(a) && Ascending(b)
    ensures Ascending(m)
    ensures forall d :: d in m <==> d in a || d in b
    decreases |a| + |b|
  {
    if |a| == 0 then b
    else if |b| == 0 then a
    else if Before(a[0], b[0]) then
      var m := Merge(a[1..], b);
      ConsAscending(a[0], m, a[1..], b);
      [a[0]] + m
    else if Before(b[0], a[0]) then
      var m := Merge(a, b[1..]);
      ConsAscending(b[0], m, a, b[1..]);
      [b[0]] + m
    else
      var m := Merge(a[1..], b[1..]);
      ConsAscending(a[0], m, a[1..], b[1..]);
      [a[0]] + m
  }

  /** A date before the first date of two ascending indexes comes before
      anything drawn from either. */
  lemma ConsAscending(x: Date, m: seq<Date>, a: seq<Date>, b: seq<Date>)
    requires Ascending(m) && Ascending(a) && Ascending(b)
    requires forall y :: y in m ==> y in a || y in b
    requires |a| == 0 || Before(x, a[0])
    requires |b| == 0 || Before(x, b[0])
    ensures Ascending([x] + m)
  {
    forall y | y in m ensures Before(x, y) {
      if y in a {
        var k :| 0 <= k < |a| && a[k] == y;
        if k > 0 { assert Before(a[0], a[k]); }
      } else {
        var k :| 0 <= k < |b| && b[k] == y;
        if k > 0 { assert Before(b[0], b[k]); }
      }
    }
    var s := [x] + m;
    forall i, j | 0 <= i < j < |s| ensures Before(s[i], s[j]) {
      assert s[j] == m[j - 1];
      if i > 0 { assert s[i] == m[i - 1]; }
    }
  }

  /** The first label of `b` that `a` also has. */
  function Shared(a: seq<string>, b: seq<string>): (r: Option<string>)
    ensures r.None? <==> forall c :: c in b ==> c !in a
    ensures r.Some? ==> r.value in a && r.value in b
  {
    if |b| == 0 then None
    else if b[0] in a then Some(b[0])
    else Shared(a, b[1..])
  }

  /** `l.join(r, how="outer")`: a shared column label raises; otherwise the
      index is the sorted union of both indexes, the columns are those of `l`
      then those of `r`, and each row is `l`'s row of that date then `r`'s,
      missing where a frame has no such date. */
  function OuterJoin(l: Frame, r: Frame): (res: Result<Frame, Error>)
    requires Shaped(l) && Shaped(r) && Ascending(l.index) && Ascending(r.index)
    ensures res.Ok? ==> Shaped(res.value) && Ascending(res.value.index)
  {
    match Shared(l.columns, r.columns)
    case Some(c) => Err(ColumnOverlap(c))
    case None =>
      var idx := Merge(l.index, r.index);
      Ok(Frame(idx, l.columns + r.columns,
               seq(|idx|, i requires 0 <= i < |idx| => RowAt(l, idx[i]) + RowAt(r, idx[i]))))
  }

  /** What an outer join holds, read by date: every date of either frame
      occurs, and each cell is the cell of the frame the column came from. */
  lemma OuterJoinCells(l: Frame, r: Frame)
    requires Shaped(l) && Shaped(r) && Ascending(l.index) && Ascending(r.index)
    requires OuterJoin(l, r).Ok?
    ensures OuterJoin(l, r).value.columns == l.columns + r.columns
    ensures forall d :: d in OuterJoin(l, r).value.index <==> d in l.index || d in r.index
    ensures forall d, j :: 0 <= j < |l.columns| ==>
      CellAt(OuterJoin(l, r).value, d, j) == CellAt(l, d, j)
    ensures forall d, j :: 0 <= j < |r.columns| ==>
      CellAt(OuterJoin(l, r).value, d, |l.columns| + j) == CellAt(r, d, j)
  {
    var f := OuterJoin(l, r).value;
    forall d
      ensures RowAt(f, d) == RowAt(l, d) + RowAt(r, d)
    {
      if d in f.index {
        var p := Position(f.index, d);
        assert f.rows[p] == RowAt(l, f.index[p]) + RowAt(r, f.index[p]);
      }
    }
  }

  /** The column labels of the tickers. */
  function Lowers(tickers: seq<string>): (ls: seq<string>)
    ensures |ls| == |tickers|
  {
    seq(|tickers|, k requires 0 <= k < |tickers| => Lower(tickers[k]))
  }

  lemma LowersSnoc(tickers: seq<string>)
    requires |tickers| > 0
    ensures Lowers(tickers) == Lowers(tickers[..|tickers| - 1]) + [Lower(tickers[|tickers| - 1])]
  {
  }

  /** The frame with no rows and no columns, `pd.DataFrame()`. */
  const NoFrame := Frame([], [], [])

  /** `mk_prc_df` with every ticker joined (the intended loop; see `AsWrittenPrcDf`):
      a ticker without a price file raises, a ticker whose lower-cased label
      is already a column raises, and otherwise its column is outer-joined on. */
  function PrcDf(tickers: seq<string>, loader: map<string, Quotes>): (r: Result<Frame, Error>)
    requires Sorted(loader)
    ensures r.Ok? ==> Shaped(r.value) && Ascending(r.value.index)
  {
    if |tickers| == 0 then Ok(NoFrame)
    else
      match PrcDf(tickers[..|tickers| - 1], loader)
      case Err(e) => Err(e)
      case Ok(result) =>
        var ticker := Lower(tickers[|tickers| - 1]);
        if ticker !in loader then Err(NotFound(ticker))
        else OuterJoin(result, SeriesFrame(ticker, loader[ticker]))
  }

  /** Every date some ticker is quoted on. */
  function AllDates(tickers: seq<string>, loader: map<string, Quotes>): set<Date>
  {
    if |tickers| == 0 then {}
    else
      var ticker := Lower(tickers[|tickers| - 1]);
      AllDates(tickers[..|tickers| - 1], loader)
      + (if ticker in loader then (set d | d in QuoteDates(loader[ticker])) else {})
  }

  /** Success exactly when every ticker has a price file and no two tickers
      share a lower-cased label. */
  lemma {:induction false} PrcDfOk(tickers: seq<string>, loader: map<string, Quotes>)
    requires Sorted(loader)
    ensures PrcDf(tickers, loader).Ok? <==>
      (forall k :: 0 <= k < |tickers| ==> Lower(tickers[k]) in loader) && Distinct(Lowers(tickers))
  {
    if |tickers| > 0 {
      var n := |tickers| - 1;
      var pre := tickers[..n];
      PrcDfOk(pre, loader);
      LowersSnoc(tickers);
      DistinctSnoc(Lowers(tickers));
      assert Lowers(tickers)[..n] == Lowers(pre);
      if PrcDf(pre, loader).Ok? && Lower(tickers[n]) in loader {
        PrcDfFacts(pre, loader);
      }
      assert forall k :: 0 <= k < n ==> pre[k] == tickers[k];
    }
  }

  /** The outcome of `mk_prc_df`: one column per ticker, lower-cased, in input
      order; the index is the ascending union of every ticker's dates; and the
      cell of a date and a ticker is that ticker's quote of the date, missing
      when it has none. */
  lemma {:induction false} PrcDfFacts(tickers: seq<string>, loader: map<string, Quotes>)
    requires Sorted(loader) && PrcDf(tickers, loader).Ok?
    ensures forall k :: 0 <= k < |tickers| ==> Lower(tickers[k]) in loader
    ensures PrcDf(tickers, loader).value.columns == Lowers(tickers)
    ensures Ascending(PrcDf(tickers, loader).value.index)
    ensures forall d :: d in PrcDf(tickers, loader).value.index <==> d in AllDates(tickers, loader)
    ensures forall d, k :: 0 <= k < |tickers| ==>
      CellAt(PrcDf(tickers, loader).value, d, k) == PriceOn(loader[Lower(tickers[k])], d)
  {
    if |tickers| > 0 {
      var n := |tickers| - 1;
      var pre := tickers[..n];
      PrcDfFacts(pre, loader);
      LowersSnoc(tickers);
      var left := PrcDf(pre, loader).value;
      var ticker := Lower(tickers[n]);
      var right := SeriesFrame(ticker, loader[ticker]);
      OuterJoinCells(left, right);
      var f := PrcDf(tickers, loader).value;
      assert f == OuterJoin(left, right).value;
      forall d, k | 0 <= k < |tickers|
        ensures CellAt(f, d, k) == PriceOn(loader[Lower(tickers[k])], d)
      {
        if k < n {
          assert pre[k] == tickers[k];
        } else {
          SeriesFrameCell(ticker, loader[ticker], d);
        }
      }
    }
  }

  /** `mk_prc_df(tickers)` with `loader[t]` for `read_prc_csv(t)[prc_col]`:
      `result` grows by one outer join per ticker. */
  method MkPrcDf(tickers: seq<string>, loader: map<string, Quotes>) returns (r: Result<Matrix, Error>)
    requires Sorted(loader)
    ensures r.Err? ==> PrcDf(tickers, loader) == Err(r.error)
    ensures r.Ok? ==> (PrcDf(tickers, loader).Ok? && fresh(r.value) && r.value.Valid()
      && r.value.Value() == PrcDf(tickers, loader).value)
  {
    var result := NoFrame;
    for i := 0 to |tickers|
      invariant PrcDf(tickers[..i], loader) == Ok(result)
    {
      assert tickers[..i + 1][..i] == tickers[..i];
      var ticker := Lower(tickers[i]);
      if ticker !in loader {
        PrcDfErrorStays(tickers, loader, i + 1);
        return Err(NotFound(ticker));
      }
      var df := SeriesFrame(ticker, loader[ticker]);
      var joined := OuterJoin(result, df);
      if joined.Err? {
        PrcDfErrorStays(tickers, loader, i + 1);
        return Err(joined.error);
      }
      result := joined.value;
    }
    assert tickers[..|tickers|] == tickers;
    var m := new Matrix(result);
    return Ok(m);
  }

  /** Once a prefix of the tickers raises, the whole call raises the same error. */
  lemma {:induction false} PrcDfErrorStays(tickers: seq<string>, loader: map<string, Quotes>, n: nat)
    requires Sorted(loader) && n <= |tickers| && PrcDf(tickers[..n], loader).Err?
    ensures PrcDf(tickers, loader) == PrcDf(tickers[..n], loader)
    decreases |tickers| - n
  {
    if n < |tickers| {
      assert tickers[..n + 1][..n] == tickers[..n];
      PrcDfErrorStays(tickers, loader, n + 1);
    } else {
      assert tickers[..n] == tickers;
    }
  }

  /** `result.empty`: no rows or no columns. */
  predicate IsEmpty(f: Frame)
    ensures Shaped(f) && !IsEmpty(f) ==> |f.rows| > 0 && |f.rows[0]| > 0
  {
    |f.index| == 0 || |f.columns| == 0
  }

  /** The loop of `mk_prc_df` as written: while `result` is empty the next
      ticker's frame replaces it rather than being joined to it, so every
      ticker that comes before the first one with quotes loses its column. */
  function AsWrittenPrcDf(tickers: seq<string>, loader: map<string, Quotes>): (r: Result<Frame, Error>)
    requires Sorted(loader)
    ensures r.Ok? ==> Shaped(r.value) && Ascending(r.value.index)
  {
    if |tickers| == 0 then Ok(NoFrame)
    else
      match AsWrittenPrcDf(tickers[..|tickers| - 1], loader)
      case Err(e) => Err(e)
      case Ok(result) =>
        var ticker := Lower(tickers[|tickers| - 1]);
        if ticker !in loader then Err(NotFound(ticker))
        else
          var df := SeriesFrame(ticker, loader[ticker]);
          if IsEmpty(result) then Ok(df) else OuterJoin(result, df)
  }

  /** Joining onto the frame with nothing in it gives the other frame. */
  lemma JoinNoFrame(f: Frame)
    requires WellFormed(f) && Ascending(f.index)
    ensures OuterJoin(NoFrame, f) == Ok(f)
  {
    assert Shared([], f.columns) == None;
    var j := OuterJoin(NoFrame, f).value;
    assert j.index == f.index && j.columns == f.columns;
    assert |j.rows| == |f.rows|;
    forall i | 0 <= i < |f.index| ensures j.rows[i] == f.rows[i] {
      RowAtIndex(f, i);
    }
    assert j.rows == f.rows;
  }

  /** The loop as written and the intended one agree as soon as the first
      ticker has at least one quote. */
  lemma {:induction false} AsWrittenAgrees(tickers: seq<string>, loader: map<string, Quotes>)
    requires Sorted(loader) && |tickers| > 0
    requires Lower(tickers[0]) in loader && |loader[Lower(tickers[0])]| > 0
    ensures AsWrittenPrcDf(tickers, loader) == PrcDf(tickers, loader)
  {
    var n := |tickers| - 1;
    var pre := tickers[..n];
    if n == 0 {
      var ticker := Lower(tickers[0]);
      JoinNoFrame(SeriesFrame(ticker, loader[ticker]));
    } else {
      assert pre[0] == tickers[0];
      AsWrittenAgrees(pre, loader);
      if PrcDf(pre, loader).Ok? {
        PrcDfFacts(pre, loader);
        var q := loader[Lower(tickers[0])];
        assert QuoteDates(q)[0] in AllDates(pre, loader) by {
          AllDatesHas(pre, loader, 0, 0);
        }
      }
    }
  }

  lemma {:induction false} AllDatesHas(tickers: seq<string>, loader: map<string, Quotes>, k: nat, i: nat)
    requires k < |tickers| && Lower(tickers[k]) in loader && i < |loader[Lower(tickers[k])]|
    ensures QuoteDates(loader[Lower(tickers[k])])[i] in AllDates(tickers, loader)
  {
    var n := |tickers| - 1;
    if k < n {
      assert tickers[..n][k] == tickers[k];
      AllDatesHas(tickers[..n], loader, k, i);
    }
  }

  /** The input that shows the difference: "aapl" has an empty price file,
      "tsla" one quote. As written the result has only the "tsla" column; the
      intended result has both, "aapl" missing on that date. */
  lemma LeadingEmptyTickerDropped()
    ensures var loader := map["aapl" := [], "tsla" := [(Date(2020, 1, 2), 1.0)]];
      Sorted(loader)
      && AsWrittenPrcDf(["aapl", "tsla"], loader).Ok?
      && AsWrittenPrcDf(["aapl", "tsla"], loader).value.columns == ["tsla"]
      && PrcDf(["aapl", "tsla"], loader).Ok?
      && PrcDf(["aapl", "tsla"], loader).value.columns == ["aapl", "tsla"]
  {
    var loader: map<string, Quotes> := map["aapl" := [], "tsla" := [(Date(2020, 1, 2), 1.0)]];
    LowerNoUpper("aapl");
    LowerNoUpper("tsla");
    var ts := ["aapl", "tsla"];
    assert ts[..1] == ["aapl"];
    assert ["aapl"][..0] == [];
    PrcDfOk(ts, loader);
    assert Lowers(ts) == ["aapl", "tsla"];
    PrcDfFacts(ts, loader);
  }
}
