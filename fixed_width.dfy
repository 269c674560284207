/** Project 1: cutting fixed-width ".dat" price lines into fields and
    assembling the rows of the combined CSV file. */
module FixedWidth {
  import opened Basics
  import opened Text

  /** The order in which fields appear on a ".dat" line. */
  const COLUMNS: seq<string> := ["Volume", "Date", "Adj Close", "Close", "Open", "High"]

  /** The width of each field, in characters. */
  const COL_WIDTHS: map<string, nat> :=
    map["Volume" := 14, "Date" := 11, "Adj Close" := 19, "Close" := 10, "Open" := 6, "High" := 20]

  const TIC_COL: string := "Ticker"

  /** The first row of the CSV file. */
  const HEADER: seq<string> := [TIC_COL] + COLUMNS

  /** The sum of all widths: the part of a line that carries data. */
  const LINE_WIDTH: nat := 80

  datatype Error = OutputExists | DatNotFound(tic: string)

  /** The width of field `k`, in `COLUMNS` order. */
  function Width(k: nat): nat
    requires k < |COLUMNS|
  {
    [14, 11, 19, 10, 6, 20][k]
  }

  /** Looking a column's width up by its name, as `COL_WIDTHS[col]` does, gives `Width`. */
  lemma WidthByName(k: nat)
    requires k < |COLUMNS|
    ensures COLUMNS[k] in COL_WIDTHS && COL_WIDTHS[COLUMNS[k]] == Width(k)
  {
  }

  /** Where field `k` starts: the widths of the fields before it, added up. */
  function Offset(k: nat): nat
    requires k <= |COLUMNS|
  {
    if k == 0 then 0 else Offset(k - 1) + Width(k - 1)
  }

  lemma Offsets()
    ensures Offset(1) == 14 && Offset(2) == 25 && Offset(3) == 44
    ensures Offset(4) == 54 && Offset(5) == 60 && Offset(6) == LINE_WIDTH
  {
  }

  /** The text of field `k` of `line`. */
  function Field(line: string, k: nat): string
    requires k < |COLUMNS|
  {
    Slice(line, Offset(k), Offset(k) + Width(k))
  }

  /** All six fields, in `COLUMNS` order. */
  function Fields(line: string): (fs: seq<string>)
    ensures |fs| == |COLUMNS|
  {
    seq(|COLUMNS|, k requires 0 <= k < |COLUMNS| => Field(line, k))
  }

  /** The dictionary that storing `values[i]` under `names[i]`, in order, builds. */
  function Dict<K(==), V>(names: seq<K>, values: seq<V>): (d: map<K, V>)
    requires |names| == |values|
    ensures forall i :: 0 <= i < |names| ==> names[i] in d
    ensures |names| > 0 ==> d[names[|names| - 1]] == values[|values| - 1]
  {
    if |names| == 0 then map[]
    else Dict(names[..|names| - 1], values[..|values| - 1])[names[|names| - 1] := values[|values| - 1]]
  }

  /** With distinct names, the dictionary has exactly those keys, each holding its own value. */
  lemma {:induction false} DictLookup<K, V>(names: seq<K>, values: seq<V>)
    requires |names| == |values| && Distinct(names)
    ensures forall c :: c in Dict(names, values) <==> c in names
    ensures forall k :: 0 <= k < |names| ==> Dict(names, values)[names[k]] == values[k]
  {
    if |names| > 0 {
      var n := |names| - 1;
      var ns, vs := names[..n], values[..n];
      DistinctSnoc(names);
      DictLookup(ns, vs);
      var d := Dict(ns, vs);
      assert Dict(names, values) == d[names[n] := values[n]];
      assert names == ns + [names[n]];
      forall k | 0 <= k < n ensures Dict(names, values)[names[k]] == values[k] {
        assert ns[k] == names[k] && vs[k] == values[k];
      }
    }
  }

  lemma DictSnoc<K, V>(names: seq<K>, values: seq<V>, k: nat)
    requires |names| == |values| && k < |names|
    ensures Dict(names[..k + 1], values[..k + 1]) == Dict(names[..k], values[..k])[names[k] := values[k]]
  {
    assert names[..k + 1][..k] == names[..k];
    assert values[..k + 1][..k] == values[..k];
  }

  /** A new key stored in front: looking up `[key] + names` in order gives `[v] + values`. */
  lemma PrependLookup<K, V>(names: seq<K>, values: seq<V>, key: K, v: V)
    requires |names| == |values| && Distinct(names) && key !in names
    ensures forall h :: 0 <= h < 1 + |names| ==>
      ([key] + names)[h] in Dict(names, values)[key := v]
      && Dict(names, values)[key := v][([key] + names)[h]] == ([v] + values)[h]
  {
    DictLookup(names, values);
    forall h | 0 < h < 1 + |names|
      ensures ([key] + names)[h] in Dict(names, values)[key := v]
      ensures Dict(names, values)[key := v][([key] + names)[h]] == ([v] + values)[h]
    {
      assert ([key] + names)[h] == names[h - 1];
      assert names[h - 1] != key;
    }
  }

  lemma ColumnsDistinct()
    ensures Distinct(COLUMNS)
  {
  }

  lemma LineDict(line: string)
    ensures forall c :: c in Dict(COLUMNS, Fields(line)) <==> c in COLUMNS
    ensures forall k :: 0 <= k < |COLUMNS| ==> Dict(COLUMNS, Fields(line))[COLUMNS[k]] == Field(line, k)
  {
    ColumnsDistinct();
    DictLookup(COLUMNS, Fields(line));
  }

  /** `line_to_dict`: exactly the keys of `COLUMNS`; the value of the `k`th
      column is the slice of `line` that starts after the widths of the
      columns before it and spans that column's width. */
  method LineToDict(line: string) returns (result: map<string, string>)
    ensures forall c :: c in result <==> c in COLUMNS
    ensures forall k :: 0 <= k < |COLUMNS| ==> result[COLUMNS[k]] == Field(line, k)
    ensures result == Dict(COLUMNS, Fields(line))
  {
    result := map[];
    var sum := 0;
    for k := 0 to |COLUMNS|
      invariant sum == Offset(k)
      invariant result == Dict(COLUMNS[..k], Fields(line)[..k])
    {
      var name := COLUMNS[k];
      WidthByName(k);
      var width := COL_WIDTHS[name];
      var value := Slice(line, sum, sum + width);
      assert value == Fields(line)[k];
      DictSnoc(COLUMNS, Fields(line), k);
      result := result[name := value];
      sum := sum + width;
    }
    DictDone(line);
  }

  lemma DictDone(line: string)
    ensures forall c :: c in Dict(COLUMNS[..|COLUMNS|], Fields(line)[..|COLUMNS|]) <==> c in COLUMNS
    ensures forall k :: 0 <= k < |COLUMNS| ==> Dict(COLUMNS[..|COLUMNS|], Fields(line)[..|COLUMNS|])[COLUMNS[k]] == Field(line, k)
    ensures Dict(COLUMNS[..|COLUMNS|], Fields(line)[..|COLUMNS|]) == Dict(COLUMNS, Fields(line))
  {
    assert COLUMNS[..|COLUMNS|] == COLUMNS;
    assert Fields(line)[..|COLUMNS|] == Fields(line);
    LineDict(line);
  }

  /** No field is longer than its width, and every field is exactly its
      width on a line of at least `LINE_WIDTH` characters. */
  lemma FieldLength(line: string, k: nat)
    requires k < |COLUMNS|
    ensures |Field(line, k)| <= Width(k)
    ensures |line| >= LINE_WIDTH ==> |Field(line, k)| == Width(k)
  {
    Offsets();
  }

  function Concat(parts: seq<string>): string
  {
    if |parts| == 0 then "" else Concat(parts[..|parts| - 1]) + parts[|parts| - 1]
  }

  lemma {:induction false} ConcatFieldsPrefix(line: string, k: nat)
    requires k <= |COLUMNS|
    ensures Concat(Fields(line)[..k]) == Slice(line, 0, Offset(k))
  {
    if k > 0 {
      var fs := Fields(line);
      ConcatFieldsPrefix(line, k - 1);
      ConcatStep(fs, k);
      assert fs[k - 1] == Slice(line, Offset(k - 1), Offset(k));
      SliceAdjacent(line, 0, Offset(k - 1), Offset(k));
    }
  }

  lemma ConcatStep(parts: seq<string>, k: nat)
    requires 0 < k <= |parts|
    ensures Concat(parts[..k]) == Concat(parts[..k - 1]) + parts[k - 1]
  {
    assert parts[..k][..k - 1] == parts[..k - 1];
  }

  /** Round trip: the fields laid end to end give back the first
      `LINE_WIDTH` characters of the line, and nothing past them. */
  lemma FieldsRoundTrip(line: string)
    ensures Concat(Fields(line)) == line[..if |line| <= LINE_WIDTH then |line| else LINE_WIDTH]
  {
    ConcatFieldsPrefix(line, |COLUMNS|);
    assert Fields(line)[..|COLUMNS|] == Fields(line);
    Offsets();
  }

  /** Characters past `LINE_WIDTH` never reach a field. */
  lemma FieldsIgnoreTail(line: string, tail: string)
    requires |line| == LINE_WIDTH
    ensures Fields(line + tail) == Fields(line)
  {
    Offsets();
    forall k | 0 <= k < |COLUMNS| ensures Field(line + tail, k) == Field(line, k) {
      assert (line + tail)[Offset(k)..Offset(k) + Width(k)] == line[Offset(k)..Offset(k) + Width(k)];
    }
  }

  /** The ticker one line of the tickers file gives: `line.rstrip().lower()`. */
  function Normalize(line: string): (t: string)
    ensures t == "" || (!IsSpace(t[|t| - 1]) && forall i :: 0 <= i < |t| ==> !IsUpper(t[i]))
  {
    Lower(RStrip(line))
  }

  /** The tickers `get_tics` returns for the lines of the tickers file, in order. */
  function Tickers(lines: seq<string>): (ts: seq<string>)
    ensures |ts| <= |lines|
    ensures forall k :: 0 <= k < |ts| ==> ts[k] != ""
  {
    if |lines| == 0 then []
    else
      var t := Normalize(lines[|lines| - 1]);
      Tickers(lines[..|lines| - 1]) + (if t == "" then [] else [t])
  }

  /** `get_tics` over the lines the file yields. */
  method GetTics(lines: seq<string>) returns (result: seq<string>)
    ensures result == Tickers(lines)
  {
    result := [];
    for i := 0 to |lines|
      invariant result == Tickers(lines[..i])
    {
      assert lines[..i + 1][..i] == lines[..i];
      var line := RStrip(lines[i]);
      line := Lower(line);
      if line == "" {
        continue;
      }
      RStripLower(lines[i]);
      result := result + [RStrip(line)];
    }
    assert lines[..|lines|] == lines;
  }

  /** A well-formed ticker: non-empty, lower case, no trailing whitespace. */
  predicate IsTicker(t: string)
  {
    t != "" && !IsSpace(t[|t| - 1]) && forall i :: 0 <= i < |t| ==> !IsUpper(t[i])
  }

  lemma {:induction false} TickersWellFormed(lines: seq<string>)
    ensures forall k :: 0 <= k < |Tickers(lines)| ==> IsTicker(Tickers(lines)[k])
  {
    if |lines| > 0 {
      TickersWellFormed(lines[..|lines| - 1]);
      var r := RStrip(lines[|lines| - 1]);
      if r != "" {
        assert Lower(r)[|r| - 1] == LowerChar(r[|r| - 1]);
      }
    }
  }

  /** Blank and whitespace-only lines are skipped; every other line yields its
      ticker after those of the lines before it. */
  lemma TickersSnoc(lines: seq<string>, line: string)
    ensures IsBlank(line) ==> Tickers(lines + [line]) == Tickers(lines)
    ensures !IsBlank(line) ==> Tickers(lines + [line]) == Tickers(lines) + [Normalize(line)]
  {
    assert (lines + [line])[..|lines|] == lines;
    RStripBlank(line);
  }

  /** Order is preserved: the tickers of two stretches of lines are those of
      the first, then those of the second. */
  lemma {:induction false} TickersAppend(a: seq<string>, b: seq<string>)
    ensures Tickers(a + b) == Tickers(a) + Tickers(b)
  {
    if |b| > 0 {
      var n := |b| - 1;
      var ab := a + b;
      assert ab[..|ab| - 1] == a + b[..n];
      assert ab[|ab| - 1] == b[n];
      var t := Normalize(b[n]);
      var tail := if t == "" then [] else [t];
      calc {
        Tickers(ab);
        Tickers(a + b[..n]) + tail;
        { TickersAppend(a, b[..n]); }
        Tickers(a) + Tickers(b[..n]) + tail;
        { AppendAssoc(Tickers(a), Tickers(b[..n]), tail); }
        Tickers(a) + (Tickers(b[..n]) + tail);
        Tickers(a) + Tickers(b);
      }
    } else {
      assert a + b == a;
    }
  }

  /** The first ticker, in order, whose ".dat" lines are not available. */
  function FirstMissing(tics: seq<string>, dat: map<string, seq<string>>): (r: Option<string>)
    ensures r.None? <==> forall t :: t in tics ==> t in dat
    ensures r.Some? ==> r.value in tics && r.value !in dat
  {
    if |tics| == 0 then None
    else
      match FirstMissing(tics[..|tics| - 1], dat)
      case Some(t) => Some(t)
      case None => if tics[|tics| - 1] in dat then None else Some(tics[|tics| - 1])
  }

  lemma {:induction false} FirstMissingExtends(tics: seq<string>, dat: map<string, seq<string>>, n: nat)
    requires n <= |tics| && FirstMissing(tics[..n], dat).Some?
    ensures FirstMissing(tics, dat) == FirstMissing(tics[..n], dat)
    decreases |tics| - n
  {
    if n < |tics| {
      assert tics[..n + 1][..n] == tics[..n];
      FirstMissingExtends(tics, dat, n + 1);
    } else {
      assert tics[..n] == tics;
    }
  }

  /** A data row: the ticker in upper case, then the fields of the line. */
  function DataRow(tic: string, line: string): (row: seq<string>)
    ensures |row| == |HEADER|
  {
    [Upper(tic)] + Fields(line)
  }

  /** The rows one ticker contributes: one per line of its ".dat" file, in order. */
  function TickerRows(tic: string, lines: seq<string>): (rows: seq<seq<string>>)
    ensures |rows| == |lines|
  {
    seq(|lines|, k requires 0 <= k < |lines| => DataRow(tic, lines[k]))
  }

  /** The row of line `k` is the upper-cased ticker, then the fields of that line. */
  lemma TickerRowShape(tic: string, lines: seq<string>, k: nat)
    requires k < |lines|
    ensures |TickerRows(tic, lines)[k]| == |HEADER|
    ensures TickerRows(tic, lines)[k][0] == Upper(tic) && TickerRows(tic, lines)[k][1..] == Fields(lines[k])
  {
  }

  /** All rows of the CSV file: the header, then each ticker's rows in ticker order. */
  function Rows(tics: seq<string>, dat: map<string, seq<string>>): (rows: seq<seq<string>>)
    requires forall t :: t in tics ==> t in dat
    ensures |rows| >= 1 && rows[0] == HEADER
  {
    if |tics| == 0 then [HEADER]
    else Rows(tics[..|tics| - 1], dat) + TickerRows(tics[|tics| - 1], dat[tics[|tics| - 1]])
  }

  /** The number of lines in the ".dat" files of `tics`. */
  function TotalLines(tics: seq<string>, dat: map<string, seq<string>>): nat
    requires forall t :: t in tics ==> t in dat
  {
    if |tics| == 0 then 0 else TotalLines(tics[..|tics| - 1], dat) + |dat[tics[|tics| - 1]]|
  }

  /** The header comes first, and there is one row per ".dat" line after it. */
  lemma {:induction false} RowCount(tics: seq<string>, dat: map<string, seq<string>>)
    requires forall t :: t in tics ==> t in dat
    ensures |Rows(tics, dat)| == 1 + TotalLines(tics, dat)
    ensures Rows(tics, dat)[0] == HEADER
  {
    if |tics| > 0 {
      RowCount(tics[..|tics| - 1], dat);
    }
  }

  lemma {:induction false} RowsPrefix(tics: seq<string>, dat: map<string, seq<string>>, n: nat)
    requires forall t :: t in tics ==> t in dat
    requires n <= |tics|
    ensures Rows(tics[..n], dat) <= Rows(tics, dat)
  {
    if n < |tics| {
      var m := |tics| - 1;
      assert tics[..m][..n] == tics[..n];
      RowsPrefix(tics[..m], dat, n);
    } else {
      assert tics[..n] == tics;
    }
  }

  /** The `k`th line of the `i`th ticker's file becomes row
      `1 + (lines of the tickers before it) + k`: ticker order, then line order. */
  lemma RowLayout(tics: seq<string>, dat: map<string, seq<string>>, i: nat, k: nat)
    requires forall t :: t in tics ==> t in dat
    requires i < |tics| && k < |dat[tics[i]]|
    ensures 1 + TotalLines(tics[..i], dat) + k < |Rows(tics, dat)|
    ensures Rows(tics, dat)[1 + TotalLines(tics[..i], dat) + k] == DataRow(tics[i], dat[tics[i]][k])
  {
    var p := tics[..i + 1];
    assert p[..i] == tics[..i] && p[i] == tics[i];
    var before, own := Rows(tics[..i], dat), TickerRows(tics[i], dat[tics[i]]);
    assert Rows(p, dat) == before + own;
    RowCount(tics[..i], dat);
    assert (before + own)[|before| + k] == own[k];
    RowsPrefix(tics, dat, i + 1);
  }

  /** One line of the CSV file: the fields joined by commas, then a newline. */
  function CsvLine(row: seq<string>): (line: string)
    ensures |line| > 0 && line[|line| - 1] == '\n'
  {
    Join(row, ',') + "\n"
  }

  /** A CSV line ends in a newline, and splitting what comes before it at the
      commas gives the row back when no field holds a comma. */
  lemma CsvLineRoundTrip(row: seq<string>)
    requires |row| >= 1 && forall k :: 0 <= k < |row| ==> ',' !in row[k]
    ensures CsvLine(row)[|CsvLine(row)| - 1] == '\n'
    ensures Split(CsvLine(row)[..|CsvLine(row)| - 1], ',') == row
  {
    assert CsvLine(row)[..|CsvLine(row)| - 1] == Join(row, ',');
    SplitJoin(row, ',');
  }

  /** The lines of the CSV file for the given rows. */
  function CsvLines(rows: seq<seq<string>>): (lines: seq<string>)
    ensures |lines| == |rows|
    ensures forall k :: 0 <= k < |rows| ==> |lines[k]| > 0 && lines[k][|lines[k]| - 1] == '\n'
  {
    seq(|rows|, k requires 0 <= k < |rows| => CsvLine(rows[k]))
  }

  lemma TicColIsNew()
    ensures TIC_COL !in COLUMNS
  {
  }

  /** Looking up every header column in a line's dictionary, after the
      ticker is stored under `TIC_COL`, gives the data row. */
  lemma HeaderLookup(tic: string, line: string)
    ensures forall h :: 0 <= h < |HEADER| ==>
      HEADER[h] in Dict(COLUMNS, Fields(line))[TIC_COL := Upper(tic)]
      && Dict(COLUMNS, Fields(line))[TIC_COL := Upper(tic)][HEADER[h]] == DataRow(tic, line)[h]
  {
    ColumnsDistinct();
    TicColIsNew();
    PrependLookup(COLUMNS, Fields(line), TIC_COL, Upper(tic));
  }

  /** One row of the CSV file: the line's dictionary with the upper-cased
      ticker added, read back in header order. */
  method DataLine(tic: string, line: string) returns (dstLine: seq<string>)
    ensures dstLine == DataRow(tic, line)
  {
    var dic := LineToDict(line);
    dic := dic[TIC_COL := Upper(tic)];
    HeaderLookup(tic, line);
    dstLine := seq(|HEADER|, h requires 0 <= h < |HEADER| => dic[HEADER[h]]);
    assert forall h :: 0 <= h < |HEADER| ==> dstLine[h] == DataRow(tic, line)[h];
  }

  /** The rows of one ticker, one per line of its ".dat" file. */
  method TickerLines(tic: string, srcLines: seq<string>) returns (rows: seq<seq<string>>)
    ensures rows == TickerRows(tic, srcLines)
  {
    rows := [];
    for j := 0 to |srcLines|
      invariant rows == TickerRows(tic, srcLines[..j])
    {
      var dstLine := DataLine(tic, srcLines[j]);
      assert TickerRows(tic, srcLines[..j + 1]) == TickerRows(tic, srcLines[..j]) + [dstLine];
      rows := rows + [dstLine];
    }
    assert srcLines[..|srcLines|] == srcLines;
  }

  /** Each row joined by commas and ended by a newline, in order. */
  method ToCsvLines(rows: seq<seq<string>>) returns (out: seq<string>)
    ensures out == CsvLines(rows)
  {
    out := [];
    for k := 0 to |rows|
      invariant out == CsvLines(rows[..k])
    {
      out := out + [CsvLine(rows[k])];
    }
    assert rows[..|rows|] == rows;
  }

  /** `main` up to the write: the existence check on the output file, then the
      header and one row per ".dat" line, each joined by commas and ended by a
      newline. `outputExists` stands for `os.path.exists(csvloc)`, `ticLines`
      for the lines of the tickers file and `dat` for `read_dat` on each ticker
      whose file exists. */
  method MakeCsv(outputExists: bool, replace: bool, ticLines: seq<string>, dat: map<string, seq<string>>)
    returns (r: Result<seq<string>, Error>)
    ensures outputExists && !replace ==> r == Err(OutputExists)
    ensures !outputExists || replace ==>
      match FirstMissing(Tickers(ticLines), dat)
      case Some(t) => r == Err(DatNotFound(t))
      case None => r == Ok(CsvLines(Rows(Tickers(ticLines), dat)))
  {
    if outputExists && !replace {
      return Err(OutputExists);
    }
    var tics := GetTics(ticLines);
    var dstLines: seq<seq<string>> := [HEADER];
    for i := 0 to |tics|
      invariant FirstMissing(tics[..i], dat) == None
      invariant dstLines == Rows(tics[..i], dat)
    {
      var tic := tics[i];
      assert tics[..i + 1][..i] == tics[..i];
      if tic !in dat {
        FirstMissingExtends(tics, dat, i + 1);
        return Err(DatNotFound(tic));
      }
      var rows := TickerLines(tic, dat[tic]);
      dstLines := dstLines + rows;
    }
    assert tics[..|tics|] == tics;
    var out := ToCsvLines(dstLines);
    return Ok(out);
  }
}
