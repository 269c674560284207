/** Calendar dates as `datetime.datetime` without a time of day: a
    (year, month, day) triple ordered lexicographically, the validity rules
    the `datetime` constructor enforces, and the `YYYY-MM-DD` strings that
    `get_ann_ret` takes apart. */
module Dates {
  import opened Basics
  import opened Text

  datatype Date = Date(year: int, month: int, day: int)

  /** `a < b` on `datetime` values. */
  predicate Before(a: Date, b: Date)
  {
    a.year < b.year
    || (a.year == b.year && (a.month < b.month || (a.month == b.month && a.day < b.day)))
  }

  /** `a <= b` on `datetime` values. */
  predicate NotAfter(a: Date, b: Date) { a == b || Before(a, b) }

  /** `lo <= d <= hi`: the inclusive range a label slice `ser.loc[lo:hi]` selects. */
  predicate InRange(d: Date, lo: Date, hi: Date) { NotAfter(lo, d) && NotAfter(d, hi) }

  predicate IsLeapYear(y: int) { y % 4 == 0 && (y % 100 != 0 || y % 400 == 0) }

  function DaysInMonth(y: int, m: int): int
    requires 1 <= m <= 12
  {
    if m == 2 then (if IsLeapYear(y) then 29 else 28)
    else if m == 4 || m == 6 || m == 9 || m == 11 then 30
    else 31
  }

  /** The dates the `datetime` constructor accepts (MINYEAR 1, MAXYEAR 9999). */
  predicate IsValid(d: Date)
  {
    1 <= d.year <= 9999 && 1 <= d.month <= 12 && 1 <= d.day <= DaysInMonth(d.year, d.month)
  }

  /** `datetime(year, 1, 1)` and `datetime(year, 12, 31)` succeed exactly for the years 1 to 9999. */
  lemma ValidYearEnds(year: int)
    ensures IsValid(Date(year, 1, 1)) <==> 1 <= year <= 9999
    ensures IsValid(Date(year, 12, 31)) <==> 1 <= year <= 9999
  {
  }

  /** February 29 is a date exactly in the leap years. */
  lemma ValidLeapDay(year: int)
    requires 1 <= year <= 9999
    ensures IsValid(Date(year, 2, 29)) <==> IsLeapYear(year)
  {
  }

  /** For a valid date, the range `year`-01-01 .. `year`-12-31 is exactly that calendar year. */
  lemma InYear(d: Date, year: int)
    requires IsValid(d)
    ensures InRange(d, Date(year, 1, 1), Date(year, 12, 31)) <==> d.year == year
  {
  }

  /** `datetime(year=int(p[0]), month=int(p[1]), day=int(p[2]))` where
      `p = s.split('-')`: fewer than three pieces (IndexError), a piece that is
      not a number (ValueError) or an impossible date (ValueError) give None;
      pieces after the third are never looked at. */
  function ParseIso(s: string): (r: Option<Date>)
    ensures r.Some? ==> IsValid(r.value)
  {
    var p := Split(s, '-');
    if |p| < 3 then None
    else
      match (ParseNat(p[0]), ParseNat(p[1]), ParseNat(p[2]))
      case (Some(y), Some(m), Some(d)) =>
        if IsValid(Date(y, m, d)) then Some(Date(y, m, d)) else None
      case _ => None
  }

  /** `d` as zero-padded YYYY-MM-DD, the form the source's test builds its end date with. */
  function FormatIso(d: Date): (s: string)
    requires IsValid(d)
    ensures |s| == 10 && s[4] == '-' && s[7] == '-'
  {
    PadDigits(d.year, 4) + "-" + PadDigits(d.month, 2) + "-" + PadDigits(d.day, 2)
  }

  lemma NoDash(n: nat, w: nat)
    ensures '-' !in PadDigits(n, w)
  {
  }

  /** `ParseIso` reads the first three pieces of the split and nothing else. */
  lemma ParseIsoPieces(s: string, py: string, pm: string, pd: string, rest: seq<string>, d: Date)
    requires Split(s, '-') == [py, pm, pd] + rest && IsValid(d)
    requires ParseNat(py) == Some(d.year as nat) && ParseNat(pm) == Some(d.month as nat)
    requires ParseNat(pd) == Some(d.day as nat)
    ensures ParseIso(s) == Some(d)
  {
    var p := Split(s, '-');
    assert p[0] == py && p[1] == pm && p[2] == pd;
  }

  /** The dashes of a date string, grouped from the right. */
  lemma Regroup(y: string, m: string, rest: string)
    ensures y + "-" + m + "-" + rest == y + ['-'] + (m + ['-'] + rest)
  {
  }

  lemma Cons2<T>(a: T, b: T, t: seq<T>)
    ensures [a] + ([b] + t) == [a, b] + t
  {
  }

  /** Two pieces without a dash, each followed by one, split off first. */
  lemma SplitTwo(y: string, m: string, rest: string)
    requires '-' !in y && '-' !in m
    ensures Split(y + "-" + m + "-" + rest, '-') == [y, m] + Split(rest, '-')
  {
    Regroup(y, m, rest);
    SplitAfterPiece(y, '-', m + ['-'] + rest);
    SplitAfterPiece(m, '-', rest);
    Cons2(y, m, Split(rest, '-'));
  }

  lemma Regroup3(y: string, m: string, dd: string, tail: string)
    ensures y + "-" + m + "-" + dd + "-" + tail == y + "-" + m + "-" + (dd + ['-'] + tail)
  {
  }

  lemma Snoc3<T>(a: T, b: T, c: T, t: seq<T>)
    ensures [a, b] + ([c] + t) == [a, b, c] + t
  {
  }

  /** Three pieces without a dash, then a dash and a tail. */
  lemma SplitThree(y: string, m: string, dd: string, tail: string)
    requires '-' !in y && '-' !in m && '-' !in dd
    ensures Split(y + "-" + m + "-" + dd + "-" + tail, '-') == [y, m, dd] + Split(tail, '-')
  {
    Regroup3(y, m, dd, tail);
    SplitTwo(y, m, dd + ['-'] + tail);
    SplitAfterPiece(dd, '-', tail);
    Snoc3(y, m, dd, Split(tail, '-'));
  }

  lemma SplitDashed(y: string, m: string, dd: string)
    requires '-' !in y && '-' !in m && '-' !in dd
    ensures Split(y + "-" + m + "-" + dd, '-') == [y, m, dd] + []
  {
    SplitTwo(y, m, dd);
    assert Split(dd, '-') == [dd];
  }

  /** Three dash-free pieces that parse to a valid date's fields, joined by dashes, parse to it. */
  lemma ParseDashed(y: string, m: string, dd: string, d: Date)
    requires '-' !in y && '-' !in m && '-' !in dd && IsValid(d)
    requires ParseNat(y) == Some(d.year as nat) && ParseNat(m) == Some(d.month as nat)
    requires ParseNat(dd) == Some(d.day as nat)
    ensures ParseIso(y + "-" + m + "-" + dd) == Some(d)
  {
    SplitDashed(y, m, dd);
    ParseIsoPieces(y + "-" + m + "-" + dd, y, m, dd, [], d);
  }

  /** Parsing a formatted valid date gives it back. */
  lemma ParseFormatIso(d: Date)
    requires IsValid(d)
    ensures ParseIso(FormatIso(d)) == Some(d)
  {
    NoDash(d.year, 4); NoDash(d.month, 2); NoDash(d.day, 2);
    ParsePadDigits(d.year, 4); ParsePadDigits(d.month, 2); ParsePadDigits(d.day, 2);
    ParseDashed(PadDigits(d.year, 4), PadDigits(d.month, 2), PadDigits(d.day, 2), d);
  }

  /** After a formatted date and a dash, the split goes on with the tail's pieces. */
  lemma SplitFormatTail(d: Date, tail: string)
    requires IsValid(d)
    ensures Split(FormatIso(d) + "-" + tail, '-')
      == [PadDigits(d.year, 4), PadDigits(d.month, 2), PadDigits(d.day, 2)] + Split(tail, '-')
  {
    NoDash(d.year, 4); NoDash(d.month, 2); NoDash(d.day, 2);
    SplitThree(PadDigits(d.year, 4), PadDigits(d.month, 2), PadDigits(d.day, 2), tail);
  }

  /** Anything after a third dash is never looked at. */
  lemma ParseFormatIsoTail(d: Date, tail: string)
    requires IsValid(d)
    ensures ParseIso(FormatIso(d) + "-" + tail) == Some(d)
  {
    ParsePadDigits(d.year, 4); ParsePadDigits(d.month, 2); ParsePadDigits(d.day, 2);
    SplitFormatTail(d, tail);
    ParseIsoPieces(FormatIso(d) + "-" + tail, PadDigits(d.year, 4), PadDigits(d.month, 2),
                   PadDigits(d.day, 2), Split(tail, '-'), d);
  }

  /** Strictly increasing dates: a unique, sorted date index. */
  predicate Ascending(ds: seq<Date>)
  {
    forall i, j :: 0 <= i < j < |ds| ==> Before(ds[i], ds[j])
  }
}
