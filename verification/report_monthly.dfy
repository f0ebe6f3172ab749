/**
  scripts/reporte_mensual.py: the IN rows of the latest month of the latest
  year in the log, counted per person and ranked, written to a file named
  after that month.
*/
module ReportMonthly {
  import opened Wrappers
  import opened Reports
  import opened Decimal
  import ReportDaily

  /** The latest year of a non-empty log (`df["anio"].max()`). */
  function LatestYear(rows: seq<Record>): (y: nat)
    requires |rows| > 0
    ensures exists i :: 0 <= i < |rows| && rows[i].date.year == y
    ensures forall i :: 0 <= i < |rows| ==> rows[i].date.year <= y
    decreases |rows|
  {
    var last := rows[|rows| - 1].date.year;
    if |rows| == 1 then last
    else
      var front := LatestYear(rows[..|rows| - 1]);
      if last <= front then front else last
  }

  /**
    The latest month among the rows of year `y`
    (`df[df["anio"] == y]["mes"].max()`); `None` stands for the NaN pandas
    gives when no row has that year.
  */
  function LatestMonthIn(rows: seq<Record>, y: nat): (m: Option<nat>)
    ensures m.None? <==> forall i :: 0 <= i < |rows| ==> rows[i].date.year != y
    ensures m.Some? ==> exists i :: 0 <= i < |rows| && rows[i].date.year == y && rows[i].date.month == m.value
    ensures m.Some? ==> forall i :: 0 <= i < |rows| && rows[i].date.year == y ==> rows[i].date.month <= m.value
    decreases |rows|
  {
    if |rows| == 0 then None
    else
      var last := rows[|rows| - 1].date;
      var front := LatestMonthIn(rows[..|rows| - 1], y);
      if last.year != y then front
      else if front.Some? && last.month <= front.value then front
      else Some(last.month)
  }

  const PREFIX := "reporte_mensual_"
  const SUFFIX := ".csv"

  /**
    `f"reporte_mensual_{anio_act}_{mes_act:02d}.csv"`: between the prefix and
    the suffix stand the year in plain decimal and the month in decimal,
    zero-padded to two digits, separated by `_`.
  */
  function FileName(year: nat, month: nat): (fn: string)
    ensures |fn| >= |PREFIX| + |SUFFIX|
    ensures fn[..|PREFIX|] == PREFIX && fn[|fn| - |SUFFIX|..] == SUFFIX
    ensures exists a, b :: YearMonthText(fn, a, b, year, month)
  {
    var a, b := Show(year), Pad2(month);
    ValueShow(year);
    ValuePad2(month);
    var fn := PREFIX + (a + "_" + b) + SUFFIX;
    assert YearMonthText(fn, a, b, year, month);
    fn
  }

  /**
    `fn` is `reporte_mensual_<a>_<b>.csv` where `a` is the decimal text of
    `year` without leading zeros and `b` that of `month`, two digits long
    below 100 and without a leading zero beyond two.
  */
  predicate YearMonthText(fn: string, a: string, b: string, year: nat, month: nat) {
    && fn == PREFIX + (a + "_" + b) + SUFFIX
    && |a| > 0 && AllDigits(a) && Value(a) == year && (|a| > 1 ==> a[0] != '0')
    && AllDigits(b) && Value(b) == month
    && (month < 100 ==> |b| == 2) && (|b| > 2 ==> b[0] != '0')
  }

  /** The index of the first `c` in `s`, or `|s|` when there is none. */
  function FirstIndex(s: string, c: char): (i: nat)
    ensures i <= |s|
    decreases |s|
  {
    if |s| == 0 then 0
    else if s[0] == c then 0
    else 1 + FirstIndex(s[1..], c)
  }

  /** The separator after a text that does not contain it is found right there. */
  lemma {:induction false} FirstIndexAfter(a: string, c: char, b: string)
    requires c !in a
    ensures FirstIndex(a + [c] + b, c) == |a|
    decreases |a|
  {
    if |a| > 0 {
      assert (a + [c] + b)[1..] == a[1..] + [c] + b;
      FirstIndexAfter(a[1..], c, b);
    }
  }

  /** A text of digits never contains the `_` that separates year and month. */
  lemma NoUnderscore(s: string)
    requires AllDigits(s)
    ensures '_' !in s
  {
  }

  /** Texts framed by the same prefix and suffix are equal when the framed texts are. */
  lemma Unframe(pre: string, x: string, y: string, suf: string)
    requires pre + x + suf == pre + y + suf
    ensures x == y
  {
    var t := pre + x + suf;
    assert x == t[|pre|..|t| - |suf|];
  }

  /** Splitting at the first separator is unique. */
  lemma SplitUnique(a1: string, b1: string, a2: string, b2: string, c: char)
    requires c !in a1 && c !in a2
    requires a1 + [c] + b1 == a2 + [c] + b2
    ensures a1 == a2 && b1 == b2
  {
    var t := a1 + [c] + b1;
    FirstIndexAfter(a1, c, b1);
    FirstIndexAfter(a2, c, b2);
    assert a1 == t[..|a1|] && a2 == t[..|a2|];
    assert b1 == t[|a1| + 1..] && b2 == t[|a2| + 1..];
  }

  /** Different months never share a report file. */
  lemma FileNameInjective(y1: nat, m1: nat, y2: nat, m2: nat)
    requires FileName(y1, m1) == FileName(y2, m2)
    ensures y1 == y2 && m1 == m2
  {
    var a1, b1, a2, b2 := Show(y1), Pad2(m1), Show(y2), Pad2(m2);
    Unframe(PREFIX, a1 + "_" + b1, a2 + "_" + b2, SUFFIX);
    NoUnderscore(a1);
    NoUnderscore(a2);
    SplitUnique(a1, b1, a2, b2, '_');
    ValueShow(y1);
    ValueShow(y2);
    ValuePad2(m1);
    ValuePad2(m2);
  }

  /** The report: its month, its ranked lines and the file it is written to. */
  datatype MonthlyReport = MonthlyReport(year: nat, month: nat, lines: seq<Entry>, fileName: string)

  /**
    No report when the log file is missing or has no rows; otherwise the IN
    rows of the latest month of the latest year, counted per person, most
    attendances first and ties by name.
  */
  function Monthly(log: Option<seq<Record>>): (r: Option<MonthlyReport>)
    ensures r.None? <==> log.None? || |log.value| == 0
    ensures r.Some? ==>
      exists i :: 0 <= i < |log.value| &&
        log.value[i].date.year == r.value.year && log.value[i].date.month == r.value.month
    ensures r.Some? ==>
      forall i :: 0 <= i < |log.value| ==>
        log.value[i].date.year < r.value.year ||
        (log.value[i].date.year == r.value.year && log.value[i].date.month <= r.value.month)
    ensures r.Some? ==> Describes(r.value.lines, log.value, Month(r.value.year, r.value.month))
    ensures r.Some? ==> Sum(r.value.lines) == Total(log.value, Month(r.value.year, r.value.month))
    ensures r.Some? ==> r.value.fileName == FileName(r.value.year, r.value.month)
  {
    match log
    case None => None
    case Some(rows) =>
      if |rows| == 0 then None
      else
        var y := LatestYear(rows);
        var m := LatestMonthIn(rows, y).value;
        Some(MonthlyReport(y, m, PeriodReport(rows, Month(y, m)), FileName(y, m)))
  }

  /** The monthly report covers the month of the day the daily report covers. */
  lemma SameLatestMonth(rows: seq<Record>)
    requires |rows| > 0
    ensures Monthly(Some(rows)).Some?
    ensures Monthly(Some(rows)).value.year == ReportDaily.LatestDate(rows).year
    ensures Monthly(Some(rows)).value.month == ReportDaily.LatestDate(rows).month
  {
    var d := ReportDaily.LatestDate(rows);
    var r := Monthly(Some(rows)).value;
    var i :| 0 <= i < |rows| && rows[i].date.year == r.year && rows[i].date.month == r.month;
    var j :| 0 <= j < |rows| && rows[j].date == d;
    assert DateLe(rows[i].date, d);
  }
}
