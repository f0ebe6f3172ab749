/**
  scripts/reporte_diario.py: the IN rows of the most recent day in the log,
  counted per person and ranked.
*/
module ReportDaily {
  import opened Wrappers
  import opened Reports

  /** The most recent date of a non-empty log (`df["fecha"].max()`). */
  function LatestDate(rows: seq<Record>): (d: Date)
    requires |rows| > 0
    ensures exists i :: 0 <= i < |rows| && rows[i].date == d
    ensures forall i :: 0 <= i < |rows| ==> DateLe(rows[i].date, d)
    decreases |rows|
  {
    var last := rows[|rows| - 1].date;
    if |rows| == 1 then last
    else
      var front := LatestDate(rows[..|rows| - 1]);
      if DateLe(last, front) then front else last
  }

  /** The report: the day it covers and its ranked lines (`fecha, nombre, asistencias`). */
  datatype DailyReport = DailyReport(date: Date, lines: seq<Entry>)

  /**
    No report when the log file is missing or has no rows; otherwise the IN
    rows of the latest date, counted per person, most attendances first and
    ties by name.
  */
  function Daily(log: Option<seq<Record>>): (r: Option<DailyReport>)
    ensures r.None? <==> log.None? || |log.value| == 0
    ensures r.Some? ==> exists i :: 0 <= i < |log.value| && log.value[i].date == r.value.date
    ensures r.Some? ==> forall i :: 0 <= i < |log.value| ==> DateLe(log.value[i].date, r.value.date)
    ensures r.Some? ==> Describes(r.value.lines, log.value, Day(r.value.date))
    ensures r.Some? ==> Sum(r.value.lines) == Total(log.value, Day(r.value.date))
  {
    match log
    case None => None
    case Some(rows) =>
      if |rows| == 0 then None
      else
        var d := LatestDate(rows);
        Some(DailyReport(d, PeriodReport(rows, Day(d))))
  }
}
