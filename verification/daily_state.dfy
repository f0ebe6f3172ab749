/**
  The per-day cache of the attendance camera (scripts/control_asistencia.py):
  for each name, the event of the last log row written today.

  The log is the CSV file with columns `timestamp, nombre, cam, evento, dist`,
  modelled as the sequence of its data rows in file order; every field is the
  raw text the CSV reader hands back.
*/
module DailyState {
  import opened Wrappers

  datatype Row = Row(timestamp: string, name: string, cam: string, event: string, dist: string)

  /**
    `timestamp.split(' ')[0]`: the text before the first space, or the whole
    timestamp when it has none.
  */
  function DatePrefix(ts: string): (d: string)
    ensures |d| <= |ts| && d == ts[..|d|]
    ensures ' ' !in d
    ensures |d| < |ts| ==> ts[|d|] == ' '
  {
    if |ts| == 0 || ts[0] == ' ' then ""
    else [ts[0]] + DatePrefix(ts[1..])
  }

  /** A timestamp written on day `day` (a day text without spaces) has `day` as its date prefix. */
  lemma DatePrefixOfStamp(day: string, time: string)
    requires ' ' !in day
    ensures DatePrefix(day + " " + time) == day
  {
    var ts := day + " " + time;
    assert ts[|day|] == ' ' && ts[..|day|] == day;
  }

  /** Row `r` is a row of person `name` written on day `day`. */
  predicate OnDay(r: Row, day: string, name: string) {
    DatePrefix(r.timestamp) == day && r.name == name
  }

  /**
    The cache rebuilt from `rows`: each row of day `day`, in file order,
    overwrites the entry of its name, so the last such row wins.
  */
  function Rebuild(rows: seq<Row>, day: string): map<string, string>
    decreases |rows|
  {
    if |rows| == 0 then map[]
    else
      var m := Rebuild(rows[..|rows| - 1], day);
      var r := rows[|rows| - 1];
      if DatePrefix(r.timestamp) == day then m[r.name := r.event] else m
  }

  /**
    `cargar_ultimo_evento_hoy`: reads the log (`None` when the file does not
    exist) and keeps, per name, the event of its last row dated `today`.
  */
  method LoadLastEventToday(log: Option<seq<Row>>, today: string) returns (last: map<string, string>)
    ensures log.None? ==> last == map[]
    ensures log.Some? ==> last == Rebuild(log.value, today)
  {
    last := map[];
    if log.None? {
      return;
    }
    var rows := log.value;
    var n := 0;
    while n < |rows|
      invariant 0 <= n <= |rows|
      invariant last == Rebuild(rows[..n], today)
    {
      var row := rows[n];
      assert rows[..n + 1][..n] == rows[..n];
      if DatePrefix(row.timestamp) == today {
        last := last[row.name := row.event];
      }
      n := n + 1;
    }
    assert rows[..n] == rows;
  }

  /** Every row of the day gives its name an entry. */
  lemma {:induction false} DayRowHasEntry(rows: seq<Row>, day: string, i: nat)
    requires i < |rows|
    ensures DatePrefix(rows[i].timestamp) == day ==> rows[i].name in Rebuild(rows, day)
    decreases |rows|
  {
    var k := |rows| - 1;
    if i < k {
      DayRowHasEntry(rows[..k], day, i);
    }
  }

  /** The row an entry comes from: the last row of the day with that name. */
  lemma {:induction false} EntrySource(rows: seq<Row>, day: string, name: string) returns (i: nat)
    requires name in Rebuild(rows, day)
    ensures i < |rows| && OnDay(rows[i], day, name) && Rebuild(rows, day)[name] == rows[i].event
    ensures forall j :: i < j < |rows| ==> !OnDay(rows[j], day, name)
    decreases |rows|
  {
    var k := |rows| - 1;
    if OnDay(rows[k], day, name) {
      i := k;
    } else {
      var front := rows[..k];
      i := EntrySource(front, day, name);
      assert front[i] == rows[i];
      assert forall j :: i < j < k ==> front[j] == rows[j];
    }
  }

  /**
    What the rebuilt cache holds: a name has an entry exactly when some row of
    the day is its, and the entry is the event of the last such row in the file.
  */
  lemma RebuildLastRow(rows: seq<Row>, day: string, name: string)
    ensures name in Rebuild(rows, day) <==> exists i :: 0 <= i < |rows| && OnDay(rows[i], day, name)
    ensures name in Rebuild(rows, day) ==>
      exists i :: 0 <= i < |rows| && OnDay(rows[i], day, name)
        && Rebuild(rows, day)[name] == rows[i].event
        && forall j :: i < j < |rows| ==> !OnDay(rows[j], day, name)
  {
    forall i | 0 <= i < |rows| ensures OnDay(rows[i], day, name) ==> name in Rebuild(rows, day) {
      DayRowHasEntry(rows, day, i);
    }
    if name in Rebuild(rows, day) {
      var i := EntrySource(rows, day, name);
    }
  }

  /** The events of person `name` on day `day`, in file order. */
  function DayEvents(rows: seq<Row>, name: string, day: string): seq<string>
    decreases |rows|
  {
    if |rows| == 0 then []
    else
      var r := rows[|rows| - 1];
      DayEvents(rows[..|rows| - 1], name, day) + (if OnDay(r, day, name) then [r.event] else [])
  }

  /**
    The rebuilt cache holds, for each name, the last of its events of the day,
    and has no entry for a name with no event that day.
  */
  lemma {:induction false} RebuildIsLastDayEvent(rows: seq<Row>, day: string, name: string)
    ensures name in Rebuild(rows, day) <==> |DayEvents(rows, name, day)| > 0
    ensures name in Rebuild(rows, day) ==>
      Rebuild(rows, day)[name] == DayEvents(rows, name, day)[|DayEvents(rows, name, day)| - 1]
    decreases |rows|
  {
    if |rows| > 0 {
      RebuildIsLastDayEvent(rows[..|rows| - 1], day, name);
    }
  }

  /** Appending a row changes the day's events of its own name and day only, by one event at the end. */
  lemma DayEventsAppend(rows: seq<Row>, r: Row, name: string, day: string)
    ensures DayEvents(rows + [r], name, day)
         == DayEvents(rows, name, day) + (if OnDay(r, day, name) then [r.event] else [])
  {
    assert (rows + [r])[..|rows|] == rows;
  }

  /**
    Log replay agrees with the in-memory update: rebuilding after appending a
    row stamped `day` is the old cache with that row's name set to its event,
    and a row of another day leaves the rebuilt cache as it was.
  */
  lemma RebuildAppend(rows: seq<Row>, r: Row, day: string)
    ensures DatePrefix(r.timestamp) == day ==> Rebuild(rows + [r], day) == Rebuild(rows, day)[r.name := r.event]
    ensures DatePrefix(r.timestamp) != day ==> Rebuild(rows + [r], day) == Rebuild(rows, day)
  {
    assert (rows + [r])[..|rows|] == rows;
  }
}
