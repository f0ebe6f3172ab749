/**
  The camera loop of scripts/control_asistencia.py as an explicit state
  machine: one `Tick` per captured frame threads the mode, the per-day cache,
  the day the cache belongs to and the log.

  The face matcher is an oracle: a frame brings a list of detections, each
  either unmatched or matched to a known name together with the already
  formatted distance. The clock is an input as well: a frame carries the day
  and each match the time of day at which it would be logged.
*/
module AttendanceLoop {
  import opened Wrappers
  import opened Admission
  import opened DailyState

  /** The capture point written in the `cam` column. */
  const CAM_ID := "Entrada_Biblioteca"

  datatype State = State(mode: string, cache: map<string, string>, cacheDay: string, log: seq<Row>)

  /** One face of a frame: the matcher found nobody within tolerance, or found `name`. */
  datatype Detection = Unmatched | Matched(name: string, dist: string, time: string)

  /**
    What the outside world supplies for one frame: whether the camera delivered
    a frame, today's date, the raw key code and the detections in capture order.
  */
  datatype Input = Input(frameOk: bool, today: string, key: int, faces: seq<Detection>)

  /** A tick either lets the loop carry on or ends it (no frame, or key `q`). */
  datatype Step = Running(state: State) | Stopped(state: State)

  /** The cache agrees with what the log says about the cached day. */
  predicate Consistent(s: State) {
    s.cache == Rebuild(s.log, s.cacheDay)
  }

  /** The state at start-up: mode NONE and the cache loaded from the log for today. */
  function Start(log: seq<Row>, today: string): (s: State)
    ensures s.mode == INITIAL_MODE && s.log == log && s.cacheDay == today
    ensures Consistent(s)
    ensures forall name :: name in s.cache <==> |DayEvents(log, name, today)| > 0
  {
    var s := State(INITIAL_MODE, Rebuild(log, today), today, log);
    assert forall name :: name in s.cache <==> |DayEvents(log, name, today)| > 0 by {
      forall name { RebuildIsLastDayEvent(log, today, name); }
    }
    s
  }

  /** The day-change check at the top of each tick. */
  function Rollover(s: State, today: string): (t: State)
    ensures t.mode == s.mode && t.log == s.log && t.cacheDay == today
    ensures s.cacheDay == today ==> t == s
    ensures s.cacheDay != today ==> Consistent(t)
    ensures Consistent(s) ==> Consistent(t)
  {
    if today != s.cacheDay then s.(cache := Rebuild(s.log, today), cacheDay := today)
    else s
  }

  /**
    The row the script appends when it admits `name` in mode `mode`: read back
    by the cache rebuild, it is a row of `today` for `name` with event `mode`.
  */
  function LogRow(today: string, name: string, dist: string, time: string, mode: string): (r: Row)
    ensures r.name == name && r.event == mode && r.cam == CAM_ID
    ensures DayText(today) ==> DatePrefix(r.timestamp) == today
  {
    var r := Row(today + " " + time, name, CAM_ID, mode, dist);
    if DayText(today) then DatePrefixOfStamp(today, time); r else r
  }

  /** Whether detection `d` is admitted in state `s`. */
  predicate Admitted(s: State, d: Detection) {
    d.Matched? && CanRegister(s.mode, Get(s.cache, d.name)).ok
  }

  /**
    One detection of a frame: an unmatched face does nothing; a matched one
    is checked against the cache and, if admitted, appended to the log and
    recorded in the cache.
  */
  function Admit(s: State, d: Detection, today: string): (t: State)
    ensures t.mode == s.mode && t.cacheDay == s.cacheDay
    // a denied or unmatched detection changes nothing
    ensures !Admitted(s, d) ==> t == s
    // an admitted one appends exactly one row, stamped today, of the current mode
    ensures Admitted(s, d) ==>
      && t.log == s.log + [LogRow(today, d.name, d.dist, d.time, s.mode)]
      && Admitting(s.mode)
      && Get(t.cache, d.name) == Some(s.mode)
    // and leaves the cache entries of everybody else alone
    ensures forall n :: d.Unmatched? || n != d.name ==> Get(t.cache, n) == Get(s.cache, n)
    // afterwards the person seen is recorded in the mode: in mode IN always,
    // in mode OUT when they already had an event today
    ensures d.Matched? && (s.mode == IN || (s.mode == OUT && d.name in s.cache)) ==>
      Get(t.cache, d.name) == Some(s.mode)
    ensures forall n :: n in s.cache ==> n in t.cache
    // on the cache's own day the cache stays the replay of the log
    ensures Consistent(s) && s.cacheDay == today && DayText(today) ==> Consistent(t)
  {
    match d
    case Unmatched => s
    case Matched(name, dist, time) =>
      if CanRegister(s.mode, Get(s.cache, name)).ok then
        var row := LogRow(today, name, dist, time, s.mode);
        RebuildAppend(s.log, row, today);
        s.(log := s.log + [row], cache := s.cache[name := s.mode])
      else s
  }

  /** All detections of a frame, in capture order. */
  function AdmitAll(s: State, faces: seq<Detection>, today: string): (t: State)
    ensures t.mode == s.mode && t.cacheDay == s.cacheDay
    ensures s.log <= t.log
    ensures |t.log| <= |s.log| + |faces|
    // no cache entry disappears, and an entry already equal to the mode stays
    ensures forall n :: n in s.cache ==> n in t.cache
    ensures forall n :: Get(s.cache, n) == Some(s.mode) ==> Get(t.cache, n) == Some(s.mode)
    // every face seen ends up recorded: in mode IN everyone matched is IN ...
    ensures s.mode == IN ==>
      forall i :: 0 <= i < |faces| && faces[i].Matched? ==> Get(t.cache, faces[i].name) == Some(IN)
    // ... and in mode OUT everyone matched who had an event today is OUT
    ensures s.mode == OUT ==>
      forall i :: 0 <= i < |faces| && faces[i].Matched? && faces[i].name in s.cache ==>
        Get(t.cache, faces[i].name) == Some(OUT)
    // on the cache's own day the cache stays the replay of the log
    ensures Consistent(s) && s.cacheDay == today && DayText(today) ==> Consistent(t)
    decreases |faces|
  {
    if |faces| == 0 then s
    else AdmitAll(Admit(s, faces[0], today), faces[1..], today)
  }

  /** One pass of the `while True` loop. */
  function Tick(s: State, inp: Input): (r: Step)
    ensures !inp.frameOk ==> r == Stopped(s)
    ensures inp.frameOk ==> r.state.cacheDay == inp.today
    ensures s.log <= r.state.log
    ensures inp.frameOk && KeyCode(inp.key) == KEY_QUIT ==> r == Stopped(Rollover(s, inp.today))
    ensures inp.frameOk && KeyCode(inp.key) != KEY_QUIT ==> r.Running?
    ensures r.Running? ==> r.state.mode == SetModeFromKey(KeyCode(inp.key), s.mode)
    // after the tick the cache is the replay of the log for today, whether it
    // was rebuilt on a new day or kept consistent on the same one
    ensures inp.frameOk && DayText(inp.today) && (Consistent(s) || s.cacheDay != inp.today) ==>
      Consistent(r.state)
    // the faces of the frame are recorded in the new mode
    ensures r.Running? && r.state.mode == IN ==>
      forall i :: 0 <= i < |inp.faces| && inp.faces[i].Matched? ==>
        Get(r.state.cache, inp.faces[i].name) == Some(IN)
    ensures r.Running? && r.state.mode == OUT ==>
      forall i :: 0 <= i < |inp.faces| && inp.faces[i].Matched? && inp.faces[i].name in Rollover(s, inp.today).cache ==>
        Get(r.state.cache, inp.faces[i].name) == Some(OUT)
  {
    if !inp.frameOk then Stopped(s)
    else
      var s1 := Rollover(s, inp.today);
      var k := KeyCode(inp.key);
      if k == KEY_QUIT then Stopped(s1)
      else
        var s2 := s1.(mode := SetModeFromKey(k, s1.mode));
        Running(AdmitAll(s2, inp.faces, inp.today))
  }

  /** Runs the loop over a sequence of frames until it stops or the frames run out. */
  function Run(s: State, inputs: seq<Input>): (t: State)
    ensures s.log <= t.log
    decreases |inputs|
  {
    if |inputs| == 0 then s
    else
      match Tick(s, inputs[0])
      case Stopped(t) => t
      case Running(t) => Run(t, inputs[1..])
  }

  /** `evs` is IN, OUT, IN, OUT, ... starting with IN. */
  predicate Alternates(evs: seq<string>) {
    forall i :: 0 <= i < |evs| ==> evs[i] == (if i % 2 == 0 then IN else OUT)
  }

  /** For every person and every day, the day's events in the log alternate starting with IN. */
  ghost predicate LogAlternates(log: seq<Row>) {
    forall name, day :: Alternates(DayEvents(log, name, day))
  }

  /** The invariant of the running loop. */
  ghost predicate Inv(s: State) {
    Consistent(s) && KnownMode(s.mode) && LogAlternates(s.log)
  }

  /** A date text as `str(date.today())` produces it: no space inside. */
  predicate DayText(d: string) {
    ' ' !in d
  }

  /**
    The invariant for one person and one day: the cache is the replay of the
    log, the mode is known, and that person's events of that day alternate.
    It says nothing about any other person or day, so it holds for a day with
    no events whatever the rest of the log contains.
  */
  predicate InvFor(s: State, name: string, day: string) {
    Consistent(s) && KnownMode(s.mode) && Alternates(DayEvents(s.log, name, day))
  }

  /**
    Admitting a detection on the cache's own day keeps the cache consistent
    with the log and keeps the tracked person's day alternating.
  */
  lemma AdmitKeepsInvFor(s: State, d: Detection, today: string, name: string, day: string)
    requires InvFor(s, name, day) && s.cacheDay == today && DayText(today)
    ensures InvFor(Admit(s, d, today), name, day)
  {
    if Admitted(s, d) {
      var t := Admit(s, d, today);
      var row := LogRow(today, d.name, d.dist, d.time, s.mode);
      DayEventsAppend(s.log, row, name, day);
      if name == d.name && day == today {
        var evs := DayEvents(s.log, name, today);
        RebuildIsLastDayEvent(s.log, today, name);
        assert DayEvents(t.log, name, day) == evs + [s.mode];
        if s.mode == IN {
          assert |evs| % 2 == 0;
        } else {
          assert |evs| > 0 && evs[|evs| - 1] == IN;
          assert |evs| % 2 == 1;
        }
      }
    }
  }

  lemma {:induction false} AdmitAllKeepsInvFor(s: State, faces: seq<Detection>, today: string, name: string, day: string)
    requires InvFor(s, name, day) && s.cacheDay == today && DayText(today)
    ensures InvFor(AdmitAll(s, faces, today), name, day)
    decreases |faces|
  {
    if |faces| > 0 {
      AdmitKeepsInvFor(s, faces[0], today, name, day);
      AdmitAllKeepsInvFor(Admit(s, faces[0], today), faces[1..], today, name, day);
    }
  }

  /** Every tick keeps the invariant of the tracked person and day, across a day change too. */
  lemma TickKeepsInvFor(s: State, inp: Input, name: string, day: string)
    requires InvFor(s, name, day) && DayText(inp.today)
    ensures InvFor(Tick(s, inp).state, name, day)
  {
    if inp.frameOk {
      var s1 := Rollover(s, inp.today);
      var k := KeyCode(inp.key);
      if k != KEY_QUIT {
        var s2 := s1.(mode := SetModeFromKey(k, s1.mode));
        AdmitAllKeepsInvFor(s2, inp.faces, inp.today, name, day);
      }
    }
  }

  /** The invariant of the tracked person and day holds after any run of frames whose dates are date texts. */
  lemma {:induction false} RunKeepsInvFor(s: State, inputs: seq<Input>, name: string, day: string)
    requires InvFor(s, name, day)
    requires forall i :: 0 <= i < |inputs| ==> DayText(inputs[i].today)
    ensures InvFor(Run(s, inputs), name, day)
    decreases |inputs|
  {
    if |inputs| > 0 {
      TickKeepsInvFor(s, inputs[0], name, day);
      if Tick(s, inputs[0]).Running? {
        RunKeepsInvFor(Tick(s, inputs[0]).state, inputs[1..], name, day);
      }
    }
  }

  /** The whole-log invariant is the per-day one for everybody on every day. */
  lemma InvIsInvForAll(s: State)
    ensures Inv(s) <==> forall name, day :: InvFor(s, name, day)
  {
    if forall name, day :: InvFor(s, name, day) {
      assert InvFor(s, "", "");
      forall name, day ensures Alternates(DayEvents(s.log, name, day)) {
        assert InvFor(s, name, day);
      }
    }
  }

  /** Admitting a detection keeps the whole-log invariant. */
  lemma AdmitKeepsInv(s: State, d: Detection, today: string)
    requires Inv(s) && s.cacheDay == today && DayText(today)
    ensures Inv(Admit(s, d, today))
  {
    forall name, day ensures InvFor(Admit(s, d, today), name, day) {
      AdmitKeepsInvFor(s, d, today, name, day);
    }
    InvIsInvForAll(Admit(s, d, today));
  }

  lemma AdmitAllKeepsInv(s: State, faces: seq<Detection>, today: string)
    requires Inv(s) && s.cacheDay == today && DayText(today)
    ensures Inv(AdmitAll(s, faces, today))
  {
    forall name, day ensures InvFor(AdmitAll(s, faces, today), name, day) {
      AdmitAllKeepsInvFor(s, faces, today, name, day);
    }
    InvIsInvForAll(AdmitAll(s, faces, today));
  }

  /** Every tick keeps the whole-log invariant. */
  lemma TickKeepsInv(s: State, inp: Input)
    requires Inv(s) && DayText(inp.today)
    ensures Inv(Tick(s, inp).state)
  {
    forall name, day ensures InvFor(Tick(s, inp).state, name, day) {
      TickKeepsInvFor(s, inp, name, day);
    }
    InvIsInvForAll(Tick(s, inp).state);
  }

  /** The whole-log invariant holds after any run of frames whose dates are date texts. */
  lemma RunKeepsInv(s: State, inputs: seq<Input>)
    requires Inv(s)
    requires forall i :: 0 <= i < |inputs| ==> DayText(inputs[i].today)
    ensures Inv(Run(s, inputs))
  {
    forall name, day ensures InvFor(Run(s, inputs), name, day) {
      RunKeepsInvFor(s, inputs, name, day);
    }
    InvIsInvForAll(Run(s, inputs));
  }

  /**
    The alternation guarantee. Take any person and any day whose events in
    the starting log alternate (a day with no events yet always does, whatever
    the rest of the log holds); however the frames, keys, matches and day
    changes come, that person's events of that day keep alternating IN, OUT,
    IN, ... starting with IN. No double check-in, no check-out without a
    check-in, no double check-out, also when the same person shows up several
    times in one frame.
  */
  lemma EventsAlternate(log: seq<Row>, today: string, inputs: seq<Input>, name: string, day: string)
    requires Alternates(DayEvents(log, name, day))
    requires forall i :: 0 <= i < |inputs| ==> DayText(inputs[i].today)
    ensures Alternates(DayEvents(Run(Start(log, today), inputs).log, name, day))
    ensures KnownMode(Run(Start(log, today), inputs).mode)
  {
    RunKeepsInvFor(Start(log, today), inputs, name, day);
  }

  /** A day on which the starting log has no events is always covered by `EventsAlternate`. */
  lemma FreshDayAlternates(log: seq<Row>, today: string, inputs: seq<Input>, name: string, day: string)
    requires DayEvents(log, name, day) == []
    requires forall i :: 0 <= i < |inputs| ==> DayText(inputs[i].today)
    ensures Alternates(DayEvents(Run(Start(log, today), inputs).log, name, day))
  {
    EventsAlternate(log, today, inputs, name, day);
  }

  /** An empty log has no events on any day, so it alternates trivially. */
  lemma {:induction false} EmptyLogAlternates()
    ensures LogAlternates([])
  {
    forall name, day
      ensures Alternates(DayEvents([], name, day))
    {
      assert DayEvents([], name, day) == [];
    }
  }

  /**
    The same person twice in one frame is logged at most once: the first
    admission updates the cache, which denies the second in either mode.
  */
  lemma SamePersonTwiceInOneFrame(s: State, name: string, d1: string, t1: string, d2: string, t2: string, today: string)
    ensures |AdmitAll(s, [Matched(name, d1, t1), Matched(name, d2, t2)], today).log| <= |s.log| + 1
  {
    var faces := [Matched(name, d1, t1), Matched(name, d2, t2)];
    var a := Admit(s, faces[0], today);
    var b := Admit(a, faces[1], today);
    assert AdmitAll(s, faces, today) == AdmitAll(a, faces[1..], today);
    assert faces[1..][0] == faces[1] && faces[1..][1..] == [];
    assert AdmitAll(a, faces[1..], today) == AdmitAll(b, [], today) == b;
    if Admitted(s, faces[0]) {
      assert Get(a.cache, name) == Some(s.mode);
      assert !Admitted(a, faces[1]);
    }
  }

  /**
    A tick on the same day as the cache never rebuilds it: repeating the
    day-change check is a no-op.
  */
  lemma RolloverIdempotent(s: State, today: string)
    ensures Rollover(Rollover(s, today), today) == Rollover(s, today)
  {
  }

  /**
    After midnight the previous day's events no longer count: a person whose
    only events are on earlier days is admitted in mode IN on the first frame
    of the new day, whatever the stale cache said, and the row is stamped with
    the new date.
  */
  lemma NewDayAdmitsIn(s: State, inp: Input, name: string, dist: string, time: string)
    requires inp.frameOk && inp.today != s.cacheDay
    requires KeyCode(inp.key) != KEY_QUIT && SetModeFromKey(KeyCode(inp.key), s.mode) == IN
    requires inp.faces == [Matched(name, dist, time)]
    requires |DayEvents(s.log, name, inp.today)| == 0
    ensures Tick(s, inp) == Running(Tick(s, inp).state)
    ensures Tick(s, inp).state.log == s.log + [LogRow(inp.today, name, dist, time, IN)]
  {
    var s1 := Rollover(s, inp.today);
    RebuildIsLastDayEvent(s.log, inp.today, name);
    var s2 := s1.(mode := IN);
    assert Get(s2.cache, name) == None;
    assert Admitted(s2, Matched(name, dist, time));
    assert inp.faces[1..] == [];
  }

  /**
    The tick as the script performs it: the day-change check reads the clock
    once (`today`), but every admitted row is stamped by a later reading
    (`stampDay`), which after midnight can already be the next day.
  */
  function TickWithClock(s: State, inp: Input, stampDay: string): (r: Step)
    ensures stampDay == inp.today ==> r == Tick(s, inp)
    ensures s.log <= r.state.log
  {
    if !inp.frameOk then Stopped(s)
    else
      var s1 := Rollover(s, inp.today);
      var k := KeyCode(inp.key);
      if k == KEY_QUIT then Stopped(s1)
      else
        var s2 := s1.(mode := SetModeFromKey(k, s1.mode));
        Running(AdmitAll(s2, inp.faces, stampDay))
  }

  /**
    A tick that straddles midnight breaks the alternation: someone checked in
    on day `d1` and seen in mode OUT by a tick that began on `d1` is allowed
    out (the cache is still `d1`'s), and the row is stamped `d2`, so their
    first event of `d2` is an OUT.
  */
  lemma MidnightRace(d1: string, d2: string, name: string, dist: string, t0: string, t1: string)
    requires DayText(d1) && DayText(d2) && d1 != d2
    ensures Inv(State(OUT, map[name := IN], d1, [LogRow(d1, name, dist, t0, IN)]))
    ensures !LogAlternates(
      TickWithClock(
        State(OUT, map[name := IN], d1, [LogRow(d1, name, dist, t0, IN)]),
        Input(true, d1, KEY_OUT, [Matched(name, dist, t1)]),
        d2).state.log)
  {
    var row0 := LogRow(d1, name, dist, t0, IN);
    var log := [row0];
    var s := State(OUT, map[name := IN], d1, log);
    DatePrefixOfStamp(d1, t0);
    assert log == [] + [row0];
    RebuildAppend([], row0, d1);
    assert Consistent(s);
    forall n, day ensures Alternates(DayEvents(log, n, day)) {
      DayEventsAppend([], row0, n, day);
    }
    var inp := Input(true, d1, KEY_OUT, [Matched(name, dist, t1)]);
    var row1 := LogRow(d2, name, dist, t1, OUT);
    assert Admitted(s, Matched(name, dist, t1));
    var t := TickWithClock(s, inp, d2).state;
    assert inp.faces[1..] == [];
    assert t.log == log + [row1];
    DatePrefixOfStamp(d2, t1);
    DayEventsAppend([], row0, name, d2);
    DayEventsAppend(log, row1, name, d2);
    assert DayEvents(log, name, d2) == [];
    assert DayEvents(t.log, name, d2) == [OUT];
    assert !Alternates(DayEvents(t.log, name, d2)) by {
      assert DayEvents(t.log, name, d2)[0] != IN;
    }
  }

  /**
    The start-up as the script performs it: the cache is loaded for the day
    the clock gives inside `cargar_ultimo_evento_hoy` (`loadDay`), but labelled
    with a second reading (`cacheDay`), which after midnight can already be
    the next day.
  */
  function StartWithClock(log: seq<Row>, loadDay: string, cacheDay: string): (s: State)
    ensures loadDay == cacheDay ==> s == Start(log, loadDay)
    ensures s.mode == INITIAL_MODE && s.log == log && s.cacheDay == cacheDay
  {
    State(INITIAL_MODE, Rebuild(log, loadDay), cacheDay, log)
  }

  /**
    A start-up that straddles midnight leaves the previous day's cache in
    charge of the new day, and the day-change check never replaces it: someone
    whose only event is an IN on `d1` is refused IN on `d2` although they have
    no event that day, and is let OUT, so their first event of `d2` is an OUT.
  */
  lemma StartupRace(d1: string, d2: string, name: string, dist: string, t0: string, t1: string)
    requires DayText(d1) && DayText(d2) && d1 != d2
    ensures LogAlternates([LogRow(d1, name, dist, t0, IN)])
    ensures DayEvents([LogRow(d1, name, dist, t0, IN)], name, d2) == []
    ensures Tick(StartWithClock([LogRow(d1, name, dist, t0, IN)], d1, d2),
                 Input(true, d2, KEY_IN, [Matched(name, dist, t1)])).state.log
            == [LogRow(d1, name, dist, t0, IN)]
    ensures !LogAlternates(
      Tick(StartWithClock([LogRow(d1, name, dist, t0, IN)], d1, d2),
           Input(true, d2, KEY_OUT, [Matched(name, dist, t1)])).state.log)
  {
    var row0 := LogRow(d1, name, dist, t0, IN);
    var log := [row0];
    DatePrefixOfStamp(d1, t0);
    assert log == [] + [row0];
    RebuildAppend([], row0, d1);
    forall n, day ensures Alternates(DayEvents(log, n, day)) {
      DayEventsAppend([], row0, n, day);
    }
    var s := StartWithClock(log, d1, d2);
    assert s.cache == map[name := IN];
    DayEventsAppend([], row0, name, d2);
    assert DayEvents(log, name, d2) == [];

    var inIn := Input(true, d2, KEY_IN, [Matched(name, dist, t1)]);
    assert inIn.faces[1..] == [];
    assert !Admitted(s.(mode := IN), Matched(name, dist, t1));

    var inOut := Input(true, d2, KEY_OUT, [Matched(name, dist, t1)]);
    var row1 := LogRow(d2, name, dist, t1, OUT);
    assert inOut.faces[1..] == [];
    assert Admitted(s.(mode := OUT), Matched(name, dist, t1));
    var t := Tick(s, inOut).state;
    assert t.log == log + [row1];
    DatePrefixOfStamp(d2, t1);
    DayEventsAppend(log, row1, name, d2);
    assert DayEvents(t.log, name, d2) == [OUT];
    assert !Alternates(DayEvents(t.log, name, d2)) by {
      assert DayEvents(t.log, name, d2)[0] != IN;
    }
  }
}
