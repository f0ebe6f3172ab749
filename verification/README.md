# Library attendance: a Dafny model

A Dafny model of the logic inside the library's face-recognition attendance scripts:

- **Admission state machine** (`scripts/control_asistencia.py`). This is the decision whether a recognised person may be logged IN or OUT (`puede_registrar`). It also covers:
  - the per-day cache of each person's last event, rebuilt from the CSV log (`cargar_ultimo_evento_hoy`);
  - the keyboard mode switch (`set_modo_from_key`);
  - the camera loop, modelled as a state-threading tick with the state (mode, cache, cached day, log).

  The main theorem (`AttendanceLoop.EventsAlternate`) is about one person and one day, and asks only that this person's events of that day alternate in the starting log. A day with no events yet always qualifies, whatever the rest of the log holds. It says that, however frames, keys, matches and day changes then come, that person's events of that day keep alternating IN, OUT, IN, … starting with IN. The theorem takes every date to be a text without spaces, as `str(date.today())` writes it.
- **Name normalisation** (`scripts/generar_codificaciones.py`). This covers `normalize_name`, which takes the stem, strips a trailing `_N`/`-N`, turns `-` and `_` into spaces, collapses whitespace and trims. It also covers the case-insensitive `.jpg`/`.jpeg`/`.png` filter.
- **Reports** (`scripts/reporte_diario.py`, `scripts/reporte_mensual.py`). Each report picks the latest day, or the latest month of the latest year, and counts the IN rows per person. It ranks them by count descending, then by name ascending. The monthly report also names its output file `reporte_mensual_<year>_<MM>.csv`.
  - The reports are specified by `Reports.Describes`: one line per person with an IN row in the period, carrying that person's number of such rows, in report order.
  - `Reports.DescribesUnique` shows that this description fixes the output completely.

Modules:
- `Wrappers`: `Option`.
- `Admission`: the decision table, the key mask and the mode keys.
- `DailyState`: log rows, date prefix and cache rebuild.
- `AttendanceLoop`: the tick, the run and the alternation invariant.
- `NameNormalization`: normalisation and the image filter.
- `Reports`: the shared count and ranking.
- `ReportDaily` and `ReportMonthly`: the two reports.
- `Decimal`: `str(n)` and `{n:02d}`.

`cargar_ultimo_evento_hoy` keeps each person's last matching row in file order, not the row with the latest timestamp. The two differ when rows are out of timestamp order (scripts/control_asistencia.py:32-35). `DailyState.Rebuild` and `DailyState.RebuildLastRow` model and state the file-order rule.

## Model

| member | source | states |
|---|---|---|
| Admission.CanRegister | scripts/control_asistencia.py:43-62 | The request is allowed exactly when the mode is IN and the last event today is not IN, or the mode is OUT and there is a last event that is not OUT. An allow never carries a reason and a deny always does. The reason is "modo NONE" for mode NONE and "modo desconocido" for any other unknown mode. It is "IN duplicado hoy", "OUT duplicado hoy" or "OUT sin IN previo hoy" for the three blocked cases. |
| Admission.KeyCode | scripts/control_asistencia.py:92 | `waitKey(1) & 0xFF` is a code in 0..255 congruent to the raw value modulo 256. It is the raw value itself when that is already in range, so the no-key answer -1 becomes 255. |
| Admission.SetModeFromKey | scripts/control_asistencia.py:67-74 | Key `i` selects IN, `o` selects OUT, `n` selects NONE, and every other key keeps the current mode. |
| Admission.KeysKeepModeKnown | scripts/control_asistencia.py:62-74 | From the initial mode NONE (or any known mode), no key sequence leaves {IN, OUT, NONE}. So the "modo desconocido" denial never arises in the loop, whatever the person's last event. |
| Admission.LastModeKeyWins | scripts/control_asistencia.py:65-74 | After a run of keys the mode is the starting one if the run has no mode key. Otherwise it is the choice of the last mode key in the run, whatever non-mode keys follow it. |
| Admission.SetModeIdempotent | scripts/control_asistencia.py:67-74 | Pressing the same key twice has the effect of pressing it once. |
| DailyState.DatePrefix | scripts/control_asistencia.py:33 | `split(' ')[0]` is the prefix of the timestamp that contains no space and is followed by a space or by the end of the text. |
| DailyState.DatePrefixOfStamp | scripts/control_asistencia.py:33 | A timestamp written as `<date> <time>` has `<date>` as its date prefix. |
| DailyState.Rebuild | scripts/control_asistencia.py:32-35 | The replay of the rows in file order, in which each row dated `day` sets its name's entry to its event and other rows are skipped. Its meaning is stated by `DailyState.RebuildLastRow` and `DailyState.RebuildIsLastDayEvent`. |
| DailyState.LoadLastEventToday | scripts/control_asistencia.py:26-38 | A missing log file yields the empty map. Otherwise the loop over the rows computes the file-order replay `Rebuild` of the rows dated today. |
| DailyState.RebuildLastRow | scripts/control_asistencia.py:32-35 | A name has an entry exactly when some row of the day is its own. The entry is the event of the last such row in file order: no later row of that name and day exists. |
| DailyState.RebuildIsLastDayEvent | scripts/control_asistencia.py:32-35 | The entry of a name is the last of its events of the day, and there is no entry when it has none. |
| DailyState.RebuildAppend | scripts/control_asistencia.py:126-127 | Rebuilding after appending a row of the cached day equals the in-memory update `cache[name] = modo`. A row of another day leaves the rebuild unchanged. |
| DailyState.DayEventsAppend | scripts/control_asistencia.py:126 | Appending a row adds one event at the end of its own person's and day's events, and changes no other person's or day's events. |
| AttendanceLoop.Start | scripts/control_asistencia.py:40-41 | The loop starts in mode NONE with the cache loaded for today. The cache is consistent with the log, and its keys are the people with an event today. |
| AttendanceLoop.Rollover | scripts/control_asistencia.py:87-89 | On the cached day nothing changes. On a new day the cache is rebuilt for that day and is consistent with the log. Mode and log are never touched. |
| AttendanceLoop.RolloverIdempotent | scripts/control_asistencia.py:87-89 | Repeating the day-change check on the same day is a no-op. |
| AttendanceLoop.LogRow | scripts/control_asistencia.py:125-126 | The appended row carries the person, the mode as event and the capture point. Read back by the cache rebuild, its timestamp gives the day it was written on. |
| AttendanceLoop.Admit | scripts/control_asistencia.py:115-132 | An unmatched face or a denied request changes nothing. An admitted one appends exactly one row, stamped today with the current mode, and sets that person's cache entry to the mode. It leaves every other person's entry as it was. Afterwards the person seen is recorded in the mode: always in mode IN, and in mode OUT when they had an event today. No entry disappears, and on the cache's own day the cache stays the replay of the log. |
| AttendanceLoop.AdmitAll | scripts/control_asistencia.py:105-134 | Processing a frame's faces in capture order only appends to the log, at most one row per face. In mode IN every matched face ends up with entry IN. In mode OUT every matched face that had an event today ends up with entry OUT. Entries already equal to the mode stay, none disappears, and on the cache's own day the cache stays the replay of the log. |
| AttendanceLoop.AdmitAllKeepsInv | scripts/control_asistencia.py:105-134 | Processing all faces of a frame on the cache's own day keeps the cache consistent with the log and keeps every person's days alternating. |
| AttendanceLoop.Tick | scripts/control_asistencia.py:81-95 | With no frame the loop stops unchanged. Key `q` stops it after the day-change check. With any other key the loop keeps running, the mode follows the key, the cached day becomes today and the log only grows. Afterwards the cache is the replay of the log for today, both when it was rebuilt for a new day and when it was consistent on the same day. The frame's matched faces are recorded in the new mode, in mode OUT those with an event today. |
| AttendanceLoop.Run | scripts/control_asistencia.py:81-134 | Running the loop over any frames only appends to the log. |
| AttendanceLoop.AdmitKeepsInvFor | scripts/control_asistencia.py:121-127 | Admitting a face on the cache's day keeps the cache equal to the rebuild of the log, the mode known and the tracked person's day alternating. |
| AttendanceLoop.AdmitAllKeepsInvFor | scripts/control_asistencia.py:105-134 | A frame's faces keep that per-person, per-day invariant. |
| AttendanceLoop.TickKeepsInvFor | scripts/control_asistencia.py:81-134 | Every tick keeps that per-person, per-day invariant, including across a day change. |
| AttendanceLoop.RunKeepsInvFor | scripts/control_asistencia.py:81-134 | Every run of ticks keeps that per-person, per-day invariant. |
| AttendanceLoop.InvIsInvForAll | scripts/control_asistencia.py:81-134 | The whole-log invariant is exactly the per-day invariant for every person and every day. |
| AttendanceLoop.AdmitKeepsInv | scripts/control_asistencia.py:121-127 | Admitting a face on the cache's day keeps the cache equal to the rebuild of the log and keeps every person's day alternating. |
| AttendanceLoop.TickKeepsInv | scripts/control_asistencia.py:81-134 | Every tick keeps that invariant, including across a day change. |
| AttendanceLoop.RunKeepsInv | scripts/control_asistencia.py:81-134 | Every run of ticks keeps that invariant. |
| AttendanceLoop.EventsAlternate | scripts/control_asistencia.py:43-127 | For any person and day whose events in the starting log alternate, those events keep alternating IN, OUT, IN, … starting with IN through any run. Nothing is asked of other people or days. This rules out double check-ins, a check-out without a check-in and double check-outs, and the mode stays known. |
| AttendanceLoop.FreshDayAlternates | scripts/control_asistencia.py:43-127 | A day without events in the starting log alternates after any run, whatever the log holds for other days. |
| AttendanceLoop.EmptyLogAlternates | scripts/control_asistencia.py:17 | A freshly created log (header only) meets the alternation precondition. |
| AttendanceLoop.SamePersonTwiceInOneFrame | scripts/control_asistencia.py:105-127 | The same person matched twice in one frame is logged at most once. |
| AttendanceLoop.NewDayAdmitsIn | scripts/control_asistencia.py:87-127 | On the first frame of a new day whose mode after the key is IN, a person with no event that day is admitted IN whatever the stale cache said, and the row carries the new date. This covers a frame with no key pressed (code 255) while the mode is already IN. |
| AttendanceLoop.TickWithClock | scripts/control_asistencia.py:81-127 | The tick with rows stamped by a separate clock reading. It is `Tick` when both readings give the same day. |
| AttendanceLoop.MidnightRace | scripts/control_asistencia.py:87-127 | From a state that meets the invariant, a tick that begins on one day and stamps its row on the next breaks the alternation. |
| AttendanceLoop.StartWithClock | scripts/control_asistencia.py:26-41 | The start-up with the cache loaded for one clock reading and labelled with another. It is `Start` when both readings give the same day. |
| AttendanceLoop.StartupRace | scripts/control_asistencia.py:26-41 | From an alternating log, a start-up whose two clock readings straddle midnight makes the first tick of the new day refuse an IN to someone with no event that day, and let them OUT, which breaks the alternation. |
| NameNormalization.IsSpace | scripts/generar_codificaciones.py:22 | The whitespace set of `\s` and of `strip()`, which is Python's `str.isspace`: the controls 9-13 and 28-31, the space, U+0085, U+00A0, U+1680, U+2000-U+200A, U+2028, U+2029, U+202F, U+205F and U+3000. |
| NameNormalization.Stem | scripts/generar_codificaciones.py:16 | `Path(fn).stem` drops everything from the last dot when that dot is neither the first nor the last character. Otherwise the name is unchanged. |
| NameNormalization.StemDropsExtension | scripts/generar_codificaciones.py:16 | For a non-empty base and a non-empty dot-free extension, the stem of `base.ext` is `base`. |
| NameNormalization.StripNumberSuffix | scripts/generar_codificaciones.py:18 | `re.sub(r'[_-]\d+$', '', s)` removes exactly the separator and digit run that ends the text (or ends before a final newline) when there is one. Otherwise the text is unchanged. |
| NameNormalization.NumberSuffixUnique | scripts/generar_codificaciones.py:18 | At most one such run can match, so at most one is removed. |
| NameNormalization.ReplaceSeparators | scripts/generar_codificaciones.py:20 | Every `-` and `_` becomes a space, every other character stays, and the length is kept. |
| NameNormalization.CollapseSpaces | scripts/generar_codificaciones.py:22 | `re.sub(r'\s+', ' ', s)` leaves no two adjacent whitespace characters and no whitespace other than a space. The result is empty exactly when the input is, and it starts with whitespace exactly when the input does. |
| NameNormalization.CollapseIsSqueeze | scripts/generar_codificaciones.py:22 | The collapse equals an independent left-to-right reading. Each whitespace character becomes a space when the character before it is not whitespace and vanishes when it is. Every other character is copied. |
| NameNormalization.CollapseRun | scripts/generar_codificaciones.py:22 | A word, then a non-empty run of whitespace, then a text not starting with whitespace collapse to the word, one space and the collapsed rest. |
| NameNormalization.CollapseKeepsText | scripts/generar_codificaciones.py:22 | Collapsing keeps the sequence of non-whitespace characters as it was. |
| NameNormalization.TrimStart | scripts/generar_codificaciones.py:22 | The `lstrip()` half of `strip()` returns a suffix of its input. Everything it drops is whitespace, and the result does not start with whitespace. |
| NameNormalization.TrimEnd | scripts/generar_codificaciones.py:22 | The `rstrip()` half of `strip()` returns a prefix of its input. Everything it drops is whitespace, and the result does not end with whitespace. |
| NameNormalization.Strip | scripts/generar_codificaciones.py:22 | `strip()` returns a slice of its input that starts right after the leading whitespace and neither starts nor ends with whitespace. |
| NameNormalization.StripDropsOnlySpaces | scripts/generar_codificaciones.py:22 | Everything `strip()` removes on either side is whitespace. |
| NameNormalization.NormalizeName | scripts/generar_codificaciones.py:11-23 | The normalised name contains no `-` and no `_`, has no whitespace at either end and never has two adjacent whitespace characters. |
| NameNormalization.NormalizeDropsExtension | scripts/generar_codificaciones.py:16-23 | The extension is removed before any other step: `base.ext` normalises like the bare stem `base`. |
| NameNormalization.PhotoNameFormat | scripts/generar_codificaciones.py:12-23 | A file named `<NAMES-WITH-HYPHENS>_<SURNAMES-WITH-HYPHENS>_<N>.<ext>` normalises to the names and surnames joined by single spaces. |
| NameNormalization.Lower | scripts/generar_codificaciones.py:28 | `fn.lower()` keeps the length and lowers each ASCII capital to its small letter, leaving every other character as it is. |
| NameNormalization.IsImageFile | scripts/generar_codificaciones.py:28 | The filter `fn.lower().endswith(('.jpg', '.jpeg', '.png'))`. Its meaning is stated by `NameNormalization.ImageFileByExtension` and `NameNormalization.ImageFileIgnoresCase`. |
| NameNormalization.ImageFileIgnoresCase | scripts/generar_codificaciones.py:28 | Two file names that differ only in letter case are both accepted or both rejected. |
| NameNormalization.ImageFileByExtension | scripts/generar_codificaciones.py:28 | `base.ext`, with a dot-free `ext`, is accepted exactly when `ext` in lower case is `jpg`, `jpeg` or `png`. |
| Reports.InPeriod | scripts/reporte_mensual.py:24 | A row lies in a period when its date is that day, or its year and month are those of the month. |
| Reports.Counted | scripts/reporte_diario.py:24-27 | A row counts for a period when it lies in the period and its `evento` is `IN`. |
| Reports.CountedNamesCount | scripts/reporte_diario.py:24-27 | The names of the IN rows of a period contain each person as often as that person has IN rows in the period, and their number is the number of such rows. |
| Reports.LexLess | scripts/reporte_diario.py:34 | Python's `<` on str, which `sort_values` applies to `nombre`. It compares code point by code point, and a proper prefix comes first. |
| Reports.Before | scripts/reporte_diario.py:34 | The sort key `["asistencias", "nombre"], ascending=[False, True]`. A line comes first when it has more IN rows, or as many and a smaller name. |
| Reports.LexLessTotal | scripts/reporte_diario.py:34 | Python's string order ranks any two different names one way or the other. |
| Reports.LexLessTransitive | scripts/reporte_diario.py:34 | Python's string order is transitive. |
| Reports.Insert | scripts/reporte_diario.py:34 | Inserting a line into ordered lines gives ordered lines made of the old lines plus the new one. |
| Reports.SortEntries | scripts/reporte_diario.py:34 | Sorting gives lines in report order (count descending, then name ascending) made of exactly the input lines. |
| Reports.OrderedUnique | scripts/reporte_diario.py:34 | Two arrangements of the same lines that are both in report order are equal, so the output order is fully determined. |
| Reports.Distinct | scripts/reporte_diario.py:31 | The group keys are the names that occur, each exactly once. |
| Reports.Tally | scripts/reporte_diario.py:31-33 | `size()` gives one line per key, carrying the key's number of occurrences. |
| Reports.TallySum | scripts/reporte_diario.py:31-33 | The group sizes add up to the number of rows grouped. |
| Reports.SumPerm | scripts/reporte_diario.py:34 | Reordering lines does not change the total of their counts. |
| Reports.CountReport | scripts/reporte_diario.py:30-35 | The counted report is in report order with distinct names. Each line's count is that name's number of occurrences and is positive. Exactly the occurring names have a line, and the counts sum to the number of names. |
| Reports.PeriodReport | scripts/reporte_mensual.py:24-31 | The report of a period meets the description: ranked, one line per person with an IN row in the period, carrying that person's IN-row count. The counts sum to the period's number of IN rows. |
| Reports.DescribesUnique | scripts/reporte_diario.py:30-35 | Two outputs that both meet the description are equal. |
| Reports.EmptyReport | scripts/reporte_diario.py:27-41 | A report has no lines exactly when the period has no IN row, for example a latest day with only OUT rows. |
| ReportDaily.LatestDate | scripts/reporte_diario.py:20-23 | `df["fecha"].max()` is a date that occurs in the log and that no row's date exceeds, whatever the row's event. |
| ReportDaily.Daily | scripts/reporte_diario.py:9-35 | There is no report exactly when the log is missing or empty. Otherwise the report covers the latest date over all rows and meets the description for that day, and its counts sum to the day's number of IN rows. |
| ReportMonthly.LatestYear | scripts/reporte_mensual.py:18-21 | The latest year occurs in the log and no row's year exceeds it. |
| ReportMonthly.LatestMonthIn | scripts/reporte_mensual.py:19-22 | For a year with rows, the result is the largest month of that year's rows. For a year without rows it is the empty answer, which pandas gives as NaN. |
| ReportMonthly.Monthly | scripts/reporte_mensual.py:9-33 | There is no report exactly when the log is missing or empty. Otherwise the report's (year, month) occurs in the log and is the lexicographically latest (year, month). The report meets the description for that month, its counts sum to the month's IN rows, and its file name is that month's. |
| ReportMonthly.SameLatestMonth | scripts/reporte_mensual.py:21-22 | The monthly report covers the month of the day the daily report covers. |
| ReportMonthly.FileName | scripts/reporte_mensual.py:33 | The file name is `reporte_mensual_`, the year, `_`, the month and `.csv`. The year is a decimal text without leading zeros that reads back as the year. The month is a decimal text that reads back as the month. It is exactly two digits long below 100 and has no leading zero when longer. |
| ReportMonthly.FileNameInjective | scripts/reporte_mensual.py:33 | Different (year, month) pairs get different file names, so one month's report never overwrites another's. |
| Decimal.IsDigit | scripts/generar_codificaciones.py:18 | The characters `\d` matches in the number suffix, read as the ASCII digits `0`-`9`. |
| Decimal.Show | scripts/reporte_mensual.py:33 | `str(n)` is a non-empty digit text with no leading zero, one digit long exactly for n < 10. |
| Decimal.ValueShow | scripts/reporte_mensual.py:33 | Reading back `str(n)` gives n. |
| Decimal.Pad2 | scripts/reporte_mensual.py:33 | `{n:02d}` is a digit text of at least two characters, exactly two for n < 100, with no leading zero when longer than two. |
| Decimal.ValuePad2 | scripts/reporte_mensual.py:33 | Reading back `{n:02d}` gives n. |

## Left out

- Camera capture, the OpenCV window, drawing and the "Estado actual" overlay (scripts/control_asistencia.py:77-79, 98-100, 136-176) are I/O and UI. A missing frame is the `frameOk` input.
- Face detection, encodings and the distance test against `TOL` (scripts/control_asistencia.py:110-116) are floating-point foreign calls. A detection is an oracle input, either unmatched or matched to a name with its distance text, and the `:.4f` and `:.2f` formatting of the distance is not modelled.
- The clock is an input. The model reads it once per tick, as `Input.today` plus a time of day per match. The script reads it separately at lines 27, 41, 87, 89 and 125. The consequences of the readings at 27 and 41, and of those at 87 and 125, falling on different days are recorded under Findings.
- The enrolment loop, face encoding, the averaging with `np.mean`, pickle and `os.listdir` (scripts/generar_codificaciones.py:25-46) are I/O and floating point. Only `normalize_name` and the extension filter are modelled.
- `utils/io.py` (`ensure_csv`, `append_csv`) is file I/O. The log is the sequence of data rows, and appending adds one row at the end.
- CSV parsing, pandas timestamp parsing and `to_csv` are not modelled. The attendance log is modelled as raw text fields, and the reports take already-parsed records (date, name, event).
- Unparseable timestamps (NaT), missing names (NaN) and malformed CSV lines are not modelled, because they are pandas and csv error paths outside the logic.
- The `[LOG]` and `[SKIP]` console lines of the camera loop (scripts/control_asistencia.py:128, 132) are output only. They are the only use of the denial reason, which `Admission.CanRegister` still computes.
- The console messages of the reports (scripts/reporte_diario.py:10, 16, 40-41; scripts/reporte_mensual.py:10, 15, 36-37) are not modelled. The missing and empty cases are the `None` result, and the "no IN rows" case is an empty line list.
- Decimal.IsDigit: `\d` is modelled as the ASCII digits only, while Python's `\d` also matches other Unicode decimal digits.
- NameNormalization.Lower: `str.lower()` is modelled on ASCII letters only. No non-ASCII character lowers to a letter of `jpg`, `jpeg` or `png`, but the model does not prove that.
- NameNormalization.Stem: the argument is treated as a bare directory entry, since `os.listdir` gives names without slashes. Path separators are not modelled.
- Admission.KeyCode: the key code from OpenCV is an integer input. What `waitKey` returns for special keys is not modelled beyond the `& 0xFF` mask.

## Findings

| source | as written | input that shows it | evidently intended | confidence | as-written member | corrected member |
|---|---|---|---|---|---|---|
| scripts/control_asistencia.py:87-89, 125 | The day-change check reads the clock at the top of the loop. The admitted row is stamped with a later `datetime.now()`. | A person checked IN on day D. The loop is in mode OUT, and a frame whose tick starts before midnight of D has its row written after midnight. The cache of D allows the OUT, and the row is dated D+1, so D+1 begins with OUT. | Each tick uses one date for the cache and for the rows it writes, so every day's events alternate starting with IN. | medium, not executed | AttendanceLoop.MidnightRace (on AttendanceLoop.TickWithClock) | AttendanceLoop.Tick with AttendanceLoop.TickKeepsInv and AttendanceLoop.EventsAlternate |
| scripts/control_asistencia.py:27-41 | The cache is loaded for the day read inside `cargar_ultimo_evento_hoy`. It is labelled with a second `date.today()` taken after the load. | The script starts just before midnight of day D, and the two readings give D and D+1. The cache holds D's last events but is labelled D+1, so the day-change check never reloads it during D+1. A person whose last event on D is IN and who has no event on D+1 is refused IN ("IN duplicado hoy"), and in mode OUT is let out, so D+1 begins with OUT. | The cache is loaded and labelled with one reading of the date, so it always describes its own day. | medium, not executed | AttendanceLoop.StartupRace (on AttendanceLoop.StartWithClock) | AttendanceLoop.Start with AttendanceLoop.EventsAlternate |
