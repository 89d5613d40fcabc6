# Face-recognition attendance: the decision layer, in Dafny

This project models the logic that sits between the face-embedding calls and the
attendance CSV file in a classroom attendance tool. It covers two programs.

- The web app (`src/app.py`) has four parts:
  - a lecture-slot policy: two fixed windows, each with an on-time cutoff;
  - the nearest-match decision made on every video frame;
  - `mark_attendance`, which appends at most one row per student, lecture slot and day
    within one run of the app (`logged_today` is in memory and starts empty, so a
    restart can mark the same slot again);
  - the dashboard's late alert (`check_late`) and its latecomer figure (`late_count`).
- The command-line logger (`src/recognize_and_log.py`) uses the same nearest-match
  decision. Within one run it logs each recognised name at most once per 300-second
  cooldown (`last_logged` is in memory and starts empty, so a restart can log the
  same name again at once), and it keeps a running count.

Files, one module each:

| file | module | models |
|---|---|---|
| `options.dfy` | `Options` | Python's `None`-or-value results |
| `text.dfy` | `Text` | the string operations the core uses: `in`, `split(",")`, `split()`, `strip()`, `s[:n]`, string `<=`, and comma-joined CSV rows |
| `clock.dfy` | `Clock` | the time of day in microseconds, the `%Y-%m-%d` day key, and the `%Y-%m-%d %H:%M:%S` timestamp |
| `lecture_slots.dfy` | `LectureSlots` | `get_lecture_slot`, `is_on_time`, and the slot constants |
| `matching.dfy` | `Matching` | `np.argmin` and the threshold decision |
| `ledger.dfy` | `Ledger` | the rows `mark_attendance` writes, and the `logged_today` index |
| `dashboard.dfy` | `Dashboard` | the `late_count` expression of the index page |
| `app.dfy` | `App` | the web app's state as a class: frame loop, `mark_attendance`, `check_late` |
| `cooldown_log.dfy` | `CooldownLog` | the logger's state as a class: one loop step, and the loop itself |

Inputs from outside the model are passed in as parameters:

- Each frame arrives as a `Detection`. It is either `Failed` (anything in the `try` block raised) or the list of distances to each roster entry, as reals.
- The current time arrives as an `Instant`: a day key plus the time of day.
- The logger's clock arrives as a `Reading`: microseconds since `datetime.min`, plus its timestamp text.
- The attendance file is the sequence of its rows. Each row is a sequence of fields.

The model follows the code on these points:

- The name for "nobody recognised" is "Unknown".
- An empty roster does not fail at start-up. `np.argmin` raises on every frame instead, and the broad `except` turns that into `"Unknown"`.
- The two programs use different thresholds: 2.5 in the app and 1.2 in the logger.
- `mark_attendance` has no lock around its check and its append.

## Model

| member | source | states |
|---|---|---|
| `LectureSlots.GetLectureSlot` | src/app.py:44-50 | Slot 1 exactly when 08:00 ≤ t ≤ 11:00, Slot 2 exactly when 11:30 ≤ t ≤ 14:30 (all bounds inclusive), no slot otherwise |
| `LectureSlots.SlotsDisjoint` | src/app.py:24-28 | the two windows never overlap, and slot 1 closes before slot 2 opens |
| `LectureSlots.SlotBoundaries` | src/app.py:24-28 | 07:59:59.999999 and 11:29:59.999999 are outside; 08:00, 11:00, 11:30 and 14:30 are inside; one microsecond after 11:00 and after 14:30 is outside |
| `LectureSlots.IsOnTime` | src/app.py:52-58 | on time exactly when the slot is slot 1 and the arrival is at or before 08:05, or the slot is slot 2 and the arrival is at or before 11:35; any other slot text is never on time, and nobody is on time after slot 2 closes |
| `LectureSlots.OnTimeCutoffs` | src/app.py:52-58 | arriving exactly at 08:05 (slot 1) or 11:35 (slot 2) is on time, one microsecond later is late, and any other slot text is never on time |
| `LectureSlots.OnTimeWithinSlot` | src/app.py:52-58 | inside a window, on time means at or before that window's cutoff; every slot-1 arrival from 09:30 on is late |
| `LectureSlots.Status` | src/app.py:351 | the status column is "On Time" or "Late", and "Late" exactly when not on time |
| `Matching.ArgMin` | src/app.py:77 | the result is the first index at which the distances take their minimum |
| `Matching.FirstMinimumUnique` | src/app.py:77 | only one index is the first minimum, so the tie-break is deterministic |
| `Matching.Recognize` | src/app.py:76-81 | for the first minimal index k: the name at k if its distance is strictly below the threshold, otherwise "Unknown"; a failed detection or an empty roster gives "Unknown"; the result is always "Unknown" or a roster name |
| `Matching.FarFromEveryoneIsUnknown` | src/app.py:79-80 | a face at or beyond the threshold from every entry (a distance equal to the threshold included) is "Unknown" |
| `Matching.ExactMatchRecognized` | src/recognize_and_log.py:45-49 | a face at distance 0 from entry i, with no earlier entry also at 0, is recognised as entry i |
| `Text.SplitJoin` | src/app.py:109 | `split(",")` of a comma-joined row without commas in its fields gives back the fields |
| `Text.WordsOfPair` | src/app.py:109 | `split()` of "date time" gives the two words |
| `Clock.ClockText` | src/app.py:356 | `%H:%M:%S` is eight characters, has no space or comma, and starts with `%H:%M` |
| `Clock.StampWords` | src/app.py:109 | the timestamp splits on whitespace into the day key and the clock text |
| `Clock.HourMinuteOrder` | src/app.py:109 | zero-padded `HH:MM` texts compare as strings exactly as their minutes of the day compare |
| `Clock.HourMinuteLeadingDigit` | src/app.py:356 | the hour's first digit is '0', '1' or '2' |
| `Ledger.LedgerAfter` | src/app.py:352-356 | the file keeps its earlier rows, gains one row per mark, and gains the header only when it was empty at the first mark |
| `Ledger.LedgerAfterAppend` | src/app.py:352-356 | one more mark appends the header (only if the file is empty) and then exactly its row |
| `Ledger.Record` | src/app.py:357 | adding a slot for one day and name adds exactly that slot there and leaves every other day and name unchanged |
| `Ledger.IndexOfMarks` | src/app.py:348-357 | after a run, `logged_today[date][name]` holds a slot exactly when a mark of this run was for that date, name and slot |
| `Ledger.UniqueAppend` | src/app.py:348-357 | a mark for a slot the index does not hold yet keeps the run's marks free of repeated (date, name, slot) |
| `Ledger.MarkKeepsConsistent` | src/app.py:345-357 | a successful mark keeps the file, the index and the run's marks in step: one row per mark, index equal to the marks, no repeats |
| `App.MarkDecision` | src/app.py:338-351 | refusals come in this order: "Unknown" name, then no slot, then slot already marked for that name today; a success carries the current slot and the on-time status |
| `App.RepeatRefused` | src/app.py:348-357 | after a success, the same name in the same slot on the same day is refused as already marked |
| `App.LateDecision` | src/app.py:325-333 | alert only during slot 1 from 09:30 on, when the stripped last line says "Late" and is not inside the line stored for today, and always in that case; reading an empty file raises |
| `App.AlertOnce` | src/app.py:330-332 | once a last line has raised the alert and been stored, the same last line never raises it again that day |
| `App.AttendanceApp.constructor` | src/app.py:33-36 | at start-up the latest name is "Unknown", the per-day index is empty, and the file keeps its rows |
| `App.AttendanceApp.ObserveFrame` | src/app.py:70-98 | the latest name becomes the frame's decision at threshold 2.5, and "Unknown" on any failure |
| `App.AttendanceApp.StreamFrames` | src/app.py:60-104 | after a stretch of frames, the latest name is the decision on the last frame |
| `App.AttendanceApp.MarkAttendance` | src/app.py:336-358 | answer as `MarkDecision`; a refusal changes nothing; a success appends the header only if the file was empty, then `[name, timestamp, status, slot]`, and records the slot; file, index and marks stay consistent |
| `App.AttendanceApp.CheckLate` | src/app.py:324-333 | answer as `LateDecision` on today's stored line, which is replaced by the alerting line on an alert and left alone otherwise |
| `App.AttendanceApp.LatecomerCount` | src/app.py:108-109 | the figure as the index page computes it, with "9:30": on a file this run filled from empty it is always 0 |
| `App.AttendanceApp.IntendedLatecomerCount` | src/app.py:108-109 | with the corrected bound "09:30", on a file this run filled from empty, the figure is the number of slot-1 arrivals at 09:30 or later |
| `Dashboard.LateCountFrom` | src/app.py:109 | the count exists exactly when no line makes the filter raise, and it is at most the number of lines |
| `Dashboard.LateCount` | src/app.py:109 | `late_count` as written, with the lower bound "9:30": it is at most the number of lines, and, when no line makes the filter raise, it is 0 whenever every line's time field is absent, empty or starts with a character below '9', as every zero-padded hour does |
| `Dashboard.EarlyLinesNotCounted` | src/app.py:109 | with the bound "9:30", lines whose time fields sort before '9' add nothing to the count |
| `Dashboard.HeaderNotCounted` | src/app.py:109 | the header line is never counted |
| `Dashboard.MarkNeverCounted` | src/app.py:109 | with the bound as written ("9:30"), no line that `mark_attendance` writes is counted |
| `Dashboard.MarkCountedWhenLate` | src/app.py:109 | with the bound "09:30", a mark's line is counted exactly when it is in slot 1 at 09:30 or later |
| `Dashboard.LateCountOfAppLedger` | src/app.py:108-109 | as written, the figure is 0 on every file `mark_attendance` filled from empty |
| `Dashboard.IntendedLateCountOfAppLedger` | src/app.py:108-109 | with the bound "09:30", the figure is the number of slot-1 arrivals at 09:30 or later |
| `Dashboard.LateArrivalMissed` | src/app.py:109 | a late slot-1 arrival at 09:45 counts 0 as written and 1 with the bound "09:30" |
| `CooldownLog.Due` | src/recognize_and_log.py:63 | logging needs a recognised name and a clock past `datetime.min` plus 300 s; a recognised name logged before is due exactly when more than 300 s have passed since its last logging; a name never logged is due exactly when the clock is past `datetime.min` plus 300 s |
| `CooldownLog.FirstSightingDue` | src/recognize_and_log.py:20-21 | a name not yet logged in this run is due, because its default last time is `datetime.min` |
| `CooldownLog.DueKeepsSeparated` | src/recognize_and_log.py:63-70 | logging a due name keeps any two loggings of one name more than 300 s apart |
| `CooldownLog.CooldownLogger.constructor` | src/recognize_and_log.py:19-22 | at start-up nothing is logged, `last_logged` is empty and the count is 0 |
| `CooldownLog.CooldownLogger.Step` | src/recognize_and_log.py:38-80 | it logs exactly when the frame's name (threshold 1.2) is not "Unknown" and was last logged strictly more than 300 s ago. Then `last_logged[name]` becomes now, the count goes up by 1, and the file gains `[name, timestamp]` (after `["Name","Timestamp"]` only if it was empty). Otherwise, a failed detection included, nothing changes. Invariant: the count equals the rows logged this run, "Unknown" is never logged, and loggings of one name are more than 300 s apart |
| `CooldownLog.StopAt` | src/recognize_and_log.py:32-84 | the loop stops at the first unreadable frame, or just after the first captured frame on which 'q' was pressed, or at the end of the frames; every frame before that point was captured, and none before the last was quit |
| `CooldownLog.RunEntries` | src/recognize_and_log.py:32-70 | the loggings over a stretch of frames, ending at the first unreadable one: at most one per frame, each for a roster name other than "Unknown" |
| `CooldownLog.RunLastLoggedGrows` | src/recognize_and_log.py:21-70 | over a stretch of frames `last_logged` only gains roster names other than "Unknown", and no recorded time moves back |
| `CooldownLog.CooldownLogger.Run` | src/recognize_and_log.py:32-84 | the loop steps exactly the frames up to `StopAt`. The loggings it adds are `RunEntries` over those frames, `last_logged` ends as `RunLastLogged` over them, and the count grows by the number of loggings. The file and the invariant of `Step` follow |

## Findings

| source | as written | input that shows it | evidently intended | confidence | as-written member | corrected member |
|---|---|---|---|---|---|---|
| src/app.py:109 | `"9:30" <= hh_mm <= "11:00"` compares strings. Every zero-padded `HH:MM` that line 356 writes starts with '0', '1' or '2', so it sorts before "9:30". The latecomer figure is therefore always 0 | a row marked "Late" in slot 1 at 09:45:00 | the lower bound "09:30", so that slot-1 arrivals from 09:30 to 11:00 are counted | high; not executed | `Dashboard.LateArrivalMissed` | `Dashboard.IntendedLateCountOfAppLedger` |

`Dashboard.LateCount` and `App.AttendanceApp.LatecomerCount` keep the bound as written. `Dashboard.IntendedLateCount` and `App.AttendanceApp.IntendedLatecomerCount` use the corrected bound.

## Left out

- Webcam capture, OpenCV drawing, JPEG encoding, the multipart stream and the preview window are left out. They are device and image I/O.
- DeepFace detection and embedding, and the `np.linalg.norm` distances, are left out. They are opaque library calls on floating point. Distances enter as a list of reals, so NaN is not modelled.
- The Flask routes, the HTML and JavaScript template, `get_latest_name` and the download route are left out. They are web plumbing. Of the index route, only the `late_count` expression is modelled.
- Concurrency is left out. The frame generator and the request handlers share `latest_name` and `logged_today` without a lock. `MarkAttendance` is modelled as one sequential call that takes the latest name as a parameter.
- `src/build_database.py`, `src/preprocess.py`, `src/test_detection.py` and `src/test_webcam.py` are not part of this model. They hold directory walks, image I/O and webcam smoke tests.
- CSV quoting is left out. A row is its list of fields joined by commas. The late-count lemmas therefore assume names without commas.
- File errors are left out: a failed `open` or a failed write. An empty row list stands for both a missing file and an empty file. For `check_late` both raise.
- The outcome messages of `mark_attendance` are left out. Each message is represented by a constructor of `MarkOutcome`.
- The source looks up `logged_today[date][name]` and `last_logged[name]` through `defaultdict`. A lookup inserts an empty set or `datetime.min`. The model reads the same default without inserting it, which cannot be observed.
- The "last_check" key is modelled as a separate map. `check_late` stores its line under `logged_today[date]["last_check"]`, the same map that holds student names. A student named "last_check" would hit that string in `mark_attendance`. The model keeps the line in its own per-date map `lastCheck`, so that collision is not modelled.
- `CooldownLog.CooldownLogger.Step`: the timestamp text is taken from the clock reading as given. It is not derived from the microsecond count, because the calendar is not modelled. `total_seconds() > 300` is compared exactly in microseconds instead of in floating point.
- The logger's closing summary, which reads the file back and prints it, is left out. It is I/O.
- The web app's frame loop runs forever. The logger's loop runs until an unreadable frame or 'q'. The model runs both over a finite list of frames.
