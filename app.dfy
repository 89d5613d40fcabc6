/**
 * The web app's process-wide state and the operations that change it: the frame
 * loop's update of the latest recognised name, `mark_attendance`, and the late
 * alert behind `/check_late`. The CSV file is the `ledger` field (a sequence of
 * rows); `logged_today` is the nested map `loggedToday`.
 */
module App {
  import opened Options
  import opened Text
  import opened Clock
  import opened LectureSlots
  import opened Matching
  import opened Ledger
  import opened Dashboard

  /** The answer of `mark_attendance`, one constructor per message it returns. */
  datatype MarkOutcome =
    | NoStudent
    | OutsideHours
    | AlreadyMarked(slot: string)
    | Recorded(slot: string, status: string)

  /**
   * The checks of `mark_attendance`, in the order it makes them: no recognised name,
   * then no lecture slot now, then this slot already marked today for this name.
   */
  function MarkDecision(idx: Index, name: string, now: Instant): (r: MarkOutcome)
    ensures r == NoStudent <==> name == Unknown
    ensures r == OutsideHours <==> name != Unknown && GetLectureSlot(now.clock) == None
    ensures r.AlreadyMarked? <==>
      name != Unknown && GetLectureSlot(now.clock).Some? && GetLectureSlot(now.clock).value in Marked(idx, now.date, name)
    ensures r.AlreadyMarked? || r.Recorded? ==> Some(r.slot) == GetLectureSlot(now.clock)
    ensures r.Recorded? ==> r.status == (if IsOnTime(now.clock, r.slot) then "On Time" else "Late")
  {
    if name == Unknown then NoStudent
    else
      match GetLectureSlot(now.clock)
      case None => OutsideHours
      case Some(slot) =>
        if slot in Marked(idx, now.date, name) then AlreadyMarked(slot)
        else Recorded(slot, Status(now.clock, slot))
  }

  /** Once a mark is recorded, the same name in the same slot of the same day is refused. */
  lemma RepeatRefused(idx: Index, name: string, now: Instant, later: Instant)
    requires MarkDecision(idx, name, now).Recorded?
    requires later.date == now.date && GetLectureSlot(later.clock) == GetLectureSlot(now.clock)
    ensures MarkDecision(Record(idx, now.date, name, MarkDecision(idx, name, now).slot), name, later)
         == AlreadyMarked(MarkDecision(idx, name, now).slot)
  {
  }

  /** The answer of `/check_late`; `Raised` when reading the last line of the file fails. */
  datatype LateOutcome = Alert(line: string) | Quiet | Raised

  /** The last line of the file, stripped. */
  function LastLine(ledger: seq<seq<string>>): string
    requires ledger != []
  {
    Strip(Join(ledger[|ledger| - 1], ','))
  }

  /**
   * `check_late`: during slot 1, from 09:30 on, alert when the file's last line says
   * "Late" and is not part of the line that last raised the alert today (`stored`).
   */
  function LateDecision(now: Instant, ledger: seq<seq<string>>, stored: string): (r: LateOutcome)
    ensures r != Quiet ==> GetLectureSlot(now.clock) == Some(Slot1) && now.clock >= LateSoundCutoff
    ensures r == Raised <==> GetLectureSlot(now.clock) == Some(Slot1) && now.clock >= LateSoundCutoff && ledger == []
    ensures r.Alert? ==> ledger != [] && r.line == LastLine(ledger) && Contains(r.line, "Late") && !Contains(stored, r.line)
    ensures (ledger != [] && GetLectureSlot(now.clock) == Some(Slot1) && now.clock >= LateSoundCutoff
             && Contains(LastLine(ledger), "Late") && !Contains(stored, LastLine(ledger))) ==> r.Alert?
  {
    if GetLectureSlot(now.clock) == Some(Slot1) && now.clock >= LateSoundCutoff then
      if ledger == [] then Raised
      else
        var line := LastLine(ledger);
        if Contains(line, "Late") && !Contains(stored, line) then Alert(line) else Quiet
    else Quiet
  }

  /** Once a line has raised the alert and been stored, the same last line never raises it again. */
  lemma {:induction false} AlertOnce(now: Instant, later: Instant, ledger: seq<seq<string>>, stored: string)
    requires LateDecision(now, ledger, stored).Alert?
    ensures !LateDecision(later, ledger, LateDecision(now, ledger, stored).line).Alert?
  {
    ContainsSelf(LastLine(ledger));
  }

  /** `logged_today[date].get("last_check", "")`. */
  function StoredCheck(lastCheck: map<DateKey, string>, date: DateKey): string {
    if date in lastCheck then lastCheck[date] else ""
  }

  class AttendanceApp {
    /** `known_names`, the roster's names in roster order. */
    const knownNames: seq<string>
    /** `latest_name`, written by the frame loop. */
    var latestName: string
    /** `logged_today`, without its "last_check" entries. */
    var loggedToday: Index
    /** The "last_check" entry of `logged_today`, per date. */
    var lastCheck: map<DateKey, string>
    /** The rows of the attendance file. */
    var ledger: seq<seq<string>>

    /** The rows the file held when the process started. */
    ghost const existing: seq<seq<string>>
    /** The successful marks of this run, in order. */
    ghost var marks: seq<Mark>

    ghost predicate Valid()
      reads this
    {
      Consistent(existing, ledger, loggedToday, marks)
    }

    /** Process start: `latest_name` is "Unknown" and `logged_today` is empty; the file keeps its rows. */
    constructor (names: seq<string>, file: seq<seq<string>>)
      ensures Valid()
      ensures knownNames == names && latestName == Unknown && ledger == file && existing == file
      ensures marks == [] && loggedToday == map[] && lastCheck == map[]
    {
      knownNames := names;
      latestName := Unknown;
      loggedToday := map[];
      lastCheck := map[];
      ledger := file;
      existing := file;
      marks := [];
    }

    /** One pass of the frame loop: `latest_name` becomes the frame's decision. */
    method ObserveFrame(det: Detection)
      modifies this`latestName
      ensures latestName == Recognize(knownNames, det, AppThreshold)
    {
      latestName := Recognize(knownNames, det, AppThreshold);
    }

    /** The frame loop over a stretch of frames: `latest_name` is the decision on the last of them. */
    method StreamFrames(frames: seq<Detection>)
      modifies this`latestName
      ensures latestName == if frames == [] then old(latestName) else Recognize(knownNames, frames[|frames| - 1], AppThreshold)
    {
      var i := 0;
      while i < |frames|
        invariant 0 <= i <= |frames|
        invariant latestName == if i == 0 then old(latestName) else Recognize(knownNames, frames[i - 1], AppThreshold)
      {
        ObserveFrame(frames[i]);
        i := i + 1;
      }
    }

    /**
     * `mark_attendance` for the given name at the given instant. A refusal changes
     * nothing; a success appends one row (after the header if the file was empty)
     * and records the slot for this name and day.
     */
    method MarkAttendance(name: string, now: Instant) returns (r: MarkOutcome)
      requires Valid()
      modifies this`loggedToday, this`ledger, this`marks
      ensures Valid()
      ensures r == MarkDecision(old(loggedToday), name, now)
      ensures !r.Recorded? ==> ledger == old(ledger) && loggedToday == old(loggedToday) && marks == old(marks)
      ensures r.Recorded? ==>
        && marks == old(marks) + [Mark(name, now, r.slot)]
        && ledger == old(ledger) + (if old(ledger) == [] then [Header] else [])
                     + [[name, Stamp(now), r.status, r.slot]]
        && loggedToday == Record(old(loggedToday), now.date, name, r.slot)
        && r.slot in Marked(loggedToday, now.date, name)
    {
      if name == Unknown {
        return NoStudent;
      }
      var slot := GetLectureSlot(now.clock);
      if slot.None? {
        return OutsideHours;
      }
      if slot.value in Marked(loggedToday, now.date, name) {
        return AlreadyMarked(slot.value);
      }
      var status := Status(now.clock, slot.value);
      var row := [name, Stamp(now), status, slot.value];
      ghost var m := Mark(name, now, slot.value);
      assert row == RowOf(m);
      MarkKeepsConsistent(existing, ledger, loggedToday, marks, m);
      if ledger == [] {
        ledger := ledger + [Header];
      }
      ledger := ledger + [row];
      loggedToday := Record(loggedToday, now.date, name, slot.value);
      marks := marks + [m];
      r := Recorded(slot.value, status);
    }

    /** `check_late`: on an alert, the alerting line is stored for the day. */
    method CheckLate(now: Instant) returns (r: LateOutcome)
      modifies this`lastCheck
      ensures r == LateDecision(now, ledger, StoredCheck(old(lastCheck), now.date))
      ensures lastCheck == if r.Alert? then old(lastCheck)[now.date := r.line] else old(lastCheck)
    {
      var slot := GetLectureSlot(now.clock);
      if slot == Some(Slot1) && now.clock >= LateSoundCutoff {
        if ledger == [] {
          return Raised;
        }
        var line := LastLine(ledger);
        var stored := StoredCheck(lastCheck, now.date);
        if Contains(line, "Late") && !Contains(stored, line) {
          lastCheck := lastCheck[now.date := line];
          return Alert(line);
        }
      }
      r := Quiet;
    }

    /**
     * The dashboard's latecomer figure as the index page computes it, with the
     * lower bound "9:30". On a file this run filled from empty it is always 0.
     */
    function LatecomerCount(): (n: Option<nat>)
      reads this
      requires Valid()
      ensures existing == [] && (forall i :: 0 <= i < |marks| ==> ',' !in marks[i].name) ==>
        n == Some(0)
    {
      var lines := Lines(ledger);
      assert existing == [] && (forall i :: 0 <= i < |marks| ==> ',' !in marks[i].name) ==>
        LateCount(lines) == Some(0) by {
        if existing == [] && (forall i :: 0 <= i < |marks| ==> ',' !in marks[i].name) {
          assert forall i :: 0 <= i < |marks| ==> WellFormed(marks[i]);
          LateCountOfAppLedger(marks);
        }
      }
      LateCount(lines)
    }

    /**
     * The dashboard's latecomer figure with the zero-padded lower bound "09:30". On a
     * file this run filled from empty it is the number of slot-1 arrivals at 09:30 or later.
     */
    function IntendedLatecomerCount(): (n: Option<nat>)
      reads this
      requires Valid()
      ensures existing == [] && (forall i :: 0 <= i < |marks| ==> ',' !in marks[i].name) ==>
        n == Some(LateArrivals(marks))
    {
      var lines := Lines(ledger);
      assert existing == [] && (forall i :: 0 <= i < |marks| ==> ',' !in marks[i].name) ==>
        IntendedLateCount(lines) == Some(LateArrivals(marks)) by {
        if existing == [] && (forall i :: 0 <= i < |marks| ==> ',' !in marks[i].name) {
          assert forall i :: 0 <= i < |marks| ==> WellFormed(marks[i]);
          IntendedLateCountOfAppLedger(marks);
        }
      }
      IntendedLateCount(lines)
    }
  }
}
