/**
 * The command-line logger: every recognised face is logged to the CSV file,
 * at most once per cooldown period per name, and a running count is kept.
 * Time is `datetime.now()` as microseconds since `datetime.min`, together with
 * the timestamp text the clock gives for it.
 */
module CooldownLog {
  import opened Matching

  /** `cooldown_period`: 300 seconds, in microseconds. */
  const CooldownMicros := 300 * 1_000_000

  const Header: seq<string> := ["Name", "Timestamp"]

  /** A clock reading: microseconds since `datetime.min`, and its `strftime("%Y-%m-%d %H:%M:%S")` text. */
  datatype Reading = Reading(micros: nat, stamp: string)

  /**
   * One pass of the capture loop: a frame that could not be read ends the loop; a
   * captured frame carries its detection, the clock reading taken after the match,
   * and whether 'q' was pressed after it was shown.
   */
  datatype Frame = Unreadable | Captured(det: Detection, now: Reading, quit: bool)

  /** One logging: the name and the reading it was logged at. */
  datatype Entry = Entry(name: string, at: Reading)

  /** `last_logged[name]`, whose default is `datetime.min`. */
  function LastLogged(lastLogged: map<string, nat>, name: string): nat {
    if name in lastLogged then lastLogged[name] else 0
  }

  /** The logging condition: a recognised name, last logged strictly more than the cooldown ago. */
  predicate Due(lastLogged: map<string, nat>, name: string, now: Reading): (r: bool)
    ensures r ==> name != Unknown && now.micros > CooldownMicros
    ensures name != Unknown && name in lastLogged ==> (r <==> now.micros > lastLogged[name] + CooldownMicros)
    ensures name != Unknown && name !in lastLogged ==> (r <==> now.micros > CooldownMicros)
  {
    name != Unknown && now.micros - LastLogged(lastLogged, name) > CooldownMicros
  }

  /** A name never logged in this run is due as soon as the clock is past `datetime.min` plus the cooldown. */
  lemma FirstSightingDue(lastLogged: map<string, nat>, name: string, now: Reading)
    requires name !in lastLogged && name != Unknown && now.micros > CooldownMicros
    ensures Due(lastLogged, name, now)
  {
  }

  /** Any two loggings of one name are more than the cooldown apart. */
  ghost predicate Separated(entries: seq<Entry>) {
    forall i, j :: 0 <= i < j < |entries| && entries[i].name == entries[j].name ==>
      entries[j].at.micros - entries[i].at.micros > CooldownMicros
  }

  /** The rows logged, one `[name, timestamp]` per entry. */
  function EntryRows(entries: seq<Entry>): seq<seq<string>> {
    seq(|entries|, i requires 0 <= i < |entries| => [entries[i].name, entries[i].at.stamp])
  }

  /** The file after this run's entries: the header goes in only when the file was empty at the first one. */
  function LogAfter(existing: seq<seq<string>>, entries: seq<Entry>): seq<seq<string>> {
    existing + (if existing == [] && entries != [] then [Header] else []) + EntryRows(entries)
  }

  /**
   * Logging a due name keeps the loggings separated, given that every earlier
   * logging of a name is at or before its recorded time.
   */
  lemma {:induction false} DueKeepsSeparated(entries: seq<Entry>, lastLogged: map<string, nat>, e: Entry)
    requires Separated(entries)
    requires forall i :: 0 <= i < |entries| ==>
      entries[i].name in lastLogged && entries[i].at.micros <= lastLogged[entries[i].name]
    requires Due(lastLogged, e.name, e.at)
    ensures Separated(entries + [e])
  {
    var s := entries + [e];
    forall i, j | 0 <= i < j < |s| && s[i].name == s[j].name
      ensures s[j].at.micros - s[i].at.micros > CooldownMicros
    {
      assert s[i] == entries[i];
      if j < |entries| {
        assert s[j] == entries[j];
      }
    }
  }

  /**
   * Where the capture loop stops on `frames`: at the first unreadable frame, just
   * after the first captured frame on which 'q' was pressed, or at the end.
   */
  ghost function StopAt(frames: seq<Frame>): (r: nat)
    ensures r <= |frames|
    ensures forall j :: 0 <= j < r ==> frames[j].Captured?
    ensures forall j :: 0 <= j < r - 1 ==> !frames[j].quit
    ensures r < |frames| ==> frames[r].Unreadable? || (0 < r && frames[r - 1].quit)
  {
    if frames == [] || frames[0].Unreadable? then 0
    else if frames[0].quit then 1
    else 1 + StopAt(frames[1..])
  }

  /** The name a captured frame is recognised as by the logger, at threshold 1.2. */
  function Seen(names: seq<string>, f: Frame): string
    requires f.Captured?
  {
    Recognize(names, f.det, ScriptThreshold)
  }

  /** The logging one captured frame makes: its name, when that name is due. */
  function FrameEntries(names: seq<string>, lastLogged: map<string, nat>, f: Frame): seq<Entry>
    requires f.Captured?
  {
    if Due(lastLogged, Seen(names, f), f.now) then [Entry(Seen(names, f), f.now)] else []
  }

  /** `last_logged` after one captured frame: its name's time is recorded when it is due. */
  function AfterFrame(names: seq<string>, lastLogged: map<string, nat>, f: Frame): map<string, nat>
    requires f.Captured?
  {
    if Due(lastLogged, Seen(names, f), f.now) then lastLogged[Seen(names, f) := f.now.micros] else lastLogged
  }

  /**
   * The loggings made over `frames`, one per captured frame whose name is due,
   * with `last_logged` carried from frame to frame; an unreadable frame ends them.
   */
  function RunEntries(names: seq<string>, lastLogged: map<string, nat>, frames: seq<Frame>): (r: seq<Entry>)
    ensures |r| <= |frames|
    ensures forall k :: 0 <= k < |r| ==> r[k].name != Unknown && r[k].name in names
    decreases |frames|
  {
    if frames == [] || frames[0].Unreadable? then []
    else FrameEntries(names, lastLogged, frames[0]) + RunEntries(names, AfterFrame(names, lastLogged, frames[0]), frames[1..])
  }

  /** `last_logged` after the same frames, up to the first unreadable one. */
  function RunLastLogged(names: seq<string>, lastLogged: map<string, nat>, frames: seq<Frame>): map<string, nat>
    decreases |frames|
  {
    if frames == [] || frames[0].Unreadable? then lastLogged
    else RunLastLogged(names, AfterFrame(names, lastLogged, frames[0]), frames[1..])
  }

  /** Over a run, `last_logged` only gains recognised names of the roster, and no time in it moves back. */
  lemma {:induction false} RunLastLoggedGrows(names: seq<string>, lastLogged: map<string, nat>, frames: seq<Frame>)
    ensures forall n :: n in lastLogged ==>
      n in RunLastLogged(names, lastLogged, frames) && lastLogged[n] <= RunLastLogged(names, lastLogged, frames)[n]
    ensures forall n :: n in RunLastLogged(names, lastLogged, frames) && n !in lastLogged ==> n != Unknown && n in names
    decreases |frames|
  {
    if frames != [] && frames[0].Captured? {
      RunLastLoggedGrows(names, AfterFrame(names, lastLogged, frames[0]), frames[1..]);
    }
  }

  /**
   * Part way through a run: the loggings so far, followed by those the frames
   * still to come will make, are the loggings of the whole stretch `done`.
   */
  ghost predicate Remaining(names: seq<string>, lastLogged0: map<string, nat>, entries0: seq<Entry>, done: seq<Frame>,
                            lastLogged: map<string, nat>, entries: seq<Entry>, rest: seq<Frame>)
  {
    && entries0 + RunEntries(names, lastLogged0, done) == entries + RunEntries(names, lastLogged, rest)
    && RunLastLogged(names, lastLogged0, done) == RunLastLogged(names, lastLogged, rest)
  }

  /** Stepping the next captured frame moves the split point one frame on. */
  lemma RemainingStep(names: seq<string>, lastLogged0: map<string, nat>, entries0: seq<Entry>, done: seq<Frame>,
                      lastLogged: map<string, nat>, entries: seq<Entry>, rest: seq<Frame>)
    requires Remaining(names, lastLogged0, entries0, done, lastLogged, entries, rest)
    requires rest != [] && rest[0].Captured?
    ensures Remaining(names, lastLogged0, entries0, done, AfterFrame(names, lastLogged, rest[0]),
                      entries + FrameEntries(names, lastLogged, rest[0]), rest[1..])
  {
    var logged := FrameEntries(names, lastLogged, rest[0]);
    var later := RunEntries(names, AfterFrame(names, lastLogged, rest[0]), rest[1..]);
    assert RunEntries(names, lastLogged, rest) == logged + later;
    assert entries + (logged + later) == (entries + logged) + later;
  }

  class CooldownLogger {
    /** `known_names`, in roster order. */
    const knownNames: seq<string>
    /** `last_logged`: name to the time it was last logged. */
    var lastLogged: map<string, nat>
    /** `attendance_count`. */
    var attendanceCount: int
    /** The rows of the attendance file. */
    var ledger: seq<seq<string>>

    /** The rows the file held when the script started. */
    ghost const existing: seq<seq<string>>
    /** The loggings of this run, in order. */
    ghost var entries: seq<Entry>

    ghost predicate Valid()
      reads this
    {
      && attendanceCount == |entries|
      && ledger == LogAfter(existing, entries)
      && Separated(entries)
      && (forall i :: 0 <= i < |entries| ==>
            && entries[i].name != Unknown
            && entries[i].name in lastLogged
            && entries[i].at.micros <= lastLogged[entries[i].name])
    }

    constructor (names: seq<string>, file: seq<seq<string>>)
      ensures Valid()
      ensures knownNames == names && ledger == file && existing == file
      ensures lastLogged == map[] && attendanceCount == 0 && entries == []
    {
      knownNames := names;
      lastLogged := map[];
      attendanceCount := 0;
      ledger := file;
      existing := file;
      entries := [];
    }

    /**
     * The body of the capture loop for one captured frame: recognise, and log the
     * name when it is due. A failed detection, an unknown face or a name still in
     * its cooldown changes nothing.
     */
    method Step(det: Detection, now: Reading) returns (logged: bool)
      requires Valid()
      modifies this`lastLogged, this`attendanceCount, this`ledger, this`entries
      ensures Valid()
      ensures logged == Due(old(lastLogged), Recognize(knownNames, det, ScriptThreshold), now)
      ensures det.Failed? ==> !logged
      ensures !logged ==>
        lastLogged == old(lastLogged) && attendanceCount == old(attendanceCount)
        && ledger == old(ledger) && entries == old(entries)
      ensures logged ==>
        var name := Recognize(knownNames, det, ScriptThreshold);
        && lastLogged == old(lastLogged)[name := now.micros]
        && attendanceCount == old(attendanceCount) + 1
        && ledger == old(ledger) + (if old(ledger) == [] then [Header] else []) + [[name, now.stamp]]
        && entries == old(entries) + [Entry(name, now)]
    {
      var name := Recognize(knownNames, det, ScriptThreshold);
      logged := Due(lastLogged, name, now);
      if logged {
        ghost var e := Entry(name, now);
        DueKeepsSeparated(entries, lastLogged, e);
        assert EntryRows(entries + [e]) == EntryRows(entries) + [[name, now.stamp]];
        if ledger == [] {
          ledger := ledger + [Header];
        }
        ledger := ledger + [[name, now.stamp]];
        lastLogged := lastLogged[name := now.micros];
        attendanceCount := attendanceCount + 1;
        entries := entries + [e];
      }
    }

    /**
     * The capture loop over a stretch of frames: it steps every frame up to where
     * `StopAt` says it stops, and the loggings and `last_logged` are those of
     * `RunEntries` and `RunLastLogged` over exactly those frames.
     */
    method Run(frames: seq<Frame>)
      requires Valid()
      modifies this`lastLogged, this`attendanceCount, this`ledger, this`entries
      ensures Valid()
      ensures entries == old(entries) + RunEntries(knownNames, old(lastLogged), frames[..StopAt(frames)])
      ensures lastLogged == RunLastLogged(knownNames, old(lastLogged), frames[..StopAt(frames)])
      ensures attendanceCount == old(attendanceCount) + |RunEntries(knownNames, old(lastLogged), frames[..StopAt(frames)])|
    {
      ghost var stop := StopAt(frames);
      ghost var done := frames[..stop];
      var i := 0;
      while i < |frames|
        invariant i <= stop == i + StopAt(frames[i..])
        invariant Remaining(knownNames, old(lastLogged), old(entries), done, lastLogged, entries, frames[i..stop])
        invariant Valid()
      {
        assert frames[i..][0] == frames[i] && frames[i..][1..] == frames[i + 1..];
        if frames[i].Unreadable? {
          break;
        }
        ghost var rest := frames[i..stop];
        assert rest[0] == frames[i] && rest[1..] == frames[i + 1..stop];
        RemainingStep(knownNames, old(lastLogged), old(entries), done, lastLogged, entries, rest);
        ghost var entriesBefore, lastLoggedBefore := entries, lastLogged;
        var _ := Step(frames[i].det, frames[i].now);
        assert entries == entriesBefore + FrameEntries(knownNames, lastLoggedBefore, frames[i]);
        assert lastLogged == AfterFrame(knownNames, lastLoggedBefore, frames[i]);
        if frames[i].quit {
          break;
        }
        i := i + 1;
      }
    }
  }
}
