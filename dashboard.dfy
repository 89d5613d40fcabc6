/**
 * The dashboard's "Total Latecomers after 9:30 AM" figure: a count over the lines
 * of the attendance file of those that mention "Late" and "Slot 1" and whose
 * `HH:MM` lies between a lower bound and "11:00", compared as strings.
 */
module Dashboard {
  import opened Options
  import opened Text
  import opened Clock
  import opened LectureSlots
  import opened Ledger

  /** The file's text as `splitlines()` returns it: one line per row, fields joined by commas. */
  function Lines(rows: seq<seq<string>>): seq<string> {
    seq(|rows|, i requires 0 <= i < |rows| => Join(rows[i], ','))
  }

  /** `line.split(",")[1].split()[1][:5]`; `None` where an index raises `IndexError`. */
  function TimeField(line: string): Option<string> {
    var fields := Split(line, ',');
    if |fields| < 2 then None
    else
      var words := Words(fields[1]);
      if |words| < 2 then None else Some(Prefix(words[1], 5))
  }

  /** The filter of the count for one line, with `lower` as the lower bound; `None` where it raises. */
  function CountsAsLate(line: string, lower: string): Option<bool> {
    if !(Contains(line, "Late") && Contains(line, "Slot 1")) then Some(false)
    else
      match TimeField(line)
      case None => None
      case Some(hm) => Some(LexLe(lower, hm) && LexLe(hm, "11:00"))
  }

  /** `sum(1 for line in lines if ...)`; `None` when the filter raises on some line. */
  function LateCountFrom(lines: seq<string>, lower: string): (r: Option<nat>)
    ensures r.Some? <==> forall i :: 0 <= i < |lines| ==> CountsAsLate(lines[i], lower).Some?
    ensures r.Some? ==> r.value <= |lines|
  {
    if lines == [] then Some(0)
    else
      match (CountsAsLate(lines[0], lower), LateCountFrom(lines[1..], lower))
      case (Some(hit), Some(n)) => Some(n + if hit then 1 else 0)
      case _ => None
  }

  /** A time field that sorts before "9:30": absent, empty, or led by a character below '9'. */
  predicate BeforeNine(field: Option<string>) {
    field.None? || field.value == [] || field.value[0] < '9'
  }

  /**
   * `late_count` as the dashboard computes it: lower bound "9:30". A file whose
   * time fields all start with a digit below '9', as zero-padded hours do,
   * counts 0 whenever the filter does not raise.
   */
  function LateCount(lines: seq<string>): (r: Option<nat>)
    ensures r.Some? ==> r.value <= |lines|
    ensures (forall i :: 0 <= i < |lines| ==> BeforeNine(TimeField(lines[i]))) && r.Some? ==> r == Some(0)
  {
    EarlyLinesNotCounted(lines);
    LateCountFrom(lines, "9:30")
  }

  /** With the bound "9:30", lines whose time fields sort before '9' never add to the count. */
  lemma {:induction false} EarlyLinesNotCounted(lines: seq<string>)
    ensures ((forall i :: 0 <= i < |lines| ==> BeforeNine(TimeField(lines[i])))
             && LateCountFrom(lines, "9:30").Some?) ==> LateCountFrom(lines, "9:30") == Some(0)
  {
    if lines != [] && (forall i :: 0 <= i < |lines| ==> BeforeNine(TimeField(lines[i])))
       && LateCountFrom(lines, "9:30").Some? {
      assert forall i :: 0 <= i < |lines[1..]| ==> BeforeNine(TimeField(lines[1..][i])) by {
        forall i | 0 <= i < |lines[1..]| ensures BeforeNine(TimeField(lines[1..][i])) {
          assert lines[1..][i] == lines[i + 1];
        }
      }
      EarlyLinesNotCounted(lines[1..]);
      assert BeforeNine(TimeField(lines[0]));
      CountCons(lines, "9:30");
    }
  }

  /** `late_count` with the zero-padded lower bound "09:30" that the row format calls for. */
  function IntendedLateCount(lines: seq<string>): Option<nat> {
    LateCountFrom(lines, "09:30")
  }

  /** A mark as `mark_attendance` makes it: a recognised name without commas, in the slot of its time. */
  ghost predicate WellFormed(m: Mark) {
    ',' !in m.name && GetLectureSlot(m.now.clock) == Some(m.slot)
  }

  /** Marks in slot 1 at 09:30 or later: the arrivals the figure is meant to count. */
  function LateArrivals(marks: seq<Mark>): (n: nat)
    ensures n <= |marks|
  {
    if marks == [] then 0
    else LateArrivals(marks[1..]) + if marks[0].slot == Slot1 && MinuteOfDay(marks[0].now.clock) >= 9 * 60 + 30 then 1 else 0
  }

  /** The count over a non-empty list of lines, one line at a time. */
  lemma CountCons(lines: seq<string>, lower: string)
    requires lines != []
    requires CountsAsLate(lines[0], lower).Some? && LateCountFrom(lines[1..], lower).Some?
    ensures LateCountFrom(lines, lower)
         == Some(LateCountFrom(lines[1..], lower).value + if CountsAsLate(lines[0], lower).value then 1 else 0)
  {
  }

  /** The time field of a mark's line is the zero-padded `HH:MM` of its time. */
  lemma MarkTimeField(m: Mark)
    requires WellFormed(m)
    ensures TimeField(Join(RowOf(m), ',')) == Some(HourMinute(m.now.clock))
  {
    var row := RowOf(m);
    forall k | 0 <= k < |row| ensures ',' !in row[k] {
    }
    SplitJoin(row, ',');
    var stamp := Stamp(m.now);
    assert Split(Join(row, ','), ',')[1] == stamp;
    StampWords(m.now);
    assert Words(stamp)[1] == ClockText(m.now.clock);
  }

  /** A line without the digit 1 cannot mention "Slot 1", so it never counts. */
  lemma NoOneNotCounted(line: string, lower: string)
    requires '1' !in line
    ensures CountsAsLate(line, lower) == Some(false)
  {
    if Contains(line, "Slot 1") {
      ContainsChar(line, "Slot 1", '1');
    }
  }

  /** The header line is never counted. */
  lemma HeaderNotCounted(lower: string)
    ensures CountsAsLate(Join(Header, ','), lower) == Some(false)
  {
    JoinFour("Name", "Timestamp", "Status", "Lecture Slot", ',');
    assert '1' !in Join(Header, ',');
    NoOneNotCounted(Join(Header, ','), lower);
  }

  /** A mark's line is where both words the filter looks for occur when it is late in slot 1. */
  lemma LateMarkMentions(m: Mark)
    requires WellFormed(m) && Status(m.now.clock, m.slot) == "Late" && m.slot == Slot1
    ensures Contains(Join(RowOf(m), ','), "Late") && Contains(Join(RowOf(m), ','), "Slot 1")
  {
    var stamp := Stamp(m.now);
    var line := Join(RowOf(m), ',');
    JoinFour(m.name, stamp, "Late", Slot1, ',');
    assert line == m.name + [','] + stamp + [','] + "Late" + ([','] + Slot1);
    ContainsSelf("Late");
    ContainsInfix(m.name + [','] + stamp + [','], "Late", [','] + Slot1, "Late");
    assert OccursAt(Slot1, "Slot 1", 0);
    assert line == m.name + [','] + stamp + [','] + "Late" + [','] + Slot1 + "";
    ContainsInfix(m.name + [','] + stamp + [','] + "Late" + [','], Slot1, "", "Slot 1");
  }

  /** As written, no line `mark_attendance` writes is ever counted: "0x:xx", "1x:xx" and "2x:xx" all sort before "9:30". */
  lemma MarkNeverCounted(m: Mark)
    requires WellFormed(m)
    ensures CountsAsLate(Join(RowOf(m), ','), "9:30") == Some(false)
  {
    MarkTimeField(m);
    var hm := HourMinute(m.now.clock);
    HourMinuteLeadingDigit(m.now.clock);
    assert !LexLe("9:30", hm);
  }

  /** With the padded bound, a mark's line counts exactly when it is a slot-1 arrival at 09:30 or later. */
  lemma MarkCountedWhenLate(m: Mark)
    requires WellFormed(m)
    ensures CountsAsLate(Join(RowOf(m), ','), "09:30") == Some(m.slot == Slot1 && MinuteOfDay(m.now.clock) >= 9 * 60 + 30)
  {
    var t := m.now.clock;
    MarkTimeField(m);
    assert HourMinute(At(9, 30)) == "09:30";
    assert HourMinute(At(11, 0)) == "11:00";
    HourMinuteOrder(At(9, 30), t);
    HourMinuteOrder(t, At(11, 0));
    if m.slot == Slot1 && MinuteOfDay(t) >= 9 * 60 + 30 {
      OnTimeWithinSlot(t);
      LateMarkMentions(m);
    }
  }

  /** The lines of a run's marks, first mark first. */
  lemma MarkLinesCons(marks: seq<Mark>)
    requires marks != []
    ensures Lines(MarkRows(marks))[0] == Join(RowOf(marks[0]), ',')
    ensures Lines(MarkRows(marks))[1..] == Lines(MarkRows(marks[1..]))
  {
    assert Lines(MarkRows(marks))[1..] == Lines(MarkRows(marks[1..]));
  }

  /** As written, the lines of a run's marks count 0. */
  lemma {:induction false} MarksNeverCounted(marks: seq<Mark>)
    requires forall i :: 0 <= i < |marks| ==> WellFormed(marks[i])
    ensures LateCount(Lines(MarkRows(marks))) == Some(0)
  {
    if marks != [] {
      MarksNeverCounted(marks[1..]);
      MarkLinesCons(marks);
      MarkNeverCounted(marks[0]);
      CountCons(Lines(MarkRows(marks)), "9:30");
    }
  }

  /** With the padded bound, the lines of a run's marks count its late slot-1 arrivals. */
  lemma {:induction false} MarksCountedWhenLate(marks: seq<Mark>)
    requires forall i :: 0 <= i < |marks| ==> WellFormed(marks[i])
    ensures IntendedLateCount(Lines(MarkRows(marks))) == Some(LateArrivals(marks))
  {
    if marks != [] {
      MarksCountedWhenLate(marks[1..]);
      MarkLinesCons(marks);
      MarkCountedWhenLate(marks[0]);
      CountCons(Lines(MarkRows(marks)), "09:30");
    }
  }

  /** A file that `mark_attendance` filled from empty: the header line, then one line per mark. */
  lemma AppLedgerLines(marks: seq<Mark>)
    requires marks != []
    ensures Lines(LedgerAfter([], marks)) == [Join(Header, ',')] + Lines(MarkRows(marks))
  {
  }

  /** On a file that `mark_attendance` filled from empty, the figure as written is always 0. */
  lemma LateCountOfAppLedger(marks: seq<Mark>)
    requires forall i :: 0 <= i < |marks| ==> WellFormed(marks[i])
    ensures LateCount(Lines(LedgerAfter([], marks))) == Some(0)
  {
    if marks != [] {
      AppLedgerLines(marks);
      var lines := [Join(Header, ',')] + Lines(MarkRows(marks));
      assert lines[1..] == Lines(MarkRows(marks));
      MarksNeverCounted(marks);
      HeaderNotCounted("9:30");
      CountCons(lines, "9:30");
    }
  }

  /** With the padded bound, the same file counts the slot-1 arrivals at 09:30 or later. */
  lemma IntendedLateCountOfAppLedger(marks: seq<Mark>)
    requires forall i :: 0 <= i < |marks| ==> WellFormed(marks[i])
    ensures IntendedLateCount(Lines(LedgerAfter([], marks))) == Some(LateArrivals(marks))
  {
    if marks != [] {
      AppLedgerLines(marks);
      var lines := [Join(Header, ',')] + Lines(MarkRows(marks));
      assert lines[1..] == Lines(MarkRows(marks));
      MarksCountedWhenLate(marks);
      HeaderNotCounted("09:30");
      CountCons(lines, "09:30");
    }
  }

  /** A slot-1 arrival at 09:45 is late, yet the figure as written stays 0; the padded bound counts it. */
  lemma LateArrivalMissed()
    ensures var m := Mark("Ann", Instant("2024-03-04", At(9, 45)), Slot1);
      && Status(m.now.clock, m.slot) == "Late"
      && LateCount(Lines(LedgerAfter([], [m]))) == Some(0)
      && IntendedLateCount(Lines(LedgerAfter([], [m]))) == Some(1)
  {
    var m := Mark("Ann", Instant("2024-03-04", At(9, 45)), Slot1);
    assert WellFormed(m);
    LateCountOfAppLedger([m]);
    IntendedLateCountOfAppLedger([m]);
    assert [m][1..] == [];
  }
}
