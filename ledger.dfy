/**
 * The web app's attendance ledger: the rows `mark_attendance` appends to the CSV
 * file, and the per-day index `logged_today[date][name]` of slots already marked.
 * The file is a sequence of rows, each a sequence of fields.
 */
module Ledger {
  import opened Clock
  import opened Options
  import opened LectureSlots
  import opened Matching

  const Header: seq<string> := ["Name", "Timestamp", "Status", "Lecture Slot"]

  /** One successful `mark_attendance`: who, when, and the slot it counted for. */
  datatype Mark = Mark(name: string, now: Instant, slot: string)

  /** The row written for a mark: name, timestamp, status, slot. */
  function RowOf(m: Mark): seq<string> {
    [m.name, Stamp(m.now), Status(m.now.clock, m.slot), m.slot]
  }

  function MarkRows(marks: seq<Mark>): seq<seq<string>> {
    seq(|marks|, i requires 0 <= i < |marks| => RowOf(marks[i]))
  }

  /**
   * The file after a run whose successful marks were `marks`, starting from the
   * rows `existing` already in it: the header goes in only when the file was
   * still empty at the first mark.
   */
  function LedgerAfter(existing: seq<seq<string>>, marks: seq<Mark>): (rows: seq<seq<string>>)
    ensures |rows| == |existing| + |marks| + (if existing == [] && marks != [] then 1 else 0)
    ensures rows[..|existing|] == existing
    ensures existing == [] && marks != [] ==> rows[0] == Header
  {
    existing + (if existing == [] && marks != [] then [Header] else []) + MarkRows(marks)
  }

  /** Appending one mark appends its row, preceded by the header only if the file was empty. */
  lemma LedgerAfterAppend(existing: seq<seq<string>>, marks: seq<Mark>, m: Mark)
    ensures LedgerAfter(existing, marks + [m])
         == LedgerAfter(existing, marks) + (if LedgerAfter(existing, marks) == [] then [Header] else []) + [RowOf(m)]
  {
    assert MarkRows(marks + [m]) == MarkRows(marks) + [RowOf(m)];
  }

  /** `logged_today`: date, then name, to the set of slots marked. */
  type Index = map<DateKey, map<string, set<string>>>

  /** `logged_today[date][name]`, with the `defaultdict`'s empty default. */
  function Marked(idx: Index, date: DateKey, name: string): set<string> {
    if date in idx && name in idx[date] then idx[date][name] else {}
  }

  /** `logged_today[date][name].add(slot)`. */
  function Record(idx: Index, date: DateKey, name: string, slot: string): (r: Index)
    ensures Marked(r, date, name) == Marked(idx, date, name) + {slot}
    ensures forall d, n :: d != date || n != name ==> Marked(r, d, n) == Marked(idx, d, n)
  {
    var day := if date in idx then idx[date] else map[];
    idx[date := day[name := Marked(idx, date, name) + {slot}]]
  }

  /** The index after recording `marks` in order, starting from an empty one. */
  function IndexOf(marks: seq<Mark>): Index {
    if marks == [] then map[]
    else
      var m := marks[|marks| - 1];
      Record(IndexOf(marks[..|marks| - 1]), m.now.date, m.name, m.slot)
  }

  /** `marks` holds a mark for this date, name and slot. */
  ghost predicate HasMark(marks: seq<Mark>, date: DateKey, name: string, slot: string) {
    exists i :: 0 <= i < |marks| && marks[i].now.date == date && marks[i].name == name && marks[i].slot == slot
  }

  /** The index holds a slot for a date and name exactly when one of the marks recorded it. */
  lemma {:induction false} IndexOfMarks(marks: seq<Mark>, date: DateKey, name: string, slot: string)
    ensures slot in Marked(IndexOf(marks), date, name) <==> HasMark(marks, date, name, slot)
  {
    if marks != [] {
      var n := |marks| - 1;
      var prefix, m := marks[..n], marks[n];
      IndexOfMarks(prefix, date, name, slot);
      if HasMark(prefix, date, name, slot) {
        var i :| 0 <= i < |prefix| && prefix[i].now.date == date && prefix[i].name == name && prefix[i].slot == slot;
        assert marks[i] == prefix[i];
      }
      if HasMark(marks, date, name, slot) && !(m.now.date == date && m.name == name && m.slot == slot) {
        var i :| 0 <= i < |marks| && marks[i].now.date == date && marks[i].name == name && marks[i].slot == slot;
        assert i < n && prefix[i] == marks[i];
      }
      if m.now.date == date && m.name == name && m.slot == slot {
        assert marks[n] == m;
      }
    }
  }

  /** No two marks share a date, name and slot. */
  ghost predicate Unique(marks: seq<Mark>) {
    forall i, j :: 0 <= i < j < |marks| ==>
      !(marks[i].now.date == marks[j].now.date && marks[i].name == marks[j].name && marks[i].slot == marks[j].slot)
  }

  /** Adding a mark whose slot the index does not yet hold keeps the marks unique. */
  lemma UniqueAppend(marks: seq<Mark>, m: Mark)
    requires Unique(marks)
    requires m.slot !in Marked(IndexOf(marks), m.now.date, m.name)
    ensures Unique(marks + [m])
  {
    IndexOfMarks(marks, m.now.date, m.name, m.slot);
    var s := marks + [m];
    forall i, j | 0 <= i < j < |s|
      ensures !(s[i].now.date == s[j].now.date && s[i].name == s[j].name && s[i].slot == s[j].slot)
    {
      if j == |marks| {
        assert s[i] == marks[i];
      } else {
        assert s[i] == marks[i] && s[j] == marks[j];
      }
    }
  }

  /**
   * What the process state keeps in step: the file holds the existing rows and one
   * row per mark, the index holds exactly the marked slots, no slot is marked twice
   * for a name and day, and every mark is a recognised name in the slot of its time.
   */
  ghost predicate Consistent(existing: seq<seq<string>>, rows: seq<seq<string>>, idx: Index, marks: seq<Mark>) {
    && rows == LedgerAfter(existing, marks)
    && idx == IndexOf(marks)
    && Unique(marks)
    && (forall i :: 0 <= i < |marks| ==> marks[i].name != Unknown && GetLectureSlot(marks[i].now.clock) == Some(marks[i].slot))
  }

  /** A new mark for a slot not yet recorded keeps the state consistent. */
  lemma MarkKeepsConsistent(existing: seq<seq<string>>, rows: seq<seq<string>>, idx: Index, marks: seq<Mark>, m: Mark)
    requires Consistent(existing, rows, idx, marks)
    requires m.name != Unknown && GetLectureSlot(m.now.clock) == Some(m.slot)
    requires m.slot !in Marked(idx, m.now.date, m.name)
    ensures Consistent(existing, rows + (if rows == [] then [Header] else []) + [RowOf(m)],
                       Record(idx, m.now.date, m.name, m.slot), marks + [m])
  {
    LedgerAfterAppend(existing, marks, m);
    UniqueAppend(marks, m);
    var s := marks + [m];
    assert s[..|marks|] == marks;
    forall i | 0 <= i < |s| ensures s[i].name != Unknown && GetLectureSlot(s[i].now.clock) == Some(s[i].slot) {
      if i < |marks| {
        assert s[i] == marks[i];
      }
    }
  }
}
