/**
 * The lecture-slot policy of the web app: two fixed windows, each with an
 * on-time cutoff five minutes after it opens. Bounds are inclusive, as the
 * chained `<=` comparisons on `datetime.time` values make them.
 */
module LectureSlots {
  import opened Options
  import opened Clock

  const Slot1 := "Slot 1 (8:00-11:00)"
  const Slot2 := "Slot 2 (11:30-14:30)"

  const Slot1Start := At(8, 0)
  const Slot1End := At(11, 0)
  const Slot1Late := At(8, 5)
  const Slot2Start := At(11, 30)
  const Slot2End := At(14, 30)
  const Slot2Late := At(11, 35)
  /** From this time on, a late arrival in slot 1 raises the dashboard alert. */
  const LateSoundCutoff := At(9, 30)

  /** `get_lecture_slot`: the window the time falls in, if any. */
  function GetLectureSlot(t: TimeOfDay): (r: Option<string>)
    ensures r == Some(Slot1) <==> Slot1Start <= t <= Slot1End
    ensures r == Some(Slot2) <==> Slot2Start <= t <= Slot2End
    ensures r.Some? ==> r.value == Slot1 || r.value == Slot2
  {
    if Slot1Start <= t <= Slot1End then Some(Slot1)
    else if Slot2Start <= t <= Slot2End then Some(Slot2)
    else None
  }

  /** `is_on_time`: not after the cutoff of the given slot; false for any other slot text. */
  function IsOnTime(t: TimeOfDay, slot: string): (r: bool)
    ensures r <==> (slot == Slot1 && t <= At(8, 5)) || (slot == Slot2 && t <= At(11, 35))
    ensures r ==> t < Slot2End
  {
    if slot == Slot1 then t <= Slot1Late
    else if slot == Slot2 then t <= Slot2Late
    else false
  }

  /** The status column written for an arrival at `t` in `slot`. */
  function Status(t: TimeOfDay, slot: string): (r: string)
    ensures r == "On Time" || r == "Late"
    ensures r == "Late" <==> !IsOnTime(t, slot)
  {
    if IsOnTime(t, slot) then "On Time" else "Late"
  }

  /** The windows are disjoint, and lie in the order slot 1, then slot 2. */
  lemma SlotsDisjoint(t: TimeOfDay)
    ensures !(Slot1Start <= t <= Slot1End && Slot2Start <= t <= Slot2End)
    ensures Slot1End < Slot2Start
  {
  }

  /** The boundary instants of the policy. */
  lemma SlotBoundaries()
    ensures GetLectureSlot(At(8, 0) - 1) == None && GetLectureSlot(At(8, 0)) == Some(Slot1)
    ensures GetLectureSlot(At(11, 0)) == Some(Slot1) && GetLectureSlot(At(11, 0) + 1) == None
    ensures GetLectureSlot(At(11, 30) - 1) == None && GetLectureSlot(At(11, 30)) == Some(Slot2)
    ensures GetLectureSlot(At(14, 30)) == Some(Slot2) && GetLectureSlot(At(14, 30) + 1) == None
  {
  }

  /** Arriving exactly at the cutoff is on time; one microsecond later is late. */
  lemma OnTimeCutoffs(slot: string)
    ensures IsOnTime(Slot1Late, Slot1) && !IsOnTime(Slot1Late + 1, Slot1)
    ensures IsOnTime(Slot2Late, Slot2) && !IsOnTime(Slot2Late + 1, Slot2)
    ensures slot != Slot1 && slot != Slot2 ==> forall t: TimeOfDay :: !IsOnTime(t, slot)
  {
  }

  /**
   * Within a window, an arrival is on time exactly up to that window's cutoff,
   * and every slot-1 arrival at or after the alert cutoff is late.
   */
  lemma OnTimeWithinSlot(t: TimeOfDay)
    requires GetLectureSlot(t).Some?
    ensures IsOnTime(t, GetLectureSlot(t).value) <==> t <= Slot1Late || Slot2Start <= t <= Slot2Late
    ensures GetLectureSlot(t) == Some(Slot1) && t >= LateSoundCutoff ==> Status(t, Slot1) == "Late"
  {
  }
}
