/** One cell of the attendance grid (`src/components/molecules/AttendanceCell.jsx`):
    its status, with a missing record read as absent, and the click that
    advances the status along absent, present, tardy and back. */
module AttendanceCell {
  import opened Wrappers
  import opened Records

  /** `attendance?.status || "absent"`. */
  function CurrentStatus(attendance: Option<AttendanceRecord>): (s: Status)
    ensures attendance.None? ==> s == Absent
    ensures attendance.Some? ==> s == attendance.value.status
  {
    if attendance.Some? then attendance.value.status else Absent
  }

  const Cycle: seq<Status> := [Absent, Present, Tardy]

  /** `statusCycle.indexOf(status)`. */
  function CycleIndex(s: Status): (i: int)
    ensures 0 <= i < |Cycle| && Cycle[i] == s
  {
    match s
    case Absent => 0
    case Present => 1
    case Tardy => 2
  }

  /** `statusCycle[(currentIndex + 1) % statusCycle.length]`: the status
      after s in the cycle, never s itself. */
  function NextStatus(s: Status): (n: Status)
    ensures n != s
  {
    Cycle[(CycleIndex(s) + 1) % |Cycle|]
  }

  /** The cycle is absent to present, present to tardy, tardy to absent:
      every click changes the status, distinct statuses have distinct
      successors, and three clicks come back to the start. */
  lemma NextStatusCycle(s: Status, t: Status)
    ensures NextStatus(Absent) == Present
    ensures NextStatus(Present) == Tardy
    ensures NextStatus(Tardy) == Absent
    ensures NextStatus(s) != s
    ensures NextStatus(s) == NextStatus(t) ==> s == t
    ensures NextStatus(NextStatus(NextStatus(s))) == s
  {
  }

  /** A click: a non-editable cell reports nothing; otherwise the cell
      reports its record (whatever fields it has, none for an empty cell)
      with the next status and the cell's date. */
  function Click(editable: bool, attendance: Option<AttendanceRecord>, date: string): (r: Option<AttendanceData>)
    ensures !editable ==> r.None?
    ensures editable ==> r.Some? && r.value.status == NextStatus(CurrentStatus(attendance))
                         && r.value.date == date
    ensures editable && attendance.Some? ==>
              r.value.Id == Some(attendance.value.Id)
              && r.value.studentId == attendance.value.studentId
              && r.value.classId == attendance.value.classId
    ensures editable && attendance.None? ==>
              r.value.Id.None? && r.value.studentId.Undef? && r.value.classId.Undef?
  {
    if !editable then None
    else
      var status := NextStatus(CurrentStatus(attendance));
      match attendance
      case Some(a) => Some(AttendanceData(Some(a.Id), a.studentId, a.classId, date, status))
      case None => Some(AttendanceData(None, Undef, Undef, date, status))
  }

  /** Clicking an empty cell marks the student present. */
  lemma ClickEmptyMarksPresent(date: string)
    ensures Click(true, None, date) == Some(AttendanceData(None, Undef, Undef, date, Present))
  {
  }
}
