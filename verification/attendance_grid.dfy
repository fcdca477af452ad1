/** The attendance grid (`src/components/organisms/AttendanceGrid.jsx`): the
    record a cell shows, a student's present rate, the payloads of "Mark
    All" for one day, and what a cell's click forwards to the page. */
module AttendanceGrid {
  import opened Wrappers
  import opened Js
  import opened Seqs
  import opened Records
  import opened GradeUtils
  import opened AttendanceCell

  // ---------------------------------------------------------------------
  // getAttendanceForDate

  /** `a => a.studentId === studentId && a.date === date`: the class is not
      part of the match. */
  function OnDate(studentId: JsVal, date: string): AttendanceRecord -> bool {
    (a: AttendanceRecord) => a.studentId == studentId && a.date == date
  }

  /** The record a cell shows: the first record of the student on that
      date, whatever its class. */
  function AttendanceFor(attendance: seq<AttendanceRecord>, studentId: JsVal, date: string)
    : (r: Option<AttendanceRecord>)
    ensures r.None? <==> forall k :: 0 <= k < |attendance| ==>
                           attendance[k].studentId != studentId || attendance[k].date != date
    ensures r.Some? ==> r.value in attendance && r.value.studentId == studentId && r.value.date == date
  {
    Find(attendance, OnDate(studentId, date))
  }

  /** The first record of the student on the date is the one shown, even
      when a later record of the same day belongs to another class. */
  lemma AttendanceForFirstMatch(attendance: seq<AttendanceRecord>, studentId: JsVal, date: string,
                                i: nat)
    requires i < |attendance| && OnDate(studentId, date)(attendance[i])
    requires forall j :: 0 <= j < i ==> !OnDate(studentId, date)(attendance[j])
    ensures AttendanceFor(attendance, studentId, date) == Some(attendance[i])
  {
    assert FirstIndex(attendance, OnDate(studentId, date)) == i;
  }

  // ---------------------------------------------------------------------
  // getStudentAttendanceRate

  /** `a => a.studentId === studentId`. */
  function OfStudent(studentId: JsVal): AttendanceRecord -> bool {
    (a: AttendanceRecord) => a.studentId == studentId
  }

  function IsPresent(a: AttendanceRecord): bool { a.status == Present }

  /** The share of a student's records, over all classes and dates, that
      are present, as a rounded percentage; 100 for a student without
      records. Tardy and absent both count as not present. */
  function StudentRate(attendance: seq<AttendanceRecord>, studentId: JsVal): (r: int)
    ensures 0 <= r <= 100
    ensures |Filter(attendance, OfStudent(studentId))| == 0 ==> r == 100
    ensures var mine := Filter(attendance, OfStudent(studentId));
            |mine| > 0 ==>
              r as real - 0.5 <= |Filter(mine, IsPresent)| as real / |mine| as real * 100.0
                               < r as real + 0.5
  {
    var mine := Filter(attendance, OfStudent(studentId));
    if |mine| == 0 then 100
    else
      var present := Filter(mine, IsPresent);
      PercentageInRange(|present| as real, |mine|);
      Percentage(|present| as real, |mine|)
  }

  /** A student with records, all of them present, has rate 100. */
  lemma StudentRateAllPresent(attendance: seq<AttendanceRecord>, studentId: JsVal)
    requires forall a :: a in attendance && a.studentId == studentId ==> a.status == Present
    ensures StudentRate(attendance, studentId) == 100
  {
    var mine := Filter(attendance, OfStudent(studentId));
    forall i | 0 <= i < |mine| ensures IsPresent(mine[i]) {
      assert mine[i] in mine;
    }
    FilterKeepsAll(mine, IsPresent);
    if |mine| > 0 {
      WholeIsHundred(|mine|);
    }
  }

  lemma WholeIsHundred(n: nat)
    requires n > 0
    ensures Percentage(n as real, n) == 100
  {
    assert n as real / n as real == 1.0;
    RoundIntegral(100);
  }

  /** A student with records, none of them present, has rate 0. */
  lemma StudentRateNonePresent(attendance: seq<AttendanceRecord>, studentId: JsVal)
    requires exists a :: a in attendance && a.studentId == studentId
    requires forall a :: a in attendance && a.studentId == studentId ==> a.status != Present
    ensures StudentRate(attendance, studentId) == 0
  {
    var mine := Filter(attendance, OfStudent(studentId));
    var a :| a in attendance && a.studentId == studentId;
    assert a in mine;
    if Filter(mine, IsPresent) != [] {
      assert Filter(mine, IsPresent)[0] in mine;
    }
    RoundIntegral(0);
  }

  /** Two present days out of three give 67. */
  lemma StudentRateExample()
    ensures StudentRate([AttendanceRecord(1, Num(1), Str("class1"), "2024-01-15", Present),
                         AttendanceRecord(2, Num(1), Str("class1"), "2024-01-16", Tardy),
                         AttendanceRecord(3, Num(2), Str("class1"), "2024-01-16", Absent),
                         AttendanceRecord(4, Num(1), Str("class1"), "2024-01-17", Present)],
                        Num(1)) == 67
  {
    var att := [AttendanceRecord(1, Num(1), Str("class1"), "2024-01-15", Present),
                AttendanceRecord(2, Num(1), Str("class1"), "2024-01-16", Tardy),
                AttendanceRecord(3, Num(2), Str("class1"), "2024-01-16", Absent),
                AttendanceRecord(4, Num(1), Str("class1"), "2024-01-17", Present)];
    var p := OfStudent(Num(1));
    assert Filter(att[3..], p) == [att[3]];
    assert Filter(att[2..], p) == [att[3]];
    assert Filter(att[1..], p) == [att[1], att[3]];
    var mine := Filter(att, p);
    assert mine == [att[0], att[1], att[3]];
    assert Filter(mine[2..], IsPresent) == [att[3]];
    assert Filter(mine[1..], IsPresent) == [att[3]];
    assert Filter(mine, IsPresent) == [att[0], att[3]];
    assert Percentage(2.0, 3) == 67;
  }

  // ---------------------------------------------------------------------
  // markAllPresent

  /** `selectedClass || 'default'`. */
  function ClassOrDefault(selected: string): (c: string)
    ensures c != ""
    ensures selected != "" ==> c == selected
  {
    if selected == "" then "default" else selected
  }

  /** The payload "Mark All" sends for one student. */
  function PresentPayload(s: Student, selected: string, date: string): AttendanceData {
    AttendanceData(None, Num(s.Id), Str(ClassOrDefault(selected)), date, Present)
  }

  /** The payloads "Mark All" sends for a date: one per shown student
      without a record on that date (in any class), in row order. */
  function MarkAllPresent(attendance: seq<AttendanceRecord>, shown: seq<Student>, selected: string,
                          date: string): (r: seq<AttendanceData>)
    ensures |r| <= |shown|
  {
    if shown == [] then []
    else
      var rest := MarkAllPresent(attendance, shown[1..], selected, date);
      if AttendanceFor(attendance, Num(shown[0].Id), date).None? then
        [PresentPayload(shown[0], selected, date)] + rest
      else rest
  }

  /** "Mark All" sends a payload for exactly the shown students without a
      record on the date: each payload is that of such a student, and each
      such student gets one. */
  lemma {:induction false} MarkAllPresentExact(attendance: seq<AttendanceRecord>, shown: seq<Student>,
                                               selected: string, date: string)
    ensures forall d :: d in MarkAllPresent(attendance, shown, selected, date) ==>
              exists s :: s in shown && d == PresentPayload(s, selected, date)
                          && AttendanceFor(attendance, Num(s.Id), date).None?
    ensures forall s :: s in shown && AttendanceFor(attendance, Num(s.Id), date).None? ==>
              PresentPayload(s, selected, date) in MarkAllPresent(attendance, shown, selected, date)
  {
    if shown != [] {
      var r := MarkAllPresent(attendance, shown, selected, date);
      var rest := MarkAllPresent(attendance, shown[1..], selected, date);
      MarkAllPresentExact(attendance, shown[1..], selected, date);
      forall d | d in r
        ensures exists s :: s in shown && d == PresentPayload(s, selected, date)
                            && AttendanceFor(attendance, Num(s.Id), date).None?
      {
        if d in rest {
          var s :| s in shown[1..] && d == PresentPayload(s, selected, date)
                   && AttendanceFor(attendance, Num(s.Id), date).None?;
          assert s in shown;
        } else {
          assert shown[0] in shown;
        }
      }
      assert forall t :: t in shown ==> t == shown[0] || t in shown[1..];
    }
  }

  /** Over the grid's rows, the students of the selected class (or all
      students when none is selected), "Mark All" sends a present payload
      exactly for the rows' students without a record on the date, and
      with a class selected each of them is enrolled in it. */
  lemma MarkAllPresentOfSelection(attendance: seq<AttendanceRecord>, students: seq<Student>,
                                  selected: string, date: string)
    ensures var shown := SelectedStudents(students, selected);
            forall s :: s in shown && AttendanceFor(attendance, Num(s.Id), date).None? ==>
              PresentPayload(s, selected, date) in MarkAllPresent(attendance, shown, selected, date)
    ensures var shown := SelectedStudents(students, selected);
            forall d :: d in MarkAllPresent(attendance, shown, selected, date) ==>
              d.status == Present && d.classId == Str(ClassOrDefault(selected))
              && exists s :: s in students && d.studentId == Num(s.Id)
                             && (selected != "" ==> selected in s.classIds)
  {
    MarkAllPresentExact(attendance, SelectedStudents(students, selected), selected, date);
  }

  // ---------------------------------------------------------------------
  // A cell's click

  /** What a click on a student's cell forwards to the page: the cell's
      payload, unchanged. An empty cell's payload carries neither a
      studentId nor a classId. */
  function CellClick(attendance: seq<AttendanceRecord>, student: Student, date: string)
    : (r: AttendanceData)
    ensures r.date == date
    ensures r.status == NextStatus(CurrentStatus(AttendanceFor(attendance, Num(student.Id), date)))
    ensures AttendanceFor(attendance, Num(student.Id), date).None? ==>
              r.studentId.Undef? && r.classId.Undef?
    ensures AttendanceFor(attendance, Num(student.Id), date).Some? ==> r.studentId == Num(student.Id)
  {
    Click(true, AttendanceFor(attendance, Num(student.Id), date), date).value
  }

  /** The click payload with the row's keys filled in for an empty cell:
      the student's Id and the selected class (or "default"), as "Mark
      All" does. A cell with a record forwards the same payload as
      before. */
  function CellClickKeyed(attendance: seq<AttendanceRecord>, student: Student, selected: string,
                          date: string): (r: AttendanceData)
    ensures r.studentId == Num(student.Id) && r.date == date
    ensures r.status == NextStatus(CurrentStatus(AttendanceFor(attendance, Num(student.Id), date)))
    ensures AttendanceFor(attendance, Num(student.Id), date).Some? ==>
              r == CellClick(attendance, student, date)
    ensures AttendanceFor(attendance, Num(student.Id), date).None? ==>
              r.classId == Str(ClassOrDefault(selected)) && r.status == Present
  {
    var d := CellClick(attendance, student, date);
    if AttendanceFor(attendance, Num(student.Id), date).None? then
      d.(studentId := Num(student.Id), classId := Str(ClassOrDefault(selected)))
    else d
  }
}
