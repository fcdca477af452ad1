/** The attendance page (`src/components/pages/Attendance.jsx`): its local
    copy of the records after a cell change, today's counts and the
    arguments of its "Mark All Present" button; and what the grid then
    shows, which exposes two key mismatches between the page, the grid
    and the cell. */
module AttendancePage {
  import opened Wrappers
  import opened Js
  import opened Seqs
  import opened Records
  import opened AttendanceService
  import AttendanceGrid
  import AttendanceCell

  // ---------------------------------------------------------------------
  // handleAttendanceChange

  /** The local record with the payload's (studentId, classId, date). */
  function LocalIndex(local: seq<AttendanceRecord>, d: AttendanceData): int {
    FirstIndex(local, WithKey(d.studentId, d.classId, d.date))
  }

  /** The local list after a saved change: the payload spread over the
      record with its key, or, when there is none, appended with the
      current time (`nowId`) as its Id. */
  function LocalUpsert(local: seq<AttendanceRecord>, d: AttendanceData, nowId: int)
    : (r: seq<AttendanceRecord>)
    ensures LocalIndex(local, d) >= 0 ==>
              |r| == |local| && r[LocalIndex(local, d)] == Merge(local[LocalIndex(local, d)], d)
              && forall k :: 0 <= k < |local| && k != LocalIndex(local, d) ==> r[k] == local[k]
    ensures LocalIndex(local, d) < 0 ==>
              |r| == |local| + 1 && r[..|local|] == local
              && r[|local|].Id == nowId && WithKey(d.studentId, d.classId, d.date)(r[|local|])
              && r[|local|].status == d.status
  {
    var i := LocalIndex(local, d);
    if i >= 0 then local[i := Merge(local[i], d)]
    else local + [AttendanceRecord(nowId, d.studentId, d.classId, d.date, d.status)]
  }

  /** `handleAttendanceChange(attendanceData)`: after the service accepted
      the change (`served`) the local list is upserted; when the service
      call failed it is left alone. */
  function HandleChange(local: seq<AttendanceRecord>, d: AttendanceData, served: bool, nowId: int)
    : (r: seq<AttendanceRecord>)
    ensures !served ==> r == local
    ensures served ==> |local| <= |r| <= |local| + 1
  {
    if served then LocalUpsert(local, d, nowId) else local
  }

  /** With unique Ids, the page's local upsert does to its copy exactly
      what the service's create does to the store, except that a new
      record gets the current time instead of the next Id. */
  lemma CreateIsLocalUpsert(store: seq<AttendanceRecord>, d: AttendanceData)
    requires |store| > 0 && UniqueIds(store)
    ensures Create(store, d) == LocalUpsert(store, d, NextId(store))
  {
    if KeyIndex(store, d) >= 0 {
      CreateMergesKey(store, d);
    }
  }

  // ---------------------------------------------------------------------
  // Today's counts

  datatype TodayCounts = TodayCounts(present: nat, absent: nat, tardy: nat)

  /** The three "today" cards: today's records filtered by each status. */
  function Today(attendance: seq<AttendanceRecord>, today: string): (c: TodayCounts)
    ensures c.present == |Filter(GetByDate(attendance, today), IsPresent)|
    ensures c.absent == |Filter(GetByDate(attendance, today), IsAbsent)|
    ensures c.tardy == |Filter(GetByDate(attendance, today), IsTardy)|
    ensures c.present + c.absent + c.tardy == |GetByDate(attendance, today)|
    ensures c.present <= |GetByDate(attendance, today)|
  {
    var mine := GetByDate(attendance, today);
    FilterThreeWay(mine, IsPresent, IsAbsent, IsTardy);
    TodayCounts(|Filter(mine, IsPresent)|, |Filter(mine, IsAbsent)|, |Filter(mine, IsTardy)|)
  }

  /** The cards count what the service's statistics count, over today's
      records only. */
  lemma TodayIsStatsOfToday(attendance: seq<AttendanceRecord>, today: string)
    ensures var s := Stats(GetByDate(attendance, today));
            Today(attendance, today) == TodayCounts(s.presentCount, s.absentCount, s.tardyCount)
  {
  }

  // ---------------------------------------------------------------------
  // A click on an empty cell

  /** As written, the payload of an empty cell has no student and no class,
      so the record the page stores for it belongs to nobody: the cell
      stays empty, and reads absent, however often it is clicked. */
  lemma EmptyCellClickStaysEmpty(local: seq<AttendanceRecord>, student: Student, date: string,
                                 nowId: int)
    requires AttendanceGrid.AttendanceFor(local, Num(student.Id), date).None?
    ensures var after := LocalUpsert(local, AttendanceGrid.CellClick(local, student, date), nowId);
            AttendanceGrid.AttendanceFor(after, Num(student.Id), date).None?
  {
    var d := AttendanceGrid.CellClick(local, student, date);
    var after := LocalUpsert(local, d, nowId);
    var i := LocalIndex(local, d);
    forall k | 0 <= k < |after| ensures after[k].studentId != Num(student.Id) || after[k].date != date {
      if i >= 0 && k == i {
        assert after[k].studentId == Spread(local[i].studentId, Undef) == Undef;
      } else if k == |local| {
        assert after[k].studentId == Undef;
      }
    }
  }

  /** The same through the service: the stored record matches no student
      either. */
  lemma EmptyCellClickStoredForNobody(store: seq<AttendanceRecord>, student: Student, date: string)
    requires |store| > 0 && UniqueIds(store)
    requires AttendanceGrid.AttendanceFor(store, Num(student.Id), date).None?
    ensures var after := Create(store, AttendanceGrid.CellClick(store, student, date));
            AttendanceGrid.AttendanceFor(after, Num(student.Id), date).None?
  {
    CreateIsLocalUpsert(store, AttendanceGrid.CellClick(store, student, date));
    EmptyCellClickStaysEmpty(store, student, date, NextId(store));
  }

  /** A concrete run: student 1 clicks an empty cell on 2024-01-15 while
      only student 2 has a record that day. The page stores a second
      record, with no student, and the cell still shows nothing. */
  lemma EmptyCellClickExample()
    ensures var local := [AttendanceRecord(1, Num(2), Str("class1"), "2024-01-15", Present)];
            var student := Student(1, "S001", "Ann", "Lee", "ann@school.edu", 9, ["class1"], 0, 100);
            var after := LocalUpsert(local, AttendanceGrid.CellClick(local, student, "2024-01-15"), 7);
            |after| == 2 && after[1].studentId == Undef
            && AttendanceGrid.AttendanceFor(after, Num(1), "2024-01-15").None?
  {
    var local := [AttendanceRecord(1, Num(2), Str("class1"), "2024-01-15", Present)];
    var student := Student(1, "S001", "Ann", "Lee", "ann@school.edu", 9, ["class1"], 0, 100);
    assert AttendanceGrid.AttendanceFor(local, Num(1), "2024-01-15").None?;
    var d := AttendanceGrid.CellClick(local, student, "2024-01-15");
    assert LocalIndex(local, d) == -1;
    EmptyCellClickStaysEmpty(local, student, "2024-01-15", 7);
  }

  /** With the row's keys filled in, every click advances the cell: after
      the page's upsert the cell shows a record whose status is the next
      one in the cycle. */
  lemma KeyedClickAdvancesCell(local: seq<AttendanceRecord>, student: Student, selected: string,
                               date: string, nowId: int)
    ensures var before := AttendanceGrid.AttendanceFor(local, Num(student.Id), date);
            var d := AttendanceGrid.CellClickKeyed(local, student, selected, date);
            var after := AttendanceGrid.AttendanceFor(LocalUpsert(local, d, nowId), Num(student.Id), date);
            after.Some?
            && after.value.status == AttendanceCell.NextStatus(AttendanceCell.CurrentStatus(before))
  {
    var sid := Num(student.Id);
    var before := AttendanceGrid.AttendanceFor(local, sid, date);
    var d := AttendanceGrid.CellClickKeyed(local, student, selected, date);
    var r := LocalUpsert(local, d, nowId);
    var i := FirstIndex(local, AttendanceGrid.OnDate(sid, date));
    var j := LocalIndex(local, d);
    if i >= 0 {
      assert before == Some(local[i]);
      assert j == i by {
        assert WithKey(d.studentId, d.classId, d.date)(local[i]);
        assert forall k :: 0 <= k < i ==> !WithKey(d.studentId, d.classId, d.date)(local[k]);
      }
      assert AttendanceGrid.OnDate(sid, date)(r[i]);
      AttendanceGrid.AttendanceForFirstMatch(r, sid, date, i);
    } else {
      assert j == -1 by {
        assert forall k :: 0 <= k < |local| ==> !WithKey(d.studentId, d.classId, d.date)(local[k]);
      }
      assert forall k :: 0 <= k < |local| ==> r[k] == local[k];
      AttendanceGrid.AttendanceForFirstMatch(r, sid, date, |local|);
    }
  }

  /** The same through the service, given unique Ids. */
  lemma KeyedClickAdvancesStoredCell(store: seq<AttendanceRecord>, student: Student,
                                     selected: string, date: string)
    requires |store| > 0 && UniqueIds(store)
    ensures var before := AttendanceGrid.AttendanceFor(store, Num(student.Id), date);
            var d := AttendanceGrid.CellClickKeyed(store, student, selected, date);
            var after := AttendanceGrid.AttendanceFor(Create(store, d), Num(student.Id), date);
            after.Some?
            && after.value.status == AttendanceCell.NextStatus(AttendanceCell.CurrentStatus(before))
  {
    CreateIsLocalUpsert(store, AttendanceGrid.CellClickKeyed(store, student, selected, date));
    KeyedClickAdvancesCell(store, student, selected, date, NextId(store));
  }

  // ---------------------------------------------------------------------
  // handleMarkAllPresent

  /** `students.map(s => s.Id.toString())`: the page's student list as
      text. */
  function IdsAsText(students: seq<Student>): (r: seq<JsVal>)
    ensures |r| == |students|
    ensures forall i :: 0 <= i < |r| ==> r[i].Str? && r[i].s == IntToString(students[i].Id)
  {
    seq(|students|, i requires 0 <= i < |students| => Str(IntToString(students[i].Id)))
  }

  /** The numeric Ids the grid looks records up by. */
  function IdsAsNumbers(students: seq<Student>): (r: seq<JsVal>)
    ensures |r| == |students|
    ensures forall i :: 0 <= i < |r| ==> r[i] == Num(students[i].Id)
  {
    seq(|students|, i requires 0 <= i < |students| => Num(students[i].Id))
  }

  /** As written, "Mark All Present" stores records under the text of each
      Id, for class "default" and today. */
  function MarkAllPresentAsWritten(store: seq<AttendanceRecord>, students: seq<Student>,
                                   today: string): (r: seq<AttendanceRecord>)
    requires |store| > 0
    ensures |store| <= |r| <= |store| + |students|
  {
    MarkAllPresent(store, IdsAsText(students), Str("default"), today)
  }

  /** With the numeric Ids the grid matches on. */
  function MarkAllPresentByNumber(store: seq<AttendanceRecord>, students: seq<Student>,
                                  today: string): (r: seq<AttendanceRecord>)
    requires |store| > 0
    ensures |store| <= |r| <= |store| + |students|
  {
    MarkAllPresent(store, IdsAsNumbers(students), Str("default"), today)
  }

  /** A create whose payload names its student by text adds no record
      under a numeric student: every such record was there before. */
  lemma CreateByTextKeepsNumbered(store: seq<AttendanceRecord>, d: AttendanceData)
    requires |store| > 0 && d.studentId.Str?
    ensures forall k :: 0 <= k < |Create(store, d)| && Create(store, d)[k].studentId.Num? ==>
              Create(store, d)[k] in store
  {
    var r := Create(store, d);
    var i := KeyIndex(store, d);
    if i >= 0 {
      var j := FirstIndex(store, AttendanceWithId(store[i].Id));
      forall k | 0 <= k < |r| && r[k].studentId.Num? ensures r[k] in store {
        assert k != j;
        assert r[k] == store[k];
      }
    }
  }

  /** Marking by text adds no record under a numeric student. */
  lemma {:induction false} MarkByTextKeepsNumbered(store: seq<AttendanceRecord>, ids: seq<JsVal>,
                                                   classId: JsVal, today: string)
    requires |store| > 0
    requires forall i :: 0 <= i < |ids| ==> ids[i].Str?
    ensures forall k :: 0 <= k < |MarkAllPresent(store, ids, classId, today)|
                        && MarkAllPresent(store, ids, classId, today)[k].studentId.Num? ==>
              MarkAllPresent(store, ids, classId, today)[k] in store
    decreases |ids|
  {
    if ids != [] {
      var next := Create(store, PresentPayload(ids[0], classId, today));
      CreateByTextKeepsNumbered(store, PresentPayload(ids[0], classId, today));
      MarkByTextKeepsNumbered(next, ids[1..], classId, today);
    }
  }

  /** As written, a student whose cell for today was empty still has an
      empty cell after "Mark All Present". */
  lemma MarkAllAsWrittenLeavesCellsEmpty(store: seq<AttendanceRecord>, students: seq<Student>,
                                         today: string, s: Student)
    requires |store| > 0
    requires AttendanceGrid.AttendanceFor(store, Num(s.Id), today).None?
    ensures AttendanceGrid.AttendanceFor(MarkAllPresentAsWritten(store, students, today),
                                         Num(s.Id), today).None?
  {
    MarkByTextKeepsNumbered(store, IdsAsText(students), Str("default"), today);
  }

  /** With numeric Ids, every student's cell for today shows a record
      afterwards. */
  lemma MarkAllByNumberFillsCells(store: seq<AttendanceRecord>, students: seq<Student>,
                                  today: string)
    requires |store| > 0 && UniqueIds(store)
    ensures forall s :: s in students ==>
              AttendanceGrid.AttendanceFor(MarkAllPresentByNumber(store, students, today),
                                           Num(s.Id), today).Some?
  {
    var ids := IdsAsNumbers(students);
    MarkAllPresentMarksEveryone(store, ids, Str("default"), today);
    forall s | s in students
      ensures AttendanceGrid.AttendanceFor(MarkAllPresentByNumber(store, students, today),
                                           Num(s.Id), today).Some?
    {
      var i :| 0 <= i < |students| && students[i] == s;
      assert ids[i] in ids;
    }
  }
}
