/** The in-memory attendance store (`src/services/api/attendanceService.js`).
    A record is keyed by its numeric `Id` and by the (studentId, classId,
    date) triple, compared with `===`; creating a record for a triple that
    already has one updates that record instead. Each call is one
    synchronous transition of the store. */
module AttendanceService {
  import opened Wrappers
  import opened Js
  import opened Seqs
  import opened Records
  import opened GradeUtils

  // ---------------------------------------------------------------------
  // Store invariants

  /** Every record has its own Id. */
  predicate UniqueIds(store: seq<AttendanceRecord>) {
    forall i, j :: 0 <= i < j < |store| ==> store[i].Id != store[j].Id
  }

  /** At most one record per (studentId, classId, date). */
  predicate UniqueKeys(store: seq<AttendanceRecord>) {
    forall i, j :: 0 <= i < j < |store| ==>
      store[i].studentId != store[j].studentId || store[i].classId != store[j].classId
      || store[i].date != store[j].date
  }

  // ---------------------------------------------------------------------
  // create / update

  /** `a => a.studentId === studentId && a.classId === classId && a.date === date`. */
  function WithKey(studentId: JsVal, classId: JsVal, date: string): AttendanceRecord -> bool {
    (a: AttendanceRecord) => a.studentId == studentId && a.classId == classId && a.date == date
  }

  /** `Math.max(...attendance.map(a => a.Id)) + 1`: above every Id in use. */
  function NextId(store: seq<AttendanceRecord>): (id: int)
    requires |store| > 0
    ensures forall i :: 0 <= i < |store| ==> store[i].Id < id
  {
    MaxBy(store, (a: AttendanceRecord) => a.Id) + 1
  }

  /** `{ ...record, ...attendanceData }`: the payload's fields win, the
      record keeps the fields the payload leaves out. */
  function Merge(a: AttendanceRecord, d: AttendanceData): AttendanceRecord {
    AttendanceRecord(d.Id.GetOr(a.Id), Spread(a.studentId, d.studentId),
                     Spread(a.classId, d.classId), d.date, d.status)
  }

  /** `{ ...attendanceData, Id: max + 1 }`. */
  function Fresh(store: seq<AttendanceRecord>, d: AttendanceData): AttendanceRecord
    requires |store| > 0
  {
    AttendanceRecord(NextId(store), d.studentId, d.classId, d.date, d.status)
  }

  /** The first record with the payload's key. */
  function KeyIndex(store: seq<AttendanceRecord>, d: AttendanceData): int {
    FirstIndex(store, WithKey(d.studentId, d.classId, d.date))
  }

  /** `create(attendanceData)`: a payload whose key already has a record is
      handed to `update` with that record's Id, which merges it into the
      first record carrying that Id; otherwise a new record is appended. */
  function Create(store: seq<AttendanceRecord>, d: AttendanceData): (r: seq<AttendanceRecord>)
    requires |store| > 0
    ensures KeyIndex(store, d) >= 0 ==> |r| == |store|
    ensures KeyIndex(store, d) < 0 ==> |r| == |store| + 1 && r[..|store|] == store
  {
    var i := KeyIndex(store, d);
    if i >= 0 then
      var j := FirstIndex(store, AttendanceWithId(store[i].Id));
      store[j := Merge(store[j], d)]
    else store + [Fresh(store, d)]
  }

  /** The key `update` is called with: a numeric Id or a key object. */
  datatype AttendanceKey = ById(id: int) | ByKey(studentId: JsVal, classId: JsVal, date: string)

  /** The index `update` merges into, -1 when no record matches. */
  function UpdateIndex(store: seq<AttendanceRecord>, key: AttendanceKey): (i: int)
    ensures -1 <= i < |store|
    ensures key.ById? ==> (i >= 0 ==> store[i].Id == key.id)
                          && (i < 0 <==> forall k :: 0 <= k < |store| ==> store[k].Id != key.id)
    ensures key.ByKey? ==> (i >= 0 ==> WithKey(key.studentId, key.classId, key.date)(store[i]))
                           && (i < 0 <==> forall k :: 0 <= k < |store| ==>
                                            !WithKey(key.studentId, key.classId, key.date)(store[k]))
  {
    match key
    case ById(id) => FirstIndex(store, AttendanceWithId(id))
    case ByKey(s, c, day) => FirstIndex(store, WithKey(s, c, day))
  }

  /** `update(id, attendanceData)`: merge into the found record and leave
      every other record alone; when nothing is found, `create` instead. */
  function Update(store: seq<AttendanceRecord>, key: AttendanceKey, d: AttendanceData)
    : (r: seq<AttendanceRecord>)
    requires |store| > 0
    ensures UpdateIndex(store, key) >= 0 ==>
              var i := UpdateIndex(store, key);
              |r| == |store|
              && r[i].Id == (if d.Id.Some? then d.Id.value else store[i].Id)
              && r[i].studentId == (if d.studentId.Undef? then store[i].studentId else d.studentId)
              && r[i].classId == (if d.classId.Undef? then store[i].classId else d.classId)
              && r[i].status == d.status && r[i].date == d.date
              && forall k :: 0 <= k < |store| && k != UpdateIndex(store, key) ==> r[k] == store[k]
    ensures UpdateIndex(store, key) < 0 ==> r == Create(store, d)
  {
    var i := UpdateIndex(store, key);
    if i == -1 then Create(store, d) else store[i := Merge(store[i], d)]
  }

  /** Looking a record up again by the Id it was updated under finds the
      merged record: the payload's status and date, and its key where the
      payload gives one. */
  lemma UpdateReadsBack(store: seq<AttendanceRecord>, id: int, d: AttendanceData)
    requires |store| > 0 && d.Id.None?
    requires UpdateIndex(store, ById(id)) >= 0
    ensures var a := Find(Update(store, ById(id), d), AttendanceWithId(id));
            a.Some? && a.value.status == d.status && a.value.date == d.date
            && (!d.studentId.Undef? ==> a.value.studentId == d.studentId)
            && (!d.classId.Undef? ==> a.value.classId == d.classId)
  {
    var i := UpdateIndex(store, ById(id));
    var r := Update(store, ById(id), d);
    assert forall k :: 0 <= k < i ==> r[k] == store[k];
    assert FirstIndex(r, AttendanceWithId(id)) == i;
  }

  /** With unique Ids an existing key is merged in place: `create` is then
      exactly `update` by the matching record's Id, and also `update` by
      the key object. */
  lemma CreateMergesKey(store: seq<AttendanceRecord>, d: AttendanceData)
    requires |store| > 0 && UniqueIds(store)
    requires KeyIndex(store, d) >= 0
    ensures var i := KeyIndex(store, d);
            Create(store, d) == store[i := Merge(store[i], d)]
            && Create(store, d) == Update(store, ById(store[i].Id), d)
            && Create(store, d) == Update(store, ByKey(d.studentId, d.classId, d.date), d)
  {
    var i := KeyIndex(store, d);
    var j := FirstIndex(store, AttendanceWithId(store[i].Id));
    assert j == i;
  }

  /** A merge into a record with the payload's key keeps the key. */
  lemma MergeKeepsKey(a: AttendanceRecord, d: AttendanceData)
    requires WithKey(d.studentId, d.classId, d.date)(a)
    ensures WithKey(d.studentId, d.classId, d.date)(Merge(a, d))
  {
  }

  /** A payload for a new key appends exactly one record with a fresh Id
      above every Id in use and the payload's fields. */
  lemma CreateAppendsFresh(store: seq<AttendanceRecord>, d: AttendanceData)
    requires |store| > 0
    requires KeyIndex(store, d) < 0
    ensures var r := Create(store, d);
            (forall k :: 0 <= k < |store| ==> store[k].Id < r[|store|].Id)
            && r[|store|] == AttendanceRecord(r[|store|].Id, d.studentId, d.classId, d.date, d.status)
  {
  }

  /** Creating from a payload without an Id keeps Ids unique. */
  lemma CreateKeepsIdsUnique(store: seq<AttendanceRecord>, d: AttendanceData)
    requires |store| > 0 && UniqueIds(store) && d.Id.None?
    ensures UniqueIds(Create(store, d))
  {
    if KeyIndex(store, d) >= 0 {
      CreateMergesKey(store, d);
    } else {
      assert Create(store, d)[|store|] == Fresh(store, d);
    }
  }

  /** Creating keeps at most one record per key. */
  lemma CreateKeepsKeysUnique(store: seq<AttendanceRecord>, d: AttendanceData)
    requires |store| > 0 && UniqueIds(store) && UniqueKeys(store)
    ensures UniqueKeys(Create(store, d))
  {
    if KeyIndex(store, d) >= 0 {
      CreateMergesKey(store, d);
    }
  }

  /** Afterwards the payload's key holds a record with the payload's
      status. */
  lemma CreateRecordsKey(store: seq<AttendanceRecord>, d: AttendanceData)
    requires |store| > 0 && UniqueIds(store)
    ensures exists k :: 0 <= k < |Create(store, d)|
                        && WithKey(d.studentId, d.classId, d.date)(Create(store, d)[k])
                        && Create(store, d)[k].status == d.status
  {
    var i := KeyIndex(store, d);
    if i >= 0 {
      CreateMergesKey(store, d);
      assert Create(store, d)[i] == Merge(store[i], d);
    } else {
      assert Create(store, d)[|store|] == Fresh(store, d);
    }
  }

  // ---------------------------------------------------------------------
  // delete

  /** `delete(id)`: "Attendance record not found" and no change when no
      record has the Id; otherwise the first record with it is spliced
      out. */
  function Delete(store: seq<AttendanceRecord>, id: int): (r: Result<seq<AttendanceRecord>>)
    ensures r.Err? <==> forall k :: 0 <= k < |store| ==> store[k].Id != id
    ensures r.Err? ==> r.error == "Attendance record not found"
    ensures r.Ok? ==> |r.value| == |store| - 1
                      && exists k :: 0 <= k < |store| && store[k].Id == id
                                     && multiset(r.value) + multiset{store[k]} == multiset(store)
  {
    var i := FirstIndex(store, AttendanceWithId(id));
    if i == -1 then Err("Attendance record not found") else Ok(RemoveAt(store, i))
  }

  /** With unique Ids, deleting removes exactly the record with that Id. */
  lemma DeleteExactlyOne(store: seq<AttendanceRecord>, id: int)
    requires UniqueIds(store)
    requires Delete(store, id).Ok?
    ensures forall a :: a in Delete(store, id).value <==> a in store && a.Id != id
  {
    var i := FirstIndex(store, AttendanceWithId(id));
    var r := Delete(store, id).value;
    forall a ensures a in r <==> a in store && a.Id != id {
      if a in r {
        var k :| 0 <= k < |r| && r[k] == a;
        if k < i { assert a == store[k]; } else { assert a == store[k + 1]; }
      }
      if a in store && a.Id != id {
        var k :| 0 <= k < |store| && store[k] == a;
        if k < i { assert r[k] == a; } else { assert r[k - 1] == a; }
      }
    }
  }

  // ---------------------------------------------------------------------
  // getByDate

  /** `attendance.filter(a => a.date === date)`. */
  function GetByDate(store: seq<AttendanceRecord>, date: string): (r: seq<AttendanceRecord>)
    ensures forall a :: a in r <==> a in store && a.date == date
    ensures |r| <= |store|
  {
    Filter(store, (a: AttendanceRecord) => a.date == date)
  }

  /** Records of other dates do not affect a date's list: it distributes
      over concatenation, in store order. */
  lemma GetByDateConcat(a: seq<AttendanceRecord>, b: seq<AttendanceRecord>, date: string)
    ensures GetByDate(a + b, date) == GetByDate(a, date) + GetByDate(b, date)
  {
    FilterConcat(a, b, (r: AttendanceRecord) => r.date == date);
  }

  // ---------------------------------------------------------------------
  // getAttendanceStats

  predicate IsPresent(a: AttendanceRecord) { a.status == Present }
  predicate IsAbsent(a: AttendanceRecord) { a.status == Absent }
  predicate IsTardy(a: AttendanceRecord) { a.status == Tardy }

  datatype AttendanceStats = AttendanceStats(totalRecords: nat, presentCount: nat,
                                             absentCount: nat, tardyCount: nat,
                                             attendanceRate: int)

  /** Counts per status, and the present rate (0 for an empty store),
      rounded as `calculateGradePercentage` rounds. The three statuses
      partition the records. */
  function Stats(store: seq<AttendanceRecord>): (s: AttendanceStats)
    ensures s.totalRecords == |store|
    ensures s.presentCount == |Filter(store, IsPresent)|
    ensures s.absentCount == |Filter(store, IsAbsent)|
    ensures s.tardyCount == |Filter(store, IsTardy)|
    ensures s.presentCount + s.absentCount + s.tardyCount == s.totalRecords
    ensures forall a :: a in store && a.status == Present ==> s.presentCount > 0
    ensures s.totalRecords == 0 ==> s.attendanceRate == 0
    ensures s.totalRecords > 0 ==>
              0 <= s.attendanceRate <= 100
              && s.attendanceRate as real - 0.5
                 <= s.presentCount as real / s.totalRecords as real * 100.0
                 < s.attendanceRate as real + 0.5
  {
    var p, a, t := Filter(store, IsPresent), Filter(store, IsAbsent), Filter(store, IsTardy);
    FilterThreeWay(store, IsPresent, IsAbsent, IsTardy);
    var rate := if |store| > 0
                then (PercentageInRange(|p| as real, |store|); Percentage(|p| as real, |store|))
                else 0;
    AttendanceStats(|store|, |p|, |a|, |t|, rate)
  }

  /** The counts of two stores taken together are the sums of their
      counts. */
  lemma StatsConcat(x: seq<AttendanceRecord>, y: seq<AttendanceRecord>)
    ensures Stats(x + y).presentCount == Stats(x).presentCount + Stats(y).presentCount
    ensures Stats(x + y).absentCount == Stats(x).absentCount + Stats(y).absentCount
    ensures Stats(x + y).tardyCount == Stats(x).tardyCount + Stats(y).tardyCount
  {
    FilterConcat(x, y, IsPresent);
    FilterConcat(x, y, IsAbsent);
    FilterConcat(x, y, IsTardy);
  }

  /** A single record counts once, under its own status, and makes the
      rate 100 when present and 0 otherwise. */
  lemma StatsOfOne(a: AttendanceRecord)
    ensures Stats([a]).presentCount == (if a.status == Present then 1 else 0)
    ensures Stats([a]).absentCount == (if a.status == Absent then 1 else 0)
    ensures Stats([a]).tardyCount == (if a.status == Tardy then 1 else 0)
    ensures Stats([a]).attendanceRate == (if a.status == Present then 100 else 0)
  {
    assert [a][1..] == [];
    if a.status == Present {
      RoundIntegral(100);
    } else {
      RoundIntegral(0);
    }
  }

  /** With no present record the rate is 0, whatever the other statuses. */
  lemma StatsNonePresent(store: seq<AttendanceRecord>)
    requires forall a :: a in store ==> a.status != Present
    ensures Stats(store).presentCount == 0
    ensures Stats(store).attendanceRate == 0
  {
    FilterNone(store, IsPresent);
    RoundIntegral(0);
  }

  // ---------------------------------------------------------------------
  // markAllPresent

  /** The payload markAllPresent creates for one student. */
  function PresentPayload(studentId: JsVal, classId: JsVal, date: string): AttendanceData {
    AttendanceData(None, studentId, classId, date, Present)
  }

  /** `markAllPresent(studentIds, classId, date)`: one `create` per student,
      in list order. */
  function MarkAllPresent(store: seq<AttendanceRecord>, studentIds: seq<JsVal>, classId: JsVal,
                          date: string): (r: seq<AttendanceRecord>)
    requires |store| > 0
    ensures |store| <= |r| <= |store| + |studentIds|
    decreases |studentIds|
  {
    if studentIds == [] then store
    else
      MarkAllPresent(Create(store, PresentPayload(studentIds[0], classId, date)),
                     studentIds[1..], classId, date)
  }

  /** `studentId` has a present record for (classId, date). */
  ghost predicate MarkedPresent(store: seq<AttendanceRecord>, studentId: JsVal, classId: JsVal,
                                date: string) {
    exists k :: 0 <= k < |store| && WithKey(studentId, classId, date)(store[k])
                && store[k].status == Present
  }

  /** A present-making create keeps every present record present. */
  lemma CreateKeepsMarked(store: seq<AttendanceRecord>, d: AttendanceData, studentId: JsVal)
    requires |store| > 0 && UniqueIds(store) && d.status == Present
    requires MarkedPresent(store, studentId, d.classId, d.date)
    ensures MarkedPresent(Create(store, d), studentId, d.classId, d.date)
  {
    var k :| 0 <= k < |store| && WithKey(studentId, d.classId, d.date)(store[k])
             && store[k].status == Present;
    var i := KeyIndex(store, d);
    if i >= 0 {
      CreateMergesKey(store, d);
      if k == i {
        MergeKeepsKey(store[i], d);
      }
      assert Create(store, d)[k].status == Present;
    } else {
      assert Create(store, d)[k] == store[k];
    }
  }

  /** After markAllPresent every listed student has a present record for
      the class and date (given unique Ids beforehand, which it keeps). */
  lemma {:induction false} MarkAllPresentMarksEveryone(store: seq<AttendanceRecord>,
                                                       studentIds: seq<JsVal>, classId: JsVal,
                                                       date: string)
    requires |store| > 0 && UniqueIds(store)
    ensures UniqueIds(MarkAllPresent(store, studentIds, classId, date))
    ensures forall s :: s in studentIds ==>
              MarkedPresent(MarkAllPresent(store, studentIds, classId, date), s, classId, date)
    decreases |studentIds|
  {
    if studentIds != [] {
      var d := PresentPayload(studentIds[0], classId, date);
      var next := Create(store, d);
      CreateKeepsIdsUnique(store, d);
      CreateRecordsKey(store, d);
      MarkAllPresentMarksEveryone(next, studentIds[1..], classId, date);
      KeepsMarked(next, studentIds[1..], classId, date, studentIds[0]);
      assert forall s :: s in studentIds ==> s == studentIds[0] || s in studentIds[1..];
    }
  }

  /** Later creates of markAllPresent keep an earlier student marked. */
  lemma {:induction false} KeepsMarked(store: seq<AttendanceRecord>, studentIds: seq<JsVal>,
                                       classId: JsVal, date: string, studentId: JsVal)
    requires |store| > 0 && UniqueIds(store)
    requires MarkedPresent(store, studentId, classId, date)
    ensures MarkedPresent(MarkAllPresent(store, studentIds, classId, date), studentId, classId, date)
    decreases |studentIds|
  {
    if studentIds != [] {
      var d := PresentPayload(studentIds[0], classId, date);
      CreateKeepsIdsUnique(store, d);
      CreateKeepsMarked(store, d, studentId);
      KeepsMarked(Create(store, d), studentIds[1..], classId, date, studentId);
    }
  }
}
