/** The in-memory student store (`src/services/api/studentService.js`).
    Students carry a numeric `Id` allocated by the store and an external
    student `id` the school assigns, which the store keeps unique. */
module StudentService {
  import opened Wrappers
  import opened Js
  import opened Seqs
  import opened Records
  import opened GradeUtils

  // ---------------------------------------------------------------------
  // Store invariants

  /** Every student has its own numeric Id. */
  predicate UniqueIds(store: seq<Student>) {
    forall i, j :: 0 <= i < j < |store| ==> store[i].Id != store[j].Id
  }

  /** No two students share an external id. */
  predicate UniqueExternalIds(store: seq<Student>) {
    forall i, j :: 0 <= i < j < |store| ==> store[i].id != store[j].id
  }

  // ---------------------------------------------------------------------
  // create

  /** `Math.max(...students.map(s => s.Id)) + 1`: above every Id in use. */
  function NextId(store: seq<Student>): (id: int)
    requires |store| > 0
    ensures forall i :: 0 <= i < |store| ==> store[i].Id < id
  {
    MaxBy(store, (s: Student) => s.Id) + 1
  }

  /** `s => s.id === id`. */
  function HasExternalId(id: string): Student -> bool {
    (s: Student) => s.id == id
  }

  /** `create(studentData)`: an external id already in use is rejected;
      otherwise the payload is appended with a fresh Id, a current grade of
      0 and an attendance rate of 100, whatever the payload says. */
  function Create(store: seq<Student>, d: StudentData): (r: Result<seq<Student>>)
    requires |store| > 0
    ensures r.Err? <==> exists k :: 0 <= k < |store| && store[k].id == d.id
    ensures r.Err? ==> r.error == "Student ID already exists"
    ensures r.Ok? ==>
              |r.value| == |store| + 1 && r.value[..|store|] == store
              && (forall k :: 0 <= k < |store| ==> store[k].Id < r.value[|store|].Id)
              && var s := r.value[|store|];
                 s.id == d.id && s.firstName == d.firstName && s.lastName == d.lastName
                 && s.email == d.email && s.gradeLevel == d.gradeLevel && s.classIds == d.classIds
                 && s.currentGrade == 0 && s.attendanceRate == 100
  {
    if FirstIndex(store, HasExternalId(d.id)) >= 0 then Err("Student ID already exists")
    else
      Ok(store + [Student(NextId(store), d.id, d.firstName, d.lastName, d.email, d.gradeLevel,
                          d.classIds, 0, 100)])
  }

  /** A successful create keeps both numeric Ids and external ids unique. */
  lemma CreateKeepsUnique(store: seq<Student>, d: StudentData)
    requires |store| > 0 && UniqueIds(store) && UniqueExternalIds(store)
    requires Create(store, d).Ok?
    ensures UniqueIds(Create(store, d).value) && UniqueExternalIds(Create(store, d).value)
  {
    var r := Create(store, d).value;
    forall i, j | 0 <= i < j < |r| ensures r[i].Id != r[j].Id && r[i].id != r[j].id {
      if j == |store| {
        assert r[i] == store[i];
      }
    }
  }

  // ---------------------------------------------------------------------
  // update

  /** `s => s.Id !== id && s.id === externalId`: another student holding
      the external id. */
  function ClashesWith(id: int, externalId: string): Student -> bool {
    (s: Student) => s.Id != id && s.id == externalId
  }

  /** `{ ...student, ...studentData, Id: id }`: every field from the
      payload, the numeric Id kept. */
  function Merge(id: int, d: StudentData): Student {
    Student(id, d.id, d.firstName, d.lastName, d.email, d.gradeLevel, d.classIds,
            d.currentGrade, d.attendanceRate)
  }

  /** `update(id, studentData)`: "Student not found" for an unknown Id;
      "Student ID already exists" when a student with another Id holds the
      payload's external id; otherwise the first student with the Id takes
      the payload's fields and keeps its Id, and nobody else changes. */
  function Update(store: seq<Student>, id: int, d: StudentData): (r: Result<seq<Student>>)
    ensures (forall k :: 0 <= k < |store| ==> store[k].Id != id) ==>
              r == Err("Student not found")
    ensures (exists k :: 0 <= k < |store| && store[k].Id == id)
            && (exists k :: 0 <= k < |store| && store[k].Id != id && store[k].id == d.id) ==>
              r == Err("Student ID already exists")
    ensures r.Err? ==> (forall k :: 0 <= k < |store| ==> store[k].Id != id)
                       || exists k :: 0 <= k < |store| && store[k].Id != id && store[k].id == d.id
    ensures r.Ok? ==>
              var i := FirstIndex(store, StudentWithId(id));
              0 <= i && |r.value| == |store|
              && r.value[i].Id == id && r.value[i].id == d.id
              && r.value[i].firstName == d.firstName && r.value[i].lastName == d.lastName
              && r.value[i].email == d.email && r.value[i].gradeLevel == d.gradeLevel
              && r.value[i].classIds == d.classIds && r.value[i].currentGrade == d.currentGrade
              && r.value[i].attendanceRate == d.attendanceRate
              && forall k :: 0 <= k < |store| && k != i ==> r.value[k] == store[k]
  {
    var i := FirstIndex(store, StudentWithId(id));
    if i == -1 then Err("Student not found")
    else if FirstIndex(store, ClashesWith(id, d.id)) >= 0 then Err("Student ID already exists")
    else Ok(store[i := Merge(id, d)])
  }

  /** A successful update keeps both numeric Ids and external ids unique. */
  lemma UpdateKeepsUnique(store: seq<Student>, id: int, d: StudentData)
    requires UniqueIds(store) && UniqueExternalIds(store)
    requires Update(store, id, d).Ok?
    ensures UniqueIds(Update(store, id, d).value) && UniqueExternalIds(Update(store, id, d).value)
  {
    var i := FirstIndex(store, StudentWithId(id));
    var r := Update(store, id, d).value;
    assert FirstIndex(store, ClashesWith(id, d.id)) == -1;
    forall a, b | 0 <= a < b < |r| ensures r[a].Id != r[b].Id && r[a].id != r[b].id {
      if a == i || b == i {
        var o := if a == i then b else a;
        assert r[o] == store[o];
        assert !ClashesWith(id, d.id)(store[o]);
      }
    }
  }

  // ---------------------------------------------------------------------
  // delete

  /** `delete(id)`: "Student not found" and no change for an unknown Id;
      otherwise the first student with the Id is spliced out. */
  function Delete(store: seq<Student>, id: int): (r: Result<seq<Student>>)
    ensures r.Err? <==> forall k :: 0 <= k < |store| ==> store[k].Id != id
    ensures r.Err? ==> r.error == "Student not found"
    ensures r.Ok? ==> |r.value| == |store| - 1
                      && exists k :: 0 <= k < |store| && store[k].Id == id
                                     && multiset(r.value) + multiset{store[k]} == multiset(store)
  {
    var i := FirstIndex(store, StudentWithId(id));
    if i == -1 then Err("Student not found") else Ok(RemoveAt(store, i))
  }

  /** With unique Ids, deleting removes exactly the student with that Id. */
  lemma DeleteExactlyOne(store: seq<Student>, id: int)
    requires UniqueIds(store)
    requires Delete(store, id).Ok?
    ensures forall s :: s in Delete(store, id).value <==> s in store && s.Id != id
  {
    RemoveFirstMatch(store, StudentWithId(id));
  }

  // ---------------------------------------------------------------------
  // searchStudents

  /** Whether a student's first name, last name, email or external id
      contains the query, both sides lower-cased. */
  predicate Matches(s: Student, query: string) {
    var q := Lower(query);
    Includes(Lower(s.firstName), q) || Includes(Lower(s.lastName), q)
    || Includes(Lower(s.email), q) || Includes(Lower(s.id), q)
  }

  function MatchesQuery(query: string): Student -> bool {
    (s: Student) => Matches(s, query)
  }

  /** `searchStudents(query)`: the matching students, in store order. */
  function Search(store: seq<Student>, query: string): (r: seq<Student>)
    ensures forall s :: s in r <==> s in store && Matches(s, query)
    ensures |r| <= |store|
  {
    Filter(store, MatchesQuery(query))
  }

  /** The empty query matches everybody. */
  lemma SearchEmptyIsAll(store: seq<Student>)
    ensures Search(store, "") == store
  {
    forall i | 0 <= i < |store| ensures MatchesQuery("")(store[i]) {
      IncludesEmpty(Lower(store[i].firstName));
    }
    FilterKeepsAll(store, MatchesQuery(""));
  }

  /** Searching ignores the case of the query. */
  lemma SearchIgnoresQueryCase(store: seq<Student>, query: string)
    ensures Search(store, Lower(query)) == Search(store, query)
  {
    LowerIdempotent(query);
    FilterSame(store, MatchesQuery(Lower(query)), MatchesQuery(query));
  }

  // ---------------------------------------------------------------------
  // getStudentStats

  /** The thresholds of the A-F buckets of the statistics. */
  predicate BandA(s: Student) { s.currentGrade >= 90 }
  predicate BandB(s: Student) { s.currentGrade >= 80 && s.currentGrade < 90 }
  predicate BandC(s: Student) { s.currentGrade >= 70 && s.currentGrade < 80 }
  predicate BandD(s: Student) { s.currentGrade >= 60 && s.currentGrade < 70 }
  predicate BandF(s: Student) { s.currentGrade < 60 }

  function CurrentGradeOf(s: Student): int { s.currentGrade }

  function AttendanceRateOf(s: Student): int { s.attendanceRate }

  /** Whether a student's current grade earns a given letter. */
  function HasLetter(l: Letter): Student -> bool {
    (s: Student) => LetterGrade(s.currentGrade) == l
  }

  datatype Distribution = Distribution(a: nat, b: nat, c: nat, d: nat, f: nat)

  datatype StudentStats = StudentStats(totalStudents: nat, averageGrade: int,
                                       averageAttendance: int, gradeDistribution: Distribution)

  /** The five buckets split the store: their sizes add up to its size. */
  lemma {:induction false} BandsPartition(store: seq<Student>)
    ensures |Filter(store, BandA)| + |Filter(store, BandB)| + |Filter(store, BandC)|
            + |Filter(store, BandD)| + |Filter(store, BandF)| == |store|
  {
    if store != [] {
      BandsPartition(store[1..]);
    }
  }

  /** Each bucket holds the students whose current grade earns its letter. */
  lemma BandsAreLetters(store: seq<Student>)
    ensures Filter(store, BandA) == Filter(store, HasLetter(A))
    ensures Filter(store, BandB) == Filter(store, HasLetter(B))
    ensures Filter(store, BandC) == Filter(store, HasLetter(C))
    ensures Filter(store, BandD) == Filter(store, HasLetter(D))
    ensures Filter(store, BandF) == Filter(store, HasLetter(F))
  {
    FilterSame(store, BandA, HasLetter(A));
    FilterSame(store, BandB, HasLetter(B));
    FilterSame(store, BandC, HasLetter(C));
    FilterSame(store, BandD, HasLetter(D));
    FilterSame(store, BandF, HasLetter(F));
  }

  /** The number of students, the rounded mean current grade and
      attendance rate (0 for an empty store) and the count per letter
      band, which together count every student once. */
  function Stats(store: seq<Student>): (r: StudentStats)
    ensures r.totalStudents == |store|
    ensures |store| == 0 ==> r.averageGrade == 0 && r.averageAttendance == 0
    ensures |store| > 0 ==>
              r.averageGrade as real - 0.5 <= SumInt(store, CurrentGradeOf) as real / |store| as real
                                            < r.averageGrade as real + 0.5
    ensures |store| > 0 ==>
              r.averageAttendance as real - 0.5
                <= SumInt(store, AttendanceRateOf) as real / |store| as real
                < r.averageAttendance as real + 0.5
    ensures var g := r.gradeDistribution;
            g.a + g.b + g.c + g.d + g.f == r.totalStudents
    ensures var g := r.gradeDistribution;
            g.a == |Filter(store, HasLetter(A))| && g.b == |Filter(store, HasLetter(B))|
            && g.c == |Filter(store, HasLetter(C))| && g.d == |Filter(store, HasLetter(D))|
            && g.f == |Filter(store, HasLetter(F))|
  {
    BandsPartition(store);
    BandsAreLetters(store);
    StudentStats(|store|, RoundedMean(store, CurrentGradeOf), RoundedMean(store, AttendanceRateOf),
                 Distribution(|Filter(store, BandA)|, |Filter(store, BandB)|, |Filter(store, BandC)|,
                              |Filter(store, BandD)|, |Filter(store, BandF)|))
  }

  /** With every current grade and attendance rate in 0..100, both averages
      are in 0..100. */
  lemma StatsAveragesInRange(store: seq<Student>)
    requires forall s :: s in store ==> 0 <= s.currentGrade <= 100 && 0 <= s.attendanceRate <= 100
    ensures 0 <= Stats(store).averageGrade <= 100
    ensures 0 <= Stats(store).averageAttendance <= 100
  {
    if |store| > 0 {
      assert forall i :: 0 <= i < |store| ==> store[i] in store;
      RoundedMeanWithin(store, CurrentGradeOf, 0, 100);
      RoundedMeanWithin(store, AttendanceRateOf, 0, 100);
    }
  }
}
