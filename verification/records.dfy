/** The records the dashboard keeps in its flat collections, and the partial
    payloads that pages send to the services. A payload field that JavaScript
    would leave out of the object is `None` (or `JsVal.Undef`); spreading a
    payload over a record (`{ ...record, ...payload }`) keeps the record's
    value for every field the payload leaves out. */
module Records {
  import opened Wrappers
  import Seqs

  /** A JavaScript value used as a foreign key where the source mixes numbers,
      strings and absent keys; `===` on such values is equality here
      (`undefined === undefined` holds, `1 === "1"` does not). */
  datatype JsVal = Undef | Num(n: int) | Str(s: string)

  /** The three attendance statuses. */
  datatype Status = Present | Absent | Tardy

  /** `Id` is the numeric surrogate key; `id` the school's external student id. */
  datatype Student = Student(
    Id: int,
    id: string,
    firstName: string,
    lastName: string,
    email: string,
    gradeLevel: int,
    classIds: seq<string>,
    currentGrade: int,
    attendanceRate: int)

  datatype Assignment = Assignment(
    Id: int,
    name: string,
    category: string,
    points: int,
    dueDate: string,
    classId: string,
    weight: real,
    description: string)

  datatype Grade = Grade(
    Id: int,
    studentId: int,
    assignmentId: int,
    score: real,
    submitted: bool)

  datatype AttendanceRecord = AttendanceRecord(
    Id: int,
    studentId: JsVal,
    classId: JsVal,
    date: string,
    status: Status)

  /** `id` is the external class id (`class<n>`). */
  datatype ClassRecord = ClassRecord(
    Id: int,
    id: string,
    name: string,
    subject: string,
    period: string,
    studentIds: seq<string>)

  /** A grade payload: both key fields are always set by the grade grid. */
  datatype GradeData = GradeData(
    Id: Option<int>,
    studentId: int,
    assignmentId: int,
    score: real,
    submitted: bool)

  /** An attendance payload; `Undef` marks a key the object does not carry. */
  datatype AttendanceData = AttendanceData(
    Id: Option<int>,
    studentId: JsVal,
    classId: JsVal,
    date: string,
    status: Status)

  /** A student payload as the student form builds it: every field but the
      numeric `Id`. */
  datatype StudentData = StudentData(
    id: string,
    firstName: string,
    lastName: string,
    email: string,
    gradeLevel: int,
    classIds: seq<string>,
    currentGrade: int,
    attendanceRate: int)

  /** A class payload. The store fills in `Id` and `id` on creation; an
      update payload may carry an `id` of its own. A missing roster is
      `None`. */
  datatype ClassData = ClassData(
    id: Option<string>,
    name: string,
    subject: string,
    period: string,
    studentIds: Option<seq<string>>)

  /** An assignment payload; `dueDate` and `weight` may be missing. */
  datatype AssignmentData = AssignmentData(
    name: string,
    category: string,
    points: int,
    dueDate: Option<string>,
    classId: string,
    weight: Option<real>,
    description: string)

  // ---------------------------------------------------------------------
  // The lookup predicates the components and services pass to `find`,
  // `findIndex` and `filter`

  /** `g => g.Id === id`. */
  function GradeWithId(id: int): Grade -> bool {
    (g: Grade) => g.Id == id
  }

  /** `g => g.studentId === studentId && g.assignmentId === assignmentId`:
      the grade of one cell of the grade grid. */
  function GradeForCell(studentId: int, assignmentId: int): Grade -> bool {
    (g: Grade) => g.studentId == studentId && g.assignmentId == assignmentId
  }

  /** `a => a.Id === id`. */
  function AssignmentWithId(id: int): Assignment -> bool {
    (a: Assignment) => a.Id == id
  }

  /** `a => a.classId === classId`. */
  function AssignmentOfClass(classId: string): Assignment -> bool {
    (a: Assignment) => a.classId == classId
  }

  /** `a => a.Id === id`. */
  function AttendanceWithId(id: int): AttendanceRecord -> bool {
    (a: AttendanceRecord) => a.Id == id
  }

  /** `s => s.Id === id`. */
  function StudentWithId(id: int): Student -> bool {
    (s: Student) => s.Id == id
  }

  /** `c => c.Id === id`. */
  function ClassWithId(id: int): ClassRecord -> bool {
    (c: ClassRecord) => c.Id == id
  }

  /** `value ?? prior` for a `JsVal` field of a spread. */
  function Spread(prior: JsVal, value: JsVal): JsVal {
    if value.Undef? then prior else value
  }

  /** Every student whose class list holds classId, in roster order
      (`students.filter(s => s.classIds.includes(classId))`). */
  function Enrolled(students: seq<Student>, classId: string): (r: seq<Student>)
    ensures forall s :: s in r <==> s in students && classId in s.classIds
    ensures |r| <= |students|
  {
    Seqs.Filter(students, (s: Student) => classId in s.classIds)
  }

  /** Enrolment keeps roster order: the roster of a concatenation is the
      concatenation of the rosters. */
  lemma EnrolledConcat(a: seq<Student>, b: seq<Student>, classId: string)
    ensures Enrolled(a + b, classId) == Enrolled(a, classId) + Enrolled(b, classId)
  {
    Seqs.FilterConcat(a, b, (s: Student) => classId in s.classIds);
  }

  /** The students a grid shows for a class selection: those enrolled in
      the selected class, or everyone when none is selected (the empty
      selection is falsy). */
  function SelectedStudents(students: seq<Student>, selected: string): (r: seq<Student>)
    ensures selected == "" ==> r == students
    ensures selected != "" ==> forall s :: s in r <==> s in students && selected in s.classIds
    ensures |r| <= |students|
  {
    if selected == "" then students else Enrolled(students, selected)
  }
}
