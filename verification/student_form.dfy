/** The student form (`src/components/organisms/StudentForm.jsx`): the
    fields it is filled with, the effect of typing in a field, the
    validation messages, and the payload a valid submission hands to the
    students page. */
module StudentForm {
  import opened Wrappers
  import opened Js
  import opened Seqs
  import opened Records
  import StudentService

  // ---------------------------------------------------------------------
  // The form's state

  /** The grade level field holds the prefilled number, or the text the
      select last reported. */
  datatype LevelValue = Number(n: int) | Text(t: string)

  datatype FormData = FormData(
    firstName: string,
    lastName: string,
    email: string,
    id: string,
    gradeLevel: LevelValue,
    classIds: seq<string>)

  /** The fields the user can type into or select. */
  datatype Field = FirstName | LastName | Email | ExternalId | GradeLevel

  /** An empty form, for a new student. */
  const EmptyForm := FormData("", "", "", "", Text(""), [])

  /** `!value` for the grade level field. */
  predicate LevelFalsy(v: LevelValue) {
    v == Text("") || v == Number(0)
  }

  /** The form for editing a student: each field from the student, with
      `|| ""` turning grade level 0 into the empty choice. */
  function Prefill(s: Student): (f: FormData)
    ensures f.firstName == s.firstName && f.lastName == s.lastName && f.email == s.email
    ensures f.id == s.id && f.classIds == s.classIds
    ensures LevelFalsy(f.gradeLevel) <==> s.gradeLevel == 0
    ensures s.gradeLevel != 0 ==> f.gradeLevel == Number(s.gradeLevel)
  {
    FormData(s.firstName, s.lastName, s.email, s.id,
             if s.gradeLevel == 0 then Text("") else Number(s.gradeLevel), s.classIds)
  }

  /** The form shown: the student's values when editing, empty otherwise. */
  function Initial(student: Option<Student>): (f: FormData)
    ensures student.None? ==> f == EmptyForm
    ensures student.Some? ==> f == Prefill(student.value)
  {
    match student
    case None => EmptyForm
    case Some(s) => Prefill(s)
  }

  // ---------------------------------------------------------------------
  // handleChange

  function Get(f: FormData, field: Field): LevelValue {
    match field
    case FirstName => Text(f.firstName)
    case LastName => Text(f.lastName)
    case Email => Text(f.email)
    case ExternalId => Text(f.id)
    case GradeLevel => f.gradeLevel
  }

  /** `{ ...prev, [field]: value }`. */
  function Set(f: FormData, field: Field, value: string): (r: FormData)
    ensures Get(r, field) == Text(value)
    ensures forall g :: g != field ==> Get(r, g) == Get(f, g)
    ensures r.classIds == f.classIds
  {
    match field
    case FirstName => f.(firstName := value)
    case LastName => f.(lastName := value)
    case Email => f.(email := value)
    case ExternalId => f.(id := value)
    case GradeLevel => f.(gradeLevel := Text(value))
  }

  /** A message is shown under a field when its entry is non-empty. */
  predicate Shows(errors: map<Field, string>, field: Field) {
    field in errors && errors[field] != ""
  }

  /** `handleChange(field, value)`: the field takes the value; a message
      shown under that field is blanked, and every other message stays. */
  function HandleChange(f: FormData, errors: map<Field, string>, field: Field, value: string)
    : (r: (FormData, map<Field, string>))
    ensures r.0 == Set(f, field, value)
    ensures r.1.Keys == errors.Keys
    ensures !Shows(r.1, field)
    ensures forall g :: g != field && g in errors ==> r.1[g] == errors[g]
  {
    (Set(f, field, value), if Shows(errors, field) then errors[field := ""] else errors)
  }

  // ---------------------------------------------------------------------
  // validateForm

  /** `/\S+@\S+\.\S+/.test(s)`: somewhere in s, a non-space character, an
      `@`, a run of non-space characters, a `.`, and a non-space
      character. */
  predicate EmailShaped(s: string) {
    exists a, d :: 0 < a < d < |s| && EmailAt(s, a, d)
  }

  /** The pattern matched with its `@` at a and its `.` at d. */
  predicate EmailAt(s: string, a: int, d: int) {
    0 < a && a + 1 < d && d + 1 < |s| && s[a] == '@' && s[d] == '.'
    && !IsWhitespace(s[a - 1]) && !IsWhitespace(s[d + 1]) && NoBlank(s[a + 1..d])
  }

  predicate NoBlank(t: string) {
    forall i :: 0 <= i < |t| ==> !IsWhitespace(t[i])
  }

  lemma EmailShapedExamples()
    ensures EmailShaped("a@b.c")
    ensures !EmailShaped("a@b")
    ensures !EmailShaped("@b.c")
  {
    assert EmailAt("a@b.c", 1, 3);
    var u := "@b.c";
    assert forall i :: 0 < i < |u| ==> u[i] != '@';
  }

  /** The message `validateForm` sets for one field, if any: a blank name,
      email or student id is required, an email not of the pattern is
      invalid, and a falsy grade level is required. */
  function Message(f: FormData, g: Field): (m: Option<string>)
    ensures g == FirstName ==>
              m == if IsBlank(f.firstName) then Some("First name is required") else None
    ensures g == LastName ==>
              m == if IsBlank(f.lastName) then Some("Last name is required") else None
    ensures g == Email ==>
              m == if IsBlank(f.email) then Some("Email is required")
                   else if !EmailShaped(f.email) then Some("Please enter a valid email")
                   else None
    ensures g == ExternalId ==>
              m == if IsBlank(f.id) then Some("Student ID is required") else None
    ensures g == GradeLevel ==>
              m == if LevelFalsy(f.gradeLevel) then Some("Grade level is required") else None
  {
    match g
    case FirstName => if IsBlank(f.firstName) then Some("First name is required") else None
    case LastName => if IsBlank(f.lastName) then Some("Last name is required") else None
    case Email =>
      if IsBlank(f.email) then Some("Email is required")
      else if !EmailShaped(f.email) then Some("Please enter a valid email")
      else None
    case ExternalId => if IsBlank(f.id) then Some("Student ID is required") else None
    case GradeLevel => if LevelFalsy(f.gradeLevel) then Some("Grade level is required") else None
  }

  const AllFields: set<Field> := {FirstName, LastName, Email, ExternalId, GradeLevel}

  lemma AllFieldsComplete()
    ensures forall g: Field :: g in AllFields
  {
    forall g: Field ensures g in AllFields {
      match g
      case FirstName =>
      case LastName =>
      case Email =>
      case ExternalId =>
      case GradeLevel =>
    }
  }

  /** The errors `validateForm` sets: a message for exactly the fields that
      fail their check, and no entry for the others. */
  function Validate(f: FormData): (e: map<Field, string>)
    ensures forall g :: g in e <==> Message(f, g).Some?
    ensures forall g :: g in e ==> e[g] == Message(f, g).value
  {
    AllFieldsComplete();
    map g | g in AllFields && Message(f, g).Some? :: Message(f, g).value
  }

  /** A form is valid when validation sets no message. */
  predicate Valid(f: FormData) {
    !IsBlank(f.firstName) && !IsBlank(f.lastName) && !IsBlank(f.email)
    && EmailShaped(f.email) && !IsBlank(f.id) && !LevelFalsy(f.gradeLevel)
  }

  lemma ValidIffNoErrors(f: FormData)
    ensures Valid(f) <==> Validate(f) == map[]
  {
    if !Valid(f) {
      var g :| g in AllFields && Message(f, g).Some?;
      assert g in Validate(f);
    } else {
      assert forall g: Field :: Message(f, g).None?;
    }
  }

  // ---------------------------------------------------------------------
  // handleSubmit

  /** `parseInt(formData.gradeLevel)`: a prefilled number is itself;
      the select's text goes through `parseInt`, NaN being `None`. */
  function LevelNumber(v: LevelValue, parseInt: string -> Option<int>): Option<int> {
    match v
    case Number(n) => Some(n)
    case Text(t) => parseInt(t)
  }

  /** `handleSubmit` as written: the errors of the form, and for a valid
      form with a numeric grade level, the payload with `currentGrade:
      student?.currentGrade || 0` and `attendanceRate:
      student?.attendanceRate || 100`. */
  function SubmitAsWritten(f: FormData, student: Option<Student>, parseInt: string -> Option<int>)
    : (r: (map<Field, string>, Option<StudentData>))
    ensures r.0 == Validate(f)
    ensures r.1.Some? <==> Valid(f) && LevelNumber(f.gradeLevel, parseInt).Some?
    ensures r.1.Some? ==>
              var d := r.1.value;
              d.id == f.id && d.firstName == f.firstName && d.lastName == f.lastName
              && d.email == f.email && Some(d.gradeLevel) == LevelNumber(f.gradeLevel, parseInt)
              && d.classIds == f.classIds
    ensures r.1.Some? && student.None? ==> r.1.value.currentGrade == 0 && r.1.value.attendanceRate == 100
    ensures r.1.Some? && student.Some? ==>
              r.1.value.currentGrade == student.value.currentGrade
              && (student.value.attendanceRate != 0 ==>
                    r.1.value.attendanceRate == student.value.attendanceRate)
    ensures r.1.Some? ==> r.1.value.attendanceRate != 0
    ensures r.1.Some? && student.Some? && student.value.attendanceRate == 0 ==>
              r.1.value.attendanceRate == 100
  {
    if Valid(f) && LevelNumber(f.gradeLevel, parseInt).Some? then
      var rate := if student.Some? && student.value.attendanceRate != 0
                  then student.value.attendanceRate else 100;
      var grade := if student.Some? then student.value.currentGrade else 0;
      (Validate(f), Some(StudentData(f.id, f.firstName, f.lastName, f.email,
                                     LevelNumber(f.gradeLevel, parseInt).value, f.classIds,
                                     grade, rate)))
    else (Validate(f), None)
  }

  /** `handleSubmit` with the student's rates kept whenever a student is
      being edited (`??` in place of `||`), defaults applying only to a new
      student. */
  function Submit(f: FormData, student: Option<Student>, parseInt: string -> Option<int>)
    : (r: (map<Field, string>, Option<StudentData>))
    ensures r.0 == Validate(f)
    ensures r.1.Some? <==> Valid(f) && LevelNumber(f.gradeLevel, parseInt).Some?
    ensures r.1.Some? ==>
              var d := r.1.value;
              d.id == f.id && d.firstName == f.firstName && d.lastName == f.lastName
              && d.email == f.email && Some(d.gradeLevel) == LevelNumber(f.gradeLevel, parseInt)
              && d.classIds == f.classIds
    ensures r.1.Some? && student.None? ==> r.1.value.currentGrade == 0 && r.1.value.attendanceRate == 100
    ensures r.1.Some? && student.Some? ==>
              r.1.value.currentGrade == student.value.currentGrade
              && r.1.value.attendanceRate == student.value.attendanceRate
  {
    if Valid(f) && LevelNumber(f.gradeLevel, parseInt).Some? then
      var grade := if student.Some? then student.value.currentGrade else 0;
      var rate := if student.Some? then student.value.attendanceRate else 100;
      (Validate(f), Some(StudentData(f.id, f.firstName, f.lastName, f.email,
                                     LevelNumber(f.gradeLevel, parseInt).value, f.classIds,
                                     grade, rate)))
    else (Validate(f), None)
  }

  /** A student whose form passes validation. */
  predicate Editable(s: Student) {
    !IsBlank(s.firstName) && !IsBlank(s.lastName) && !IsBlank(s.email) && EmailShaped(s.email)
    && !IsBlank(s.id) && s.gradeLevel != 0
  }

  /** The student's own data, as a payload. */
  function DataOf(s: Student): StudentData {
    StudentData(s.id, s.firstName, s.lastName, s.email, s.gradeLevel, s.classIds,
                s.currentGrade, s.attendanceRate)
  }

  /** Opening a student's form and saving it untouched hands back exactly
      the student's data. */
  lemma EditRoundTrip(s: Student, parseInt: string -> Option<int>)
    requires Editable(s)
    ensures Submit(Prefill(s), Some(s), parseInt) == (map[], Some(DataOf(s)))
  {
    ValidIffNoErrors(Prefill(s));
  }

  /** As written, saving the untouched form of a student with a 0%
      attendance rate sends a rate of 100, and the store's update
      overwrites the student's rate with it. */
  lemma EditResetsZeroAttendance(store: seq<Student>, k: nat, parseInt: string -> Option<int>)
    requires k < |store| && Editable(store[k]) && store[k].attendanceRate == 0
    requires StudentService.UniqueIds(store) && StudentService.UniqueExternalIds(store)
    ensures var d := SubmitAsWritten(Prefill(store[k]), Some(store[k]), parseInt).1;
            d.Some? && d.value.attendanceRate == 100
            && StudentService.Update(store, store[k].Id, d.value).Ok?
            && StudentService.Update(store, store[k].Id, d.value).value[k].attendanceRate == 100
  {
    var s := store[k];
    var d := SubmitAsWritten(Prefill(s), Some(s), parseInt).1;
    assert FirstIndex(store, StudentWithId(s.Id)) == k;
    assert FirstIndex(store, StudentService.ClashesWith(s.Id, d.value.id)) == -1;
  }

  /** With the rates kept, saving a student's untouched form leaves the
      store exactly as it was. */
  lemma EditUntouchedKeepsStore(store: seq<Student>, k: nat, parseInt: string -> Option<int>)
    requires k < |store| && Editable(store[k])
    requires StudentService.UniqueIds(store) && StudentService.UniqueExternalIds(store)
    ensures StudentService.Update(store, store[k].Id, DataOf(store[k])) == Ok(store)
    ensures Submit(Prefill(store[k]), Some(store[k]), parseInt).1 == Some(DataOf(store[k]))
  {
    var s := store[k];
    EditRoundTrip(s, parseInt);
    assert FirstIndex(store, StudentWithId(s.Id)) == k;
    assert FirstIndex(store, StudentService.ClashesWith(s.Id, s.id)) == -1;
    assert store[k := StudentService.Merge(s.Id, DataOf(s))] == store;
  }
}
