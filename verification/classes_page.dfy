/** The classes page (`src/components/pages/Classes.jsx`): a class card's
    roster, its subject badge colour, its avatar row, and the checks of the
    "create class" form. */
module ClassesPage {
  import opened Wrappers
  import opened Js
  import opened Seqs
  import opened Records

  /** `c => c.id === classId`: classes are looked up by external id. */
  function ClassWithExternalId(classId: string): ClassRecord -> bool {
    (c: ClassRecord) => c.id == classId
  }

  /** `getStudentsInClass(classId)`: nobody for an unknown class, otherwise
      the students enrolled in it, in roster order. */
  function StudentsInClass(classes: seq<ClassRecord>, students: seq<Student>, classId: string)
    : (r: seq<Student>)
    ensures (forall k :: 0 <= k < |classes| ==> classes[k].id != classId) ==> r == []
    ensures (exists k :: 0 <= k < |classes| && classes[k].id == classId) ==>
              forall s :: s in r <==> s in students && classId in s.classIds
  {
    if Find(classes, ClassWithExternalId(classId)).None? then [] else Enrolled(students, classId)
  }

  /** For a known class the roster is the enrolment filter, so a roster of
      two groups of students is the two groups' rosters in turn. */
  lemma StudentsInClassConcat(classes: seq<ClassRecord>, a: seq<Student>, b: seq<Student>,
                              classId: string)
    ensures StudentsInClass(classes, a + b, classId)
            == StudentsInClass(classes, a, classId) + StudentsInClass(classes, b, classId)
  {
    EnrolledConcat(a, b, classId);
  }

  // ---------------------------------------------------------------------
  // getSubjectColor

  const DefaultColor := "bg-gray-100 text-gray-800"

  /** The subjects with a colour of their own, and their colours. */
  const SubjectColors: seq<(string, string)> := [
    ("Mathematics", "bg-blue-100 text-blue-800"),
    ("English", "bg-green-100 text-green-800"),
    ("Science", "bg-purple-100 text-purple-800"),
    ("History", "bg-yellow-100 text-yellow-800"),
    ("Art", "bg-pink-100 text-pink-800")]

  /** The badge colour of a subject: its own for the five listed subjects,
      grey for any other. */
  function SubjectColor(subject: string): (r: string)
    ensures (forall i :: 0 <= i < |SubjectColors| ==> SubjectColors[i].0 != subject) ==> r == DefaultColor
    ensures forall i :: 0 <= i < |SubjectColors| && SubjectColors[i].0 == subject ==>
              r == SubjectColors[i].1
  {
    assert SubjectColors[0].0 == "Mathematics" && SubjectColors[1].0 == "English"
           && SubjectColors[2].0 == "Science" && SubjectColors[3].0 == "History"
           && SubjectColors[4].0 == "Art";
    match subject
    case "Mathematics" => "bg-blue-100 text-blue-800"
    case "English" => "bg-green-100 text-green-800"
    case "Science" => "bg-purple-100 text-purple-800"
    case "History" => "bg-yellow-100 text-yellow-800"
    case "Art" => "bg-pink-100 text-pink-800"
    case _ => DefaultColor
  }

  /** The five listed subjects have five different colours, none of them
      the grey of unlisted subjects. */
  lemma SubjectColorsDistinct(s: string, t: string)
    requires exists i :: 0 <= i < |SubjectColors| && SubjectColors[i].0 == s
    requires exists i :: 0 <= i < |SubjectColors| && SubjectColors[i].0 == t
    ensures SubjectColor(s) != DefaultColor
    ensures SubjectColor(s) == SubjectColor(t) ==> s == t
  {
  }

  // ---------------------------------------------------------------------
  // The avatar row

  /** The avatars of a class card: the first four students, and a "+n"
      badge for the rest when there are more than four. */
  function Avatars(roster: seq<Student>): (r: (seq<Student>, Option<int>))
    ensures |r.0| <= 4 && r.0 <= roster
    ensures |roster| <= 4 ==> r.0 == roster && r.1.None?
    ensures |roster| > 4 ==> r.1 == Some(|roster| - 4)
    ensures |r.0| + r.1.GetOr(0) == |roster|
  {
    if |roster| <= 4 then (roster, None) else (roster[..4], Some(|roster| - 4))
  }

  // ---------------------------------------------------------------------
  // handleCreateSubmit

  datatype ClassForm = ClassForm(name: string, subject: string, period: string)

  /** The class a submitted form creates: nothing when any field is blank,
      otherwise the trimmed fields with no roster. */
  function CreateSubmit(form: ClassForm): (r: Option<ClassData>)
    ensures r.None? <==> IsBlank(form.name) || IsBlank(form.subject) || IsBlank(form.period)
    ensures r.Some? ==>
              r.value.name == Trim(form.name) && r.value.subject == Trim(form.subject)
              && r.value.period == Trim(form.period)
              && r.value.id.None? && r.value.studentIds.None?
    ensures r.Some? ==> r.value.name != "" && r.value.subject != "" && r.value.period != ""
  {
    if IsBlank(form.name) || IsBlank(form.subject) || IsBlank(form.period) then None
    else Some(ClassData(None, Trim(form.name), Trim(form.subject), Trim(form.period), None))
  }
}
