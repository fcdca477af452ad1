/** The grades page (`src/components/pages/Grades.jsx`): how a saved cell
    change reaches the grade store and the page's own copy of the grades,
    and the checks and defaults of "Add Assignment". */
module GradesPage {
  import opened Wrappers
  import opened Js
  import opened Seqs
  import opened Records
  import opened GradeService
  import GradeGrid
  import GradeCell
  import AssignmentService

  // ---------------------------------------------------------------------
  // handleGradeChange

  /** The local grade of the payload's cell. */
  function LocalIndex(local: seq<Grade>, d: GradeData): int {
    FirstIndex(local, GradeForCell(d.studentId, d.assignmentId))
  }

  /** `{ ...grade, ...gradeData }`: the payload's fields, and the grade's
      own Id when the payload has none. */
  function LocalMerge(g: Grade, d: GradeData): (r: Grade)
    ensures r.Id == d.Id.GetOr(g.Id)
    ensures r.studentId == d.studentId && r.assignmentId == d.assignmentId
    ensures r.score == d.score && r.submitted == d.submitted
  {
    Grade(d.Id.GetOr(g.Id), d.studentId, d.assignmentId, d.score, d.submitted)
  }

  /** The local list after a saved change: merged into the grade of the
      payload's cell, or appended with the current time (`nowId`) as Id. */
  function LocalUpsert(local: seq<Grade>, d: GradeData, nowId: int): (r: seq<Grade>)
    ensures LocalIndex(local, d) >= 0 ==>
              |r| == |local| && r[LocalIndex(local, d)] == LocalMerge(local[LocalIndex(local, d)], d)
              && forall k :: 0 <= k < |local| && k != LocalIndex(local, d) ==> r[k] == local[k]
    ensures LocalIndex(local, d) < 0 ==>
              |r| == |local| + 1 && r[..|local|] == local
              && r[|local|] == Grade(nowId, d.studentId, d.assignmentId, d.score, d.submitted)
  {
    var i := LocalIndex(local, d);
    if i >= 0 then local[i := LocalMerge(local[i], d)]
    else local + [Grade(nowId, d.studentId, d.assignmentId, d.score, d.submitted)]
  }

  /** `handleGradeChange(gradeData)`: the service update by the payload's
      cell and, once it has succeeded (`served`), the local upsert; a
      failed call leaves the local list alone. */
  function HandleChange(local: seq<Grade>, d: GradeData, served: bool, nowId: int)
    : (r: seq<Grade>)
    ensures !served ==> r == local
    ensures served ==> |local| <= |r| <= |local| + 1
  {
    if served then LocalUpsert(local, d, nowId) else local
  }

  /** The page always updates by the payload's cell; with unique Ids this
      is the same as creating the payload. */
  lemma UpdateByCellIsCreate(store: seq<Grade>, d: GradeData)
    requires |store| > 0 && UniqueIds(store)
    ensures Update(store, ByCell(d.studentId, d.assignmentId), d) == Create(store, d)
  {
    if UpdateIndex(store, ByCell(d.studentId, d.assignmentId)) >= 0 {
      assert UpdateIndex(store, ByCell(d.studentId, d.assignmentId)) == CellIndex(store, d);
      CreateMergesCell(store, d);
    }
  }

  /** For a submitted payload the page's local upsert does to its copy what
      the service does to the store, except that a new grade gets the
      current time instead of the next Id. */
  lemma ServiceMatchesLocal(store: seq<Grade>, d: GradeData)
    requires |store| > 0 && UniqueIds(store) && d.submitted
    ensures Update(store, ByCell(d.studentId, d.assignmentId), d) == LocalUpsert(store, d, NextId(store))
  {
    UpdateByCellIsCreate(store, d);
    if CellIndex(store, d) >= 0 {
      CreateMergesCell(store, d);
    }
  }

  /** Saving a cell's edit, with the cell showing the store's grade for it,
      keeps Ids unique and at most one grade per cell. */
  lemma CellSaveKeepsInvariants(store: seq<Grade>, studentId: int, assignmentId: int, score: real)
    requires |store| > 0 && UniqueIds(store) && UniqueCells(store)
    ensures var edited := GradeCell.Edited(GradeGrid.GradeFor(store, studentId, assignmentId), score);
            var d := GradeGrid.CellChange(studentId, assignmentId, edited);
            var r := Update(store, ByCell(studentId, assignmentId), d);
            UniqueIds(r) && UniqueCells(r)
  {
    var edited := GradeCell.Edited(GradeGrid.GradeFor(store, studentId, assignmentId), score);
    var d := GradeGrid.CellChange(studentId, assignmentId, edited);
    assert IdFits(store, d) by {
      if d.Id.Some? {
        var i := FirstIndex(store, GradeForCell(studentId, assignmentId));
        assert edited.base.value == store[i];
        forall k | 0 <= k < |store| && store[k].Id == d.Id.value
          ensures store[k].studentId == d.studentId && store[k].assignmentId == d.assignmentId
        {
          assert k == i;
        }
      }
    }
    UpdateByCellIsCreate(store, d);
    CreateKeepsIdsUnique(store, d);
    CreateKeepsCellsUnique(store, d);
  }

  // ---------------------------------------------------------------------
  // handleAddAssignment

  /** The answers to the three prompts; `None` for a cancelled prompt. */
  datatype Answers = Answers(name: Option<string>, points: Option<string>, dueDate: Option<string>)

  /** `!s`: a missing or empty answer. */
  predicate Falsy(s: Option<string>) {
    s.None? || s.value == ""
  }

  /** `!name || name.trim() === ""`. */
  predicate NameMissing(answers: Answers) {
    Falsy(answers.name) || IsBlank(answers.name.value)
  }

  /** `!pointsInput || isNaN(points) || points <= 0`, with `parseInt` a
      parameter (`None` for NaN). */
  predicate PointsInvalid(answers: Answers, parseInt: string -> Option<int>) {
    Falsy(answers.points) || parseInt(answers.points.value).None?
    || parseInt(answers.points.value).value <= 0
  }

  /** `dueDateInput && dueDateInput.trim() !== ""`. */
  predicate DueDateGiven(answers: Answers) {
    !Falsy(answers.dueDate) && !IsBlank(answers.dueDate.value)
  }

  /** The payload "Add Assignment" creates, or the message it shows. The
      name must be non-blank; the points text must be non-empty and read
      as a positive integer; a given due date must be a valid date
      (`validDate`, a parameter here) and otherwise the due date is
      `today`. The trimmed name is used, the category is "Homework", the
      class "class1", the description empty and no weight is given. */
  function AddAssignment(answers: Answers, parseInt: string -> Option<int>,
                         validDate: string -> bool, today: string): (r: Result<AssignmentData>)
    ensures NameMissing(answers) ==> r == Err("Assignment name is required")
    ensures !NameMissing(answers) && PointsInvalid(answers, parseInt) ==>
              r == Err("Please enter a valid points value")
    ensures !NameMissing(answers) && !PointsInvalid(answers, parseInt) && DueDateGiven(answers)
            && !validDate(answers.dueDate.value) ==>
              r == Err("Please enter a valid date in YYYY-MM-DD format")
    ensures r.Ok? ==>
              r.value.name == Trim(answers.name.value) && r.value.name != ""
              && r.value.points > 0 && Some(r.value.points) == parseInt(answers.points.value)
              && r.value.category == "Homework" && r.value.classId == "class1"
              && r.value.description == "" && r.value.weight.None?
    ensures r.Ok? ==>
              r.value.dueDate == if DueDateGiven(answers) then answers.dueDate else Some(today)
  {
    if NameMissing(answers) then Err("Assignment name is required")
    else if PointsInvalid(answers, parseInt) then Err("Please enter a valid points value")
    else if DueDateGiven(answers) && !validDate(answers.dueDate.value) then
      Err("Please enter a valid date in YYYY-MM-DD format")
    else
      var due := if DueDateGiven(answers) then answers.dueDate.value else today;
      Ok(AssignmentData(Trim(answers.name.value), "Homework", parseInt(answers.points.value).value,
                        Some(due), "class1", None, ""))
  }

  /** A successful "Add Assignment" appends one assignment to the store: of
      class "class1", category "Homework", with the trimmed name, positive
      points and weight 0.2, due on the given date or today. */
  lemma AddAssignmentAppends(store: seq<Assignment>, answers: Answers, parseInt: string -> Option<int>,
                             validDate: string -> bool, today: string)
    requires |store| > 0
    requires AddAssignment(answers, parseInt, validDate, today).Ok?
    ensures var d := AddAssignment(answers, parseInt, validDate, today).value;
            var r := AssignmentService.Create(store, d, today);
            var a := r[|store|];
            a.name == Trim(answers.name.value) && a.category == "Homework" && a.classId == "class1"
            && a.points > 0 && a.weight == 0.2
            && a.dueDate == (if DueDateGiven(answers) then answers.dueDate.value else today)
  {
  }
}
