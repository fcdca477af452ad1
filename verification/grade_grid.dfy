/** The grade grid (`src/components/organisms/GradeGrid.jsx`): which rows and
    columns a class selection shows, which grade sits in a cell, the
    per-student and per-assignment averages, and the payload a cell's edit
    sends to the page. */
module GradeGrid {
  import opened Wrappers
  import opened Js
  import opened Seqs
  import opened Records
  import opened GradeUtils
  import GradeCell

  // ---------------------------------------------------------------------
  // Class selection

  /** The assignment columns: those of the selected class, or all of them
      when no class is selected (the empty selection is falsy). */
  function ShownAssignments(assignments: seq<Assignment>, selected: string): (r: seq<Assignment>)
    ensures selected == "" ==> r == assignments
    ensures selected != "" ==> forall a :: a in r <==> a in assignments && a.classId == selected
    ensures |r| <= |assignments|
  {
    if selected == "" then assignments
    else Filter(assignments, AssignmentOfClass(selected))
  }

  /** When every assignment already belongs to the selected class, selecting
      it hides no column. */
  lemma ShownAssignmentsAllOfClass(assignments: seq<Assignment>, selected: string)
    requires forall i :: 0 <= i < |assignments| ==> assignments[i].classId == selected
    ensures ShownAssignments(assignments, selected) == assignments
  {
    if selected != "" {
      FilterKeepsAll(assignments, AssignmentOfClass(selected));
    }
  }

  // ---------------------------------------------------------------------
  // getGradeForStudent

  /** The grade shown in a cell: the first grade of that student for that
      assignment. */
  function GradeFor(grades: seq<Grade>, studentId: int, assignmentId: int): (r: Option<Grade>)
    ensures r.None? <==>
              forall j :: 0 <= j < |grades| ==>
                grades[j].studentId != studentId || grades[j].assignmentId != assignmentId
    ensures r.Some? ==> r.value in grades
                        && r.value.studentId == studentId && r.value.assignmentId == assignmentId
  {
    Find(grades, GradeForCell(studentId, assignmentId))
  }

  /** The first matching grade wins: a later duplicate for the same cell is
      never shown. */
  lemma GradeForFirstMatch(grades: seq<Grade>, studentId: int, assignmentId: int, i: nat)
    requires i < |grades|
    requires grades[i].studentId == studentId && grades[i].assignmentId == assignmentId
    requires forall j :: 0 <= j < i ==>
               grades[j].studentId != studentId || grades[j].assignmentId != assignmentId
    ensures GradeFor(grades, studentId, assignmentId) == Some(grades[i])
  {
    assert FirstIndex(grades, GradeForCell(studentId, assignmentId)) == i;
  }

  // ---------------------------------------------------------------------
  // getStudentAverage / getAssignmentAverage

  /** `grade.score / assignment.points * 100` with the assignment looked up
      by the grade's assignmentId. A missing assignment makes the source
      throw and a zero-point assignment makes the quotient infinite or NaN;
      both are `None`. */
  function GradePercent(g: Grade, assignments: seq<Assignment>): (r: Option<real>)
    ensures r.None? <==> Find(assignments, AssignmentWithId(g.assignmentId)).None?
                         || Find(assignments, AssignmentWithId(g.assignmentId)).value.points == 0
  {
    match Find(assignments, AssignmentWithId(g.assignmentId))
    case None => None
    case Some(a) => if a.points == 0 then None else Some(g.score / a.points as real * 100.0)
  }

  /** The percentages of a list of grades, in order; `None` as soon as one of
      them has none. */
  function Percentages(gs: seq<Grade>, assignments: seq<Assignment>): (r: Option<seq<real>>)
    ensures r.Some? <==> forall i :: 0 <= i < |gs| ==> GradePercent(gs[i], assignments).Some?
    ensures r.Some? ==> |r.value| == |gs|
    ensures r.Some? ==> forall i :: 0 <= i < |gs| ==> r.value[i] == GradePercent(gs[i], assignments).value
  {
    if gs == [] then Some([])
    else
      match GradePercent(gs[0], assignments)
      case None => None
      case Some(p) =>
        match Percentages(gs[1..], assignments)
        case None => None
        case Some(ps) => Some([p] + ps)
  }

  /** The submitted grades of one student. */
  function StudentGrades(grades: seq<Grade>, studentId: int): (r: seq<Grade>)
    ensures forall g :: g in r <==> g in grades && g.studentId == studentId && g.submitted
  {
    Filter(grades, (g: Grade) => g.studentId == studentId && g.submitted)
  }

  /** The submitted grades for one assignment. */
  function AssignmentGrades(grades: seq<Grade>, assignmentId: int): (r: seq<Grade>)
    ensures forall g :: g in r <==> g in grades && g.assignmentId == assignmentId && g.submitted
  {
    Filter(grades, (g: Grade) => g.assignmentId == assignmentId && g.submitted)
  }

  /** A student's average: 0 with no submitted grades, otherwise the rounded
      mean percentage over the submitted grades; `None` when one of those
      grades names a missing or zero-point assignment. */
  function StudentAverage(grades: seq<Grade>, assignments: seq<Assignment>, studentId: int)
    : (r: Option<int>)
    ensures |StudentGrades(grades, studentId)| == 0 ==> r == Some(0)
    ensures var gs := StudentGrades(grades, studentId);
            r.None? <==> exists i :: 0 <= i < |gs| && GradePercent(gs[i], assignments).None?
    ensures r.Some? && |StudentGrades(grades, studentId)| > 0 ==>
              var ps := Percentages(StudentGrades(grades, studentId), assignments).value;
              r.value as real - 0.5 <= Sum(ps) / |ps| as real < r.value as real + 0.5
  {
    var gs := StudentGrades(grades, studentId);
    if |gs| == 0 then Some(0)
    else
      match Percentages(gs, assignments)
      case None => None
      case Some(ps) => Some(ClassAverage(ps))
  }

  /** An assignment's average: 0 with no submitted grades, otherwise the
      rounded mean of score / points * 100 over them; `None` when the
      assignment is missing or has zero points. */
  function AssignmentAverage(grades: seq<Grade>, assignments: seq<Assignment>, assignmentId: int)
    : (r: Option<int>)
    ensures |AssignmentGrades(grades, assignmentId)| == 0 ==> r == Some(0)
    ensures |AssignmentGrades(grades, assignmentId)| > 0 ==>
              (r.None? <==> Find(assignments, AssignmentWithId(assignmentId)).None?
                            || Find(assignments, AssignmentWithId(assignmentId)).value.points == 0)
  {
    var gs := AssignmentGrades(grades, assignmentId);
    if |gs| == 0 then Some(0)
    else
      match Find(assignments, AssignmentWithId(assignmentId))
      case None => None
      case Some(a) =>
        if a.points == 0 then None
        else
          var ps := seq(|gs|, i requires 0 <= i < |gs| => gs[i].score / a.points as real * 100.0);
          Some(ClassAverage(ps))
  }

  /** Every grade of an assignment has the assignment's percentage, so the
      assignment average is the same computation as a student average over
      those grades: the mean of their per-grade percentages. */
  lemma AssignmentAverageIsMeanOfPercentages(grades: seq<Grade>, assignments: seq<Assignment>,
                                             assignmentId: int)
    requires |AssignmentGrades(grades, assignmentId)| > 0
    ensures var gs := AssignmentGrades(grades, assignmentId);
            AssignmentAverage(grades, assignments, assignmentId)
            == match Percentages(gs, assignments)
               case None => None
               case Some(ps) => Some(ClassAverage(ps))
  {
    var gs := AssignmentGrades(grades, assignmentId);
    assert forall i :: 0 <= i < |gs| ==> gs[i].assignmentId == assignmentId by {
      forall i | 0 <= i < |gs| ensures gs[i].assignmentId == assignmentId {
        assert gs[i] in gs;
      }
    }
    match Find(assignments, AssignmentWithId(assignmentId))
    case None =>
      assert GradePercent(gs[0], assignments).None?;
    case Some(a) =>
      if a.points == 0 {
        assert GradePercent(gs[0], assignments).None?;
      } else {
        var ps := seq(|gs|, i requires 0 <= i < |gs| => gs[i].score / a.points as real * 100.0);
        forall i | 0 <= i < |gs| ensures GradePercent(gs[i], assignments) == Some(ps[i]) {
          assert gs[i].assignmentId == assignmentId;
        }
        assert Percentages(gs, assignments).value == ps;
      }
  }

  /** When every graded assignment exists with positive points and every
      score lies between 0 and those points, an average is a percentage in
      0..100. */
  lemma StudentAverageInRange(grades: seq<Grade>, assignments: seq<Assignment>, studentId: int)
    requires forall g :: g in grades ==>
               Find(assignments, AssignmentWithId(g.assignmentId)).Some?
               && 0 < Find(assignments, AssignmentWithId(g.assignmentId)).value.points
               && 0.0 <= g.score <= Find(assignments, AssignmentWithId(g.assignmentId)).value.points as real
    ensures StudentAverage(grades, assignments, studentId).Some?
    ensures 0 <= StudentAverage(grades, assignments, studentId).value <= 100
  {
    var gs := StudentGrades(grades, studentId);
    if |gs| > 0 {
      assert forall i :: 0 <= i < |gs| ==> GradePercent(gs[i], assignments).Some? by {
        forall i | 0 <= i < |gs| ensures GradePercent(gs[i], assignments).Some? {
          assert gs[i] in gs;
        }
      }
      var ps := Percentages(gs, assignments).value;
      forall i | 0 <= i < |ps| ensures 0.0 <= ps[i] <= 100.0 {
        assert gs[i] in gs;
        var a := Find(assignments, AssignmentWithId(gs[i].assignmentId)).value;
        FractionWithin(gs[i].score, a.points as real);
      }
      MeanOfWithin(ps, 0.0, 100.0);
      RoundWithin(Sum(ps) / |ps| as real, 0, 100);
    }
  }

  // ---------------------------------------------------------------------
  // Cell edits

  /** `{ ...updatedGrade, studentId: student.Id, assignmentId: assignment.Id }`
      over the cell's `{ ...grade, score, submitted: true }`: the payload
      keeps the shown grade's Id, if any, and carries the cell's own keys. */
  function CellChange(studentId: int, assignmentId: int, edited: GradeCell.Edited): (d: GradeData)
    ensures d.studentId == studentId && d.assignmentId == assignmentId
    ensures d.score == edited.score && d.submitted
    ensures d.Id.Some? <==> edited.base.Some?
    ensures edited.base.Some? ==> d.Id.value == edited.base.value.Id
  {
    GradeData(if edited.base.Some? then Some(edited.base.value.Id) else None,
              studentId, assignmentId, edited.score, true)
  }

  /** A save from the cell of (student, assignment) yields a payload for
      that cell whatever grade the cell was showing, with the score capped
      at the assignment's points. */
  lemma CellSaveTargetsCell(grades: seq<Grade>, student: Student, assignment: Assignment,
                            s: GradeCell.CellState, parse: string -> Option<real>)
    ensures var shown := GradeFor(grades, student.Id, assignment.Id);
            var saved := GradeCell.Save(s, shown, assignment.points, parse).1;
            saved.Some? ==>
              var d := CellChange(student.Id, assignment.Id, saved.value);
              d.studentId == student.Id && d.assignmentId == assignment.Id
              && d.score <= assignment.points as real
              && (d.Id.Some? ==> exists g :: g in grades && g.Id == d.Id.value
                                            && g.studentId == student.Id
                                            && g.assignmentId == assignment.Id)
  {
    GradeCell.SavedScoreCapped(s, GradeFor(grades, student.Id, assignment.Id), assignment.points, parse);
  }
}
