/** One cell of the grade grid (`src/components/molecules/GradeCell.jsx`):
    what it displays for a grade and the score-entry state machine behind
    it. The cell caps an entered score at the assignment's points and
    otherwise reports the new score upwards. */
module GradeCell {
  import opened Wrappers
  import opened Js
  import opened Records
  import opened GradeUtils

  // ---------------------------------------------------------------------
  // Display

  /** What a cell shows: the percentage, the letter ("-" when there is no
      submitted grade) and the colour class ("" likewise). */
  datatype CellView = CellView(percentage: int, letter: string, color: string)

  /** The displayed percentage, letter and colour of a cell. */
  function View(grade: Option<Grade>, points: int): (v: CellView)
    ensures !(grade.Some? && grade.value.submitted) ==> v == CellView(0, "-", "")
    ensures grade.Some? && grade.value.submitted ==>
              v.percentage == Percentage(grade.value.score, points)
              && v.letter == LetterText(LetterGrade(v.percentage))
              && v.color == GradeColor(v.percentage)
  {
    if grade.Some? && grade.value.submitted then
      var p := Percentage(grade.value.score, points);
      CellView(p, LetterText(LetterGrade(p)), GradeColor(p))
    else CellView(0, "-", "")
  }

  /** A submitted grade always shows a real letter and colour, and the two
      agree: the colour is the colour of the displayed letter's band. */
  lemma ViewLetterMatchesColor(grade: Grade, points: int)
    requires grade.submitted
    ensures View(Some(grade), points).letter != "-"
    ensures View(Some(grade), points).color == ColorOf(LetterGrade(View(Some(grade), points).percentage))
  {
    GradeColorMatchesLetter(View(Some(grade), points).percentage, 0);
  }

  // ---------------------------------------------------------------------
  // Score entry

  /** The content of the edit box: empty, a number put there by the cell,
      or text the user typed. */
  datatype Entry = Blank | Number(x: real) | Typed(text: string)

  datatype CellState = CellState(editing: bool, temp: Entry)

  /** What a save reports to the grid: the grade the cell was showing (if
      any) with the new score, marked submitted. */
  datatype Edited = Edited(base: Option<Grade>, score: real)

  /** `grade?.score || ""`: a missing grade or a zero score shows an empty
      box. */
  function InitialEntry(grade: Option<Grade>): (e: Entry)
    ensures e.Blank? <==> grade.None? || grade.value.score == 0.0
    ensures e.Number? ==> e.x == grade.value.score
  {
    if grade.Some? && grade.value.score != 0.0 then Number(grade.value.score) else Blank
  }

  /** The initial state: not editing, box holding the grade's score. */
  function Initial(grade: Option<Grade>): (s: CellState)
    ensures !s.editing
  {
    CellState(false, InitialEntry(grade))
  }

  /** `parseFloat(tempScore) || 0`: the number in the box, with an empty or
      unreadable entry (NaN) read as 0. `parse` is the reading of typed text,
      `None` for NaN. */
  function EntryScore(e: Entry, parse: string -> Option<real>): (x: real)
    ensures e.Blank? ==> x == 0.0
    ensures e.Number? ==> x == e.x
    ensures e.Typed? ==> x == (if parse(e.text).Some? then parse(e.text).value else 0.0)
  {
    match e
    case Blank => 0.0
    case Number(v) => v
    case Typed(s) => if parse(s).Some? then parse(s).value else 0.0
  }

  /** Clicking the cell: a non-editable cell ignores the click; otherwise
      editing starts with the box holding the grade's score. */
  function Edit(s: CellState, editable: bool, grade: Option<Grade>): (r: CellState)
    ensures !editable ==> r == s
    ensures editable ==> r.editing && r.temp == InitialEntry(grade)
  {
    if !editable then s else CellState(true, InitialEntry(grade))
  }

  /** Typing into the box replaces its content and nothing else. */
  function Type(s: CellState, text: string): (r: CellState)
    ensures r.editing == s.editing && r.temp == Typed(text)
  {
    s.(temp := Typed(text))
  }

  /** Saving (Enter or leaving the box). A score above the assignment's
      points puts the points in the box, reports nothing and keeps editing;
      any other score, negative ones included, is reported and editing
      ends. */
  function Save(s: CellState, grade: Option<Grade>, points: int,
                parse: string -> Option<real>): (r: (CellState, Option<Edited>))
    ensures var score := EntryScore(s.temp, parse);
            if score > points as real
            then r == (CellState(s.editing, Number(points as real)), None)
            else r.1 == Some(Edited(grade, score)) && !r.0.editing && r.0.temp == s.temp
  {
    var score := EntryScore(s.temp, parse);
    if score > points as real then (s.(temp := Number(points as real)), None)
    else (s.(editing := false), Some(Edited(grade, score)))
  }

  /** Cancelling restores the grade's score in the box and ends editing. */
  function Cancel(s: CellState, grade: Option<Grade>): (r: CellState)
    ensures !r.editing && r.temp == Initial(grade).temp
  {
    CellState(false, InitialEntry(grade))
  }

  datatype Key = Enter | Escape | OtherKey

  /** A key in the box: Enter saves, Escape cancels, anything else does
      nothing. */
  function KeyDown(s: CellState, key: Key, grade: Option<Grade>, points: int,
                   parse: string -> Option<real>): (r: (CellState, Option<Edited>))
    ensures key == Enter ==> r == Save(s, grade, points, parse)
    ensures key == Escape ==> r == (Cancel(s, grade), None)
    ensures key == OtherKey ==> r == (s, None)
  {
    match key
    case Enter => Save(s, grade, points, parse)
    case Escape => (Cancel(s, grade), None)
    case OtherKey => (s, None)
  }

  /** Every score a cell reports is at most the assignment's points: only
      the upper bound is enforced. */
  lemma SavedScoreCapped(s: CellState, grade: Option<Grade>, points: int,
                         parse: string -> Option<real>)
    ensures var r := Save(s, grade, points, parse);
            r.1.Some? ==> r.1.value.score <= points as real
  {
  }

  /** A negative entry is reported as it is: there is no lower bound. */
  lemma NegativeScoreAccepted(s: CellState, grade: Option<Grade>, points: int, x: real)
    requires x < 0.0 && 0 <= points
    ensures Save(s.(temp := Number(x)), grade, points, t => None).1 == Some(Edited(grade, x))
  {
  }

  /** After a capped save the box holds the points, so saving again reports
      exactly the points. */
  lemma SaveAfterCapReportsPoints(s: CellState, grade: Option<Grade>, points: int,
                                  parse: string -> Option<real>)
    requires EntryScore(s.temp, parse) > points as real
    ensures var capped := Save(s, grade, points, parse).0;
            Save(capped, grade, points, parse).1 == Some(Edited(grade, points as real))
  {
  }

  /** An empty or unreadable entry saves as score 0 (when 0 is within the
      points). */
  lemma UnreadableEntrySavesZero(s: CellState, grade: Option<Grade>, points: int,
                                 parse: string -> Option<real>)
    requires 0 <= points
    requires s.temp.Blank? || (s.temp.Typed? && parse(s.temp.text).None?)
    ensures Save(s, grade, points, parse).1 == Some(Edited(grade, 0.0))
  {
  }

  /** Starting to edit and then cancelling returns the cell to its initial
      state. */
  lemma EditCancelRestores(grade: Option<Grade>)
    ensures Cancel(Edit(Initial(grade), true, grade), grade) == Initial(grade)
  {
  }
}
