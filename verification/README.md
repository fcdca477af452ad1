# School dashboard rule layer, in Dafny

This project models the rule layer of a React school dashboard: the grade
arithmetic, the attendance rules, the five in-memory record stores behind
the pages, and the list and form logic of the Students, Grades, Attendance
and Classes pages. Each rule is a pure Dafny function over immutable
records. The project proves what each rule promises: upserts keep keys
unique, buckets partition, results stay in bounds, and nothing outside the
touched record changes.

Layout, one module per source file plus four shared modules:

- `wrappers.dfy`: `Option` and `Result`, the error paths of the services.
- `js.dfy`: the JavaScript built-ins the code leans on.
  - `Math.round` is `Floor(x + 1/2)` over exact reals.
  - `toLowerCase`/`toUpperCase` work on ASCII letters.
  - `includes` and `trim`, with the ECMAScript white-space set.
  - `String(n)` for integers, and `padStart(2, '0')`.
- `seqs.dfy`: `filter`, `find`/`findIndex`, `splice`, `Math.max` over a
  key, sums, and the `reduce` that tallies values into an object.
- `records.dfy`: Student, Assignment, Grade, AttendanceRecord and Class,
  plus the partial payloads the pages send.
  - A field that JavaScript leaves out of a payload object is `None` or
    `JsVal.Undef`.
  - `{ ...record, ...payload }` keeps the record's value for every field the
    payload leaves out.
  - Foreign keys that the code mixes between numbers, strings and
    `undefined` are `JsVal`, and `===` on them is datatype equality.
- `grade_utils.dfy`, `date_utils.dfy`, `layout.dfy`: the utilities and the
  page title.
- `grade_cell.dfy`, `attendance_cell.dfy`, `search_bar.dfy`: the molecules.
- `grade_grid.dfy`, `attendance_grid.dfy`, `student_table.dfy`,
  `student_form.dfy`: the organisms.
- `grade_service.dfy`, `attendance_service.dfy`, `student_service.dfy`,
  `class_service.dfy`, `assignment_service.dfy`: the stores.
  - Each store is a `seq` of records.
  - Each service call is one synchronous transition from the old store to
    the new one.
  - A thrown error is `Err` with the source's message.
- `grades_page.dfy`, `attendance_page.dfy`, `students_page.dfy`,
  `classes_page.dfy`: the page handlers.

Values the code takes from the outside world are parameters of the model:
- the clock: "today" as a `YYYY-MM-DD` string, and the `Date.now()` Id of a
  locally appended record;
- the answers to `prompt`;
- the results of `parseInt`, `parseFloat` and the `Date` validity check;
- whether a service call succeeded;
- the formatted text of a date.

Surrogate Ids are `Math.max(...Ids) + 1`, which is `-Infinity + 1` on an
empty store. Every allocating operation therefore requires a non-empty
store.

Behaviours of the code worth knowing:
- **Default weights.** The code uses `||` for defaults. A category weight
  or assignment weight of 0 is therefore replaced by the default (1,
  respectively 0.2), not only a missing one.
- **Grade level.** Grade level 9..12 is not enforced anywhere in the code.
  The form only requires a truthy grade level.
- **Derived fields.** A student's `currentGrade` and `attendanceRate` are
  stored fields. The form passes them through; no code recomputes them.
- **Empty-cell click.** A status change from an empty attendance cell
  carries no student and no class (Findings, row 1).
- **No clamping.** Percentages are never clamped. The grade cell caps a
  score at the assignment's points but accepts negative scores.
- **Attendance-rate defaults.** The per-student rate defaults to 100 while
  the store-wide rate defaults to 0. Both defaults are modelled as written.

## Model

| member | source | states |
|---|---|---|
| Js.Round | src/utils/gradeUtils.js:3 | `Math.round` gives the integer nearest to x, with halves rounded up. |
| Js.Lower | src/services/api/studentService.js:88 | Lower-casing keeps the length and lowers each character in place. |
| Js.LowerIdempotent | src/services/api/studentService.js:88-93 | Lower-casing an already lowered query changes nothing. |
| Js.Trim | src/components/pages/Students.jsx:42 | The trimmed text is the input with a white-space prefix and a white-space suffix removed, and it neither starts nor ends with white space. |
| Js.BlankIffAllWhitespace | src/components/pages/Students.jsx:42 | A query is blank after trimming exactly when every character is white space. |
| Js.ParseNatToString | src/utils/dateUtils.js:42 | Reading the decimal text of a natural number gives the number back. |
| Js.IntToStringInjective | src/components/pages/Students.jsx:61 | Two integers with the same `toString()` text are equal. |
| Js.PadStart2 | src/utils/dateUtils.js:42 | A text of two or more characters is kept; a shorter one is left-filled with '0' to exactly two. |
| GradeUtils.Percentage | src/utils/gradeUtils.js:1-4 | A zero total gives 0 with no division; otherwise the result is score/total×100 rounded to the nearest integer. |
| GradeUtils.PercentageInRange | src/utils/gradeUtils.js:3 | For 0 ≤ score ≤ total with total > 0 the percentage lies in 0..100. |
| GradeUtils.PercentageMonotone | src/utils/gradeUtils.js:3 | For a fixed positive total, a higher score never gives a lower percentage. |
| GradeUtils.PercentageExamples | src/utils/gradeUtils.js:1-4 | (0, 0) gives 0, (85, 100) gives 85 and (42, 50) gives 84. |
| GradeUtils.LetterGrade | src/utils/gradeUtils.js:6-12 | A iff p ≥ 90, B iff 80 ≤ p < 90, C iff 70 ≤ p < 80, D iff 60 ≤ p < 70, F iff p < 60. |
| GradeUtils.GradeColorMatchesLetter | src/utils/gradeUtils.js:14-20 | The colour class is the letter's colour, and two percentages share a colour iff they share a letter. |
| GradeUtils.ClassAverage | src/utils/gradeUtils.js:22-26 | An empty list gives 0; otherwise the result is the rounded mean, between the rounded minimum and maximum. |
| GradeUtils.EarnedOnFirstMatch | src/utils/gradeUtils.js:42-45 | Only the first grade for an assignment counts, and only its submitted score; later duplicates are ignored. |
| GradeUtils.EarnedOnMissing | src/utils/gradeUtils.js:42-45 | An assignment without a grade earns nothing. |
| GradeUtils.CategoriesExact | src/utils/gradeUtils.js:29-38 | The category keys are exactly the assignments' categories, each listed once. |
| GradeUtils.CategoriesSnoc | src/utils/gradeUtils.js:31-38 | An assignment adds its category at the end only when the category is not yet known. |
| GradeUtils.AccumulateCategories | src/utils/gradeUtils.js:29-46 | The loop over assignments leaves one entry per category holding its total points, its earned points and its weight (`weights[c] \|\| 1`). |
| GradeUtils.ComputeWeightedGrade | src/utils/gradeUtils.js:28-60 | The two-loop computation equals the reference definition: the rounded weighted mean over categories with positive totals, or 0. |
| GradeUtils.WeightedSumsBounded | src/utils/gradeUtils.js:48-57 | With earned within totals and non-negative weights, the weighted sum lies between 0 and 100 times the sum of contributing weights. |
| GradeUtils.WeightedGradeInRange | src/utils/gradeUtils.js:28-60 | Under the same conditions the weighted grade lies in 0..100. |
| GradeUtils.NoContributionNoWeight | src/utils/gradeUtils.js:51-57 | Categories without positive total points add nothing to the numerator or the denominator. |
| GradeUtils.WeightedGradeWithoutPoints | src/utils/gradeUtils.js:48-59 | When no category has points, the weighted grade is 0. |
| GradeUtils.WeightedGradeExample | src/utils/gradeUtils.js:28-60 | Homework 80/100 at weight 0.2 and Exam 90/100 at weight 0.8 give 88. |
| DateUtils.CreateDateString | src/utils/dateUtils.js:41-43 | The date string has dashes exactly six and three characters from its end. |
| DateUtils.PadStart2Digits | src/utils/dateUtils.js:42 | A padded number below 100 is two digits that read back as the number. |
| DateUtils.ParseDateString | src/utils/dateUtils.js:41-43 | The inverse reader accepts only text with the two dashes in the key positions. |
| DateUtils.DateStringRoundTrip | src/utils/dateUtils.js:41-43 | Reading the created string back gives the year, the 0-based month and the day. |
| DateUtils.DateStringShape | src/utils/dateUtils.js:41-43 | For four-digit years and real months and days, the string has the `YYYY-MM-DD` shape. |
| DateUtils.DaysInMonth | src/utils/dateUtils.js:24-26 | Every month has 28 to 31 days. |
| DateUtils.DaysInMonthFebruary | src/utils/dateUtils.js:24-26 | Only February has under 30 days, and it has 29 exactly in Gregorian leap years, with month overflow carried into the year. |
| DateUtils.YearLength | src/utils/dateUtils.js:24-26 | The twelve months add up to 365 days, or 366 in a leap year. |
| DateUtils.DaysInMonthCarries | src/utils/dateUtils.js:24-26 | Month 12 + m is month m of the next year, and month -1 is the previous December. |
| DateUtils.TwoDigitYears | src/utils/dateUtils.js:24-26 | Years 0..99 mean 1900..1999, so February of year 0 has 28 days and of year 96 has 29. |
| DateUtils.MonthName | src/utils/dateUtils.js:28-34 | A name exists exactly for months 0..11. |
| DateUtils.MonthNameInjective | src/utils/dateUtils.js:28-34 | Different months have different names. |
| DateUtils.MonthNameExamples | src/utils/dateUtils.js:28-34 | 0 is January, 1 is February, 11 is December and 12 has no name. |
| DateUtils.DayOfWeek | src/utils/dateUtils.js:36-39 | The week day of a day counted from 1 January 1970 (a Thursday) is in 0..6, 0 being Sunday; weekend means 0 or 6. |
| DateUtils.DayOfWeekNext | src/utils/dateUtils.js:36-39 | The next day's week day is one later, wrapping from Saturday to Sunday. |
| DateUtils.WeekendTwoPerWeek | src/utils/dateUtils.js:36-39 | Every seven consecutive days hold exactly two weekend days. |
| DateUtils.FormatDate | src/utils/dateUtils.js:3-7 | A missing or empty date formats as the empty string. |
| Layout.PageTitle | src/components/Layout.jsx:10-14 | "/" gives "Dashboard"; otherwise the title drops the slash, upper-cases the next character, keeps the rest and is one shorter than the path. |
| Layout.PageTitleFixedPoint | src/components/Layout.jsx:13 | Turning a title back into a path and titling it again gives the same title. |
| Layout.PageTitleExamples | src/components/Layout.jsx:10-14 | The five routes give Dashboard, Students, Grades, Attendance and Classes. |
| Records.Enrolled | src/services/api/studentService.js:81-84 | A student is listed iff the class id is among their classIds. |
| Records.EnrolledConcat | src/services/api/studentService.js:81-84 | The roster keeps store order: the roster of a concatenation is the concatenation of the rosters. |
| Records.SelectedStudents | src/components/organisms/GradeGrid.jsx:19-27 | With a class selected, exactly the enrolled students are shown; with none selected, all students are. The attendance grid filters its rows the same way (src/components/organisms/AttendanceGrid.jsx:18-24). |
| GradeCell.View | src/components/molecules/GradeCell.jsx:15-20 | A missing or unsubmitted grade shows 0, "-" and no colour; a submitted one shows its percentage with the matching letter and colour. |
| GradeCell.ViewLetterMatchesColor | src/components/molecules/GradeCell.jsx:15-20 | A submitted grade never shows "-", and its colour belongs to its letter. |
| GradeCell.InitialEntry | src/components/molecules/GradeCell.jsx:13 | The edit box starts empty for a missing grade or a score of 0, and otherwise holds the score. |
| GradeCell.Initial | src/components/molecules/GradeCell.jsx:12-13 | A cell starts outside edit mode. |
| GradeCell.EntryScore | src/components/molecules/GradeCell.jsx:29 | An empty box or unreadable text counts as score 0; a number or readable text counts as its value. |
| GradeCell.Edit | src/components/molecules/GradeCell.jsx:22-26 | A non-editable cell ignores the click; an editable one enters edit mode with the grade's score in the box. |
| GradeCell.Type | src/components/molecules/GradeCell.jsx:62 | Typing replaces the box's content and leaves the mode alone. |
| GradeCell.Save | src/components/molecules/GradeCell.jsx:28-41 | A score above the points puts the points in the box, emits nothing and stays in edit mode; otherwise the cell emits the grade with that score and leaves edit mode. |
| GradeCell.Cancel | src/components/molecules/GradeCell.jsx:43-46 | Cancelling restores the grade's score and leaves edit mode. |
| GradeCell.KeyDown | src/components/molecules/GradeCell.jsx:48-54 | Enter saves, Escape cancels and emits nothing, and any other key does nothing. |
| GradeCell.SavedScoreCapped | src/components/molecules/GradeCell.jsx:30-39 | Every emitted score is at most the assignment's points. |
| GradeCell.NegativeScoreAccepted | src/components/molecules/GradeCell.jsx:29-39 | Only the upper bound is checked, so a negative score is emitted unchanged. |
| GradeCell.SaveAfterCapReportsPoints | src/components/molecules/GradeCell.jsx:30-39 | After a capped save, saving again emits exactly the assignment's points. |
| GradeCell.UnreadableEntrySavesZero | src/components/molecules/GradeCell.jsx:29-39 | An empty or unreadable entry is saved as score 0. |
| GradeCell.EditCancelRestores | src/components/molecules/GradeCell.jsx:22-46 | Editing and then cancelling returns the cell to its initial state. |
| AttendanceCell.CurrentStatus | src/components/molecules/AttendanceCell.jsx:30 | A cell without a record counts as absent; otherwise it shows the record's status. |
| AttendanceCell.CycleIndex | src/components/molecules/AttendanceCell.jsx:37-38 | `indexOf` finds every status in the cycle, so the index is never -1. |
| AttendanceCell.NextStatus | src/components/molecules/AttendanceCell.jsx:37-39 | The next status always differs from the current one. |
| AttendanceCell.NextStatusCycle | src/components/molecules/AttendanceCell.jsx:37-39 | Absent goes to present, present to tardy and tardy to absent; the step is injective and three steps return to the start. |
| AttendanceCell.Click | src/components/molecules/AttendanceCell.jsx:33-45 | A non-editable cell emits nothing. Otherwise the record's Id and keys are kept, the next status and the date are set, and an empty cell's payload has no Id or keys. |
| AttendanceCell.ClickEmptyMarksPresent | src/components/molecules/AttendanceCell.jsx:41-45 | Clicking an empty cell emits only status present and the date. |
| SearchBar.SearchChange | src/components/molecules/SearchBar.jsx:17-21 | The term is stored and forwarded unchanged, and the filters are left alone. |
| SearchBar.FilterChange | src/components/molecules/SearchBar.jsx:23-27 | Only the changed key is set, every other filter keeps its value, and the whole map is forwarded. |
| SearchBar.Clear | src/components/molecules/SearchBar.jsx:56-63 | Clearing empties the term and the filters and forwards both. |
| SearchBar.ShowClearFollowsInput | src/components/molecules/SearchBar.jsx:56 | The clear button is hidden initially and after clearing, and shown after a non-empty term or filter value. |
| SearchBar.EmptyValuesHideClear | src/components/molecules/SearchBar.jsx:56 | Filters whose values are all empty do not show the clear button. |
| GradeGrid.ShownAssignments | src/components/organisms/GradeGrid.jsx:19-27 | With a class selected, exactly that class's assignments are shown; with none selected, all of them are. |
| GradeGrid.ShownAssignmentsAllOfClass | src/components/organisms/GradeGrid.jsx:19-27 | Selecting the class every assignment already belongs to hides no column. |
| GradeGrid.GradeFor | src/components/organisms/GradeGrid.jsx:29-31 | The cell shows a grade of that student for that assignment, and none only when no such grade exists. |
| GradeGrid.GradeForFirstMatch | src/components/organisms/GradeGrid.jsx:29-31 | The first matching grade is the one shown. |
| GradeGrid.GradePercent | src/components/organisms/GradeGrid.jsx:37-40 | A grade has a percentage unless its assignment is missing or has zero points. |
| GradeGrid.Percentages | src/components/organisms/GradeGrid.jsx:37-40 | The list of percentages exists iff each grade has one, and it holds them in order. |
| GradeGrid.StudentGrades | src/components/organisms/GradeGrid.jsx:34 | These are exactly the student's submitted grades. |
| GradeGrid.AssignmentGrades | src/components/organisms/GradeGrid.jsx:46 | These are exactly the assignment's submitted grades. |
| GradeGrid.StudentAverage | src/components/organisms/GradeGrid.jsx:33-43 | No submitted grades gives 0. A grade without a percentage gives none; otherwise the result is the rounded mean percentage. |
| GradeGrid.AssignmentAverage | src/components/organisms/GradeGrid.jsx:45-53 | No submitted grades gives 0; otherwise there is an average iff the assignment exists with positive points. |
| GradeGrid.AssignmentAverageIsMeanOfPercentages | src/components/organisms/GradeGrid.jsx:45-53 | The assignment average equals the mean of the per-grade percentages that the student average uses. |
| GradeGrid.StudentAverageInRange | src/components/organisms/GradeGrid.jsx:33-43 | When every graded assignment exists with positive points and every score lies within them, the average exists and lies in 0..100. |
| GradeGrid.CellChange | src/components/organisms/GradeGrid.jsx:145-151 | The payload always carries the cell's own student and assignment, the edited score and submitted, and keeps the shown grade's Id. |
| GradeGrid.CellSaveTargetsCell | src/components/organisms/GradeGrid.jsx:142-151 | A save from a cell targets that cell with a capped score, and any Id it carries is that of a grade in the same cell. |
| AttendanceGrid.AttendanceFor | src/components/organisms/AttendanceGrid.jsx:30-33 | The cell shows a record of that student on that date, whatever its class, and none only when no such record exists. |
| AttendanceGrid.AttendanceForFirstMatch | src/components/organisms/AttendanceGrid.jsx:30-33 | The first record of the student on the date is shown. |
| AttendanceGrid.StudentRate | src/components/organisms/AttendanceGrid.jsx:35-41 | No records gives 100. Otherwise the result is the rounded share of present records (tardy and absent count as not present) and lies in 0..100. |
| AttendanceGrid.StudentRateAllPresent | src/components/organisms/AttendanceGrid.jsx:35-41 | If all of a student's records are present, the rate is 100. |
| AttendanceGrid.StudentRateNonePresent | src/components/organisms/AttendanceGrid.jsx:35-41 | If a student has records and none is present, the rate is 0. |
| AttendanceGrid.StudentRateExample | src/components/organisms/AttendanceGrid.jsx:35-41 | Two present records out of three give 67. |
| AttendanceGrid.ClassOrDefault | src/components/organisms/AttendanceGrid.jsx:61 | The class is the selected one, or "default" when none is selected; never empty. |
| AttendanceGrid.MarkAllPresent | src/components/organisms/AttendanceGrid.jsx:55-66 | There is at most one payload per shown student; the grid's shown students are `SelectedStudents(students, selected)`. |
| AttendanceGrid.MarkAllPresentOfSelection | src/components/organisms/AttendanceGrid.jsx:18-66 | Over the selected class's rows, "Mark All" sends present with the class (or "default") for exactly the rows' students without a record; with a class selected each of them is enrolled in it. |
| AttendanceGrid.MarkAllPresentExact | src/components/organisms/AttendanceGrid.jsx:55-66 | "Mark All" emits a present payload exactly for the shown students without a record on that date. |
| AttendanceGrid.CellClick | src/components/organisms/AttendanceGrid.jsx:231-236 | The page receives the cell's payload unchanged, so an empty cell's payload has neither studentId nor classId. |
| AttendanceGrid.CellClickKeyed | src/components/organisms/AttendanceGrid.jsx:231-236 | The corrected payload carries the row's student. An empty cell also gets the selected class (or "default") and present; a filled cell's payload is unchanged. |
| GradeService.NextId | src/services/api/gradeService.js:47 | A new Id is above every Id in use. |
| GradeService.Create | src/services/api/gradeService.js:33-54 | A filled cell is merged in place into a grade carrying that cell's grade Id, and nothing else changes. An empty cell keeps the store and appends one submitted grade with the payload's cell and score and an Id above every Id in use. |
| GradeService.UpdateIndex | src/services/api/gradeService.js:58-68 | The Id lookup finds a grade with that Id or reports none exists; a cell key with a zero field finds nothing; a cell key finds a grade of that cell. |
| GradeService.Update | src/services/api/gradeService.js:56-84 | The found grade takes the payload's studentId, assignmentId and score and the payload's Id when it has one, and is submitted. Every other grade is unchanged; when nothing is found the payload is created. |
| GradeService.UpdateReadsBack | src/services/api/gradeService.js:68-83 | After an update by Id, looking that Id up finds the merged grade: submitted, with the payload's cell and score. |
| GradeService.CreateMergesCell | src/services/api/gradeService.js:37-43 | With unique Ids, creating for a filled cell is exactly the update by that cell's grade Id, merged in place. |
| GradeService.CreateAppendsFresh | src/services/api/gradeService.js:45-51 | A new grade is appended with a fresh Id, the payload's cell and score, and submitted. |
| GradeService.CreateKeepsIdsUnique | src/services/api/gradeService.js:33-54 | Create keeps Ids unique when the payload's Id, if any, belongs to its own cell. |
| GradeService.CreateKeepsCellsUnique | src/services/api/gradeService.js:33-54 | Create keeps at most one grade per (student, assignment). |
| GradeService.CreateFillsCell | src/services/api/gradeService.js:33-54 | Afterwards the payload's cell holds a submitted grade with the payload's score. |
| GradeService.Delete | src/services/api/gradeService.js:86-98 | An unknown Id fails with "Grade not found". Otherwise exactly one grade with that Id is removed and the rest are kept. |
| GradeService.DeleteExactlyOne | src/services/api/gradeService.js:88-95 | With unique Ids, the result holds every other grade and not the deleted one. |
| GradeService.Scores | src/services/api/gradeService.js:109 | The raw scores are listed in order. |
| GradeService.Stats | src/services/api/gradeService.js:100-112 | Pending is total minus submitted and never negative. The average is 0 without submitted grades, else the rounded mean of the submitted raw scores. |
| GradeService.StatsAverageWithin | src/services/api/gradeService.js:108-110 | If all submitted scores lie in [lo, hi], so does the average. |
| AttendanceService.NextId | src/services/api/attendanceService.js:55 | A new Id is above every Id in use. |
| AttendanceService.Create | src/services/api/attendanceService.js:39-61 | An existing (student, class, date) keeps the store's length; a new key appends one record. |
| AttendanceService.UpdateIndex | src/services/api/attendanceService.js:65-77 | A key object finds a record with that key, an Id finds a record with that Id, and not-found means no record matches. |
| AttendanceService.Update | src/services/api/attendanceService.js:63-91 | The found record takes the payload's status and date, and its Id, studentId and classId where the payload gives them, keeping its own otherwise. Every other record is unchanged; when nothing is found the payload is created. |
| AttendanceService.UpdateReadsBack | src/services/api/attendanceService.js:76-90 | After an update by Id, looking that Id up finds the merged record with the payload's status, date and given keys. |
| AttendanceService.CreateMergesKey | src/services/api/attendanceService.js:43-51 | With unique Ids, creating for an existing key is the update by that record's Id, and also the update by the key, merged in place. |
| AttendanceService.MergeKeepsKey | src/services/api/attendanceService.js:84-87 | Merging a payload into a record of the same key keeps the key. |
| AttendanceService.CreateAppendsFresh | src/services/api/attendanceService.js:53-58 | A new key appends a record with a fresh Id and the payload's key and status. |
| AttendanceService.CreateKeepsIdsUnique | src/services/api/attendanceService.js:39-61 | Create keeps Ids unique for a payload without an Id. |
| AttendanceService.CreateKeepsKeysUnique | src/services/api/attendanceService.js:39-61 | Create keeps at most one record per (student, class, date). |
| AttendanceService.CreateRecordsKey | src/services/api/attendanceService.js:39-61 | Afterwards a record with the payload's key holds the payload's status. |
| AttendanceService.Delete | src/services/api/attendanceService.js:93-105 | An unknown Id fails with "Attendance record not found". Otherwise exactly one record with that Id is removed. |
| AttendanceService.DeleteExactlyOne | src/services/api/attendanceService.js:95-102 | With unique Ids, the result holds every other record and not the deleted one. |
| AttendanceService.GetByDate | src/services/api/attendanceService.js:28-32 | The result is exactly the records of that date. |
| AttendanceService.GetByDateConcat | src/services/api/attendanceService.js:28-32 | Store order is kept: the date filter distributes over concatenation. |
| AttendanceService.Stats | src/services/api/attendanceService.js:107-126 | Each count is the number of records with that status, so the three partition the store. The rate is 0 for an empty store, else the present count over the total as a rounded percentage in 0..100. |
| AttendanceService.StatsConcat | src/services/api/attendanceService.js:109-112 | The counts of two stores together are the sums of their counts, so every record contributes independently. |
| AttendanceService.StatsOfOne | src/services/api/attendanceService.js:109-119 | One record counts once, under its own status; the rate is 100 if it is present and 0 otherwise. |
| AttendanceService.StatsNonePresent | src/services/api/attendanceService.js:110-119 | A store without present records has present count 0 and rate 0, whatever its absent and tardy records. |
| AttendanceService.MarkAllPresent | src/services/api/attendanceService.js:128-144 | The store grows by at most the number of listed students. |
| AttendanceService.CreateKeepsMarked | src/services/api/attendanceService.js:39-61 | A present creation never un-marks a student already present for that class and date. |
| AttendanceService.MarkAllPresentMarksEveryone | src/services/api/attendanceService.js:128-144 | Afterwards every listed student is present for the class and date, and Ids stay unique. |
| AttendanceService.KeepsMarked | src/services/api/attendanceService.js:128-144 | A student already present stays present through the whole batch. |
| StudentService.NextId | src/services/api/studentService.js:33 | A new Id is above every Id in use. |
| StudentService.Create | src/services/api/studentService.js:23-41 | An external id in use fails with "Student ID already exists" and changes nothing. Otherwise one student is appended with a fresh Id, the payload's fields, grade 0 and attendance 100. |
| StudentService.CreateKeepsUnique | src/services/api/studentService.js:26-38 | Create keeps both the numeric Ids and the external ids unique. |
| StudentService.Update | src/services/api/studentService.js:43-65 | An unknown Id fails with "Student not found", and an external id held by another student fails with "Student ID already exists". Otherwise the student keeps its Id, takes the payload's fields, and the rest are unchanged. |
| StudentService.UpdateKeepsUnique | src/services/api/studentService.js:51-62 | Update keeps both the numeric Ids and the external ids unique. |
| StudentService.Delete | src/services/api/studentService.js:67-79 | An unknown Id fails with "Student not found". Otherwise exactly one student with that Id is removed. |
| StudentService.DeleteExactlyOne | src/services/api/studentService.js:69-76 | With unique Ids, the result holds every other student and not the deleted one. |
| StudentService.Search | src/services/api/studentService.js:86-95 | A student is returned iff one of first name, last name, email or id contains the query, case-insensitively. |
| StudentService.SearchEmptyIsAll | src/services/api/studentService.js:86-95 | The empty query returns every student, in order. |
| StudentService.SearchIgnoresQueryCase | src/services/api/studentService.js:88-94 | A query and its lower-cased form give the same result. |
| StudentService.BandsPartition | src/services/api/studentService.js:111-117 | The A to F bucket counts add up to the number of students. |
| StudentService.BandsAreLetters | src/services/api/studentService.js:112-116 | Each bucket holds exactly the students whose grade has that letter. |
| StudentService.Stats | src/services/api/studentService.js:97-119 | Both averages are 0 when empty, else rounded means. The buckets count each letter and add up to the total. |
| StudentService.StatsAveragesInRange | src/services/api/studentService.js:99-105 | When stored grades and rates lie in 0..100, so do both averages. |
| ClassService.NextId | src/services/api/classService.js:28 | A new Id is above every Id in use. |
| ClassService.Create | src/services/api/classService.js:23-36 | One class is appended with a fresh Id and external id "class" followed by it. It takes the payload's fields, with studentIds defaulting to []. |
| ClassService.CreateKeepsUnique | src/services/api/classService.js:26-33 | Ids stay unique, every external id stays "class" plus its Id, and the new external id is unused. |
| ClassService.WellNamedIdsDistinct | src/services/api/classService.js:29 | External ids derived from distinct Ids are distinct. |
| ClassService.Update | src/services/api/classService.js:38-55 | An unknown Id fails with "Class not found". Otherwise the class keeps its Id, takes the payload's fields (absent ones kept), and the rest are unchanged. |
| ClassService.UpdateKeepsUnique | src/services/api/classService.js:46-52 | An update that sends no external id keeps the store's Ids and names consistent. |
| ClassService.Delete | src/services/api/classService.js:57-69 | An unknown Id fails with "Class not found". Otherwise exactly one class with that Id is removed. |
| ClassService.DeleteExactlyOne | src/services/api/classService.js:59-66 | With unique Ids, the result holds every other class and not the deleted one. |
| ClassService.Subjects | src/services/api/classService.js:79-82 | The subjects are listed in store order. |
| ClassService.Stats | src/services/api/classService.js:71-84 | Enrolments are the sum of roster sizes and the average size is their rounded mean (0 when empty). The subject counts list each subject once, count its occurrences, and add up to the total. |
| ClassService.StatsAverageBounded | src/services/api/classService.js:76-78 | The average class size is non-negative and at most the largest roster. |
| AssignmentService.GetByClassId | src/services/api/assignmentService.js:23-26 | The result is exactly the assignments of that class. |
| AssignmentService.GetByClassIdConcat | src/services/api/assignmentService.js:23-26 | Store order is kept: the class filter distributes over concatenation. |
| AssignmentService.NextId | src/services/api/assignmentService.js:33 | A new Id is above every Id in use. |
| AssignmentService.DueDateOr | src/services/api/assignmentService.js:34 | A missing or empty due date becomes today. |
| AssignmentService.WeightOr | src/services/api/assignmentService.js:35 | A missing or zero weight becomes 0.2, so the stored weight is never zero. |
| AssignmentService.Create | src/services/api/assignmentService.js:28-41 | One assignment is appended with a fresh Id, the payload's fields, and the defaulted due date and weight. |
| AssignmentService.CreateKeepsUnique | src/services/api/assignmentService.js:28-41 | Ids stay unique, and the new assignment joins its class's list at the end. |
| AssignmentService.Update | src/services/api/assignmentService.js:43-60 | An unknown Id fails with "Assignment not found". Otherwise the assignment keeps its Id, takes the payload's fields (absent ones kept), and the rest are unchanged. |
| AssignmentService.UpdateKeepsUnique | src/services/api/assignmentService.js:51-57 | Update keeps Ids unique. |
| AssignmentService.Delete | src/services/api/assignmentService.js:62-74 | An unknown Id fails with "Assignment not found". Otherwise exactly one assignment with that Id is removed. |
| AssignmentService.DeleteExactlyOne | src/services/api/assignmentService.js:64-72 | With unique Ids, the result holds every other assignment and not the deleted one. |
| AssignmentService.CategoryList | src/services/api/assignmentService.js:78-81 | The categories are listed in store order. |
| AssignmentService.Stats | src/services/api/assignmentService.js:76-91 | Category counts list each category once, count its occurrences and add up to the total. Average points are 0 when empty, else the rounded mean. |
| AssignmentService.StatsAverageWithin | src/services/api/assignmentService.js:86-88 | If all points lie in [lo, hi], so does the average. |
| GradesPage.LocalMerge | src/components/pages/Grades.jsx:75 | The merged grade takes every payload field and keeps its Id when the payload has none. |
| GradesPage.LocalUpsert | src/components/pages/Grades.jsx:68-80 | An existing cell entry is merged in place with the others unchanged; otherwise exactly one grade is appended at the end. |
| GradesPage.HandleChange | src/components/pages/Grades.jsx:60-85 | A failed service call leaves the local list unchanged; a successful one grows it by at most one. |
| GradesPage.UpdateByCellIsCreate | src/components/pages/Grades.jsx:62-65 | Updating by cell key is the same as creating the payload. |
| GradesPage.ServiceMatchesLocal | src/components/pages/Grades.jsx:60-80 | For a submitted payload, the store and the local list change alike when the local Id is the next store Id. |
| GradesPage.CellSaveKeepsInvariants | src/components/pages/Grades.jsx:60-65 | A save from any cell keeps grade Ids unique and one grade per cell. |
| GradesPage.AddAssignment | src/components/pages/Grades.jsx:87-123 | Each failure has its own message: missing or blank name, unparsable or non-positive points, invalid date. A success carries the trimmed name, the parsed points, "Homework", "class1" and the given date or today. |
| GradesPage.AddAssignmentAppends | src/components/pages/Grades.jsx:115-123 | The created assignment is stored with those values and weight 0.2. |
| AttendancePage.LocalUpsert | src/components/pages/Attendance.jsx:61-75 | An existing key's record is merged in place with the others unchanged; otherwise one record with the payload's key and status is appended. |
| AttendancePage.HandleChange | src/components/pages/Attendance.jsx:56-80 | A failed service call leaves the local list unchanged; a successful one grows it by at most one. |
| AttendancePage.CreateIsLocalUpsert | src/components/pages/Attendance.jsx:56-75 | The service's create and the local upsert agree when the local Id is the next store Id. |
| AttendancePage.Today | src/components/pages/Attendance.jsx:97-166 | Each of today's cards counts today's records of its status, and the three add up to today's records. |
| AttendancePage.TodayIsStatsOfToday | src/components/pages/Attendance.jsx:97-166 | Today's counts are the store statistics of today's records. |
| AttendancePage.EmptyCellClickStaysEmpty | src/components/pages/Attendance.jsx:61-75 | As written, clicking an empty cell leaves that cell empty in the local list. |
| AttendancePage.EmptyCellClickStoredForNobody | src/components/pages/Attendance.jsx:56-58 | As written, the stored record still leaves that cell empty. |
| AttendancePage.EmptyCellClickExample | src/components/pages/Attendance.jsx:61-75 | A concrete click appends a record whose studentId is undefined. |
| AttendancePage.KeyedClickAdvancesCell | src/components/pages/Attendance.jsx:61-75 | With the keyed payload, the clicked cell afterwards shows the next status. |
| AttendancePage.KeyedClickAdvancesStoredCell | src/components/pages/Attendance.jsx:56-58 | The same holds for the stored records. |
| AttendancePage.IdsAsText | src/components/pages/Attendance.jsx:84 | Each student's Id is passed as its decimal text. |
| AttendancePage.IdsAsNumbers | src/components/pages/Attendance.jsx:84 | The corrected version passes each student's numeric Id. |
| AttendancePage.MarkAllPresentAsWritten | src/components/pages/Attendance.jsx:82-88 | The store grows by at most one record per student. |
| AttendancePage.MarkAllPresentByNumber | src/components/pages/Attendance.jsx:82-88 | The store grows by at most one record per student. |
| AttendancePage.CreateByTextKeepsNumbered | src/services/api/attendanceService.js:43-58 | A payload keyed by text never changes a record keyed by number. |
| AttendancePage.MarkByTextKeepsNumbered | src/components/pages/Attendance.jsx:84-87 | Text-keyed marking leaves every number-keyed record as it was. |
| AttendancePage.MarkAllAsWrittenLeavesCellsEmpty | src/components/pages/Attendance.jsx:82-88 | As written, a student's empty cell for today stays empty after "Mark All Present". |
| AttendancePage.MarkAllByNumberFillsCells | src/components/pages/Attendance.jsx:82-88 | With numeric Ids, every student's cell for today shows a record. |
| StudentsPage.HandleSearch | src/components/pages/Students.jsx:41-55 | A blank query shows everyone. Otherwise a student is shown iff a name, the email or the id contains the query, case-insensitively. |
| StudentsPage.HandleSearchAgreesWithService | src/components/pages/Students.jsx:41-55 | Apart from whitespace-only queries, the page's search and the service's search agree. |
| StudentsPage.NumberOf | src/components/pages/Students.jsx:65 | `Number` of an empty piece is 0, of digits is their value, and of anything else is NaN. |
| StudentsPage.RangeBounds | src/components/pages/Students.jsx:65 | A range text without a dash has no upper bound. |
| StudentsPage.SplitRange | src/components/pages/Students.jsx:65 | "a-b" splits into the numbers of a and of b. |
| StudentsPage.HandleFilterChange | src/components/pages/Students.jsx:57-70 | Filtering starts from all students. A student is kept iff every active filter holds: the grade-level text equals the filter, the grade lies in the range. |
| StudentsPage.GradeLevelFilterExact | src/components/pages/Students.jsx:60-62 | The grade-level filter keeps exactly the students of that level. |
| StudentsPage.BoundsOfA | src/components/pages/Students.jsx:139 | "90-100" reads as 90 to 100. |
| StudentsPage.BoundsOfB | src/components/pages/Students.jsx:140 | "80-89" reads as 80 to 89. |
| StudentsPage.BoundsOfC | src/components/pages/Students.jsx:141 | "70-79" reads as 70 to 79. |
| StudentsPage.BoundsOfD | src/components/pages/Students.jsx:142 | "60-69" reads as 60 to 69. |
| StudentsPage.BoundsOfF | src/components/pages/Students.jsx:143 | "0-59" reads as 0 to 59. |
| StudentsPage.BandBounds | src/components/pages/Students.jsx:139-143 | On 0..100, a grade lies in a letter's band iff it has that letter. |
| StudentsPage.GradeRangeOptionBounds | src/components/pages/Students.jsx:139-143 | Each option's text reads as exactly its letter's band. |
| StudentsPage.GradeRangeOptionsMatchLetters | src/components/pages/Students.jsx:139-143 | A grade in 0..100 is in an option's range iff it has the option's letter. |
| StudentsPage.RangeFilterIsLetterBand | src/components/pages/Students.jsx:64-67 | Choosing an option shows exactly the students with that letter, in order. |
| ClassesPage.StudentsInClass | src/components/pages/Classes.jsx:54-59 | An unknown class gives []; otherwise exactly the enrolled students. |
| ClassesPage.StudentsInClassConcat | src/components/pages/Classes.jsx:54-59 | The roster keeps store order. |
| ClassesPage.SubjectColor | src/components/pages/Classes.jsx:61-71 | A listed subject gets its colour and any other subject the default gray. |
| ClassesPage.SubjectColorsDistinct | src/components/pages/Classes.jsx:61-71 | Listed subjects get distinct colours, none of them the default. |
| ClassesPage.Avatars | src/components/pages/Classes.jsx:289-300 | At most the first four students are shown. Beyond four, a badge shows the rest; shown plus badge is the roster size. |
| ClassesPage.CreateSubmit | src/components/pages/Classes.jsx:99-123 | Submission is refused iff a field is blank after trimming. Otherwise the trimmed, non-empty fields are sent. |
| StudentTable.HandleSort | src/components/organisms/StudentTable.jsx:17-24 | The clicked field becomes the sort field. The same field flips direction; a new field starts ascending. |
| StudentTable.HandleSortTwice | src/components/organisms/StudentTable.jsx:17-24 | Clicking the current field twice restores the state; clicking a new field twice sorts it descending. |
| StudentTable.TextLessAsymmetric | src/components/organisms/StudentTable.jsx:36 | String `<` is asymmetric. |
| StudentTable.TextLessTotal | src/components/organisms/StudentTable.jsx:36 | Two different strings are ordered one way or the other. |
| StudentTable.TextLessTransitive | src/components/organisms/StudentTable.jsx:36 | String `<` is transitive. |
| StudentTable.KeyOf | src/components/organisms/StudentTable.jsx:27-33 | Last name and id compare as lower-cased text; the other fields compare as numbers. |
| StudentTable.Compare | src/components/organisms/StudentTable.jsx:35-39 | The result is -1, 0 or 1, and -1 exactly when a's key comes first in the current direction. |
| StudentTable.CompareConsistent | src/components/organisms/StudentTable.jsx:35-39 | Swapping the arguments negates the result, and 0 means equal keys. |
| StudentTable.NotAfterTransitive | src/components/organisms/StudentTable.jsx:35-39 | "Does not come after" is transitive. |
| StudentTable.NotAfterTotal | src/components/organisms/StudentTable.jsx:35-39 | Any two students are ordered one way or the other. |
| StudentTable.Insert | src/components/organisms/StudentTable.jsx:26-40 | Inserting adds exactly that student. |
| StudentTable.InsertSorted | src/components/organisms/StudentTable.jsx:26-40 | Inserting into a sorted list keeps it sorted. |
| StudentTable.Sort | src/components/organisms/StudentTable.jsx:26-40 | The sorted list is a permutation of the students. |
| StudentTable.SortSorted | src/components/organisms/StudentTable.jsx:26-40 | The sorted list is ordered by the comparator. |
| StudentTable.SortedStudents | src/components/organisms/StudentTable.jsx:26-40 | The table shows a permutation of the students, ordered by the comparator. |
| StudentTable.FlipReverses | src/components/organisms/StudentTable.jsx:17-40 | Flipping the direction reverses the order of any two students with different keys. |
| StudentTable.InsertKeepsKeyOrder | src/components/organisms/StudentTable.jsx:26-40 | Inserting places a student after the students with an equal key. |
| StudentTable.SortStable | src/components/organisms/StudentTable.jsx:26-40 | The sort is stable: students with equal keys keep their input order. |
| StudentForm.Prefill | src/components/organisms/StudentForm.jsx:24-35 | Editing fills every field from the student. A grade level of 0 is falsy and shows as "". |
| StudentForm.Initial | src/components/organisms/StudentForm.jsx:13-35 | A new student starts from empty fields; an existing one is prefilled. |
| StudentForm.Set | src/components/organisms/StudentForm.jsx:44-48 | Only the changed field changes. |
| StudentForm.HandleChange | src/components/organisms/StudentForm.jsx:44-57 | Typing updates only that field and clears only that field's error; other errors are kept. |
| StudentForm.EmailShapedExamples | src/components/organisms/StudentForm.jsx:72 | "a@b.c" matches the email shape; "a@b" and "@b.c" do not. |
| StudentForm.Message | src/components/organisms/StudentForm.jsx:59-83 | Each field gets its own message when blank after trimming (grade level: when falsy); a non-blank email without the shape gets "Please enter a valid email". |
| StudentForm.Validate | src/components/organisms/StudentForm.jsx:59-86 | The error map contains exactly the failing fields, each with its message. |
| StudentForm.ValidIffNoErrors | src/components/organisms/StudentForm.jsx:84-85 | The form is valid iff the error map is empty. |
| StudentForm.SubmitAsWritten | src/components/organisms/StudentForm.jsx:88-98 | As written: submission happens iff the form is valid and the grade level parses. The payload carries the form's id, names, email, parsed grade level and classes. A new student gets grade 0 and rate 100; an edit keeps the grade and a non-zero rate, but a rate of 0 becomes 100, so the rate is never 0. |
| StudentForm.Submit | src/components/organisms/StudentForm.jsx:88-98 | Corrected handleSubmit (`??` in place of `\|\|` at line 95; SubmitAsWritten is the code as written): submission happens iff the form is valid and the grade level parses, with the form's fields and parsed grade level. A new student gets grade 0 and rate 100; an edit keeps the student's grade and rate, 0 included. |
| StudentForm.EditRoundTrip | src/components/organisms/StudentForm.jsx:24-98 | Opening a student for editing and submitting without changes yields exactly the student's data. |
| StudentForm.EditResetsZeroAttendance | src/components/organisms/StudentForm.jsx:95 | As written, saving an untouched student with rate 0 stores rate 100. |
| StudentForm.EditUntouchedKeepsStore | src/components/organisms/StudentForm.jsx:91-96 | With the corrected payload, saving an untouched student leaves the store unchanged. |

## Left out

- Rendering: JSX, hooks, CSS classes, icons, and the pages' loading and error screens.
- The dashboard page, the sidebar and header, and the UI atoms. They hold no rules beyond those modelled.
- Asynchrony. The artificial `delay`, `async`/`await` and toasts are not modelled.
  - Each service call is one synchronous step, because the find-then-push after each `await` runs without interleaving.
  - `create` handing over to `update`, and `update` falling back to `create`, crosses the callee's own `await delay` in the source (the calls at gradeService.js lines 42 and 72, attendanceService.js lines 50 and 81). The model makes this one step. The results coincide for the callers in the code, which change no store in between.
  - `markAllPresent`'s `Promise.all` runs its creates one after another in list order, which is the order their delays expire.
- The clock is a parameter: `new Date()`, `Date.now()` Ids, today's date, and week or month navigation.
- `assignmentService.getAssignmentStats`' `upcomingAssignments` is not modelled, because it compares against the clock.
- The date-fns wrappers `formatRelativeDate` and `getWeekDays`, `formatDate`'s actual formatting, and `Date` to ISO-string conversion are left out. They are external library calls; dates are `YYYY-MM-DD` strings throughout.
- `getAll` and `getById` of all five services are not modelled. They copy or look up a record with no rule of their own.
- `gradeService.getByStudentId` and `getByAssignmentId`, and `attendanceService.getByStudentId` and `getByClassId`, are not modelled separately. They are one-field filters of the same shape as `AttendanceService.GetByDate` and `AssignmentService.GetByClassId`.
- The Students page's `handleFormSubmit` and `handleDeleteStudent` only route to the service calls `StudentService.Update`, `Create` and `Delete`. The routing itself is not a separate member.
- The Classes page's `handleDeleteClass` routes to `ClassService.Delete`.
- The Classes page's form open, close and field-edit handlers are plain state resets and are not modelled.
- `confirm` and `prompt` dialogs: their answers are parameters.
- The JSON seed data is not part of this model. Initial stores are parameters, non-empty wherever an Id is allocated.
- IEEE-754 arithmetic is not modelled: numbers are exact reals and integers.
  - Infinity and NaN from a zero-point or missing assignment appear as `None`.
  - In the source, a missing assignment in a grid average throws a `TypeError`.
- `parseInt` and `parseFloat` are abstract parameters.
  - The grade cell's `parseFloat(x) || 0` takes an unreadable or NaN result as 0.
  - The form's grade level is a parameter-parsed integer, and a NaN level makes no payload.
- `StudentsPage.NumberOf`: reads only digit strings. `Number` also accepts surrounding white space, signs, decimals and exponents, which the fixed range options never contain.
- `DateUtils.CreateDateString`: the contract covers non-negative years, months up to 98 and days up to 99. Negative parts put a '-' sign inside a field.
- `Js.Lower` and `Layout.PageTitle`: case mapping covers the ASCII letters only.
- `StudentTable.TextLess`: strings compare by code point. JavaScript compares UTF-16 code units, which differs only outside the Basic Multilingual Plane.
- `ClassesPage.SubjectColor`: a subject that names an `Object.prototype` member, such as "constructor", would find a function in the colour table. This is not modelled; such subjects get the default colour.
- `GradeService.CreateKeepsIdsUnique`: needs the payload's Id, if any, to belong to its own cell. The grid always sends the shown grade's Id, which meets this.
- `AttendanceService.CreateKeepsIdsUnique`: stated for payloads without an Id, which is what the attendance grid and "Mark All" send.
- `ClassService.UpdateKeepsUnique`: stated for payloads without an external id. An update may overwrite `id` with any text.
- `AttendanceService.Stats` and `AttendancePage.Today`: a record's status is one of the three values present, absent and tardy, the only ones the attendance cell produces and renders. The counts therefore always add up to the total. The source counts by string equality, so a record with any other status text would make the sum smaller.
- Object key order of the statistics' distribution maps is modelled as first-appearance order.

## Findings

| source | as written | input that shows it | evidently intended | confidence | as-written member | corrected member |
|---|---|---|---|---|---|---|
| src/components/organisms/AttendanceGrid.jsx:234-236 | A click on an empty attendance cell forwards `{ status: "present", date }` to the page. The payload has no studentId or classId, because the cell spreads an undefined record. The page and the service store it as a record of nobody. | The local list holds one record, for student 2 on 2024-01-15. Student 1 clicks the empty cell for 2024-01-15. A record with undefined studentId is appended, and student 1's cell stays empty. | The grid fills in the row's studentId and the selected class (or "default"), as "Mark All" does, so the cell shows present. | not executed | AttendancePage.EmptyCellClickStaysEmpty | AttendancePage.KeyedClickAdvancesCell |
| src/components/pages/Attendance.jsx:84 | "Mark All Present" passes every student's Id as a string. The grid finds a cell's record with `a.studentId === student.Id` on the numeric Id. | Student 1 has no record for today. After "Mark All Present" the store holds a record with studentId "1", and student 1's cell for today still shows no record. | Pass the numeric Ids, so every student's cell for today shows present. | not executed | AttendancePage.MarkAllAsWrittenLeavesCellsEmpty | AttendancePage.MarkAllByNumberFillsCells |
| src/components/organisms/StudentForm.jsx:95 | The submitted `attendanceRate` is `student?.attendanceRate \|\| 100`, so a stored rate of 0 becomes 100 on every edit. | A student with attendanceRate 0 is opened for editing and saved unchanged. The update stores attendanceRate 100. | Keep the stored rate (`?? 100`), so saving an untouched student changes nothing. | not executed | StudentForm.EditResetsZeroAttendance | StudentForm.EditUntouchedKeepsStore |
