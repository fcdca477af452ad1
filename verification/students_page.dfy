/** The students page (`src/components/pages/Students.jsx`): the list it
    shows after a search or a filter change, and the options of its grade
    range filter. */
module StudentsPage {
  import opened Wrappers
  import opened Js
  import opened Seqs
  import opened Records
  import opened GradeUtils
  import StudentService

  // ---------------------------------------------------------------------
  // handleSearch

  /** `handleSearch(query)`: everyone for a blank query, otherwise the
      students matching it as the service's search matches, in list
      order. */
  function HandleSearch(students: seq<Student>, query: string): (r: seq<Student>)
    ensures IsBlank(query) ==> r == students
    ensures !IsBlank(query) ==> forall s :: s in r <==> s in students && StudentService.Matches(s, query)
    ensures |r| <= |students|
  {
    if IsBlank(query) then students else StudentService.Search(students, query)
  }

  /** The page and the service search alike except for a query of white
      space alone (the page shows everyone, the service only those whose
      fields contain that white space); an empty query shows everyone in
      both. */
  lemma HandleSearchAgreesWithService(students: seq<Student>, query: string)
    requires !IsBlank(query) || query == ""
    ensures HandleSearch(students, query) == StudentService.Search(students, query)
  {
    if query == "" {
      StudentService.SearchEmptyIsAll(students);
    }
  }

  // ---------------------------------------------------------------------
  // handleFilterChange

  /** `Number(piece)` for the text of a range bound: 0 for the empty text,
      the value of a run of decimal digits, NaN (`None`) for anything
      else. */
  function NumberOf(piece: string): (r: Option<int>)
    ensures piece == "" ==> r == Some(0)
    ensures AllDigits(piece) ==> r == Some(ParseDigits(piece))
    ensures !AllDigits(piece) ==> r.None?
  {
    if AllDigits(piece) then Some(ParseDigits(piece)) else None
  }

  function IsDash(c: char): bool { c == '-' }

  /** `text.split('-').map(Number)` taken apart as `[min, max]`: the texts
      before the first dash and between it and the next one (`max` is NaN
      when there is no dash). */
  function RangeBounds(text: string): (r: (Option<int>, Option<int>))
    ensures FirstIndex(text, IsDash) < 0 ==> r.1.None?
  {
    var k := FirstIndex(text, IsDash);
    if k < 0 then (NumberOf(text), None)
    else
      var rest := text[k + 1..];
      var k2 := FirstIndex(rest, IsDash);
      (NumberOf(text[..k]), NumberOf(if k2 < 0 then rest else rest[..k2]))
  }

  /** `min <= currentGrade && currentGrade <= max`; a NaN bound keeps
      nobody. */
  predicate InRange(s: Student, bounds: (Option<int>, Option<int>)) {
    bounds.0.Some? && bounds.1.Some? && bounds.0.value <= s.currentGrade <= bounds.1.value
  }

  /** A filter takes part when it has a non-empty value. */
  predicate Active(filters: map<string, string>, key: string) {
    key in filters && filters[key] != ""
  }

  /** `s => s.gradeLevel.toString() === level`. */
  function AtLevel(level: string): Student -> bool {
    (s: Student) => IntToString(s.gradeLevel) == level
  }

  /** `s => s.currentGrade >= min && s.currentGrade <= max`. */
  function InGradeRange(text: string): Student -> bool {
    (s: Student) => InRange(s, RangeBounds(text))
  }

  /** `handleFilterChange(filters)`: starting again from every student (any
      search is dropped), keep those at the chosen grade level and those
      within the chosen grade range, in list order. */
  function HandleFilterChange(students: seq<Student>, filters: map<string, string>)
    : (r: seq<Student>)
    ensures !Active(filters, "gradeLevel") && !Active(filters, "gradeRange") ==> r == students
    ensures forall s :: s in r <==>
              s in students
              && (Active(filters, "gradeLevel") ==> IntToString(s.gradeLevel) == filters["gradeLevel"])
              && (Active(filters, "gradeRange") ==> InRange(s, RangeBounds(filters["gradeRange"])))
    ensures |r| <= |students|
  {
    var byLevel := if Active(filters, "gradeLevel")
                   then Filter(students, AtLevel(filters["gradeLevel"])) else students;
    if Active(filters, "gradeRange") then Filter(byLevel, InGradeRange(filters["gradeRange"]))
    else byLevel
  }

  /** The grade level filter with the text of a level keeps exactly the
      students at that level. */
  lemma GradeLevelFilterExact(students: seq<Student>, level: int)
    ensures forall s :: s in HandleFilterChange(students, map["gradeLevel" := IntToString(level)]) <==>
              s in students && s.gradeLevel == level
  {
    IntToStringSign(level);
    forall s | s in students && IntToString(s.gradeLevel) == IntToString(level)
      ensures s.gradeLevel == level
    {
      IntToStringInjective(s.gradeLevel, level);
    }
  }

  // ---------------------------------------------------------------------
  // The grade range options

  /** The options of the grade range filter, with the letter each is
      labelled with. */
  const GradeRangeOptions: seq<(string, Letter)> :=
    [("90-100", A), ("80-89", B), ("70-79", C), ("60-69", D), ("0-59", F)]

  /** Two dash-free texts joined by a dash read as the two numbers. */
  lemma SplitRange(a: string, b: string)
    requires FirstIndex(a, IsDash) == -1 && FirstIndex(b, IsDash) == -1
    ensures RangeBounds(a + "-" + b) == (NumberOf(a), NumberOf(b))
  {
    var text := a + "-" + b;
    assert forall j :: 0 <= j < |a| ==> text[j] == a[j];
    assert text[|a|] == '-';
    assert FirstIndex(text, IsDash) == |a|;
    assert text[..|a|] == a;
    assert text[|a| + 1..] == b;
  }

  /** The value of a one-digit text. */
  lemma OneDigitValue(t: string)
    requires |t| == 1 && IsDigit(t[0])
    ensures NumberOf(t) == Some(DigitValue(t[0]))
    ensures FirstIndex(t, IsDash) == -1
  {
    assert AllDigits(t);
    assert t[..|t| - 1] == [];
    assert ParseDigits(t[..|t| - 1]) == 0;
    assert ParseDigits(t) == DigitValue(t[0]);
    assert !IsDash(t[0]);
  }

  /** The value of a text with a digit appended. */
  lemma AppendDigitValue(t: string, c: char)
    requires AllDigits(t) && IsDigit(c)
    ensures NumberOf(t + [c]) == Some(ParseDigits(t) * 10 + DigitValue(c))
    ensures FirstIndex(t, IsDash) == -1 ==> FirstIndex(t + [c], IsDash) == -1
  {
    var u := t + [c];
    assert AllDigits(u) by {
      forall i | 0 <= i < |u| ensures IsDigit(u[i]) {
        if i < |t| { assert u[i] == t[i]; }
      }
    }
    assert u[..|u| - 1] == t;
  }

  /** A range "xy-zwv" with a two-digit lower and a three-digit upper
      bound reads as its bounds. */
  lemma TwoThreeDigitBounds(x: char, y: char, z: char, w: char, v: char)
    requires IsDigit(x) && IsDigit(y) && IsDigit(z) && IsDigit(w) && IsDigit(v)
    ensures RangeBounds([x, y, '-', z, w, v])
            == (Some(DigitValue(x) * 10 + DigitValue(y)),
                Some((DigitValue(z) * 10 + DigitValue(w)) * 10 + DigitValue(v)))
  {
    OneDigitValue([x]);
    AppendDigitValue([x], y);
    OneDigitValue([z]);
    AppendDigitValue([z], w);
    AppendDigitValue([z] + [w], v);
    assert [x, y, '-', z, w, v] == [x] + [y] + "-" + ([z] + [w] + [v]);
    SplitRange([x] + [y], [z] + [w] + [v]);
  }

  lemma BoundsOfA()
    ensures RangeBounds("90-100") == (Some(90), Some(100))
  {
    TwoThreeDigitBounds('9', '0', '1', '0', '0');
  }

  /** A two-digit range "xy-zw" reads as its bounds. */
  lemma TwoDigitBounds(x: char, y: char, z: char, w: char)
    requires IsDigit(x) && IsDigit(y) && IsDigit(z) && IsDigit(w)
    ensures RangeBounds([x, y, '-', z, w])
            == (Some(DigitValue(x) * 10 + DigitValue(y)), Some(DigitValue(z) * 10 + DigitValue(w)))
  {
    OneDigitValue([x]);
    AppendDigitValue([x], y);
    OneDigitValue([z]);
    AppendDigitValue([z], w);
    assert [x, y, '-', z, w] == [x] + [y] + "-" + ([z] + [w]);
    SplitRange([x] + [y], [z] + [w]);
  }

  lemma BoundsOfB()
    ensures RangeBounds("80-89") == (Some(80), Some(89))
  {
    TwoDigitBounds('8', '0', '8', '9');
  }

  lemma BoundsOfC()
    ensures RangeBounds("70-79") == (Some(70), Some(79))
  {
    TwoDigitBounds('7', '0', '7', '9');
  }

  lemma BoundsOfD()
    ensures RangeBounds("60-69") == (Some(60), Some(69))
  {
    TwoDigitBounds('6', '0', '6', '9');
  }

  /** A range "x-zw" reads as its bounds. */
  lemma OneTwoDigitBounds(x: char, z: char, w: char)
    requires IsDigit(x) && IsDigit(z) && IsDigit(w)
    ensures RangeBounds([x, '-', z, w])
            == (Some(DigitValue(x)), Some(DigitValue(z) * 10 + DigitValue(w)))
  {
    OneDigitValue([x]);
    OneDigitValue([z]);
    AppendDigitValue([z], w);
    assert [x, '-', z, w] == [x] + "-" + ([z] + [w]);
    SplitRange([x], [z] + [w]);
  }

  lemma BoundsOfF()
    ensures RangeBounds("0-59") == (Some(0), Some(59))
  {
    OneTwoDigitBounds('0', '5', '9');
  }

  /** The lowest and highest grades of a letter's band within 0..100. */
  function BandBounds(l: Letter): (r: (int, int))
    ensures forall g :: 0 <= g <= 100 ==> (r.0 <= g <= r.1 <==> LetterGrade(g) == l)
  {
    match l
    case A => (90, 100)
    case B => (80, 89)
    case C => (70, 79)
    case D => (60, 69)
    case F => (0, 59)
  }

  /** The bounds each option's text reads as: the option of a letter spans
      exactly that letter's band of 0..100. */
  lemma GradeRangeOptionBounds(i: nat)
    requires i < |GradeRangeOptions|
    ensures var b := BandBounds(GradeRangeOptions[i].1);
            RangeBounds(GradeRangeOptions[i].0) == (Some(b.0), Some(b.1))
  {
    if i == 0 {
      assert GradeRangeOptions[i] == ("90-100", A);
      BoundsOfA();
    } else if i == 1 {
      assert GradeRangeOptions[i] == ("80-89", B);
      BoundsOfB();
    } else if i == 2 {
      assert GradeRangeOptions[i] == ("70-79", C);
      BoundsOfC();
    } else if i == 3 {
      assert GradeRangeOptions[i] == ("60-69", D);
      BoundsOfD();
    } else {
      assert GradeRangeOptions[i] == ("0-59", F);
      BoundsOfF();
    }
  }

  /** On a current grade between 0 and 100, an option's range holds the
      grade exactly when the grade earns the option's letter: the five
      ranges cover 0..100 without overlap and follow the letter bands. */
  lemma GradeRangeOptionsMatchLetters(s: Student, i: nat)
    requires i < |GradeRangeOptions| && 0 <= s.currentGrade <= 100
    ensures InRange(s, RangeBounds(GradeRangeOptions[i].0))
            <==> LetterGrade(s.currentGrade) == GradeRangeOptions[i].1
  {
    GradeRangeOptionBounds(i);
  }

  /** Filtering by an option's range shows exactly the students the
      statistics count under the option's letter. */
  lemma RangeFilterIsLetterBand(students: seq<Student>, i: nat)
    requires i < |GradeRangeOptions|
    requires forall s :: s in students ==> 0 <= s.currentGrade <= 100
    ensures HandleFilterChange(students, map["gradeRange" := GradeRangeOptions[i].0])
            == Filter(students, StudentService.HasLetter(GradeRangeOptions[i].1))
  {
    var text, letter := GradeRangeOptions[i].0, GradeRangeOptions[i].1;
    var filters := map["gradeRange" := text];
    assert !Active(filters, "gradeLevel");
    assert Active(filters, "gradeRange") <==> text != "";
    assert text != "" by { GradeRangeOptionBounds(i); }
    assert HandleFilterChange(students, filters) == Filter(students, InGradeRange(text));
    forall k | 0 <= k < |students|
      ensures InGradeRange(text)(students[k]) == StudentService.HasLetter(letter)(students[k])
    {
      assert students[k] in students;
      GradeRangeOptionsMatchLetters(students[k], i);
    }
    FilterSame(students, InGradeRange(text), StudentService.HasLetter(letter));
  }
}
