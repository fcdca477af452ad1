/** The grade arithmetic of `src/utils/gradeUtils.js`: score to rounded
    percentage, percentage to letter band and colour band, the class average
    and the category-weighted grade. */
module GradeUtils {
  import opened Wrappers
  import opened Js
  import opened Seqs
  import opened Records

  datatype Letter = A | B | C | D | F

  // ---------------------------------------------------------------------
  // calculateGradePercentage

  /** Score as a rounded percentage of totalPoints; a falsy (zero) total gives
      0 instead of dividing by zero. */
  function Percentage(score: real, totalPoints: int): (r: int)
    ensures totalPoints == 0 ==> r == 0
    ensures totalPoints != 0 ==>
              r as real - 0.5 <= score / totalPoints as real * 100.0 < r as real + 0.5
  {
    if totalPoints == 0 then 0 else Round(score / totalPoints as real * 100.0)
  }

  /** A score between 0 and the total is a percentage between 0 and 100. */
  lemma PercentageInRange(score: real, totalPoints: int)
    requires 0 < totalPoints
    requires 0.0 <= score <= totalPoints as real
    ensures 0 <= Percentage(score, totalPoints) <= 100
  {
    var x := score / totalPoints as real * 100.0;
    assert score / totalPoints as real <= 1.0;
    RoundWithin(x, 0, 100);
  }

  /** A higher score never gives a lower percentage. */
  lemma PercentageMonotone(s1: real, s2: real, totalPoints: int)
    requires 0 < totalPoints
    requires s1 <= s2
    ensures Percentage(s1, totalPoints) <= Percentage(s2, totalPoints)
  {
    var t := totalPoints as real;
    assert s1 / t <= s2 / t;
    RoundMonotone(s1 / t * 100.0, s2 / t * 100.0);
  }

  lemma PercentageExamples()
    ensures Percentage(0.0, 0) == 0
    ensures Percentage(85.0, 100) == 85
    ensures Percentage(42.0, 50) == 84
  {
    RoundIntegral(85);
    RoundIntegral(84);
  }

  // ---------------------------------------------------------------------
  // getLetterGrade / getGradeColor

  /** The letter band of a percentage. */
  function LetterGrade(p: int): (l: Letter)
    ensures l == A <==> p >= 90
    ensures l == B <==> 80 <= p < 90
    ensures l == C <==> 70 <= p < 80
    ensures l == D <==> 60 <= p < 70
    ensures l == F <==> p < 60
  {
    if p >= 90 then A
    else if p >= 80 then B
    else if p >= 70 then C
    else if p >= 60 then D
    else F
  }

  /** The band's displayed letter. */
  function LetterText(l: Letter): string {
    match l
    case A => "A"
    case B => "B"
    case C => "C"
    case D => "D"
    case F => "F"
  }

  /** The colour class naming a letter band. */
  function ColorOf(l: Letter): string {
    match l
    case A => "grade-a"
    case B => "grade-b"
    case C => "grade-c"
    case D => "grade-d"
    case F => "grade-f"
  }

  /** The colour class of a percentage, with its own threshold ladder. */
  function GradeColor(p: int): string {
    if p >= 90 then "grade-a"
    else if p >= 80 then "grade-b"
    else if p >= 70 then "grade-c"
    else if p >= 60 then "grade-d"
    else "grade-f"
  }

  /** The colour ladder uses the letter ladder's thresholds: the colour of a
      percentage is the colour of its letter, and distinct letters have
      distinct colours, so colours and letters correspond one to one. */
  lemma GradeColorMatchesLetter(p: int, q: int)
    ensures GradeColor(p) == ColorOf(LetterGrade(p))
    ensures GradeColor(p) == GradeColor(q) <==> LetterGrade(p) == LetterGrade(q)
  {
  }

  // ---------------------------------------------------------------------
  // calculateClassAverage

  /** `grades.reduce((a, g) => a + g, 0)`. */
  function Sum(s: seq<real>): real {
    if s == [] then 0.0 else s[0] + Sum(s[1..])
  }

  function MinOf(s: seq<real>): (m: real)
    requires |s| > 0
    ensures forall i :: 0 <= i < |s| ==> m <= s[i]
    ensures exists i :: 0 <= i < |s| && m == s[i]
  {
    if |s| == 1 then s[0]
    else
      var rest := MinOf(s[1..]);
      if s[0] <= rest then s[0] else rest
  }

  function MaxOf(s: seq<real>): (m: real)
    requires |s| > 0
    ensures forall i :: 0 <= i < |s| ==> s[i] <= m
    ensures exists i :: 0 <= i < |s| && m == s[i]
  {
    if |s| == 1 then s[0]
    else
      var rest := MaxOf(s[1..]);
      if s[0] >= rest then s[0] else rest
  }

  /** A sum of terms that each lie in [lo, hi] lies in [|s|*lo, |s|*hi]. */
  lemma {:induction false} SumWithin(s: seq<real>, lo: real, hi: real)
    requires forall i :: 0 <= i < |s| ==> lo <= s[i] <= hi
    ensures (|s| as real) * lo <= Sum(s) <= (|s| as real) * hi
  {
    if s != [] {
      SumWithin(s[1..], lo, hi);
    }
  }

  /** A sum of n terms between lo and hi has its mean between lo and hi. */
  lemma MeanWithin(sum: real, n: real, lo: real, hi: real)
    requires 0.0 < n
    requires n * lo <= sum <= n * hi
    ensures lo <= sum / n <= hi
  {
    var m := sum / n;
    assert sum == n * m;
  }

  /** The mean of a non-empty list of values within [lo, hi] is within [lo, hi]. */
  lemma MeanOfWithin(s: seq<real>, lo: real, hi: real)
    requires |s| > 0
    requires forall i :: 0 <= i < |s| ==> lo <= s[i] <= hi
    ensures lo <= Sum(s) / |s| as real <= hi
  {
    SumWithin(s, lo, hi);
    MeanWithin(Sum(s), |s| as real, lo, hi);
  }

  /** The rounded mean of a list of grades, 0 for an empty list. The result is
      the integer nearest the mean and lies between the rounded minimum and
      the rounded maximum of the list. */
  function ClassAverage(grades: seq<real>): (r: int)
    ensures |grades| == 0 ==> r == 0
    ensures |grades| > 0 ==>
              r as real - 0.5 <= Sum(grades) / |grades| as real < r as real + 0.5
    ensures |grades| > 0 ==> Round(MinOf(grades)) <= r <= Round(MaxOf(grades))
  {
    if |grades| == 0 then 0
    else
      var lo, hi := MinOf(grades), MaxOf(grades);
      var mean := Sum(grades) / |grades| as real;
      MeanOfWithin(grades, lo, hi);
      RoundMonotone(lo, mean);
      RoundMonotone(mean, hi);
      Round(mean)
  }

  // ---------------------------------------------------------------------
  // calculateWeightedGrade

  /** `g => g.assignmentId === assignmentId`. */
  function ForAssignment(assignmentId: int): Grade -> bool {
    (g: Grade) => g.assignmentId == assignmentId
  }

  /** Points earned on one assignment: the score of the FIRST grade for that
      assignment, counted only when it is submitted. */
  function EarnedOn(grades: seq<Grade>, assignmentId: int): real {
    match Find(grades, ForAssignment(assignmentId))
    case Some(g) => if g.submitted then g.score else 0.0
    case None => 0.0
  }

  /** Only the first grade matching the assignment counts, and only if it is
      submitted; later grades for the same assignment are ignored. */
  lemma EarnedOnFirstMatch(grades: seq<Grade>, assignmentId: int, i: nat)
    requires i < |grades| && grades[i].assignmentId == assignmentId
    requires forall j :: 0 <= j < i ==> grades[j].assignmentId != assignmentId
    ensures EarnedOn(grades, assignmentId) == if grades[i].submitted then grades[i].score else 0.0
  {
    assert FirstIndex(grades, ForAssignment(assignmentId)) == i;
  }

  /** With no grade for the assignment nothing is earned. */
  lemma EarnedOnMissing(grades: seq<Grade>, assignmentId: int)
    requires forall j :: 0 <= j < |grades| ==> grades[j].assignmentId != assignmentId
    ensures EarnedOn(grades, assignmentId) == 0.0
  {
  }

  function CategoryOf(a: Assignment): string { a.category }

  function PointsOf(a: Assignment): int { a.points }

  /** The category names in order of first appearance (the keys of the
      `categories` object). */
  function Categories(assignments: seq<Assignment>): seq<string> {
    if assignments == [] then []
    else
      var prev := Categories(assignments[..|assignments| - 1]);
      var c := assignments[|assignments| - 1].category;
      if c in prev then prev else prev + [c]
  }

  /** The categories are exactly the categories of the assignments, each
      listed once. */
  lemma {:induction false} CategoriesExact(assignments: seq<Assignment>)
    ensures forall c :: c in Categories(assignments) <==>
              exists i :: 0 <= i < |assignments| && assignments[i].category == c
    ensures forall i, j :: 0 <= i < j < |Categories(assignments)| ==>
              Categories(assignments)[i] != Categories(assignments)[j]
  {
    if assignments != [] {
      var init := assignments[..|assignments| - 1];
      CategoriesExact(init);
      assert forall i :: 0 <= i < |init| ==> init[i] == assignments[i];
    }
  }

  /** Adding an assignment adds its category at the end unless it is already
      known. */
  lemma CategoriesSnoc(assignments: seq<Assignment>, a: Assignment)
    ensures Categories(assignments + [a]) ==
              if a.category in Categories(assignments) then Categories(assignments)
              else Categories(assignments) + [a.category]
  {
    assert (assignments + [a])[..|assignments|] == assignments;
  }

  /** Total points of the category's assignments. */
  function CategoryTotal(assignments: seq<Assignment>, cat: string): int {
    if assignments == [] then 0
    else
      var last := assignments[|assignments| - 1];
      CategoryTotal(assignments[..|assignments| - 1], cat) + (if last.category == cat then last.points else 0)
  }

  /** Points earned in the category. */
  function CategoryEarned(assignments: seq<Assignment>, grades: seq<Grade>, cat: string): real {
    if assignments == [] then 0.0
    else
      var last := assignments[|assignments| - 1];
      CategoryEarned(assignments[..|assignments| - 1], grades, cat)
        + (if last.category == cat then EarnedOn(grades, last.Id) else 0.0)
  }

  /** `weights[cat] || 1`: a missing or zero weight counts as 1. */
  function EffectiveWeight(weights: map<string, real>, cat: string): real {
    if cat in weights && weights[cat] != 0.0 then weights[cat] else 1.0
  }

  /** What one accumulated category adds to the weighted sum and to the sum
      of weights: its percentage times its weight, and its weight, when its
      total is positive; nothing otherwise. */
  function EntryContribution(total: int, earned: real, weight: real): (real, real) {
    if total > 0 then (earned / total as real * 100.0 * weight, weight) else (0.0, 0.0)
  }

  /** A category's contribution, from its totals over all assignments. */
  function Contribution(assignments: seq<Assignment>, grades: seq<Grade>,
                        weights: map<string, real>, cat: string): (real, real)
  {
    EntryContribution(CategoryTotal(assignments, cat), CategoryEarned(assignments, grades, cat),
                      EffectiveWeight(weights, cat))
  }

  /** Sum of weighted percentages over cats. */
  function WeightedScore(cats: seq<string>, assignments: seq<Assignment>, grades: seq<Grade>,
                         weights: map<string, real>): real
  {
    if cats == [] then 0.0
    else WeightedScore(cats[..|cats| - 1], assignments, grades, weights)
         + Contribution(assignments, grades, weights, cats[|cats| - 1]).0
  }

  /** Sum of the weights of contributing categories among cats. */
  function TotalWeight(cats: seq<string>, assignments: seq<Assignment>, grades: seq<Grade>,
                       weights: map<string, real>): real
  {
    if cats == [] then 0.0
    else TotalWeight(cats[..|cats| - 1], assignments, grades, weights)
         + Contribution(assignments, grades, weights, cats[|cats| - 1]).1
  }

  /** The category-weighted grade: the rounded weighted mean of the
      contributing categories' percentages, or 0 when the contributing
      weights do not sum to a positive number. */
  function WeightedGrade(assignments: seq<Assignment>, grades: seq<Grade>,
                         weights: map<string, real>): int
  {
    var cats := Categories(assignments);
    var tw := TotalWeight(cats, assignments, grades, weights);
    if tw > 0.0 then Round(WeightedScore(cats, assignments, grades, weights) / tw) else 0
  }

  /** Every category's earned points lie between 0 and its total. */
  ghost predicate EarnedWithinTotals(assignments: seq<Assignment>, grades: seq<Grade>) {
    forall cat :: 0.0 <= CategoryEarned(assignments, grades, cat) <= CategoryTotal(assignments, cat) as real
  }

  /** No weight in the map is negative. */
  ghost predicate NonNegativeWeights(weights: map<string, real>) {
    forall c :: c in weights ==> weights[c] >= 0.0
  }

  /** A category whose earned points lie between 0 and its total adds at
      most 100 times its (non-negative) weight, and nothing negative. */
  lemma EntryContributionWithin(total: int, earned: real, weight: real)
    requires 0.0 <= earned <= total as real && 0.0 <= weight
    ensures 0.0 <= EntryContribution(total, earned, weight).1
    ensures 0.0 <= EntryContribution(total, earned, weight).0
              <= 100.0 * EntryContribution(total, earned, weight).1
  {
    if total > 0 {
      var pct := earned / total as real * 100.0;
      FractionWithin(earned, total as real);
      ScaledWithin(pct, weight);
    }
  }

  lemma FractionWithin(e: real, t: real)
    requires 0.0 <= e <= t && 0.0 < t
    ensures 0.0 <= e / t * 100.0 <= 100.0
  {
    MeanWithin(e, t, 0.0, 1.0);
  }

  lemma ScaledWithin(pct: real, w: real)
    requires 0.0 <= pct <= 100.0 && 0.0 <= w
    ensures 0.0 <= pct * w <= 100.0 * w
  {
  }

  lemma {:induction false} WeightedSumsBounded(cats: seq<string>, assignments: seq<Assignment>,
                                               grades: seq<Grade>, weights: map<string, real>)
    requires EarnedWithinTotals(assignments, grades)
    requires NonNegativeWeights(weights)
    ensures 0.0 <= TotalWeight(cats, assignments, grades, weights)
    ensures 0.0 <= WeightedScore(cats, assignments, grades, weights)
              <= 100.0 * TotalWeight(cats, assignments, grades, weights)
  {
    if cats != [] {
      var init := cats[..|cats| - 1];
      var cat := cats[|cats| - 1];
      WeightedSumsBounded(init, assignments, grades, weights);
      EntryContributionWithin(CategoryTotal(assignments, cat), CategoryEarned(assignments, grades, cat),
                              EffectiveWeight(weights, cat));
    }
  }

  /** With non-negative weights and earned points within each category's
      total, the weighted grade is a percentage between 0 and 100. */
  lemma WeightedGradeInRange(assignments: seq<Assignment>, grades: seq<Grade>, weights: map<string, real>)
    requires EarnedWithinTotals(assignments, grades)
    requires NonNegativeWeights(weights)
    ensures 0 <= WeightedGrade(assignments, grades, weights) <= 100
  {
    var cats := Categories(assignments);
    WeightedSumsBounded(cats, assignments, grades, weights);
    var tw := TotalWeight(cats, assignments, grades, weights);
    var ws := WeightedScore(cats, assignments, grades, weights);
    if tw > 0.0 {
      MeanWithin(ws, tw, 0.0, 100.0);
      RoundWithin(ws / tw, 0, 100);
    }
  }

  /** Categories whose total points are zero add nothing to either sum, so
      when no category has positive points the weighted grade is 0. */
  lemma {:induction false} NoContributionNoWeight(cats: seq<string>, assignments: seq<Assignment>,
                                                  grades: seq<Grade>, weights: map<string, real>)
    requires forall i :: 0 <= i < |cats| ==> CategoryTotal(assignments, cats[i]) <= 0
    ensures TotalWeight(cats, assignments, grades, weights) == 0.0
    ensures WeightedScore(cats, assignments, grades, weights) == 0.0
  {
    if cats != [] {
      NoContributionNoWeight(cats[..|cats| - 1], assignments, grades, weights);
    }
  }

  lemma WeightedGradeWithoutPoints(assignments: seq<Assignment>, grades: seq<Grade>, weights: map<string, real>)
    requires forall cat :: CategoryTotal(assignments, cat) <= 0
    ensures WeightedGrade(assignments, grades, weights) == 0
  {
    var cats := Categories(assignments);
    assert forall i :: 0 <= i < |cats| ==> CategoryTotal(assignments, cats[i]) <= 0;
    NoContributionNoWeight(cats, assignments, grades, weights);
  }

  /** Homework worth 100 points with 80 earned at weight 0.2, and an exam
      worth 100 points with 90 earned at weight 0.8, give 88. */
  lemma WeightedGradeExample()
    ensures WeightedGrade(
      [Assignment(1, "Essay", "Homework", 100, "", "class1", 0.2, ""),
       Assignment(2, "Final", "Exam", 100, "", "class1", 0.8, "")],
      [Grade(1, 7, 1, 80.0, true), Grade(2, 7, 2, 90.0, true)],
      map["Homework" := 0.2, "Exam" := 0.8]) == 88
  {
    var xs := [Assignment(1, "Essay", "Homework", 100, "", "class1", 0.2, ""),
       Assignment(2, "Final", "Exam", 100, "", "class1", 0.8, "")];
    var gs := [Grade(1, 7, 1, 80.0, true), Grade(2, 7, 2, 90.0, true)];
    var w := map["Homework" := 0.2, "Exam" := 0.8];
    assert xs[..1] == [xs[0]];
    assert Categories([xs[0]]) == ["Homework"];
    assert Categories(xs) == ["Homework", "Exam"];
    assert EarnedOn(gs, 1) == 80.0 by { EarnedOnFirstMatch(gs, 1, 0); }
    assert EarnedOn(gs, 2) == 90.0 by { EarnedOnFirstMatch(gs, 2, 1); }
    assert CategoryTotal(xs, "Homework") == 100;
    assert CategoryTotal(xs, "Exam") == 100;
    assert CategoryEarned(xs, gs, "Homework") == 80.0;
    assert CategoryEarned(xs, gs, "Exam") == 90.0;
    var cats := ["Homework", "Exam"];
    assert cats[..1] == ["Homework"];
    assert TotalWeight(cats, xs, gs, w) == 1.0;
    assert WeightedScore(cats, xs, gs, w) == 88.0;
    RoundIntegral(88);
  }

  // ---------------------------------------------------------------------
  // calculateWeightedGrade, as the two passes of the source

  /** The per-category accumulator: for each category, its total points,
      earned points and weight. */
  ghost predicate AccumulatorOf(acc: map<string, (int, real, real)>, assignments: seq<Assignment>,
                                grades: seq<Grade>, weights: map<string, real>)
  {
    forall c :: c in acc ==>
      acc[c] == (CategoryTotal(assignments, c), CategoryEarned(assignments, grades, c),
                 EffectiveWeight(weights, c))
  }

  /** Registering a category not seen so far with zero totals keeps the
      accumulator exact. */
  lemma AccumulateNew(acc: map<string, (int, real, real)>, prefix: seq<Assignment>, cat: string,
                      grades: seq<Grade>, weights: map<string, real>)
    requires AccumulatorOf(acc, prefix, grades, weights)
    requires cat !in Categories(prefix)
    ensures AccumulatorOf(acc[cat := (0, 0.0, EffectiveWeight(weights, cat))], prefix, grades, weights)
  {
    CategoryTotalAbsent(prefix, cat);
    CategoryEarnedAbsent(prefix, grades, cat);
  }

  /** One step of the first pass keeps the accumulator exact. */
  lemma AccumulateStep(acc: map<string, (int, real, real)>, prefix: seq<Assignment>, a: Assignment,
                       grades: seq<Grade>, weights: map<string, real>, earned: real)
    requires AccumulatorOf(acc, prefix, grades, weights)
    requires a.category in acc
    requires earned == acc[a.category].1 + EarnedOn(grades, a.Id)
    ensures AccumulatorOf(acc[a.category := (acc[a.category].0 + a.points, earned, acc[a.category].2)],
                          prefix + [a], grades, weights)
  {
    var acc' := acc[a.category := (acc[a.category].0 + a.points, earned, acc[a.category].2)];
    forall c | c in acc'
      ensures acc'[c] == (CategoryTotal(prefix + [a], c), CategoryEarned(prefix + [a], grades, c),
                          EffectiveWeight(weights, c))
    {
      CategorySumsSnoc(prefix, a, grades, c);
    }
  }

  /** Appending an assignment adds its points, and its earned points, to its
      own category only. */
  lemma CategorySumsSnoc(prefix: seq<Assignment>, a: Assignment, grades: seq<Grade>, c: string)
    ensures CategoryTotal(prefix + [a], c) == CategoryTotal(prefix, c) + (if a.category == c then a.points else 0)
    ensures CategoryEarned(prefix + [a], grades, c)
            == CategoryEarned(prefix, grades, c) + (if a.category == c then EarnedOn(grades, a.Id) else 0.0)
  {
    var xs := prefix + [a];
    assert xs[..|xs| - 1] == prefix && xs[|xs| - 1] == a;
  }

  /** The state of the first pass after the assignments of prefix: the keys
      in order of first appearance, and the exact accumulator for each. */
  ghost predicate Accumulated(acc: map<string, (int, real, real)>, order: seq<string>,
                              prefix: seq<Assignment>, grades: seq<Grade>, weights: map<string, real>)
  {
    && order == Categories(prefix)
    && (forall c :: c in acc <==> c in order)
    && AccumulatorOf(acc, prefix, grades, weights)
  }

  /** An assignment of a category already seen adds to its entry. */
  lemma AccumulateKnown(acc: map<string, (int, real, real)>, order: seq<string>,
                        prefix: seq<Assignment>, a: Assignment, grades: seq<Grade>,
                        weights: map<string, real>)
    requires Accumulated(acc, order, prefix, grades, weights) && a.category in acc
    ensures Accumulated(acc[a.category := (acc[a.category].0 + a.points,
                                           acc[a.category].1 + EarnedOn(grades, a.Id),
                                           acc[a.category].2)],
                        order, prefix + [a], grades, weights)
  {
    CategoriesSnoc(prefix, a);
    AccumulateStep(acc, prefix, a, grades, weights, acc[a.category].1 + EarnedOn(grades, a.Id));
  }

  /** An assignment of a new category registers it, then adds to it. */
  lemma AccumulateFresh(acc: map<string, (int, real, real)>, order: seq<string>,
                        prefix: seq<Assignment>, a: Assignment, grades: seq<Grade>,
                        weights: map<string, real>)
    requires Accumulated(acc, order, prefix, grades, weights) && a.category !in acc
    ensures Accumulated(acc[a.category := (0 + a.points, 0.0 + EarnedOn(grades, a.Id),
                                           EffectiveWeight(weights, a.category))],
                        order + [a.category], prefix + [a], grades, weights)
  {
    CategoriesSnoc(prefix, a);
    AccumulateNew(acc, prefix, a.category, grades, weights);
    var entry := (0, 0.0, EffectiveWeight(weights, a.category));
    var acc1 := acc[a.category := entry];
    var earned := 0.0 + EarnedOn(grades, a.Id);
    AccumulateStep(acc1, prefix, a, grades, weights, earned);
    assert acc1[a.category := (0 + a.points, earned, entry.2)]
        == acc[a.category := (0 + a.points, earned, entry.2)];
  }

  /** One iteration of the first pass, registering the category on first
      sight and then adding the assignment's points, keeps the accumulator
      exact and its keys in order of first appearance. */
  lemma AccumulateInvariant(acc: map<string, (int, real, real)>, order: seq<string>,
                            assignments: seq<Assignment>, k: nat, grades: seq<Grade>,
                            weights: map<string, real>, entry: (int, real, real))
    requires k < |assignments|
    requires Accumulated(acc, order, assignments[..k], grades, weights)
    requires entry == if assignments[k].category in acc then acc[assignments[k].category]
                      else (0, 0.0, EffectiveWeight(weights, assignments[k].category))
    ensures Accumulated(acc[assignments[k].category := (entry.0 + assignments[k].points,
                                                        entry.1 + EarnedOn(grades, assignments[k].Id),
                                                        entry.2)],
                        if assignments[k].category in acc then order else order + [assignments[k].category],
                        assignments[..k + 1], grades, weights)
  {
    var a, prefix := assignments[k], assignments[..k];
    assert assignments[..k + 1] == prefix + [a];
    if a.category in acc {
      AccumulateKnown(acc, order, prefix, a, grades, weights);
    } else {
      AccumulateFresh(acc, order, prefix, a, grades, weights);
    }
  }

  /** The first pass of the source: the accumulator over all assignments,
      with its keys in order of first appearance. */
  method AccumulateCategories(assignments: seq<Assignment>, grades: seq<Grade>,
                              weights: map<string, real>)
    returns (acc: map<string, (int, real, real)>, order: seq<string>)
    ensures order == Categories(assignments)
    ensures forall c :: c in acc <==> c in order
    ensures forall c :: c in acc ==>
              acc[c] == (CategoryTotal(assignments, c), CategoryEarned(assignments, grades, c),
                         EffectiveWeight(weights, c))
  {
    acc := map[];
    order := [];
    var k := 0;
    while k < |assignments|
      invariant 0 <= k <= |assignments|
      invariant Accumulated(acc, order, assignments[..k], grades, weights)
    {
      var a := assignments[k];
      var entry := if a.category in acc then acc[a.category]
                   else (0, 0.0, EffectiveWeight(weights, a.category));
      AccumulateInvariant(acc, order, assignments, k, grades, weights, entry);
      if a.category !in acc {
        order := order + [a.category];
      }
      acc := acc[a.category := (entry.0 + a.points, entry.1 + EarnedOn(grades, a.Id), entry.2)];
      k := k + 1;
    }
    assert assignments[..k] == assignments;
  }

  lemma SumsSnoc(cats: seq<string>, i: nat, assignments: seq<Assignment>, grades: seq<Grade>,
                 weights: map<string, real>)
    requires i < |cats|
    ensures WeightedScore(cats[..i + 1], assignments, grades, weights)
              == WeightedScore(cats[..i], assignments, grades, weights)
                 + Contribution(assignments, grades, weights, cats[i]).0
    ensures TotalWeight(cats[..i + 1], assignments, grades, weights)
              == TotalWeight(cats[..i], assignments, grades, weights)
                 + Contribution(assignments, grades, weights, cats[i]).1
  {
    assert cats[..i + 1][..i] == cats[..i];
  }

  /** The two passes of the source: it computes the category-weighted grade
      defined above. */
  method ComputeWeightedGrade(assignments: seq<Assignment>, grades: seq<Grade>,
                              weights: map<string, real>) returns (r: int)
    ensures r == WeightedGrade(assignments, grades, weights)
  {
    var acc, order := AccumulateCategories(assignments, grades, weights);
    var totalWeightedScore := 0.0;
    var totalWeights := 0.0;
    var i := 0;
    while i < |order|
      invariant 0 <= i <= |order|
      invariant totalWeightedScore == WeightedScore(order[..i], assignments, grades, weights)
      invariant totalWeights == TotalWeight(order[..i], assignments, grades, weights)
    {
      assert order[i] in acc;
      var category := acc[order[i]];
      SumsSnoc(order, i, assignments, grades, weights);
      if category.0 > 0 {
        var contribution := EntryContribution(category.0, category.1, category.2);
        totalWeightedScore := totalWeightedScore + contribution.0;
        totalWeights := totalWeights + contribution.1;
      }
      i := i + 1;
    }
    assert order[..i] == order;
    r := if totalWeights > 0.0 then Round(totalWeightedScore / totalWeights) else 0;
  }

  /** A category absent from the assignments has no points. */
  lemma {:induction false} CategoryTotalAbsent(assignments: seq<Assignment>, cat: string)
    requires cat !in Categories(assignments)
    ensures CategoryTotal(assignments, cat) == 0
  {
    if assignments != [] {
      var init := assignments[..|assignments| - 1];
      assert forall i :: 0 <= i < |init| ==> init[i] == assignments[i];
      CategoryTotalAbsent(init, cat);
    }
  }

  /** A category absent from the assignments has nothing earned. */
  lemma {:induction false} CategoryEarnedAbsent(assignments: seq<Assignment>, grades: seq<Grade>, cat: string)
    requires cat !in Categories(assignments)
    ensures CategoryEarned(assignments, grades, cat) == 0.0
  {
    if assignments != [] {
      var init := assignments[..|assignments| - 1];
      assert forall i :: 0 <= i < |init| ==> init[i] == assignments[i];
      CategoryEarnedAbsent(init, grades, cat);
    }
  }
}
