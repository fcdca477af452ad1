/** The in-memory grade store (`src/services/api/gradeService.js`). A grade
    is keyed both by its numeric `Id` and by its cell, the (studentId,
    assignmentId) pair; creating a grade for a cell that already has one
    updates that grade instead. Each call is one synchronous transition from
    the old store to the new one. */
module GradeService {
  import opened Wrappers
  import opened Seqs
  import opened Records
  import GradeUtils
  import Js

  // ---------------------------------------------------------------------
  // Store invariants

  /** Every grade has its own Id. */
  predicate UniqueIds(store: seq<Grade>) {
    forall i, j :: 0 <= i < j < |store| ==> store[i].Id != store[j].Id
  }

  /** At most one grade per (student, assignment) cell. */
  predicate UniqueCells(store: seq<Grade>) {
    forall i, j :: 0 <= i < j < |store| ==>
      store[i].studentId != store[j].studentId || store[i].assignmentId != store[j].assignmentId
  }

  /** A payload's Id, when it has one, belongs to no grade of another cell
      (the grade grid sends the Id of the grade shown in the same cell). */
  predicate IdFits(store: seq<Grade>, d: GradeData) {
    d.Id.None? ||
    forall k :: 0 <= k < |store| && store[k].Id == d.Id.value ==>
      store[k].studentId == d.studentId && store[k].assignmentId == d.assignmentId
  }

  // ---------------------------------------------------------------------
  // create / update

  /** `Math.max(...grades.map(g => g.Id)) + 1`: above every Id in use. */
  function NextId(store: seq<Grade>): (id: int)
    requires |store| > 0
    ensures forall i :: 0 <= i < |store| ==> store[i].Id < id
  {
    MaxBy(store, (g: Grade) => g.Id) + 1
  }

  /** `{ ...grade, ...gradeData, submitted: true }`. */
  function Merge(g: Grade, d: GradeData): Grade {
    Grade(d.Id.GetOr(g.Id), d.studentId, d.assignmentId, d.score, true)
  }

  /** `{ ...gradeData, Id: max + 1, submitted: true }`. */
  function Fresh(store: seq<Grade>, d: GradeData): Grade
    requires |store| > 0
  {
    Grade(NextId(store), d.studentId, d.assignmentId, d.score, true)
  }

  /** The first grade of the payload's cell. */
  function CellIndex(store: seq<Grade>, d: GradeData): int {
    FirstIndex(store, GradeForCell(d.studentId, d.assignmentId))
  }

  /** `create(gradeData)`: a payload for a cell that already has a grade is
      handed to `update` with that grade's Id, which merges it into the
      first grade carrying that Id; otherwise a new grade is appended. */
  function Create(store: seq<Grade>, d: GradeData): (r: seq<Grade>)
    requires |store| > 0
    ensures CellIndex(store, d) >= 0 ==>
              |r| == |store|
              && exists j :: 0 <= j < |store| && store[j].Id == store[CellIndex(store, d)].Id
                             && r == store[j := Merge(store[j], d)]
    ensures CellIndex(store, d) < 0 ==>
              |r| == |store| + 1 && r[..|store|] == store
              && (forall k :: 0 <= k < |store| ==> store[k].Id < r[|store|].Id)
              && r[|store|] == Grade(r[|store|].Id, d.studentId, d.assignmentId, d.score, true)
  {
    var i := CellIndex(store, d);
    if i >= 0 then
      var j := FirstIndex(store, GradeWithId(store[i].Id));
      store[j := Merge(store[j], d)]
    else store + [Fresh(store, d)]
  }

  /** The key `update` is called with: a numeric Id, or a cell object. */
  datatype GradeKey = ById(id: int) | ByCell(studentId: int, assignmentId: int)

  /** The index `update` merges into. A cell key is used only when both of
      its fields are truthy (non-zero); any other object goes through
      `parseInt`, gives NaN and matches no Id. */
  function UpdateIndex(store: seq<Grade>, key: GradeKey): (i: int)
    ensures -1 <= i < |store|
    ensures key.ById? && i >= 0 ==> store[i].Id == key.id
    ensures key.ById? && i < 0 ==> forall k :: 0 <= k < |store| ==> store[k].Id != key.id
    ensures key.ByCell? && (key.studentId == 0 || key.assignmentId == 0) ==> i == -1
    ensures key.ByCell? && i >= 0 ==>
              store[i].studentId == key.studentId && store[i].assignmentId == key.assignmentId
  {
    match key
    case ById(id) => FirstIndex(store, GradeWithId(id))
    case ByCell(s, a) => if s != 0 && a != 0 then FirstIndex(store, GradeForCell(s, a)) else -1
  }

  /** `update(id, gradeData)`: merge into the found grade, forcing
      submitted, and leave every other grade alone; when nothing is found,
      `create` the payload instead. */
  function Update(store: seq<Grade>, key: GradeKey, d: GradeData): (r: seq<Grade>)
    requires |store| > 0
    ensures UpdateIndex(store, key) >= 0 ==>
              var i := UpdateIndex(store, key);
              |r| == |store|
              && r[i].Id == (if d.Id.Some? then d.Id.value else store[i].Id)
              && r[i].studentId == d.studentId && r[i].assignmentId == d.assignmentId
              && r[i].score == d.score && r[i].submitted
              && forall k :: 0 <= k < |store| && k != UpdateIndex(store, key) ==> r[k] == store[k]
    ensures UpdateIndex(store, key) < 0 ==> r == Create(store, d)
  {
    var i := UpdateIndex(store, key);
    if i == -1 then Create(store, d) else store[i := Merge(store[i], d)]
  }

  /** Looking a grade up again by the Id it was updated under finds the
      merged grade, holding the payload's cell and score, submitted. */
  lemma UpdateReadsBack(store: seq<Grade>, id: int, d: GradeData)
    requires |store| > 0 && d.Id.None?
    requires UpdateIndex(store, ById(id)) >= 0
    ensures var g := Find(Update(store, ById(id), d), GradeWithId(id));
            g.Some? && g.value == Grade(id, d.studentId, d.assignmentId, d.score, true)
  {
    var i := UpdateIndex(store, ById(id));
    var r := Update(store, ById(id), d);
    assert forall k :: 0 <= k < i ==> r[k] == store[k];
    assert FirstIndex(r, GradeWithId(id)) == i;
  }

  /** With unique Ids, the Id that `create` hands to `update` leads back to
      the very grade that matched the cell, so an existing cell is merged
      in place, and `create` is exactly `update` by that grade's Id. */
  lemma CreateMergesCell(store: seq<Grade>, d: GradeData)
    requires |store| > 0 && UniqueIds(store)
    requires CellIndex(store, d) >= 0
    ensures var i := CellIndex(store, d);
            Create(store, d) == store[i := Merge(store[i], d)]
            && Create(store, d) == Update(store, ById(store[i].Id), d)
  {
    var i := CellIndex(store, d);
    var j := FirstIndex(store, GradeWithId(store[i].Id));
    assert j == i;
  }

  /** A payload for an empty cell appends exactly one grade, with a fresh
      Id above every Id in use, submitted, and the payload's cell and
      score. */
  lemma CreateAppendsFresh(store: seq<Grade>, d: GradeData)
    requires |store| > 0
    requires CellIndex(store, d) < 0
    ensures var r := Create(store, d);
            r == store + [r[|store|]]
            && (forall k :: 0 <= k < |store| ==> store[k].Id < r[|store|].Id)
            && r[|store|] == Grade(r[|store|].Id, d.studentId, d.assignmentId, d.score, true)
  {
  }

  /** Creating keeps Ids unique: a new grade's Id is above all others, and
      a merge either keeps the grade's Id or takes the payload's, which no
      grade of another cell carries. */
  lemma CreateKeepsIdsUnique(store: seq<Grade>, d: GradeData)
    requires |store| > 0 && UniqueIds(store) && UniqueCells(store) && IdFits(store, d)
    ensures UniqueIds(Create(store, d))
  {
    var r := Create(store, d);
    var i := CellIndex(store, d);
    if i >= 0 {
      CreateMergesCell(store, d);
      forall a, b | 0 <= a < b < |r| ensures r[a].Id != r[b].Id {
        if (a == i || b == i) && d.Id.Some? {
          var o := if a == i then b else a;
          assert r[o] == store[o];
        }
      }
    } else {
      assert r[|store|] == Fresh(store, d);
    }
  }

  /** Creating keeps at most one grade per cell: a merge does not move the
      grade to another cell, and an append happens only for an empty
      cell. */
  lemma CreateKeepsCellsUnique(store: seq<Grade>, d: GradeData)
    requires |store| > 0 && UniqueIds(store) && UniqueCells(store)
    ensures UniqueCells(Create(store, d))
  {
    if CellIndex(store, d) >= 0 {
      CreateMergesCell(store, d);
    }
  }

  /** Afterwards the payload's cell holds a submitted grade with the
      payload's score. */
  lemma CreateFillsCell(store: seq<Grade>, d: GradeData)
    requires |store| > 0 && UniqueIds(store)
    ensures exists k :: 0 <= k < |Create(store, d)| && Create(store, d)[k].score == d.score
                        && GradeForCell(d.studentId, d.assignmentId)(Create(store, d)[k])
                        && Create(store, d)[k].submitted
  {
    var i := CellIndex(store, d);
    if i >= 0 {
      CreateMergesCell(store, d);
      assert Create(store, d)[i] == Merge(store[i], d);
    } else {
      assert Create(store, d)[|store|] == Fresh(store, d);
    }
  }

  // ---------------------------------------------------------------------
  // delete

  /** `delete(id)`: "Grade not found" and no change when no grade has the
      Id; otherwise the first grade with it is spliced out. */
  function Delete(store: seq<Grade>, id: int): (r: Result<seq<Grade>>)
    ensures r.Err? <==> forall k :: 0 <= k < |store| ==> store[k].Id != id
    ensures r.Err? ==> r.error == "Grade not found"
    ensures r.Ok? ==> |r.value| == |store| - 1
                      && exists k :: 0 <= k < |store| && store[k].Id == id
                                     && multiset(r.value) + multiset{store[k]} == multiset(store)
  {
    var i := FirstIndex(store, GradeWithId(id));
    if i == -1 then Err("Grade not found") else Ok(RemoveAt(store, i))
  }

  /** With unique Ids, deleting removes exactly the grade with that Id and
      keeps every other grade. */
  lemma DeleteExactlyOne(store: seq<Grade>, id: int)
    requires UniqueIds(store)
    requires Delete(store, id).Ok?
    ensures forall g :: g in Delete(store, id).value <==> g in store && g.Id != id
  {
    var i := FirstIndex(store, GradeWithId(id));
    var r := Delete(store, id).value;
    forall g ensures g in r <==> g in store && g.Id != id {
      if g in r {
        var k :| 0 <= k < |r| && r[k] == g;
        if k < i { assert g == store[k]; } else { assert g == store[k + 1]; }
      }
      if g in store && g.Id != id {
        var k :| 0 <= k < |store| && store[k] == g;
        if k < i { assert r[k] == g; } else { assert r[k - 1] == g; }
      }
    }
  }

  // ---------------------------------------------------------------------
  // getGradeStats

  predicate IsSubmitted(g: Grade) {
    g.submitted
  }

  datatype GradeStats = GradeStats(totalGrades: nat, submittedGrades: nat, pendingGrades: int,
                                   averageScore: int)

  /** The raw scores of a list of grades, in order. */
  function Scores(gs: seq<Grade>): (r: seq<real>)
    ensures |r| == |gs| && forall i :: 0 <= i < |gs| ==> r[i] == gs[i].score
  {
    if gs == [] then [] else [gs[0].score] + Scores(gs[1..])
  }

  /** Counts of all, submitted and pending grades, and the class average of
      the submitted grades' raw scores. */
  function Stats(store: seq<Grade>): (s: GradeStats)
    ensures s.totalGrades == |store|
    ensures s.submittedGrades <= s.totalGrades
    ensures s.pendingGrades == s.totalGrades - s.submittedGrades >= 0
    ensures s.submittedGrades == 0 ==> s.averageScore == 0
    ensures var sub := Filter(store, IsSubmitted);
            s.submittedGrades == |sub| && s.averageScore == GradeUtils.ClassAverage(Scores(sub))
  {
    var sub := Filter(store, IsSubmitted);
    GradeStats(|store|, |sub|, |store| - |sub|, GradeUtils.ClassAverage(Scores(sub)))
  }

  /** When every submitted score lies in [lo, hi] (integers), so does the
      average score of a store with submitted grades. */
  lemma StatsAverageWithin(store: seq<Grade>, lo: int, hi: int)
    requires lo <= hi
    requires forall g :: g in store && g.submitted ==> lo as real <= g.score <= hi as real
    ensures Stats(store).submittedGrades > 0 ==> lo <= Stats(store).averageScore <= hi
  {
    var sub := Filter(store, IsSubmitted);
    var sc := Scores(sub);
    if |sc| > 0 {
      forall i | 0 <= i < |sc| ensures lo as real <= sc[i] <= hi as real {
        assert sub[i] in sub;
      }
      GradeUtils.MeanOfWithin(sc, lo as real, hi as real);
      Js.RoundWithin(GradeUtils.Sum(sc) / |sc| as real, lo, hi);
    }
  }
}
