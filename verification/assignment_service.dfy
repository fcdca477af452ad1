/** The in-memory assignment store (`src/services/api/assignmentService.js`). */
module AssignmentService {
  import opened Wrappers
  import opened Seqs
  import opened Records

  /** Every assignment has its own numeric Id. */
  predicate UniqueIds(store: seq<Assignment>) {
    forall i, j :: 0 <= i < j < |store| ==> store[i].Id != store[j].Id
  }

  /** `getByClassId(classId)`: the assignments of one class, in store order. */
  function GetByClassId(store: seq<Assignment>, classId: string): (r: seq<Assignment>)
    ensures forall a :: a in r <==> a in store && a.classId == classId
    ensures |r| <= |store|
  {
    Filter(store, AssignmentOfClass(classId))
  }

  /** Looking up two classes in turn over a split store is looking up over
      the whole store: the result keeps store order. */
  lemma GetByClassIdConcat(a: seq<Assignment>, b: seq<Assignment>, classId: string)
    ensures GetByClassId(a + b, classId) == GetByClassId(a, classId) + GetByClassId(b, classId)
  {
    FilterConcat(a, b, AssignmentOfClass(classId));
  }

  // ---------------------------------------------------------------------
  // create

  /** `Math.max(...assignments.map(a => a.Id)) + 1`: above every Id in use. */
  function NextId(store: seq<Assignment>): (id: int)
    requires |store| > 0
    ensures forall i :: 0 <= i < |store| ==> store[i].Id < id
  {
    MaxBy(store, (a: Assignment) => a.Id) + 1
  }

  /** `dueDate || today`: a missing or empty due date falls back to today. */
  function DueDateOr(dueDate: Option<string>, today: string): (r: string)
    ensures dueDate.Some? && dueDate.value != "" ==> r == dueDate.value
    ensures dueDate.None? || dueDate.value == "" ==> r == today
  {
    if dueDate.Some? && dueDate.value != "" then dueDate.value else today
  }

  /** `weight || 0.2`: a missing or zero weight falls back to 0.2. */
  function WeightOr(weight: Option<real>): (r: real)
    ensures weight.Some? && weight.value != 0.0 ==> r == weight.value
    ensures weight.None? || weight.value == 0.0 ==> r == 0.2
    ensures r != 0.0
  {
    if weight.Some? && weight.value != 0.0 then weight.value else 0.2
  }

  /** `create(assignmentData)`: the payload appended with a fresh Id, the
      due date defaulting to `today` (the current date, a parameter here)
      and the weight to 0.2. */
  function Create(store: seq<Assignment>, d: AssignmentData, today: string): (r: seq<Assignment>)
    requires |store| > 0
    ensures |r| == |store| + 1 && r[..|store|] == store
    ensures forall k :: 0 <= k < |store| ==> store[k].Id < r[|store|].Id
    ensures var a := r[|store|];
            a.name == d.name && a.category == d.category && a.points == d.points
            && a.classId == d.classId && a.description == d.description
    ensures r[|store|].dueDate == DueDateOr(d.dueDate, today)
            && r[|store|].weight == WeightOr(d.weight)
  {
    store + [Assignment(NextId(store), d.name, d.category, d.points, DueDateOr(d.dueDate, today),
                        d.classId, WeightOr(d.weight), d.description)]
  }

  /** Creating keeps Ids unique and the new assignment is listed under its
      class. */
  lemma CreateKeepsUnique(store: seq<Assignment>, d: AssignmentData, today: string)
    requires |store| > 0 && UniqueIds(store)
    ensures UniqueIds(Create(store, d, today))
    ensures GetByClassId(Create(store, d, today), d.classId)
            == GetByClassId(store, d.classId) + [Create(store, d, today)[|store|]]
  {
    var r := Create(store, d, today);
    forall i, j | 0 <= i < j < |r| ensures r[i].Id != r[j].Id {
      if j == |store| {
        assert r[i] == store[i];
      }
    }
    assert r == store + [r[|store|]];
    GetByClassIdConcat(store, [r[|store|]], d.classId);
  }

  // ---------------------------------------------------------------------
  // update

  /** `update(id, assignmentData)`: "Assignment not found" for an unknown
      Id; otherwise the first assignment with the Id takes the payload's
      fields (keeping its own due date and weight where the payload has
      none) and its numeric Id, and no other assignment changes. */
  function Update(store: seq<Assignment>, id: int, d: AssignmentData): (r: Result<seq<Assignment>>)
    ensures r.Err? <==> forall k :: 0 <= k < |store| ==> store[k].Id != id
    ensures r.Err? ==> r.error == "Assignment not found"
    ensures r.Ok? ==>
              var i := FirstIndex(store, AssignmentWithId(id));
              0 <= i && |r.value| == |store|
              && r.value[i].Id == id && r.value[i].name == d.name
              && r.value[i].category == d.category && r.value[i].points == d.points
              && r.value[i].classId == d.classId && r.value[i].description == d.description
              && r.value[i].dueDate == d.dueDate.GetOr(store[i].dueDate)
              && r.value[i].weight == d.weight.GetOr(store[i].weight)
              && forall k :: 0 <= k < |store| && k != i ==> r.value[k] == store[k]
  {
    var i := FirstIndex(store, AssignmentWithId(id));
    if i == -1 then Err("Assignment not found")
    else
      var a := store[i];
      Ok(store[i := Assignment(id, d.name, d.category, d.points, d.dueDate.GetOr(a.dueDate),
                               d.classId, d.weight.GetOr(a.weight), d.description)])
  }

  /** Updating keeps Ids unique. */
  lemma UpdateKeepsUnique(store: seq<Assignment>, id: int, d: AssignmentData)
    requires UniqueIds(store)
    requires Update(store, id, d).Ok?
    ensures UniqueIds(Update(store, id, d).value)
  {
    var i := FirstIndex(store, AssignmentWithId(id));
    var r := Update(store, id, d).value;
    forall a, b | 0 <= a < b < |r| ensures r[a].Id != r[b].Id {
      if a == i || b == i {
        var o := if a == i then b else a;
        assert r[o] == store[o];
      }
    }
  }

  // ---------------------------------------------------------------------
  // delete

  /** `delete(id)`: "Assignment not found" and no change for an unknown Id;
      otherwise the first assignment with the Id is spliced out. */
  function Delete(store: seq<Assignment>, id: int): (r: Result<seq<Assignment>>)
    ensures r.Err? <==> forall k :: 0 <= k < |store| ==> store[k].Id != id
    ensures r.Err? ==> r.error == "Assignment not found"
    ensures r.Ok? ==> |r.value| == |store| - 1
                      && exists k :: 0 <= k < |store| && store[k].Id == id
                                     && multiset(r.value) + multiset{store[k]} == multiset(store)
  {
    var i := FirstIndex(store, AssignmentWithId(id));
    if i == -1 then Err("Assignment not found") else Ok(RemoveAt(store, i))
  }

  /** With unique Ids, deleting removes exactly the assignment with that Id. */
  lemma DeleteExactlyOne(store: seq<Assignment>, id: int)
    requires UniqueIds(store)
    requires Delete(store, id).Ok?
    ensures forall a :: a in Delete(store, id).value <==> a in store && a.Id != id
  {
    RemoveFirstMatch(store, AssignmentWithId(id));
  }

  // ---------------------------------------------------------------------
  // getAssignmentStats

  function PointsOf(a: Assignment): int { a.points }

  /** The category of every assignment, in store order. */
  function CategoryList(store: seq<Assignment>): (r: seq<string>)
    ensures |r| == |store| && forall i :: 0 <= i < |store| ==> r[i] == store[i].category
  {
    seq(|store|, i requires 0 <= i < |store| => store[i].category)
  }

  datatype AssignmentStats = AssignmentStats(totalAssignments: nat,
                                             categoryDistribution: seq<(string, nat)>,
                                             averagePoints: int)

  /** The number of assignments, the number per category in order of first
      appearance, and the rounded mean points (0 without assignments). */
  function Stats(store: seq<Assignment>): (r: AssignmentStats)
    ensures r.totalAssignments == |store|
    ensures TotalCount(r.categoryDistribution) == r.totalAssignments
    ensures forall c :: c in KeysOf(r.categoryDistribution) <==>
                          exists i :: 0 <= i < |store| && store[i].category == c
    ensures forall i :: 0 <= i < |r.categoryDistribution| ==>
              r.categoryDistribution[i].1
                == Occurrences(CategoryList(store), r.categoryDistribution[i].0)
    ensures |store| == 0 ==> r.averagePoints == 0
    ensures |store| > 0 ==>
              r.averagePoints as real - 0.5 <= SumInt(store, PointsOf) as real / |store| as real
                                             < r.averagePoints as real + 0.5
  {
    AssignmentStats(|store|, Tally(CategoryList(store)), RoundedMean(store, PointsOf))
  }

  /** With every assignment worth between lo and hi points, so is the
      average. */
  lemma StatsAverageWithin(store: seq<Assignment>, lo: int, hi: int)
    requires |store| > 0
    requires forall a :: a in store ==> lo <= a.points <= hi
    ensures lo <= Stats(store).averagePoints <= hi
  {
    assert forall i :: 0 <= i < |store| ==> store[i] in store;
    RoundedMeanWithin(store, PointsOf, lo, hi);
  }
}
