/** The in-memory class store (`src/services/api/classService.js`). A class
    has a numeric `Id` and an external id `class<Id>` derived from it when
    the store creates the class. */
module ClassService {
  import opened Wrappers
  import opened Js
  import opened Seqs
  import opened Records

  /** Every class has its own numeric Id. */
  predicate UniqueIds(store: seq<ClassRecord>) {
    forall i, j :: 0 <= i < j < |store| ==> store[i].Id != store[j].Id
  }

  /** The external id the store gives the class with numeric Id n. */
  function ClassIdText(n: int): string {
    "class" + IntToString(n)
  }

  /** Every class carries the external id derived from its numeric Id. */
  predicate WellNamed(store: seq<ClassRecord>) {
    forall i :: 0 <= i < |store| ==> store[i].id == ClassIdText(store[i].Id)
  }

  // ---------------------------------------------------------------------
  // create

  /** `Math.max(...classes.map(c => c.Id)) + 1`: above every Id in use. */
  function NextId(store: seq<ClassRecord>): (id: int)
    requires |store| > 0
    ensures forall i :: 0 <= i < |store| ==> store[i].Id < id
  {
    MaxBy(store, (c: ClassRecord) => c.Id) + 1
  }

  /** `create(classData)`: the payload appended with a fresh Id, the
      external id `class<Id>` (any id in the payload is overwritten) and an
      empty roster when the payload has none. */
  function Create(store: seq<ClassRecord>, d: ClassData): (r: seq<ClassRecord>)
    requires |store| > 0
    ensures |r| == |store| + 1 && r[..|store|] == store
    ensures forall k :: 0 <= k < |store| ==> store[k].Id < r[|store|].Id
    ensures r[|store|].id == ClassIdText(r[|store|].Id)
    ensures r[|store|].name == d.name && r[|store|].subject == d.subject
            && r[|store|].period == d.period
    ensures r[|store|].studentIds == d.studentIds.GetOr([])
  {
    var n := NextId(store);
    store + [ClassRecord(n, ClassIdText(n), d.name, d.subject, d.period, d.studentIds.GetOr([]))]
  }

  /** Creating keeps Ids unique and every external id derived from its Id,
      so external ids stay unique as well. */
  lemma CreateKeepsUnique(store: seq<ClassRecord>, d: ClassData)
    requires |store| > 0 && UniqueIds(store) && WellNamed(store)
    ensures UniqueIds(Create(store, d)) && WellNamed(Create(store, d))
    ensures forall k :: 0 <= k < |store| ==> store[k].id != Create(store, d)[|store|].id
  {
    var r := Create(store, d);
    forall i, j | 0 <= i < j < |r| ensures r[i].Id != r[j].Id {
      if j == |store| {
        assert r[i] == store[i];
      }
    }
    forall k | 0 <= k < |store| ensures store[k].id != r[|store|].id {
      if store[k].id == r[|store|].id {
        assert IntToString(store[k].Id) == store[k].id[5..];
        assert IntToString(r[|store|].Id) == r[|store|].id[5..];
        IntToStringInjective(store[k].Id, r[|store|].Id);
        assert false;
      }
    }
  }

  /** Two well-named classes with different Ids have different external ids. */
  lemma WellNamedIdsDistinct(store: seq<ClassRecord>)
    requires UniqueIds(store) && WellNamed(store)
    ensures forall i, j :: 0 <= i < j < |store| ==> store[i].id != store[j].id
  {
    forall i, j | 0 <= i < j < |store| ensures store[i].id != store[j].id {
      if store[i].id == store[j].id {
        assert IntToString(store[i].Id) == store[i].id[5..];
        assert IntToString(store[j].Id) == store[j].id[5..];
        IntToStringInjective(store[i].Id, store[j].Id);
      }
    }
  }

  // ---------------------------------------------------------------------
  // update

  /** `update(id, classData)`: "Class not found" for an unknown Id;
      otherwise the first class with the Id takes the payload's fields
      (its own external id and roster where the payload has none), keeps
      its numeric Id, and no other class changes. */
  function Update(store: seq<ClassRecord>, id: int, d: ClassData): (r: Result<seq<ClassRecord>>)
    ensures r.Err? <==> forall k :: 0 <= k < |store| ==> store[k].Id != id
    ensures r.Err? ==> r.error == "Class not found"
    ensures r.Ok? ==>
              var i := FirstIndex(store, ClassWithId(id));
              0 <= i && |r.value| == |store|
              && r.value[i].Id == id && r.value[i].id == d.id.GetOr(store[i].id)
              && r.value[i].name == d.name && r.value[i].subject == d.subject
              && r.value[i].period == d.period
              && r.value[i].studentIds == d.studentIds.GetOr(store[i].studentIds)
              && forall k :: 0 <= k < |store| && k != i ==> r.value[k] == store[k]
  {
    var i := FirstIndex(store, ClassWithId(id));
    if i == -1 then Err("Class not found")
    else
      var c := store[i];
      Ok(store[i := ClassRecord(id, d.id.GetOr(c.id), d.name, d.subject, d.period,
                                d.studentIds.GetOr(c.studentIds))])
  }

  /** An update that carries no external id keeps Ids unique and every
      class well named. */
  lemma UpdateKeepsUnique(store: seq<ClassRecord>, id: int, d: ClassData)
    requires UniqueIds(store) && WellNamed(store) && d.id.None?
    requires Update(store, id, d).Ok?
    ensures UniqueIds(Update(store, id, d).value) && WellNamed(Update(store, id, d).value)
  {
    var i := FirstIndex(store, ClassWithId(id));
    var r := Update(store, id, d).value;
    forall a, b | 0 <= a < b < |r| ensures r[a].Id != r[b].Id {
      if a == i || b == i {
        var o := if a == i then b else a;
        assert r[o] == store[o];
      }
    }
  }

  // ---------------------------------------------------------------------
  // delete

  /** `delete(id)`: "Class not found" and no change for an unknown Id;
      otherwise the first class with the Id is spliced out. */
  function Delete(store: seq<ClassRecord>, id: int): (r: Result<seq<ClassRecord>>)
    ensures r.Err? <==> forall k :: 0 <= k < |store| ==> store[k].Id != id
    ensures r.Err? ==> r.error == "Class not found"
    ensures r.Ok? ==> |r.value| == |store| - 1
                      && exists k :: 0 <= k < |store| && store[k].Id == id
                                     && multiset(r.value) + multiset{store[k]} == multiset(store)
  {
    var i := FirstIndex(store, ClassWithId(id));
    if i == -1 then Err("Class not found") else Ok(RemoveAt(store, i))
  }

  /** With unique Ids, deleting removes exactly the class with that Id. */
  lemma DeleteExactlyOne(store: seq<ClassRecord>, id: int)
    requires UniqueIds(store)
    requires Delete(store, id).Ok?
    ensures forall c :: c in Delete(store, id).value <==> c in store && c.Id != id
  {
    RemoveFirstMatch(store, ClassWithId(id));
  }

  // ---------------------------------------------------------------------
  // getClassStats

  function SizeOf(c: ClassRecord): int { |c.studentIds| }

  /** The subject of every class, in store order. */
  function Subjects(store: seq<ClassRecord>): (r: seq<string>)
    ensures |r| == |store| && forall i :: 0 <= i < |store| ==> r[i] == store[i].subject
  {
    seq(|store|, i requires 0 <= i < |store| => store[i].subject)
  }

  datatype ClassStats = ClassStats(totalClasses: nat, totalEnrollments: int,
                                   averageClassSize: int, subjectDistribution: seq<(string, nat)>)

  /** The number of classes, the total roster length, the rounded mean
      roster length (0 without classes) and the number of classes per
      subject, in order of first appearance. */
  function Stats(store: seq<ClassRecord>): (r: ClassStats)
    ensures r.totalClasses == |store|
    ensures r.totalEnrollments == SumInt(store, SizeOf) >= 0
    ensures r.totalClasses == 0 ==> r.averageClassSize == 0
    ensures r.totalClasses > 0 ==>
              r.averageClassSize as real - 0.5 <= r.totalEnrollments as real / r.totalClasses as real
                                                < r.averageClassSize as real + 0.5
    ensures TotalCount(r.subjectDistribution) == r.totalClasses
    ensures forall s :: s in KeysOf(r.subjectDistribution) <==>
                          exists i :: 0 <= i < |store| && store[i].subject == s
    ensures forall i :: 0 <= i < |r.subjectDistribution| ==>
              r.subjectDistribution[i].1 == Occurrences(Subjects(store), r.subjectDistribution[i].0)
  {
    SumIntNonNegative(store, SizeOf);
    ClassStats(|store|, SumInt(store, SizeOf), RoundedMean(store, SizeOf), Tally(Subjects(store)))
  }

  /** The average class size lies between 0 and the largest roster. */
  lemma StatsAverageBounded(store: seq<ClassRecord>, largest: int)
    requires forall c :: c in store ==> |c.studentIds| <= largest
    ensures 0 <= Stats(store).averageClassSize
    ensures |store| > 0 ==> Stats(store).averageClassSize <= largest
  {
    if |store| > 0 {
      assert forall i :: 0 <= i < |store| ==> store[i] in store;
      RoundedMeanWithin(store, SizeOf, 0, largest);
    }
  }
}
