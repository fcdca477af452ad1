/** The student table (`src/components/organisms/StudentTable.jsx`): the
    sort a header click selects, and the order the rows are shown in. */
module StudentTable {
  import opened Js
  import opened Seqs
  import opened Records

  // ---------------------------------------------------------------------
  // handleSort

  /** The sortable columns: last name, student id, grade level, current
      grade and attendance rate. */
  datatype SortField = LastName | ExternalId | GradeLevel | CurrentGrade | AttendanceRate

  datatype Direction = Asc | Desc

  datatype SortState = SortState(field: SortField, direction: Direction)

  /** The table starts sorted by last name, ascending. */
  const Initial := SortState(LastName, Asc)

  /** `handleSort(field)`: a click on the sorted column flips the direction;
      a click on another column sorts by it, ascending. */
  function HandleSort(st: SortState, f: SortField): (r: SortState)
    ensures r.field == f
    ensures st.field == f ==> r.direction != st.direction
    ensures st.field != f ==> r.direction == Asc
  {
    if st.field == f then SortState(f, if st.direction == Asc then Desc else Asc)
    else SortState(f, Asc)
  }

  /** Two clicks on the sorted column restore the sort; on another column
      they leave it sorted by that column, descending. */
  lemma HandleSortTwice(st: SortState, f: SortField)
    ensures st.field == f ==> HandleSort(HandleSort(st, f), f) == st
    ensures st.field != f ==> HandleSort(HandleSort(st, f), f) == SortState(f, Desc)
  {
  }

  // ---------------------------------------------------------------------
  // The comparator

  /** `<` on strings: code unit by code unit, a proper prefix first. */
  predicate TextLess(a: string, b: string) {
    if a == [] then b != []
    else if b == [] then false
    else if a[0] != b[0] then a[0] < b[0]
    else TextLess(a[1..], b[1..])
  }

  lemma {:induction false} TextLessAsymmetric(a: string, b: string)
    ensures TextLess(a, b) ==> !TextLess(b, a)
  {
    if a != [] && b != [] && a[0] == b[0] {
      TextLessAsymmetric(a[1..], b[1..]);
    }
  }

  lemma {:induction false} TextLessTotal(a: string, b: string)
    ensures a == b || TextLess(a, b) || TextLess(b, a)
  {
    if a != [] && b != [] && a[0] == b[0] {
      TextLessTotal(a[1..], b[1..]);
      if a[1..] == b[1..] {
        assert a == [a[0]] + a[1..] && b == [b[0]] + b[1..];
      }
    }
  }

  lemma {:induction false} TextLessTransitive(a: string, b: string, c: string)
    requires TextLess(a, b) && TextLess(b, c)
    ensures TextLess(a, c)
  {
    if a != [] && a[0] == b[0] && b[0] == c[0] {
      TextLessTransitive(a[1..], b[1..], c[1..]);
    }
  }

  /** "not after" on text is transitive. */
  lemma TextNotLessTransitive(a: string, b: string, c: string)
    requires !TextLess(b, a) && !TextLess(c, b)
    ensures !TextLess(c, a)
  {
    TextLessTotal(a, b);
    TextLessTotal(b, c);
    if a != b && b != c {
      TextLessTransitive(a, b, c);
      TextLessAsymmetric(a, c);
    }
  }

  /** The value a row is compared by: lowercased text for the two string
      columns, the number itself for the others. */
  datatype SortKey = Text(s: string) | Number(n: int)

  function KeyOf(s: Student, f: SortField): (k: SortKey)
    ensures k.Text? <==> f == LastName || f == ExternalId
  {
    match f
    case LastName => Text(Lower(s.lastName))
    case ExternalId => Text(Lower(s.id))
    case GradeLevel => Number(s.gradeLevel)
    case CurrentGrade => Number(s.currentGrade)
    case AttendanceRate => Number(s.attendanceRate)
  }

  /** `aValue < bValue` on two keys of one column. */
  predicate KeyLess(a: SortKey, b: SortKey) {
    match (a, b)
    case (Text(x), Text(y)) => TextLess(x, y)
    case (Number(x), Number(y)) => x < y
    case _ => false
  }

  /** The comparator passed to `sort`: -1 when a goes before b, 1 when after,
      0 when their keys are equal. */
  function Compare(st: SortState, a: Student, b: Student): (c: int)
    ensures c == -1 || c == 0 || c == 1
    ensures c == -1 <==> (if st.direction == Asc then KeyLess(KeyOf(a, st.field), KeyOf(b, st.field))
                          else KeyLess(KeyOf(b, st.field), KeyOf(a, st.field)))
  {
    var ka, kb := KeyOf(a, st.field), KeyOf(b, st.field);
    if st.direction == Asc then (if KeyLess(ka, kb) then -1 else if KeyLess(kb, ka) then 1 else 0)
    else (if KeyLess(kb, ka) then -1 else if KeyLess(ka, kb) then 1 else 0)
  }

  /** The comparator is antisymmetric, and answers 0 exactly on equal keys:
      a consistent comparator, so the sorted order is well defined. */
  lemma CompareConsistent(st: SortState, a: Student, b: Student)
    ensures Compare(st, a, b) == -Compare(st, b, a)
    ensures Compare(st, a, b) == 0 <==> KeyOf(a, st.field) == KeyOf(b, st.field)
  {
    var ka, kb := KeyOf(a, st.field), KeyOf(b, st.field);
    if ka.Text? {
      TextLessAsymmetric(ka.s, kb.s);
      TextLessAsymmetric(kb.s, ka.s);
      TextLessTotal(ka.s, kb.s);
      if ka == kb {
        TextLessAsymmetric(ka.s, ka.s);
      }
    }
  }

  /** "a may stand before b": the comparator does not put b first. */
  predicate NotAfter(st: SortState, a: Student, b: Student) {
    Compare(st, b, a) != -1
  }

  lemma NotAfterTransitive(st: SortState, a: Student, b: Student, c: Student)
    requires NotAfter(st, a, b) && NotAfter(st, b, c)
    ensures NotAfter(st, a, c)
  {
    var ka, kb, kc := KeyOf(a, st.field), KeyOf(b, st.field), KeyOf(c, st.field);
    if ka.Text? {
      if st.direction == Asc {
        TextNotLessTransitive(ka.s, kb.s, kc.s);
      } else {
        TextNotLessTransitive(kc.s, kb.s, ka.s);
      }
    }
  }

  lemma NotAfterTotal(st: SortState, a: Student, b: Student)
    ensures NotAfter(st, a, b) || NotAfter(st, b, a)
  {
    CompareConsistent(st, a, b);
  }

  // ---------------------------------------------------------------------
  // sortedStudents

  /** Every row may stand before every later row. */
  predicate Sorted(st: SortState, s: seq<Student>) {
    forall i, j :: 0 <= i < j < |s| ==> NotAfter(st, s[i], s[j])
  }

  /** Insert a row before the first row it may stand before, so that it
      goes ahead of rows with an equal key (which came later in the
      input). */
  function Insert(st: SortState, x: Student, s: seq<Student>): (r: seq<Student>)
    ensures multiset(r) == multiset(s) + multiset{x}
    ensures |r| == |s| + 1
  {
    if s == [] then [x]
    else if NotAfter(st, x, s[0]) then [x] + s
    else
      assert s == [s[0]] + s[1..];
      [s[0]] + Insert(st, x, s[1..])
  }

  lemma {:induction false} InsertSorted(st: SortState, x: Student, s: seq<Student>)
    requires Sorted(st, s)
    ensures Sorted(st, Insert(st, x, s))
  {
    if s == [] {
    } else if NotAfter(st, x, s[0]) {
      InsertFront(st, x, s);
    } else {
      InsertSorted(st, x, s[1..]);
      InsertBehind(st, x, s);
    }
  }

  /** A row that may stand before the first of a sorted list may stand
      before all of it. */
  lemma InsertFront(st: SortState, x: Student, s: seq<Student>)
    requires s != [] && Sorted(st, s) && NotAfter(st, x, s[0])
    ensures Sorted(st, [x] + s)
  {
    var r := [x] + s;
    forall j | 1 <= j < |r| ensures NotAfter(st, x, r[j]) {
      if j > 1 { NotAfterTransitive(st, x, s[0], s[j - 1]); }
    }
  }

  /** The first row of a sorted list may stand before the others and before
      a row that goes after it, so it stays ahead of the rest with that row
      inserted. */
  lemma InsertBehind(st: SortState, x: Student, s: seq<Student>)
    requires s != [] && Sorted(st, s) && !NotAfter(st, x, s[0])
    requires Sorted(st, Insert(st, x, s[1..]))
    ensures Sorted(st, [s[0]] + Insert(st, x, s[1..]))
  {
    var tail := Insert(st, x, s[1..]);
    NotAfterTotal(st, x, s[0]);
    forall j | 0 <= j < |tail| ensures NotAfter(st, s[0], tail[j]) {
      assert tail[j] in multiset(tail);
      if tail[j] != x {
        assert tail[j] in multiset(s[1..]);
        var k :| 0 <= k < |s[1..]| && s[1..][k] == tail[j];
        assert s[k + 1] == tail[j];
      }
    }
  }

  /** `[...students].sort(comparator)`: the rows in the order the sort state
      asks for, each row kept, none added; rows with equal keys keep their
      input order, as `Array.prototype.sort` is stable. */
  function Sort(st: SortState, students: seq<Student>): (r: seq<Student>)
    ensures multiset(r) == multiset(students)
    ensures |r| == |students|
  {
    if students == [] then []
    else
      assert students == [students[0]] + students[1..];
      Insert(st, students[0], Sort(st, students[1..]))
  }

  lemma {:induction false} SortSorted(st: SortState, students: seq<Student>)
    ensures Sorted(st, Sort(st, students))
  {
    if students != [] {
      SortSorted(st, students[1..]);
      InsertSorted(st, students[0], Sort(st, students[1..]));
    }
  }

  /** The rows shown: a permutation of the input, ordered by the sort
      state. */
  lemma SortedStudents(st: SortState, students: seq<Student>)
    ensures multiset(Sort(st, students)) == multiset(students)
    ensures Sorted(st, Sort(st, students))
  {
    SortSorted(st, students);
  }

  /** Flipping the direction reverses the order of any two rows with
      different keys. */
  lemma FlipReverses(st: SortState, a: Student, b: Student)
    requires KeyOf(a, st.field) != KeyOf(b, st.field)
    ensures Compare(HandleSort(st, st.field), a, b) == -Compare(st, a, b)
  {
    CompareConsistent(st, a, b);
  }

  /** The rows whose key in the sorted column is k. */
  function WithKey(st: SortState, k: SortKey): Student -> bool {
    (y: Student) => KeyOf(y, st.field) == k
  }

  /** Inserting a row puts it ahead of every row with the same key and
      leaves the other rows of that key in their order. */
  lemma {:induction false} InsertKeepsKeyOrder(st: SortState, x: Student, t: seq<Student>, k: SortKey)
    ensures Filter(Insert(st, x, t), WithKey(st, k))
            == if KeyOf(x, st.field) == k then [x] + Filter(t, WithKey(st, k))
               else Filter(t, WithKey(st, k))
  {
    var p := WithKey(st, k);
    if t == [] {
    } else if NotAfter(st, x, t[0]) {
      assert ([x] + t)[1..] == t;
    } else {
      InsertKeepsKeyOrder(st, x, t[1..], k);
      CompareConsistent(st, t[0], x);
      var r := [t[0]] + Insert(st, x, t[1..]);
      assert r[1..] == Insert(st, x, t[1..]);
    }
  }

  /** The sort is stable: the rows of any one key appear in the sorted
      list in the order they had in the input. */
  lemma {:induction false} SortStable(st: SortState, students: seq<Student>, k: SortKey)
    ensures Filter(Sort(st, students), WithKey(st, k)) == Filter(students, WithKey(st, k))
  {
    if students != [] {
      SortStable(st, students[1..], k);
      InsertKeepsKeyOrder(st, students[0], Sort(st, students[1..]), k);
    }
  }
}
