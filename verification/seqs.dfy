/** Array operations of JavaScript, stated over Dafny sequences: `filter`,
    `findIndex`, `find`, `splice(i, 1)`, `Math.max(...xs)`, `reduce` sums and
    the "count per key" reduction that builds a distribution object. */
module Seqs {
  import opened Wrappers
  import Js

  // ---------------------------------------------------------------------
  // filter

  /** `s.filter(p)`: the order-preserving sublist of elements satisfying p. */
  function Filter<T(!new)>(s: seq<T>, p: T -> bool): (r: seq<T>)
    ensures |r| <= |s|
    ensures forall i :: 0 <= i < |r| ==> p(r[i])
    ensures forall x :: x in r <==> x in s && p(x)
  {
    if s == [] then []
    else
      var rest := Filter(s[1..], p);
      assert forall x :: x in s <==> x == s[0] || x in s[1..];
      if p(s[0]) then [s[0]] + rest else rest
  }

  /** Filtering distributes over concatenation, so it keeps the input order. */
  lemma {:induction false} FilterConcat<T(!new)>(a: seq<T>, b: seq<T>, p: T -> bool)
    ensures Filter(a + b, p) == Filter(a, p) + Filter(b, p)
  {
    if a == [] {
      assert a + b == b;
    } else {
      assert (a + b)[1..] == a[1..] + b;
      FilterConcat(a[1..], b, p);
    }
  }

  /** A filter that every element passes returns the input unchanged. */
  lemma {:induction false} FilterKeepsAll<T(!new)>(s: seq<T>, p: T -> bool)
    requires forall i :: 0 <= i < |s| ==> p(s[i])
    ensures Filter(s, p) == s
  {
    if s != [] {
      FilterKeepsAll(s[1..], p);
    }
  }

  /** Filtering by a predicate no element satisfies keeps nothing. */
  lemma {:induction false} FilterNone<T(!new)>(s: seq<T>, p: T -> bool)
    requires forall x :: x in s ==> !p(x)
    ensures Filter(s, p) == []
  {
    if s != [] {
      assert s[0] in s;
      FilterNone(s[1..], p);
    }
  }

  /** Two predicates that agree on every element select the same sublist. */
  lemma {:induction false} FilterSame<T(!new)>(s: seq<T>, p: T -> bool, q: T -> bool)
    requires forall i :: 0 <= i < |s| ==> p(s[i]) == q(s[i])
    ensures Filter(s, p) == Filter(s, q)
  {
    if s != [] {
      FilterSame(s[1..], p, q);
    }
  }

  /** Filtering by a predicate that implies another keeps no more elements. */
  lemma {:induction false} FilterLengthMono<T(!new)>(s: seq<T>, p: T -> bool, q: T -> bool)
    requires forall x :: p(x) ==> q(x)
    ensures |Filter(s, p)| <= |Filter(s, q)|
  {
    if s != [] {
      FilterLengthMono(s[1..], p, q);
    }
  }

  /** Three pairwise-exclusive predicates select at most |s| elements in all;
      exactly |s| when every element satisfies one of them. */
  lemma {:induction false} FilterThreeWay<T(!new)>(s: seq<T>, p: T -> bool, q: T -> bool, u: T -> bool)
    requires forall x :: !(p(x) && q(x)) && !(p(x) && u(x)) && !(q(x) && u(x))
    ensures |Filter(s, p)| + |Filter(s, q)| + |Filter(s, u)| <= |s|
    ensures (forall i :: 0 <= i < |s| ==> p(s[i]) || q(s[i]) || u(s[i])) ==>
              |Filter(s, p)| + |Filter(s, q)| + |Filter(s, u)| == |s|
  {
    if s != [] {
      FilterThreeWay(s[1..], p, q, u);
    }
  }

  // ---------------------------------------------------------------------
  // findIndex / find

  /** `s.findIndex(p)`: the first index satisfying p, or -1. */
  function FirstIndex<T>(s: seq<T>, p: T -> bool): (i: int)
    ensures -1 <= i < |s|
    ensures i == -1 <==> forall j :: 0 <= j < |s| ==> !p(s[j])
    ensures 0 <= i ==> p(s[i]) && forall j :: 0 <= j < i ==> !p(s[j])
  {
    if s == [] then -1
    else if p(s[0]) then 0
    else
      var k := FirstIndex(s[1..], p);
      if k == -1 then -1 else k + 1
  }

  /** `s.find(p)`: the first element satisfying p, or undefined. */
  function Find<T>(s: seq<T>, p: T -> bool): (r: Option<T>)
    ensures r.None? <==> forall j :: 0 <= j < |s| ==> !p(s[j])
    ensures r.Some? ==> exists i :: 0 <= i < |s| && s[i] == r.value && p(s[i])
                                    && forall j :: 0 <= j < i ==> !p(s[j])
  {
    var i := FirstIndex(s, p);
    if i == -1 then None else Some(s[i])
  }

  // ---------------------------------------------------------------------
  // splice(i, 1)

  /** `s.splice(i, 1)`: everything but the element at index i, in order. */
  function RemoveAt<T>(s: seq<T>, i: nat): (r: seq<T>)
    requires i < |s|
    ensures |r| == |s| - 1
    ensures forall j :: 0 <= j < i ==> r[j] == s[j]
    ensures forall j :: i <= j < |r| ==> r[j] == s[j + 1]
    ensures multiset(r) + multiset{s[i]} == multiset(s)
  {
    assert s == s[..i] + [s[i]] + s[i + 1..];
    s[..i] + s[i + 1..]
  }

  /** Splicing out the first element satisfying p, when no later element
      satisfies it, keeps exactly the elements that do not satisfy p. */
  lemma RemoveFirstMatch<T>(s: seq<T>, p: T -> bool)
    requires FirstIndex(s, p) >= 0
    requires forall j :: FirstIndex(s, p) < j < |s| ==> !p(s[j])
    ensures forall x :: x in RemoveAt(s, FirstIndex(s, p)) <==> x in s && !p(x)
  {
    var i := FirstIndex(s, p);
    var r := RemoveAt(s, i);
    forall x | x in r ensures x in s && !p(x) {
      var k :| 0 <= k < |r| && r[k] == x;
      if k < i { assert x == s[k]; } else { assert x == s[k + 1]; }
    }
    forall x | x in s && !p(x) ensures x in r {
      var k :| 0 <= k < |s| && s[k] == x;
      assert k != i;
      if k < i { assert r[k] == x; } else { assert r[k - 1] == x; }
    }
  }

  // ---------------------------------------------------------------------
  // Math.max(...s.map(key))

  /** `Math.max(...s.map(key))` for a non-empty s. */
  function MaxBy<T>(s: seq<T>, key: T -> int): (m: int)
    requires |s| > 0
    ensures forall i :: 0 <= i < |s| ==> key(s[i]) <= m
    ensures exists i :: 0 <= i < |s| && key(s[i]) == m
  {
    if |s| == 1 then key(s[0])
    else
      var rest := MaxBy(s[1..], key);
      assert forall i :: 1 <= i < |s| ==> s[i] == s[1..][i - 1];
      if key(s[0]) >= rest then key(s[0]) else rest
  }

  // ---------------------------------------------------------------------
  // reduce((sum, x) => sum + f(x), 0)

  function SumReal<T>(s: seq<T>, f: T -> real): real {
    if s == [] then 0.0 else f(s[0]) + SumReal(s[1..], f)
  }

  function SumInt<T>(s: seq<T>, f: T -> int): int {
    if s == [] then 0 else f(s[0]) + SumInt(s[1..], f)
  }

  /** A sum of terms that each lie in [lo, hi] lies in [|s|*lo, |s|*hi]. */
  lemma {:induction false} SumRealBounds<T>(s: seq<T>, f: T -> real, lo: real, hi: real)
    requires forall i :: 0 <= i < |s| ==> lo <= f(s[i]) <= hi
    ensures (|s| as real) * lo <= SumReal(s, f) <= (|s| as real) * hi
  {
    if s != [] {
      SumRealBounds(s[1..], f, lo, hi);
    }
  }

  /** A sum of integer terms that each lie in [lo, hi] lies in [|s|*lo, |s|*hi]. */
  lemma {:induction false} SumIntBounds<T>(s: seq<T>, f: T -> int, lo: int, hi: int)
    requires forall i :: 0 <= i < |s| ==> lo <= f(s[i]) <= hi
    ensures |s| * lo <= SumInt(s, f) <= |s| * hi
  {
    if s != [] {
      SumIntBounds(s[1..], f, lo, hi);
    }
  }

  /** `s.length > 0 ? Math.round(s.reduce((sum, x) => sum + f(x), 0) / s.length) : 0`:
      the integer nearest the mean of f over s, 0 for an empty s. */
  function RoundedMean<T>(s: seq<T>, f: T -> int): (r: int)
    ensures |s| == 0 ==> r == 0
    ensures |s| > 0 ==> r as real - 0.5 <= SumInt(s, f) as real / |s| as real < r as real + 0.5
  {
    if |s| > 0 then Js.Round(SumInt(s, f) as real / |s| as real) else 0
  }

  /** When every term lies in [lo, hi], so does the rounded mean of a
      non-empty s. */
  lemma RoundedMeanWithin<T>(s: seq<T>, f: T -> int, lo: int, hi: int)
    requires |s| > 0
    requires forall i :: 0 <= i < |s| ==> lo <= f(s[i]) <= hi
    ensures lo <= RoundedMean(s, f) <= hi
  {
    SumIntBounds(s, f, lo, hi);
    var n := |s| as real;
    var m := SumInt(s, f) as real / n;
    assert lo as real <= m by {
      assert n * lo as real <= SumInt(s, f) as real;
    }
    assert m <= hi as real by {
      assert SumInt(s, f) as real <= n * hi as real;
    }
    Js.RoundWithin(m, lo, hi);
  }

  /** A sum of non-negative integers is non-negative. */
  lemma {:induction false} SumIntNonNegative<T>(s: seq<T>, f: T -> int)
    requires forall i :: 0 <= i < |s| ==> 0 <= f(s[i])
    ensures 0 <= SumInt(s, f)
  {
    if s != [] {
      SumIntNonNegative(s[1..], f);
    }
  }

  // ---------------------------------------------------------------------
  // reduce((acc, x) => { acc[k] = (acc[k] || 0) + 1; return acc }, {})

  /** Number of elements of s equal to k. */
  function Occurrences<K(==)>(s: seq<K>, k: K): nat {
    if s == [] then 0 else (if s[|s| - 1] == k then 1 else 0) + Occurrences(s[..|s| - 1], k)
  }

  lemma {:induction false} OccurrencesAbsent<K>(s: seq<K>, k: K)
    ensures k !in s ==> Occurrences(s, k) == 0
  {
    if s != [] && k !in s {
      assert s[..|s| - 1] <= s;
      OccurrencesAbsent(s[..|s| - 1], k);
    }
  }

  /** Keys of a distribution object, in insertion order. */
  function KeysOf<K>(t: seq<(K, nat)>): seq<K> {
    seq(|t|, i requires 0 <= i < |t| => t[i].0)
  }

  /** Sum of the counts of a distribution object. */
  function TotalCount<K>(t: seq<(K, nat)>): nat {
    if t == [] then 0 else t[0].1 + TotalCount(t[1..])
  }

  ghost predicate DistinctKeys<K>(t: seq<(K, nat)>) {
    forall i, j :: 0 <= i < j < |t| ==> t[i].0 != t[j].0
  }

  /** One step of the reduction: bump k's count, or add k with count 1. */
  function Bump<K(==)>(t: seq<(K, nat)>, k: K): seq<(K, nat)> {
    var i := FirstIndex(t, (e: (K, nat)) => e.0 == k);
    if i == -1 then t + [(k, 1)] else t[i := (k, t[i].1 + 1)]
  }

  /** The distribution object of s: one entry per distinct value, in order of
      first appearance, holding the number of occurrences of that value. */
  function Tally<K(==,!new)>(s: seq<K>): (t: seq<(K, nat)>)
    ensures TotalCount(t) == |s|
    ensures DistinctKeys(t)
    ensures forall i :: 0 <= i < |t| ==> t[i].1 == Occurrences(s, t[i].0)
    ensures forall k :: k in s <==> k in KeysOf(t)
  {
    if s == [] then []
    else
      var prev := Tally(s[..|s| - 1]);
      var k := s[|s| - 1];
      BumpCounts(prev, k);
      OccurrencesAbsent(s[..|s| - 1], k);
      assert s == s[..|s| - 1] + [k];
      assert forall x :: x in s <==> x in s[..|s| - 1] || x == k;
      Bump(prev, k)
  }

  lemma {:induction false} TotalCountAppend<K>(t: seq<(K, nat)>, e: (K, nat))
    ensures TotalCount(t + [e]) == TotalCount(t) + e.1
  {
    if t == [] {
      assert t + [e] == [e];
    } else {
      assert (t + [e])[1..] == t[1..] + [e];
      TotalCountAppend(t[1..], e);
    }
  }

  lemma {:induction false} TotalCountUpdate<K>(t: seq<(K, nat)>, i: nat, e: (K, nat))
    requires i < |t|
    ensures TotalCount(t[i := e]) == TotalCount(t) - t[i].1 + e.1
  {
    if i == 0 {
      assert t[i := e][1..] == t[1..];
    } else {
      assert t[i := e][1..] == t[1..][i - 1 := e];
      TotalCountUpdate(t[1..], i - 1, e);
    }
  }

  lemma BumpCounts<K>(t: seq<(K, nat)>, k: K)
    ensures TotalCount(Bump(t, k)) == TotalCount(t) + 1
    ensures DistinctKeys(t) ==> DistinctKeys(Bump(t, k))
    ensures KeysOf(Bump(t, k)) == if k in KeysOf(t) then KeysOf(t) else KeysOf(t) + [k]
    ensures DistinctKeys(t) ==> forall j :: 0 <= j < |Bump(t, k)| ==>
              Bump(t, k)[j].1 == (if Bump(t, k)[j].0 == k then 1 else 0)
                                 + (if j < |t| then t[j].1 else 0)
  {
    var i := FirstIndex(t, (e: (K, nat)) => e.0 == k);
    if i == -1 {
      TotalCountAppend(t, (k, 1));
      assert forall j :: 0 <= j < |t| ==> KeysOf(t)[j] != k;
      assert KeysOf(t + [(k, 1)]) == KeysOf(t) + [k];
    } else {
      TotalCountUpdate(t, i, (k, t[i].1 + 1));
      assert KeysOf(t)[i] == k;
      assert KeysOf(t[i := (k, t[i].1 + 1)]) == KeysOf(t);
    }
  }
}
