/**
 The total order on names that every sort of the program uses, and a stable sort with the facts
 that make its result a function of the collection sorted rather than of the order it came in.
 */
module Ordering {

  datatype Option<+T> = None | Some(value: T)

  datatype Result<+T, +E> = Ok(value: T) | Err(error: E)

  // Names compare by code point, which is the byte order of their UTF-8 form.
  type Name = string

  predicate NameLess(a: Name, b: Name) {
    b != [] && (a == [] || a[0] < b[0] || (a[0] == b[0] && NameLess(a[1..], b[1..])))
  }

  /** A strict weak order: what a comparison function must be for sorting to make sense. */
  ghost predicate WeakOrder<T(!new)>(less: (T, T) -> bool) {
    && (forall a, b :: !(less(a, b) && less(b, a)))
    && (forall a, b, c :: less(a, c) ==> less(a, b) || less(b, c))
  }

  /** Only equal elements are incomparable. */
  ghost predicate Trichotomous<T(!new)>(less: (T, T) -> bool) {
    forall a, b :: less(a, b) || less(b, a) || a == b
  }

  ghost predicate TotalOrder<T(!new)>(less: (T, T) -> bool) {
    WeakOrder(less) && Trichotomous(less)
  }

  ghost predicate SortedBy<T>(s: seq<T>, less: (T, T) -> bool) {
    forall i, j | 0 <= i < j < |s| :: !less(s[j], s[i])
  }

  ghost predicate Increasing<T>(s: seq<T>, less: (T, T) -> bool) {
    forall i, j | 0 <= i < j < |s| :: less(s[i], s[j])
  }

  ghost predicate Distinct<T>(s: seq<T>) {
    forall i, j | 0 <= i < j < |s| :: s[i] != s[j]
  }

  function Elements<T(==)>(s: seq<T>): set<T> {
    set x | x in s
  }

  // --- The name order is total ---

  lemma {:induction false} NameLessAsymmetric(a: Name, b: Name)
    ensures !(NameLess(a, b) && NameLess(b, a))
  {
    if a != [] && b != [] {
      NameLessAsymmetric(a[1..], b[1..]);
    }
  }

  lemma {:induction false} NameLessSplits(a: Name, b: Name, c: Name)
    requires NameLess(a, c)
    ensures NameLess(a, b) || NameLess(b, c)
  {
    if a != [] && b != [] && a[0] == b[0] == c[0] {
      NameLessSplits(a[1..], b[1..], c[1..]);
    }
  }

  lemma {:induction false} NameLessTotal(a: Name, b: Name)
    ensures NameLess(a, b) || NameLess(b, a) || a == b
  {
    if a != [] && b != [] && a[0] == b[0] {
      NameLessTotal(a[1..], b[1..]);
      assert a == [a[0]] + a[1..] && b == [b[0]] + b[1..];
    }
  }

  lemma NameOrder()
    ensures TotalOrder(NameLess)
  {
    forall a, b ensures !(NameLess(a, b) && NameLess(b, a)) { NameLessAsymmetric(a, b); }
    forall a, b, c | NameLess(a, c) ensures NameLess(a, b) || NameLess(b, c) { NameLessSplits(a, b, c); }
    forall a, b ensures NameLess(a, b) || NameLess(b, a) || a == b { NameLessTotal(a, b); }
  }

  /** The names agree up to `k`, and there the first ends or has the smaller code point. */
  ghost predicate PartAt(a: Name, b: Name, k: nat) {
    k <= |a| && k < |b| && a[..k] == b[..k] && (k == |a| || a[k] < b[k])
  }

  lemma {:induction false} PartingPoint(a: Name, b: Name) returns (k: nat)
    requires NameLess(a, b)
    ensures PartAt(a, b, k)
  {
    if a == [] || a[0] < b[0] {
      k := 0;
    } else {
      k := PartingPoint(a[1..], b[1..]);
      k := k + 1;
      assert a[..k] == [a[0]] + a[1..][..k - 1] && b[..k] == [b[0]] + b[1..][..k - 1];
    }
  }

  lemma {:induction false} PartedLess(a: Name, b: Name, k: nat)
    requires PartAt(a, b, k)
    ensures NameLess(a, b)
  {
    if k > 0 {
      assert a[0] == a[..k][0] == b[..k][0] == b[0];
      assert a[1..][..k - 1] == a[..k][1..] == b[..k][1..] == b[1..][..k - 1];
      PartedLess(a[1..], b[1..], k - 1);
    }
  }

  /** One name is less than another iff it ends, or has the smaller code point, where they first part. */
  lemma NameLessMeans(a: Name, b: Name)
    ensures NameLess(a, b) <==> exists k: nat :: PartAt(a, b, k)
  {
    if NameLess(a, b) { var k := PartingPoint(a, b); }
    if k: nat :| PartAt(a, b, k) { PartedLess(a, b, k); }
  }

  // --- Stable sorting ---

  function Insert<T>(x: T, s: seq<T>, less: (T, T) -> bool): seq<T> {
    if s == [] || !less(s[0], x) then [x] + s else [s[0]] + Insert(x, s[1..], less)
  }

  /** Equal elements keep their order: each is placed before the equal ones that came after it. */
  function SortBy<T>(s: seq<T>, less: (T, T) -> bool): seq<T> {
    if s == [] then [] else Insert(s[0], SortBy(s[1..], less), less)
  }

  lemma {:induction false} InsertPermutes<T>(x: T, s: seq<T>, less: (T, T) -> bool)
    ensures multiset(Insert(x, s, less)) == multiset(s) + multiset{x}
  {
    if s != [] && less(s[0], x) {
      InsertPermutes(x, s[1..], less);
      assert s == [s[0]] + s[1..];
    }
  }

  lemma {:induction false} InsertSorted<T(!new)>(x: T, s: seq<T>, less: (T, T) -> bool)
    requires WeakOrder(less) && SortedBy(s, less)
    ensures SortedBy(Insert(x, s, less), less)
  {
    if s == [] {
    } else if !less(s[0], x) {
      forall j | 0 <= j < |s| ensures !less(s[j], x) {
        assert j > 0 ==> !less(s[j], s[0]);
      }
    } else {
      var r := Insert(x, s[1..], less);
      InsertSorted(x, s[1..], less);
      InsertPermutes(x, s[1..], less);
      forall j | 0 <= j < |r| ensures !less(r[j], s[0]) {
        assert r[j] in multiset(s[1..]) + multiset{x} by { assert r[j] in multiset(r); }
      }
    }
  }

  lemma {:induction false} SortByCorrect<T(!new)>(s: seq<T>, less: (T, T) -> bool)
    requires WeakOrder(less)
    ensures SortedBy(SortBy(s, less), less)
    ensures multiset(SortBy(s, less)) == multiset(s)
    ensures |SortBy(s, less)| == |s|
    ensures forall x :: x in SortBy(s, less) <==> x in s
  {
    if s != [] {
      SortByCorrect(s[1..], less);
      InsertSorted(s[0], SortBy(s[1..], less), less);
      InsertPermutes(s[0], SortBy(s[1..], less), less);
      assert s == [s[0]] + s[1..];
    }
    SameElements(SortBy(s, less), s);
  }

  lemma SameElements<T>(s: seq<T>, t: seq<T>)
    requires multiset(s) == multiset(t)
    ensures |s| == |t|
    ensures forall x :: x in s <==> x in t
  {
    assert |s| == |multiset(s)| && |t| == |multiset(t)|;
    forall x ensures x in s <==> x in t {
      assert (x in s <==> x in multiset(s)) && (x in t <==> x in multiset(t));
    }
  }

  lemma SameLeast<T(!new)>(s: seq<T>, t: seq<T>, less: (T, T) -> bool)
    requires TotalOrder(less) && SortedBy(s, less) && SortedBy(t, less)
    requires s != [] && t != [] && s[0] in t && t[0] in s
    ensures s[0] == t[0]
  {
    var i :| 0 <= i < |t| && t[i] == s[0];
    var j :| 0 <= j < |s| && s[j] == t[0];
  }

  lemma RestOf<T>(s: seq<T>)
    requires s != []
    ensures multiset(s[1..]) == multiset(s) - multiset{s[0]}
  {
    assert s == [s[0]] + s[1..];
  }

  lemma RestSorted<T>(s: seq<T>, less: (T, T) -> bool)
    requires s != [] && SortedBy(s, less)
    ensures SortedBy(s[1..], less)
  {
  }

  /** A total order leaves one sorted arrangement of a collection. */
  lemma {:induction false} SortedUnique<T(!new)>(s: seq<T>, t: seq<T>, less: (T, T) -> bool)
    requires TotalOrder(less) && SortedBy(s, less) && SortedBy(t, less)
    requires multiset(s) == multiset(t)
    ensures s == t
  {
    hide TotalOrder, SortedBy;
    SameElements(s, t);
    if s != [] {
      SameLeast(s, t, less);
      RestOf(s);
      RestOf(t);
      RestSorted(s, less);
      RestSorted(t, less);
      SortedUnique(s[1..], t[1..], less);
      assert s == [s[0]] + s[1..] && t == [t[0]] + t[1..];
    }
  }

  lemma {:induction false} DistinctCounts<T>(s: seq<T>)
    requires Distinct(s)
    ensures forall x :: multiset(s)[x] <= 1
    ensures multiset(s) == multiset(Elements(s))
    ensures |Elements(s)| == |s|
  {
    if s != [] {
      var rest := s[1..];
      DistinctCounts(rest);
      assert s == [s[0]] + rest;
      assert s[0] !in rest;
      assert Elements(s) == {s[0]} + Elements(rest);
    }
  }

  lemma {:induction false} CountsDistinct<T>(s: seq<T>)
    requires forall x :: multiset(s)[x] <= 1
    ensures Distinct(s)
  {
    if s != [] {
      assert s == [s[0]] + s[1..];
      assert multiset(s) == multiset{s[0]} + multiset(s[1..]);
      forall x ensures multiset(s[1..])[x] <= 1 { assert multiset(s)[x] <= 1; }
      CountsDistinct(s[1..]);
      assert multiset(s)[s[0]] <= 1;
      assert s[0] !in multiset(s[1..]);
    }
  }

  lemma PermutedDistinct<T>(s: seq<T>, t: seq<T>)
    requires Distinct(s) && multiset(s) == multiset(t)
    ensures Distinct(t)
  {
    DistinctCounts(s);
    CountsDistinct(t);
  }

  lemma {:induction false} ElementsAtMost<T>(s: seq<T>)
    ensures |Elements(s)| <= |s|
    ensures |Elements(s)| == |s| ==> Distinct(s)
  {
    if s != [] {
      ElementsAtMost(s[1..]);
      assert s == [s[0]] + s[1..];
      if s[0] in s[1..] {
        assert Elements(s) == Elements(s[1..]);
      } else {
        assert Elements(s) == {s[0]} + Elements(s[1..]);
      }
    }
  }

  lemma SubsetSize<T>(a: set<T>, b: set<T>)
    requires a <= b
    ensures |a| <= |b|
    ensures |a| == |b| ==> a == b
  {
    assert b == a + (b - a);
    assert |b| == |a| + |b - a|;
  }

  lemma ElementsAppend<T>(s: seq<T>, x: T)
    ensures Elements(s + [x]) == Elements(s) + {x}
  {
    assert forall y :: y in s + [x] <==> y in s || y == x;
  }

  /** Distinct elements drawn from a set are at most as many as the set has. */
  lemma DistinctFits<T>(s: seq<T>, universe: set<T>)
    requires Distinct(s) && Elements(s) <= universe
    ensures |s| <= |universe|
    ensures |s| == |universe| ==> Elements(s) == universe
  {
    DistinctCounts(s);
    SubsetSize(Elements(s), universe);
  }

  /** Sorting distinct elements by a total order leaves them strictly increasing. */
  lemma SortedDistinctIncreases<T(!new)>(s: seq<T>, less: (T, T) -> bool)
    requires TotalOrder(less) && SortedBy(s, less) && Distinct(s)
    ensures Increasing(s, less)
  {
  }

  lemma SortedListing<T(!new)>(listed: seq<T>, less: (T, T) -> bool)
    requires TotalOrder(less) && Distinct(listed)
    ensures Increasing(SortBy(listed, less), less) && Elements(SortBy(listed, less)) == Elements(listed)
  {
    SortByCorrect(listed, less);
    PermutedDistinct(listed, SortBy(listed, less));
    SortedDistinctIncreases(SortBy(listed, less), less);
    assert forall x :: x in Elements(SortBy(listed, less)) <==> x in Elements(listed);
  }

  /** The members of a set in increasing order. */
  method ListMembers<T(!new, ==)>(members: set<T>, less: (T, T) -> bool) returns (q: seq<T>)
    requires TotalOrder(less)
    ensures Increasing(q, less) && Elements(q) == members
  {
    var rest := members;
    q := [];
    while rest != {}
      invariant rest <= members && Distinct(q) && Elements(q) == members - rest
    {
      var x :| x in rest;
      ElementsAppend(q, x);
      q, rest := q + [x], rest - {x};
    }
    SortedListing(q, less);
    q := SortBy(q, less);
  }

  /** What iterating a `BTreeSet` of names yields. */
  method SortedMembers(names: set<Name>) returns (q: seq<Name>)
    ensures Increasing(q, NameLess) && Elements(q) == names
  {
    NameOrder();
    q := ListMembers(names, NameLess);
  }

  lemma {:induction false} EnumerationExists<T>(members: set<T>) returns (q: seq<T>)
    ensures Distinct(q) && Elements(q) == members
  {
    if members == {} {
      q := [];
    } else {
      var x :| x in members;
      q := EnumerationExists(members - {x});
      ElementsAppend(q, x);
      assert forall y | y in q :: y in Elements(q);
      q := q + [x];
    }
  }

  lemma ListingExists<T(!new)>(members: set<T>, less: (T, T) -> bool) returns (q: seq<T>)
    requires TotalOrder(less)
    ensures Increasing(q, less) && Elements(q) == members
  {
    var listed := EnumerationExists(members);
    SortedListing(listed, less);
    q := SortBy(listed, less);
  }

  /** A set has one increasing listing. */
  lemma {:induction false} ListingUnique<T(!new)>(s: seq<T>, t: seq<T>, less: (T, T) -> bool)
    requires TotalOrder(less) && Increasing(s, less) && Increasing(t, less)
    requires Elements(s) == Elements(t)
    ensures s == t
  {
    assert Distinct(s) by { forall i, j | 0 <= i < j < |s| ensures s[i] != s[j] { assert less(s[i], s[j]); } }
    assert Distinct(t) by { forall i, j | 0 <= i < j < |t| ensures t[i] != t[j] { assert less(t[i], t[j]); } }
    DistinctCounts(s);
    DistinctCounts(t);
    SortedUnique(s, t, less);
  }
}
