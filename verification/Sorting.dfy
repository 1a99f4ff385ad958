/**
 Sorting by a total order, as the standard library's `sort_by` does it, and the
 fact that makes sorted output canonical.
 */
module Sorting {

  predicate Chain<T>(a: T, b: T, c: T) { true }

  /** Total and transitive; `Chain` marks the elements to which transitivity is applied. */
  ghost predicate TotalPreorder<T(!new)>(le: (T, T) -> bool)
  {
    forall a, b, c {:trigger Chain(a, b, c)} ::
      (le(a, b) || le(b, a)) && (le(a, b) && le(b, c) ==> le(a, c))
  }

  ghost predicate SortedBy<T>(le: (T, T) -> bool, s: seq<T>)
  {
    forall i, j :: 0 <= i < j < |s| ==> le(s[i], s[j])
  }

  function Inserted<T>(s: seq<T>, i: nat, x: T): (r: seq<T>)
    requires i <= |s|
    ensures |r| == |s| + 1 && r[i] == x
    ensures forall p :: 0 <= p < i ==> r[p] == s[p]
    ensures forall p :: i < p < |r| ==> r[p] == s[p - 1]
  {
    s[..i] + [x] + s[i..]
  }

  lemma InsertedElements<T>(s: seq<T>, i: nat, x: T)
    requires i <= |s|
    ensures multiset(Inserted(s, i, x)) == multiset(s) + multiset{x}
  {
    assert s == s[..i] + s[i..];
  }

  lemma InsertedSorted<T(!new)>(le: (T, T) -> bool, s: seq<T>, i: nat, x: T)
    requires TotalPreorder(le) && SortedBy(le, s) && i <= |s|
    requires i > 0 ==> le(s[i - 1], x)
    requires forall j :: i <= j < |s| ==> le(x, s[j])
    ensures SortedBy(le, Inserted(s, i, x))
  {
    forall j | 0 <= j < i ensures le(s[j], x) {
      if j < i - 1 { assert Chain(s[j], s[i - 1], x); }
    }
  }

  method Insert<T(!new)>(le: (T, T) -> bool, s: seq<T>, x: T) returns (r: seq<T>)
    requires TotalPreorder(le) && SortedBy(le, s)
    ensures SortedBy(le, r) && multiset(r) == multiset(s) + multiset{x}
  {
    var i := |s|;
    while i > 0 && !le(s[i - 1], x)
      invariant 0 <= i <= |s|
      invariant forall j :: i <= j < |s| ==> le(x, s[j])
    {
      i := i - 1;
      assert Chain(s[i], x, x);
    }
    InsertedSorted(le, s, i, x);
    InsertedElements(s, i, x);
    r := Inserted(s, i, x);
  }

  method Sort<T(!new)>(le: (T, T) -> bool, s: seq<T>) returns (r: seq<T>)
    requires TotalPreorder(le)
    ensures SortedBy(le, r) && multiset(r) == multiset(s)
  {
    r := [];
    for n := 0 to |s|
      invariant SortedBy(le, r) && multiset(r) == multiset(s[..n])
    {
      assert s[..n + 1] == s[..n] + [s[n]];
      r := Insert(le, r, s[n]);
    }
    assert s[..|s|] == s;
  }

  /** Elements equal in the order are equal. */
  ghost predicate Antisymmetric<T>(le: (T, T) -> bool, s: seq<T>)
  {
    forall i, j :: 0 <= i < |s| && 0 <= j < |s| && le(s[i], s[j]) && le(s[j], s[i]) ==> s[i] == s[j]
  }

  /** Two sorted arrangements of the same elements are the same. */
  lemma {:induction false} SortedUnique<T(!new)>(le: (T, T) -> bool, a: seq<T>, b: seq<T>)
    requires SortedBy(le, a) && SortedBy(le, b) && multiset(a) == multiset(b) && Antisymmetric(le, a)
    ensures a == b
    decreases |a|
  {
    assert |multiset(a)| == |multiset(b)|;
    if |a| > 0 {
      var m := |a| - 1;
      SameLast(le, a, b);
      WithoutLast(a); WithoutLast(b);
      SortedUnique(le, a[..m], b[..m]);
    }
  }

  lemma WithoutLast<T>(a: seq<T>)
    requires |a| > 0
    ensures a == a[..|a| - 1] + [a[|a| - 1]]
    ensures multiset(a[..|a| - 1]) == multiset(a) - multiset{a[|a| - 1]}
  {
  }

  lemma SameLast<T(!new)>(le: (T, T) -> bool, a: seq<T>, b: seq<T>)
    requires |a| == |b| > 0 && SortedBy(le, a) && SortedBy(le, b) && multiset(a) == multiset(b) && Antisymmetric(le, a)
    ensures a[|a| - 1] == b[|b| - 1]
  {
    var m := |a| - 1;
    assert a[m] in multiset(b) && b[m] in multiset(a);
    var i :| 0 <= i < |b| && b[i] == a[m];
    var j :| 0 <= j < |a| && a[j] == b[m];
    assert j < m ==> le(a[j], a[m]);
    assert i < m ==> le(b[i], b[m]);
  }

  ghost predicate DistinctBy<T>(key: T -> nat, s: seq<T>)
  {
    forall i, j :: 0 <= i < j < |s| ==> key(s[i]) != key(s[j])
  }

  lemma OnlyOnce<T>(key: T -> nat, s: seq<T>, p: nat)
    requires DistinctBy(key, s) && p < |s|
    ensures multiset(s)[s[p]] == 1
  {
    var before, after := s[..p], s[p + 1..];
    assert s == before + [s[p]] + after;
    assert forall q :: 0 <= q < |before| ==> before[q] != s[p];
    assert forall q :: 0 <= q < |after| ==> after[q] != s[p];
    assert s[p] !in before && s[p] !in after;
  }

  /** Distinct keys stay distinct in any order. */
  lemma DistinctInAnyOrder<T>(key: T -> nat, a: seq<T>, b: seq<T>)
    requires multiset(a) == multiset(b) && DistinctBy(key, a)
    ensures DistinctBy(key, b)
  {
    forall i, j | 0 <= i < j < |b| ensures key(b[i]) != key(b[j]) {
      assert b[i] in multiset(a) && b[j] in multiset(a);
      var p :| 0 <= p < |a| && a[p] == b[i];
      var q :| 0 <= q < |a| && a[q] == b[j];
      OnlyOnce(key, a, p);
      assert b == b[..j] + b[j..];
      assert b[i] in multiset(b[..j]) && b[j] in multiset(b[j..]);
    }
  }
}
