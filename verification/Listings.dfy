/**
 Sets of numbers listed in ascending order.
 */
module Listings {
  import opened Sorting

  ghost predicate Listing(ks: seq<nat>, s: set<nat>)
  {
    && (forall i, j :: 0 <= i < j < |ks| ==> ks[i] < ks[j])
    && (forall p :: p in s <==> p in ks)
  }

  lemma ListingInit(ks: seq<nat>, s: set<nat>)
    requires Listing(ks, s) && |ks| > 0
    ensures Listing(ks[..|ks| - 1], s - {ks[|ks| - 1]})
    ensures ks[|ks| - 1] in s && forall p :: p in s ==> p <= ks[|ks| - 1]
  {
  }

  lemma ListingEmpty(ks: seq<nat>, s: set<nat>)
    requires Listing(ks, s)
    ensures |ks| == 0 <==> s == {}
  {
    assert |ks| > 0 ==> ks[0] in ks;
  }

  /** A set has one listing, whatever order its elements came in. */
  lemma {:induction false} ListingUnique(a: seq<nat>, b: seq<nat>, s: set<nat>)
    requires Listing(a, s) && Listing(b, s)
    ensures a == b && |a| == |s|
    decreases |a|
  {
    ListingEmpty(a, s); ListingEmpty(b, s);
    if |a| > 0 {
      var k := |a| - 1;
      ListingInit(a, s); ListingInit(b, s);
      assert a[k] == b[|b| - 1];
      ListingUnique(a[..k], b[..|b| - 1], s - {a[k]});
    }
  }

  lemma {:induction false} ListingExists(s: set<nat>)
    ensures exists ks :: Listing(ks, s)
  {
    if s == {} {
      assert Listing([], s);
    } else {
      var p := Largest(s);
      ListingExists(s - {p});
      var ks :| Listing(ks, s - {p});
      forall q ensures q in s <==> q in ks + [p] {
        assert q in s <==> q == p || q in s - {p};
      }
      forall i | 0 <= i < |ks| ensures ks[i] < p { assert ks[i] in s - {p}; }
      assert Listing(ks + [p], s);
    }
  }

  lemma {:induction false} Largest(s: set<nat>) returns (p: nat)
    requires s != {}
    ensures p in s && forall q :: q in s ==> q <= p
    decreases s
  {
    p :| p in s;
    if s != {p} {
      var q := Largest(s - {p});
      assert forall r :: r in s ==> r == p || r in s - {p};
      if q > p { p := q; }
    }
  }

  ghost function Listed(s: set<nat>): (ks: seq<nat>)
    ensures Listing(ks, s) && |ks| == |s|
  {
    ListingExists(s);
    var ks :| Listing(ks, s);
    ListingUnique(ks, ks, s);
    ks
  }

  lemma {:induction false} SubsetSize(s: set<nat>, t: set<nat>)
    requires s <= t
    ensures |s| <= |t|
    ensures |s| == |t| ==> s == t
  {
    if s != {} {
      var x :| x in s;
      SubsetSize(s - {x}, t - {x});
    }
  }

  /** The elements in some order, as a hash map yields its keys. */
  method Collect(s: set<nat>) returns (ks: seq<nat>)
    ensures forall p :: p in s <==> p in ks
    ensures forall i, j :: 0 <= i < j < |ks| ==> ks[i] != ks[j]
  {
    ks := [];
    var rest := s;
    while rest != {}
      invariant rest <= s
      invariant forall q :: q in ks <==> q in s && q !in rest
      invariant forall i, j :: 0 <= i < j < |ks| ==> ks[i] != ks[j]
    {
      var p :| p in rest;
      assert forall q :: q in ks + [p] <==> q in ks || q == p;
      ks := ks + [p];
      rest := rest - {p};
    }
  }

  predicate AtMost(a: nat, b: nat) { a <= b }

  lemma AtMostIsTotal()
    ensures TotalPreorder<nat>(AtMost)
  {
    forall a: nat, b: nat, c: nat
      ensures (AtMost(a, b) || AtMost(b, a)) && (AtMost(a, b) && AtMost(b, c) ==> AtMost(a, c))
    {
    }
  }

  lemma {:induction false} CountsOne(s: seq<nat>, p: nat)
    requires forall i, j :: 0 <= i < j < |s| ==> s[i] != s[j]
    ensures multiset(s)[p] <= 1
  {
    if |s| > 0 {
      var k := |s| - 1;
      assert s == s[..k] + [s[k]];
      CountsOne(s[..k], p);
      assert p in s[..k] <==> p in multiset(s[..k]);
      if s[k] == p { assert forall i :: 0 <= i < k ==> s[..k][i] == s[i] != p; }
    }
  }

  lemma SortedListing(ks: seq<nat>, sorted: seq<nat>, s: set<nat>)
    requires forall p :: p in s <==> p in ks
    requires forall i, j :: 0 <= i < j < |ks| ==> ks[i] != ks[j]
    requires SortedBy(AtMost, sorted) && multiset(sorted) == multiset(ks)
    ensures Listing(sorted, s)
  {
    forall p ensures p in s <==> p in sorted {
      assert p in ks <==> p in multiset(ks);
      assert p in sorted <==> p in multiset(sorted);
    }
    forall i, j | 0 <= i < j < |sorted| ensures sorted[i] < sorted[j] {
      assert AtMost(sorted[i], sorted[j]);
      CountsOne(ks, sorted[i]);
      assert sorted == sorted[..j] + sorted[j..];
      assert sorted[i] in multiset(sorted[..j]) && sorted[j] in multiset(sorted[j..]);
    }
  }

  /** The set in order, whatever order its elements were found in. */
  method InOrder(s: set<nat>) returns (ks: seq<nat>)
    ensures ks == Listed(s)
  {
    var collected := Collect(s);
    AtMostIsTotal();
    ks := Sort(AtMost, collected);
    SortedListing(collected, ks, s);
    ListingUnique(ks, Listed(s), s);
  }
}
