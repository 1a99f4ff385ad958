/**
 A bounded cache in recency order, most recently used first.
 */
module Lru {
  import opened Wrappers

  /** a comes before b. */
  ghost predicate Precedes<K>(s: seq<K>, a: K, b: K)
  {
    exists i, j :: 0 <= i < j < |s| && s[i] == a && s[j] == b
  }

  datatype Lru<K(!new, ==), V> = Lru(capacity: nat, recency: seq<K>, values: map<K, V>) {

    ghost predicate Valid()
    {
      && |recency| <= capacity && capacity > 0
      && (forall i, j :: 0 <= i < j < |recency| ==> recency[i] != recency[j])
      && (forall k :: k in recency <==> k in values)
    }

    /** A hit moves the key to the front and changes no value. */
    function Touch(k: K): (c: Lru<K, V>)
      requires Valid()
      ensures c.Valid() && c.values == values && c.capacity == capacity
      ensures k in values ==> c.recency[0] == k
      ensures forall a, b :: a != k && b != k ==> (Precedes(c.recency, a, b) <==> Precedes(recency, a, b))
    {
      if k !in values then this else
        WithoutElements(recency, k);
        WithoutOrder(recency, k);
        this.(recency := [k] + Without(recency, k))
    }

    function Get(k: K): (r: Option<V>)
      ensures r == None <==> k !in values
    {
      if k in values then Some(values[k]) else None
    }

    /**
     Storing keeps the key itself and, of the others, all but at most the least
     recently used one.
     */
    function Put(k: K, v: V): (c: Lru<K, V>)
      requires Valid()
      ensures c.Valid() && c.capacity == capacity
      ensures k in c.values && c.values[k] == v && c.recency[0] == k
      ensures forall q :: q in c.values && q != k ==> q in values && c.values[q] == values[q]
      ensures forall q :: q in values && q !in c.values ==>
        k !in values && |recency| == capacity && q == recency[|recency| - 1]
      ensures forall a, b :: a != k && b != k && a in c.values && b in c.values ==>
        (Precedes(c.recency, a, b) <==> Precedes(recency, a, b))
    {
      KeptOrder(recency, k, capacity);
      KeptDistinct(recency, k, capacity);
      KeptElements(recency, k, capacity);
      var kept := Kept(recency, k, capacity);
      this.(recency := kept, values := map q | q in kept :: if q == k then v else values[q])
    }

    function Pop(k: K): (c: Lru<K, V>)
      requires Valid()
      ensures c.Valid() && c.capacity == capacity
      ensures c.values == values - {k}
      ensures forall a, b :: a != k && b != k ==> (Precedes(c.recency, a, b) <==> Precedes(recency, a, b))
    {
      WithoutElements(recency, k);
      WithoutOrder(recency, k);
      this.(recency := Without(recency, k), values := values - {k})
    }
  }

  function Empty<K(!new, ==), V>(capacity: nat): (c: Lru<K, V>)
    requires capacity > 0
    ensures c.Valid() && c.capacity == capacity && c.values == map[]
  {
    Lru.Lru(capacity, [], map[])
  }

  function Without<K(==)>(s: seq<K>, k: K): seq<K>
  {
    if |s| == 0 then [] else
    if s[0] == k then Without(s[1..], k) else [s[0]] + Without(s[1..], k)
  }

  lemma {:induction false} WithoutElements<K>(s: seq<K>, k: K)
    requires forall i, j :: 0 <= i < j < |s| ==> s[i] != s[j]
    ensures forall i, j :: 0 <= i < j < |Without(s, k)| ==> Without(s, k)[i] != Without(s, k)[j]
    ensures forall q :: q in Without(s, k) <==> q in s && q != k
    ensures |Without(s, k)| == if k in s then |s| - 1 else |s|
  {
    if |s| > 0 {
      WithoutElements(s[1..], k);
      assert s == [s[0]] + s[1..];
      assert s[0] !in s[1..];
    }
  }

  lemma PrecedesCons<K>(x: K, s: seq<K>, a: K, b: K)
    ensures Precedes([x] + s, a, b) <==> (x == a && b in s) || Precedes(s, a, b)
  {
    var t := [x] + s;
    if x == a && b in s {
      var j :| 0 <= j < |s| && s[j] == b;
      assert t[0] == a && t[j + 1] == b;
    } else if Precedes(s, a, b) {
      var i, j :| 0 <= i < j < |s| && s[i] == a && s[j] == b;
      assert t[i + 1] == a && t[j + 1] == b;
    }
    if Precedes(t, a, b) {
      var i, j :| 0 <= i < j < |t| && t[i] == a && t[j] == b;
      assert s[j - 1] == b;
      if i > 0 { assert s[i - 1] == a; }
    }
  }

  lemma {:induction false} WithoutPair<K>(s: seq<K>, k: K, a: K, b: K)
    requires a != k && b != k
    ensures (b in Without(s, k) <==> b in s) && (Precedes(Without(s, k), a, b) <==> Precedes(s, a, b))
  {
    if |s| > 0 {
      WithoutPair(s[1..], k, a, b);
      assert s == [s[0]] + s[1..];
      PrecedesCons(s[0], s[1..], a, b);
      PrecedesCons(s[0], Without(s[1..], k), a, b);
    }
  }

  /** Taking out k leaves the others in order; so does putting it in front. */
  lemma WithoutOrder<K(!new)>(s: seq<K>, k: K)
    ensures forall a, b :: a != k && b != k ==> (Precedes(Without(s, k), a, b) <==> Precedes(s, a, b))
    ensures forall a, b :: a != k && b != k ==> (Precedes([k] + Without(s, k), a, b) <==> Precedes(s, a, b))
  {
    forall a, b | a != k && b != k
      ensures Precedes(Without(s, k), a, b) <==> Precedes(s, a, b)
      ensures Precedes([k] + Without(s, k), a, b) <==> Precedes(s, a, b)
    {
      WithoutPair(s, k, a, b);
      PrecedesCons(k, Without(s, k), a, b);
    }
  }

  lemma KeptOrder<K(!new)>(s: seq<K>, k: K, capacity: nat)
    requires forall i, j :: 0 <= i < j < |s| ==> s[i] != s[j]
    ensures var r := Kept(s, k, capacity);
      forall a, b :: a != k && b != k && a in r && b in r ==> (Precedes(r, a, b) <==> Precedes(s, a, b))
  {
    var r, order := Kept(s, k, capacity), [k] + Without(s, k);
    WithoutElements(s, k);
    WithoutOrder(s, k);
    forall a, b | a != k && b != k && a in r && b in r ensures Precedes(r, a, b) <==> Precedes(s, a, b) {
      PrefixOrder(order, |r|, a, b);
    }
  }

  lemma PrefixOrder<K>(s: seq<K>, n: nat, a: K, b: K)
    requires n <= |s| && (forall i, j :: 0 <= i < j < |s| ==> s[i] != s[j]) && a in s[..n] && b in s[..n]
    ensures Precedes(s[..n], a, b) <==> Precedes(s, a, b)
  {
    var i :| 0 <= i < n && s[..n][i] == a;
    var j :| 0 <= j < n && s[..n][j] == b;
    assert s[i] == a && s[j] == b;
  }

  lemma InWithout<K>(s: seq<K>, k: K, q: K)
    requires forall i, j :: 0 <= i < j < |s| ==> s[i] != s[j]
    requires q in Without(s, k)
    ensures q in s && q != k
  {
  }

  lemma {:induction false} WithoutAbsent<K>(s: seq<K>, k: K)
    requires k !in s
    ensures Without(s, k) == s
  {
    if |s| > 0 { WithoutAbsent(s[1..], k); }
  }

  /** The order after a use of `k`, cut to the capacity. */
  function Kept<K(==)>(s: seq<K>, k: K, capacity: nat): seq<K>
  {
    var order := [k] + Without(s, k);
    if |order| <= capacity then order else order[..capacity]
  }

  lemma KeptDistinct<K>(s: seq<K>, k: K, capacity: nat)
    requires forall i, j :: 0 <= i < j < |s| ==> s[i] != s[j]
    ensures var r := Kept(s, k, capacity);
      |r| <= capacity && forall i, j :: 0 <= i < j < |r| ==> r[i] != r[j]
  {
    WithoutElements(s, k);
  }

  lemma KeptSome<K>(s: seq<K>, k: K, capacity: nat)
    requires forall i, j :: 0 <= i < j < |s| ==> s[i] != s[j]
    requires capacity > 0
    ensures k in Kept(s, k, capacity)
    ensures forall q :: q in Kept(s, k, capacity) ==> q == k || q in s
  {
    var rest, kept := Without(s, k), Kept(s, k, capacity);
    assert kept[0] == k;
    forall i | 0 < i < |kept| ensures kept[i] in s { InWithout(s, k, rest[i - 1]); }
  }

  /** Only a full cache drops a key, only for a new one, and then its last. */
  lemma KeptElements<K>(s: seq<K>, k: K, capacity: nat)
    requires forall i, j :: 0 <= i < j < |s| ==> s[i] != s[j]
    requires |s| <= capacity && capacity > 0
    ensures k in Kept(s, k, capacity)
    ensures forall q :: q in Kept(s, k, capacity) ==> q == k || q in s
    ensures forall q :: q in s && q !in Kept(s, k, capacity) ==> k !in s && |s| == capacity && q == s[|s| - 1]
  {
    KeptSome(s, k, capacity);
    forall q | q in s && q !in Kept(s, k, capacity) ensures k !in s && |s| == capacity && q == s[|s| - 1] {
      Dropped(s, k, capacity, q);
    }
  }

  lemma Dropped<K>(s: seq<K>, k: K, capacity: nat, q: K)
    requires forall i, j :: 0 <= i < j < |s| ==> s[i] != s[j]
    requires |s| <= capacity && capacity > 0 && q in s && q !in Kept(s, k, capacity)
    ensures k !in s && |s| == capacity && q == s[|s| - 1]
  {
    KeptWithRoom(s, k, capacity, q);
    WithoutAbsent(s, k);
    InFront(k, s, capacity, q);
  }

  /** With room, or without a new key, nothing goes. */
  lemma KeptWithRoom<K>(s: seq<K>, k: K, capacity: nat, q: K)
    requires forall i, j :: 0 <= i < j < |s| ==> s[i] != s[j]
    requires |s| <= capacity && q in s
    ensures k in s || |s| < capacity ==> q in Kept(s, k, capacity)
  {
    var rest := Without(s, k);
    WithoutElements(s, k);
    InFront(k, rest, |rest| + 1, q);
  }

  /** Of k and the entries of s, the first n are k and the first n - 1 of s. */
  lemma InFront<K>(k: K, s: seq<K>, n: nat, q: K)
    requires 0 < n <= |s| + 1
    ensures q in ([k] + s)[..n] <==> q == k || q in s[..n - 1]
    ensures n == |s| && q in s && q !in s[..n - 1] ==> q == s[|s| - 1]
    ensures n == |s| + 1 ==> ([k] + s)[..n] == [k] + s && s[..n - 1] == s
  {
    assert ([k] + s)[..n] == [k] + s[..n - 1];
    if n == |s| { assert s == s[..n - 1] + [s[n - 1]]; }
  }
}
