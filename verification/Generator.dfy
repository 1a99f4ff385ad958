/**
 0x03 generates the multiplicative group of GF(2^8): its powers 0..254 are the
 255 non-zero octets, each once.
 */
module Generator {
  import opened Bytes
  import opened GF256
  import opened Listings
  import BitVectors

  const GENERATOR: byte := 3

  /** The powers 0..254 of g are distinct and non-zero. */
  ghost predicate Generates(g: byte)
  {
    && (forall i, j :: 0 <= i < j < 255 ==> Pow(g, i) != Pow(g, j))
    && (forall i :: 0 <= i < 255 ==> Pow(g, i) != 0)
  }

  ghost predicate Primitive(g: byte)
  {
    Pow(g, 255) == 1 && Generates(g)
  }

  // ----- the order of the generator -----

  lemma Product(m: nat, n: nat, u: bv8, v: bv8, w: bv8)
    requires Pow(GENERATOR, m) == u as int && Pow(GENERATOR, n) == v as int
    requires BitVectors.MulWord(u, v, 8) == w
    ensures Pow(GENERATOR, m + n) == w as int
  {
    PowAdd(GENERATOR, m, n);
    BitVectors.Product(u, v, w);
  }

  lemma Pow1()
    ensures Pow(GENERATOR, 1) == 3
  {
    MulOneLeft(GENERATOR);
  }

  lemma Pow17()
    ensures Pow(GENERATOR, 16) == 0x5F && Pow(GENERATOR, 17) == 0xE1
  {
    Pow1();
    Product(1, 1, 0x03, 0x03, 0x05);
    Product(2, 2, 0x05, 0x05, 0x11);
    Product(4, 4, 0x11, 0x11, 0x1A);
    Product(8, 8, 0x1A, 0x1A, 0x5F);
    Product(16, 1, 0x5F, 0x03, 0xE1);
  }

  lemma Pow255()
    ensures Pow(GENERATOR, 51) == 0x0C && Pow(GENERATOR, 85) == 0xBD && Pow(GENERATOR, 255) == 1
  {
    Pow17();
    Product(17, 17, 0xE1, 0xE1, 0x5C);
    Product(34, 17, 0x5C, 0xE1, 0x0C);
    Product(34, 34, 0x5C, 0x5C, 0xE0);
    Product(68, 17, 0xE0, 0xE1, 0xBD);
    Product(85, 85, 0xBD, 0xBD, 0xBC);
    Product(170, 85, 0xBC, 0xBD, 0x01);
  }

  lemma Pow15()
    ensures Pow(GENERATOR, 15) != 1
  {
    Pow1(); Pow17();
    PowAdd(GENERATOR, 15, 1);
    MulOneLeft(GENERATOR);
  }

  lemma Divide255(d: nat) returns (q: nat, r: nat)
    requires 0 < d < 255
    ensures q * d + r == 255 && r < d
    ensures r == 0 ==> d in {1, 3, 5, 15, 17, 51, 85}
  {
    q, r := 255 / d, 255 % d;
    assert q * d + r == 255;
    if r == 0 { Divisors255(d, q); }
  }

  lemma Divisors255(d: nat, q: nat)
    requires q * d == 255 && d != 255
    ensures d in {1, 3, 5, 15, 17, 51, 85}
  {
  }

  lemma NotOneAtDivisor(d: nat)
    requires d in {1, 3, 5, 15, 17, 51, 85}
    ensures Pow(GENERATOR, d) != 1
  {
    Pow15(); Pow17(); Pow255();
    if Pow(GENERATOR, d) == 1 && 15 % d == 0 {
      PowMultiple(GENERATOR, d, 15 / d);
    }
  }

  /** An exponent below 255 that gave 1 would leave a remainder of 255 that does, down to a divisor. */
  lemma {:induction false} OrderIs255(d: nat)
    requires 0 < d < 255
    ensures Pow(GENERATOR, d) != 1
    decreases d
  {
    if Pow(GENERATOR, d) == 1 {
      Pow255();
      var q, r := Divide255(d);
      if r == 0 {
        NotOneAtDivisor(d);
      } else {
        PowRemainder(GENERATOR, 255, d, q, r);
        OrderIs255(r);
      }
    }
  }

  /** Cancelling the smaller of two equal powers leaves a power equal to 1. */
  lemma PowCancel(g: byte, n: nat, i: nat, j: nat)
    requires i < j < n && Pow(g, n) == 1 && Pow(g, i) == Pow(g, j)
    ensures Pow(g, j - i) == 1
  {
    PowAdd(g, i, n - i);
    PowAdd(g, j, n - i);
    PowAdd(g, j - i, n);
    MulOneRight(Pow(g, j - i));
  }

  lemma GeneratorIsPrimitive()
    ensures Primitive(GENERATOR)
  {
    Pow255();
    forall i, j | 0 <= i < j < 255 ensures Pow(GENERATOR, i) != Pow(GENERATOR, j) {
      if Pow(GENERATOR, i) == Pow(GENERATOR, j) {
        PowCancel(GENERATOR, 255, i, j);
        OrderIs255(j - i);
      }
    }
    forall i | 0 <= i < 255 ensures Pow(GENERATOR, i) != 0 {
      PowNonZero(GENERATOR, 255, i);
    }
  }

  // ----- counting: n distinct numbers between 1 and n are all of them -----

  function Upto(n: nat): (s: set<nat>)
    ensures |s| == n && forall x :: x in s <==> 1 <= x <= n
  {
    if n == 0 then {} else Upto(n - 1) + {n}
  }

  function Elements(s: seq<nat>): set<nat>
  {
    set x | x in s
  }

  lemma {:induction false} ElementsSize(s: seq<nat>)
    requires forall i, j :: 0 <= i < j < |s| ==> s[i] != s[j]
    ensures |Elements(s)| == |s|
  {
    if |s| > 0 {
      ElementsSize(s[1..]);
      assert s == [s[0]] + s[1..];
      assert s[0] !in s[1..];
      assert Elements(s) == {s[0]} + Elements(s[1..]);
    }
  }

  lemma Pigeonhole(s: seq<nat>, a: nat)
    requires forall i, j :: 0 <= i < j < |s| ==> s[i] != s[j]
    requires forall i :: 0 <= i < |s| ==> 1 <= s[i] <= |s|
    requires 1 <= a <= |s|
    ensures a in s
  {
    ElementsSize(s);
    assert forall x :: x in Elements(s) <==> x in s;
    SubsetSize(Elements(s), Upto(|s|));
  }

  lemma LogExists(g: byte, a: byte)
    requires Generates(g) && a != 0
    ensures exists i :: 0 <= i < 255 && Pow(g, i) == a
  {
    var s: seq<nat> := seq(255, i requires 0 <= i < 255 => Pow(g, i) as nat);
    Pigeonhole(s, a);
    var i :| 0 <= i < |s| && s[i] == a;
    assert Pow(g, i) == a;
  }
}
