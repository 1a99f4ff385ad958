/**
 The same arithmetic on eight-bit words.  On words, multiplication is one
 straight-line expression, so products of constants can be computed by the
 verifier; the lemmas here carry the results over to `GF256`.
 */
module BitVectors {
  import opened Bytes
  import opened GF256

  lemma Half(x: bv8)
    ensures (x >> 1) as int == (x as int) / 2
  {
  }

  lemma Parity(x: bv8)
    ensures (x & 1) as int == (x as int) % 2
  {
  }

  lemma SameParity(x: bv8, y: bv8)
    ensures (x & 1 == y & 1) == ((x as int) % 2 == (y as int) % 2)
  {
    Parity(x); Parity(y);
  }

  lemma XorSplit(x: bv8, y: bv8)
    ensures (x ^ y) as int == 2 * (((x >> 1) ^ (y >> 1)) as int) + (if x & 1 == y & 1 then 0 else 1)
  {
  }

  lemma XorWordStep(x: bv8, y: bv8, a: nat, b: nat, a': nat, b': nat, r: nat)
    requires a == x as int && b == y as int && r == (x ^ y) as int
    requires a' == a / 2 && b' == b / 2 && Xor(a', b') == ((x >> 1) ^ (y >> 1)) as int
    ensures Xor(a, b) == r
  {
    XorHalf(a, b);
    assert r == 2 * Xor(a', b') + (if a % 2 == b % 2 then 0 else 1) by {
      SameParity(x, y);
      XorSplit(x, y);
    }
  }

  lemma Halves(x: bv8, y: bv8) returns (a: nat, b: nat, r: nat)
    ensures a == (x >> 1) as int == (x as int) / 2
    ensures b == (y >> 1) as int == (y as int) / 2
    ensures r == ((x >> 1) ^ (y >> 1)) as int
  {
    a, b, r := (x >> 1) as int, (y >> 1) as int, ((x >> 1) ^ (y >> 1)) as int;
    Half(x); Half(y);
  }

  lemma {:induction false} XorWord(x: bv8, y: bv8, a: nat, b: nat, r: nat)
    requires a == x as int && b == y as int && r == (x ^ y) as int
    ensures Xor(a, b) == r
    decreases a
  {
    if a == 0 {
      ZeroXor(x, y);
    } else {
      var a', b', r' := Halves(x, y);
      XorWord(x >> 1, y >> 1, a', b', r');
      XorWordStep(x, y, a, b, a', b', r);
    }
  }

  lemma ZeroXor(x: bv8, y: bv8)
    requires x as int == 0
    ensures (x ^ y) as int == y as int
  {
  }

  function XTimeWord(x: bv8): bv8
  {
    if x & 0x80 != 0 then (x << 1) ^ 0x1B else x << 1
  }

  lemma ShiftLeft(x: bv8)
    ensures (x & 0x80 != 0) == (x as int >= 128)
    ensures (x << 1) as int == if x as int >= 128 then 2 * (x as int) - 256 else 2 * (x as int)
  {
  }

  lemma XTimeIsWord(x: bv8)
    ensures XTime(x as int) == XTimeWord(x) as int
  {
    ShiftLeft(x);
    XorWord(x << 1, 0x1B, (x << 1) as int, 0x1B, ((x << 1) ^ 0x1B) as int);
  }

  function Pick(b: bv8, bit: bv8, a: bv8): bv8
  {
    if b & bit != 0 then a else 0
  }

  function MulWord(a: bv8, b: bv8, n: nat): bv8
    decreases n
  {
    if n == 0 then 0 else Pick(b, 1, a) ^ MulWord(XTimeWord(a), b >> 1, n - 1)
  }

  lemma PickIsTerm(a: bv8, b: bv8) returns (t: nat)
    ensures t == Pick(b, 1, a) as int == Term(a as int, b as int)
  {
    t := Pick(b, 1, a) as int;
    Parity(b);
  }

  lemma XorNat(p: bv8, r: bv8) returns (t: nat, s: nat, u: nat)
    ensures t == p as int && s == r as int && u == (p ^ r) as int == Xor(t, s)
  {
    t, s, u := p as int, r as int, (p ^ r) as int;
    XorWord(p, r, t, s, u);
  }

  lemma MulStep(a: bv8, b: bv8, r: bv8, m: nat, n: nat)
    requires m == a as int && n == b as int
    requires Mul(XTime(m), n / 2) == r as int
    ensures Mul(m, n) == (Pick(b, 1, a) ^ r) as int
  {
    var t := PickIsTerm(a, b);
    var t', s, u := XorNat(Pick(b, 1, a), r);
    MulUnfold(m, n);
  }

  lemma Next(a: bv8, b: bv8) returns (m: nat, n: nat)
    ensures m == XTimeWord(a) as int == XTime(a as int)
    ensures n == (b >> 1) as int == (b as int) / 2
  {
    m, n := XTimeWord(a) as int, (b >> 1) as int;
    XTimeIsWord(a); Half(b);
  }

  function Pow2(n: nat): nat
  {
    if n == 0 then 1 else 2 * Pow2(n - 1)
  }

  lemma {:induction false} MulIsWord(a: bv8, b: bv8, k: nat, m: nat, n: nat)
    requires m == a as int && n == b as int && n < Pow2(k)
    ensures Mul(m, n) == MulWord(a, b, k) as int
    decreases k
  {
    if k != 0 {
      var m', n' := Next(a, b);
      MulIsWord(XTimeWord(a), b >> 1, k - 1, m', n');
      MulWordStep(a, b, k, m, n);
    }
  }

  lemma MulWordStep(a: bv8, b: bv8, k: nat, m: nat, n: nat)
    requires m == a as int && n == b as int && k != 0
    requires Mul(XTime(m), n / 2) == MulWord(XTimeWord(a), b >> 1, k - 1) as int
    ensures Mul(m, n) == MulWord(a, b, k) as int
  {
    MulStep(a, b, MulWord(XTimeWord(a), b >> 1, k - 1), m, n);
  }

  /** A product of octets, computed on words. */
  lemma Product(a: bv8, b: bv8, c: bv8)
    requires MulWord(a, b, 8) == c
    ensures Mul(a as int, b as int) == c as int
  {
    assert Pow2(8) == 256;
    MulIsWord(a, b, 8, a as int, b as int);
  }
}
