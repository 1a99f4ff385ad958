/**
 Multiplication of octets as FIPS 197, section 4.2, defines it: multiply the
 polynomials over GF(2), then take the remainder modulo x^8 + x^4 + x^3 + x + 1.
 */
module Polynomials {
  import opened Arithmetic
  import opened Bytes
  import opened GF256

  const MODULUS: nat := 0x11B

  /** Product of polynomials over GF(2), without reduction. */
  function Product(a: nat, b: nat): nat
    decreases b
  {
    if b == 0 then 0 else Xor(if b % 2 == 1 then a else 0, Product(2 * a, b / 2))
  }

  /** x and y differ by a multiple of the modulus. */
  ghost predicate Congruent(x: nat, y: nat)
  {
    exists q: nat :: Xor(x, y) == Product(MODULUS, q)
  }

  lemma {:induction false} ProductXor(a: nat, b: nat, c: nat)
    ensures Product(a, Xor(b, c)) == Xor(Product(a, b), Product(a, c))
    decreases b
  {
    if b != 0 {
      ProductXor(2 * a, b / 2, c / 2);
      XorHalf(b, c);
      ProductUnfold(a, b); ProductUnfold(a, c); ProductUnfold(a, Xor(b, c));
      XorSwap(Low(a, b), Product(2 * a, b / 2), Low(a, c), Product(2 * a, c / 2));
      assert Low(a, Xor(b, c)) == Xor(Low(a, b), Low(a, c)) by { XorSelf(a); XorZero(a); }
    }
  }

  function Low(a: nat, b: nat): nat { if b % 2 == 1 then a else 0 }

  lemma ProductUnfold(a: nat, b: nat)
    ensures Product(a, b) == Xor(Low(a, b), Product(2 * a, b / 2))
  {
  }

  lemma {:induction false} ProductDouble(a: nat, b: nat)
    ensures Product(2 * a, b) == 2 * Product(a, b)
    decreases b
  {
    if b != 0 {
      ProductDouble(2 * a, b / 2);
      XorDouble(Low(a, b), Product(2 * a, b / 2));
    }
  }

  lemma XTimeUndone(a: byte)
    ensures 2 * a == Xor(XTime(a), if a >= 128 then MODULUS else 0)
  {
    XTimeReduce(a);
    XorCancel(2 * a, if a >= 128 then MODULUS else 0);
  }

  lemma NextQuotient(m: nat, q: nat, bit: nat)
    requires bit < 2
    ensures Product(m, 2 * q + bit) == Xor(if bit == 1 then m else 0, 2 * Product(m, q))
  {
    ProductUnfold(m, 2 * q + bit);
    ProductDouble(m, q);
  }

  /** Doubling a polynomial congruent to a gives one congruent to XTime(a). */
  lemma DoubleCongruent(x: nat, m: nat, a: byte, q: nat, bit: nat)
    requires m == MODULUS && x == Xor(a, Product(m, q)) && bit == if a >= 128 then 1 else 0
    ensures 2 * x == Xor(XTime(a), Product(m, 2 * q + bit))
  {
    var p, h := Product(m, q), if bit == 1 then m else 0;
    XorDouble(a, p);
    XTimeUndone(a);
    NextQuotient(m, q, bit);
    XorAssoc(XTime(a), h, 2 * p);
  }

  lemma {:induction false} MulCongruent(x: nat, m: nat, a: byte, b: byte, q: nat) returns (r: nat)
    requires m == MODULUS && x == Xor(a, Product(m, q))
    ensures Product(x, b) == Xor(Mul(a, b), Product(m, r))
    decreases b
  {
    if b == 0 {
      r := 0;
    } else {
      var bit := if a >= 128 then 1 else 0;
      DoubleCongruent(x, m, a, q, bit);
      var s := MulCongruent(2 * x, m, XTime(a), b / 2, 2 * q + bit);
      r := if b % 2 == 1 then Xor(q, s) else s;
      CollectTerms(x, m, a, b, q, s, r);
    }
  }

  lemma CollectTerms(x: nat, m: nat, a: byte, b: byte, q: nat, s: nat, r: nat)
    requires x == Xor(a, Product(m, q)) && r == if b % 2 == 1 then Xor(q, s) else s
    requires Product(2 * x, b / 2) == Xor(Mul(XTime(a), b / 2), Product(m, s))
    ensures Product(x, b) == Xor(Mul(a, b), Product(m, r))
  {
    ProductUnfold(x, b);
    MulUnfold(a, b);
    var t := Mul(XTime(a), b / 2);
    if b % 2 == 1 {
      XorSwap(a, Product(m, q), t, Product(m, s));
      ProductXor(m, q, s);
    }
  }

  /** Shift-and-xor multiplication gives the remainder of the polynomial product. */
  lemma MulIsRemainder(a: byte, b: byte)
    ensures Congruent(Product(a, b), Mul(a, b))
  {
    assert Product(MODULUS, 0) == 0;
    XorZero(a);
    var r := MulCongruent(a, MODULUS, a, b, 0);
    XorComm(Mul(a, b), Product(MODULUS, r));
    XorCancel(Product(MODULUS, r), Mul(a, b));
  }

  // ----- the remainder is unique -----

  lemma {:induction false} XorKeepsHigh(p: nat, x: nat, y: nat)
    requires PowerOfTwo(p) && x < p <= y
    ensures Xor(x, y) >= p
    decreases p
  {
    if p > 1 {
      XorHalf(x, y);
      XorKeepsHigh(p / 2, x / 2, y / 2);
    }
  }

  lemma {:induction false} MultipleIsLarge(p: nat, a: nat, q: nat)
    requires PowerOfTwo(p) && p <= a < 2 * p && q > 0
    ensures Product(a, q) >= p
    decreases q
  {
    if q / 2 == 0 {
      assert q == 1;
      ProductUnfold(a, 1);
      XorZero(a);
    } else {
      MultipleIsLarge(2 * p, 2 * a, q / 2);
      ProductUnfold(a, q);
      XorKeepsHigh(2 * p, Low(a, q), Product(2 * a, q / 2));
    }
  }

  /** Two octets congruent modulo the polynomial are equal. */
  lemma RemainderUnique(r: byte, s: byte)
    requires Congruent(r, s)
    ensures r == s
  {
    var q: nat :| Xor(r, s) == Product(MODULUS, q);
    if q > 0 {
      assert PowerOfTwo(256);
      MultipleIsLarge(256, MODULUS, q);
    }
    XorCancel(r, s);
  }
}
